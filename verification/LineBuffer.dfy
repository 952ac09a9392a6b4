/** The bounded log buffer against the whole text ever written to it. */
module LineBuffer {
  import opened Common

  type Text = seq<char>

  /** Taking the oldest line from an empty list. */
  datatype Panic = PopFromEmpty

  // ----- Lines of a text

  predicate Terminated(line: Text) {
    line != [] && line[|line| - 1] == '\n'
  }

  /** Adds one character to a list of lines. */
  function AddChar(lines: seq<Text>, c: char): seq<Text> {
    if lines == [] || Terminated(lines[|lines| - 1]) then lines + [[c]]
    else lines[..|lines| - 1] + [lines[|lines| - 1] + [c]]
  }

  /** The lines of a text, each with its newline; the last one may lack it. */
  function Lines(t: Text): seq<Text> {
    if t == [] then [] else AddChar(Lines(t[..|t| - 1]), t[|t| - 1])
  }

  /** A last line continued by more lines: an unterminated one takes the first of them. */
  function Continued(last: Text, more: seq<Text>): (r: seq<Text>)
    ensures r != []
  {
    if Terminated(last) || more == [] then [last] + more else [last + more[0]] + more[1..]
  }

  /** The lines of `a`, the last of them continued by `b`. */
  function Join(a: seq<Text>, b: seq<Text>): seq<Text> {
    if a == [] then b else a[..|a| - 1] + Continued(a[|a| - 1], b)
  }

  ghost predicate NoneEmpty(lines: seq<Text>) {
    forall i | 0 <= i < |lines| :: lines[i] != []
  }

  /** A newline can only be at the end of a line. */
  ghost predicate SingleLine(line: Text) {
    line != [] && forall j | 0 <= j < |line| - 1 :: line[j] != '\n'
  }

  /** Every line but the last ends in a newline, and no line has another one. */
  ghost predicate WellSplit(lines: seq<Text>) {
    && (forall i | 0 <= i < |lines| :: SingleLine(lines[i]))
    && forall i | 0 <= i < |lines| - 1 :: Terminated(lines[i])
  }

  lemma AddCharWellSplit(lines: seq<Text>, c: char)
    requires WellSplit(lines)
    ensures WellSplit(AddChar(lines, c))
  {
    if lines != [] && !Terminated(lines[|lines| - 1]) {
      assert SingleLine(lines[|lines| - 1] + [c]);
    } else {
      assert SingleLine([c]);
    }
  }

  lemma {:induction false} LinesWellSplit(t: Text)
    ensures WellSplit(Lines(t)) && NoneEmpty(Lines(t))
  {
    if t != [] {
      LinesWellSplit(t[..|t| - 1]);
      AddCharWellSplit(Lines(t[..|t| - 1]), t[|t| - 1]);
    }
  }

  lemma JoinAddChar(a: seq<Text>, b: seq<Text>, c: char)
    requires NoneEmpty(b)
    ensures AddChar(Join(a, b), c) == Join(a, AddChar(b, c))
  {
    if a != [] {
      var n := |a| - 1;
      AddCharConcat(a[..n], Continued(a[n], b), c);
      ContinuedAddChar(a[n], b, c);
    }
  }

  lemma AddCharConcat(a: seq<Text>, b: seq<Text>, c: char)
    requires b != []
    ensures AddChar(a + b, c) == a + AddChar(b, c)
  {
    assert (a + b)[|a + b| - 1] == b[|b| - 1] && (a + b)[..|a + b| - 1] == a + b[..|b| - 1];
  }

  lemma ContinuedAddChar(last: Text, b: seq<Text>, c: char)
    requires NoneEmpty(b)
    ensures AddChar(Continued(last, b), c) == Continued(last, AddChar(b, c))
  {
    if b == [] {
      assert [last] + b == [last] && [last][..0] == [];
    } else if Terminated(last) {
      AddCharConcat([last], b, c);
    } else if |b| == 1 {
      assert Terminated(last + b[0]) == Terminated(b[0]);
      assert (last + b[0]) + [c] == last + (b[0] + [c]);
    } else {
      AddCharConcat([last + b[0]], b[1..], c);
      AddCharConcat([b[0]], b[1..], c);
      assert b == [b[0]] + b[1..];
    }
  }

  lemma LinesPush(t: Text, c: char)
    ensures Lines(t + [c]) == AddChar(Lines(t), c)
  {
    assert (t + [c])[..|t|] == t;
  }

  lemma JoinNothing(a: seq<Text>)
    ensures Join(a, []) == a
  {
  }

  /** The lines of a text written in two parts. */
  lemma {:induction false} LinesConcat(s: Text, t: Text)
    ensures Lines(s + t) == Join(Lines(s), Lines(t))
  {
    if t == [] {
      assert s + t == s;
      JoinNothing(Lines(s));
    } else {
      var t', c := t[..|t| - 1], t[|t| - 1];
      assert t == t' + [c] && s + t == (s + t') + [c];
      calc {
        Lines(s + t);
        { LinesPush(s + t', c); }
        AddChar(Lines(s + t'), c);
        { LinesConcat(s, t'); }
        AddChar(Join(Lines(s), Lines(t')), c);
        { LinesWellSplit(t'); JoinAddChar(Lines(s), Lines(t'), c); }
        Join(Lines(s), AddChar(Lines(t'), c));
        { LinesPush(t', c); }
        Join(Lines(s), Lines(t));
      }
    }
  }

  function Flat(lines: seq<Text>): Text {
    if lines == [] then [] else Flat(lines[..|lines| - 1]) + lines[|lines| - 1]
  }

  function Lengths(lines: seq<Text>): seq<nat> {
    seq(|lines|, i requires 0 <= i < |lines| => |lines[i]|)
  }

  lemma {:induction false} FlatConcat(a: seq<Text>, b: seq<Text>)
    ensures Flat(a + b) == Flat(a) + Flat(b)
  {
    if b == [] {
      assert a + b == a;
    } else {
      var m := |b| - 1;
      FlatConcat(a, b[..m]);
      assert (a + b)[..|a| + m] == a + b[..m];
    }
  }

  lemma FlatAddChar(lines: seq<Text>, c: char)
    ensures Flat(AddChar(lines, c)) == Flat(lines) + [c]
  {
    if lines != [] && !Terminated(lines[|lines| - 1]) {
      JoinFlat(lines, [c]);
    } else {
      FlatOne([c]);
      FlatConcat(lines, [[c]]);
    }
  }

  /** Splitting into lines loses nothing. */
  lemma {:induction false} FlatLines(t: Text)
    ensures Flat(Lines(t)) == t
  {
    if t != [] {
      var t', c := t[..|t| - 1], t[|t| - 1];
      assert t == t' + [c];
      calc {
        Flat(Lines(t));
        { LinesPush(t', c); }
        Flat(AddChar(Lines(t'), c));
        { FlatAddChar(Lines(t'), c); }
        Flat(Lines(t')) + [c];
        { FlatLines(t'); }
        t;
      }
    }
  }

  function SumLengths(lengths: seq<nat>): nat {
    if lengths == [] then 0 else SumLengths(lengths[..|lengths| - 1]) + lengths[|lengths| - 1]
  }

  /** The recorded lengths add up to the length of the text. */
  lemma {:induction false} LengthsAddUp(lines: seq<Text>)
    ensures SumLengths(Lengths(lines)) == |Flat(lines)|
  {
    if lines != [] {
      LengthsAddUp(lines[..|lines| - 1]);
      assert Lengths(lines)[..|lines| - 1] == Lengths(lines[..|lines| - 1]);
    }
  }

  lemma FlatOne(line: Text)
    ensures Flat([line]) == line
  {
    assert [line][..0] == [];
  }

  /** The last `n` lines, or all if there are fewer. */
  function Tail(lines: seq<Text>, n: nat): seq<Text> {
    if |lines| <= n then lines else lines[|lines| - n..]
  }

  /** How many lines a buffer of the given capacity keeps: one less, where there is one. */
  function Room(capacity: nat): nat {
    if capacity == 0 then 0 else capacity - 1
  }

  /** The lines a buffer of the given capacity keeps. */
  function Kept(capacity: Option<nat>, lines: seq<Text>): seq<Text> {
    if capacity.None? then lines else Tail(lines, Room(capacity.value))
  }

  lemma TailOfSuffix(s: seq<Text>, k: nat, n: nat)
    requires k + n <= |s|
    ensures Tail(s[k..], n) == Tail(s, n)
  {
  }

  lemma DropConcat(a: seq<Text>, b: seq<Text>, k: nat)
    requires k <= |a|
    ensures (a + b)[k..] == a[k..] + b
  {
  }

  lemma JoinOf(lines: seq<Text>, front: seq<Text>, last: Text, more: seq<Text>)
    requires lines == front + [last]
    ensures Join(lines, more) == front + Continued(last, more)
  {
    assert lines[|lines| - 1] == last && lines[..|lines| - 1] == front;
  }

  lemma SplitLast(lines: seq<Text>, m: nat, k: nat)
    requires k <= m && |lines| == m + 1
    ensures lines == lines[..m] + [lines[m]] && lines[k..] == lines[..m][k..] + [lines[m]]
  {
  }

  /** Dropping old lines before or after joining is the same, as long as one line is left. */
  lemma CutJoin(lines: seq<Text>, more: seq<Text>, k: nat)
    requires k < |lines|
    ensures |Join(lines, more)| >= |lines| && Join(lines[k..], more) == Join(lines, more)[k..]
  {
    var m := |lines| - 1;
    var front, last, rest := lines[..m], lines[m], Continued(lines[m], more);
    calc {
      Join(lines[k..], more);
      { SplitLast(lines, m, k); JoinOf(lines[k..], front[k..], last, more); }
      front[k..] + rest;
      { DropConcat(front, rest, k); }
      (front + rest)[k..];
      { SplitLast(lines, m, k); JoinOf(lines, front, last, more); }
      Join(lines, more)[k..];
    }
  }

  /** Joining the kept lines or all lines makes no difference to what is kept. */
  lemma KeptJoin(capacity: Option<nat>, lines: seq<Text>, more: seq<Text>)
    ensures Kept(capacity, Join(Kept(capacity, lines), more)) == Kept(capacity, Join(lines, more))
  {
    if capacity.Some? {
      TailsAgree(lines, more, Room(capacity.value));
    }
  }

  lemma TailsAgree(lines: seq<Text>, more: seq<Text>, n: nat)
    ensures Tail(Join(Tail(lines, n), more), n) == Tail(Join(lines, more), n)
  {
    if n == 0 {
      NoTail(Join(Tail(lines, 0), more));
      NoTail(Join(lines, more));
    } else if |lines| > n {
      var k := |lines| - n;
      calc {
        Tail(Join(Tail(lines, n), more), n);
        { assert Tail(lines, n) == lines[k..]; }
        Tail(Join(lines[k..], more), n);
        { CutJoin(lines, more, k); }
        Tail(Join(lines, more)[k..], n);
        { CutJoin(lines, more, k); TailOfSuffix(Join(lines, more), k, n); }
        Tail(Join(lines, more), n);
      }
    }
  }

  lemma NoTail(lines: seq<Text>)
    ensures Tail(lines, 0) == []
  {
  }

  lemma JoinOpen(lines: seq<Text>, n: nat, more: seq<Text>)
    requires |lines| == n + 1 && !Terminated(lines[n]) && more != []
    ensures lines[..n] + [lines[n] + more[0]] + more[1..] == Join(lines, more)
  {
  }

  lemma JoinClosed(lines: seq<Text>, more: seq<Text>)
    requires lines == [] || Terminated(lines[|lines| - 1]) || more == []
    ensures lines + more == Join(lines, more)
  {
  }

  class Buffer {
    const maxCapacity: Option<nat>
    var lineLengths: seq<nat>
    var lineBuffer: Text
    /** Everything ever written. */
    ghost var log: Text

    /** The buffer holds exactly the last lines of the log it has room for, or all if there are fewer. */
    ghost predicate Valid()
      reads this
    {
      && lineBuffer == Flat(Kept(maxCapacity, Lines(log)))
      && lineLengths == Lengths(Kept(maxCapacity, Lines(log)))
    }

    /** With no capacity, or while it is not reached, nothing is lost. */
    lemma NothingLost()
      requires Valid() && (maxCapacity.None? || |Lines(log)| < maxCapacity.value)
      ensures lineBuffer == log
    {
      FlatLines(log);
    }

    /** The recorded lengths add up, and every stored line but the last ends in a newline. */
    lemma LengthsMatch()
      requires Valid()
      ensures SumLengths(lineLengths) == |lineBuffer|
      ensures WellSplit(Kept(maxCapacity, Lines(log)))
    {
      LengthsAddUp(Kept(maxCapacity, Lines(log)));
      LinesWellSplit(log);
    }

    constructor (maxCapacity: Option<nat>)
      ensures Valid() && log == [] && this.maxCapacity == maxCapacity
    {
      this.maxCapacity, lineLengths, lineBuffer, log := maxCapacity, [], [], [];
    }

    /** Appends lines to a buffer that holds `kept`. */
    method PushLines(lines: seq<Text>, ghost kept: seq<Text>)
      requires lineBuffer == Flat(kept) && lineLengths == Lengths(kept)
      modifies this`lineBuffer, this`lineLengths
      ensures lineBuffer == Flat(kept + lines) && lineLengths == Lengths(kept + lines)
    {
      ghost var now := kept;
      for i := 0 to |lines|
        invariant now == kept + lines[..i]
        invariant lineBuffer == Flat(now) && lineLengths == Lengths(now)
      {
        lineLengths := lineLengths + [|lines[i]|];
        lineBuffer := lineBuffer + lines[i];
        FlatOne(lines[i]);
        FlatConcat(now, [lines[i]]);
        now := now + [lines[i]];
      }
      assert now == kept + lines;
    }

    /** Appends the lines of `text`, the first of them to an unterminated last line. */
    method Append(text: Text, ghost kept: seq<Text>)
      requires lineBuffer == Flat(kept) && lineLengths == Lengths(kept)
      requires NoneEmpty(kept)
      modifies this`lineBuffer, this`lineLengths
      ensures lineBuffer == Flat(Join(kept, Lines(text)))
      ensures lineLengths == Lengths(Join(kept, Lines(text)))
    {
      var lines := Lines(text);
      FlatEnd(kept);
      if lineBuffer != [] && lineBuffer[|lineBuffer| - 1] != '\n' && lines != [] {
        var n := |lineLengths| - 1;
        ghost var longer := kept[..n] + [kept[n] + lines[0]];
        JoinFlat(kept, lines[0]);
        lineLengths := lineLengths[n := lineLengths[n] + |lines[0]|];
        lineBuffer := lineBuffer + lines[0];
        PushLines(lines[1..], longer);
        JoinOpen(kept, n, lines);
      } else {
        PushLines(lines, kept);
        JoinClosed(kept, lines);
      }
    }

    /** Drops the oldest lines until fewer than the capacity are left; fails if there is none to drop. */
    method Trim(ghost lines: seq<Text>) returns (r: Result<(), Panic>)
      requires lineBuffer == Flat(lines) && lineLengths == Lengths(lines)
      modifies this`lineBuffer, this`lineLengths
      ensures lineBuffer == Flat(Kept(maxCapacity, lines)) && lineLengths == Lengths(Kept(maxCapacity, lines))
      ensures r.Err? <==> maxCapacity == Some(0)
    {
      ghost var j := 0;
      while maxCapacity.Some? && |lineLengths| >= maxCapacity.value
        invariant 0 <= j <= |lines|
        invariant lineBuffer == Flat(lines[j..]) && lineLengths == Lengths(lines[j..])
        invariant j > 0 ==> maxCapacity.Some? && |lines| - j >= Room(maxCapacity.value)
        decreases |lineLengths|
      {
        if lineLengths == [] {
          assert lines[j..] == Kept(maxCapacity, lines);
          return Err(PopFromEmpty);
        }
        FlatFront(lines[j..]);
        assert lines[j..][1..] == lines[j + 1..];
        var oldest := lineLengths[0];
        lineLengths := lineLengths[1..];
        lineBuffer := lineBuffer[oldest..];
        j := j + 1;
      }
      assert lines[j..] == Kept(maxCapacity, lines);
      return Ok(());
    }

    /** After any writes the buffer is the tail of the whole log. A write panics exactly at capacity 0. */
    method Write(text: Text) returns (r: Result<(), Panic>)
      requires Valid()
      modifies this
      ensures Valid() && log == old(log) + text
      ensures r.Err? <==> maxCapacity == Some(0)
    {
      ghost var kept := Kept(maxCapacity, Lines(log));
      LinesWellSplit(log);
      KeptJoin(maxCapacity, Lines(log), Lines(text));
      LinesConcat(log, text);
      Append(text, kept);
      r := Trim(Join(kept, Lines(text)));
      log := log + text;
    }
  }

  lemma FlatFront(lines: seq<Text>)
    requires lines != []
    ensures Flat(lines) == lines[0] + Flat(lines[1..])
  {
    assert lines == [lines[0]] + lines[1..];
    FlatConcat([lines[0]], lines[1..]);
    FlatOne(lines[0]);
  }

  lemma FlatEnd(lines: seq<Text>)
    requires NoneEmpty(lines)
    ensures Flat(lines) == [] <==> lines == []
    ensures lines != [] ==> (Flat(lines)[|Flat(lines)| - 1] == '\n' <==> Terminated(lines[|lines| - 1]))
  {
  }

  lemma JoinFlat(lines: seq<Text>, rest: Text)
    requires lines != []
    ensures var n := |lines| - 1;
            Flat(lines[..n] + [lines[n] + rest]) == Flat(lines) + rest
  {
    var n := |lines| - 1;
    FlatConcat(lines[..n], [lines[n] + rest]);
    FlatOne(lines[n] + rest);
  }
}

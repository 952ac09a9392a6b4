/**
 What an archive holds, read off the history of operations: which headers, bodies, commitments
 and invalid marks are stored after any run, stated by the accepted operations and their order.
 */
module ArchiveHistory {
  import opened Common
  import opened ChainIndex
  import opened Bmm
  import opened Inclusions
  import opened ArchiveState

  /** One entry per operation: the operation if it was accepted, nothing if it was refused. */
  type Log = seq<Option<Op>>

  type SideLinks = Links<SideHash, Option<MainHash>>

  // ----- What the history says

  /** `known` holds every header that was ever accepted. */
  ghost predicate KnownIs(log: Log, known: SideLinks) {
    forall b, link {:trigger PutHeader(b, link)} ::
      Some(PutHeader(b, link)) in log <==> b in known && known[b] == link
  }

  /** Entry j invalidates `b` or an ancestor of it. */
  ghost predicate StrikesAt(log: Log, known: SideLinks, j: nat, b: SideHash) {
    && j < |log| && log[j].Some? && log[j].value.Invalidate?
    && IsAnc(known, log[j].value.b, b)
  }

  ghost predicate StruckSince(log: Log, known: SideLinks, i: nat, b: SideHash) {
    exists j :: i < j && StrikesAt(log, known, j, b)
  }

  ghost predicate HeaderAt(log: Log, i: nat, b: SideHash, link: SideLink) {
    i < |log| && log[i] == Some(PutHeader(b, link))
  }

  /** The header was put, and neither it nor an ancestor was invalidated since. */
  ghost predicate HeaderAlive(log: Log, known: SideLinks, b: SideHash, link: SideLink) {
    exists i :: HeaderAt(log, i, b, link) && !StruckSince(log, known, i, b)
  }

  ghost predicate BodyAt(log: Log, i: nat, b: SideHash, body: Body) {
    i < |log| && log[i] == Some(PutBody(b, body))
  }

  /** Entry j stores another body for `b`, or deletes it. */
  ghost predicate RewritesAt(log: Log, j: nat, b: SideHash) {
    && j < |log| && log[j].Some?
    && (log[j].value.PutBody? || log[j].value.DeleteBody?) && log[j].value.b == b
  }

  ghost predicate RewrittenSince(log: Log, i: nat, b: SideHash) {
    exists j :: i < j && RewritesAt(log, j, b)
  }

  /** The body was put last, and not deleted or struck since. */
  ghost predicate BodyAlive(log: Log, known: SideLinks, b: SideHash, body: Body) {
    exists i :: BodyAt(log, i, b, body) && !StruckSince(log, known, i, b) && !RewrittenSince(log, i, b)
  }

  ghost predicate PutBefore(log: Log, j: nat, x: SideHash) {
    exists i: nat, link :: i < j && HeaderAt(log, i, x, link)
  }

  /** Entry j invalidates `x` itself, or an ancestor while `x` had been put. */
  ghost predicate MarksAt(log: Log, known: SideLinks, j: nat, x: SideHash) {
    && j < |log| && log[j].Some? && log[j].value.Invalidate?
    && (log[j].value.b == x || (IsAnc(known, log[j].value.b, x) && PutBefore(log, j, x)))
  }

  ghost predicate MarkedInvalid(log: Log, known: SideLinks, x: SideHash) {
    exists j :: MarksAt(log, known, j, x)
  }

  ghost predicate SideIs(log: Log, known: SideLinks, side: SideLinks) {
    forall b, link {:trigger HeaderAlive(log, known, b, link)} ::
      HeaderAlive(log, known, b, link) <==> b in side && side[b] == link
  }

  ghost predicate BodiesIs(log: Log, known: SideLinks, bodies: map<SideHash, Body>) {
    forall b, body {:trigger BodyAlive(log, known, b, body)} ::
      BodyAlive(log, known, b, body) <==> b in bodies && bodies[b] == body
  }

  ghost predicate InvalidIs(log: Log, known: SideLinks, invalid: set<SideHash>) {
    forall x {:trigger MarkedInvalid(log, known, x)} :: MarkedInvalid(log, known, x) <==> x in invalid
  }

  ghost predicate MainIs(log: Log, main: Links<MainHash, MainData>, infos: Infos) {
    && (forall m, link {:trigger PutMainHeaderInfo(m, link)} ::
          Some(PutMainHeaderInfo(m, link)) in log <==> m in main && main[m] == link)
    && forall m, c {:trigger PutMainBlockInfo(m, c)} ::
         Some(PutMainBlockInfo(m, c)) in log <==> m in infos && infos[m] == c
  }

  /** The stored facts are what the history says. */
  ghost predicate History(log: Log, known: SideLinks, f: Facts) {
    && KnownIs(log, known)
    && SideIs(log, known, f.side)
    && BodiesIs(log, known, f.bodies)
    && InvalidIs(log, known, f.invalid)
    && MainIs(log, f.main, f.infos)
  }

  ghost predicate MainPut(log: Log, m: MainHash) {
    exists link :: Some(PutMainHeaderInfo(m, link)) in log
  }

  ghost predicate InfoPut(log: Log, m: MainHash) {
    exists c :: Some(PutMainBlockInfo(m, c)) in log
  }

  ghost predicate Alive(log: Log, known: SideLinks, b: SideHash) {
    exists link :: HeaderAlive(log, known, b, link)
  }

  /** Every main block put with parent `k` has its block info. */
  ghost predicate ChildrenInformed(log: Log, k: Option<MainHash>) {
    forall m, l {:trigger PutMainHeaderInfo(m, l)} ::
      Some(PutMainHeaderInfo(m, l)) in log && l.prev == k ==> InfoPut(log, m)
  }

  /** The operation is accepted after this history. */
  ghost predicate MayFollow(log: Log, known: SideLinks, op: Op) {
    match op
    case PutMainHeaderInfo(_, link) => link.prev.Some? ==> MainPut(log, link.prev.value)
    case PutMainBlockInfo(m, _) =>
      exists link :: Some(PutMainHeaderInfo(m, link)) in log && (link.prev.Some? ==> InfoPut(log, link.prev.value))
    case PutHeader(_, link) =>
      && (link.prev.Some? ==> Alive(log, known, link.prev.value))
      && (link.data.Some? ==> MainPut(log, link.data.value))
      && ChildrenInformed(log, link.data)
    case PutBody(b, _) => Alive(log, known, b)
    case DeleteBody(_, _) => true
    case Invalidate(_) => true
  }

  // ----- One more entry

  /** The headers ever accepted, and what is left of them. */
  ghost predicate Tracks(known: SideLinks, f: Facts) {
    && Closed(known) && Closed(f.side)
    && (forall b | b in f.side :: b in known && known[b] == f.side[b])
    && known.Keys <= f.side.Keys + f.invalid
    && f.bodies.Keys <= f.side.Keys
  }

  /** Ancestry is the same among the headers left. */
  lemma SameAncestry(known: SideLinks, f: Facts, c: SideHash, b: SideHash)
    requires Tracks(known, f) && b in f.side
    ensures IsAnc(known, c, b) <==> IsAnc(f.side, c, b)
  {
    forall n: nat
      ensures Anc(known, b, n) == Anc(f.side, b, n)
    {
      AncAgree(known, f.side, b, n);
    }
  }

  /** `known'` adds at most a header on top of `known`. */
  ghost predicate Extends(known: SideLinks, known': SideLinks) {
    forall b, c {:trigger IsAnc(known', c, b)} | b in known :: IsAnc(known', c, b) <==> IsAnc(known, c, b)
  }

  lemma PutExtends(known: SideLinks, b: SideHash, link: SideLink)
    requires Closed(known) && (link.prev.Some? ==> link.prev.value in known) && (b in known ==> known[b] == link)
    ensures Closed(known[b := link]) && Extends(known, known[b := link])
  {
    var known' := known[b := link];
    AncExtend(known, b, link, b, 0);
    forall x, c | x in known
      ensures IsAnc(known', c, x) <==> IsAnc(known, c, x)
    {
      forall n: nat
        ensures Anc(known', x, n) == Anc(known, x, n)
      {
        AncExtend(known, b, link, x, n);
      }
    }
  }

  ghost predicate StrikesNow(known: SideLinks, e: Option<Op>, b: SideHash) {
    e.Some? && e.value.Invalidate? && IsAnc(known, e.value.b, b)
  }

  lemma StruckMore(log: Log, known: SideLinks, known': SideLinks, e: Option<Op>, i: nat, b: SideHash)
    requires Extends(known, known') && b in known && i < |log|
    ensures StruckSince(log + [e], known', i, b) <==> StruckSince(log, known, i, b) || StrikesNow(known', e, b)
  {
    forall j: nat
      ensures j < |log| ==> (StrikesAt(log + [e], known', j, b) <==> StrikesAt(log, known, j, b))
    {
    }
    assert StrikesAt(log + [e], known', |log|, b) <==> StrikesNow(known', e, b);
  }

  lemma NotStruckAtEnd(log: Log, known: SideLinks, e: Option<Op>, b: SideHash)
    ensures !StruckSince(log + [e], known, |log|, b)
  {
  }

  /** A header is alive after one more entry if it was and is not struck, or is put just now. */
  lemma HeaderAliveMore(log: Log, known: SideLinks, known': SideLinks, e: Option<Op>, b: SideHash, link: SideLink)
    requires Extends(known, known') && KnownIs(log, known)
    ensures HeaderAlive(log + [e], known', b, link) <==>
            (HeaderAlive(log, known, b, link) && !StrikesNow(known', e, b)) || e == Some(PutHeader(b, link))
  {
    var log' := log + [e];
    forall i | HeaderAt(log, i, b, link)
      ensures b in known && HeaderAt(log', i, b, link)
      ensures StruckSince(log', known', i, b) <==> StruckSince(log, known, i, b) || StrikesNow(known', e, b)
    {
      assert Some(PutHeader(b, link)) in log;
      StruckMore(log, known, known', e, i, b);
    }
    forall i | HeaderAt(log', i, b, link)
      ensures HeaderAt(log, i, b, link) || (i == |log| && e == Some(PutHeader(b, link)))
    {
    }
    NotStruckAtEnd(log, known', e, b);
    assert e == Some(PutHeader(b, link)) ==> HeaderAt(log', |log|, b, link);
  }

  ghost predicate RewritesNow(e: Option<Op>, b: SideHash) {
    e.Some? && (e.value.PutBody? || e.value.DeleteBody?) && e.value.b == b
  }

  lemma RewrittenMore(log: Log, e: Option<Op>, i: nat, b: SideHash)
    requires i < |log|
    ensures RewrittenSince(log + [e], i, b) <==> RewrittenSince(log, i, b) || RewritesNow(e, b)
  {
    forall j: nat
      ensures j < |log| ==> (RewritesAt(log + [e], j, b) <==> RewritesAt(log, j, b))
    {
    }
    assert RewritesAt(log + [e], |log|, b) <==> RewritesNow(e, b);
  }

  ghost predicate BodyKnown(log: Log, known: SideLinks) {
    forall i, b, body {:trigger BodyAt(log, i, b, body)} :: BodyAt(log, i, b, body) ==> b in known
  }

  lemma BodyAliveMore(log: Log, known: SideLinks, known': SideLinks, e: Option<Op>, b: SideHash, body: Body)
    requires Extends(known, known') && BodyKnown(log, known)
    ensures BodyAlive(log + [e], known', b, body) <==>
            || (BodyAlive(log, known, b, body) && !StrikesNow(known', e, b) && !RewritesNow(e, b))
            || e == Some(PutBody(b, body))
  {
    var log' := log + [e];
    forall i | BodyAt(log, i, b, body)
      ensures BodyAt(log', i, b, body)
      ensures StruckSince(log', known', i, b) <==> StruckSince(log, known, i, b) || StrikesNow(known', e, b)
      ensures RewrittenSince(log', i, b) <==> RewrittenSince(log, i, b) || RewritesNow(e, b)
    {
      StruckMore(log, known, known', e, i, b);
      RewrittenMore(log, e, i, b);
    }
    forall i | BodyAt(log', i, b, body)
      ensures BodyAt(log, i, b, body) || (i == |log| && e == Some(PutBody(b, body)))
    {
    }
    NotStruckAtEnd(log, known', e, b);
    assert e == Some(PutBody(b, body)) ==> BodyAt(log', |log|, b, body);
    assert !RewrittenSince(log', |log|, b);
  }

  lemma PutBeforeMore(log: Log, e: Option<Op>, j: nat, x: SideHash, known: SideLinks)
    requires KnownIs(log, known) && j <= |log|
    ensures PutBefore(log + [e], j, x) <==> PutBefore(log, j, x)
    ensures PutBefore(log, j, x) ==> x in known
    ensures j == |log| ==> (PutBefore(log, j, x) <==> x in known)
  {
    forall i: nat, link | i < j
      ensures HeaderAt(log + [e], i, x, link) <==> HeaderAt(log, i, x, link)
    {
    }
    if PutBefore(log, j, x) {
      var i: nat, link :| i < j && HeaderAt(log, i, x, link);
      assert Some(PutHeader(x, link)) in log;
    }
    if x in known {
      assert Some(PutHeader(x, known[x])) in log;
      var i :| 0 <= i < |log| && log[i] == Some(PutHeader(x, known[x]));
      assert HeaderAt(log, i, x, known[x]);
    }
  }

  ghost predicate MarksNow(known: SideLinks, e: Option<Op>, x: SideHash) {
    e.Some? && e.value.Invalidate? && (e.value.b == x || IsAnc(known, e.value.b, x))
  }

  lemma MarkedMore(log: Log, known: SideLinks, known': SideLinks, e: Option<Op>, x: SideHash)
    requires Extends(known, known') && KnownIs(log, known) && (known' == known || !e.Some? || e.value.PutHeader?)
    ensures MarkedInvalid(log + [e], known', x) <==> MarkedInvalid(log, known, x) || MarksNow(known, e, x)
  {
    var log' := log + [e];
    forall j: nat
      ensures j < |log| ==> (MarksAt(log', known', j, x) <==> MarksAt(log, known, j, x))
    {
      if j < |log| {
        PutBeforeMore(log, e, j, x, known);
      }
    }
    PutBeforeMore(log, e, |log|, x, known);
    MarksLast(log, known, known', e, x);
  }

  lemma MarksLast(log: Log, known: SideLinks, known': SideLinks, e: Option<Op>, x: SideHash)
    requires known' == known || !e.Some? || e.value.PutHeader?
    requires PutBefore(log + [e], |log|, x) <==> x in known
    ensures MarksAt(log + [e], known', |log|, x) <==> MarksNow(known, e, x)
  {
    if MarksNow(known, e, x) && e.value.b != x {
      var n: nat :| Anc(known, x, n) == Some(e.value.b);
    }
  }

  // ----- One more operation

  /** The log entry of an operation on the facts `f`. */
  ghost function Entry(f: Facts, op: Op): Option<Op> {
    if Accepts(f, op) then Some(op) else None
  }

  ghost function KnownAfter(known: SideLinks, e: Option<Op>): SideLinks {
    if e.Some? && e.value.PutHeader? then known[e.value.b := e.value.sideLink] else known
  }

  lemma KnownStep(log: Log, known: SideLinks, f: Facts, op: Op)
    requires History(log, known, f) && Tracks(known, f) && Allowed(f, op)
    ensures var known' := KnownAfter(known, Entry(f, op));
            KnownIs(log + [Entry(f, op)], known') && Extends(known, known') && Closed(known')
  {
    var e := Entry(f, op);
    if e.Some? && op.PutHeader? {
      PutExtends(known, op.b, op.sideLink);
    }
  }

  /** The history still tells the facts after one more operation. */
  lemma HistoryStep(log: Log, known: SideLinks, f: Facts, op: Op)
    requires History(log, known, f) && Tracks(known, f) && Allowed(f, op) && BodyKnown(log, known)
    ensures var e := Entry(f, op);
            History(log + [e], KnownAfter(known, e), Step(f, op)) && BodyKnown(log + [e], KnownAfter(known, e))
  {
    KnownStep(log, known, f, op);
    SideStep(log, known, f, op);
    BodiesStep(log, known, f, op);
    InvalidStep(log, known, f, op);
  }

  lemma SideStep(log: Log, known: SideLinks, f: Facts, op: Op)
    requires History(log, known, f) && Tracks(known, f) && Allowed(f, op)
    ensures var e := Entry(f, op); SideIs(log + [e], KnownAfter(known, e), Step(f, op).side)
  {
    var e := Entry(f, op);
    var known', f' := KnownAfter(known, e), Step(f, op);
    KnownStep(log, known, f, op);
    forall b, link
      ensures HeaderAlive(log + [e], known', b, link) <==> b in f'.side && f'.side[b] == link
    {
      HeaderAliveMore(log, known, known', e, b, link);
      if b in f.side && op.Invalidate? {
        SameAncestry(known, f, op.b, b);
        assert op.b == b ==> Anc(f.side, b, 0) == Some(b);
      }
    }
  }

  lemma BodiesStep(log: Log, known: SideLinks, f: Facts, op: Op)
    requires History(log, known, f) && Tracks(known, f) && Allowed(f, op) && BodyKnown(log, known)
    ensures var e := Entry(f, op);
            BodiesIs(log + [e], KnownAfter(known, e), Step(f, op).bodies) && BodyKnown(log + [e], KnownAfter(known, e))
  {
    var e := Entry(f, op);
    var known', f' := KnownAfter(known, e), Step(f, op);
    KnownStep(log, known, f, op);
    forall b, body
      ensures BodyAlive(log + [e], known', b, body) <==> b in f'.bodies && f'.bodies[b] == body
    {
      BodyAliveMore(log, known, known', e, b, body);
      if b in f.bodies && op.Invalidate? {
        SameAncestry(known, f, op.b, b);
        assert op.b == b ==> Anc(f.side, b, 0) == Some(b);
      }
    }
    forall i: nat, b, body | BodyAt(log + [e], i, b, body)
      ensures b in known'
    {
      assert i < |log| ==> BodyAt(log, i, b, body);
    }
  }

  lemma InvalidStep(log: Log, known: SideLinks, f: Facts, op: Op)
    requires History(log, known, f) && Tracks(known, f) && Allowed(f, op)
    ensures var e := Entry(f, op); InvalidIs(log + [e], KnownAfter(known, e), Step(f, op).invalid)
  {
    var e := Entry(f, op);
    var known', f' := KnownAfter(known, e), Step(f, op);
    KnownStep(log, known, f, op);
    forall x
      ensures MarkedInvalid(log + [e], known', x) <==> x in f'.invalid
    {
      MarkedMore(log, known, known', e, x);
      if op.Invalidate? {
        InvalidNow(known, f, op.b, x);
      }
    }
  }

  /** What an invalidation newly marks, in terms of every header ever accepted. */
  lemma InvalidNow(known: SideLinks, f: Facts, c: SideHash, x: SideHash)
    requires Tracks(known, f)
    ensures x in f.invalid + Descendants(f.side, c) + {c} <==> x in f.invalid || x == c || IsAnc(known, c, x)
  {
    if x in f.side {
      SameAncestry(known, f, c, x);
    }
    if IsAnc(known, c, x) {
      var n: nat :| Anc(known, x, n) == Some(c);
      assert x in known;
    }
  }

  lemma TracksStep(known: SideLinks, f: Facts, op: Op)
    requires Tracks(known, f) && Allowed(f, op) && Closed(Step(f, op).side)
    ensures Tracks(KnownAfter(known, Entry(f, op)), Step(f, op))
  {
    var e := Entry(f, op);
    if e.Some? && op.PutHeader? {
      PutExtends(known, op.b, op.sideLink);
    }
  }

  // ----- When an operation is accepted

  lemma MainIffPut(log: Log, known: SideLinks, f: Facts, m: MainHash)
    requires History(log, known, f)
    ensures MainPut(log, m) <==> m in f.main
    ensures InfoPut(log, m) <==> m in f.infos
  {
    if m in f.main {
      assert Some(PutMainHeaderInfo(m, f.main[m])) in log;
    }
    if m in f.infos {
      assert Some(PutMainBlockInfo(m, f.infos[m])) in log;
    }
  }

  lemma SideIffPut(log: Log, known: SideLinks, f: Facts, b: SideHash)
    requires History(log, known, f)
    ensures Alive(log, known, b) <==> b in f.side
  {
    if b in f.side {
      assert HeaderAlive(log, known, b, f.side[b]);
    }
  }

  lemma AcceptsIff(log: Log, known: SideLinks, f: Facts, op: Op)
    requires History(log, known, f)
    ensures Accepts(f, op) <==> MayFollow(log, known, op)
  {
    forall m
      ensures MainPut(log, m) <==> m in f.main
    {
      MainIffPut(log, known, f, m);
    }
    forall m
      ensures InfoPut(log, m) <==> m in f.infos
    {
      MainIffPut(log, known, f, m);
    }
    forall b
      ensures Alive(log, known, b) <==> b in f.side
    {
      SideIffPut(log, known, f, b);
    }
    if op.PutMainBlockInfo? {
      if op.m in f.main {
        assert Some(PutMainHeaderInfo(op.m, f.main[op.m])) in log;
      }
    } else if op.PutHeader? {
      ChildrenKnown(log, known, f, op.sideLink.data);
    }
  }

  lemma ChildrenKnown(log: Log, known: SideLinks, f: Facts, k: Option<MainHash>)
    requires History(log, known, f)
    requires forall m :: InfoPut(log, m) <==> m in f.infos
    ensures Children(f.main, k) <= f.infos.Keys <==> ChildrenInformed(log, k)
  {
    forall m | m in f.main
      ensures Some(PutMainHeaderInfo(m, f.main[m])) in log && (m in Children(f.main, k) <==> f.main[m].prev == k)
    {
    }
    if ChildrenInformed(log, k) {
      forall m | m in Children(f.main, k)
        ensures m in f.infos
      {
        assert Some(PutMainHeaderInfo(m, f.main[m])) in log;
      }
    }
  }

  /** Later headers do not change what an earlier history accepts. */
  lemma MayFollowStable(log: Log, known: SideLinks, known': SideLinks, op: Op)
    requires Extends(known, known') && HeadersIn(log, known)
    ensures MayFollow(log, known, op) <==> MayFollow(log, known', op)
  {
    forall b, link
      ensures HeaderAlive(log, known, b, link) <==> HeaderAlive(log, known', b, link)
    {
      forall i: nat | HeaderAt(log, i, b, link)
        ensures StruckSince(log, known, i, b) <==> StruckSince(log, known', i, b)
      {
        forall j: nat
          ensures StrikesAt(log, known, j, b) <==> StrikesAt(log, known', j, b)
        {
        }
      }
    }
    forall b
      ensures Alive(log, known, b) <==> Alive(log, known', b)
    {
    }
  }

  ghost predicate HeadersIn(log: Log, known: SideLinks) {
    forall i: nat, b, link {:trigger HeaderAt(log, i, b, link)} :: HeaderAt(log, i, b, link) ==> b in known
  }

  /** Each operation of a run was accepted exactly if the history before it allows it. */
  ghost predicate Outcomes(ops: seq<Op>, log: Log, known: SideLinks) {
    && |log| == |ops|
    && forall i | 0 <= i < |ops| :: log[i] == if MayFollow(log[..i], known, ops[i]) then Some(ops[i]) else None
  }

  lemma OutcomesStep(ops: seq<Op>, log: Log, known: SideLinks, f: Facts, op: Op)
    requires Outcomes(ops, log, known) && History(log, known, f) && Tracks(known, f) && Allowed(f, op)
    ensures Outcomes(ops + [op], log + [Entry(f, op)], KnownAfter(known, Entry(f, op)))
  {
    var e := Entry(f, op);
    var ops', log', known' := ops + [op], log + [e], KnownAfter(known, e);
    KnownStep(log, known, f, op);
    AcceptsIff(log, known, f, op);
    forall i | 0 <= i < |ops'|
      ensures log'[i] == if MayFollow(log'[..i], known', ops'[i]) then Some(ops'[i]) else None
    {
      assert log'[..i] == log[..i];
      PrefixHeaders(log, known, i);
      MayFollowStable(log[..i], known, known', ops'[i]);
      assert i == |log| ==> log[..i] == log;
    }
  }

  lemma PrefixHeaders(log: Log, known: SideLinks, n: nat)
    requires KnownIs(log, known) && n <= |log|
    ensures HeadersIn(log[..n], known)
  {
    forall i: nat, b, link | HeaderAt(log[..n], i, b, link)
      ensures b in known
    {
      assert log[i] == Some(PutHeader(b, link));
      assert Some(PutHeader(b, link)) in log;
    }
  }

  // ----- Runs

  ghost predicate Told(ops: seq<Op>, log: Log, known: SideLinks, f: Facts) {
    Outcomes(ops, log, known) && History(log, known, f) && Tracks(known, f) && BodyKnown(log, known)
  }

  lemma HistoryStart()
    ensures Told([], [], map[], Facts(map[], map[], map[], map[], {}))
  {
  }

  lemma ToldStep(ops: seq<Op>, log: Log, known: SideLinks, f: Facts, op: Op)
    requires Told(ops, log, known, f) && Allowed(f, op) && Closed(Step(f, op).side)
    ensures var e := Entry(f, op); Told(ops + [op], log + [e], KnownAfter(known, e), Step(f, op))
  {
    OutcomesStep(ops, log, known, f, op);
    HistoryStep(log, known, f, op);
    TracksStep(known, f, op);
  }
}

/**
 Batched reverse iteration over the ancestry of a block, oldest first, and the two ways of
 listing missing bodies that are built on walking it upwards and downwards.
 */
module AncestorIter {
  import opened Common
  import opened ChainIndex

  // ----- Reference definitions

  ghost function AncOrSelf<H(!new), P>(links: Links<H, P>, b: H, n: nat): H {
    match Anc(links, b, n) case None => b case Some(a) => a
  }

  /** The ancestry of `b` from height `lo` up to `b` itself. */
  ghost function Path<H(!new), P>(c: Chain<H, P>, b: H, lo: nat): seq<H>
    requires b in c.heights
  {
    if c.heights[b] < lo then []
    else
      var n := c.heights[b] - lo;
      seq(n + 1, i requires 0 <= i <= n => AncOrSelf(c.links, b, n - i))
  }

  ghost function Rev<T>(s: seq<T>): seq<T> {
    seq(|s|, i requires 0 <= i < |s| => s[|s| - 1 - i])
  }

  /** The blocks of `s` whose bodies are not stored. */
  ghost function Missing<H>(s: seq<H>, have: set<H>): seq<H> {
    if s == [] then [] else (if s[0] in have then [] else [s[0]]) + Missing(s[1..], have)
  }

  /** Each ancestor from the start height on is listed exactly once, in ascending height. */
  lemma PathAscends<H(!new), P>(c: Chain<H, P>, b: H, lo: nat)
    requires Valid(c) && b in c.links
    ensures forall i | 0 <= i < |Path(c, b, lo)| ::
              var a := Path(c, b, lo)[i]; a in c.links && IsAnc(c.links, a, b) && c.heights[a] == lo + i
    ensures forall a | a in c.links && IsAnc(c.links, a, b) && c.heights[a] >= lo :: a in Path(c, b, lo)
    ensures lo <= c.heights[b] ==> Path(c, b, lo) != [] && Path(c, b, lo)[|Path(c, b, lo)| - 1] == b
  {
    var path := Path(c, b, lo);
    forall i | 0 <= i < |path|
      ensures path[i] in c.links && IsAnc(c.links, path[i], b) && c.heights[path[i]] == lo + i
    {
      AncHeight(c.links, c.heights, b, c.heights[b] - lo - i);
      assert path[i] == AncOrSelf(c.links, b, c.heights[b] - lo - i);
    }
    forall a | a in c.links && IsAnc(c.links, a, b) && c.heights[a] >= lo
      ensures a in path
    {
      IsAncAt(c.links, c.heights, a, b);
      IsAncHeight(c.links, c.heights, a, b);
      var i := c.heights[a] - lo;
      assert c.heights[b] - lo - i == c.heights[b] - c.heights[a];
      assert path[i] == AncOrSelf(c.links, b, c.heights[b] - c.heights[a]) == a;
    }
    if lo <= c.heights[b] {
      assert path[|path| - 1] == AncOrSelf(c.links, b, 0);
    }
  }

  lemma PathTail<H(!new), P>(c: Chain<H, P>, b: H, lo: nat, k: nat)
    requires Valid(c) && b in c.links && k <= |Path(c, b, lo)|
    ensures Path(c, b, lo + k) == Path(c, b, lo)[k..]
  {
  }

  /** Walking down from the ancestor at depth `n` meets the path backwards. */
  lemma PathHead<H(!new), P>(c: Chain<H, P>, b: H, lo: nat, n: nat, a: H, walk: seq<H>)
    requires Valid(c) && b in c.links && Anc(c.links, b, n) == Some(a) && a in c.links
    requires lo + |walk| == c.heights[a] + 1
    requires forall i | 0 <= i < |walk| :: Anc(c.links, a, i) == Some(walk[i])
    ensures |walk| <= |Path(c, b, lo)| && Rev(walk) == Path(c, b, lo)[..|walk|]
  {
    AncHeight(c.links, c.heights, b, n);
    forall j | 0 <= j < |walk|
      ensures Rev(walk)[j] == Path(c, b, lo)[j]
    {
      AncAdd(c.links, b, n, |walk| - 1 - j);
      assert c.heights[b] - lo - j == n + (|walk| - 1 - j);
      assert Path(c, b, lo)[j] == AncOrSelf(c.links, b, n + (|walk| - 1 - j));
    }
  }

  /** The first `count` headers met by walking down from `a`. */
  method WalkBack<H(==, !new), P>(c: Chain<H, P>, a: H, count: nat) returns (walk: seq<H>)
    requires Valid(c) && a in c.links && count <= c.heights[a] + 1
    ensures |walk| == count
    ensures forall i | 0 <= i < count :: Anc(c.links, a, i) == Some(walk[i])
  {
    walk := [];
    var block := Some(a);
    for i := 0 to count
      invariant |walk| == i
      invariant i <= c.heights[a] ==> block == Anc(c.links, a, i) && block.Some? && block.value in c.links
      invariant forall j | 0 <= j < i :: Anc(c.links, a, j) == Some(walk[j])
    {
      walk := walk + [block.value];
      AncHeight(c.links, c.heights, a, i + 1);
      AncAdd(c.links, a, i, 1);
      AncHeight(c.links, c.heights, block.value, 1);
      block := Prev(c.links, block.value);
      assert i + 1 <= c.heights[a] ==> block == Anc(c.links, a, i + 1);
    }
  }

  const MAX_BATCH_SIZE := 32

  /** Set up on the first call: the height of the end block, and blocks still to be yielded. */
  datatype Inner<H> = Inner(endHeight: nat, buffer: seq<H>)

  /**
   The iterator over the ancestry of `block`. The sidechain copy reads the end height from the
   height index, the mainchain copy from the header info; `endHeights` is that table.
   */
  class AncestorsRev<H(==, !new), P> {
    const chain: Chain<H, P>
    const endHeights: map<H, nat>
    const block: H
    var batchStart: Option<nat>
    var inner: Option<Inner<H>>

    ghost predicate Ready()
      reads this
    {
      && Valid(chain)
      && (block in endHeights <==> block in chain.links)
      && (block in endHeights ==> endHeights[block] == chain.heights[block])
      && (inner.Some? ==> block in chain.links && inner.value.endHeight == chain.heights[block])
    }

    /** What the iterator has yet to yield. */
    ghost function Remaining(): seq<H>
      requires Ready() && block in chain.links
      reads this
    {
      (if inner.Some? then Rev(inner.value.buffer) else []) +
      (if batchStart.Some? then Path(chain, block, batchStart.value) else [])
    }

    constructor (chain: Chain<H, P>, endHeights: map<H, nat>, block: H, start: nat)
      requires Valid(chain) && (block in endHeights <==> block in chain.links)
      requires block in endHeights ==> endHeights[block] == chain.heights[block]
      ensures Ready() && this.chain == chain && this.block == block
      ensures block in chain.links ==> Remaining() == Path(chain, block, start)
    {
      this.chain, this.endHeights, this.block := chain, endHeights, block;
      this.batchStart, this.inner := Some(start), None;
      new;
      assert block in chain.links ==> [] + Path(chain, block, start) == Path(chain, block, start);
    }

    /** Yields the next block in ascending height; an unknown end block is an error. */
    method Next() returns (r: Result<Option<H>, ArchiveError>)
      requires Ready()
      modifies this
      ensures Ready()
      ensures block !in chain.links ==> r == Err(NoHeight)
      ensures block in chain.links && old(Remaining()) == [] ==> r == Ok(None) && Remaining() == []
      ensures block in chain.links && old(Remaining()) != [] ==>
                r == Ok(Some(old(Remaining())[0])) && Remaining() == old(Remaining())[1..]
    {
      if inner.None? {
        if block !in endHeights {
          return Err(NoHeight);
        }
        inner := Some(Inner(endHeights[block], []));
        assert Remaining() == old(Remaining());
      }
      if inner.value.buffer == [] {
        if batchStart.None? || inner.value.endHeight < batchStart.value {
          return Ok(None);
        }
        Fill();
        assert Remaining() == old(Remaining());
      }
      var item := Pop();
      return Ok(item);
    }

    /** Yields the oldest buffered block. */
    method Pop() returns (r: Option<H>)
      requires Ready() && inner.Some? && inner.value.buffer != []
      modifies this
      ensures Ready()
      ensures old(Remaining()) != [] && r == Some(old(Remaining())[0]) && Remaining() == old(Remaining())[1..]
    {
      var buffer := inner.value.buffer;
      var rest := buffer[..|buffer| - 1];
      assert Rev(rest) == Rev(buffer)[1..];
      r := Some(buffer[|buffer| - 1]);
      inner := Some(inner.value.(buffer := rest));
      assert Remaining() == old(Remaining())[1..];
    }

    /** Loads the next batch of at most 32 blocks with one ancestor lookup. */
    method Fill()
      requires Ready() && inner.Some? && inner.value.buffer == []
      requires batchStart.Some? && batchStart.value <= inner.value.endHeight
      modifies this
      ensures Ready() && inner.Some? && inner.value.buffer != []
      ensures Remaining() == old(Remaining())
    {
      var start, end := batchStart.value, inner.value.endHeight;
      var diff := end - start;
      var offset := if diff < MAX_BATCH_SIZE - 1 then diff else MAX_BATCH_SIZE - 1;
      var size := offset + 1;
      var ancestor := NthAncestor(chain, block, diff - offset);
      AncHeight(chain.links, chain.heights, block, diff - offset);
      var buffer := WalkBack(chain, ancestor.value, size);
      PathHead(chain, block, start, diff - offset, ancestor.value, buffer);
      PathTail(chain, block, start, size);
      inner := Some(inner.value.(buffer := buffer));
      batchStart := if start + size <= end then Some(start + size) else None;
      assert Path(chain, block, start) == Rev(buffer) + Path(chain, block, start + size);
      assert Remaining() == old(Remaining());
    }
  }

  // ----- Missing bodies

  lemma {:induction false} MissingConcat<H>(s: seq<H>, t: seq<H>, have: set<H>)
    ensures Missing(s + t, have) == Missing(s, have) + Missing(t, have)
  {
    if s == [] {
      assert s + t == t;
    } else {
      assert (s + t)[1..] == s[1..] + t;
      MissingConcat(s[1..], t, have);
    }
  }

  /** Exactly the blocks of the list without a stored body are missing. */
  lemma {:induction false} MissingMembers<H>(s: seq<H>, have: set<H>, x: H)
    ensures x in Missing(s, have) <==> x in s && x !in have
  {
    if s != [] {
      MissingMembers(s[1..], have, x);
      assert s == [s[0]] + s[1..];
    }
  }

  /** They keep their order. */
  lemma {:induction false} MissingOrder<H>(s: seq<H>, have: set<H>, i: nat, j: nat) returns (k: nat, l: nat)
    requires i < j < |Missing(s, have)|
    ensures k < l < |s| && s[k] == Missing(s, have)[i] && s[l] == Missing(s, have)[j]
  {
    if s[0] in have {
      k, l := MissingOrder(s[1..], have, i, j);
      k, l := k + 1, l + 1;
    } else if i > 0 {
      k, l := MissingOrder(s[1..], have, i - 1, j - 1);
      k, l := k + 1, l + 1;
    } else {
      var x := Missing(s, have)[j];
      MissingMembers(s[1..], have, x);
      k, l :| k == 0 && 0 < l < |s| && s[l] == x;
    }
  }

  /** Runs an iterator to its end. */
  method Drain<H(==, !new), P>(it: AncestorsRev<H, P>) returns (items: seq<H>)
    requires it.Ready() && it.block in it.chain.links
    modifies it
    ensures items == old(it.Remaining())
  {
    items := [];
    ghost var all := it.Remaining();
    while true
      invariant it.Ready() && all == items + it.Remaining()
      decreases |it.Remaining()|
    {
      ghost var rest := it.Remaining();
      var next := it.Next();
      if next.value.None? {
        return;
      }
      TakeFirst(items, rest);
      items := items + [next.value.value];
    }
  }

  lemma TakeFirst<T>(taken: seq<T>, rest: seq<T>)
    requires rest != []
    ensures taken + rest == taken + [rest[0]] + rest[1..]
  {
  }

  /** Missing bodies from a height on, by running the batched iterator to its end. */
  method IterMissingBodies<H(==, !new), P>(c: Chain<H, P>, have: set<H>, b: H, start: nat)
    returns (r: Result<seq<H>, ArchiveError>)
    requires Valid(c)
    ensures r == if b in c.links then Ok(Missing(Path(c, b, start), have)) else Err(NoHeight)
  {
    if b !in c.heights {
      return Err(NoHeight);
    }
    var it := new AncestorsRev<H, P>(c, c.heights, b, start);
    var items := Drain(it);
    var missing: seq<H> := [];
    for i := 0 to |items|
      invariant missing == Missing(items[..i], have)
    {
      MissingConcat(items[..i], [items[i]], have);
      assert items[..i + 1] == items[..i] + [items[i]];
      if items[i] !in have {
        missing := missing + [items[i]];
      }
    }
    assert items[..|items|] == items;
    return Ok(missing);
  }

  /** The height just above a stopping block, or 0 when the walk goes down to the oldest. */
  ghost function StopHeight<H(!new), P>(c: Chain<H, P>, b: H, stop: Option<H>): nat {
    if stop.Some? && stop.value in c.heights && IsAnc(c.links, stop.value, b) then c.heights[stop.value] + 1 else 0
  }

  /** Starting at height h is the same as stopping at the ancestor below it. */
  lemma StartOrStop<H(!new), P>(c: Chain<H, P>, b: H, h: nat, a: H)
    requires Valid(c) && b in c.links && 1 <= h <= c.heights[b] + 1
    requires Anc(c.links, b, c.heights[b] - (h - 1)) == Some(a)
    ensures StopHeight(c, b, Some(a)) == h
  {
    StoppedAt(c, b, c.heights[b] - (h - 1), a);
  }

  /** Missing bodies above an ancestor, by walking down from `b` and reversing. */
  method GetMissingBodies<H(==, !new), P>(c: Chain<H, P>, have: set<H>, b: H, stop: Option<H>)
    returns (r: Result<seq<H>, ArchiveError>)
    requires Valid(c)
    ensures r == if b in c.links then Ok(Missing(Path(c, b, StopHeight(c, b, stop)), have)) else Err(NoHeader)
  {
    if b !in c.links {
      return Err(NoHeader);
    }
    var block := Some(b);
    ghost var n: nat, lo := 0, StopHeight(c, b, stop);
    StopWithin(c, b, stop);
    var missing: seq<H> := [];
    while block.Some? && block != stop
      invariant n <= c.heights[b] + 1 - lo
      invariant block == Anc(c.links, b, n)
      invariant block.None? ==> n == c.heights[b] + 1
      invariant missing == Missing(Path(c, b, c.heights[b] + 1 - n), have)
      decreases c.heights[b] + 1 - n
    {
      StepDown(c, b, stop, n, block.value);
      MissingGrows(c, have, b, n, block.value);
      if block.value !in have {
        missing := [block.value] + missing;
      }
      block := Prev(c.links, block.value);
      n := n + 1;
    }
    if block.Some? {
      StoppedAt(c, b, n, block.value);
    }
    return Ok(missing);
  }

  lemma StopWithin<H(!new), P>(c: Chain<H, P>, b: H, stop: Option<H>)
    requires Valid(c) && b in c.links
    ensures StopHeight(c, b, stop) <= c.heights[b] + 1
  {
    if StopHeight(c, b, stop) > 0 {
      IsAncHeight(c.links, c.heights, stop.value, b);
    }
  }

  /** The walk goes on to the parent as long as the stopping block is not met. */
  lemma StepDown<H(!new), P>(c: Chain<H, P>, b: H, stop: Option<H>, n: nat, a: H)
    requires Valid(c) && b in c.links && Anc(c.links, b, n) == Some(a) && stop != Some(a)
    requires n <= c.heights[b] + 1 - StopHeight(c, b, stop)
    ensures n <= c.heights[b] && Anc(c.links, b, n + 1) == Prev(c.links, a)
    ensures Prev(c.links, a).None? ==> n == c.heights[b]
    ensures n + 1 <= c.heights[b] + 1 - StopHeight(c, b, stop)
  {
    AncHeight(c.links, c.heights, b, n);
    AncHeight(c.links, c.heights, b, n + 1);
    AncAdd(c.links, b, n, 1);
    if StopHeight(c, b, stop) > 0 {
      IsAncHeight(c.links, c.heights, stop.value, b);
      IsAncAt(c.links, c.heights, stop.value, b);
    }
  }

  lemma StoppedAt<H(!new), P>(c: Chain<H, P>, b: H, n: nat, a: H)
    requires Valid(c) && b in c.links && Anc(c.links, b, n) == Some(a)
    ensures n <= c.heights[b] && StopHeight(c, b, Some(a)) == c.heights[b] + 1 - n
  {
    AncHeight(c.links, c.heights, b, n);
    assert IsAnc(c.links, a, b);
  }

  /** Both listings, from height `h` on and above the ancestor below `h`, are the same. */
  method ListBothWays<H(==, !new), P>(c: Chain<H, P>, have: set<H>, b: H, h: nat)
    returns (fromStart: Result<seq<H>, ArchiveError>, aboveStop: Result<seq<H>, ArchiveError>)
    requires Valid(c) && b in c.links && h <= c.heights[b] + 1
    ensures fromStart == aboveStop == Ok(Missing(Path(c, b, h), have))
  {
    var stop: Option<H> := None;
    if h > 0 {
      var below := NthAncestor(c, b, c.heights[b] - (h - 1));
      AncHeight(c.links, c.heights, b, c.heights[b] - (h - 1));
      stop := Some(below.value);
      StartOrStop(c, b, h, below.value);
    }
    fromStart := IterMissingBodies(c, have, b, h);
    aboveStop := GetMissingBodies(c, have, b, stop);
  }

  lemma MissingGrows<H(!new), P>(c: Chain<H, P>, have: set<H>, b: H, n: nat, a: H)
    requires Valid(c) && b in c.links && n <= c.heights[b] && Anc(c.links, b, n) == Some(a)
    ensures Missing(Path(c, b, c.heights[b] - n), have) ==
            (if a in have then [] else [a]) + Missing(Path(c, b, c.heights[b] + 1 - n), have)
  {
    PathGrows(c, b, n, a);
    assert ([a] + Path(c, b, c.heights[b] + 1 - n))[1..] == Path(c, b, c.heights[b] + 1 - n);
  }

  lemma PathGrows<H(!new), P>(c: Chain<H, P>, b: H, n: nat, a: H)
    requires Valid(c) && b in c.links && n <= c.heights[b] && Anc(c.links, b, n) == Some(a)
    ensures Path(c, b, c.heights[b] - n) == [a] + Path(c, b, c.heights[b] + 1 - n)
  {
    var lo := c.heights[b] - n;
    assert Path(c, b, lo)[0] == AncOrSelf(c.links, b, c.heights[b] - lo - 0);
    PathTail(c, b, lo, 1);
  }
}

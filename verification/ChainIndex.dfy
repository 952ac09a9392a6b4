/**
 The indexed block tree that the archive keeps twice, once for sidechain headers and once
 for mainchain header infos. Both copies run the same code in the source; here one copy is
 generic in the hash type `H` and in the rest of the header, `P`. A missing parent is `None`
 (for the mainchain: a parent hash of all zeros).
 */
module ChainIndex {
  import opened Common

  /** A stored header: its parent and whatever else it carries. */
  datatype Link<+H, +P> = Link(prev: Option<H>, data: P)

  type Links<H(==, !new), P> = map<H, Link<H, P>>

  /** The header table and the three indexes kept beside it. */
  datatype Chain<H(==, !new), P> = Chain(
    links: Links<H, P>,
    heights: map<H, nat>,
    skips: map<H, seq<H>>,
    succs: map<Option<H>, set<H>>)

  // ----- Reference definitions: n-fold parent, ancestry, height

  /** The stored parent of `b`. */
  function Prev<H(!new), P>(links: Links<H, P>, b: H): Option<H> {
    if b in links then links[b].prev else None
  }

  /** The n-fold parent of `b`, if there is one. */
  ghost function Anc<H(!new), P>(links: Links<H, P>, b: H, n: nat): Option<H>
  {
    if b !in links then None
    else if n == 0 then Some(b)
    else match Prev(links, b)
      case None => None
      case Some(p) => Anc(links, p, n - 1)
  }

  /** `a` is `d` or an ancestor of `d`. */
  ghost predicate IsAnc<H(!new), P>(links: Links<H, P>, a: H, d: H) {
    exists n: nat :: Anc(links, d, n) == Some(a)
  }

  /** Every parent is stored. */
  ghost predicate Closed<H(!new), P>(links: Links<H, P>) {
    forall b {:trigger Prev(links, b)} | b in links ::
      Prev(links, b).Some? ==> Prev(links, b).value in links
  }

  /** `heights` is the distance from a parentless block; in particular there is no cycle. */
  ghost predicate Ranked<H(!new), P>(links: Links<H, P>, heights: map<H, nat>) {
    && heights.Keys == links.Keys
    && Closed(links)
    && forall b {:trigger Prev(links, b)} | b in links ::
         heights[b] == match Prev(links, b) case None => 0 case Some(p) => heights[p] + 1
  }

  function Pow2(k: nat): (r: nat)
    ensures r > 0
  {
    if k == 0 then 1 else 2 * Pow2(k - 1)
  }

  /** Integer base-2 logarithm; `Log2(0)` is 0. */
  function Log2(n: nat): nat {
    if n < 2 then 0 else 1 + Log2(n / 2)
  }

  /** Skip entry i is the 2^(i+1)-fold parent, as far as the height reaches. */
  ghost predicate SkipsExact<H(!new), P>(links: Links<H, P>, b: H, height: nat, skips: seq<H>) {
    && |skips| == Log2(height)
    && forall i | 0 <= i < |skips| :: Anc(links, b, Pow2(i + 1)) == Some(skips[i])
  }

  ghost function Children<H(!new), P>(links: Links<H, P>, k: Option<H>): set<H> {
    set b | b in links && Prev(links, b) == k
  }

  ghost predicate SuccsExact<H(!new), P>(links: Links<H, P>, succs: map<Option<H>, set<H>>) {
    && (forall k {:trigger k in succs} :: k in succs <==> k.None? || k.value in links)
    && forall k {:trigger succs[k]} | k in succs :: succs[k] == Children(links, k)
  }

  /** Every index agrees with the header table. */
  ghost predicate Valid<H(!new), P>(c: Chain<H, P>) {
    && Ranked(c.links, c.heights)
    && c.skips.Keys == c.links.Keys
    && (forall b {:trigger c.skips[b]} | b in c.links :: SkipsExact(c.links, b, c.heights[b], c.skips[b]))
    && SuccsExact(c.links, c.succs)
  }

  // ----- Arithmetic of powers and logarithms

  lemma {:induction false} Pow2Log2(n: nat)
    requires n >= 1
    ensures Pow2(Log2(n)) <= n < Pow2(Log2(n) + 1)
  {
    if n >= 2 {
      Pow2Log2(n / 2);
    }
  }

  lemma {:induction false} Log2Mono(m: nat, n: nat)
    requires m <= n
    ensures Log2(m) <= Log2(n)
  {
    if m >= 2 {
      Log2Mono(m / 2, n / 2);
    }
  }

  lemma {:induction false} Log2Pow2(k: nat, n: nat)
    ensures k >= 1 ==> (Pow2(k) <= n <==> k <= Log2(n))
    ensures n >= 1 ==> (Pow2(k) <= n <==> k <= Log2(n))
  {
    if k >= 1 && n >= 2 {
      Log2Pow2(k - 1, n / 2);
    }
  }

  // ----- Facts about n-fold parents

  /** A height counts exactly the ancestors there are, and falls by one per step. */
  lemma {:induction false} AncHeight<H(!new), P>(links: Links<H, P>, heights: map<H, nat>, b: H, n: nat)
    requires Ranked(links, heights) && b in links
    ensures Anc(links, b, n).Some? <==> n <= heights[b]
    ensures Anc(links, b, n).Some? ==>
              && Anc(links, b, n).value in links
              && heights[Anc(links, b, n).value] == heights[b] - n
  {
    if n > 0 && Prev(links, b).Some? {
      AncHeight(links, heights, Prev(links, b).value, n - 1);
    }
  }

  lemma {:induction false} AncAdd<H(!new), P>(links: Links<H, P>, b: H, m: nat, n: nat)
    requires Anc(links, b, m).Some?
    ensures Anc(links, b, m + n) == Anc(links, Anc(links, b, m).value, n)
  {
    if m > 0 {
      AncAdd(links, Prev(links, b).value, m - 1, n);
    }
  }

  /** Two tables that agree where both are defined give the same ancestors. */
  lemma {:induction false} AncAgree<H(!new), P>(l1: Links<H, P>, l2: Links<H, P>, b: H, n: nat)
    requires Closed(l1) && Closed(l2)
    requires forall x | x in l1 && x in l2 :: l1[x] == l2[x]
    requires b in l1 && b in l2
    ensures Anc(l1, b, n) == Anc(l2, b, n)
  {
    assert Prev(l1, b) == Prev(l2, b);
    if n > 0 && Prev(l1, b).Some? {
      AncAgree(l1, l2, Prev(l1, b).value, n - 1);
    }
  }

  /** Ancestry is decided by the one candidate at the right height. */
  lemma IsAncAt<H(!new), P>(links: Links<H, P>, heights: map<H, nat>, a: H, d: H)
    requires Ranked(links, heights) && d in links && a in links
    ensures IsAnc(links, a, d) <==>
            heights[a] <= heights[d] && Anc(links, d, heights[d] - heights[a]) == Some(a)
  {
    if IsAnc(links, a, d) {
      var n: nat :| Anc(links, d, n) == Some(a);
      AncHeight(links, heights, d, n);
    }
  }

  lemma IsAncTrans<H(!new), P>(links: Links<H, P>, a: H, b: H, c: H)
    requires IsAnc(links, a, b) && IsAnc(links, b, c)
    ensures IsAnc(links, a, c)
  {
    var m: nat :| Anc(links, b, m) == Some(a);
    var n: nat :| Anc(links, c, n) == Some(b);
    AncAdd(links, c, n, m);
  }

  /** An ancestor is stored, and no higher than its descendant. */
  lemma IsAncHeight<H(!new), P>(links: Links<H, P>, heights: map<H, nat>, a: H, d: H)
    requires Ranked(links, heights) && IsAnc(links, a, d)
    ensures a in links && d in links && heights[a] <= heights[d]
    ensures heights[a] == heights[d] ==> a == d
  {
    var n: nat :| Anc(links, d, n) == Some(a);
    AncHeight(links, heights, d, n);
  }

  /** Two ancestors of one block are comparable. */
  lemma AncLinear<H(!new), P>(links: Links<H, P>, heights: map<H, nat>, a: H, b: H, d: H)
    requires Ranked(links, heights) && IsAnc(links, a, d) && IsAnc(links, b, d)
    requires a in links && b in links && heights[a] <= heights[b]
    ensures IsAnc(links, a, b)
  {
    IsAncHeight(links, heights, a, d);
    IsAncHeight(links, heights, b, d);
    IsAncAt(links, heights, a, d);
    IsAncAt(links, heights, b, d);
    AncAdd(links, d, heights[d] - heights[b], heights[b] - heights[a]);
    assert Anc(links, b, heights[b] - heights[a]) == Some(a);
  }

  /** The header table determines every index. */
  lemma IndexesDetermined<H(!new), P>(c: Chain<H, P>, d: Chain<H, P>)
    requires Valid(c) && Valid(d) && c.links == d.links
    ensures c == d
  {
    forall b | b in c.links
      ensures c.heights[b] == d.heights[b]
    {
      AncHeight(c.links, c.heights, b, c.heights[b]);
      AncHeight(c.links, d.heights, b, c.heights[b]);
      AncHeight(c.links, c.heights, b, d.heights[b]);
      AncHeight(c.links, d.heights, b, d.heights[b]);
    }
    assert c.heights == d.heights;
    forall b | b in c.links
      ensures c.skips[b] == d.skips[b]
    {
      assert SkipsExact(c.links, b, c.heights[b], c.skips[b]);
      assert SkipsExact(d.links, b, d.heights[b], d.skips[b]);
      forall i | 0 <= i < |c.skips[b]|
        ensures c.skips[b][i] == d.skips[b][i]
      {
        assert Anc(c.links, b, Pow2(i + 1)) == Some(c.skips[b][i]);
        assert Anc(c.links, b, Pow2(i + 1)) == Some(d.skips[b][i]);
      }
    }
    assert c.skips == d.skips;
    assert c.succs == d.succs;
  }

  // ----- Logarithmic ancestor lookup

  /** Walks the skip lists; an unknown block is an error unless no step is asked for. */
  method NthAncestor<H(==, !new), P>(c: Chain<H, P>, b: H, n: nat) returns (r: Result<H, ArchiveError>)
    requires Valid(c)
    ensures b in c.links && n <= c.heights[b] ==> r.Ok? && Anc(c.links, b, n) == Some(r.value)
    ensures b in c.links && n > c.heights[b] ==> r == Err(NoAncestor)
    ensures b !in c.links ==> r == if n == 0 then Ok(b) else Err(NoHeight)
  {
    var block := b;
    var rest: nat := n;
    while rest > 0
      invariant b !in c.links ==> block == b && rest == n
      invariant b in c.links ==>
                  && rest <= n
                  && Anc(c.links, b, n - rest) == Some(block)
                  && block in c.links
      invariant b in c.links && n > c.heights[b] ==> block == b && rest == n
    {
      if block !in c.heights {
        return Err(NoHeight);
      }
      AncHeight(c.links, c.heights, b, n - rest);
      AncAdd(c.links, b, n - rest, rest);
      if rest > c.heights[block] {
        return Err(NoAncestor);
      }
      AncHeight(c.links, c.heights, block, rest);
      if rest == 1 {
        AncHeight(c.links, c.heights, block, 1);
        return Ok(Prev(c.links, block).value);
      }
      var idx := Log2(rest) - 1;
      SkipInRange(c, block, rest);
      AncAdd(c.links, b, n - rest, Pow2(idx + 1));
      AncHeight(c.links, c.heights, block, Pow2(idx + 1));
      block := c.skips[block][idx];
      rest := rest - Pow2(idx + 1);
    }
    return Ok(block);
  }

  lemma SkipInRange<H(!new), P>(c: Chain<H, P>, b: H, n: nat)
    requires Valid(c) && b in c.links && 2 <= n <= c.heights[b]
    ensures 1 <= Log2(n) <= |c.skips[b]|
    ensures Pow2(Log2(n)) <= n
    ensures Anc(c.links, b, Pow2(Log2(n))) == Some(c.skips[b][Log2(n) - 1])
  {
    assert SkipsExact(c.links, b, c.heights[b], c.skips[b]);
    Log2Mono(n, c.heights[b]);
    Pow2Log2(n);
  }

  /** `a` is `d` or an ancestor of it; unknown blocks are errors, unless they are equal. */
  method IsDescendant<H(==, !new), P>(c: Chain<H, P>, a: H, d: H) returns (r: Result<bool, ArchiveError>)
    requires Valid(c)
    ensures a in c.links && d in c.links ==> r == Ok(IsAnc(c.links, a, d))
    ensures a == d ==> r == Ok(true)
    ensures a != d && (a !in c.links || d !in c.links) ==> r == Err(NoHeight)
  {
    if a == d {
      assert a in c.links ==> Anc(c.links, d, 0) == Some(a);
      return Ok(true);
    }
    if a !in c.heights || d !in c.heights {
      return Err(NoHeight);
    }
    IsAncAt(c.links, c.heights, a, d);
    if c.heights[a] > c.heights[d] {
      return Ok(false);
    }
    var x := NthAncestor(c, d, c.heights[d] - c.heights[a]);
    return Ok(a == x.value);
  }

  // ----- Last common ancestor

  /** `a` is the highest block that is an ancestor-or-self of both. */
  ghost predicate IsLastCommon<H(!new), P>(links: Links<H, P>, a: H, b0: H, b1: H) {
    && IsAnc(links, a, b0)
    && IsAnc(links, a, b1)
    && forall x | x in links && IsAnc(links, x, b0) && IsAnc(links, x, b1) :: IsAnc(links, x, a)
  }

  ghost predicate ShareAncestor<H(!new), P>(links: Links<H, P>, b0: H, b1: H) {
    exists x | x in links :: IsAnc(links, x, b0) && IsAnc(links, x, b1)
  }

  lemma LastCommonUnique<H(!new), P>(links: Links<H, P>, heights: map<H, nat>, a: H, a': H, b0: H, b1: H)
    requires Ranked(links, heights)
    requires IsLastCommon(links, a, b0, b1) && IsLastCommon(links, a', b1, b0)
    ensures a == a'
  {
    IsAncHeight(links, heights, a, b0);
    IsAncHeight(links, heights, a', b0);
    IsAncHeight(links, heights, a, a');
    IsAncHeight(links, heights, a', a);
  }

  /** Once two equally high blocks meet, they stay together further down. */
  lemma MeetDown<H(!new), P>(links: Links<H, P>, b0: H, b1: H, m: nat, n: nat)
    requires m <= n
    requires Anc(links, b0, m).Some? && Anc(links, b0, m) == Anc(links, b1, m)
    ensures Anc(links, b0, n) == Anc(links, b1, n)
  {
    AncAdd(links, b0, m, n - m);
    AncAdd(links, b1, m, n - m);
  }

  /** At equal heights, the shallowest depth of agreement gives the last common ancestor. */
  lemma MeetIsLastCommon<H(!new), P>(links: Links<H, P>, heights: map<H, nat>, b0: H, b1: H, d: nat, a: H)
    requires Ranked(links, heights) && b0 in links && b1 in links && heights[b0] == heights[b1]
    requires Anc(links, b0, d) == Some(a) == Anc(links, b1, d)
    requires d > 0 ==> Anc(links, b0, d - 1) != Anc(links, b1, d - 1)
    ensures IsLastCommon(links, a, b0, b1)
  {
    AncHeight(links, heights, b0, d);
    forall x | x in links && IsAnc(links, x, b0) && IsAnc(links, x, b1)
      ensures IsAnc(links, x, a)
    {
      IsAncHeight(links, heights, x, b0);
      IsAncAt(links, heights, x, b0);
      IsAncAt(links, heights, x, b1);
      var n: nat := heights[b0] - heights[x];
      if n < d {
        MeetDown(links, b0, b1, n, d - 1);
      }
      AncAdd(links, b0, d, n - d);
      assert Anc(links, a, n - d) == Some(x);
    }
  }

  /** Moving one block down to the height of the other changes no common ancestor. */
  lemma EqualizeKeepsCommon<H(!new), P>(links: Links<H, P>, heights: map<H, nat>, b0: H, b1: H, b1': H)
    requires Ranked(links, heights) && b0 in links && b1 in links && heights[b0] <= heights[b1]
    requires Anc(links, b1, heights[b1] - heights[b0]) == Some(b1')
    ensures b1' in links && heights[b1'] == heights[b0]
    ensures forall x | x in links ::
              IsAnc(links, x, b0) ==> (IsAnc(links, x, b1) <==> IsAnc(links, x, b1'))
  {
    AncHeight(links, heights, b1, heights[b1] - heights[b0]);
    assert IsAnc(links, b1', b1);
    forall x | x in links && IsAnc(links, x, b0)
      ensures IsAnc(links, x, b1) <==> IsAnc(links, x, b1')
    {
      IsAncHeight(links, heights, x, b0);
      if IsAnc(links, x, b1) {
        AncLinear(links, heights, x, b1', b1);
      }
      if IsAnc(links, x, b1') {
        IsAncTrans(links, x, b1', b1);
      }
    }
  }

  /** The two blocks brought to the smaller of their heights. */
  method Equalize<H(==, !new), P>(c: Chain<H, P>, b0: H, b1: H) returns (c0: H, c1: H, height: nat)
    requires Valid(c) && b0 in c.links && b1 in c.links
    ensures c0 in c.links && c1 in c.links && c.heights[c0] == c.heights[c1] == height
    ensures IsAnc(c.links, c0, b0) && IsAnc(c.links, c1, b1)
    ensures c0 == b0 || c1 == b1
    ensures forall x | x in c.links ::
              && (IsAnc(c.links, x, b0) && IsAnc(c.links, x, b1)
                  <==> IsAnc(c.links, x, c0) && IsAnc(c.links, x, c1))
  {
    c0, c1, height := b0, b1, c.heights[b0];
    assert Anc(c.links, b0, 0) == Some(b0) && Anc(c.links, b1, 0) == Some(b1);
    if c.heights[b0] < c.heights[b1] {
      var x := NthAncestor(c, b1, c.heights[b1] - c.heights[b0]);
      c1 := x.value;
      EqualizeKeepsCommon(c.links, c.heights, b0, b1, c1);
    } else if c.heights[b0] > c.heights[b1] {
      var x := NthAncestor(c, b0, c.heights[b0] - c.heights[b1]);
      c0, height := x.value, c.heights[b1];
      EqualizeKeepsCommon(c.links, c.heights, b1, b0, c0);
    }
  }

  /** Binary search for the shallowest depth at which two equally high blocks agree. */
  method MeetDepth<H(==, !new), P>(c: Chain<H, P>, b0: H, b1: H) returns (d: nat)
    requires Valid(c) && b0 in c.links && b1 in c.links && b0 != b1
    requires c.heights[b0] == c.heights[b1]
    ensures d <= c.heights[b0]
    ensures Anc(c.links, b0, c.heights[b0]) != Anc(c.links, b1, c.heights[b0]) ==> d == c.heights[b0]
    ensures Anc(c.links, b0, c.heights[b0]) == Anc(c.links, b1, c.heights[b0]) ==>
              && Anc(c.links, b0, d) == Anc(c.links, b1, d)
              && d > 0 && Anc(c.links, b0, d - 1) != Anc(c.links, b1, d - 1)
  {
    ghost var h := c.heights[b0];
    AncHeight(c.links, c.heights, b0, h);
    var lo, hi := 1, c.heights[b0];
    while lo < hi
      invariant h == 0 ==> hi == 0
      invariant h > 0 ==> 1 <= lo <= hi <= h
      invariant Anc(c.links, b0, lo - 1) != Anc(c.links, b1, lo - 1)
      invariant hi < h ==> Anc(c.links, b0, hi) == Anc(c.links, b1, hi)
    {
      var mid := (lo + hi) / 2;
      var x0 := NthAncestor(c, b0, mid);
      var x1 := NthAncestor(c, b1, mid);
      AncHeight(c.links, c.heights, b0, mid);
      if x0.value == x1.value {
        hi := mid;
      } else {
        lo := mid + 1;
      }
    }
    if hi < h {
      AncHeight(c.links, c.heights, b0, hi);
      MeetDown(c.links, b0, b1, hi, h);
    }
    return hi;
  }

  /** The sidechain version: it first compares the oldest ancestors. */
  method LastCommonAncestor<H(==, !new), P>(c: Chain<H, P>, b0: H, b1: H)
    returns (r: Result<Option<H>, ArchiveError>)
    requires Valid(c)
    ensures b0 !in c.links || b1 !in c.links ==> r == Err(NoHeight)
    ensures b0 in c.links && b1 in c.links ==>
              r.Ok? && (r.value.None? <==> !ShareAncestor(c.links, b0, b1))
    ensures r.Ok? && r.value.Some? ==> IsLastCommon(c.links, r.value.value, b0, b1)
  {
    if b0 !in c.heights || b1 !in c.heights {
      return Err(NoHeight);
    }
    var c0, c1, height := Equalize(c, b0, b1);
    if c0 == c1 {
      MeetIsLastCommon(c.links, c.heights, c0, c1, 0, c0);
      return Ok(Some(c0));
    }
    var o0 := NthAncestor(c, c0, height);
    var o1 := NthAncestor(c, c1, height);
    OldestDecides(c.links, c.heights, c0, c1);
    if o0.value != o1.value {
      return Ok(None);
    }
    var d := MeetDepth(c, c0, c1);
    var a := NthAncestor(c, c0, d);
    MeetIsLastCommon(c.links, c.heights, c0, c1, d, a.value);
    return Ok(Some(a.value));
  }

  /** Equally high blocks share an ancestor exactly when they share the oldest one. */
  lemma OldestDecides<H(!new), P>(links: Links<H, P>, heights: map<H, nat>, b0: H, b1: H)
    requires Ranked(links, heights) && b0 in links && b1 in links && heights[b0] == heights[b1]
    ensures ShareAncestor(links, b0, b1) <==>
            Anc(links, b0, heights[b0]) == Anc(links, b1, heights[b0])
  {
    var h := heights[b0];
    AncHeight(links, heights, b0, h);
    if Anc(links, b0, h) == Anc(links, b1, h) {
      var x := Anc(links, b0, h).value;
      assert x in links && IsAnc(links, x, b0) && IsAnc(links, x, b1);
    }
    if ShareAncestor(links, b0, b1) {
      var x :| x in links && IsAnc(links, x, b0) && IsAnc(links, x, b1);
      IsAncHeight(links, heights, x, b0);
      IsAncAt(links, heights, x, b0);
      IsAncAt(links, heights, x, b1);
      MeetDown(links, b0, b1, h - heights[x], h);
    }
  }

  /**
   The mainchain version has no such test. It is the last common ancestor exactly when the
   blocks share one; otherwise it returns the oldest ancestor of the first argument.
   */
  method LastCommonMainAncestor<H(==, !new), P>(c: Chain<H, P>, b0: H, b1: H)
    returns (r: Result<H, ArchiveError>)
    requires Valid(c)
    ensures b0 !in c.links || b1 !in c.links ==> r == Err(NoHeight)
    ensures b0 in c.links && b1 in c.links ==>
              && r.Ok? && r.value in c.links
              && (IsLastCommon(c.links, r.value, b0, b1) <==> ShareAncestor(c.links, b0, b1))
              && (!ShareAncestor(c.links, b0, b1) ==>
                    IsAnc(c.links, r.value, b0) && c.heights[r.value] == 0)
  {
    if b0 !in c.heights || b1 !in c.heights {
      return Err(NoHeight);
    }
    var c0, c1, height := Equalize(c, b0, b1);
    if c0 == c1 {
      MeetIsLastCommon(c.links, c.heights, c0, c1, 0, c0);
      return Ok(c0);
    }
    var d := MeetDepth(c, c0, c1);
    OldestDecides(c.links, c.heights, c0, c1);
    var a := NthAncestor(c, c0, d);
    AncHeight(c.links, c.heights, c0, d);
    IsAncTrans(c.links, a.value, c0, b0);
    if ShareAncestor(c.links, c0, c1) {
      MeetIsLastCommon(c.links, c.heights, c0, c1, d, a.value);
    }
    return Ok(a.value);
  }

  /** One of the two blocks descends from the other. */
  method SharedLineage<H(==, !new), P>(c: Chain<H, P>, b0: H, b1: H) returns (r: Result<bool, ArchiveError>)
    requires Valid(c)
    ensures b0 !in c.links || b1 !in c.links ==> r == Err(NoHeight)
    ensures b0 in c.links && b1 in c.links ==>
              r == Ok(IsAnc(c.links, b0, b1) || IsAnc(c.links, b1, b0))
  {
    if b0 !in c.heights || b1 !in c.heights {
      return Err(NoHeight);
    }
    IsAncAt(c.links, c.heights, b0, b1);
    IsAncAt(c.links, c.heights, b1, b0);
    var c0, c1 := b0, b1;
    if c.heights[b0] < c.heights[b1] {
      var x := NthAncestor(c, b1, c.heights[b1] - c.heights[b0]);
      c1 := x.value;
    } else if c.heights[b0] > c.heights[b1] {
      var x := NthAncestor(c, b0, c.heights[b0] - c.heights[b1]);
      c0 := x.value;
    }
    return Ok(c0 == c1);
  }

  // ----- Storing a header

  /** A new childless block leaves every other index entry as it was. */
  lemma AncExtend<H(!new), P>(links: Links<H, P>, b: H, link: Link<H, P>, x: H, n: nat)
    requires Closed(links) && (link.prev.Some? ==> link.prev.value in links)
    requires b in links ==> links[b] == link
    ensures Closed(links[b := link])
    ensures x in links ==> Anc(links[b := link], x, n) == Anc(links, x, n)
    ensures n > 0 && link.prev.Some? ==>
              Anc(links[b := link], b, n) == Anc(links, link.prev.value, n - 1)
  {
    var links' := links[b := link];
    forall y {:trigger Prev(links', y)} | y in links'
      ensures Prev(links', y).Some? ==> Prev(links', y).value in links'
    {
      assert y in links ==> Prev(links', y) == Prev(links, y);
    }
    if x in links {
      AncAgree(links, links[b := link], x, n);
    }
    if n > 0 && link.prev.Some? {
      AncAgree(links, links[b := link], link.prev.value, n - 1);
    }
  }

  ghost predicate SkipsSoFar<H(!new), P>(links: Links<H, P>, b: H, skips: seq<H>) {
    forall i | 0 <= i < |skips| :: Anc(links, b, Pow2(i + 1)) == Some(skips[i])
  }

  /** The next entry is as far from the last as the last is from the block. */
  lemma NextSkip<H(!new), P>(links: Links<H, P>, b: H, skips: seq<H>, next: H)
    requires skips != [] && SkipsSoFar(links, b, skips)
    requires Anc(links, skips[|skips| - 1], Pow2(|skips|)) == Some(next)
    ensures SkipsSoFar(links, b, skips + [next])
  {
    AncAdd(links, b, Pow2(|skips|), Pow2(|skips|));
    assert Pow2(|skips| + 1) == Pow2(|skips|) + Pow2(|skips|);
  }

  /** The skip list of a block of the given height whose parent is `p`. */
  method BuildSkips<H(==, !new), P>(c: Chain<H, P>, ghost b: H, link: Link<H, P>, height: nat)
    returns (skips: seq<H>)
    requires Valid(c) && (b in c.links ==> c.links[b] == link)
    requires match link.prev
             case None => height == 0
             case Some(p) => p in c.links && height == c.heights[p] + 1
    ensures SkipsExact(c.links[b := link], b, height, skips)
  {
    skips := [];
    Log2Pow2(1, height);
    if height >= 2 {
      ghost var links := c.links[b := link];
      var p := link.prev.value;
      AncExtend(c.links, b, link, p, 1);
      AncExtend(c.links, b, link, b, 2);
      var grandparent := NthAncestor(c, p, 1);
      skips := [grandparent.value];
      assert Pow2(1) == 2;
      AncHeight(c.links, c.heights, p, 1);
      var depth := 4;
      while height >= depth
        invariant |skips| >= 1 && depth == Pow2(|skips| + 1) && Pow2(|skips|) <= height
        invariant SkipsSoFar(links, b, skips)
        invariant skips[|skips| - 1] in c.links
        invariant c.heights[skips[|skips| - 1]] == height - Pow2(|skips|)
      {
        var last := skips[|skips| - 1];
        var next := NthAncestor(c, last, depth / 2);
        AncHeight(c.links, c.heights, last, depth / 2);
        AncExtend(c.links, b, link, last, depth / 2);
        NextSkip(links, b, skips, next.value);
        skips := skips + [next.value];
        depth := depth * 2;
      }
      Log2Pow2(|skips|, height);
      Log2Pow2(|skips| + 1, height);
    }
  }

  /** Stores a header under a stored parent (or none) and brings every index up to date. */
  method Insert<H(==, !new), P>(c: Chain<H, P>, b: H, link: Link<H, P>) returns (r: Option<Chain<H, P>>)
    requires Valid(c)
    requires b in c.links ==> c.links[b] == link
    ensures r.None? <==> link.prev.Some? && link.prev.value !in c.links
    ensures r.Some? ==> Valid(r.value) && r.value.links == c.links[b := link]
  {
    var height := 0;
    if link.prev.Some? {
      if link.prev.value !in c.heights {
        return None;
      }
      height := c.heights[link.prev.value] + 1;
    }
    var succs := c.succs;
    succs := succs[link.prev := succs[link.prev] + {b}];
    succs := succs[Some(b) := if Some(b) in succs then succs[Some(b)] else {}];
    assert succs == SuccsAfter(c.succs, b, link);
    var skips := BuildSkips(c, b, link, height);
    var d := Chain(c.links[b := link], c.heights[b := height], c.skips[b := skips], succs);
    InsertValid(c, b, link, d);
    return Some(d);
  }

  lemma InsertValid<H(!new), P>(c: Chain<H, P>, b: H, link: Link<H, P>, d: Chain<H, P>)
    requires Valid(c) && (b in c.links ==> c.links[b] == link)
    requires link.prev.Some? ==> link.prev.value in c.links
    requires d.links == c.links[b := link]
    requires b in d.heights && d.heights == c.heights[b := d.heights[b]]
    requires d.heights[b] == match link.prev case None => 0 case Some(p) => c.heights[p] + 1
    requires b in d.skips && d.skips == c.skips[b := d.skips[b]]
    requires SkipsExact(d.links, b, d.heights[b], d.skips[b])
    requires d.succs == SuccsAfter(c.succs, b, link)
    ensures Valid(d)
  {
    AncExtend(c.links, b, link, b, 0);
    RankedExtend(c.links, c.heights, b, link, d.heights[b]);
    SuccsExtend(c.links, c.heights, c.succs, b, link);
    forall x | x in d.links
      ensures SkipsExact(d.links, x, d.heights[x], d.skips[x])
    {
      if x != b {
        SkipsExtend(c.links, b, link, x, c.heights[x], c.skips[x]);
      }
    }
  }

  function SuccsAfter<H(!new), P>(succs: map<Option<H>, set<H>>, b: H, link: Link<H, P>): map<Option<H>, set<H>>
    requires link.prev in succs
  {
    var s := succs[link.prev := succs[link.prev] + {b}];
    s[Some(b) := if Some(b) in s then s[Some(b)] else {}]
  }

  lemma RankedExtend<H(!new), P>(links: Links<H, P>, heights: map<H, nat>, b: H, link: Link<H, P>, h: nat)
    requires Ranked(links, heights) && (b in links ==> links[b] == link)
    requires match link.prev
             case None => h == 0
             case Some(p) => p in links && h == heights[p] + 1
    ensures Ranked(links[b := link], heights[b := h])
  {
    AncExtend(links, b, link, b, 0);
    forall x {:trigger Prev(links[b := link], x)} | x in links[b := link]
      ensures heights[b := h][x] ==
              match Prev(links[b := link], x) case None => 0 case Some(p) => heights[b := h][p] + 1
    {
      if x in links {
        assert Prev(links[b := link], x) == Prev(links, x);
        assert b in links ==> Prev(links, b) == link.prev;
      }
    }
  }

  lemma SkipsExtend<H(!new), P>(links: Links<H, P>, b: H, link: Link<H, P>, x: H, h: nat, skips: seq<H>)
    requires Closed(links) && (link.prev.Some? ==> link.prev.value in links)
    requires b in links ==> links[b] == link
    requires x in links && SkipsExact(links, x, h, skips)
    ensures SkipsExact(links[b := link], x, h, skips)
  {
    forall i | 0 <= i < |skips|
      ensures Anc(links[b := link], x, Pow2(i + 1)) == Some(skips[i])
    {
      AncExtend(links, b, link, x, Pow2(i + 1));
    }
  }

  /** Storing `b` makes it a child of its parent and nothing else. */
  lemma ChildrenExtend<H(!new), P>(links: Links<H, P>, b: H, link: Link<H, P>, k: Option<H>)
    requires b in links ==> links[b] == link
    ensures Children(links[b := link], k) == Children(links, k) + if k == link.prev then {b} else {}
  {
    forall x | x in links
      ensures Prev(links[b := link], x) == Prev(links, x)
    {
    }
    assert Prev(links[b := link], b) == link.prev;
  }

  lemma SuccsExtend<H(!new), P>(links: Links<H, P>, heights: map<H, nat>,
                                succs: map<Option<H>, set<H>>, b: H, link: Link<H, P>)
    requires Ranked(links, heights) && SuccsExact(links, succs) && (b in links ==> links[b] == link)
    requires link.prev.Some? ==> link.prev.value in links
    ensures link.prev in succs
    ensures SuccsExact(links[b := link], SuccsAfter(succs, b, link))
  {
    assert link.prev in succs;
    var links', succs' := links[b := link], SuccsAfter(succs, b, link);
    assert Prev(links', b) == link.prev;
    forall k {:trigger succs'[k]} | k in succs'
      ensures succs'[k] == Children(links', k)
    {
      ChildrenExtend(links, b, link, k);
      if k in succs {
        assert succs[k] == Children(links, k);
      } else {
        assert k == Some(b) && Children(links, k) == {};
      }
    }
  }

  // ----- Removing a block and its descendants

  ghost function Descendants<H(!new), P>(links: Links<H, P>, b: H): set<H> {
    set x | x in links && IsAnc(links, b, x)
  }

  ghost predicate ChildClosed<H(!new), P>(links: Links<H, P>, X: set<H>) {
    forall y {:trigger Prev(links, y)} | y in links :: Prev(links, y).Some? && Prev(links, y).value in X ==> y in X
  }

  /** The chain with the entries of a set of blocks struck from every table. */
  function Without<H(!new), P>(c: Chain<H, P>, X: set<H>): Chain<H, P> {
    Chain(c.links - X, c.heights - X, c.skips - X,
          map k | k in c.succs && (k.Some? ==> k.value !in X) :: c.succs[k] - X)
  }

  /** Strikes one block: its own entries, and its mention among its parent's successors. */
  function RemoveOne<H(!new), P>(c: Chain<H, P>, x: H): Chain<H, P> {
    var k := Prev(c.links, x);
    var succs := if x in c.links && k in c.succs then c.succs[k := c.succs[k] - {x}] else c.succs;
    Chain(c.links - {x}, c.heights - {x}, c.skips - {x}, succs - {Some(x)})
  }

  lemma RemoveOneWithout<H(!new), P>(c: Chain<H, P>, X: set<H>, x: H)
    requires SuccsExact(c.links, c.succs) && x !in X
    ensures RemoveOne(Without(c, X), x) == Without(c, X + {x})
  {
    var w, d, e := Without(c, X), RemoveOne(Without(c, X), x), Without(c, X + {x});
    var p := Prev(c.links, x);
    assert Prev(w.links, x) == p;
    assert x in c.links ==> x in w.links;
    assert d.succs.Keys == e.succs.Keys;
    forall k | k in e.succs
      ensures d.succs[k] == e.succs[k]
    {
      assert c.succs[k] == Children(c.links, k);
      assert x in c.succs[k] <==> x in c.links && p == k;
      assert e.succs[k] == w.succs[k] - {x};
    }
    assert d.succs == e.succs;
  }

  lemma WithoutNothing<H(!new), P>(c: Chain<H, P>)
    ensures Without(c, {}) == c
  {
    forall k | k in c.succs
      ensures c.succs[k] - {} == c.succs[k]
    {
    }
    assert Without(c, {}).succs == c.succs;
  }

  /** Striking a set that contains the children of its members leaves every index exact. */
  lemma WithoutValid<H(!new), P>(c: Chain<H, P>, X: set<H>)
    requires Valid(c) && ChildClosed(c.links, X)
    ensures Valid(Without(c, X))
  {
    var d := Without(c, X);
    forall b | b in d.links
      ensures Prev(d.links, b) == Prev(c.links, b)
    {
    }
    assert Ranked(d.links, d.heights);
    forall b | b in d.links
      ensures SkipsExact(d.links, b, d.heights[b], d.skips[b])
    {
      assert SkipsExact(c.links, b, c.heights[b], c.skips[b]);
      forall i | 0 <= i < |d.skips[b]|
        ensures Anc(d.links, b, Pow2(i + 1)) == Some(d.skips[b][i])
      {
        AncAgree(c.links, d.links, b, Pow2(i + 1));
      }
    }
    forall k | k in d.succs
      ensures d.succs[k] == Children(d.links, k)
    {
      assert c.succs[k] == Children(c.links, k);
    }
  }

  /** A child-closed set holding `b` holds every descendant of `b`. */
  lemma {:induction false} ClosedHolds<H(!new), P>(links: Links<H, P>, X: set<H>, b: H, d: H, n: nat)
    requires ChildClosed(links, X) && b in X && Anc(links, d, n) == Some(b)
    ensures d in X
  {
    if n > 0 {
      ClosedHolds(links, X, b, Prev(links, d).value, n - 1);
    }
  }

  lemma DescendantsClosed<H(!new), P>(links: Links<H, P>, b: H)
    requires Closed(links)
    ensures ChildClosed(links, Descendants(links, b) + {b})
  {
    forall y {:trigger Prev(links, y)}
      | y in links && Prev(links, y).Some? && Prev(links, y).value in Descendants(links, b) + {b}
      ensures y in Descendants(links, b)
    {
      var p := Prev(links, y).value;
      var n: nat :| Anc(links, p, n) == Some(b) || (n == 0 && p == b);
      assert Anc(links, y, n + 1) == Anc(links, p, n);
    }
  }
}

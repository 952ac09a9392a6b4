/**
 Fork choice between two candidate tips. The method follows the source; the function states
 the rule in terms of ancestry alone; the theorem says exactly when the order of the two
 arguments matters.
 */
module ForkChoice {
  import opened Common
  import opened ChainIndex
  import opened Bmm
  import opened ArchiveState

  /** A side block together with the main block that commits to it. */
  datatype Tip = Tip(block: SideHash, main: MainHash)

  ghost predicate SingleGenesis(links: Links<MainHash, MainData>) {
    forall x, y | x in links && y in links && Prev(links, x).None? && Prev(links, y).None? :: x == y
  }

  lemma GenesisShared(c: MainChain, m0: MainHash, m1: MainHash)
    requires Valid(c) && SingleGenesis(c.links) && m0 in c.links && m1 in c.links
    ensures ShareAncestor(c.links, m0, m1)
  {
    AncHeight(c.links, c.heights, m0, c.heights[m0]);
    AncHeight(c.links, c.heights, m1, c.heights[m1]);
    var g0, g1 := Anc(c.links, m0, c.heights[m0]).value, Anc(c.links, m1, c.heights[m1]).value;
    assert Prev(c.links, g0).None? && Prev(c.links, g1).None?;
    assert IsAnc(c.links, g0, m0) && IsAnc(c.links, g0, m1);
  }

  // ----- The rule

  ghost function LastCommon(links: Links<MainHash, MainData>, m0: MainHash, m1: MainHash): MainHash
    requires exists a :: IsLastCommon(links, a, m0, m1)
  {
    var a :| IsLastCommon(links, a, m0, m1); a
  }

  /** `x` was built on a strict main ancestor of `a`. */
  ghost predicate BuiltBefore(s: State, x: SideHash, a: MainHash)
    requires x in s.side.links
  {
    var m := s.side.links[x].data;
    m.Some? && m.value != a && IsAnc(s.main.links, m.value, a)
  }

  /**
   The highest block of the ancestry of `b` built strictly before main block `a`; an error if
   a block built on no main block at all is met first.
   */
  ghost function BeforeFork(s: State, b: SideHash, a: MainHash): (r: Result<Option<SideHash>, ArchiveError>)
    requires Ranked(s.side.links, s.side.heights) && b in s.side.links
    ensures r.Err? ==> r.error == NoHeight
    decreases s.side.heights[b]
  {
    if s.side.links[b].data.None? then Err(NoHeight)
    else if BuiltBefore(s, b, a) then Ok(Some(b))
    else match Prev(s.side.links, b)
      case None => Ok(None)
      case Some(p) => BeforeFork(s, p, a)
  }

  /** It is an ancestor, built before the fork, and every later block was not. */
  lemma {:induction false} BeforeForkIsHighest(s: State, b: SideHash, a: MainHash)
    requires Ranked(s.side.links, s.side.heights) && b in s.side.links
    requires BeforeFork(s, b, a).Ok?
    ensures match BeforeFork(s, b, a).value
            case Some(x) =>
              && IsAnc(s.side.links, x, b) && x in s.side.links && BuiltBefore(s, x, a)
              && forall y | y in s.side.links && IsAnc(s.side.links, y, b) && s.side.heights[y] > s.side.heights[x] ::
                   !BuiltBefore(s, y, a)
            case None =>
              forall y | y in s.side.links && IsAnc(s.side.links, y, b) :: !BuiltBefore(s, y, a)
    decreases s.side.heights[b]
  {
    AncestryStep(s, b);
    if !BuiltBefore(s, b, a) && Prev(s.side.links, b).Some? {
      BeforeForkIsHighest(s, Prev(s.side.links, b).value, a);
    }
  }

  /** The ancestry of a block is the block itself and the ancestry of its parent, which lies lower. */
  lemma AncestryStep(s: State, b: SideHash)
    requires Ranked(s.side.links, s.side.heights) && b in s.side.links
    ensures forall y | y in s.side.links :: IsAnc(s.side.links, y, b) <==> y == b || FromParent(s.side.links, y, b)
    ensures forall y | y in s.side.links && FromParent(s.side.links, y, b) :: s.side.heights[y] < s.side.heights[b]
  {
    assert Anc(s.side.links, b, 0) == Some(b);
    forall y | y in s.side.links && IsAnc(s.side.links, y, b)
      ensures y == b || FromParent(s.side.links, y, b)
    {
      var n: nat :| Anc(s.side.links, b, n) == Some(y);
      assert n > 0 ==> Anc(s.side.links, Prev(s.side.links, b).value, n - 1) == Some(y);
    }
    forall y | y in s.side.links && FromParent(s.side.links, y, b)
      ensures IsAnc(s.side.links, y, b) && s.side.heights[y] < s.side.heights[b]
    {
      var p := Prev(s.side.links, b).value;
      assert Anc(s.side.links, b, 1) == Anc(s.side.links, p, 0) == Some(p);
      IsAncTrans(s.side.links, y, p, b);
      IsAncHeight(s.side.links, s.side.heights, y, p);
    }
  }

  ghost predicate FromParent(links: Links<SideHash, Option<MainHash>>, y: SideHash, b: SideHash) {
    Prev(links, b).Some? && IsAnc(links, y, Prev(links, b).value)
  }

  lemma {:induction false} BeforeForkStored(s: State, b: SideHash, a: MainHash)
    requires Ranked(s.side.links, s.side.heights) && b in s.side.links
    requires BeforeFork(s, b, a).Ok? && BeforeFork(s, b, a).value.Some?
    ensures var x := BeforeFork(s, b, a).value.value; x in s.side.links && BuiltBefore(s, x, a)
    decreases s.side.heights[b]
  {
    if !BuiltBefore(s, b, a) {
      BeforeForkStored(s, Prev(s.side.links, b).value, a);
    }
  }

  /** Height of that block, and total work of the main block on the way to `a` that follows it. */
  ghost function ForkRank(s: State, b: SideHash, a: MainHash): Result<Option<(nat, nat)>, ArchiveError>
    requires Inv(s) && b in s.side.links && a in s.main.links
  {
    var found := BeforeFork(s, b, a);
    if found.Err? then Err(found.error)
    else if found.value.None? then Ok(None)
    else
      BeforeForkStored(s, b, a);
      var x := found.value.value;
      Ok(Some((s.side.heights[x], s.totalWork[MainStep(s.main, s.side.links[x].data.value, a)])))
  }

  /** The child of `m` on the way to its strict descendant `a`. */
  ghost function MainStep(main: MainChain, m: MainHash, a: MainHash): (r: MainHash)
    requires Valid(main) && a in main.links && m != a && IsAnc(main.links, m, a)
    ensures r in main.links && Prev(main.links, r) == Some(m) && IsAnc(main.links, r, a)
    ensures m in main.links && main.heights[m] + 1 <= main.heights[a]
    ensures Anc(main.links, a, main.heights[a] - (main.heights[m] + 1)) == Some(r)
  {
    IsAncHeight(main.links, main.heights, m, a);
    IsAncAt(main.links, main.heights, m, a);
    var n: nat := main.heights[a] - (main.heights[m] + 1);
    AncHeight(main.links, main.heights, a, n);
    AncAdd(main.links, a, n, 1);
    var r := Anc(main.links, a, n).value;
    assert Anc(main.links, r, 1) == Some(m);
    r
  }

  /** `None` is below every height. */
  ghost predicate AtLeast(found: Option<(nat, nat)>, height: nat) {
    found.Some? && found.value.0 >= height
  }

  /** On equal work and height the greater fork height wins, then the smaller fork work. */
  ghost predicate FirstWins(r0: Option<(nat, nat)>, r1: Option<(nat, nat)>) {
    match (r0, r1)
    case (None, None) => true
    case (None, Some(_)) => false
    case (Some(_), None) => true
    case (Some(x), Some(y)) => x.0 > y.0 || (x.0 == y.0 && x.1 <= y.1)
  }

  ghost predicate TipKnown(s: State, t: Tip) {
    t.block in s.side.links && t.main in s.main.links
  }

  ghost function Better(s: State, t0: Tip, t1: Tip): Result<Option<Tip>, ArchiveError>
    requires Inv(s) && SingleGenesis(s.main.links)
  {
    if t0 == t1 then Ok(None)
    else if t0.block !in s.side.links || t1.block !in s.side.links then Err(NoHeight)
    else
      var h0, h1 := s.side.heights[t0.block], s.side.heights[t1.block];
      if h0 == 0 && h1 == 0 then Ok(None)
      else if h0 == 0 then Ok(Some(t1))
      else if h1 == 0 then Ok(Some(t0))
      else if t0.main !in s.main.links || t1.main !in s.main.links then Err(NoMainHeaderInfo)
      else
        var w0, w1 := s.totalWork[t0.main], s.totalWork[t1.main];
        if w0 <= w1 && h0 < h1 then Ok(Some(t1))
        else if w0 >= w1 && h0 > h1 then Ok(Some(t0))
        else if w0 != w1 && h0 == h1 then
          var lineage := IsAnc(s.main.links, t0.main, t1.main) || IsAnc(s.main.links, t1.main, t0.main);
          Ok(Some(if lineage == (w0 < w1) then t0 else t1))
        else
          CommonExists(s.main, t0.main, t1.main);
          var a := LastCommon(s.main.links, t0.main, t1.main);
          CommonKnown(s.main, a, t0.main, t1.main);
          Contest(s, t0, t1, a)
  }

  /** Neither tip is ahead on both counts: what each had reached before the fork decides. */
  ghost function Contest(s: State, t0: Tip, t1: Tip, a: MainHash): Result<Option<Tip>, ArchiveError>
    requires Inv(s) && TipKnown(s, t0) && TipKnown(s, t1) && a in s.main.links
  {
    var w0, w1 := s.totalWork[t0.main], s.totalWork[t1.main];
    var h0, h1 := s.side.heights[t0.block], s.side.heights[t1.block];
    var r0, r1 := ForkRank(s, t0.block, a), ForkRank(s, t1.block, a);
    if w0 < w1 then
      if r0.Err? then Err(r0.error) else Ok(Some(if AtLeast(r0.value, h1) then t0 else t1))
    else if w0 > w1 then
      if r1.Err? then Err(r1.error) else Ok(Some(if AtLeast(r1.value, h0) then t1 else t0))
    else if t0.block == t1.block then Ok(Some(t0))
    else if r0.Err? then Err(r0.error)
    else if r1.Err? then Err(r1.error)
    else Ok(Some(if FirstWins(r0.value, r1.value) then t0 else t1))
  }

  lemma CommonExists(c: MainChain, m0: MainHash, m1: MainHash)
    requires Valid(c) && SingleGenesis(c.links) && m0 in c.links && m1 in c.links
    ensures exists a :: IsLastCommon(c.links, a, m0, m1)
  {
    GenesisShared(c, m0, m1);
    forall x | x in c.links && IsAnc(c.links, x, m0)
      ensures c.heights[x] <= c.heights[m0]
    {
      IsAncHeight(c.links, c.heights, x, m0);
    }
    LastCommonExists(c, m0, m1, c.heights[m0]);
  }

  /** Among the shared ancestors there is a highest one. */
  lemma {:induction false} LastCommonExists(c: MainChain, m0: MainHash, m1: MainHash, n: nat)
    requires Valid(c) && ShareAncestor(c.links, m0, m1) && m0 in c.links && n <= c.heights[m0]
    requires forall x | x in c.links && IsAnc(c.links, x, m0) && IsAnc(c.links, x, m1) :: c.heights[x] <= n
    ensures exists a :: IsLastCommon(c.links, a, m0, m1)
  {
    if x :| x in c.links && IsAnc(c.links, x, m0) && IsAnc(c.links, x, m1) && c.heights[x] == n {
      forall y | y in c.links && IsAnc(c.links, y, m0) && IsAnc(c.links, y, m1)
        ensures IsAnc(c.links, y, x)
      {
        AncLinear(c.links, c.heights, y, x, m0);
      }
      assert IsLastCommon(c.links, x, m0, m1);
    } else {
      LastCommonExists(c, m0, m1, n - 1);
    }
  }

  lemma CommonKnown(c: MainChain, a: MainHash, m0: MainHash, m1: MainHash)
    requires Valid(c) && IsLastCommon(c.links, a, m0, m1)
    ensures a in c.links
  {
    IsAncHeight(c.links, c.heights, a, m0);
  }

  // ----- When the order matters

  /** Distinct tips of equal height and work that the fork rule cannot separate. */
  ghost predicate Tied(s: State, t0: Tip, t1: Tip)
    requires Inv(s) && SingleGenesis(s.main.links)
  {
    && t0 != t1 && TipKnown(s, t0) && TipKnown(s, t1)
    && s.side.heights[t0.block] == s.side.heights[t1.block] > 0
    && s.totalWork[t0.main] == s.totalWork[t1.main]
    && (t0.block == t1.block ||
        (CommonExists(s.main, t0.main, t1.main);
         var a := LastCommon(s.main.links, t0.main, t1.main);
         CommonKnown(s.main, a, t0.main, t1.main);
         ForkRank(s, t0.block, a).Ok? && ForkRank(s, t0.block, a) == ForkRank(s, t1.block, a)))
  }

  lemma LastCommonSymmetric(c: MainChain, m0: MainHash, m1: MainHash)
    requires Valid(c) && SingleGenesis(c.links) && m0 in c.links && m1 in c.links
    ensures exists a :: IsLastCommon(c.links, a, m0, m1)
    ensures exists a :: IsLastCommon(c.links, a, m1, m0)
    ensures LastCommon(c.links, m0, m1) == LastCommon(c.links, m1, m0)
  {
    CommonExists(c, m0, m1);
    CommonExists(c, m1, m0);
    LastCommonUnique(c.links, c.heights, LastCommon(c.links, m0, m1), LastCommon(c.links, m1, m0), m0, m1);
  }

  lemma ContestOrder(s: State, t0: Tip, t1: Tip, a: MainHash)
    requires Inv(s) && TipKnown(s, t0) && TipKnown(s, t1) && a in s.main.links && t0 != t1
    ensures Contest(s, t0, t1, a) != Contest(s, t1, t0, a) <==>
            && s.totalWork[t0.main] == s.totalWork[t1.main]
            && (t0.block == t1.block ||
                (ForkRank(s, t0.block, a).Ok? && ForkRank(s, t0.block, a) == ForkRank(s, t1.block, a)))
    ensures Contest(s, t0, t1, a) != Contest(s, t1, t0, a) ==> Contest(s, t0, t1, a) == Ok(Some(t0))
  {
    var r0, r1 := ForkRank(s, t0.block, a), ForkRank(s, t1.block, a);
    if r0.Ok? && r1.Ok? && r0 != r1 {
      assert FirstWins(r0.value, r1.value) != FirstWins(r1.value, r0.value);
    }
  }

  /** The choice depends on the order of the arguments exactly when the tips are tied. */
  lemma OrderMattersIffTied(s: State, t0: Tip, t1: Tip)
    requires Inv(s) && SingleGenesis(s.main.links)
    ensures Better(s, t0, t1) == Better(s, t1, t0) <==> !Tied(s, t0, t1)
    ensures Tied(s, t0, t1) ==> Better(s, t0, t1) == Ok(Some(t0))
  {
    if t0 != t1 && TipKnown(s, t0) && TipKnown(s, t1) {
      LastCommonSymmetric(s.main, t0.main, t1.main);
      var a := LastCommon(s.main.links, t0.main, t1.main);
      CommonKnown(s.main, a, t0.main, t1.main);
      ContestOrder(s, t0, t1, a);
    }
  }

  // ----- When a choice is made

  /** Neither height nor work, nor both together, settle the choice. */
  ghost predicate Contested(s: State, t0: Tip, t1: Tip)
    requires Inv(s) && TipKnown(s, t0) && TipKnown(s, t1)
  {
    var w0, w1 := s.totalWork[t0.main], s.totalWork[t1.main];
    var h0, h1 := s.side.heights[t0.block], s.side.heights[t1.block];
    && t0 != t1 && h0 > 0 && h1 > 0
    && if w0 == w1 then h0 == h1 && t0.block != t1.block else (w0 < w1) == (h0 > h1) && h0 != h1
  }

  /** The walk down from `b` meets a block with no main parent before one that was built before `a`. */
  ghost predicate MeetsUnanchored(s: State, b: SideHash, a: MainHash)
    requires Inv(s)
  {
    exists x :: x in s.side.links && UnanchoredBelow(s, b, a, x)
  }

  ghost predicate UnanchoredBelow(s: State, b: SideHash, a: MainHash, x: SideHash)
    requires Inv(s) && x in s.side.links
  {
    && IsAnc(s.side.links, x, b) && s.side.links[x].data.None?
    && forall y | y in s.side.links && IsAnc(s.side.links, y, b) && s.side.heights[y] > s.side.heights[x] ::
         !BuiltBefore(s, y, a)
  }

  lemma {:induction false} BeforeForkFailsIff(s: State, b: SideHash, a: MainHash)
    requires Inv(s) && b in s.side.links
    ensures BeforeFork(s, b, a).Err? <==> MeetsUnanchored(s, b, a)
    decreases s.side.heights[b]
  {
    AncestryStep(s, b);
    if s.side.links[b].data.None? {
      assert UnanchoredBelow(s, b, a, b);
    } else if !BuiltBefore(s, b, a) && Prev(s.side.links, b).Some? {
      var p := Prev(s.side.links, b).value;
      BeforeForkFailsIff(s, p, a);
      forall x | x in s.side.links
        ensures UnanchoredBelow(s, b, a, x) <==> UnanchoredBelow(s, p, a, x)
      {
        UnanchoredStep(s, b, p, a, x);
      }
    }
  }

  lemma UnanchoredStep(s: State, b: SideHash, p: SideHash, a: MainHash, x: SideHash)
    requires Inv(s) && b in s.side.links && x in s.side.links && Prev(s.side.links, b) == Some(p)
    requires s.side.links[b].data.Some? && !BuiltBefore(s, b, a)
    ensures UnanchoredBelow(s, b, a, x) <==> UnanchoredBelow(s, p, a, x)
  {
    AncestryStep(s, b);
  }

  /** The walk goes wrong for the tip that is behind in work, or for either if they are level. */
  ghost predicate WalkFails(s: State, t0: Tip, t1: Tip)
    requires Inv(s) && SingleGenesis(s.main.links) && TipKnown(s, t0) && TipKnown(s, t1)
  {
    CommonExists(s.main, t0.main, t1.main);
    var a := LastCommon(s.main.links, t0.main, t1.main);
    var w0, w1 := s.totalWork[t0.main], s.totalWork[t1.main];
    (w0 <= w1 && MeetsUnanchored(s, t0.block, a)) || (w0 >= w1 && MeetsUnanchored(s, t1.block, a))
  }

  /**
   Between known tips the choice fails exactly when it is contested and a walk meets a block
   with no main parent; it is left open exactly for the same tip, or with both at height 0;
   otherwise one of the two is chosen.
   */
  lemma DecidedUnlessSame(s: State, t0: Tip, t1: Tip)
    requires Inv(s) && SingleGenesis(s.main.links) && TipKnown(s, t0) && TipKnown(s, t1)
    ensures Better(s, t0, t1).Err? <==> Contested(s, t0, t1) && WalkFails(s, t0, t1)
    ensures Better(s, t0, t1) == Ok(None) <==>
            t0 == t1 || (s.side.heights[t0.block] == 0 && s.side.heights[t1.block] == 0)
    ensures Better(s, t0, t1).Ok? && Better(s, t0, t1).value.Some? ==>
              Better(s, t0, t1).value.value in {t0, t1}
  {
    CommonExists(s.main, t0.main, t1.main);
    var a := LastCommon(s.main.links, t0.main, t1.main);
    CommonKnown(s.main, a, t0.main, t1.main);
    ContestOutcome(s, t0, t1, a);
  }

  lemma ContestOutcome(s: State, t0: Tip, t1: Tip, a: MainHash)
    requires Inv(s) && TipKnown(s, t0) && TipKnown(s, t1) && a in s.main.links
    ensures var w0, w1 := s.totalWork[t0.main], s.totalWork[t1.main];
            Contest(s, t0, t1, a).Err? <==>
              && (w0 == w1 ==> t0.block != t1.block)
              && ((w0 <= w1 && MeetsUnanchored(s, t0.block, a)) || (w0 >= w1 && MeetsUnanchored(s, t1.block, a)))
    ensures Contest(s, t0, t1, a).Ok? ==> Contest(s, t0, t1, a).value in {Some(t0), Some(t1)}
  {
    BeforeForkFailsIff(s, t0.block, a);
    BeforeForkFailsIff(s, t1.block, a);
  }

  /** If every header names a main parent, the choice between known tips never fails. */
  lemma AnchoredNeverFails(s: State, t0: Tip, t1: Tip)
    requires Inv(s) && SingleGenesis(s.main.links) && TipKnown(s, t0) && TipKnown(s, t1)
    requires forall b | b in s.side.links :: s.side.links[b].data.Some?
    ensures Better(s, t0, t1).Ok?
  {
    DecidedUnlessSame(s, t0, t1);
  }

  // ----- The source's procedure

  /** Walks down from `b` to the first block built strictly before `a`. */
  method FindBeforeFork(s: State, b: SideHash, a: MainHash) returns (r: Result<Option<SideHash>, ArchiveError>)
    requires Inv(s) && b in s.side.links && a in s.main.links
    ensures r == BeforeFork(s, b, a)
  {
    var block := b;
    while true
      invariant block in s.side.links && BeforeFork(s, b, a) == BeforeFork(s, block, a)
      decreases s.side.heights[block]
    {
      var prevMain := s.side.links[block].data;
      if prevMain.None? {
        return Err(NoHeight);
      }
      var descends := IsDescendant(s.main, prevMain.value, a);
      if descends.value && prevMain.value != a {
        return Ok(Some(block));
      }
      var prev := Prev(s.side.links, block);
      if prev.None? {
        return Ok(None);
      }
      block := prev.value;
    }
  }

  method RankAtFork(s: State, b: SideHash, a: MainHash) returns (r: Result<Option<(nat, nat)>, ArchiveError>)
    requires Inv(s) && b in s.side.links && a in s.main.links
    ensures r == ForkRank(s, b, a)
  {
    var found := FindBeforeFork(s, b, a);
    if found.Err? {
      return Err(found.error);
    }
    if found.value.None? {
      return Ok(None);
    }
    BeforeForkStored(s, b, a);
    var x := found.value.value;
    var m := s.side.links[x].data.value;
    ghost var step := MainStep(s.main, m, a);
    // The fork height is at most the ancestor's: the subtraction cannot underflow.
    var depth: nat := s.main.heights[a] - (s.main.heights[m] + 1);
    var mainBlock := NthAncestor(s.main, a, depth);
    return Ok(Some((s.side.heights[x], s.totalWork[mainBlock.value])));
  }

  method BetterTip(s: State, t0: Tip, t1: Tip) returns (r: Result<Option<Tip>, ArchiveError>)
    requires Inv(s) && SingleGenesis(s.main.links)
    ensures r == Better(s, t0, t1)
  {
    if t0 == t1 {
      return Ok(None);
    }
    if t0.block !in s.side.heights || t1.block !in s.side.heights {
      return Err(NoHeight);
    }
    var h0, h1 := s.side.heights[t0.block], s.side.heights[t1.block];
    if h0 == 0 || h1 == 0 {
      return Ok(if h0 == 0 && h1 == 0 then None else if h0 == 0 then Some(t1) else Some(t0));
    }
    if t0.main !in s.totalWork || t1.main !in s.totalWork {
      return Err(NoMainHeaderInfo);
    }
    var w0, w1 := s.totalWork[t0.main], s.totalWork[t1.main];
    if w0 <= w1 && h0 < h1 {
      return Ok(Some(t1));
    }
    if w0 >= w1 && h0 > h1 {
      return Ok(Some(t0));
    }
    if w0 != w1 && h0 == h1 {
      var shared := SharedLineage(s.main, t0.main, t1.main);
      return Ok(Some(if shared.value == (w0 < w1) then t0 else t1));
    }
    if w0 == w1 && t0.block == t1.block {
      return Ok(Some(t0));
    }
    var common := LastCommonMainAncestor(s.main, t0.main, t1.main);
    GenesisShared(s.main, t0.main, t1.main);
    LastCommonSymmetric(s.main, t0.main, t1.main);
    var a := common.value;
    LastCommonUnique(s.main.links, s.main.heights, a, LastCommon(s.main.links, t1.main, t0.main), t0.main, t1.main);
    if w0 < w1 {
      var r0 := RankAtFork(s, t0.block, a);
      if r0.Err? {
        return Err(r0.error);
      }
      return Ok(Some(if r0.value.Some? && r0.value.value.0 >= h1 then t0 else t1));
    }
    if w0 > w1 {
      var r1 := RankAtFork(s, t1.block, a);
      if r1.Err? {
        return Err(r1.error);
      }
      return Ok(Some(if r1.value.None? || r1.value.value.0 < h0 then t0 else t1));
    }
    var r0 := RankAtFork(s, t0.block, a);
    if r0.Err? {
      return Err(r0.error);
    }
    var r1 := RankAtFork(s, t1.block, a);
    if r1.Err? {
      return Err(r1.error);
    }
    return Ok(Some(if Preferred(r0.value, r1.value) then t0 else t1));
  }

  /** The comparison of optional heights and works at the fork. */
  predicate Preferred(r0: Option<(nat, nat)>, r1: Option<(nat, nat)>)
    ensures Preferred(r0, r1) == FirstWins(r0, r1)
  {
    match (r0, r1)
    case (None, Some(_)) => false
    case (_, None) => true
    case (Some(x), Some(y)) => if x.0 == y.0 then x.1 <= y.1 else x.0 > y.0
  }
}

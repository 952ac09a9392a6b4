/**
 Who wins a fork choice, case by case, in terms of heights, total work and ancestry alone: a
 winner for every pair of known tips, in either order of the arguments.
 */
module ForkOutcome {
  import opened Common
  import opened ChainIndex
  import opened Bmm
  import opened ArchiveState
  import opened ForkChoice

  /** `t` wins against `u`, whichever comes first. */
  ghost predicate Beats(s: State, t: Tip, u: Tip)
    requires Inv(s) && SingleGenesis(s.main.links)
  {
    Better(s, t, u) == Ok(Some(t)) && Better(s, u, t) == Ok(Some(t))
  }

  /** Of two tied tips the first wins. */
  ghost predicate Even(s: State, t: Tip, u: Tip)
    requires Inv(s) && SingleGenesis(s.main.links)
  {
    Better(s, t, u) == Ok(Some(t)) && Better(s, u, t) == Ok(Some(u))
  }

  ghost predicate Known(s: State, t: Tip, u: Tip) {
    Inv(s) && SingleGenesis(s.main.links) && TipKnown(s, t) && TipKnown(s, u)
  }

  ghost function Height(s: State, t: Tip): nat
    requires Inv(s) && TipKnown(s, t)
  {
    s.side.heights[t.block]
  }

  ghost function Work(s: State, t: Tip): nat
    requires Inv(s) && TipKnown(s, t)
  {
    s.totalWork[t.main]
  }

  /** A tip above height 0 beats one at height 0. */
  lemma AboveTheRootWins(s: State, t: Tip, u: Tip)
    requires Known(s, t, u) && Height(s, t) > 0 && Height(s, u) == 0
    ensures Beats(s, t, u)
  {
  }

  /** A tip whose block is unknown is an error; so is an unknown main block, once both blocks have a height. */
  lemma UnknownTipFails(s: State, t: Tip, u: Tip)
    requires Inv(s) && SingleGenesis(s.main.links) && t != u
    ensures t.block !in s.side.links || u.block !in s.side.links ==> Better(s, t, u) == Err(NoHeight)
    ensures t.block in s.side.links && u.block in s.side.links && s.side.heights[t.block] > 0 &&
            s.side.heights[u.block] > 0 && (t.main !in s.main.links || u.main !in s.main.links) ==>
              Better(s, t, u) == Err(NoMainHeaderInfo)
  {
  }

  /** A higher tip whose work is no smaller wins. */
  lemma HigherAndNoLighterWins(s: State, t: Tip, u: Tip)
    requires Known(s, t, u) && Height(s, t) > Height(s, u) && Work(s, t) >= Work(s, u)
    ensures Beats(s, t, u)
  {
  }

  /** At equal height the lighter tip wins within one main lineage, the heavier one across. */
  lemma EqualHeightWins(s: State, t: Tip, u: Tip)
    requires Known(s, t, u) && Height(s, t) == Height(s, u) > 0 && Work(s, t) < Work(s, u)
    ensures IsAnc(s.main.links, t.main, u.main) || IsAnc(s.main.links, u.main, t.main) ==> Beats(s, t, u)
    ensures !IsAnc(s.main.links, t.main, u.main) && !IsAnc(s.main.links, u.main, t.main) ==> Beats(s, u, t)
  {
  }

  /** Two commitments to the same block by equally heavy main blocks. */
  lemma SameBlockEven(s: State, t: Tip, u: Tip)
    requires Known(s, t, u) && t != u && t.block == u.block && Height(s, t) > 0 && Work(s, t) == Work(s, u)
    ensures Even(s, t, u)
  {
  }

  /** Some ancestor of `t`, built before main block `a`, is at least as high as the rival. */
  ghost predicate WasAhead(s: State, b: SideHash, a: MainHash, height: nat)
    requires Inv(s)
  {
    exists y :: y in s.side.links && IsAnc(s.side.links, y, b) && BuiltBefore(s, y, a) && s.side.heights[y] >= height
  }

  /**
   Of a lighter and higher tip and a heavier and lower one, the lighter wins exactly when it had
   reached the height of the other before the main chains parted.
   */
  lemma LighterWinsIfAhead(s: State, t: Tip, u: Tip, a: MainHash)
    requires Known(s, t, u) && Work(s, t) < Work(s, u) && Height(s, t) > Height(s, u) > 0
    requires IsLastCommon(s.main.links, a, t.main, u.main) && !MeetsUnanchored(s, t.block, a)
    ensures WasAhead(s, t.block, a, Height(s, u)) ==> Beats(s, t, u)
    ensures !WasAhead(s, t.block, a, Height(s, u)) ==> Beats(s, u, t)
  {
    TheLastCommon(s, t, u, a);
    CommonKnown(s.main, a, t.main, u.main);
    BeforeForkFailsIff(s, t.block, a);
    AheadIff(s, t.block, a, Height(s, u));
  }

  lemma TheLastCommon(s: State, t: Tip, u: Tip, a: MainHash)
    requires Known(s, t, u) && IsLastCommon(s.main.links, a, t.main, u.main)
    ensures exists x :: IsLastCommon(s.main.links, x, t.main, u.main)
    ensures exists x :: IsLastCommon(s.main.links, x, u.main, t.main)
    ensures LastCommon(s.main.links, t.main, u.main) == a == LastCommon(s.main.links, u.main, t.main)
  {
    LastCommonSymmetric(s.main, t.main, u.main);
    var x := LastCommon(s.main.links, u.main, t.main);
    LastCommonUnique(s.main.links, s.main.heights, a, x, t.main, u.main);
  }

  lemma AheadIff(s: State, b: SideHash, a: MainHash, height: nat)
    requires Inv(s) && b in s.side.links && a in s.main.links && BeforeFork(s, b, a).Ok?
    ensures ForkRank(s, b, a).Ok?
    ensures AtLeast(ForkRank(s, b, a).value, height) <==> WasAhead(s, b, a, height)
  {
    BeforeForkIsHighest(s, b, a);
  }

  /** `x` is the highest ancestor of `b` built before main block `a`. */
  ghost predicate HighestBefore(s: State, b: SideHash, a: MainHash, x: SideHash)
    requires Inv(s)
  {
    && x in s.side.links && IsAnc(s.side.links, x, b) && BuiltBefore(s, x, a)
    && forall y | y in s.side.links && IsAnc(s.side.links, y, b) && BuiltBefore(s, y, a) ::
         s.side.heights[y] <= s.side.heights[x]
  }

  ghost predicate NoneBefore(s: State, b: SideHash, a: MainHash)
    requires Inv(s)
  {
    forall y | y in s.side.links && IsAnc(s.side.links, y, b) :: !BuiltBefore(s, y, a)
  }

  /** `r` is the main block after the one `x` was built on, on the way to `a`. */
  ghost predicate MainAfter(s: State, x: SideHash, a: MainHash, r: MainHash)
    requires Inv(s)
  {
    && x in s.side.links && r in s.main.links
    && Prev(s.main.links, r).Some? && Prev(s.main.links, r) == s.side.links[x].data && IsAnc(s.main.links, r, a)
  }

  /** Equal height and work, different blocks, and no walk fails. */
  ghost predicate Level(s: State, t: Tip, u: Tip, a: MainHash) {
    && Known(s, t, u) && t.block != u.block
    && Height(s, t) == Height(s, u) > 0 && Work(s, t) == Work(s, u)
    && IsLastCommon(s.main.links, a, t.main, u.main)
    && !MeetsUnanchored(s, t.block, a) && !MeetsUnanchored(s, u.block, a)
  }

  /** If only one of two level tips had begun before the main chains parted, it wins. */
  lemma LevelOneBegun(s: State, t: Tip, u: Tip, a: MainHash, x: SideHash)
    requires Level(s, t, u, a) && HighestBefore(s, t.block, a, x) && NoneBefore(s, u.block, a)
    ensures Beats(s, t, u)
  {
    LevelContest(s, t, u, a);
    RankOf(s, t.block, a);
    RankOf(s, u.block, a);
  }

  lemma LevelNoneBegun(s: State, t: Tip, u: Tip, a: MainHash)
    requires Level(s, t, u, a) && NoneBefore(s, t.block, a) && NoneBefore(s, u.block, a)
    ensures Even(s, t, u)
  {
    LevelContest(s, t, u, a);
    RankOf(s, t.block, a);
    RankOf(s, u.block, a);
  }

  /**
   Otherwise the one that was higher before the parting wins; at the same height the one whose
   next main block has the smaller total work; and if these are equal too, the first.
   */
  lemma LevelBothBegun(s: State, t: Tip, u: Tip, a: MainHash, x: SideHash, y: SideHash, r: MainHash, q: MainHash)
    requires Level(s, t, u, a) && HighestBefore(s, t.block, a, x) && HighestBefore(s, u.block, a, y)
    requires MainAfter(s, x, a, r) && MainAfter(s, y, a, q)
    ensures s.side.heights[x] > s.side.heights[y] ==> Beats(s, t, u)
    ensures s.side.heights[x] == s.side.heights[y] && s.totalWork[r] < s.totalWork[q] ==> Beats(s, t, u)
    ensures s.side.heights[x] == s.side.heights[y] && s.totalWork[r] == s.totalWork[q] ==> Even(s, t, u)
  {
    LevelContest(s, t, u, a);
    RankOf(s, t.block, a);
    RankOf(s, u.block, a);
    RankIs(s, t.block, a, x, r);
    RankIs(s, u.block, a, y, q);
  }

  /** Between level tips the ranks at the fork decide. */
  lemma LevelContest(s: State, t: Tip, u: Tip, a: MainHash)
    requires Level(s, t, u, a)
    ensures a in s.main.links
    ensures BeforeFork(s, t.block, a).Ok? && BeforeFork(s, u.block, a).Ok?
    ensures ForkRank(s, t.block, a).Ok? && ForkRank(s, u.block, a).Ok?
    ensures var p, q := ForkRank(s, t.block, a).value, ForkRank(s, u.block, a).value;
            && Better(s, t, u) == Ok(Some(if FirstWins(p, q) then t else u))
            && Better(s, u, t) == Ok(Some(if FirstWins(q, p) then u else t))
  {
    TheLastCommon(s, t, u, a);
    CommonKnown(s.main, a, t.main, u.main);
    BeforeForkFailsIff(s, t.block, a);
    BeforeForkFailsIff(s, u.block, a);
  }

  lemma RankOf(s: State, b: SideHash, a: MainHash)
    requires Inv(s) && b in s.side.links && a in s.main.links && BeforeFork(s, b, a).Ok?
    ensures ForkRank(s, b, a).Ok?
    ensures NoneBefore(s, b, a) <==> ForkRank(s, b, a).value.None?
  {
    BeforeForkIsHighest(s, b, a);
  }

  lemma RankIs(s: State, b: SideHash, a: MainHash, x: SideHash, r: MainHash)
    requires Inv(s) && b in s.side.links && a in s.main.links && BeforeFork(s, b, a).Ok?
    requires HighestBefore(s, b, a, x) && MainAfter(s, x, a, r)
    ensures ForkRank(s, b, a) == Ok(Some((s.side.heights[x], s.totalWork[r])))
  {
    BeforeForkIsHighest(s, b, a);
    var z := BeforeFork(s, b, a).value.value;
    SameHeightSame(s, x, z, b);
    StepUnique(s, s.side.links[x].data.value, a, r);
  }

  lemma SameHeightSame(s: State, x: SideHash, z: SideHash, b: SideHash)
    requires Inv(s) && IsAnc(s.side.links, x, b) && IsAnc(s.side.links, z, b)
    requires x in s.side.links && z in s.side.links && s.side.heights[x] == s.side.heights[z]
    ensures x == z
  {
    AncLinear(s.side.links, s.side.heights, x, z, b);
    IsAncHeight(s.side.links, s.side.heights, x, z);
  }

  /** There is one child of `m` on the way to `a`. */
  lemma StepUnique(s: State, m: MainHash, a: MainHash, r: MainHash)
    requires Inv(s) && a in s.main.links && m != a && IsAnc(s.main.links, m, a)
    requires r in s.main.links && Prev(s.main.links, r) == Some(m) && IsAnc(s.main.links, r, a)
    ensures MainStep(s.main, m, a) == r
  {
    var z := MainStep(s.main, m, a);
    assert s.main.heights[z] == s.main.heights[m] + 1 == s.main.heights[r];
    AncLinear(s.main.links, s.main.heights, r, z, a);
    IsAncHeight(s.main.links, s.main.heights, r, z);
  }
}

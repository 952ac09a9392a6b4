/**
 The archive as an object. Each method updates the tables as the source does and is proved
 to take the stored facts one `Step`, keeping every derived table exact; `Replay` puts the
 methods together into the statement about arbitrary runs.
 */
module Archive {
  import opened Common
  import opened ChainIndex
  import opened Bmm
  import opened Inclusions
  import opened ArchiveState
  import opened ArchiveHistory

  /** A verified commitment in `results` lies in the ancestry of `m`. */
  method SearchVerified(main: MainChain, results: Results, m: MainHash) returns (found: bool)
    requires Valid(main) && m in main.links && results.Keys <= main.links.Keys
    ensures found <==> AnyVerified(main, results, m)
  {
    var todo := results.Keys;
    while todo != {}
      invariant todo <= results.Keys
      invariant forall x | x in results.Keys - todo :: !(results[x] == Verified && IsAnc(main.links, x, m))
      decreases todo
    {
      var x :| x in todo;
      if results[x] == Verified {
        var descends := IsDescendant(main, x, m);
        if descends.value {
          return true;
        }
      }
      todo := todo - {x};
    }
    return false;
  }

  /** Whether the commitment `c` of main block `m` validates side block `b`. */
  method CheckCommitment(s: State, b: SideHash, link: SideLink, m: MainHash, c: Option<SideHash>)
    returns (verified: bool)
    requires Valid(s.main) && BmmStored(s) && m in s.main.links
    ensures verified <==> Checks(s, b, link, m, c)
  {
    if c != Some(b) || Prev(s.main.links, m) != link.data {
      return false;
    }
    if link.prev.None? {
      return true;
    }
    var parentResults := ResultsOf(s.bmm, link.prev.value);
    assert link.prev.value in s.bmm ==> s.bmm[link.prev.value].Keys <= s.main.links.Keys;
    verified := SearchVerified(s.main, parentResults, m);
  }

  /** The outcome for a new header at every main block that follows its main parent. */
  method RecordOutcomes(s: State, b: SideHash, link: SideLink) returns (r: Result<Results, ArchiveError>)
    requires Valid(s.main) && BmmStored(s)
    requires link.data.Some? ==> link.data.value in s.main.links
    ensures r.Ok? <==> Children(s.main.links, link.data) <= s.infos.Keys
    ensures r.Ok? ==> Recorded(s, b, link, Children(s.main.links, link.data), ResultsOf(s.bmm, b), r.value)
    ensures r.Err? ==> r.error == NoMainBlockInfo
  {
    ghost var children := Children(s.main.links, link.data);
    var was := ResultsOf(s.bmm, b);
    var results, todo := was, s.main.succs[link.data];
    ghost var on: set<MainHash> := {};
    while todo != {}
      invariant todo + on == children && todo !! on
      invariant on <= s.infos.Keys
      invariant Recorded(s, b, link, on, was, results)
      decreases todo
    {
      var m :| m in todo;
      assert m in children;
      if m !in s.infos {
        return Err(NoMainBlockInfo);
      }
      var verified := CheckCommitment(s, b, link, m, s.infos[m]);
      RecordStep(s, b, link, on, was, results, m, if verified then Verified else Failed);
      results := results[m := if verified then Verified else Failed];
      todo, on := todo - {m}, on + {m};
    }
    assert on == children;
    return Ok(results);
  }

  lemma RecordStep(s: State, b: SideHash, link: SideLink, on: set<MainHash>,
                   was: Results, results: Results, m: MainHash, r: BmmResult)
    requires Recorded(s, b, link, on, was, results) && m in s.infos
    requires r == if Checks(s, b, link, m, s.infos[m]) then Verified else Failed
    ensures Recorded(s, b, link, on + {m}, was, results[m := r])
  {
  }

  class Archive {
    var side: SideChain
    var main: MainChain
    var totalWork: map<MainHash, nat>
    var infos: Infos
    var bmm: map<SideHash, Results>
    var bodies: map<SideHash, Body>
    var inclusions: InclusionIndex
    var invalid: set<SideHash>

    function St(): State
      reads this
    {
      State(side, main, totalWork, infos, bmm, bodies, inclusions, invalid)
    }

    ghost function Stored(): Facts
      reads this
    {
      St().Stored()
    }

    constructor ()
      ensures Inv(St())
      ensures Stored() == Facts(map[], map[], map[], map[], {})
    {
      side := Chain(map[], map[], map[], map[None := {}]);
      main := Chain(map[], map[], map[], map[None := {}]);
      totalWork, infos, bmm, bodies, inclusions, invalid := map[], map[], map[], map[], map[], {};
    }

    method PutMainHeaderInfo(m: MainHash, link: MainLink) returns (r: Result<(), ArchiveError>)
      requires Inv(St()) && Allowed(Stored(), Op.PutMainHeaderInfo(m, link))
      modifies this
      ensures Inv(St())
      ensures Stored() == Step(old(Stored()), Op.PutMainHeaderInfo(m, link))
      ensures St() == old(St()).(main := main, totalWork := totalWork)
      ensures r == if link.prev.Some? && link.prev.value !in old(main.links) then Err(NoMainHeaderInfo) else Ok(())
      ensures r.Ok? ==> main.links == old(main.links)[m := link]
      ensures r.Err? ==> St() == old(St())
    {
      var inserted := Insert(main, m, link);
      if inserted.None? {
        return Err(NoMainHeaderInfo);
      }
      ghost var s := St();
      var work := link.data.work + if link.prev.Some? then totalWork[link.prev.value] else 0;
      main, totalWork := inserted.value, totalWork[m := work];
      MainHeaderKeepsInv(s, St(), m, link);
      return Ok(());
    }

    method PutMainBlockInfo(m: MainHash, commitment: Option<SideHash>) returns (r: Result<(), ArchiveError>)
      requires Inv(St()) && Allowed(Stored(), Op.PutMainBlockInfo(m, commitment))
      modifies this
      ensures Inv(St())
      ensures Stored() == Step(old(Stored()), Op.PutMainBlockInfo(m, commitment))
      ensures r.Ok? <==>
              m in main.links && (Prev(main.links, m).Some? ==> Prev(main.links, m).value in old(infos))
      ensures if r.Ok? then InfoStored(old(St()), St(), m, commitment) else St() == old(St())
    {
      if m !in main.links {
        return Err(NoMainHeaderInfo);
      }
      var prev := Prev(main.links, m);
      if prev.Some? && prev.value !in infos {
        return Err(NoMainBlockInfo);
      }
      ghost var s := St();
      if commitment.Some? && commitment.value in side.links {
        var b := commitment.value;
        var verified := CheckCommitment(St(), b, side.links[b], m, commitment);
        bmm := bmm[b := ResultsOf(bmm, b)[m := if verified then Verified else Failed]];
      }
      infos := infos[m := commitment];
      MainInfoKeepsInv(s, St(), m, commitment);
      return Ok(());
    }

    method PutHeader(b: SideHash, link: SideLink) returns (r: Result<(), ArchiveError>)
      requires Inv(St()) && Allowed(Stored(), Op.PutHeader(b, link))
      modifies this
      ensures Inv(St())
      ensures Stored() == Step(old(Stored()), Op.PutHeader(b, link))
      ensures r.Ok? <==>
              && (link.prev.Some? ==> link.prev.value in old(side.links))
              && (link.data.Some? ==> link.data.value in main.links)
              && forall m | m in main.links && Prev(main.links, m) == link.data :: m in infos
      ensures if r.Ok? then HeaderStored(old(St()), St(), b, link) else St() == old(St())
    {
      var inserted := Insert(side, b, link);
      if inserted.None? {
        return Err(InvalidPrevSideHash);
      }
      if link.data !in main.succs {
        return Err(NoMainBlockHash);
      }
      var outcomes := RecordOutcomes(St(), b, link);
      if outcomes.Err? {
        return Err(outcomes.error);
      }
      ghost var s := St();
      side, bmm := inserted.value, bmm[b := outcomes.value];
      HeaderKeepsInv(s, St(), b, link);
      return Ok(());
    }

    method PutBody(b: SideHash, body: Body) returns (r: Result<(), ArchiveError>)
      requires Inv(St()) && Allowed(Stored(), Op.PutBody(b, body))
      modifies this
      ensures Inv(St())
      ensures Stored() == Step(old(Stored()), Op.PutBody(b, body))
      ensures St() == old(St()).(bodies := bodies, inclusions := inclusions)
      ensures r == if b in side.links then Ok(()) else Err(NoHeader)
      ensures r.Ok? ==> bodies == old(bodies)[b := body]
      ensures r.Err? ==> St() == old(St())
    {
      if b !in side.links {
        return Err(NoHeader);
      }
      var index := IndexBody(inclusions, b, body);
      PutBodyExactIff(bodies, inclusions, b, body, index);
      ghost var s := St();
      bodies, inclusions := bodies[b := body], index;
      assert s.AsView() == St().AsView();
      return Ok(());
    }

    method DeleteBody(b: SideHash, body: Body)
      requires Inv(St()) && Allowed(Stored(), Op.DeleteBody(b, body))
      modifies this
      ensures Inv(St())
      ensures Stored() == Step(old(Stored()), Op.DeleteBody(b, body))
      ensures bodies == old(bodies) - {b}
      ensures St() == old(St()).(bodies := bodies, inclusions := inclusions)
    {
      var index := UnindexBody(inclusions, b, body);
      DeleteBodyExactIff(bodies, inclusions, b, body, index);
      ghost var s := St();
      bodies, inclusions := bodies - {b}, index;
      assert s.AsView() == St().AsView();
    }

    /** Deletes every entry of one block, marks it invalid, and reports its successors. */
    method Strike(x: SideHash) returns (children: set<SideHash>)
      requires InclusionsExact(bodies, inclusions)
      modifies this`side, this`bodies, this`inclusions, this`invalid
      ensures side == RemoveOne(old(side), x) && bodies == old(bodies) - {x} && invalid == old(invalid) + {x}
      ensures InclusionsExact(bodies, inclusions)
      ensures children == if Some(x) in old(side.succs) then old(side.succs)[Some(x)] else {}
    {
      bodies, inclusions := DropBody(bodies, inclusions, x);
      children := if Some(x) in side.succs then side.succs[Some(x)] else {};
      side, invalid := RemoveOne(side, x), invalid + {x};
    }

    /**
     Strikes a block and its descendants. The source keeps a stack filled in hash-set order;
     taking any pending block covers every such order.
     */
    method StrikeAll(b: SideHash)
      requires Valid(side) && InclusionsExact(bodies, inclusions)
      modifies this`side, this`bodies, this`inclusions, this`invalid
      ensures var gone := Descendants(old(side.links), b) + {b};
              && side == Without(old(side), gone)
              && bodies == old(bodies) - gone
              && invalid == old(invalid) + gone
      ensures InclusionsExact(bodies, inclusions)
    {
      ghost var c, bs := side, bodies;
      ghost var gone: set<SideHash> := {};
      StrikeStart(c, bs, b);
      var pending := {b};
      while pending != {}
        invariant side == Without(c, gone) && bodies == bs - gone && invalid == old(invalid) + gone
        invariant InclusionsExact(bodies, inclusions)
        invariant Striking(c.links, b, gone, pending)
        decreases Descendants(c.links, b) + {b} - gone
      {
        var x :| x in pending;
        ghost var cs := Children(c.links, Some(x));
        StrikeStep(c, b, gone, pending, x, cs);
        StrikeTables(c, bs, gone, x, cs);
        var children := Strike(x);
        pending, gone := pending - {x} + children, gone + {x};
      }
      StrikeDone(c.links, b, gone);
    }

    /** Strikes exactly `b` and its descendants, and marks exactly these as newly invalid. */
    method InvalidateBlock(b: SideHash)
      requires Inv(St())
      modifies this
      ensures Inv(St())
      ensures forall x :: x in side.links <==>
                x in old(side.links) && x != b && !IsAnc(old(side.links), b, x)
      ensures forall x | x in side.links :: side.links[x] == old(side.links)[x]
      ensures forall x :: x in bodies <==> x in old(bodies) && x != b && !IsAnc(old(side.links), b, x)
      ensures forall x | x in bodies :: bodies[x] == old(bodies)[x]
      ensures forall x :: x in invalid <==>
                x in old(invalid) || x == b || (x in old(side.links) && IsAnc(old(side.links), b, x))
      ensures Stored() == Step(old(Stored()), Op.Invalidate(b))
      ensures St() == old(St()).(side := side, bodies := bodies, inclusions := inclusions, invalid := invalid)
    {
      ghost var s := St();
      StrikeAll(b);
      InvalidateKeepsInv(s, St(), b);
    }

    /** Performs one operation, and says whether it was accepted. */
    method Apply(op: Op) returns (ok: bool)
      requires Inv(St()) && Allowed(Stored(), op)
      modifies this
      ensures Inv(St()) && Stored() == Step(old(Stored()), op) && (ok <==> old(Accepts(Stored(), op)))
    {
      match op
      case PutMainHeaderInfo(m, link) =>
        var r := PutMainHeaderInfo(m, link);
        return r.Ok?;
      case PutMainBlockInfo(m, c) =>
        var r := PutMainBlockInfo(m, c);
        return r.Ok?;
      case PutHeader(b, link) =>
        var r := PutHeader(b, link);
        return r.Ok?;
      case PutBody(b, body) =>
        var r := PutBody(b, body);
        return r.Ok?;
      case DeleteBody(b, body) =>
        DeleteBody(b, body);
        return true;
      case Invalidate(b) =>
        InvalidateBlock(b);
        return true;
    }
  }

  lemma StrikeStart(c: SideChain, bodies: map<SideHash, Body>, b: SideHash)
    ensures Without(c, {}) == c && bodies - {} == bodies
    ensures Striking(c.links, b, {}, {b})
  {
    WithoutNothing(c);
  }

  /** Half way through a removal: every child of a struck block is struck or pending. */
  ghost predicate Striking(links: Links<SideHash, Option<MainHash>>, b: SideHash,
                           gone: set<SideHash>, pending: set<SideHash>)
  {
    && pending !! gone
    && b in gone + pending
    && gone + pending <= Descendants(links, b) + {b}
    && ChildrenSeen(links, gone, pending)
    && forall y | y in gone + pending ::
         y == b || (y in links && Prev(links, y).Some? && Prev(links, y).value in gone)
  }

  ghost predicate ChildrenSeen(links: Links<SideHash, Option<MainHash>>, gone: set<SideHash>, pending: set<SideHash>) {
    forall y {:trigger Prev(links, y)} | y in links ::
      Prev(links, y).Some? && Prev(links, y).value in gone ==> y in gone + pending
  }

  /** The children of a pending block are entirely new. */
  lemma ChildrenNew(c: SideChain, b: SideHash, gone: set<SideHash>, pending: set<SideHash>, x: SideHash, y: SideHash)
    requires Ranked(c.links, c.heights) && Striking(c.links, b, gone, pending) && x in pending
    requires y in Children(c.links, Some(x))
    ensures y != b && y != x && y in Descendants(c.links, b) && y !in gone && y !in pending
  {
    assert Prev(c.links, y) == Some(x);
    DescendantsClosed(c.links, b);
    if x in Descendants(c.links, b) {
      IsAncHeight(c.links, c.heights, b, x);
    }
  }

  /** While `x` is not struck, its successor set is still complete. */
  lemma StrikeTables(c: SideChain, bodies: map<SideHash, Body>, gone: set<SideHash>, x: SideHash, cs: set<SideHash>)
    requires SuccsExact(c.links, c.succs) && Closed(c.links) && x !in gone
    requires cs == Children(c.links, Some(x)) && cs !! gone
    ensures var succs := Without(c, gone).succs;
            (if Some(x) in succs then succs[Some(x)] else {}) == cs
    ensures RemoveOne(Without(c, gone), x) == Without(c, gone + {x})
    ensures bodies - gone - {x} == bodies - (gone + {x})
  {
    if x in c.links {
      assert c.succs[Some(x)] == cs;
    }
    RemoveOneWithout(c, gone, x);
  }

  lemma StrikeStep(c: SideChain, b: SideHash, gone: set<SideHash>, pending: set<SideHash>,
                   x: SideHash, cs: set<SideHash>)
    requires Ranked(c.links, c.heights) && Striking(c.links, b, gone, pending) && x in pending
    requires cs == Children(c.links, Some(x))
    ensures cs !! gone && Striking(c.links, b, gone + {x}, pending - {x} + cs)
  {
    forall y | y in cs
      ensures y != b && y != x && y in Descendants(c.links, b) && y !in gone && y !in pending
    {
      ChildrenNew(c, b, gone, pending, x, y);
    }
  }

  lemma StrikeDone(links: Links<SideHash, Option<MainHash>>, b: SideHash, gone: set<SideHash>)
    requires Striking(links, b, gone, {})
    ensures gone == Descendants(links, b) + {b}
  {
    assert ChildClosed(links, gone);
    forall d | d in Descendants(links, b)
      ensures d in gone
    {
      var n: nat :| Anc(links, d, n) == Some(b);
      ClosedHolds(links, gone, b, d, n);
    }
  }

  /**
   Any interleaving of the operations, from an empty archive: every table is exact, and the
   facts are what the history of accepted operations says.
   */
  method Replay(ops: seq<Op>) returns (a: Archive, log: Log, ghost known: SideLinks)
    requires AllowedRun(Facts(map[], map[], map[], map[], {}), ops)
    ensures fresh(a) && Inv(a.St())
    ensures a.Stored() == Run(Facts(map[], map[], map[], map[], {}), ops)
    ensures Outcomes(ops, log, known) && History(log, known, a.Stored())
  {
    a := new Archive();
    log, known := [], map[];
    ghost var empty := a.Stored();
    HistoryStart();
    for i := 0 to |ops|
      invariant fresh(a) && Inv(a.St())
      invariant a.Stored() == Run(empty, ops[..i])
      invariant Told(ops[..i], log, known, a.Stored())
    {
      log, known := ReplayNth(a, ops, i, log, known, empty);
    }
    assert ops[..|ops|] == ops;
  }

  /** The i-th operation of a run. */
  method ReplayNth(a: Archive, ops: seq<Op>, i: nat, log: Log, ghost known: SideLinks, ghost start: Facts)
    returns (log': Log, ghost known': SideLinks)
    requires i < |ops| && AllowedRun(start, ops) && Inv(a.St()) && a.Stored() == Run(start, ops[..i])
    requires Told(ops[..i], log, known, a.Stored())
    modifies a
    ensures Inv(a.St()) && a.Stored() == Run(start, ops[..i + 1])
    ensures Told(ops[..i + 1], log', known', a.Stored())
  {
    RunNext(start, ops, i);
    ghost var f := a.Stored();
    var ok := a.Apply(ops[i]);
    ToldStep(ops[..i], log, known, f, ops[i]);
    known' := KnownAfter(known, Entry(f, ops[i]));
    log' := log + [if ok then Some(ops[i]) else None];
  }

  lemma RunNext(f: Facts, ops: seq<Op>, i: nat)
    requires i < |ops| && AllowedRun(f, ops)
    ensures ops[..i + 1] == ops[..i] + [ops[i]]
    ensures Allowed(Run(f, ops[..i]), ops[i]) && Run(f, ops[..i + 1]) == Step(Run(f, ops[..i]), ops[i])
  {
    AllowedPrefix(f, ops, i + 1);
    assert ops[..i + 1][..i] == ops[..i];
  }

  lemma {:induction false} AllowedPrefix(f: Facts, ops: seq<Op>, n: nat)
    requires AllowedRun(f, ops) && n <= |ops|
    ensures AllowedRun(f, ops[..n])
    decreases |ops|
  {
    if n == |ops| {
      assert ops[..n] == ops;
    } else {
      AllowedPrefix(f, ops[..|ops| - 1], n);
      assert ops[..|ops| - 1][..n] == ops[..n];
    }
  }
}

/**
 The chain archive: the tables of the source as fields, the operations that change them, and
 the invariant that ties every derived table to the stored headers, commitments and bodies.
 */
module ArchiveState {
  import opened Common
  import opened ChainIndex
  import opened Bmm
  import opened Inclusions

  type SideLink = Link<SideHash, Option<MainHash>>

  type MainLink = Link<MainHash, MainData>

  type Results = map<MainHash, BmmResult>

  /** A snapshot of every table. */
  datatype State = State(
    side: SideChain,
    main: MainChain,
    totalWork: map<MainHash, nat>,
    infos: Infos,
    bmm: map<SideHash, Results>,
    bodies: map<SideHash, Body>,
    inclusions: InclusionIndex,
    invalid: set<SideHash>)
  {
    function AsView(): View {
      View(side, main, infos)
    }

    /** What is stored because a caller said so; the other tables are derived. */
    ghost function Stored(): Facts {
      Facts(side.links, main.links, infos, bodies, invalid)
    }
  }

  datatype Facts = Facts(
    side: Links<SideHash, Option<MainHash>>,
    main: Links<MainHash, MainData>,
    infos: Infos,
    bodies: map<SideHash, Body>,
    invalid: set<SideHash>)

  // ----- The invariant

  ghost predicate WorkExact(main: Links<MainHash, MainData>, totalWork: map<MainHash, nat>) {
    && totalWork.Keys == main.Keys
    && forall m {:trigger Prev(main, m)} | m in main ::
         totalWork[m] == main[m].data.work +
           match Prev(main, m) case None => 0 case Some(p) => if p in totalWork then totalWork[p] else 0
  }

  ghost predicate IsVerified(bmm: map<SideHash, Results>, b: SideHash, m: MainHash) {
    b in bmm && m in bmm[b] && bmm[b][m] == Verified
  }

  /** Results are kept for known blocks only, and name known main blocks only. */
  ghost predicate BmmStored(s: State) {
    forall b {:trigger s.bmm[b]} | b in s.bmm ::
      (b in s.side.links || b in s.invalid) && s.bmm[b].Keys <= s.main.links.Keys
  }

  /** The table says Verified exactly where the recursive definition holds. */
  ghost predicate BmmExact(s: State)
    requires Ranked(s.side.links, s.side.heights)
  {
    forall b, m {:trigger IsVerified(s.bmm, b, m)} {:trigger Committed(s.AsView(), b, m)} | b in s.side.links ::
      IsVerified(s.bmm, b, m) <==> Committed(s.AsView(), b, m)
  }

  ghost predicate PrevMainKnown(s: State) {
    forall b | b in s.side.links ::
      s.side.links[b].data.Some? ==> s.side.links[b].data.value in s.main.links
  }

  /** The part of the invariant that speaks of commitments. */
  ghost predicate BmmInv(s: State) {
    ViewValid(s.AsView()) && BmmExact(s)
  }

  ghost predicate Inv(s: State) {
    && Valid(s.side)
    && Valid(s.main)
    && WorkExact(s.main.links, s.totalWork)
    && InfosClosed(s.main, s.infos)
    && PrevMainKnown(s)
    && BmmStored(s)
    && BmmExact(s)
    && s.bodies.Keys <= s.side.links.Keys
    && s.side.links.Keys !! s.invalid
    && InclusionsExact(s.bodies, s.inclusions)
  }

  // ----- The steps, on the stored facts

  datatype Op =
    | PutMainHeaderInfo(m: MainHash, mainLink: MainLink)
    | PutMainBlockInfo(m: MainHash, commitment: Option<SideHash>)
    | PutHeader(b: SideHash, sideLink: SideLink)
    | PutBody(b: SideHash, body: Body)
    | DeleteBody(b: SideHash, body: Body)
    | Invalidate(b: SideHash)

  /**
   What the source asks of its callers: a hash determines its header and its commitment, a
   header is not put for an invalidated block, and a body is replaced or deleted only
   together with all of its transactions.
   */
  ghost predicate Allowed(f: Facts, op: Op) {
    match op
    case PutMainHeaderInfo(m, link) => m in f.main ==> f.main[m] == link
    case PutMainBlockInfo(m, c) => m in f.infos ==> f.infos[m] == c
    case PutHeader(b, link) => b !in f.invalid && (b in f.side ==> f.side[b] == link)
    case PutBody(b, body) => b in f.bodies ==> Covers(body, f.bodies[b])
    case DeleteBody(b, body) => b in f.bodies ==> Covers(body, f.bodies[b])
    case Invalidate(_) => true
  }

  /** The operation is accepted. */
  ghost predicate Accepts(f: Facts, op: Op) {
    match op
    case PutMainHeaderInfo(_, link) => link.prev.Some? ==> link.prev.value in f.main
    case PutMainBlockInfo(m, _) =>
      m in f.main && (Prev(f.main, m).Some? ==> Prev(f.main, m).value in f.infos)
    case PutHeader(_, link) =>
      && (link.prev.Some? ==> link.prev.value in f.side)
      && (link.data.Some? ==> link.data.value in f.main)
      && Children(f.main, link.data) <= f.infos.Keys
    case PutBody(b, _) => b in f.side
    case DeleteBody(_, _) => true
    case Invalidate(_) => true
  }

  /** A rejected operation changes nothing. */
  ghost function Step(f: Facts, op: Op): Facts {
    if !Accepts(f, op) then f else
    match op
    case PutMainHeaderInfo(m, link) => f.(main := f.main[m := link])
    case PutMainBlockInfo(m, c) => f.(infos := f.infos[m := c])
    case PutHeader(b, link) => f.(side := f.side[b := link])
    case PutBody(b, body) => f.(bodies := f.bodies[b := body])
    case DeleteBody(b, _) => f.(bodies := f.bodies - {b})
    case Invalidate(b) =>
      var gone := Descendants(f.side, b) + {b};
      f.(side := f.side - gone, bodies := f.bodies - gone, invalid := f.invalid + gone)
  }

  ghost function Run(f: Facts, ops: seq<Op>): Facts {
    if ops == [] then f else Step(Run(f, ops[..|ops| - 1]), ops[|ops| - 1])
  }

  ghost predicate AllowedRun(f: Facts, ops: seq<Op>) {
    ops == [] ||
    (AllowedRun(f, ops[..|ops| - 1]) && Allowed(Run(f, ops[..|ops| - 1]), ops[|ops| - 1]))
  }

  // ----- Consequences of the invariant

  /**
   The order in which headers and commitments arrived does not matter: two archives that hold
   the same facts agree on every index and on every verified commitment.
   */
  lemma ArrivalOrderIrrelevant(s: State, t: State, b: SideHash, m: MainHash)
    requires Inv(s) && Inv(t)
    requires s.Stored() == t.Stored()
    ensures s.side == t.side && s.main == t.main && s.totalWork == t.totalWork && s.inclusions == t.inclusions
    ensures b in s.side.links ==> (IsVerified(s.bmm, b, m) <==> IsVerified(t.bmm, b, m))
  {
    IndexesDetermined(s.side, t.side);
    IndexesDetermined(s.main, t.main);
    WorkDetermined(s.main, s.totalWork, t.totalWork);
    InclusionsDetermined(s.bodies, s.inclusions, t.inclusions);
    assert s.AsView() == t.AsView();
    assert b in s.side.links ==> (IsVerified(s.bmm, b, m) <==> Committed(s.AsView(), b, m));
  }

  /** Every ancestor of a verified block is verified, in the ancestry of the committing block. */
  lemma VerifiedAncestry(s: State, b: SideHash, m: MainHash, k: nat) returns (a: SideHash, m': MainHash)
    requires Inv(s) && b in s.side.links && IsVerified(s.bmm, b, m)
    requires k <= s.side.heights[b]
    ensures Anc(s.side.links, b, k) == Some(a)
    ensures IsVerified(s.bmm, a, m') && IsAnc(s.main.links, m', m)
    ensures m in s.main.links && s.side.heights[b] <= s.main.heights[m]
    ensures m' in s.main.links && (k > 0 ==> s.main.heights[m'] < s.main.heights[m])
  {
    var ms := CommitmentChain(s.AsView(), b, m);
    a, m' := Anc(s.side.links, b, k).value, ms[k];
    AncHeight(s.side.links, s.side.heights, b, k);
    assert Committed(s.AsView(), a, m');
  }

  /** The work of the first n blocks of the ancestry of `m`. */
  ghost function WorkOf(main: Links<MainHash, MainData>, m: MainHash, n: nat): nat
    decreases n
  {
    if n == 0 || m !in main then 0
    else main[m].data.work + match Prev(main, m) case None => 0 case Some(p) => WorkOf(main, p, n - 1)
  }

  /** The stored total work is the work of the whole ancestry. */
  lemma {:induction false} TotalWorkIsSum(c: MainChain, totalWork: map<MainHash, nat>, m: MainHash)
    requires Ranked(c.links, c.heights) && WorkExact(c.links, totalWork) && m in c.links
    ensures totalWork[m] == WorkOf(c.links, m, c.heights[m] + 1)
    decreases c.heights[m]
  {
    if Prev(c.links, m).Some? {
      TotalWorkIsSum(c, totalWork, Prev(c.links, m).value);
    }
  }

  lemma WorkDetermined(c: MainChain, work: map<MainHash, nat>, work': map<MainHash, nat>)
    requires Ranked(c.links, c.heights) && WorkExact(c.links, work) && WorkExact(c.links, work')
    ensures work == work'
  {
    forall m | m in c.links
      ensures work[m] == work'[m]
    {
      TotalWorkIsSum(c, work, m);
      TotalWorkIsSum(c, work', m);
    }
  }

  // ----- Preservation, one lemma per kind of step

  lemma WorkExtend(main: Links<MainHash, MainData>, work: map<MainHash, nat>, m: MainHash, link: MainLink, w: nat)
    requires WorkExact(main, work) && Closed(main) && (m in main ==> main[m] == link)
    requires link.prev.Some? ==> link.prev.value in main
    requires w == link.data.work + match link.prev case None => 0 case Some(p) => work[p]
    ensures WorkExact(main[m := link], work[m := w])
  {
    var main', work' := main[m := link], work[m := w];
    assert m in main ==> Prev(main, m) == link.prev;
    forall x {:trigger Prev(main', x)} | x in main'
      ensures work'[x] == main'[x].data.work +
        match Prev(main', x) case None => 0 case Some(p) => if p in work' then work'[p] else 0
    {
      if x in main {
        assert Prev(main', x) == Prev(main, x);
      }
    }
  }

  lemma InfosExtend(c: MainChain, d: MainChain, infos: Infos, m: MainHash, link: MainLink)
    requires InfosClosed(c, infos) && d.links == c.links[m := link] && (m in c.links ==> c.links[m] == link)
    ensures InfosClosed(d, infos)
  {
    forall x {:trigger Prev(d.links, x)} | x in infos
      ensures Prev(d.links, x).Some? ==> Prev(d.links, x).value in infos
    {
      assert Prev(d.links, x) == Prev(c.links, x);
    }
  }

  /** A pair whose table entry and whose stored facts stay keeps its meaning. */
  lemma PairCarries(s: State, t: State, y: SideHash, m: MainHash)
    requires BmmInv(s) && Consistent(s.AsView(), t.AsView()) && s.infos == t.infos
    requires y in s.side.links && y in t.side.links
    requires IsVerified(s.bmm, y, m) <==> IsVerified(t.bmm, y, m)
    ensures IsVerified(t.bmm, y, m) <==> Committed(t.AsView(), y, m)
  {
    assert IsVerified(s.bmm, y, m) <==> Committed(s.AsView(), y, m);
    if m in s.infos {
      CommittedAgree(s.AsView(), t.AsView(), y, m);
    }
  }

  /** If only main headers come or side blocks go, no outcome changes. */
  lemma PairsCarry(s: State, t: State)
    requires BmmInv(s) && Consistent(s.AsView(), t.AsView()) && s.infos == t.infos && s.bmm == t.bmm
    requires t.side.links.Keys <= s.side.links.Keys
    ensures BmmExact(t)
  {
    forall b, x | b in t.side.links
      ensures IsVerified(t.bmm, b, x) <==> Committed(t.AsView(), b, x)
    {
      PairCarries(s, t, b, x);
    }
  }

  lemma MainHeaderKeepsInv(s: State, t: State, m: MainHash, link: MainLink)
    requires Inv(s) && Valid(t.main) && t.main.links == s.main.links[m := link]
    requires m in s.main.links ==> s.main.links[m] == link
    requires link.prev.Some? ==> link.prev.value in s.main.links
    requires m in t.totalWork && t.totalWork == s.totalWork[m := t.totalWork[m]]
    requires t.totalWork[m] == link.data.work + match link.prev case None => 0 case Some(p) => s.totalWork[p]
    requires t == s.(main := t.main, totalWork := t.totalWork)
    ensures Inv(t)
  {
    WorkExtend(s.main.links, s.totalWork, m, link, t.totalWork[m]);
    InfosExtend(s.main, t.main, s.infos, m, link);
    PairsCarry(s, t);
  }

  /** Some verified commitment to `p` lies in the ancestry of `m`; what the source searches for. */
  ghost predicate AnyVerified(main: MainChain, results: Results, m: MainHash) {
    exists x :: x in results && results[x] == Verified && IsAnc(main.links, x, m)
  }

  function ResultsOf(bmm: map<SideHash, Results>, b: SideHash): Results {
    if b in bmm then bmm[b] else map[]
  }

  lemma AnyVerifiedExact(s: State, p: SideHash, m: MainHash)
    requires BmmInv(s) && p in s.side.links
    ensures AnyVerified(s.main, ResultsOf(s.bmm, p), m) <==> ParentCommitted(s.AsView(), p, m)
  {
    var rs := ResultsOf(s.bmm, p);
    if AnyVerified(s.main, rs, m) {
      var x :| x in rs && rs[x] == Verified && IsAnc(s.main.links, x, m);
      assert IsVerified(s.bmm, p, x);
    }
    if ParentCommitted(s.AsView(), p, m) {
      var x :| IsAnc(s.main.links, x, m) && Committed(s.AsView(), p, x);
      assert IsVerified(s.bmm, p, x);
    }
  }

  /** The outcome both update paths compute for side block `b` at main block `m`. */
  ghost predicate Checks(s: State, b: SideHash, link: SideLink, m: MainHash, c: Option<SideHash>) {
    && c == Some(b)
    && Prev(s.main.links, m) == link.data
    && (link.prev.Some? ==> AnyVerified(s.main, ResultsOf(s.bmm, link.prev.value), m))
  }

  lemma ParentTransfer(v: View, w: View, p: SideHash, m: MainHash)
    requires Consistent(v, w)
    requires m in v.main.links && m in w.main.links && p in w.side.links
    requires ParentCommitted(v, p, m)
    requires forall x | x in v.infos && v.infos[x] == Some(p) && IsAnc(v.main.links, x, m) :: x in w.infos
    ensures ParentCommitted(w, p, m)
  {
    var x :| IsAnc(v.main.links, x, m) && Committed(v, p, x);
    var n: nat :| Anc(v.main.links, m, n) == Some(x);
    AncAgree(v.main.links, w.main.links, m, n);
    CommittedTransfer(v, w, p, x);
  }

  /** The computed outcome is the recursive definition, evaluated after the update. */
  lemma ChecksExact(s: State, t: State, b: SideHash, link: SideLink, m: MainHash, c: Option<SideHash>)
    requires BmmInv(s) && ViewValid(t.AsView()) && Consistent(s.AsView(), t.AsView())
    requires t.main == s.main && m in s.main.links
    requires m in t.infos && t.infos[m] == c
    requires b in t.side.links && t.side.links[b] == link
    requires link.prev.Some? ==> link.prev.value in s.side.links && link.prev.value in t.side.links
    requires s.infos.Keys <= t.infos.Keys <= s.infos.Keys + {m}
    ensures Checks(s, b, link, m, c) <==> Committed(t.AsView(), b, m)
  {
    assert Prev(t.side.links, b) == link.prev;
    if link.prev.Some? && c == Some(b) {
      var p := link.prev.value;
      AnyVerifiedExact(s, p, m);
      assert p != b;
      if ParentCommitted(s.AsView(), p, m) {
        ParentTransfer(s.AsView(), t.AsView(), p, m);
      }
      if ParentCommitted(t.AsView(), p, m) {
        ParentTransfer(t.AsView(), s.AsView(), p, m);
      }
    }
  }

  /** From `s` to `t` the commitment `c` of main block `m` is stored, and its outcome recorded. */
  ghost predicate InfoStored(s: State, t: State, m: MainHash, c: Option<SideHash>) {
    && m in s.main.links
    && (Prev(s.main.links, m).Some? ==> Prev(s.main.links, m).value in s.infos)
    && (m in s.infos ==> s.infos[m] == c)
    && t == s.(infos := s.infos[m := c], bmm := t.bmm)
    && if c.None? || c.value !in s.side.links then t.bmm == s.bmm else
         var r := if Checks(s, c.value, s.side.links[c.value], m, c) then Verified else Failed;
         t.bmm == s.bmm[c.value := ResultsOf(s.bmm, c.value)[m := r]]
  }

  lemma MainInfoKeepsInv(s: State, t: State, m: MainHash, c: Option<SideHash>)
    requires Inv(s) && InfoStored(s, t, m, c)
    ensures Inv(t)
  {
    assert InfosClosed(t.main, t.infos);
    assert BmmStored(t) by {
      forall b {:trigger t.bmm[b]} | b in t.bmm
        ensures (b in t.side.links || b in t.invalid) && t.bmm[b].Keys <= t.main.links.Keys
      {
        assert b in s.bmm ==> s.bmm[b].Keys <= s.main.links.Keys;
      }
    }
    forall b, x | b in t.side.links
      ensures IsVerified(t.bmm, b, x) <==> Committed(t.AsView(), b, x)
    {
      MainInfoPair(s, t, m, c, b, x);
    }
  }

  lemma MainInfoPair(s: State, t: State, m: MainHash, c: Option<SideHash>, b: SideHash, x: MainHash)
    requires BmmInv(s) && InfoStored(s, t, m, c) && InfosClosed(t.main, t.infos) && b in s.side.links
    ensures IsVerified(t.bmm, b, x) <==> Committed(t.AsView(), b, x)
  {
    if x == m && c == Some(b) {
      assert Prev(s.side.links, b) == s.side.links[b].prev;
      ChecksExact(s, t, b, s.side.links[b], m, c);
    } else {
      MainInfoOtherPair(s, t, m, c, b, x);
    }
  }

  lemma MainInfoOtherPair(s: State, t: State, m: MainHash, c: Option<SideHash>, b: SideHash, x: MainHash)
    requires BmmInv(s) && InfoStored(s, t, m, c) && InfosClosed(t.main, t.infos) && b in s.side.links
    requires x != m || c != Some(b)
    ensures IsVerified(t.bmm, b, x) <==> Committed(t.AsView(), b, x)
  {
    assert IsVerified(s.bmm, b, x) <==> Committed(s.AsView(), b, x);
    assert IsVerified(t.bmm, b, x) <==> IsVerified(s.bmm, b, x);
    if x in s.infos {
      CommittedAgree(s.AsView(), t.AsView(), b, x);
    }
  }

  /** `results` is `was` with the outcome for `b` recorded at each main block of `on`. */
  ghost predicate Recorded(s: State, b: SideHash, link: SideLink, on: set<MainHash>, was: Results, results: Results) {
    && results.Keys == was.Keys + on
    && forall m {:trigger results[m]} | m in results ::
         if m in on
         then m in s.infos && results[m] == if Checks(s, b, link, m, s.infos[m]) then Verified else Failed
         else results[m] == was[m]
  }

  /** From `s` to `t` the header of `b` is stored, and its outcome at every candidate recorded. */
  ghost predicate HeaderStored(s: State, t: State, b: SideHash, link: SideLink) {
    && b !in s.invalid
    && (b in s.side.links ==> s.side.links[b] == link)
    && (link.prev.Some? ==> link.prev.value in s.side.links)
    && (link.data.Some? ==> link.data.value in s.main.links)
    && Valid(t.side) && t.side.links == s.side.links[b := link]
    && b in t.bmm
    && Recorded(s, b, link, Children(s.main.links, link.data), ResultsOf(s.bmm, b), t.bmm[b])
    && t == s.(side := t.side, bmm := s.bmm[b := t.bmm[b]])
  }

  lemma HeaderResultsStored(s: State, t: State, b: SideHash, link: SideLink)
    requires BmmStored(s) && HeaderStored(s, t, b, link)
    ensures BmmStored(t)
  {
    forall x {:trigger t.bmm[x]} | x in t.bmm
      ensures (x in t.side.links || x in t.invalid) && t.bmm[x].Keys <= t.main.links.Keys
    {
      assert x in s.bmm ==> s.bmm[x].Keys <= s.main.links.Keys;
    }
  }

  lemma HeaderPairs(s: State, t: State, b: SideHash, link: SideLink)
    requires BmmInv(s) && BmmStored(s) && HeaderStored(s, t, b, link)
    ensures BmmExact(t)
  {
    forall y, m | y in t.side.links
      ensures IsVerified(t.bmm, y, m) <==> Committed(t.AsView(), y, m)
    {
      if y == b {
        HeaderOwnPair(s, t, b, link, m);
      } else {
        PairCarries(s, t, y, m);
      }
    }
  }

  lemma HeaderKeepsInv(s: State, t: State, b: SideHash, link: SideLink)
    requires Inv(s) && HeaderStored(s, t, b, link)
    ensures Inv(t)
  {
    HeaderResultsStored(s, t, b, link);
    HeaderPairs(s, t, b, link);
  }

  lemma HeaderOwnPair(s: State, t: State, b: SideHash, link: SideLink, m: MainHash)
    requires BmmInv(s) && BmmStored(s) && Ranked(t.side.links, t.side.heights) && HeaderStored(s, t, b, link)
    ensures IsVerified(t.bmm, b, m) <==> Committed(t.AsView(), b, m)
  {
    if m in Children(s.main.links, link.data) {
      assert m in t.bmm[b] && m in s.infos;
      ChecksExact(s, t, b, link, m, s.infos[m]);
    } else {
      assert IsVerified(t.bmm, b, m) <==> IsVerified(s.bmm, b, m);
      if b in s.side.links {
        PairCarries(s, t, b, m);
      } else {
        assert b !in s.bmm;
      }
    }
  }

  lemma InvalidateKeepsInv(s: State, t: State, b: SideHash)
    requires Inv(s)
    requires var gone := Descendants(s.side.links, b) + {b};
             && t == s.(side := Without(s.side, gone), bodies := s.bodies - gone,
                        inclusions := t.inclusions, invalid := s.invalid + gone)
    requires InclusionsExact(t.bodies, t.inclusions)
    ensures Inv(t)
  {
    DescendantsClosed(s.side.links, b);
    WithoutValid(s.side, Descendants(s.side.links, b) + {b});
    PairsCarry(s, t);
  }
}

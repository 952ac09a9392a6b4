/**
 Blind merged mining: what it means for a sidechain block to be validly committed to by a
 mainchain block, defined by recursion on the sidechain ancestry alone, with no table of
 results and no order of arrival.
 */
module Bmm {
  import opened Common
  import opened ChainIndex

  datatype SideHash = SideHash(id: nat)

  datatype MainHash = MainHash(id: nat)

  datatype BmmResult = Verified | Failed

  /** What a mainchain header info carries besides its hash and its parent. */
  datatype MainData = MainData(work: nat, height: nat)

  /** A sidechain header carries the mainchain parent it was built on. */
  type SideChain = Chain<SideHash, Option<MainHash>>

  type MainChain = Chain<MainHash, MainData>

  /** The commitment that each known mainchain block makes, if any. */
  type Infos = map<MainHash, Option<SideHash>>

  /** The stored facts that decide which commitments are valid. */
  datatype View = View(side: SideChain, main: MainChain, infos: Infos)

  ghost predicate InfosClosed(main: MainChain, infos: Infos) {
    && infos.Keys <= main.links.Keys
    && forall m {:trigger Prev(main.links, m)} | m in infos ::
         Prev(main.links, m).Some? ==> Prev(main.links, m).value in infos
  }

  ghost predicate ViewValid(v: View) {
    && Ranked(v.side.links, v.side.heights)
    && Ranked(v.main.links, v.main.heights)
    && InfosClosed(v.main, v.infos)
  }

  /**
   Main block `m` validly commits to side block `b`: it commits to `b`, it follows the main
   block `b` was built on, and the parent of `b`, if any, is validly committed to somewhere
   in the ancestry of `m`.
   */
  ghost predicate Committed(v: View, b: SideHash, m: MainHash)
    requires Ranked(v.side.links, v.side.heights)
    decreases if b in v.side.heights then v.side.heights[b] else 0, 0
  {
    && b in v.side.links
    && m in v.infos && m in v.main.links
    && v.infos[m] == Some(b)
    && Prev(v.main.links, m) == v.side.links[b].data
    && match Prev(v.side.links, b)
       case None => true
       case Some(p) => ParentCommitted(v, p, m)
  }

  ghost predicate ParentCommitted(v: View, p: SideHash, m: MainHash)
    requires Ranked(v.side.links, v.side.heights)
    decreases if p in v.side.heights then v.side.heights[p] else 0, 1
  {
    p in v.side.links && exists m' :: IsAnc(v.main.links, m', m) && Committed(v, p, m')
  }

  lemma {:induction false} InfosAncestors(main: MainChain, infos: Infos, m: MainHash, n: nat)
    requires InfosClosed(main, infos) && m in infos
    ensures Anc(main.links, m, n).Some? ==> Anc(main.links, m, n).value in infos
    decreases n
  {
    if n > 0 && Prev(main.links, m).Some? {
      InfosAncestors(main, infos, Prev(main.links, m).value, n - 1);
    }
  }

  /** Two views that do not contradict each other. */
  ghost predicate Consistent(v: View, w: View) {
    && ViewValid(v) && ViewValid(w)
    && (forall b | b in v.side.links && b in w.side.links :: v.side.links[b] == w.side.links[b])
    && (forall m | m in v.main.links && m in w.main.links :: v.main.links[m] == w.main.links[m])
    && (forall m | m in v.infos && m in w.infos :: v.infos[m] == w.infos[m])
  }

  /** Validity carries over to any consistent view that stores the block and the commitment. */
  lemma {:induction false} CommittedTransfer(v: View, w: View, b: SideHash, m: MainHash)
    requires Consistent(v, w)
    requires b in w.side.links && m in w.infos
    requires Committed(v, b, m)
    ensures Committed(w, b, m)
    decreases v.side.heights[b]
  {
    assert Prev(w.main.links, m) == Prev(v.main.links, m);
    assert Prev(w.side.links, b) == Prev(v.side.links, b);
    if Prev(v.side.links, b).Some? {
      var p := Prev(v.side.links, b).value;
      var m' :| IsAnc(v.main.links, m', m) && Committed(v, p, m');
      var n: nat :| Anc(v.main.links, m, n) == Some(m');
      AncAgree(v.main.links, w.main.links, m, n);
      InfosAncestors(w.main, w.infos, m, n);
      CommittedTransfer(v, w, p, m');
      assert ParentCommitted(w, p, m);
    }
  }

  lemma CommittedAgree(v: View, w: View, b: SideHash, m: MainHash)
    requires Consistent(v, w)
    requires b in v.side.links && b in w.side.links
    requires m in v.infos && m in w.infos
    ensures Committed(v, b, m) <==> Committed(w, b, m)
  {
    if Committed(v, b, m) {
      CommittedTransfer(v, w, b, m);
    }
    if Committed(w, b, m) {
      CommittedTransfer(w, v, b, m);
    }
  }

  /**
   The whole sidechain ancestry of a validly committed block is validly committed to in the
   ancestry of the committing block, at strictly decreasing mainchain heights; so a side
   block is never higher than the main block that commits to it.
   */
  lemma {:induction false} CommitmentChain(v: View, b: SideHash, m: MainHash) returns (ms: seq<MainHash>)
    requires ViewValid(v) && Committed(v, b, m)
    ensures |ms| == v.side.heights[b] + 1 && ms[0] == m
    ensures forall k | 0 <= k < |ms| ::
              && Anc(v.side.links, b, k).Some?
              && Committed(v, Anc(v.side.links, b, k).value, ms[k])
    ensures forall k | 0 <= k < |ms| :: IsAnc(v.main.links, ms[k], m)
    ensures forall k | 0 < k < |ms| :: IsAnc(v.main.links, ms[k], ms[k - 1])
    ensures forall i, j | 0 <= i < j < |ms| ::
              && ms[i] in v.main.links && ms[j] in v.main.links
              && v.main.heights[ms[j]] < v.main.heights[ms[i]]
    ensures v.side.heights[b] <= v.main.heights[m]
    decreases v.side.heights[b]
  {
    assert Anc(v.main.links, m, 0) == Some(m);
    if Prev(v.side.links, b).None? {
      return [m];
    }
    var p := Prev(v.side.links, b).value;
    var m' :| IsAnc(v.main.links, m', m) && Committed(v, p, m');
    IsAncHeight(v.main.links, v.main.heights, m', m);
    var rest := CommitmentChain(v, p, m');
    forall k | 0 <= k < |rest|
      ensures IsAnc(v.main.links, rest[k], m)
    {
      IsAncTrans(v.main.links, rest[k], m', m);
    }
    ms := [m] + rest;
    forall k | 0 <= k < |ms|
      ensures Anc(v.side.links, b, k).Some? && Committed(v, Anc(v.side.links, b, k).value, ms[k])
    {
      if k > 0 {
        assert Anc(v.side.links, b, k) == Anc(v.side.links, p, k - 1);
      }
    }
  }

  /** Main block `m` names side block `a` and follows the main block `a` was built on. */
  ghost predicate Names(v: View, m: MainHash, a: SideHash) {
    && a in v.side.links && m in v.infos && m in v.main.links
    && v.infos[m] == Some(a) && Prev(v.main.links, m) == v.side.links[a].data
  }

  /** `ms` names the ancestry of `b` block by block, each main block in the ancestry of the one before. */
  ghost predicate NamesAncestry(v: View, b: SideHash, m: MainHash, ms: seq<MainHash>) {
    && b in v.side.links && b in v.side.heights && |ms| == v.side.heights[b] + 1 && ms[0] == m
    && (forall k | 0 <= k < |ms| :: Anc(v.side.links, b, k).Some? && Names(v, ms[k], Anc(v.side.links, b, k).value))
    && forall k | 0 < k < |ms| :: IsAnc(v.main.links, ms[k], ms[k - 1])
  }

  /** Valid commitments without recursion: exactly those with a chain of named ancestors. */
  lemma CommittedIff(v: View, b: SideHash, m: MainHash)
    requires ViewValid(v)
    ensures Committed(v, b, m) <==> exists ms :: NamesAncestry(v, b, m, ms)
  {
    if Committed(v, b, m) {
      var ms := CommitmentChain(v, b, m);
      forall k | 0 <= k < |ms|
        ensures Names(v, ms[k], Anc(v.side.links, b, k).value)
      {
        assert Committed(v, Anc(v.side.links, b, k).value, ms[k]);
      }
      assert NamesAncestry(v, b, m, ms);
    }
    if ms :| NamesAncestry(v, b, m, ms) {
      NamedIsCommitted(v, b, m, ms);
    }
  }

  lemma {:induction false} NamedIsCommitted(v: View, b: SideHash, m: MainHash, ms: seq<MainHash>)
    requires ViewValid(v) && NamesAncestry(v, b, m, ms)
    ensures Committed(v, b, m)
    decreases |ms|
  {
    assert Anc(v.side.links, b, 0) == Some(b) && Names(v, ms[0], b);
    if Prev(v.side.links, b).Some? {
      var p, rest := Prev(v.side.links, b).value, ms[1..];
      assert v.side.heights[p] + 1 == v.side.heights[b];
      forall k | 0 <= k < |rest|
        ensures Anc(v.side.links, p, k).Some? && Names(v, rest[k], Anc(v.side.links, p, k).value)
      {
        assert Anc(v.side.links, b, k + 1) == Anc(v.side.links, p, k);
        assert Names(v, ms[k + 1], Anc(v.side.links, b, k + 1).value);
      }
      forall k | 0 < k < |rest|
        ensures IsAnc(v.main.links, rest[k], rest[k - 1])
      {
        var j := k + 1;
        assert rest[k] == ms[j] && rest[k - 1] == ms[j - 1];
      }
      NamedIsCommitted(v, p, ms[1], rest);
      assert IsAnc(v.main.links, ms[1], ms[0]);
      assert ParentCommitted(v, p, m);
    }
  }
}

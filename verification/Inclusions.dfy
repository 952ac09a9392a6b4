/** The index from transaction ids to the blocks that include them. */
module Inclusions {
  import opened Common
  import opened Bmm

  type Txid = nat

  /** A block body, as the ids of its transactions in order. */
  type Body = seq<Txid>

  type InclusionIndex = map<Txid, map<SideHash, nat>>

  /** The position of the last occurrence of a transaction in a body. */
  function LastIndex(body: Body, t: Txid): (r: Option<nat>)
    ensures r.None? ==> t !in body
    ensures r.Some? ==> r.value < |body| && body[r.value] == t
    ensures r.Some? ==> forall j | r.value < j < |body| :: body[j] != t
  {
    if body == [] then None
    else if body[|body| - 1] == t then Some(|body| - 1)
    else LastIndex(body[..|body| - 1], t)
  }

  function Lookup(index: InclusionIndex, t: Txid, b: SideHash): Option<nat> {
    if t in index && b in index[t] then Some(index[t][b]) else None
  }

  ghost predicate NoEmptyEntry(index: InclusionIndex) {
    forall t | t in index :: index[t] != map[]
  }

  /** A transaction is listed under a block exactly when the stored body has it. */
  ghost predicate InclusionsExact(bodies: map<SideHash, Body>, index: InclusionIndex) {
    && NoEmptyEntry(index)
    && forall t, b {:trigger Lookup(index, t, b)} ::
         Lookup(index, t, b) == if b in bodies then LastIndex(bodies[b], t) else None
  }

  /** The stored bodies determine the index. */
  lemma InclusionsDetermined(bodies: map<SideHash, Body>, index: InclusionIndex, index': InclusionIndex)
    requires InclusionsExact(bodies, index) && InclusionsExact(bodies, index')
    ensures index == index'
  {
    forall t, b
      ensures Lookup(index, t, b) == Lookup(index', t, b)
    {
    }
    SameLookups(index, index');
    SameLookups(index', index);
    forall t | t in index
      ensures index[t] == index'[t]
    {
      assert forall b :: b in index[t] <==> Lookup(index, t, b).Some?;
      assert forall b :: b in index'[t] <==> Lookup(index', t, b).Some?;
      assert forall b | b in index[t] :: Lookup(index, t, b) == Some(index[t][b]);
    }
  }

  lemma SameLookups(index: InclusionIndex, index': InclusionIndex)
    requires NoEmptyEntry(index) && forall t, b :: Lookup(index, t, b) == Lookup(index', t, b)
    ensures index.Keys <= index'.Keys
  {
    forall t | t in index
      ensures t in index'
    {
      var b :| b in index[t];
      assert Lookup(index, t, b).Some?;
    }
  }

  /** Every transaction of `stored` is also in `body`. */
  ghost predicate Covers(body: Body, stored: Body) {
    forall t | t in stored :: t in body
  }

  /** Records every transaction of a body; a repeated one keeps its last position. */
  method IndexBody(index: InclusionIndex, b: SideHash, body: Body) returns (r: InclusionIndex)
    requires NoEmptyEntry(index)
    ensures NoEmptyEntry(r)
    ensures forall t, x {:trigger Lookup(r, t, x)} ::
              Lookup(r, t, x) == if x == b && t in body then LastIndex(body, t) else Lookup(index, t, x)
  {
    r := index;
    for i := 0 to |body|
      invariant NoEmptyEntry(r)
      invariant forall t, x {:trigger Lookup(r, t, x)} ::
        Lookup(r, t, x) ==
          if x == b && t in body[..i] then LastIndex(body[..i], t) else Lookup(index, t, x)
    {
      var inclusions := if body[i] in r then r[body[i]] else map[];
      ghost var was := r;
      r := r[body[i] := inclusions[b := i]];
      assert r[body[i]][b] == i;
      assert body[..i + 1][..i] == body[..i];
      forall t, x
        ensures Lookup(r, t, x) ==
          if x == b && t in body[..i + 1] then LastIndex(body[..i + 1], t) else Lookup(index, t, x)
      {
        assert !(t == body[i] && x == b) ==> Lookup(r, t, x) == Lookup(was, t, x);
      }
    }
    assert body[..|body|] == body;
  }

  /** Strikes a block from the entry of every listed transaction, dropping emptied entries. */
  method UnindexBody(index: InclusionIndex, b: SideHash, body: Body) returns (r: InclusionIndex)
    requires NoEmptyEntry(index)
    ensures NoEmptyEntry(r)
    ensures forall t, x {:trigger Lookup(r, t, x)} ::
              Lookup(r, t, x) == if x == b && t in body then None else Lookup(index, t, x)
  {
    r := index;
    for i := 0 to |body|
      invariant NoEmptyEntry(r)
      invariant forall t, x {:trigger Lookup(r, t, x)} ::
        Lookup(r, t, x) == if x == b && t in body[..i] then None else Lookup(index, t, x)
    {
      ghost var was := r;
      if body[i] in r {
        var inclusions := r[body[i]] - {b};
        if inclusions == map[] {
          r := r - {body[i]};
        } else {
          r := r[body[i] := inclusions];
        }
      }
      forall t, x
        ensures Lookup(r, t, x) == if x == b && t in body[..i + 1] then None else Lookup(index, t, x)
      {
        if t == body[i] && t in was {
          assert x in was[t] && x != b ==> x in was[t] - {b};
        }
        assert Lookup(r, t, x) == if t == body[i] && x == b then None else Lookup(was, t, x);
        assert body[..i + 1] == body[..i] + [body[i]];
      }
    }
  }

  /** Storing a body over another keeps the index exact exactly when it covers the other. */
  lemma PutBodyExactIff(bodies: map<SideHash, Body>, index: InclusionIndex, b: SideHash, body: Body,
                        r: InclusionIndex)
    requires InclusionsExact(bodies, index) && NoEmptyEntry(r)
    requires forall t, x {:trigger Lookup(r, t, x)} ::
               Lookup(r, t, x) == if x == b && t in body then LastIndex(body, t) else Lookup(index, t, x)
    ensures InclusionsExact(bodies[b := body], r) <==> (b in bodies ==> Covers(body, bodies[b]))
  {
    if b in bodies && !Covers(body, bodies[b]) {
      var t :| t in bodies[b] && t !in body;
      assert Lookup(r, t, b) == Lookup(index, t, b) == LastIndex(bodies[b], t);
      assert LastIndex(body, t) == None;
    }
  }

  /** Deleting a body keeps the index exact exactly when the given body covers the stored one. */
  lemma DeleteBodyExactIff(bodies: map<SideHash, Body>, index: InclusionIndex, b: SideHash, body: Body,
                           r: InclusionIndex)
    requires InclusionsExact(bodies, index) && NoEmptyEntry(r)
    requires forall t, x {:trigger Lookup(r, t, x)} ::
               Lookup(r, t, x) == if x == b && t in body then None else Lookup(index, t, x)
    ensures InclusionsExact(bodies - {b}, r) <==> (b in bodies ==> Covers(body, bodies[b]))
  {
    if b in bodies && !Covers(body, bodies[b]) {
      var t :| t in bodies[b] && t !in body;
      assert Lookup(r, t, b) == Lookup(index, t, b) == LastIndex(bodies[b], t);
    }
  }

  /** Removes the stored body of a block, if any, and strikes it from the index. */
  method DropBody(bodies: map<SideHash, Body>, index: InclusionIndex, b: SideHash)
    returns (bodies': map<SideHash, Body>, index': InclusionIndex)
    requires InclusionsExact(bodies, index)
    ensures bodies' == bodies - {b} && InclusionsExact(bodies', index')
  {
    index' := index;
    if b in bodies {
      index' := UnindexBody(index, b, bodies[b]);
      DeleteBodyExactIff(bodies, index, b, bodies[b], index');
    }
    bodies' := bodies - {b};
  }
}

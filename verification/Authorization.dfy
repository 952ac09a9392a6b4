/**
 Verification of a block body's authorizations: flattened over all transactions, cut into
 chunks, and verified in batches; against verifying each transaction alone.
 */
module Authorization {
  import opened Common

  type Message = seq<nat>

  datatype Auth = Auth(verifyingKey: nat, signature: nat)

  /** A transaction: how many inputs it has, and its canonical message. */
  datatype Tx = Tx(inputs: nat, message: Message)

  datatype Item = Item(auth: Auth, message: Message)

  datatype Error = SignatureCountMismatch | InvalidSignature

  /** Whether a signature is valid for a key and a message. */
  type Scheme = Item -> bool

  ghost predicate AllValid(ok: Scheme, items: seq<Item>) {
    forall i | 0 <= i < |items| :: ok(items[i])
  }

  /** Queues items; a batch is accepted if it is not empty and every item is valid. */
  class BatchVerifier {
    const ok: Scheme
    var queued: seq<Item>

    constructor (ok: Scheme)
      ensures this.ok == ok && queued == []
    {
      this.ok, this.queued := ok, [];
    }

    method QueueItem(item: Item)
      modifies this
      ensures queued == old(queued) + [item]
    {
      queued := queued + [item];
    }

    method Verify() returns (accepted: bool)
      ensures accepted <==> queued != [] && AllValid(ok, queued)
    {
      for i := 0 to |queued|
        invariant forall j | 0 <= j < i :: ok(queued[j])
      {
        if !ok(queued[i]) {
          return false;
        }
      }
      return queued != [];
    }
  }

  /** Queues and verifies one batch. */
  method VerifyBatch(ok: Scheme, items: seq<Item>) returns (accepted: bool)
    ensures accepted <==> items != [] && AllValid(ok, items)
  {
    var verifier := new BatchVerifier(ok);
    for i := 0 to |items|
      invariant fresh(verifier) && verifier.ok == ok && verifier.queued == items[..i]
    {
      verifier.QueueItem(items[i]);
    }
    assert items[..|items|] == items;
    accepted := verifier.Verify();
  }

  // ----- One transaction

  function Repeat(m: Message, n: nat): seq<Message> {
    seq(n, _ => m)
  }

  function Zip(auths: seq<Auth>, messages: seq<Message>): seq<Item>
    requires |auths| == |messages|
  {
    seq(|auths|, i requires 0 <= i < |auths| => Item(auths[i], messages[i]))
  }

  /** One authorization per input, each valid for the transaction's own message. */
  ghost predicate AcceptedAlone(ok: Scheme, tx: Tx, auths: seq<Auth>) {
    |auths| == tx.inputs && forall i | 0 <= i < |auths| :: ok(Item(auths[i], tx.message))
  }

  lemma AloneIffZipped(ok: Scheme, tx: Tx, auths: seq<Auth>)
    ensures AcceptedAlone(ok, tx, auths) <==>
            |auths| == tx.inputs && AllValid(ok, Zip(auths, Repeat(tx.message, |auths|)))
  {
    var items := Zip(auths, Repeat(tx.message, |auths|));
    forall i | 0 <= i < |auths|
      ensures items[i] == Item(auths[i], tx.message)
    {
    }
  }

  method VerifyAuthorizedTransaction(ok: Scheme, tx: Tx, auths: seq<Auth>) returns (r: Result<(), Error>)
    ensures r.Ok? <==> AcceptedAlone(ok, tx, auths)
    ensures r == Err(SignatureCountMismatch) <==> |auths| != tx.inputs
  {
    AloneIffZipped(ok, tx, auths);
    if |auths| != tx.inputs {
      return Err(SignatureCountMismatch);
    }
    if auths == [] {
      return Ok(());
    }
    var accepted := VerifyBatch(ok, Zip(auths, Repeat(tx.message, |auths|)));
    return if accepted then Ok(()) else Err(InvalidSignature);
  }

  // ----- A whole body

  function TotalInputs(txs: seq<Tx>): nat {
    if txs == [] then 0 else TotalInputs(txs[..|txs| - 1]) + txs[|txs| - 1].inputs
  }

  /** The message of each input, in order. */
  function Messages(txs: seq<Tx>): (r: seq<Message>)
    ensures |r| == TotalInputs(txs)
  {
    if txs == [] then []
    else Messages(txs[..|txs| - 1]) + Repeat(txs[|txs| - 1].message, txs[|txs| - 1].inputs)
  }

  lemma {:induction false} TotalPrefix(txs: seq<Tx>, i: nat)
    requires i < |txs|
    ensures TotalInputs(txs[..i]) + txs[i].inputs <= TotalInputs(txs)
    decreases |txs|
  {
    var m := |txs| - 1;
    if i < m {
      TotalPrefix(txs[..m], i);
      assert txs[..m][..i] == txs[..i];
    }
  }

  /** The consecutive slice of the authorizations that belongs to transaction i. */
  ghost function SliceOf(txs: seq<Tx>, auths: seq<Auth>, i: nat): seq<Auth>
    requires |auths| == TotalInputs(txs) && i < |txs|
  {
    TotalPrefix(txs, i);
    var start := TotalInputs(txs[..i]);
    auths[start..start + txs[i].inputs]
  }

  ghost predicate AcceptedAt(ok: Scheme, txs: seq<Tx>, auths: seq<Auth>, i: nat)
    requires |auths| == TotalInputs(txs) && i < |txs|
  {
    AcceptedAlone(ok, txs[i], SliceOf(txs, auths, i))
  }

  ghost predicate EachAccepted(ok: Scheme, txs: seq<Tx>, auths: seq<Auth>)
    requires |auths| == TotalInputs(txs)
  {
    forall i | 0 <= i < |txs| :: AcceptedAt(ok, txs, auths, i)
  }

  lemma AllValidConcat(ok: Scheme, a: seq<Item>, b: seq<Item>)
    ensures AllValid(ok, a + b) <==> AllValid(ok, a) && AllValid(ok, b)
  {
    if AllValid(ok, a + b) {
      forall i | 0 <= i < |a| ensures ok(a[i]) { assert (a + b)[i] == a[i]; }
      forall i | 0 <= i < |b| ensures ok(b[i]) { assert (a + b)[|a| + i] == b[i]; }
    }
  }

  /** The flattened items are valid exactly when every transaction is accepted alone. */
  lemma {:induction false} FlatteningIsSound(ok: Scheme, txs: seq<Tx>, auths: seq<Auth>)
    requires |auths| == TotalInputs(txs)
    ensures AllValid(ok, Zip(auths, Messages(txs))) <==> EachAccepted(ok, txs, auths)
  {
    if txs != [] {
      var m := |txs| - 1;
      var n, tx := TotalInputs(txs[..m]), txs[m];
      var front, back := auths[..n], auths[n..];
      FlatteningIsSound(ok, txs[..m], front);
      assert Zip(auths, Messages(txs)) == Zip(front, Messages(txs[..m])) + Zip(back, Repeat(tx.message, tx.inputs));
      AllValidConcat(ok, Zip(front, Messages(txs[..m])), Zip(back, Repeat(tx.message, tx.inputs)));
      SlicesSplit(ok, txs, auths, m, n);
      AloneIffZipped(ok, tx, back);
    }
  }

  lemma SamePart(auths: seq<Auth>, n: nat, start: nat, count: nat)
    requires start + count <= n <= |auths|
    ensures auths[..n][start..start + count] == auths[start..start + count]
  {
  }

  /** A transaction before the last has the same slice without the last. */
  lemma AcceptedSame(ok: Scheme, txs: seq<Tx>, auths: seq<Auth>, m: nat, n: nat, i: nat)
    requires |auths| == TotalInputs(txs) && |txs| == m + 1 && n == TotalInputs(txs[..m]) && i < m
    ensures n <= |auths| && (AcceptedAt(ok, txs, auths, i) <==> AcceptedAt(ok, txs[..m], auths[..n], i))
  {
    TotalPrefix(txs[..m], i);
    assert txs[..m][..i] == txs[..i];
    SamePart(auths, n, TotalInputs(txs[..i]), txs[i].inputs);
    assert SliceOf(txs, auths, i) == SliceOf(txs[..m], auths[..n], i);
  }

  lemma LastSlice(txs: seq<Tx>, auths: seq<Auth>, m: nat, n: nat)
    requires |auths| == TotalInputs(txs) && |txs| == m + 1 && n == TotalInputs(txs[..m])
    ensures n <= |auths| && SliceOf(txs, auths, m) == auths[n..]
  {
    assert |auths| == n + txs[m].inputs;
  }

  lemma LastAccepted(ok: Scheme, txs: seq<Tx>, auths: seq<Auth>, m: nat, n: nat)
    requires |auths| == TotalInputs(txs) && |txs| == m + 1 && n == TotalInputs(txs[..m])
    ensures n <= |auths| && (AcceptedAt(ok, txs, auths, m) <==> AcceptedAlone(ok, txs[m], auths[n..]))
  {
    LastSlice(txs, auths, m, n);
  }

  lemma SlicesSplit(ok: Scheme, txs: seq<Tx>, auths: seq<Auth>, m: nat, n: nat)
    requires |auths| == TotalInputs(txs) && |txs| == m + 1 && n == TotalInputs(txs[..m])
    ensures n <= |auths|
    ensures EachAccepted(ok, txs, auths) <==>
            EachAccepted(ok, txs[..m], auths[..n]) && AcceptedAlone(ok, txs[m], auths[n..])
  {
    LastAccepted(ok, txs, auths, m, n);
    FrontAccepted(ok, txs, auths, m, n);
  }

  /** Without the last transaction, the others are accepted as before. */
  lemma FrontAccepted(ok: Scheme, txs: seq<Tx>, auths: seq<Auth>, m: nat, n: nat)
    requires |auths| == TotalInputs(txs) && |txs| == m + 1 && n == TotalInputs(txs[..m])
    ensures n <= |auths|
    ensures EachAccepted(ok, txs, auths) <==>
            EachAccepted(ok, txs[..m], auths[..n]) && AcceptedAt(ok, txs, auths, m)
  {
    LastSlice(txs, auths, m, n);
    var front, slices := txs[..m], auths[..n];
    forall i | 0 <= i < m
      ensures AcceptedAt(ok, txs, auths, i) <==> AcceptedAt(ok, front, slices, i)
    {
      AcceptedSame(ok, txs, auths, m, n, i);
    }
    assert EachAccepted(ok, front, slices) <==> forall i | 0 <= i < m :: AcceptedAt(ok, front, slices, i);
    assert EachAccepted(ok, txs, auths) <==>
           (forall i | 0 <= i < m :: AcceptedAt(ok, txs, auths, i)) && AcceptedAt(ok, txs, auths, m);
  }

  /**
   Block verification with any chunk size accepts a body exactly when the counts match and
   every transaction, with its own slice of the authorizations, is accepted alone.
   */
  method VerifyAuthorizations(ok: Scheme, txs: seq<Tx>, auths: seq<Auth>, chunkSize: nat) returns (r: Result<(), Error>)
    requires chunkSize > 0
    ensures r == Err(SignatureCountMismatch) <==> |auths| != TotalInputs(txs)
    ensures |auths| == TotalInputs(txs) ==> (r.Ok? <==> EachAccepted(ok, txs, auths))
  {
    if |auths| != TotalInputs(txs) {
      return Err(SignatureCountMismatch);
    }
    FlatteningIsSound(ok, txs, auths);
    var items := Zip(auths, Messages(txs));
    var start := 0;
    while start < |items|
      invariant 0 <= start <= |items|
      invariant AllValid(ok, items[..start])
    {
      var end := if start + chunkSize < |items| then start + chunkSize else |items|;
      var accepted := VerifyBatch(ok, items[start..end]);
      assert items == items[..start] + items[start..end] + items[end..];
      assert items[..end] == items[..start] + items[start..end];
      AllValidConcat(ok, items[..start] + items[start..end], items[end..]);
      AllValidConcat(ok, items[..start], items[start..end]);
      if !accepted {
        return Err(InvalidSignature);
      }
      start := end;
    }
    assert items[..|items|] == items;
    return Ok(());
  }
}

/** What the component's transformations do to chain validity, to block indices and to
    the cached flags that drive the restricted / editable rule. */
module Integrity {
  import opened Types
  import opened Hashing
  import opened Mining
  import opened Validation
  import opened Cascade
  import opened Component

  /** Every block the cascade rebuilt passes both checks: its link is the rebuilt
      predecessor's hash and its hash is recomputed. */
  lemma CascadeChecks(p: Primitives, c: seq<Block>, r: seq<Block>, k: nat)
    requires |r| == |c| && k < |c|
    requires forall i :: k < i < |c| ==> RelinkedFrom(p, c[i], r[i], r[i - 1].hash)
    ensures forall i :: k < i < |c| ==> BlockChecks(p, r, i)
  {
  }

  /** An edit at k leaves a chain that `validateChain` accepts exactly when the blocks
      before k passed and block k linked to its predecessor: relinking every later block
      hides the tamper from the validator, which is left to the `isValid` flags. */
  lemma {:induction false} EditValidIff(p: Primitives, c: seq<Block>, k: nat, txs: seq<Transaction>)
    requires k < |c|
    ensures ValidChain(p, EditBlock(p, c, k, txs)) <==> IntactBefore(p, c, k)
  {
    var r := EditBlock(p, c, k, txs);
    CascadeChecks(p, c, r, k);
    forall i | 1 <= i < k
      ensures BlockChecks(p, r, i) == BlockChecks(p, c, i)
    {
      assert r[i] == r[..k][i] && r[i - 1] == r[..k][i - 1];
    }
    if 1 <= k {
      assert r[k - 1] == r[..k][k - 1];
      assert BlockChecks(p, r, k) == LinkOk(c, k);
    }
  }

  /** Re-mining block k leaves a chain that `validateChain` accepts exactly when the
      blocks before k passed: block k is relinked to its predecessor and mined afresh,
      and every later block is relinked and rehashed. */
  lemma {:induction false} ReMineValidIff(p: Primitives, c: seq<Block>, k: nat, difficulty: nat, w: nat)
    requires k < |c|
    requires Terminates(p, ReMineHeader(c, k), difficulty, w)
    ensures ValidChain(p, ReMineBlock(p, c, k, difficulty, w)) <==>
              forall i :: 1 <= i < k ==> BlockChecks(p, c, i)
  {
    var r := ReMineBlock(p, c, k, difficulty, w);
    CascadeChecks(p, c, r, k);
    forall i | 1 <= i < k
      ensures BlockChecks(p, r, i) == BlockChecks(p, c, i)
    {
      assert r[i] == r[..k][i] && r[i - 1] == r[..k][i - 1];
    }
    if 1 <= k {
      assert r[k - 1] == r[..k][k - 1];
      assert BlockChecks(p, r, k);
    }
  }

  /** Mining a new block never changes the verdict of `validateChain`: the appended block
      links to the last one and carries its own hash. */
  lemma MineNewBlockValidIff(p: Primitives, st: BlockchainState, isMining: bool, now: nat, w: nat)
    requires |st.chain| > 0
    requires !isMining && |st.pendingTransactions| > 0 ==>
               Terminates(p, NextHeader(st, now), st.miningDifficulty, w)
    ensures ValidChain(p, MineNewBlock(p, st, isMining, now, w).state.chain) <==> ValidChain(p, st.chain)
  {
    var r := MineNewBlock(p, st, isMining, now, w);
    if r.refusal.None? {
      var c := st.chain;
      var c' := r.state.chain;
      assert c' == c + [c'[|c|]];
      if ValidChain(p, c) {
        AppendValid(p, c, c'[|c|]);
      } else {
        var i :| 1 <= i < |c| && !BlockChecks(p, c, i);
        assert c'[i] == c[i] && c'[i - 1] == c[i - 1];
        assert !BlockChecks(p, c', i);
      }
    }
  }

  /** One mining step keeps a valid chain whose indices equal their positions valid and
      sequentially indexed; with `InitialState` as the start, every chain grown from the
      genesis block by mining steps alone is so. */
  lemma MinedChainStaysValid(p: Primitives, st: BlockchainState, isMining: bool, now: nat, w: nat)
    requires |st.chain| > 0
    requires ValidChain(p, st.chain) && IndicesSequential(st.chain)
    requires !isMining && |st.pendingTransactions| > 0 ==>
               Terminates(p, NextHeader(st, now), st.miningDifficulty, w)
    ensures ValidChain(p, MineNewBlock(p, st, isMining, now, w).state.chain)
    ensures IndicesSequential(MineNewBlock(p, st, isMining, now, w).state.chain)
  {
    MineNewBlockValidIff(p, st, isMining, now, w);
    var c := st.chain;
    var c' := MineNewBlock(p, st, isMining, now, w).state.chain;
    if |c'| == |c| + 1 {
      forall i | 0 <= i < |c'|
        ensures c'[i].index == i
      {
        if i < |c| {
          assert c'[i] == c'[..|c|][i];
        }
      }
    }
  }

  /** Edits and re-mines keep every block at its index. */
  lemma EditKeepsIndices(p: Primitives, c: seq<Block>, k: nat, txs: seq<Transaction>)
    requires k < |c| && IndicesSequential(c)
    ensures IndicesSequential(EditBlock(p, c, k, txs))
  {
    var r := EditBlock(p, c, k, txs);
    forall i | 0 <= i < |c|
      ensures r[i].index == i
    {
      if i < k {
        assert r[i] == r[..k][i];
      } else if i > k {
        assert RelinkedFrom(p, c[i], r[i], r[i - 1].hash);
      }
    }
  }

  lemma ReMineKeepsIndices(p: Primitives, c: seq<Block>, k: nat, difficulty: nat, w: nat)
    requires k < |c| && IndicesSequential(c)
    requires Terminates(p, ReMineHeader(c, k), difficulty, w)
    ensures IndicesSequential(ReMineBlock(p, c, k, difficulty, w))
  {
    var r := ReMineBlock(p, c, k, difficulty, w);
    forall i | 0 <= i < |c|
      ensures r[i].index == i
    {
      if i < k {
        assert r[i] == r[..k][i];
      } else if i > k {
        assert RelinkedFrom(p, c[i], r[i], r[i - 1].hash);
      }
    }
  }

  /** Annotation changes flags only, so the overall verdict is unchanged by it. */
  lemma AnnotateKeepsVerdict(p: Primitives, c: seq<Block>)
    ensures SameButFlags(Annotate(p, c), c)
    ensures ValidChain(p, Annotate(p, c)) == ValidChain(p, c)
  {
    AnnotateSpec(p, c);
    ValidChainIgnoresFlags(p, Annotate(p, c), c);
  }

  /** Annotating twice writes the same flags as annotating once. */
  lemma AnnotateIdempotent(p: Primitives, c: seq<Block>)
    ensures Annotate(p, Annotate(p, c)) == Annotate(p, c)
  {
  }

  /** The overall verdict is true exactly when every annotated block after genesis is
      marked valid. */
  lemma AnnotateFlagsMatchVerdict(p: Primitives, c: seq<Block>)
    ensures ValidChain(p, c) <==> forall i :: 1 <= i < |c| ==> Annotate(p, c)[i].isValid == Some(true)
  {
    AnnotateSpec(p, c);
    if forall i :: 1 <= i < |c| ==> Annotate(p, c)[i].isValid == Some(true) {
      forall i | 1 <= i < |c|
        ensures BlockChecks(p, c, i)
      {
        assert Annotate(p, c)[i].isValid == Some(true);
      }
    }
  }

  /** Restriction is a threshold: exactly the blocks after the first one not marked valid
      are restricted. */
  lemma RestrictedIff(c: seq<Block>, i: nat)
    requires i < |c|
    ensures Restricted(c, i) <==> FirstUntrusted(c) < i
  {
  }

  /** The editor is offered from block 1 up to and including the first block not marked
      valid, and nowhere else; `onReMine` is passed for every block other than genesis,
      restricted or not. */
  lemma GatingRule(c: seq<Block>, i: nat)
    requires i < |c|
    ensures EditOffered(c, i) <==> 0 < i <= FirstUntrusted(c)
    ensures Restricted(c, i) ==> ReMineOffered(c, i) && !EditOffered(c, i)
  {
  }

  /** After an edit at k every later block is restricted and cannot be edited, while the
      restriction of blocks up to k is what it was. */
  lemma EditRestrictsSuffix(p: Primitives, c: seq<Block>, k: nat, txs: seq<Transaction>)
    requires k < |c|
    ensures forall i :: k < i < |c| ==> Restricted(EditBlock(p, c, k, txs), i)
    ensures forall i :: k < i < |c| ==> !EditOffered(EditBlock(p, c, k, txs), i)
    ensures forall i :: 0 <= i <= k ==> Restricted(EditBlock(p, c, k, txs), i) == Restricted(c, i)
  {
  }

  /** After re-mining block k, block k itself is trusted again but every block from k + 2
      on is restricted, because k + 1 onwards were only relinked. */
  lemma ReMineRestriction(p: Primitives, c: seq<Block>, k: nat, difficulty: nat, w: nat)
    requires k < |c|
    requires Terminates(p, ReMineHeader(c, k), difficulty, w)
    ensures forall i :: k + 1 < i < |c| ==> Restricted(ReMineBlock(p, c, k, difficulty, w), i)
    ensures forall i :: 0 <= i <= k ==> Restricted(ReMineBlock(p, c, k, difficulty, w), i) == Restricted(c, i)
    ensures k + 1 < |c| ==> Restricted(ReMineBlock(p, c, k, difficulty, w), k + 1) == Restricted(c, k)
  {
  }

  /** The tamper is remembered only by the flags: after an edit at a block the editor may
      touch (k > 0, genesis still marked valid, the blocks before k intact), a later
      `validateBlockchain` accepts the chain and marks every block valid, so no block is
      restricted any more. */
  lemma {:induction false} TamperForgottenByValidation(p: Primitives, c: seq<Block>, k: nat, txs: seq<Transaction>)
    requires 0 < k < |c|
    requires IntactBefore(p, c, k)
    requires c[0].isValid == Some(true)
    ensures ValidChain(p, EditBlock(p, c, k, txs))
    ensures forall i :: 0 <= i < |c| ==> Annotate(p, EditBlock(p, c, k, txs))[i].isValid == Some(true)
    ensures forall i :: 0 < i < |c| ==> EditOffered(Annotate(p, EditBlock(p, c, k, txs)), i)
  {
    var r := EditBlock(p, c, k, txs);
    EditValidIff(p, c, k, txs);
    AnnotateFlagsMatchVerdict(p, r);
    var a := Annotate(p, r);
    assert r[0] == r[..k][0];
    assert a[0] == r[0];
  }
}

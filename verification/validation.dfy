/** `validateChain` of src/utils/blockchain.ts. */
module Validation {
  import opened Types
  import opened Hashing

  /** Block i names its predecessor's hash. */
  predicate LinkOk(c: seq<Block>, i: nat)
    requires 1 <= i < |c|
  {
    c[i].previousHash == c[i - 1].hash
  }

  /** The block's stored hash is the one its header calls for. */
  predicate HashOk(p: Primitives, b: Block) {
    b.hash == BlockHash(p, b)
  }

  /** Both checks the validator applies to block i. */
  predicate BlockChecks(p: Primitives, c: seq<Block>, i: nat)
    requires 1 <= i < |c|
  {
    LinkOk(c, i) && HashOk(p, c[i])
  }

  /** Every block after the first passes both checks. Block 0 is never examined. */
  predicate ValidChain(p: Primitives, c: seq<Block>) {
    forall i :: 1 <= i < |c| ==> BlockChecks(p, c, i)
  }

  /** The blocks before slot k pass both checks and block k links to its predecessor:
      what an edit or re-mine at k needs from the chain it starts from. */
  predicate IntactBefore(p: Primitives, c: seq<Block>, k: nat)
    requires k < |c|
  {
    && (forall i :: 1 <= i < k ==> BlockChecks(p, c, i))
    && (1 <= k ==> LinkOk(c, k))
  }

  /** The scan of `validateChain`: from index 1 upwards, stop with false at the first
      broken link or stale hash. */
  method ValidateChain(p: Primitives, c: seq<Block>) returns (ok: bool)
    ensures ok == ValidChain(p, c)
  {
    var i := 1;
    while i < |c|
      invariant 1 <= i
      invariant forall j :: 1 <= j < i && j < |c| ==> BlockChecks(p, c, j)
    {
      var current := c[i];
      var previous := c[i - 1];
      if current.previousHash != previous.hash {
        assert !BlockChecks(p, c, i);
        return false;
      }
      var hash := CalculateHash(p, Header(current.index, current.previousHash, current.timestamp,
                                          current.transactions, current.nonce));
      if current.hash != hash {
        assert !BlockChecks(p, c, i);
        return false;
      }
      i := i + 1;
    }
    return true;
  }

  /** An empty chain and a lone genesis block pass, whatever they hold. */
  lemma ShortChainValid(p: Primitives, c: seq<Block>)
    requires |c| <= 1
    ensures ValidChain(p, c)
  {
  }

  /** The verdict reads no cached flag: chains differing only in `isValid` and
      `isMining` are judged alike. */
  lemma {:induction false} ValidChainIgnoresFlags(p: Primitives, a: seq<Block>, b: seq<Block>)
    requires SameButFlags(a, b)
    ensures ValidChain(p, a) == ValidChain(p, b)
  {
    forall i | 1 <= i < |a|
      ensures BlockChecks(p, a, i) == BlockChecks(p, b, i)
    {
      assert Strip(a[i]) == Strip(b[i]) && Strip(a[i - 1]) == Strip(b[i - 1]);
      assert HeaderOf(a[i]) == HeaderOf(b[i]);
    }
  }

  /** A valid chain stays valid when a block that links to its last block and carries its
      own hash is appended. */
  lemma AppendValid(p: Primitives, c: seq<Block>, b: Block)
    requires ValidChain(p, c) && |c| > 0
    requires b.previousHash == c[|c| - 1].hash && HashOk(p, b)
    ensures ValidChain(p, c + [b])
  {
    var c' := c + [b];
    forall i | 1 <= i < |c'|
      ensures BlockChecks(p, c', i)
    {
      if i < |c| {
        assert BlockChecks(p, c, i);
      }
    }
  }
}

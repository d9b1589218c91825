/** The forward relink/rehash loop shared by `handleBlockEdit` and `reMineBlock`, and the
    tamper edit itself (src/components/Blockchain.tsx). */
module Cascade {
  import opened Types
  import opened Hashing

  /** `updated` is `original` rebuilt on top of `prevHash`: same index, timestamp,
      transactions, nonce and `isMining`, the new link, a hash recomputed from those
      fields, and `isValid` forced to false. */
  predicate RelinkedFrom(p: Primitives, original: Block, updated: Block, prevHash: string) {
    && updated.index == original.index
    && updated.timestamp == original.timestamp
    && updated.transactions == original.transactions
    && updated.nonce == original.nonce
    && updated.isMining == original.isMining
    && updated.previousHash == prevHash
    && updated.hash == BlockHash(p, updated)
    && updated.isValid == Some(false)
  }

  /** One iteration of the forward loop. */
  function Relink(p: Primitives, b: Block, prevHash: string): (r: Block)
    ensures RelinkedFrom(p, b, r, prevHash)
  {
    var moved := b.(isValid := Some(false), previousHash := prevHash);
    moved.(hash := BlockHash(p, moved))
  }

  /** The loop `for (let i = start; i < newChain.length; i++)`: each block from `start` on
      is relinked to the block before it, as already updated. */
  function RelinkFrom(p: Primitives, c: seq<Block>, start: nat): (r: seq<Block>)
    requires 1 <= start <= |c|
    ensures |r| == |c|
    ensures r[..start] == c[..start]
    ensures forall i :: start <= i < |c| ==> RelinkedFrom(p, c[i], r[i], r[i - 1].hash)
    decreases |c| - start
  {
    if start == |c| then c
    else RelinkFrom(p, c[start := Relink(p, c[start], c[start - 1].hash)], start + 1)
  }

  /** The block at slot k with its transactions replaced and its hash recomputed under
      its old nonce, flagged invalid. */
  function Tampered(p: Primitives, b: Block, txs: seq<Transaction>): (r: Block)
    ensures r.index == b.index && r.timestamp == b.timestamp && r.previousHash == b.previousHash
    ensures r.nonce == b.nonce && r.isMining == b.isMining
    ensures r.transactions == txs
    ensures r.hash == BlockHash(p, r)
    ensures r.isValid == Some(false)
  {
    var edited := b.(transactions := txs);
    edited.(hash := BlockHash(p, edited), isValid := Some(false))
  }

  /** `handleBlockEdit(k, txs)`: tamper with block k, then relink and rehash every later
      block. No proof of work is redone. */
  function EditBlock(p: Primitives, c: seq<Block>, k: nat, txs: seq<Transaction>): (r: seq<Block>)
    requires k < |c|
    ensures |r| == |c|
    ensures r[..k] == c[..k]
    ensures r[k].index == c[k].index && r[k].timestamp == c[k].timestamp
    ensures r[k].previousHash == c[k].previousHash && r[k].nonce == c[k].nonce
    ensures r[k].isMining == c[k].isMining
    ensures r[k].transactions == txs
    ensures r[k].hash == BlockHash(p, r[k])
    ensures r[k].isValid == Some(false)
    ensures forall i :: k < i < |c| ==> RelinkedFrom(p, c[i], r[i], r[i - 1].hash)
  {
    var c' := c[k := Tampered(p, c[k], txs)];
    var r := RelinkFrom(p, c', k + 1);
    assert r[k] == r[..k + 1][k] == c'[k];
    r
  }
}

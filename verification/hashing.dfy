/** `calculateHash` and `generateGenesisBlock` of src/utils/blockchain.ts. */
module Hashing {
  import opened Types
  import Decimal

  /** The two library calls the engine relies on, left uninterpreted: crypto-js's
      `SHA256(s).toString()` and `JSON.stringify` on a transaction list. Nothing is
      assumed of them, not even collision resistance. */
  datatype Primitives = Primitives(sha256: string -> string, stringify: seq<Transaction> -> string)

  /** The string that is hashed: index, previous hash, timestamp, serialised
      transactions and nonce, concatenated in that order with no separator. */
  function Preimage(p: Primitives, h: Header): string {
    Decimal.Show(h.index) + h.previousHash + Decimal.Show(h.timestamp)
      + p.stringify(h.transactions) + Decimal.Show(h.nonce)
  }

  function CalculateHash(p: Primitives, h: Header): string {
    p.sha256(Preimage(p, h))
  }

  /** The hash a block's stored fields call for. */
  function BlockHash(p: Primitives, b: Block): string {
    CalculateHash(p, HeaderOf(b))
  }

  /** The hash reads the five header fields and nothing else: a block's own `hash`,
      `isValid` and `isMining` never influence it. */
  lemma BlockHashIgnoresCachedFields(p: Primitives, b: Block, hash: string, isMining: Option<bool>, isValid: Option<bool>)
    ensures BlockHash(p, b.(hash := hash, isMining := isMining, isValid := isValid)) == BlockHash(p, b)
  {
  }

  /** Because fields are joined without separators, the boundary between the index
      and the previous hash is not recorded: block 1 on top of "2" + x and block 12
      on top of x are hashed from the same string. */
  lemma PreimageAmbiguous(p: Primitives, x: string, timestamp: nat, txs: seq<Transaction>, nonce: nat)
    ensures Header(1, "2" + x, timestamp, txs, nonce) != Header(12, x, timestamp, txs, nonce)
    ensures Preimage(p, Header(1, "2" + x, timestamp, txs, nonce)) == Preimage(p, Header(12, x, timestamp, txs, nonce))
    ensures CalculateHash(p, Header(1, "2" + x, timestamp, txs, nonce)) == CalculateHash(p, Header(12, x, timestamp, txs, nonce))
  {
  }

  /** Block 0, stamped with the wall-clock time `now` the caller supplies. */
  function GenesisBlock(p: Primitives, now: nat): (g: Block)
    ensures g.index == 0 && g.previousHash == "0" && g.timestamp == now
    ensures g.transactions == [] && g.nonce == 0
    ensures g.hash == BlockHash(p, g)
    ensures g.isValid == Some(true) && g.isMining == Some(false)
  {
    var header := Header(0, "0", now, [], 0);
    Block(header.index, header.timestamp, header.transactions, header.previousHash,
          CalculateHash(p, header), header.nonce, Some(false), Some(true))
  }
}

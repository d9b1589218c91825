/** The records of the simulator: transactions, blocks and the component's state.
    Mirrors the interfaces declared in src/types/blockchain.ts. */
module Types {

  /** An optional field: `undefined` in the source is `None` here. */
  datatype Option<+T> = None | Some(value: T)

  /** A pool or block transaction. `amount` is a JavaScript number the engine never
      computes with; it only reaches the hash through the transaction serialiser. */
  datatype Transaction = Transaction(id: string, from: string, to: string, amount: real, timestamp: int)

  /** A block. `isMining` and `isValid` are optional, cached UI flags. */
  datatype Block = Block(
    index: nat,
    timestamp: nat,
    transactions: seq<Transaction>,
    previousHash: string,
    hash: string,
    nonce: nat,
    isMining: Option<bool>,
    isValid: Option<bool>)

  /** The fields a block's hash is computed over: `Omit<Block, 'hash' | 'isValid' | 'isMining'>`. */
  datatype Header = Header(index: nat, previousHash: string, timestamp: nat, transactions: seq<Transaction>, nonce: nat)

  /** The chain, the pool of pending transactions and the difficulty held by the component. */
  datatype BlockchainState = BlockchainState(chain: seq<Block>, pendingTransactions: seq<Transaction>, miningDifficulty: nat)

  function HeaderOf(b: Block): Header {
    Header(b.index, b.previousHash, b.timestamp, b.transactions, b.nonce)
  }

  /** A block with both cached flags erased. */
  function Strip(b: Block): Block {
    b.(isMining := None, isValid := None)
  }

  /** Two chains that differ at most in their cached `isValid` / `isMining` flags. */
  predicate SameButFlags(a: seq<Block>, b: seq<Block>) {
    |a| == |b| && forall i :: 0 <= i < |a| ==> Strip(a[i]) == Strip(b[i])
  }

  /** Every block's `index` is its position in the chain. */
  predicate IndicesSequential(c: seq<Block>) {
    forall i :: 0 <= i < |c| ==> c[i].index == i
  }
}

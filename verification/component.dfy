/** The chain transformations the `Blockchain` component performs inside its state
    updaters (src/components/Blockchain.tsx), lifted out as functions over snapshots,
    and the rule that decides which blocks may be edited or re-mined. */
module Component {
  import opened Types
  import opened Hashing
  import opened Mining
  import opened Validation
  import opened Cascade

  /** The difficulty the component starts with. */
  const InitialDifficulty: nat := 4

  /** The component's initial state: the genesis block alone and an empty pool. */
  function InitialState(p: Primitives, now: nat): (st: BlockchainState)
    ensures |st.chain| == 1 && st.chain[0] == GenesisBlock(p, now)
    ensures st.pendingTransactions == [] && st.miningDifficulty == 4
    ensures ValidChain(p, st.chain) && IndicesSequential(st.chain)
  {
    BlockchainState([GenesisBlock(p, now)], [], InitialDifficulty)
  }

  /** Why `mineNewBlock` declined to mine. */
  datatype Refusal = AlreadyMining | NoPendingTransactions

  /** The state after `mineNewBlock`, and the refusal it reported, if any. */
  datatype MineOutcome = MineOutcome(state: BlockchainState, refusal: Option<Refusal>)

  /** The header `mineNewBlock` mines: on top of the last block, holding the whole pool. */
  function NextHeader(st: BlockchainState, now: nat): Header
    requires |st.chain| > 0
  {
    var last := st.chain[|st.chain| - 1];
    Header(last.index + 1, last.hash, now, st.pendingTransactions, 0)
  }

  /** `mineNewBlock`, with `isMining` the component's in-progress flag and `now` the
      wall-clock time. When it mines, the search stops at some accepted nonce, here the
      ghost `w`. */
  function MineNewBlock(p: Primitives, st: BlockchainState, isMining: bool, now: nat, ghost w: nat): (r: MineOutcome)
    requires |st.chain| > 0
    requires !isMining && |st.pendingTransactions| > 0 ==>
               Terminates(p, NextHeader(st, now), st.miningDifficulty, w)
    ensures isMining ==> r.refusal == Some(AlreadyMining)
    ensures !isMining && |st.pendingTransactions| == 0 ==> r.refusal == Some(NoPendingTransactions)
    ensures !isMining && |st.pendingTransactions| > 0 ==> r.refusal == None
    ensures r.refusal.Some? ==> r.state == st
    ensures r.refusal.None? ==>
              var c := st.chain;
              var c' := r.state.chain;
              && |c'| == |c| + 1
              && c'[..|c|] == c
              && c'[|c|].index == c[|c| - 1].index + 1
              && c'[|c|].previousHash == c[|c| - 1].hash
              && c'[|c|].timestamp == now
              && c'[|c|].transactions == st.pendingTransactions
              && c'[|c|].hash == BlockHash(p, c'[|c|])
              && MeetsDifficulty(c'[|c|].hash, st.miningDifficulty)
              && 1 <= c'[|c|].nonce
              && (forall n :: 1 <= n < c'[|c|].nonce ==> !Solves(p, NextHeader(st, now), st.miningDifficulty, n))
              && c'[|c|].isValid == Some(true)
              && c'[|c|].isMining == Some(false)
              && r.state.pendingTransactions == []
              && r.state.miningDifficulty == st.miningDifficulty
  {
    if isMining then MineOutcome(st, Some(AlreadyMining))
    else if |st.pendingTransactions| == 0 then MineOutcome(st, Some(NoPendingTransactions))
    else
      var h := NextHeader(st, now);
      var m := MineBlock(p, h, st.miningDifficulty, w);
      var b := Block(h.index, h.timestamp, h.transactions, h.previousHash, m.hash, m.nonce, Some(false), Some(true));
      assert HeaderOf(b) == h.(nonce := m.nonce);
      MineOutcome(BlockchainState(st.chain + [b], [], st.miningDifficulty), None)
  }

  /** The header `reMineBlock` mines for slot k: linked to the predecessor's current hash,
      or to "0" at slot 0, with the block's own index, timestamp and transactions. */
  function ReMineHeader(c: seq<Block>, k: nat): Header
    requires k < |c|
  {
    Header(c[k].index, if k == 0 then "0" else c[k - 1].hash, c[k].timestamp, c[k].transactions, 0)
  }

  /** `reMineBlock(k)` on one snapshot of the chain: redo the proof of work for block k,
      then relink and rehash every later block without mining it. */
  function ReMineBlock(p: Primitives, c: seq<Block>, k: nat, difficulty: nat, ghost w: nat): (r: seq<Block>)
    requires k < |c|
    requires Terminates(p, ReMineHeader(c, k), difficulty, w)
    ensures |r| == |c|
    ensures r[..k] == c[..k]
    ensures r[k].previousHash == (if k == 0 then "0" else c[k - 1].hash)
    ensures r[k].index == c[k].index && r[k].timestamp == c[k].timestamp
    ensures r[k].transactions == c[k].transactions
    ensures r[k].hash == BlockHash(p, r[k])
    ensures MeetsDifficulty(r[k].hash, difficulty)
    ensures 1 <= r[k].nonce
    ensures forall n :: 1 <= n < r[k].nonce ==> !Solves(p, ReMineHeader(c, k), difficulty, n)
    ensures r[k].isValid == Some(true) && r[k].isMining == Some(false)
    ensures forall i :: k < i < |c| ==> RelinkedFrom(p, c[i], r[i], r[i - 1].hash)
  {
    var h := ReMineHeader(c, k);
    var m := MineBlock(p, h, difficulty, w);
    var b := Block(h.index, h.timestamp, h.transactions, h.previousHash, m.hash, m.nonce, Some(false), Some(true));
    assert HeaderOf(b) == h.(nonce := m.nonce);
    var c' := c[k := b];
    var r := RelinkFrom(p, c', k + 1);
    assert r[k] == r[..k + 1][k] == b;
    r
  }

  /** Block i with its `isValid` flag set to the verdict of both checks. */
  function Judged(p: Primitives, c: seq<Block>, i: nat): Block
    requires 1 <= i < |c|
  {
    c[i].(isValid := Some(BlockChecks(p, c, i)))
  }

  /** The flags `validateBlockchain` writes: block 0 as it was, every later block judged
      on its own by both checks. */
  function Annotate(p: Primitives, c: seq<Block>): seq<Block> {
    seq(|c|, i requires 0 <= i < |c| => if i == 0 then c[0] else Judged(p, c, i))
  }

  /** Annotation leaves block 0 alone and, for every later block, changes only `isValid`,
      setting it to whether the block links to its predecessor and its hash recomputes. */
  lemma AnnotateSpec(p: Primitives, c: seq<Block>)
    ensures |Annotate(p, c)| == |c|
    ensures |c| > 0 ==> Annotate(p, c)[0] == c[0]
    ensures forall i :: 1 <= i < |c| ==>
              && Strip(Annotate(p, c)[i]) == Strip(c[i])
              && Annotate(p, c)[i].isMining == c[i].isMining
              && Annotate(p, c)[i].isValid == Some(c[i].previousHash == c[i - 1].hash && c[i].hash == BlockHash(p, c[i]))
  {
  }

  /** `validateBlockchain`: the scan that rewrites every `isValid` flag from index 1 on,
      without stopping at the first failure, and reports the overall verdict. */
  method ValidateBlockchain(p: Primitives, c: seq<Block>) returns (annotated: seq<Block>, ok: bool)
    ensures annotated == Annotate(p, c)
    ensures ok == ValidChain(p, c)
  {
    ok := true;
    var newChain := c;
    var i := 1;
    while i < |newChain|
      invariant 1 <= i
      invariant |newChain| == |c|
      invariant |c| > 0 ==> newChain[0] == c[0]
      invariant forall j :: i <= j < |c| ==> newChain[j] == c[j]
      invariant forall j :: 1 <= j < i && j < |c| ==> newChain[j] == Judged(p, c, j)
      invariant ok <==> forall j :: 1 <= j < i && j < |c| ==> BlockChecks(p, c, j)
    {
      var current := newChain[i];
      var previous := newChain[i - 1];
      assert current == c[i];
      assert previous.hash == c[i - 1].hash;
      if current.previousHash != previous.hash {
        ok := false;
        newChain := newChain[i := current.(isValid := Some(false))];
      } else {
        var hash := CalculateHash(p, Header(current.index, current.previousHash, current.timestamp,
                                            current.transactions, current.nonce));
        if current.hash != hash {
          ok := false;
          newChain := newChain[i := current.(isValid := Some(false))];
        } else {
          newChain := newChain[i := current.(isValid := Some(true))];
        }
      }
      assert newChain[i] == Judged(p, c, i);
      i := i + 1;
    }
    assert newChain == Annotate(p, c);
    annotated := newChain;
  }

  /** Block i is shown as restricted when some earlier block is not marked valid; an
      absent flag counts as not valid. */
  predicate Restricted(c: seq<Block>, i: nat)
    requires i < |c|
  {
    exists j :: 0 <= j < i && c[j].isValid != Some(true)
  }

  /** The editor is offered for a block other than genesis that is not restricted. */
  predicate EditOffered(c: seq<Block>, i: nat)
    requires i < |c|
  {
    i > 0 && !Restricted(c, i)
  }

  /** Re-mining is offered for every block other than genesis. */
  predicate ReMineOffered(c: seq<Block>, i: nat)
    requires i < |c|
  {
    i > 0
  }

  /** The position of the first block not marked valid, or the length if there is none. */
  function FirstUntrusted(c: seq<Block>): (n: nat)
    ensures n <= |c|
    ensures forall j :: 0 <= j < n ==> c[j].isValid == Some(true)
    ensures n < |c| ==> c[n].isValid != Some(true)
  {
    if c == [] || c[0].isValid != Some(true) then 0 else 1 + FirstUntrusted(c[1..])
  }
}

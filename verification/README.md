# Teaching blockchain engine in Dafny

This project models the core of an interactive blockchain simulator: the hashing,
proof-of-work mining and chain validation functions of `src/utils/blockchain.ts`, and
the chain transformations the `Blockchain` React component performs inside its state
updaters — tamper edit with forward relink, appending a mined block, re-mining one
block, the per-block `isValid` annotation, and the rule deciding which blocks are
restricted, editable and re-minable.

Modules, one per concern:

- `Types` (`types.dfy`): `Transaction`, `Block`, the hashed `Header`, `BlockchainState`;
  the optional `isValid` / `isMining` flags are `Option<bool>`.
- `Decimal` (`decimal.dfy`): JavaScript's decimal rendering of the integer fields that
  `calculateHash` concatenates.
- `Hashing` (`hashing.dfy`): `calculateHash` and `generateGenesisBlock`. The SHA-256
  digest and `JSON.stringify` of a transaction list are function-valued parameters
  (`Primitives`); nothing is assumed about them.
- `Mining` (`mining.dfy`): `mineBlock` as a search for the least accepted nonce.
- `Validation` (`validation.dfy`): `validateChain`, as a loop proved equal to a declarative
  predicate.
- `Cascade` (`cascade.dfy`): the forward relink/rehash loop and `handleBlockEdit`.
- `Component` (`component.dfy`): `mineNewBlock`, `reMineBlock`, `validateBlockchain` and
  the restricted / editable / re-minable rule.
- `Integrity` (`integrity.dfy`): lemmas relating the transformations to validity,
  indices and the flags.

The mining loop has no bound. The model does not claim it terminates. The nonce is a
JavaScript double: once it reaches 2^53, `nonce++` leaves it at 2^53, and the loop
hashes that nonce forever. So the loop stops exactly when some nonce from 1 to 2^53 is
accepted. `MineBlock` takes such a nonce `w` as a ghost. The result is the least
accepted nonce from 1 upwards, and it is never above 2^53.
`MineBlockIndependentOfWitness` shows that the result does not depend on `w`.

Two behaviours of the code are easy to miss:

- Validation never checks block 0's own hash, and it never checks difficulty. After an
  edit, every later block is relinked and rehashed. So an edited chain whose prefix was
  intact still passes `validateChain` (`EditValidIff`). Only the cached `isValid` flags
  record the tamper. A later `validateBlockchain` sets them all back to true
  (`TamperForgottenByValidation`).
- An out-of-range index for edit or re-mine is not guarded against. The component only
  passes indices of rendered blocks, so the model requires `k < |c|`.

## Model

| member | source | states |
|---|---|---|
| Decimal.Show | src/utils/blockchain.ts:7-11 | a non-negative number renders as a non-empty digit string with no leading zero; one character exactly below 10 |
| Decimal.ValueShow | src/utils/blockchain.ts:7-11 | reading the rendered digits back gives the number: the rendering loses nothing |
| Decimal.ShowInjective | src/utils/blockchain.ts:7-11 | distinct indices, timestamps or nonces render to distinct strings |
| Hashing.BlockHashIgnoresCachedFields | src/utils/blockchain.ts:5-13 | the hash of a block does not change when its stored hash, isValid or isMining change |
| Hashing.PreimageAmbiguous | src/utils/blockchain.ts:5-13 | fields are joined without separators, so two distinct headers (index 1 over "2"+x, index 12 over x) hash the same |
| Hashing.GenesisBlock | src/utils/blockchain.ts:15-30 | block 0 has index 0, previousHash "0", no transactions, nonce 0, the caller's time, a hash equal to its own header's hash, isValid true and isMining false |
| Mining.ZeroPrefix | src/utils/blockchain.ts:36 | the required prefix is exactly difficulty characters, all '0' |
| Mining.MeetsDifficultyIff | src/utils/blockchain.ts:43 | a hash passes the prefix test iff it is at least difficulty long and its first difficulty characters are '0' |
| Mining.MineFrom | src/utils/blockchain.ts:40-43 | continuing the loop from nonce n, with every smaller nonce already rejected, returns the least accepted nonce, between n and any accepted bound no greater than 2^53 |
| Mining.MineBlock | src/utils/blockchain.ts:32-46 | the result's nonce is at least 1 and at most 2^53, its hash is the header's hash under that nonce and starts with difficulty zeros, and every nonce from 1 below it fails the test |
| Mining.LeastSolutionUnique | src/utils/blockchain.ts:40-45 | two results that both meet the search specification are equal |
| Mining.MineBlockIndependentOfWitness | src/utils/blockchain.ts:40-45 | the mined result does not depend on which accepted nonce bounds the search |
| Mining.MineBlockIgnoresNonce | src/utils/blockchain.ts:36-43 | the input block's own nonce field never affects the result |
| Mining.MineBlockDifficultyZero | src/utils/blockchain.ts:36-43 | with difficulty 0 the first nonce tried, 1, is returned |
| Mining.MeetsDifficultyDownward | src/utils/blockchain.ts:36-43 | a hash meeting a difficulty meets every lower difficulty |
| Mining.MineBlockMonotone | src/utils/blockchain.ts:36-45 | raising the difficulty never yields a smaller nonce |
| Validation.ValidateChain | src/utils/blockchain.ts:48-71 | returns true iff every block from index 1 names its predecessor's hash and stores the hash its header calls for |
| Validation.ShortChainValid | src/utils/blockchain.ts:49 | chains of length 0 or 1 always pass; block 0's own hash is never checked |
| Validation.ValidChainIgnoresFlags | src/utils/blockchain.ts:53-66 | chains that differ only in isValid/isMining flags get the same verdict |
| Validation.AppendValid | src/components/Blockchain.tsx:92-98 | appending a block that links to the last block and carries its own hash keeps a valid chain valid |
| Cascade.Relink | src/components/Blockchain.tsx:43-52 | one loop step keeps index, timestamp, transactions, nonce and isMining, takes the given link, recomputes the hash and sets isValid false |
| Cascade.RelinkFrom | src/components/Blockchain.tsx:42-53 | the loop keeps the length and every block before its start, and rebuilds each later block on its updated predecessor's hash |
| Cascade.Tampered | src/components/Blockchain.tsx:27-39 | the edited block takes the new transactions, keeps every other header field, gets the hash of its new header under its old nonce, and isValid false |
| Cascade.EditBlock | src/components/Blockchain.tsx:24-56 | the edit keeps the length and every block before k, tampers block k, and relinks, rehashes and invalidates every later block |
| Component.InitialState | src/components/Blockchain.tsx:11-13 | the component starts with the genesis block alone, an empty pool and difficulty 4; that chain is valid with sequential indices |
| Component.MineNewBlock | src/components/Blockchain.tsx:65-100 | refuses, leaving state unchanged, when already mining or the pool is empty; otherwise appends exactly one block (next index, last hash as link, the pool as transactions, least accepted nonce and its hash, isValid true) and empties the pool |
| Component.ReMineBlock | src/components/Blockchain.tsx:123-161 | keeps blocks before k; block k links to "0" or its predecessor's hash, keeps index, timestamp and transactions, takes the least accepted nonce and its hash, isValid true, isMining false; later blocks are relinked, rehashed and invalidated |
| Component.AnnotateSpec | src/components/Blockchain.tsx:179-209 | annotation leaves block 0 alone and changes only isValid of later blocks, to whether the link matches and the hash recomputes |
| Component.ValidateBlockchain | src/components/Blockchain.tsx:179-209 | the scan judges every block independently without stopping, writes exactly those flags, and its verdict equals validateChain's |
| Component.FirstUntrusted | src/components/Blockchain.tsx:235 | the position of the first block whose isValid is not true: all before it are true |
| Integrity.CascadeChecks | src/components/Blockchain.tsx:42-53 | every block rebuilt by the forward loop passes both validator checks |
| Integrity.EditValidIff | src/components/Blockchain.tsx:24-56 | the edited chain passes validateChain iff the blocks before k passed and block k linked to its predecessor |
| Integrity.ReMineValidIff | src/components/Blockchain.tsx:123-161 | the re-mined chain passes validateChain iff the blocks before k passed |
| Integrity.MineNewBlockValidIff | src/components/Blockchain.tsx:65-100 | mining a new block never changes the verdict of validateChain |
| Integrity.MinedChainStaysValid | src/components/Blockchain.tsx:76-98 | one mining step keeps a valid chain with sequential indices valid with sequential indices |
| Integrity.EditKeepsIndices | src/components/Blockchain.tsx:24-56 | an edit keeps every block's index equal to its position |
| Integrity.ReMineKeepsIndices | src/components/Blockchain.tsx:123-161 | a re-mine keeps every block's index equal to its position |
| Integrity.AnnotateKeepsVerdict | src/components/Blockchain.tsx:179-209 | annotation only changes flags, so validateChain's verdict on the annotated chain is unchanged |
| Integrity.AnnotateIdempotent | src/components/Blockchain.tsx:179-209 | annotating an annotated chain changes nothing |
| Integrity.AnnotateFlagsMatchVerdict | src/components/Blockchain.tsx:179-209 | the verdict is true iff every annotated block after genesis is marked valid |
| Integrity.RestrictedIff | src/components/Blockchain.tsx:235 | block i is restricted iff the first block not marked valid lies before i |
| Integrity.GatingRule | src/components/Blockchain.tsx:234-242 | editing is offered exactly for blocks 1 through the first block not marked valid; restricted blocks cannot be edited but are still passed `onReMine` |
| Integrity.EditRestrictsSuffix | src/components/Blockchain.tsx:38-53 | after an edit at k every later block is restricted and not editable; restriction of blocks up to k is unchanged |
| Integrity.ReMineRestriction | src/components/Blockchain.tsx:141-161 | after a re-mine at k, blocks from k+2 on are restricted, block k+1 is restricted iff block k was before, and blocks up to k are unchanged |
| Integrity.TamperForgottenByValidation | src/components/Blockchain.tsx:24-56 | after an editor-permitted edit on an intact prefix, the chain still passes validateChain and a later annotation marks every block valid and editable |

## Left out

- SHA-256 and its hex rendering (crypto-js) and `JSON.stringify`: they are parameters. No property of them, not even collision resistance, is assumed.
- Decimal.Show: renders only non-negative integers. Negative values, fractions and numbers at or above 10^21 are not modelled; JavaScript renders those differently. Index, timestamp and nonce are natural numbers here.
- Transaction amounts are `real` values that are only carried, never computed with. The float parsing in the editing and pool forms is not modelled.
- Wall-clock time (`Date.now`) and random transaction ids (`Math.random`) are parameters (`now`) or plain field values.
- Mining.MineBlock: termination is not proved, because proof of work has no bound. The caller names an accepted nonce as a ghost; without one the source loops forever, and the model has no result for that case.
- React plumbing: `useState`/`useCallback`, the `setTimeout` and Promise wrappers, the toasts and the `try`/`catch` branches.
- The transient `isMining = true` marking before a re-mine (Blockchain.tsx:117-121).
- Component.MineNewBlock: takes the component's in-progress flag as input but does not return it. The source sets that flag while mining and clears it in a `finally`.
- reMineBlock reads the chain from its closure but writes to the updater's `prev`. That is an asynchrony issue, so the model uses a single snapshot. The same holds for mineNewBlock.
- Component.ReMineBlock and Cascade.EditBlock: the source does not check the index. An out-of-range index builds a malformed sparse array. The model requires an existing index, which is what the rendered buttons pass.
- Component.MineNewBlock: an empty chain would crash the source before mining starts. The model requires a non-empty chain; the chain always holds at least the genesis block.
- `addTransaction` (Blockchain.tsx:16-22) only appends to the pool, and it carries no chain logic.
- All rendering in Block.tsx and TransactionPool.tsx, including the status styling.
- Block.tsx:141 and 147 also gate the Re-mine button on the block's own flags: it is shown only when the block's `isValid` is not true and disabled while `isMining`. The model stops at the `onReMine` callback the component passes.
- Transaction amounts can be NaN in the source: Block.tsx:42 applies `parseFloat` to a cleared edit field, and `JSON.stringify` renders NaN as `null`. A `real` cannot hold NaN. The hash still sees whatever the serialiser parameter makes of the amount.

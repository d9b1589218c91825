/** `mineBlock` of src/utils/blockchain.ts: the proof-of-work nonce search. */
module Mining {
  import opened Types
  import opened Hashing

  /** What `mineBlock` returns. */
  datatype Mined = Mined(hash: string, nonce: nat)

  /** `'0'.repeat(difficulty)`. */
  function ZeroPrefix(difficulty: nat): (z: string)
    ensures |z| == difficulty
    ensures forall i :: 0 <= i < |z| ==> z[i] == '0'
  {
    seq(difficulty, _ => '0')
  }

  /** `s.startsWith(prefix)`. */
  predicate StartsWith(s: string, prefix: string) {
    |prefix| <= |s| && s[..|prefix|] == prefix
  }

  /** The proof-of-work test applied to a hash. */
  predicate MeetsDifficulty(hash: string, difficulty: nat) {
    StartsWith(hash, ZeroPrefix(difficulty))
  }

  /** Nonce `n` makes the header's hash meet the difficulty. */
  predicate Solves(p: Primitives, h: Header, difficulty: nat, n: nat) {
    MeetsDifficulty(CalculateHash(p, h.(nonce := n)), difficulty)
  }

  /** 2^53: the nonce is a JavaScript double, and at this value `nonce++` rounds back to
      itself, so the loop never tries a larger nonce and re-hashes this one forever. */
  const NonceStall: nat := 0x20_0000_0000_0000

  /** `w` is a nonce the search reaches and accepts: the search terminates. */
  predicate Terminates(p: Primitives, h: Header, difficulty: nat, w: nat) {
    1 <= w <= NonceStall && Solves(p, h, difficulty, w)
  }

  /** The search specification: `m` carries the least nonce from 1 upwards that solves
      the header, together with that nonce's hash. */
  predicate IsLeastSolution(p: Primitives, h: Header, difficulty: nat, m: Mined) {
    && 1 <= m.nonce
    && m.hash == CalculateHash(p, h.(nonce := m.nonce))
    && MeetsDifficulty(m.hash, difficulty)
    && forall n :: 1 <= n < m.nonce ==> !Solves(p, h, difficulty, n)
  }

  /** One pass of the do-while loop, from nonce `n` on. The ghost `w` is a solving nonce
      not below `n`; it only bounds the recursion. */
  function MineFrom(p: Primitives, h: Header, difficulty: nat, n: nat, ghost w: nat): (m: Mined)
    requires 1 <= n <= w <= NonceStall && Solves(p, h, difficulty, w)
    requires forall k :: 1 <= k < n ==> !Solves(p, h, difficulty, k)
    ensures IsLeastSolution(p, h, difficulty, m)
    ensures n <= m.nonce <= w
    decreases w - n
  {
    var hash := CalculateHash(p, h.(nonce := n));
    if MeetsDifficulty(hash, difficulty) then Mined(hash, n)
    else MineFrom(p, h, difficulty, n + 1, w)
  }

  /** `mineBlock(block, difficulty)`. The loop starts at nonce 1 and ignores the header's
      own nonce. The loop stops exactly when some nonce from 1 to 2^53 is accepted; the
      caller names such a nonce `w` as a ghost. */
  function MineBlock(p: Primitives, h: Header, difficulty: nat, ghost w: nat): (m: Mined)
    requires Terminates(p, h, difficulty, w)
    ensures 1 <= m.nonce <= w
    ensures m.nonce <= NonceStall
    ensures m.hash == CalculateHash(p, h.(nonce := m.nonce))
    ensures MeetsDifficulty(m.hash, difficulty)
    ensures forall n :: 1 <= n < m.nonce ==> !Solves(p, h, difficulty, n)
  {
    MineFrom(p, h, difficulty, 1, w)
  }

  /** A hash meets difficulty d exactly when its first d characters are all '0'. */
  lemma MeetsDifficultyIff(hash: string, difficulty: nat)
    ensures MeetsDifficulty(hash, difficulty) <==>
              difficulty <= |hash| && forall i :: 0 <= i < difficulty ==> hash[i] == '0'
  {
  }

  /** The search specification pins down one result. */
  lemma {:induction false} LeastSolutionUnique(p: Primitives, h: Header, difficulty: nat, m1: Mined, m2: Mined)
    requires IsLeastSolution(p, h, difficulty, m1)
    requires IsLeastSolution(p, h, difficulty, m2)
    ensures m1 == m2
  {
    if m1.nonce < m2.nonce {
      assert Solves(p, h, difficulty, m1.nonce);
    } else if m2.nonce < m1.nonce {
      assert Solves(p, h, difficulty, m2.nonce);
    }
  }

  /** The result does not depend on which accepted nonce the caller named. */
  lemma MineBlockIndependentOfWitness(p: Primitives, h: Header, difficulty: nat, w1: nat, w2: nat)
    requires Terminates(p, h, difficulty, w1)
    requires Terminates(p, h, difficulty, w2)
    ensures MineBlock(p, h, difficulty, w1) == MineBlock(p, h, difficulty, w2)
  {
    LeastSolutionUnique(p, h, difficulty, MineBlock(p, h, difficulty, w1), MineBlock(p, h, difficulty, w2));
  }

  /** The input header's own nonce is overwritten by the search and never read. */
  lemma MineBlockIgnoresNonce(p: Primitives, h: Header, difficulty: nat, w: nat, k: nat)
    requires Terminates(p, h, difficulty, w)
    ensures Terminates(p, h.(nonce := k), difficulty, w)
    ensures MineBlock(p, h.(nonce := k), difficulty, w) == MineBlock(p, h, difficulty, w)
  {
    var h' := h.(nonce := k);
    forall n: nat
      ensures Solves(p, h', difficulty, n) == Solves(p, h, difficulty, n)
    {
      assert h'.(nonce := n) == h.(nonce := n);
    }
    LeastSolutionUnique(p, h, difficulty, MineBlock(p, h', difficulty, w), MineBlock(p, h, difficulty, w));
  }

  /** With difficulty 0 the prefix is empty, every hash passes, and the first nonce
      tried, 1, is returned. */
  lemma MineBlockDifficultyZero(p: Primitives, h: Header, w: nat)
    requires 1 <= w <= NonceStall
    ensures Terminates(p, h, 0, w)
    ensures MineBlock(p, h, 0, w).nonce == 1
  {
  }

  /** A hash that meets a difficulty meets every lower one. */
  lemma MeetsDifficultyDownward(hash: string, d: nat, e: nat)
    requires e <= d
    requires MeetsDifficulty(hash, d)
    ensures MeetsDifficulty(hash, e)
  {
  }

  /** Raising the difficulty never yields a smaller nonce. */
  lemma MineBlockMonotone(p: Primitives, h: Header, d: nat, e: nat, w: nat)
    requires e <= d
    requires Terminates(p, h, d, w)
    ensures Terminates(p, h, e, w)
    ensures MineBlock(p, h, e, w).nonce <= MineBlock(p, h, d, w).nonce
  {
    MeetsDifficultyDownward(CalculateHash(p, h.(nonce := w)), d, e);
    var md := MineBlock(p, h, d, w);
    MeetsDifficultyDownward(md.hash, d, e);
    assert Solves(p, h, e, md.nonce);
  }
}

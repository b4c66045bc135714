/** The two string hash functions and the double-hashing probe of
    src/linked-hash-table.c. Every index is reduced modulo INIT_HASH, the
    fixed number of slots of the table. */
module Hashing {

  /** Number of slots of a table (INIT_HASH in the header). */
  const INIT_HASH: nat := 16

  /** 2^64: the hashes are folded in `unsigned long`, which wraps modulo this. */
  const WORD: nat := 0x1_0000_0000_0000_0000

  /** calculate_hash1 folds hash * 31 + c starting from 0. */
  const SEED1: nat := 0
  const MULT1: nat := 31

  /** calculate_hash2 folds (hash << 5) + hash + c, that is hash * 33 + c,
      starting from 5381. */
  const SEED2: nat := 5381
  const MULT2: nat := 33

  /** The numeric value a key character contributes to a hash. */
  function Code(c: char): nat { c as nat }

  /** hash := hash * mult + c over the characters of s, in arithmetic modulo m. */
  function Fold(seed: nat, mult: nat, s: string, m: nat): (h: nat)
    requires m > 0
    ensures h < m
  {
    if s == [] then seed % m
    else (Fold(seed, mult, s[..|s| - 1], m) * mult + Code(s[|s| - 1])) % m
  }

  /** The value calculate_hash1 returns for key. */
  function Hash1(key: string): nat { Fold(SEED1, MULT1, key, WORD) % INIT_HASH }

  /** The value calculate_hash2 returns for key. */
  function Hash2(key: string): nat { Fold(SEED2, MULT2, key, WORD) % INIT_HASH }

  /** Slot of round `round` of the probe sequence that starts at slot h1
      and steps h2 slots on each round, wrapping at INIT_HASH. */
  function Step(h1: nat, h2: nat, round: nat): (slot: nat)
    ensures slot < INIT_HASH || (round == 0 && slot == h1)
  {
    if round == 0 then h1 else (Step(h1, h2, round - 1) + h2) % INIT_HASH
  }

  /** Slot examined in probe round `round` for key: round 0 is hash1 itself,
      and each further round steps hash2 slots on. ProbeClosedForm shows
      that round r is rehash(key, hash1, r). */
  function Probe(key: string, round: nat): (slot: nat)
    ensures slot < INIT_HASH
    ensures round == 0 ==> slot == Hash1(key)
  {
    Step(Hash1(key), Hash2(key), round)
  }

  /** The step-by-step sequence in closed form: h1 + round * h2, modulo
      INIT_HASH, for a start slot h1 below INIT_HASH. */
  lemma {:induction false} StepClosedForm(h1: nat, h2: nat, round: nat)
    requires h1 < INIT_HASH
    ensures Step(h1, h2, round) == (h1 + round * h2) % INIT_HASH
  {
    if round > 0 {
      StepClosedForm(h1, h2, round - 1);
      StepModSixteen(h1, h2, round);
    }
  }

  /** Round r of the probe sequence is (hash1 + r * hash2) mod INIT_HASH,
      the slot rehash computes. */
  lemma ProbeClosedForm(key: string, round: nat)
    ensures Probe(key, round) == (Hash1(key) + round * Hash2(key)) % INIT_HASH
  {
    StepClosedForm(Hash1(key), Hash2(key), round);
  }

  /** One more step in the closed form. */
  lemma StepModSixteen(h1: nat, h2: nat, round: nat)
    requires round > 0
    ensures ((h1 + (round - 1) * h2) % INIT_HASH + h2) % INIT_HASH == (h1 + round * h2) % INIT_HASH
  {
    var x := h1 + (round - 1) * h2;
    assert h1 + round * h2 == x + h2 by {
      assert round * h2 == (round - 1) * h2 + h2;
    }
    assert x + h2 == 16 * (x / 16) + (x % 16 + h2);
    MultipleOfSixteen(x + h2, x / 16, x % 16 + h2);
  }

  lemma MultipleOfSixteen(x: int, a: int, b: int)
    requires x == 16 * a + b
    ensures x % 16 == b % 16
  {
  }

  /** 16 divides 2^64, so wrapping modulo 2^64 does not change a value modulo 16. */
  lemma WordModSixteen(x: nat)
    ensures (x % WORD) % INIT_HASH == x % INIT_HASH
  {
    var q := x / WORD;
    assert x == WORD * q + x % WORD;
    MultipleOfSixteen(x, 0x1000_0000_0000_0000 * q, x % WORD);
  }

  lemma AddWord(a: nat, b: nat)
    ensures (a % WORD + b) % WORD == (a + b) % WORD
  {
  }

  lemma MulModSixteen(f: nat, mult: nat, c: nat)
    ensures (f * mult + c) % INIT_HASH == ((f % INIT_HASH) * mult + c) % INIT_HASH
  {
    var q, g := f / 16, f % 16;
    assert f == 16 * q + g;
    calc {
      f * mult + c;
      (16 * q + g) * mult + c;
      { assert (16 * q + g) * mult == 16 * (q * mult) + g * mult; }
      16 * (q * mult) + (g * mult + c);
    }
    MultipleOfSixteen(f * mult + c, q * mult, g * mult + c);
  }

  /** The 64-bit fold reduced modulo 16 is the fold done modulo 16 throughout. */
  lemma {:induction false} FoldModSixteen(seed: nat, mult: nat, s: string)
    ensures Fold(seed, mult, s, WORD) % INIT_HASH == Fold(seed, mult, s, INIT_HASH)
  {
    if s == [] {
      WordModSixteen(seed);
    } else {
      var init := s[..|s| - 1];
      var c := Code(s[|s| - 1]);
      var f := Fold(seed, mult, init, WORD);
      FoldModSixteen(seed, mult, init);
      WordModSixteen(f * mult + c);
      MulModSixteen(f, mult, c);
    }
  }

  /** calculate_hash1: the loop folds the characters in 64-bit arithmetic. */
  method CalculateHash1(key: string) returns (h: nat)
    ensures h == Hash1(key)
    ensures h == Fold(SEED1, MULT1, key, INIT_HASH)
    ensures h < INIT_HASH
  {
    var hash: nat := SEED1;
    var n := 0;
    while n < |key|
      invariant n <= |key|
      invariant hash == Fold(SEED1, MULT1, key[..n], WORD)
    {
      assert key[..n + 1][..n] == key[..n];
      hash := (hash * MULT1 + Code(key[n])) % WORD;
      n := n + 1;
    }
    assert key[..n] == key;
    FoldModSixteen(SEED1, MULT1, key);
    h := hash % INIT_HASH;
  }

  /** One step of calculate_hash2 with its intermediate wrap-arounds is one
      step of the fold with multiplier 33. */
  lemma ShiftAddStep(h: nat, c: nat)
    ensures (((h * 32) % WORD + h) % WORD + c) % WORD == (h * MULT2 + c) % WORD
  {
    AddWord(h * 32, h);
    assert ((h * 32) % WORD + h) % WORD == (h * MULT2) % WORD;
    AddWord(h * MULT2, c);
  }

  /** calculate_hash2: (hash << 5) + hash + c, each step wrapping modulo 2^64. */
  method CalculateHash2(key: string) returns (h: nat)
    ensures h == Hash2(key)
    ensures h == Fold(SEED2, MULT2, key, INIT_HASH)
    ensures h < INIT_HASH
  {
    var hash: nat := SEED2;
    var n := 0;
    while n < |key|
      invariant n <= |key|
      invariant hash == Fold(SEED2, MULT2, key[..n], WORD)
    {
      assert key[..n + 1][..n] == key[..n];
      ShiftAddStep(hash, Code(key[n]));
      hash := (((hash * 32) % WORD + hash) % WORD + Code(key[n])) % WORD;
      n := n + 1;
    }
    assert key[..n] == key;
    FoldModSixteen(SEED2, MULT2, key);
    h := hash % INIT_HASH;
  }

  /** rehash: the slot of round `round` starting from slot `prev`. The
      product and sum wrap modulo 2^64 before the reduction modulo 16, which
      does not change the result. */
  method Rehash(key: string, prev: nat, round: nat) returns (slot: nat)
    ensures slot == (prev + round * Hash2(key)) % INIT_HASH
    ensures prev == Hash1(key) ==> slot == Probe(key, round)
  {
    var h2 := CalculateHash2(key);
    var product := (round * h2) % WORD;
    AddWord(round * h2, prev);
    WordModSixteen(prev + round * h2);
    ProbeClosedForm(key, round);
    slot := ((prev + product) % WORD) % INIT_HASH;
  }

  /** The probe sequence repeats with period INIT_HASH: rounds 0 to 15 are all
      the slots any probe loop can ever examine. */
  lemma ProbePeriodic(key: string, round: nat)
    ensures Probe(key, round) == Probe(key, round % INIT_HASH)
  {
    StepPeriodic(Hash1(key), Hash2(key), round);
  }

  /** The same for any start slot h1 and step h2. */
  lemma StepPeriodic(h1: nat, h2: nat, round: nat)
    requires h1 < INIT_HASH
    ensures Step(h1, h2, round) == Step(h1, h2, round % INIT_HASH)
  {
    var q, r := round / INIT_HASH, round % INIT_HASH;
    assert round == INIT_HASH * q + r;
    StepClosedForm(h1, h2, round);
    StepClosedForm(h1, h2, r);
    ShiftRounds(h1, h2, q, r);
  }

  /** Adding 16 * q rounds to a probe lands on the same slot. */
  lemma ShiftRounds(h1: nat, h2: nat, q: nat, r: nat)
    ensures (h1 + (INIT_HASH * q + r) * h2) % INIT_HASH == (h1 + r * h2) % INIT_HASH
  {
    assert (INIT_HASH * q + r) * h2 == INIT_HASH * (q * h2) + r * h2;
    MultipleOfSixteen(h1 + (INIT_HASH * q + r) * h2, q * h2, h1 + r * h2);
  }

  /** With an even hash2 the probe sequence keeps the parity of hash1, so it
      never reaches half of the slots. */
  lemma ProbeParity(key: string, round: nat)
    requires Hash2(key) % 2 == 0
    ensures Probe(key, round) % 2 == Hash1(key) % 2
  {
    StepParity(Hash1(key), Hash2(key), round);
  }

  /** The same for any start slot h1 and even step h2. */
  lemma StepParity(h1: nat, h2: nat, round: nat)
    requires h1 < INIT_HASH && h2 % 2 == 0
    ensures Step(h1, h2, round) % 2 == h1 % 2
  {
    StepClosedForm(h1, h2, round);
    var k := round * (h2 / 2);
    assert round * h2 == 2 * k by {
      assert h2 == 2 * (h2 / 2);
    }
    ParityModSixteen(h1 + 2 * k);
    EvenShift(h1, k);
  }

  lemma EvenShift(a: nat, k: nat)
    ensures (a + 2 * k) % 2 == a % 2
  {
  }

  lemma ParityModSixteen(x: nat)
    ensures (x % INIT_HASH) % 2 == x % 2
  {
    var q := x / INIT_HASH;
    assert x == 2 * (8 * q) + x % INIT_HASH;
  }
}

// The 64-bit finalizer behind `seeded_random` schedules, on native words, and
// the sequential generator whose k-th output it computes directly.
module SplitMix {
  import opened Machine

  const GAMMA: u64 := 0x9E37_79B9_7F4A_7C15
  const GAMMA_INVERSE: u64 := 0xF1DE_83E1_9937_733D

  // The three stages of the finalizer.
  function First(x: bv64): bv64 {
    (x ^ (x >> 30)) * 0xBF58_476D_1CE4_E5B9
  }

  function Second(a: bv64): bv64 {
    (a ^ (a >> 27)) * 0x94D0_49BB_1331_11EB
  }

  function Third(b: bv64): bv64 {
    b ^ (b >> 31)
  }

  function Mix(x: bv64): bv64 {
    Third(Second(First(x)))
  }

  // Each xor-shift and each odd factor has an explicit inverse.
  function UndoFirst(a: bv64): bv64 {
    var x := a * 0x96DE_1B17_3F11_9089;
    x ^ (x >> 30) ^ (x >> 60)
  }

  function UndoSecond(b: bv64): bv64 {
    var a := b * 0x3196_42B2_D24D_8EC3;
    a ^ (a >> 27) ^ (a >> 54)
  }

  function UndoThird(y: bv64): bv64 {
    y ^ (y >> 31) ^ (y >> 62)
  }

  function Unmix(y: bv64): bv64 {
    UndoFirst(UndoSecond(UndoThird(y)))
  }

  lemma FirstInverts(x: bv64)
    ensures UndoFirst((x ^ (x >> 30)) * 0xBF58_476D_1CE4_E5B9) == x
  {
    var folded := x ^ (x >> 30);
    assert (folded * 0xBF58_476D_1CE4_E5B9) * 0x96DE_1B17_3F11_9089 == folded;
  }

  lemma SecondInverts(a: bv64)
    ensures UndoSecond((a ^ (a >> 27)) * 0x94D0_49BB_1331_11EB) == a
  {
    var folded := a ^ (a >> 27);
    assert (folded * 0x94D0_49BB_1331_11EB) * 0x3196_42B2_D24D_8EC3 == folded;
  }

  lemma ThirdInverts(b: bv64, y: bv64)
    requires y == b ^ (b >> 31)
    ensures UndoThird(y) == b
  {
  }

  lemma FirstUndone(x: bv64)
    ensures UndoFirst(First(x)) == x
  {
    hide UndoFirst;
    FirstInverts(x);
  }

  lemma SecondUndone(a: bv64)
    ensures UndoSecond(Second(a)) == a
  {
    hide UndoSecond;
    SecondInverts(a);
  }

  lemma ThirdUndone(b: bv64)
    ensures UndoThird(Third(b)) == b
  {
    hide UndoThird;
    ThirdInverts(b, Third(b));
  }

  lemma UnmixMix(x: bv64)
    ensures Unmix(Mix(x)) == x
  {
    hide First, Second, Third, UndoFirst, UndoSecond, UndoThird;
    ThirdUndone(Second(First(x)));
    SecondUndone(First(x));
    FirstUndone(x);
  }

  // An integer below 2^64 as a word. The round trip is proved a bit at a time.
  function ToWord(n: u64): (w: bv64)
    ensures w as int == n
  {
    WordRoundTrip(n);
    n as bv64
  }

  lemma AppendBit(high: bv64)
    requires high < 0x8000_0000_0000_0000
    ensures (high << 1) as int == 2 * (high as int)
    ensures ((high << 1) | 1) as int == 2 * (high as int) + 1
  {
  }

  lemma TopBitClear(w: bv64)
    requires w as int < 0x8000_0000_0000_0000
    ensures w < 0x8000_0000_0000_0000
  {
  }

  lemma {:induction false} WordExists(n: u64) returns (w: bv64)
    ensures w as int == n
  {
    if n == 0 {
      w := 0;
    } else {
      var high := WordExists(n / 2);
      TopBitClear(high);
      AppendBit(high);
      w := if n % 2 == 0 then high << 1 else (high << 1) | 1;
    }
  }

  lemma WordRoundTrip(n: u64)
    ensures (n as bv64) as int == n
  {
    var w := WordExists(n);
    assert (w as int) as bv64 == w;
  }

  // The generator state that attempt k hashes.
  function Position(seed: u64, k: usize): u64 {
    WrappingAdd(seed, WrappingMul(k, GAMMA))
  }

  // The hash of (seed, k), as an integer.
  function Output(seed: u64, k: usize): u64 {
    Mix(ToWord(Position(seed, k))) as int
  }

  // The sequential generator adds GAMMA to its state, then finalizes it.
  function NextState(state: u64): u64 {
    WrappingAdd(state, GAMMA)
  }

  function StateAfter(seed: u64, steps: nat): u64 {
    if steps == 0 then seed else NextState(StateAfter(seed, steps - 1))
  }

  lemma {:induction false} StateClosedForm(seed: u64, steps: nat)
    ensures StateAfter(seed, steps) == (seed + steps * GAMMA) % TWO64
  {
    if steps > 0 {
      StateClosedForm(seed, steps - 1);
      ModSuccessor(seed + (steps - 1) * GAMMA, GAMMA);
      assert (steps - 1) * GAMMA + GAMMA == steps * GAMMA;
    }
  }

  lemma PositionClosedForm(seed: u64, k: usize)
    ensures Position(seed, k) == (seed + k * GAMMA) % TWO64
  {
    ModSuccessor(k * GAMMA, seed);
  }

  // Hashing (seed, k) directly is the k-th output of the generator.
  lemma OutputIsGenerated(seed: u64, k: usize)
    ensures Output(seed, k) == Mix(ToWord(StateAfter(seed, k))) as int
  {
    hide Mix, ToWord, Position;
    StateClosedForm(seed, k);
    PositionClosedForm(seed, k);
  }

  // Starting the generator j steps further on shifts the attempts by j.
  lemma SeedShift(seed: u64, j: nat, k: usize)
    requires k + j < TWO64
    ensures Output(StateAfter(seed, j), k) == Output(seed, k + j)
  {
    hide Mix, ToWord, Position;
    StateClosedForm(seed, j);
    PositionClosedForm(StateAfter(seed, j), k);
    PositionClosedForm(seed, k + j);
    ModSuccessor(seed + j * GAMMA, k * GAMMA);
    assert j * GAMMA + k * GAMMA == (k + j) * GAMMA;
  }

  // Distinct attempts hash to distinct words, whatever the seed.
  lemma OutputInjective(seed: u64, j: usize, k: usize)
    requires Output(seed, j) == Output(seed, k)
    ensures j == k
  {
    hide Mix, Unmix;
    var wj, wk := ToWord(Position(seed, j)), ToWord(Position(seed, k));
    assert (Mix(wj) as int) as bv64 == Mix(wj);
    assert (Mix(wk) as int) as bv64 == Mix(wk);
    UnmixMix(wj);
    UnmixMix(wk);
    RecoverAttempt(seed, j);
    RecoverAttempt(seed, k);
  }

  lemma RecoverAttempt(seed: u64, k: usize)
    ensures (Position(seed, k) - seed) * GAMMA_INVERSE % TWO64 == k
  {
    PositionClosedForm(seed, k);
    var d := Position(seed, k) - seed;
    var q := (seed + k * GAMMA) / TWO64;
    var e := GAMMA * GAMMA_INVERSE / TWO64;
    assert d == k * GAMMA - q * TWO64;
    assert GAMMA * GAMMA_INVERSE == e * TWO64 + 1;
    assert d * GAMMA_INVERSE == k + (k * e - q * GAMMA_INVERSE) * TWO64;
    ModShift(k, k * e - q * GAMMA_INVERSE);
  }
}

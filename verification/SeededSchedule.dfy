// Seeded schedules: exact failure counts, monotonicity in the probability, and
// the sequence that the repository pins for seed 42.
module SeededSchedule {
  import opened Machine
  import opened SplitMix
  import opened Counting
  import opened Schedule
  import opened ScheduleHistory

  function Hash(seed: u64): int -> int {
    k => if 0 <= k < TWO64 then Output(seed, k) else k
  }

  // For every seed the hash permutes the 64-bit words.
  lemma HashIsPermutation(seed: u64)
    ensures InjectiveOn(Hash(seed), Range(TWO64))
    ensures Image(Hash(seed), Range(TWO64)) == Range(TWO64)
  {
    hide Range, Output;
    forall j, k | j in Range(TWO64) && k in Range(TWO64) && Hash(seed)(j) == Hash(seed)(k)
      ensures j == k
    {
      OutputInjective(seed, j, k);
    }
    InjectionIsOnto(Hash(seed), TWO64);
  }

  // The attempts, out of all 2^64, that a seeded schedule picks.
  function Picked(seed: u64, p: u32): set<int> {
    set k | 0 <= k < TWO64 && Fires(SeededRandom(seed, p), k)
  }

  // There are equally many of them for every seed.
  lemma FullPeriodCount(seed: u64, p: u32)
    requires p <= 1000
    ensures |Picked(seed, p)| == 18_446_744_073_709_551 * p + Min(p, 616)
  {
    hide Range, Picked, Residues;
    HashIsPermutation(seed);
    PickedHash(seed, p);
    PreimageSize(Hash(seed), TWO64, Picked(seed, p), Residues(TWO64, 1000, p));
    CountResidues(TWO64, 1000, p);
  }

  lemma PickedHash(seed: u64, p: u32)
    ensures forall k :: k in Picked(seed, p) <==> k in Range(TWO64) && Hash(seed)(k) in Residues(TWO64, 1000, p)
    ensures Residues(TWO64, 1000, p) <= Range(TWO64)
  {
    hide Range, Output;
  }

  // A higher probability picks every attempt that a lower one picks.
  lemma FiringNested(seed: u64, p: u32, q: u32, attempt: usize)
    requires p <= q && Fires(SeededRandom(seed, p), attempt)
    ensures Fires(SeededRandom(seed, q), attempt)
  {
    hide Output;
  }

  lemma {:induction false} FiringCountMonotone(seed: u64, p: u32, q: u32, attempts: seq<usize>)
    requires p <= q
    ensures FiringCount(SeededRandom(seed, p), attempts) <= FiringCount(SeededRandom(seed, q), attempts)
  {
    if attempts != [] {
      hide Output;
      FiringCountMonotone(seed, p, q, attempts[..|attempts| - 1]);
    }
  }

  // Raising the probability never lowers the number of failures emitted,
  // whatever the attempts and the limit.
  lemma RaisingProbability(seed: u64, p: u32, q: u32, mode: FailureMode, limit: Option<usize>, attempts: seq<usize>)
    requires p <= q
    ensures |Emitted(Run(Fresh(SeededRandom(seed, p), mode, limit), attempts).1)|
         <= |Emitted(Run(Fresh(SeededRandom(seed, q), mode, limit), attempts).1)|
  {
    hide Fires, Run, Firing, Emitted, EmittedAfter;
    FiringCountMonotone(seed, p, q, attempts);
    EmittedCount(SeededRandom(seed, p), mode, limit, attempts);
    EmittedCount(SeededRandom(seed, q), mode, limit, attempts);
    EmittedAfterMonotone(limit, FiringCount(SeededRandom(seed, p), attempts), FiringCount(SeededRandom(seed, q), attempts));
  }

  // What follows checks the constants of the model: it evaluates the attempts
  // whose outcome the repository pins for seed 42.
  const SEED_42_P25: Kind := SeededRandom(42, 250)

  // The value of one attempt, from the words the finalizer starts and ends with.
  lemma FiresAt(seed: u64, p: u32, k: usize, x: bv64, y: bv64)
    requires x as int == (seed + k * GAMMA) % TWO64 && Mix(x) == y
    ensures Fires(SeededRandom(seed, p), k) <==> y as int % 1000 < p
  {
    hide Mix;
    PositionClosedForm(seed, k);
    var w := ToWord(Position(seed, k));
    assert (w as int) as bv64 == w;
    assert (x as int) as bv64 == x;
  }

  lemma Pinned1To8()
    ensures forall k :: 1 <= k <= 8 ==> (Fires(SEED_42_P25, k) <==> k in {6})
  {
    hide Fires;
    FiresAt(42, 250, 1, 0x9E3779B97F4A7C3F, 0xBDD732262FEB6E95);
    FiresAt(42, 250, 2, 0x3C6EF372FE94F854, 0x28EFE333B266F103);
    FiresAt(42, 250, 3, 0xDAA66D2C7DDF7469, 0x47526757130F9F52);
    FiresAt(42, 250, 4, 0x78DDE6E5FD29F07E, 0x581CE1FF0E4AE394);
    FiresAt(42, 250, 5, 0x1715609F7C746C93, 0x9BC585A244823F2);
    FiresAt(42, 250, 6, 0xB54CDA58FBBEE8A8, 0xDE4431FA3C80DB06);
    FiresAt(42, 250, 7, 0x538454127B0964BD, 0x37E9671C45376D5D);
    FiresAt(42, 250, 8, 0xF1BBCDCBFA53E0D2, 0xCCF635EE9E9E2FA4);
  }

  lemma Pinned9To16()
    ensures forall k :: 9 <= k <= 16 ==> (Fires(SEED_42_P25, k) <==> k in {9, 11, 16})
  {
    hide Fires;
    FiresAt(42, 250, 9, 0x8FF34785799E5CE7, 0x5705B8770B3D7DD5);
    FiresAt(42, 250, 10, 0x2E2AC13EF8E8D8FC, 0x9E54D738297F77AE);
    FiresAt(42, 250, 11, 0xCC623AF878335511, 0x3474724A775B19BF);
    FiresAt(42, 250, 12, 0x6A99B4B1F77DD126, 0x7E348A0E451650BE);
    FiresAt(42, 250, 13, 0x8D12E6B76C84D3B, 0x836DED897F3E46E6);
    FiresAt(42, 250, 14, 0xA708A824F612C950, 0x851F977347ED6DB7);
    FiresAt(42, 250, 15, 0x454021DE755D4565, 0xAA47E31C02E78EDC);
    FiresAt(42, 250, 16, 0xE3779B97F4A7C17A, 0x341452C54D7C33F2);
  }

  lemma Pinned17To24()
    ensures forall k :: 17 <= k <= 24 ==> (Fires(SEED_42_P25, k) <==> k in {19, 20})
  {
    hide Fires;
    FiresAt(42, 250, 17, 0x81AF155173F23D8F, 0x1A83D752F35EBA75);
    FiresAt(42, 250, 18, 0x1FE68F0AF33CB9A4, 0x7ED90003F67F9E1D);
    FiresAt(42, 250, 19, 0xBE1E08C4728735B9, 0x17EADFF448A86A07);
    FiresAt(42, 250, 20, 0x5C55827DF1D1B1CE, 0xB05ECA1A2972B860);
    FiresAt(42, 250, 21, 0xFA8CFC37711C2DE3, 0xF513444B6455A3E8);
    FiresAt(42, 250, 22, 0x98C475F0F066A9F8, 0x12B3A6DD261F6E99);
    FiresAt(42, 250, 23, 0x36FBEFAA6FB1260D, 0x998D8FB100CA15D5);
    FiresAt(42, 250, 24, 0xD5336963EEFBA222, 0x9EAC75D45474C891);
  }

  lemma Pinned25To32()
    ensures forall k :: 25 <= k <= 32 ==> (Fires(SEED_42_P25, k) <==> k in {30, 32})
  {
    hide Fires;
    FiresAt(42, 250, 25, 0x736AE31D6E461E37, 0x12FC33F229B7B950);
    FiresAt(42, 250, 26, 0x11A25CD6ED909A4C, 0x470EA7E37990E511);
    FiresAt(42, 250, 27, 0xAFD9D6906CDB1661, 0xBDF25B150620A835);
    FiresAt(42, 250, 28, 0x4E115049EC259276, 0xC9167E198FB9991F);
    FiresAt(42, 250, 29, 0xEC48CA036B700E8B, 0xF1222631CDC86D07);
    FiresAt(42, 250, 30, 0x8A8043BCEABA8AA0, 0xB1B59F1B53585E43);
    FiresAt(42, 250, 31, 0x28B7BD766A0506B5, 0xCA376DA14213D975);
    FiresAt(42, 250, 32, 0xC6EF372FE94F82CA, 0xD72C1692509D2C5E);
  }

  lemma Pinned33To40()
    ensures forall k :: 33 <= k <= 40 ==> (Fires(SEED_42_P25, k) <==> k in {33, 34, 40})
  {
    hide Fires;
    FiresAt(42, 250, 33, 0x6526B0E96899FEDF, 0xA5A7FE4E63A4F49D);
    FiresAt(42, 250, 34, 0x35E2AA2E7E47AF4, 0xC83B65023BCB7FDE);
    FiresAt(42, 250, 35, 0xA195A45C672EF709, 0xA3351C7FC9A4C255);
    FiresAt(42, 250, 36, 0x3FCD1E15E679731E, 0x61492DC04AF06E43);
    FiresAt(42, 250, 37, 0xDE0497CF65C3EF33, 0x102267F0F38C5511);
    FiresAt(42, 250, 38, 0x7C3C1188E50E6B48, 0x441C09C50B29DB41);
    FiresAt(42, 250, 39, 0x1A738B426458E75D, 0xC2DE56B8961D5F40);
    FiresAt(42, 250, 40, 0xB8AB04FBE3A36372, 0x178B25AC7EBBDF84);
  }

  // The first forty attempts of seed 42 at probability 0.25, as pinned.
  lemma PinnedSequence()
    ensures forall k :: 1 <= k <= 40 ==>
      (Fires(SEED_42_P25, k) <==> k in {6, 9, 11, 16, 19, 20, 30, 32, 33, 34, 40})
  {
    hide Fires;
    Pinned1To8();
    Pinned9To16();
    Pinned17To24();
    Pinned25To32();
    Pinned33To40();
  }

  // Under a limit the emitted attempts need not be nested: at probability 0.25
  // the one failure allowed falls on attempt 6, at probability 1 on attempt 1.
  lemma EmittedNotNested()
    ensures Emitted(Run(Fresh(SEED_42_P25, IoError, Some(1)), [1, 6]).1) == [6]
    ensures Emitted(Run(Fresh(SeededRandom(42, 1000), IoError, Some(1)), [1, 6]).1) == [1]
  {
    hide Output;
    PinnedSequence();
    FiringPair(SEED_42_P25, 1, 6);
    FiringPair(SeededRandom(42, 1000), 1, 6);
    EmittedIsFirstFiring(SEED_42_P25, IoError, Some(1), [1, 6]);
    EmittedIsFirstFiring(SeededRandom(42, 1000), IoError, Some(1), [1, 6]);
  }

  lemma FiringPair(kind: Kind, a: usize, b: usize)
    ensures Firing(kind, [a, b])
         == (if Fires(kind, a) then [a] else []) + (if Fires(kind, b) then [b] else [])
  {
    hide Fires;
    assert [a, b][..1] == [a];
    assert [a][..0] == [];
  }
}

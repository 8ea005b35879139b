/** What the compressor's hash tables find: how the hashes spread the words, and what becomes of data that
    repeats with a short period. */
module Lz4Periods {
  import opened Arith
  import opened Bytes
  import opened Buckets
  import opened Lz4Format
  import opened Lz4Count
  import opened Lz4Encoder
  import opened Lz4Parse

  // ---------------------------------------------------------------- how the hashes spread

  const WORDS4 := 0x1_0000_0000
  const WORDS5 := 0x100_0000_0000
  const PRIME4 := 2654435761
  const PRIME4_INVERSE := 244002641
  const PRIME5 := 889523592379
  const PRIME5_INVERSE := 783547959411

  /** Each of the 8192 buckets of the 16-bit table gets 2^19 of the four-byte words. */
  lemma Hash4Spreads(h: nat)
    requires h < TABLE_SIZE_U16
    ensures |set x: nat | x < WORDS4 && Hash4(x) == h| == 0x8_0000
  {
    BucketSize(PRIME4, PRIME4_INVERSE, WORDS4, 0x8_0000, h);
    assert (set x: nat | x < WORDS4 && Hash4(x) == h) == Bucket(PRIME4, WORDS4, 0x8_0000, h);
  }

  lemma ScaledMod(a: nat, k: nat, m: nat)
    requires k > 0 && m > 0
    ensures k * a % (k * m) == k * (a % m)
  {
    var q, r := a / m, a % m;
    assert a == q * m + r;
    assert k * a == k * (q * m) + k * r == q * (k * m) + k * r;
    assert k * r < k * m;
    ModUnique(k * a, k * m, q, k * r);
  }

  /** The 64-bit product only has to do with the lowest five bytes. */
  lemma Hash5OfFiveBytes(x: nat)
    ensures Hash5(x) == Times(x, PRIME5, WORDS5) / 0x1000_0000
  {
    var k := 0x100_0000;
    ScaledMod(x, k, WORDS5);
    ScaledMod((x % WORDS5) * PRIME5, k, WORDS5);
    ModTimes(x, PRIME5, WORDS5);
    var y := Times(x, PRIME5, WORDS5);
    assert k * (x % WORDS5) * PRIME5 == k * ((x % WORDS5) * PRIME5);
    assert k * WORDS5 == 0x1_0000_0000_0000_0000;
    assert Hash5(x) == k * y / 0x10_0000_0000_0000;
  }

  /** Each of the 4096 buckets of the 32-bit table gets 2^28 of the five-byte words. */
  lemma Hash5Spreads(h: nat)
    requires h < TABLE_SIZE_U32
    ensures |set x: nat | x < WORDS5 && Hash5(x) == h| == 0x1000_0000
  {
    BucketSize(PRIME5, PRIME5_INVERSE, WORDS5, 0x1000_0000, h);
    forall x: nat | x < WORDS5 ensures Hash5(x) == Times(x, PRIME5, WORDS5) / 0x1000_0000 {
      Hash5OfFiveBytes(x);
    }
    assert (set x: nat | x < WORDS5 && Hash5(x) == h) == Bucket(PRIME5, WORDS5, 0x1000_0000, h);
  }

  // ---------------------------------------------------------------- searching periodic data

  /** The bytes repeat every `q`. */
  predicate Periodic(src: seq<Byte>, q: nat)
  {
    forall i :: q <= i < |src| ==> src[i] == src[i - q]
  }

  /** No word of the first period is mistaken for an earlier one: they are in different buckets, and none has
      the first one's four bytes. */
  predicate Apart(src: seq<Byte>, q: nat, byU16: bool)
    requires q + 8 <= |src|
  {
    (forall i, j :: 0 <= i < j < q ==> HashPosition(src, i, byU16) != HashPosition(src, j, byU16))
    && forall j :: 0 < j < q ==> !SameWord(src, 0, j)
  }

  /** The table after the positions before `k` have been recorded. */
  predicate Holds(src: seq<Byte>, table: seq<nat>, k: nat, byU16: bool)
    requires k + 7 <= |src|
  {
    |table| == TableSize(byU16)
    && (forall i :: 0 <= i < k ==> table[HashPosition(src, i, byU16)] == i)
    && forall h :: 0 <= h < |table| && (forall i :: 0 <= i < k ==> HashPosition(src, i, byU16) != h) ==> table[h] == 0
  }

  lemma FirstHolds(src: seq<Byte>, byU16: bool)
    requires |src| >= MIN_LENGTH
    ensures Holds(src, FirstTable(src, byU16), 1, byU16)
  {
    hide HashPosition;
  }

  lemma RecordHolds(src: seq<Byte>, table: seq<nat>, k: nat, q: nat, byU16: bool)
    requires 0 < k < q && q + 8 <= |src| && Apart(src, q, byU16) && Holds(src, table, k, byU16)
    ensures table[HashPosition(src, k, byU16)] == 0
    ensures Holds(src, table[HashPosition(src, k, byU16) := k], k + 1, byU16)
  {
    hide HashPosition, SameWord;
    var h := HashPosition(src, k, byU16);
    var t := table[h := k];
    forall g | 0 <= g < |t| && (forall i :: 0 <= i < k + 1 ==> HashPosition(src, i, byU16) != g) ensures t[g] == 0 {
      assert HashPosition(src, k, byU16) != g;
    }
  }

  lemma PeriodRepeats(src: seq<Byte>, q: nat, byU16: bool)
    requires 0 < q && q + 8 <= |src| && Periodic(src, q)
    ensures SameWord(src, 0, q) && HashPosition(src, q, byU16) == HashPosition(src, 0, byU16)
  {
    hide FromLe, Hash4, Hash5;
    forall i | 0 <= i < 8 ensures src[q..q + 8][i] == src[0..8][i] {
      assert src[q + i] == src[i];
    }
    assert src[q..q + 8] == src[0..8];
    assert src[q..q + 4] == src[q..q + 8][..4] && src[0..4] == src[0..8][..4];
  }

  /** The search passes the first period one position at a time, and finds its first word again behind it. */
  lemma {:induction false} PeriodFound(src: seq<Byte>, q: nat, table: seq<nat>, k: nat, byU16: bool)
    requires 0 < k <= q <= 64 && q + MIN_LENGTH <= |src| && Periodic(src, q) && Apart(src, q, byU16)
    requires Holds(src, table, k, byU16)
    ensures var f := Search(src, table, k, 1, 63 + k, byU16); f.Match? && f.ip == q && f.m == 0
    decreases q - k
  {
    hide HashPosition, Search, SameWord;
    var h := HashPosition(src, k, byU16);
    SearchStep(src, table, k, 1, 63 + k, byU16, h, table[h]);
    if k < q {
      RecordHolds(src, table, k, q, byU16);
      PeriodFound(src, q, table[h := k], k + 1, byU16);
    } else {
      PeriodRepeats(src, q, byU16);
    }
  }

  // ---------------------------------------------------------------- compressing it

  lemma PeriodLength(src: seq<Byte>, q: nat, p: nat, limit: nat)
    requires Periodic(src, q) && q <= p <= limit <= |src|
    ensures CommonLength(src, p, p - q, limit) == limit - p
  {
  }

  /** What the match found behind the first period becomes. */
  lemma PeriodMatches(src: seq<Byte>, q: nat, table: seq<nat>, byU16: bool)
    requires 0 < q <= 64 && q + MIN_LENGTH <= |src| && |table| == TableSize(byU16) && Periodic(src, q)
    ensures Matches(src, table, [], 0, q, 0, byU16) ==
            Parse([SequenceOf(src[..q], q, |src| - q - LAST_LITERALS)], |src| - LAST_LITERALS, table, false)
  {
    hide Periodic, CommonLength;
    PeriodLength(src, q, q + 4, |src| - LAST_LITERALS);
    assert src[0..q] == src[..q];
    MatchesStep(src, table, [], 0, q, 0, byU16);
  }

  /** Data of a short period is its first period, one match and five literals. */
  lemma PeriodicParse(src: seq<Byte>, q: nat, byU16: bool)
    requires 0 < q <= 64 && q + MIN_LENGTH <= |src| && SizeFits(|src|, byU16)
    requires Periodic(src, q) && Apart(src, q, byU16)
    ensures var p := WholeParse(src, byU16, 1);
            p.seqs == [SequenceOf(src[..q], q, |src| - q - LAST_LITERALS)] && p.anchor == |src| - LAST_LITERALS
  {
    hide Turn, Turns, Search, FirstTable, HashPosition, Apart, Holds, Matches, Periodic;
    var table := FirstTable(src, byU16);
    FirstHolds(src, byU16);
    PeriodFound(src, q, table, 1, byU16);
    var f := Search(src, table, 1, 1, 64, byU16);
    PeriodMatches(src, q, f.table, byU16);
    FirstTurn(src, q, table, byU16);
    LastTurn(src, table, [], 0, 1, byU16);
  }

  /** The turn that finds the first word again extends nothing backwards. */
  lemma FirstTurn(src: seq<Byte>, q: nat, table: seq<nat>, byU16: bool)
    requires SizeFits(|src|, byU16) && |table| == TableSize(byU16) && MIN_LENGTH <= |src|
    requires var f := Search(src, table, 1, 1, 64, byU16); f.Match? && f.ip == q && f.m == 0
    ensures var f := Search(src, table, 1, 1, 64, byU16);
            Turn(src, table, [], 0, 1, byU16, 1) == Matches(src, f.table, [], 0, q, 0, byU16)
  {
    hide Search, Matches, SameWord;
    assert Back(src, 0, q, 0) == Place(q, 0);
  }

  lemma LastTurn(src: seq<Byte>, table: seq<nat>, seqs: seq<Sequence>, anchor: nat, ip: nat, byU16: bool)
    requires SizeFits(|src|, byU16) && |table| == TableSize(byU16) && anchor <= ip && ip + 8 <= |src|
    requires !Turn(src, table, seqs, anchor, ip, byU16, 1).more
    ensures Turns(src, table, seqs, anchor, ip, byU16, 1) == Turn(src, table, seqs, anchor, ip, byU16, 1)
  {
    hide Turn;
  }

  lemma OneSequence(q: Sequence, last: seq<Byte>)
    requires WellTyped(q) && |q.literals| <= 64 && |last| == LAST_LITERALS
    ensures AllWellTyped([q])
    ensures 255 * |RenderSequences([q]) + RenderLast(last, 0)|
            <= 255 * (9 + |q.literals| + |LenBytes(|q.literals|)|) + q.matchLen + 236
  {
    hide LenBytes;
    LenBytesCost(q.matchLen - MIN_MATCH);
    LenBytesCost(|last|);
    assert RenderSequences([q][..0]) == [];
  }

  /** So it is short. */
  lemma PeriodicIsShort(src: seq<Byte>, q: nat)
    requires 0 < q <= 64 && q + MIN_LENGTH <= |src| <= MAX_INPUT_SIZE
    requires Periodic(src, q) && Apart(src, q, |src| < LIMIT_64K)
    ensures |Compressed(src)| <= q + (if q < RUN_MASK then 10 else 11) + |src| / 255
  {
    var byU16 := |src| < LIMIT_64K;
    PeriodicParse(src, q, byU16);
    hide WholeParse, RenderSequences, RenderLast, Periodic, Apart;
    OneSequence(SequenceOf(src[..q], q, |src| - q - LAST_LITERALS), src[|src| - LAST_LITERALS..]);
    assert |LenBytes(q)| == if q < RUN_MASK then 0 else 1;
  }

  // ---------------------------------------------------------------- runs

  /** One byte over and over. */
  predicate IsRun(src: seq<Byte>)
  {
    forall i :: 0 <= i < |src| ==> src[i] == src[0]
  }

  lemma RunIsShort(src: seq<Byte>)
    requires IsRun(src) && MIN_LENGTH < |src| <= MAX_INPUT_SIZE
    ensures |Compressed(src)| <= 11 + |src| / 255
  {
    hide Compressed;
    PeriodicIsShort(src, 1);
  }

  // ---------------------------------------------------------------- counting to eight

  /** 0, 1, ..., 7, over and over. */
  predicate IsRamp(src: seq<Byte>)
  {
    forall i :: 0 <= i < |src| ==> src[i] == i % 8
  }

  /** The byte at `k`, among the first sixteen. */
  function RampByte(k: nat): nat { if k < 8 then k else k - 8 }

  /** The numbers of the four and of the eight bytes at `k`. */
  function Ramp4(k: nat): nat
  {
    RampByte(k) + 0x100 * RampByte(k + 1) + 0x1_0000 * RampByte(k + 2) + 0x100_0000 * RampByte(k + 3)
  }

  function Ramp8(k: nat): nat { Ramp4(k) + 0x1_0000_0000 * Ramp4(k + 4) }

  lemma RampIs(src: seq<Byte>, k: nat)
    requires IsRamp(src) && k < 16 && k < |src|
    ensures src[k] == RampByte(k)
  {
  }

  lemma RampWord(src: seq<Byte>, k: nat)
    requires IsRamp(src) && k < 13 && k + 4 <= |src|
    ensures FromLe(src[k..k + 4]) == Ramp4(k)
  {
    hide FromLe, IsRamp, RampByte;
    FourBytes(src[k..k + 4]);
    RampIs(src, k);
    RampIs(src, k + 1);
    RampIs(src, k + 2);
    RampIs(src, k + 3);
  }

  lemma RampWords(src: seq<Byte>, k: nat)
    requires IsRamp(src) && k < 8 && k + 8 <= |src|
    ensures FromLe(src[k..k + 4]) == Ramp4(k) && FromLe(src[k..k + 8]) == Ramp8(k)
  {
    hide FromLe, IsRamp, Ramp4;
    RampWord(src, k);
    RampWord(src, k + 4);
    EightBytes(src[k..k + 8]);
    assert src[k..k + 8][..4] == src[k..k + 4] && src[k..k + 8][4..] == src[k + 4..k + 8];
  }

  /** `y` is what is left of the product, `q` times the modulus taken away. */
  lemma Hash4Is(x: nat, q: nat, y: nat, h: nat)
    requires x * PRIME4 == q * WORDS4 + y && y < WORDS4 && h * 0x8_0000 <= y < h * 0x8_0000 + 0x8_0000
    ensures Hash4(x) == h
  {
    ModUnique(x * PRIME4, WORDS4, q, y);
  }

  lemma Hash5Is(x: nat, q: nat, y: nat, h: nat)
    requires x * PRIME5 == q * WORDS5 + y && y < WORDS5 && h * 0x1000_0000 <= y < h * 0x1000_0000 + 0x1000_0000
    ensures Hash5(x) == h
  {
    Hash5OfFiveBytes(x);
    ModUnique(x * PRIME5, WORDS5, q, y);
  }

  lemma RampNumbers()
    ensures Ramp4(0) == 0x0302_0100 && Ramp4(1) == 0x0403_0201 && Ramp4(2) == 0x0504_0302 && Ramp4(3) == 0x0605_0403
    ensures Ramp4(4) == 0x0706_0504 && Ramp4(5) == 0x0007_0605 && Ramp4(6) == 0x0100_0706 && Ramp4(7) == 0x0201_0007
    ensures Ramp4(8) == Ramp4(0) && Ramp4(9) == Ramp4(1) && Ramp4(10) == Ramp4(2) && Ramp4(11) == Ramp4(3)
  {
  }

  lemma RampLongNumbers()
    ensures Ramp8(0) == 0x0706_0504_0302_0100 && Ramp8(1) == 0x0007_0605_0403_0201
    ensures Ramp8(2) == 0x0100_0706_0504_0302 && Ramp8(3) == 0x0201_0007_0605_0403
    ensures Ramp8(4) == 0x0302_0100_0706_0504 && Ramp8(5) == 0x0403_0201_0007_0605
    ensures Ramp8(6) == 0x0504_0302_0100_0706 && Ramp8(7) == 0x0605_0403_0201_0007
  {
    RampNumbers();
    hide Ramp4;
  }

  /** Where the first eight positions are in the 16-bit table. */
  lemma RampHashes4()
    ensures Hash4(Ramp4(0)) == 1979 && Hash4(Ramp4(1)) == 1991 && Hash4(Ramp4(2)) == 2004
    ensures Hash4(Ramp4(3)) == 2016 && Hash4(Ramp4(4)) == 2028 && Hash4(Ramp4(5)) == 5880
    ensures Hash4(Ramp4(6)) == 7508 && Hash4(Ramp4(7)) == 1510
  {
    hide Hash4, Ramp4;
    RampNumbers();
    Hash4Is(0x0302_0100, 0x1DB_E37A, 0x3DDB_B100, 1979);
    Hash4Is(0x0403_0201, 0x27A_B9CA, 0x3E3D_DBB1, 1991);
    Hash4Is(0x0504_0302, 0x319_901A, 0x3EA0_0662, 2004);
    Hash4Is(0x0605_0403, 0x3B8_666A, 0x3F02_3113, 2016);
    Hash4Is(0x0706_0504, 0x457_3CBA, 0x3F64_5BC4, 2028);
    Hash4Is(0x0007_0605, 0x4_573C, 0xB7C6_8675, 5880);
    Hash4Is(0x0100_0706, 0x9E_3BD0, 0xEAA0_B126, 7508);
    Hash4Is(0x0201_0007, 0x13D_0D2F, 0x2F35_53D7, 1510);
  }

  /** And in the 32-bit one. */
  lemma RampHashes5()
    ensures Hash5(Ramp8(0)) == 378 && Hash5(Ramp8(1)) == 1393 && Hash5(Ramp8(2)) == 2408
    ensures Hash5(Ramp8(3)) == 3423 && Hash5(Ramp8(4)) == 982 && Hash5(Ramp8(5)) == 2416
    ensures Hash5(Ramp8(6)) == 3832 && Hash5(Ramp8(7)) == 1297
  {
    hide Hash5, Ramp8;
    RampLongNumbers();
    Hash5Is(0x0706_0504_0302_0100, 0x5AE_A0DF_3FD7_9757, 0x17_A752_BB00, 378);
    Hash5Is(0x0007_0605_0403_0201, 0x5_AEA0_DF3F_D797, 0x57_17A7_52BB, 1393);
    Hash5Is(0x0100_0706_0504_0302, 0xCF_216B_7D9A_3FD7, 0x96_87FB_EA76, 2408);
    Hash5Is(0x0201_0007_0605_0403, 0x19F_069B_24F3_9A3F, 0xD5_F850_8231, 3423);
    Hash5Is(0x0302_0100_0706_0504, 0x26E_F23D_3155_F39A, 0x3D_68A5_19EC, 982);
    Hash5Is(0x0403_0201_0007_0605, 0x33E_DDE5_B01D_55F3, 0x97_00F9_B1A7, 2416);
    Hash5Is(0x0504_0302_0100_0706, 0x40E_C98E_3557_1D55, 0xEF_8B76_4962, 3832);
    Hash5Is(0x0605_0403_0201_0007, 0x4DE_B536_BA97_571D, 0x51_14E5_091D, 1297);
  }

  /** The first position's word is not at the others. */
  lemma RampWordsDiffer(j: nat)
    requires 0 < j < 8
    ensures Ramp4(j) != Ramp4(0)
  {
  }

  lemma RampApart(src: seq<Byte>, byU16: bool)
    requires IsRamp(src) && |src| >= 21
    ensures Periodic(src, 8) && Apart(src, 8, byU16)
  {
    RampHashes4();
    RampHashes5();
    hide Hash4, Hash5, FromLe, Ramp4, Ramp8, IsRamp;
    forall k: nat | k < 8 ensures HashPosition(src, k, byU16) == if byU16 then Hash4(Ramp4(k)) else Hash5(Ramp8(k)) {
      RampWords(src, k);
    }
    forall j: nat | 0 < j < 8 ensures !SameWord(src, 0, j) {
      RampWords(src, 0);
      RampWords(src, j);
      RampWordsDiffer(j);
    }
    RampPeriod(src);
  }

  lemma RampPeriod(src: seq<Byte>)
    requires IsRamp(src)
    ensures Periodic(src, 8)
  {
  }

  lemma RampIsShort(src: seq<Byte>)
    requires IsRamp(src) && 21 <= |src| <= MAX_INPUT_SIZE
    ensures |Compressed(src)| <= 18 + |src| / 255
  {
    hide Compressed;
    RampApart(src, |src| < LIMIT_64K);
    PeriodicIsShort(src, 8);
  }

  lemma RampSequence(q: Sequence)
    requires q == SequenceOf([0, 1, 2, 3, 4, 5, 6, 7], 8, 51)
    ensures RenderSequence(q) == [0x8F, 0, 1, 2, 3, 4, 5, 6, 7, 8, 0, 32]
  {
    assert LenBytes(8) == [] && LenBytes(47) == [32];
  }

  lemma RampLast(last: seq<Byte>)
    requires last == [3, 4, 5, 6, 7]
    ensures RenderLast(last, 0) == [0x50, 3, 4, 5, 6, 7]
  {
  }

  /** 64 bytes of it are these 18. */
  lemma RampBlock(src: seq<Byte>)
    requires IsRamp(src) && |src| == 64
    ensures Compressed(src) == [0x8F, 0, 1, 2, 3, 4, 5, 6, 7, 8, 0, 32, 0x50, 3, 4, 5, 6, 7]
  {
    hide WholeParse, IsRamp, Apart, Periodic, RenderSequence, RenderSequences, RenderLast;
    RampApart(src, true);
    PeriodicParse(src, 8, true);
    RampEnds(src);
    var q := SequenceOf(src[..8], 8, 51);
    RampSequence(q);
    OneRendered(q);
    RampLast(src[59..]);
  }

  lemma RampEnds(src: seq<Byte>)
    requires IsRamp(src) && |src| == 64
    ensures src[..8] == [0, 1, 2, 3, 4, 5, 6, 7] && src[59..] == [3, 4, 5, 6, 7]
  {
  }

  lemma OneRendered(q: Sequence)
    requires WellTyped(q)
    ensures AllWellTyped([q]) && RenderSequences([q]) == RenderSequence(q)
  {
    hide RenderSequence;
    assert RenderSequences([q][..0]) == [];
  }
}

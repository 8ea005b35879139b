/** Numbers as machine words: what the operations on numbers do to the bits, in terms of bit vectors. */
module Words {
  import opened Arith
  import opened Bytes

  function Digit(x: bv64): (d: nat)
    ensures d < 2
  {
    if x & 1 == 1 then 1 else 0
  }

  function Rest(x: bv64): bv64 { x >> 1 }

  function Twice(x: bv64): bv64 { x << 1 }

  function Either(x: bv64, y: bv64): bv64 { x | y }

  function Differing(x: bv64, y: bv64): bv64 { x ^ y }

  /** The number whose `w` binary digits are the lowest bits of `x`. */
  function Number(x: bv64, w: nat): nat
  {
    if w == 0 then 0 else Digit(x) + 2 * Number(Rest(x), w - 1)
  }

  lemma {:induction false} NumberBelow(x: bv64, w: nat)
    ensures Number(x, w) < Pow2(w)
    decreases w
  {
    hide Digit, Rest;
    if w > 0 { NumberBelow(Rest(x), w - 1); }
  }

  // ---------------------------------------------------------------- one bit

  lemma DifferingBit(x: bv64, y: bv64)
    ensures Rest(Differing(x, y)) == Differing(Rest(x), Rest(y))
    ensures Digit(Differing(x, y)) == if Digit(x) == Digit(y) then 0 else 1
  {
  }

  predicate Disjoint(x: bv64, y: bv64) { x & y == 0 }

  lemma EitherBit(x: bv64, y: bv64)
    requires Disjoint(x, y)
    ensures Disjoint(Rest(x), Rest(y)) && Rest(Either(x, y)) == Either(Rest(x), Rest(y))
    ensures Digit(Either(x, y)) == Digit(x) + Digit(y)
  {
  }

  lemma TwiceBit(x: bv64)
    ensures Digit(Twice(x)) == 0 && Digit(0) == 0 && Rest(0) == 0
  {
  }

  // ---------------------------------------------------------------- exclusive or and disjoint or

  lemma {:induction false} XorIs(x: bv64, y: bv64, w: nat)
    ensures XorBits(Number(x, w), Number(y, w), w) == Number(x ^ y, w)
    decreases w
  {
    XorDigits(x, y, w);
    assert Differing(x, y) == x ^ y;
  }

  lemma {:induction false} XorDigits(x: bv64, y: bv64, w: nat)
    ensures XorBits(Number(x, w), Number(y, w), w) == Number(Differing(x, y), w)
    decreases w
  {
    hide Digit, Rest, Differing, XorBits;
    NoXor();
    if w > 0 {
      DifferingBit(x, y);
      XorDigits(Rest(x), Rest(y), w - 1);
      XorStep(Digit(x), Digit(y), Number(Rest(x), w - 1), Number(Rest(y), w - 1), w - 1);
    }
  }

  lemma NoXor()
    ensures XorBits(0, 0, 0) == 0
  {
  }

  lemma XorStep(d: nat, e: nat, a: nat, b: nat, w: nat)
    requires d < 2 && e < 2
    ensures XorBits(d + 2 * a, e + 2 * b, w + 1) == (if d == e then 0 else 1) + 2 * XorBits(a, b, w)
  {
    assert (d + 2 * a) / 2 == a && (e + 2 * b) / 2 == b;
  }

  lemma {:induction false} EitherIs(x: bv64, y: bv64, w: nat)
    requires Disjoint(x, y)
    ensures Number(Either(x, y), w) == Number(x, w) + Number(y, w)
    decreases w
  {
    hide Digit, Rest, Either, Disjoint;
    if w > 0 {
      EitherBit(x, y);
      EitherIs(Rest(x), Rest(y), w - 1);
    }
  }

  lemma {:induction false} NoDigits(w: nat)
    ensures Number(0, w) == 0
  {
    TwiceBit(0);
    hide Digit, Rest;
    if w > 0 { NoDigits(w - 1); }
  }

  // ---------------------------------------------------------------- shifts

  /** `r` shifts by one place. */
  function Down(x: bv64, r: nat): bv64 { if r == 0 then x else Down(Rest(x), r - 1) }

  function Up(x: bv64, r: nat): bv64 { if r == 0 then x else Twice(Up(x, r - 1)) }

  lemma {:induction false} DownAgain(x: bv64, a: nat, b: nat)
    ensures Down(x, a + b) == Down(Down(x, a), b)
    decreases a
  {
    hide Rest;
    if a > 0 { DownAgain(Rest(x), a - 1, b); }
  }

  lemma {:induction false} UpAgain(x: bv64, a: nat, b: nat)
    ensures Up(x, a + b) == Up(Up(x, a), b)
    decreases b
  {
    hide Twice;
    if b > 0 { UpAgain(x, a, b - 1); }
  }

  /** Shifting right drops digits. */
  lemma {:induction false} DropDigits(x: bv64, w: nat, r: nat)
    requires r <= w
    ensures Shr(Number(x, w), r) == Number(Down(x, r), w - r)
    decreases r
  {
    hide Digit, Rest;
    if r > 0 { DropDigits(Rest(x), w - 1, r - 1); }
  }

  /** Digits past the last one are zeros. */
  lemma {:induction false} NoMoreDigits(x: bv64, w: nat, r: nat)
    requires r <= w && Down(x, r) == 0
    ensures Number(x, w) == Number(x, r)
    decreases r
  {
    hide Digit, Rest;
    if r == 0 { NoDigits(w); } else { NoMoreDigits(Rest(x), w - 1, r - 1); }
  }

  lemma {:induction false} TopDigit(x: bv64, w: nat) returns (d: nat)
    ensures d < 2 && Number(x, w + 1) == Number(x, w) + d * Pow2(w)
    decreases w
  {
    hide Digit, Rest;
    if w == 0 {
      d := Digit(x);
      assert Pow2(0) == 1 && Number(Rest(x), 0) == 0 && d * Pow2(0) == d;
    } else {
      d := TopDigit(Rest(x), w - 1);
      assert 2 * (d * Pow2(w - 1)) == d * Pow2(w);
    }
  }

  /** The lowest `n` bits of `mask` are set. */
  predicate Ones(mask: bv64, n: nat) { n == 0 || (Digit(mask) == 1 && Ones(Rest(mask), n - 1)) }

  function Masked(x: bv64, mask: bv64): bv64 { x & mask }

  lemma MaskBit(x: bv64, mask: bv64)
    requires Digit(mask) == 1
    ensures Digit(Masked(x, mask)) == Digit(x) && Rest(Masked(x, mask)) == Masked(Rest(x), Rest(mask))
  {
  }

  lemma {:induction false} MaskKeeps(x: bv64, mask: bv64, w: nat)
    requires Ones(mask, w)
    ensures Number(Masked(x, mask), w) == Number(x, w)
    decreases w
  {
    hide Digit, Rest, Masked;
    if w > 0 {
      MaskBit(x, mask);
      MaskKeeps(Rest(x), Rest(mask), w - 1);
    }
  }

  lemma {:induction false} OnesAgain(mask: bv64, a: nat, b: nat)
    requires Ones(mask, a) && Ones(Down(mask, a), b)
    ensures Ones(mask, a + b)
    decreases a
  {
    hide Digit, Rest;
    if a > 0 { OnesAgain(Rest(mask), a - 1, b); }
  }

  lemma {:induction false} FewerOnes(mask: bv64, a: nat, b: nat)
    requires Ones(mask, a) && b <= a
    ensures Ones(mask, b)
    decreases b
  {
    hide Digit, Rest;
    if b > 0 { FewerOnes(Rest(mask), a - 1, b - 1); }
  }

  lemma DownOne(x: bv64)
    ensures Down(x, 1) == x >> 1
  {
    assert Down(Rest(x), 0) == Rest(x);
  }

  /** `r` places, in two parts. */
  lemma InParts(x: bv64, a: nat, y: bv64, b: nat, z: bv64, r: nat)
    requires Down(x, a) == y && Down(y, b) == z && r == a + b
    ensures Down(x, r) == z
  {
    hide Rest;
    DownAgain(x, a, b);
  }

  lemma DownTwo(x: bv64)
    ensures Down(x, 2) == x >> 2
  {
    hide Down;
    DownOne(x);
    DownOne(x >> 1);
    InParts(x, 1, x >> 1, 1, x >> 2, 2);
  }

  lemma DownFour(x: bv64)
    ensures Down(x, 4) == x >> 4
  {
    hide Down;
    DownTwo(x);
    DownTwo(x >> 2);
    InParts(x, 2, x >> 2, 2, x >> 4, 4);
  }

  lemma DownEight(x: bv64)
    ensures Down(x, 8) == x >> 8
  {
    hide Down;
    DownFour(x);
    DownFour(x >> 4);
    InParts(x, 4, x >> 4, 4, x >> 8, 8);
  }

  lemma DownSixteen(x: bv64)
    ensures Down(x, 16) == x >> 16
  {
    hide Down;
    DownEight(x);
    DownEight(x >> 8);
    InParts(x, 8, x >> 8, 8, x >> 16, 16);
  }

  lemma DownWord(x: bv64)
    ensures Down(x, 32) == x >> 32
  {
    hide Down;
    DownSixteen(x);
    DownSixteen(x >> 16);
    InParts(x, 16, x >> 16, 16, x >> 32, 32);
  }

  /** Nothing is left 64 places down. */
  lemma DownAll(x: bv64)
    ensures Down(x, 64) == 0
  {
    hide Down;
    DownWord(x);
    DownWord(x >> 32);
    InParts(x, 32, x >> 32, 32, 0, 64);
  }

  lemma OnesTwo(m: bv64)
    requires m & 3 == 3
    ensures Ones(m, 2)
  {
    assert Ones(Rest(Rest(m)), 0) && Digit(Rest(m)) == 1 && Digit(m) == 1;
    assert Ones(Rest(m), 1);
  }

  lemma OnesFour(m: bv64)
    requires m & 0xF == 0xF
    ensures Ones(m, 4)
  {
    DownTwo(m);
    OnesTwo(m);
    OnesTwo(m >> 2);
    OnesAgain(m, 2, 2);
  }

  lemma OnesEight(m: bv64)
    requires m & 0xFF == 0xFF
    ensures Ones(m, 8)
  {
    DownFour(m);
    OnesFour(m);
    OnesFour(m >> 4);
    OnesAgain(m, 4, 4);
  }

  lemma OnesSixteen(m: bv64)
    requires m & 0xFFFF == 0xFFFF
    ensures Ones(m, 16)
  {
    DownEight(m);
    OnesEight(m);
    OnesEight(m >> 8);
    OnesAgain(m, 8, 8);
  }

  lemma OnesWord(m: bv64)
    requires m & 0xFFFF_FFFF == 0xFFFF_FFFF
    ensures Ones(m, 32)
  {
    DownSixteen(m);
    OnesSixteen(m);
    OnesSixteen(m >> 16);
    OnesAgain(m, 16, 16);
  }

  lemma OnesAll()
    ensures Ones(0xFFFF_FFFF_FFFF_FFFF, 64)
  {
    var m: bv64 := 0xFFFF_FFFF_FFFF_FFFF;
    DownWord(m);
    OnesWord(m);
    OnesWord(m >> 32);
    OnesAgain(m, 32, 32);
  }

  // ---------------------------------------------------------------- shifts to the left

  /** The top bit goes. */
  lemma TwiceRest(x: bv64)
    ensures Rest(Twice(x)) == Masked(x, Rest(0xFFFF_FFFF_FFFF_FFFF)) && Digit(Twice(x)) == 0
  {
  }

  /** The low `w - 1` digits stay, one place up. */
  lemma TwiceDigits(x: bv64, w: nat)
    requires 0 < w <= 64
    ensures Number(Twice(x), w) == 2 * Number(x, w - 1)
  {
    hide Digit, Rest, Twice, Masked, Ones;
    TwiceRest(x);
    OnesAll();
    FewerOnes(0xFFFF_FFFF_FFFF_FFFF, 64, w);
    OnesRest(0xFFFF_FFFF_FFFF_FFFF, w);
    MaskKeeps(x, Rest(0xFFFF_FFFF_FFFF_FFFF), w - 1);
  }

  lemma OnesRest(mask: bv64, n: nat)
    requires n > 0 && Ones(mask, n)
    ensures Ones(Rest(mask), n - 1)
  {
  }

  lemma TwiceIs(x: bv64, w: nat)
    requires 0 < w <= 64
    ensures Number(Twice(x), w) == 2 * Number(x, w) % Pow2(w)
  {
    hide Number, Digit, Rest, Twice, Masked, Ones;
    TwiceDigits(x, w);
    var d := TopDigit(x, w - 1);
    NumberBelow(x, w - 1);
    assert 2 * (d * Pow2(w - 1)) == d * Pow2(w);
    ModUnique(2 * Number(x, w), Pow2(w), d, 2 * Number(x, w - 1));
  }

  lemma {:induction false} UpIs(x: bv64, w: nat, r: nat)
    requires 0 < w <= 64
    ensures Number(Up(x, r), w) == Number(x, w) * Pow2(r) % Pow2(w)
    decreases r
  {
    hide Number, Twice;
    var n := Number(x, w);
    if r == 0 {
      NumberBelow(x, w);
      NoFactor(n, Pow2(w));
    } else {
      UpIs(x, w, r - 1);
      TwiceIs(Up(x, r - 1), w);
      hide Pow2;
      NextFactor(n, Pow2(w), r);
    }
  }

  lemma NoFactor(n: nat, m: nat)
    requires n < m
    ensures n * Pow2(0) % m == n
  {
    assert n * Pow2(0) == n;
    ModUnique(n, m, 0, n);
  }

  lemma NextFactor(n: nat, m: nat, r: nat)
    requires m > 0 && r > 0
    ensures 2 * (n * Pow2(r - 1) % m) % m == n * Pow2(r) % m
  {
    var k := n * Pow2(r - 1);
    assert k + k == n * (2 * Pow2(r - 1)) == n * Pow2(r);
    ModAdds(k, k, m);
    assert 2 * (k % m) == k % m + k % m;
  }

  // ---------------------------------------------------------------- rotation

  lemma DisjointBit(u: bv64, y: bv64)
    requires Disjoint(u, Rest(y))
    ensures Disjoint(Twice(u), y)
  {
  }

  /** What has few digits does not meet what has been shifted past them. */
  lemma {:induction false} UpIsDisjoint(x: bv64, y: bv64, r: nat)
    requires Down(y, r) == 0
    ensures Disjoint(Up(x, r), y)
    decreases r
  {
    if r > 0 {
      hide Rest, Twice, Disjoint;
      UpIsDisjoint(x, Rest(y), r - 1);
      DisjointBit(Up(x, r - 1), y);
    }
  }

  /** Rotating to the left: up by `r` places, and what falls out comes in below. */
  lemma RotationIs(x: bv64, w: nat, r: nat)
    requires 0 < r < w <= 64 && Down(x, w) == 0
    ensures Number(Either(Up(x, r), Down(x, w - r)), w) == Number(x, w) * Pow2(r) % Pow2(w) + Shr(Number(x, w), w - r)
  {
    hide Number, Up, Down, Shr, Either, Disjoint, Pow2;
    DownAgain(x, w - r, r);
    UpIsDisjoint(x, Down(x, w - r), r);
    EitherIs(Up(x, r), Down(x, w - r), w);
    UpIs(x, w, r);
    DropDigits(x, w, w - r);
    NoMoreDigits(Down(x, w - r), w, r);
  }

  /** A shift to the right keeps the width. */
  lemma ShiftIs(x: bv64, w: nat, r: nat)
    requires r <= w && Down(x, w) == 0
    ensures Shr(Number(x, w), r) == Number(Down(x, r), w)
  {
    hide Number, Down, Shr;
    DropDigits(x, w, r);
    DownAgain(x, r, w - r);
    NoMoreDigits(Down(x, r), w, w - r);
  }

  // ---------------------------------------------------------------- the number of a given word

  function Nibble(x: bv64): nat
  {
    (if x & 1 == 1 then 1 else 0) + (if x & 2 == 2 then 2 else 0)
    + (if x & 4 == 4 then 4 else 0) + (if x & 8 == 8 then 8 else 0)
  }

  function Next4(x: bv64): bv64 { x >> 4 }

  lemma SecondDigit(x: bv64)
    ensures Digit(Rest(x)) == if x & 2 == 2 then 1 else 0
  {
  }

  lemma ThirdDigit(x: bv64)
    ensures Digit(Rest(Rest(x))) == if x & 4 == 4 then 1 else 0
  {
  }

  lemma FourthDigit(x: bv64)
    ensures Digit(Rest(Rest(Rest(x)))) == if x & 8 == 8 then 1 else 0
  {
  }

  lemma FourPlaces(x: bv64)
    ensures Next4(x) == Rest(Rest(Rest(Rest(x))))
  {
  }

  lemma NibbleBits(x: bv64)
    ensures Nibble(x) == Digit(x) + 2 * (Digit(Rest(x)) + 2 * (Digit(Rest(Rest(x))) + 2 * Digit(Rest(Rest(Rest(x))))))
  {
    SecondDigit(x);
    ThirdDigit(x);
    FourthDigit(x);
    hide Rest;
  }

  lemma FourDigits(x: bv64, w: nat)
    ensures Number(x, w + 4) == Nibble(x) + 16 * Number(Next4(x), w)
  {
    hide Nibble, Next4, Digit, Rest;
    NibbleBits(x);
    FourPlaces(x);
    assert Number(Rest(x), w + 3) == Digit(Rest(x)) + 2 * Number(Rest(Rest(x)), w + 2);
    assert Number(Rest(Rest(x)), w + 2) == Digit(Rest(Rest(x))) + 2 * Number(Rest(Rest(Rest(x))), w + 1);
  }

  function LowByte(x: bv64): Byte { ((x & 0xFF) as bv8) as Byte }

  function Next8(x: bv64): bv64 { x >> 8 }

  lemma ByteBits(b: bv8)
    ensures b as nat == (if b & 1 == 1 then 1 else 0) + (if b & 2 == 2 then 2 else 0)
                        + (if b & 4 == 4 then 4 else 0) + (if b & 8 == 8 then 8 else 0)
                        + (if b & 16 == 16 then 16 else 0) + (if b & 32 == 32 then 32 else 0)
                        + (if b & 64 == 64 then 64 else 0) + (if b & 128 == 128 then 128 else 0)
  {
  }

  lemma SameBits(x: bv64, b: bv8)
    requires b == (x & 0xFF) as bv8
    ensures (b & 1 == 1 <==> x & 1 == 1) && (b & 2 == 2 <==> x & 2 == 2)
    ensures (b & 4 == 4 <==> x & 4 == 4) && (b & 8 == 8 <==> x & 8 == 8)
    ensures (b & 16 == 16 <==> Next4(x) & 1 == 1) && (b & 32 == 32 <==> Next4(x) & 2 == 2)
    ensures (b & 64 == 64 <==> Next4(x) & 4 == 4) && (b & 128 == 128 <==> Next4(x) & 8 == 8)
  {
  }

  lemma TwoNibbles(x: bv64)
    ensures LowByte(x) == Nibble(x) + 16 * Nibble(Next4(x))
  {
    hide Next4;
    ByteBits((x & 0xFF) as bv8);
    SameBits(x, (x & 0xFF) as bv8);
  }

  lemma FourTwice(x: bv64)
    ensures Next4(Next4(x)) == Next8(x)
  {
  }

  lemma EightDigits(x: bv64, w: nat)
    ensures Number(x, w + 8) == LowByte(x) + 256 * Number(Next8(x), w)
  {
    hide Nibble, Next4, Next8, LowByte, Number;
    FourDigits(x, w + 4);
    FourDigits(Next4(x), w);
    TwoNibbles(x);
    FourTwice(x);
  }

  function Low16(x: bv64): nat { LowByte(x) + 0x100 * LowByte(Next8(x)) }

  function Low32(x: bv64): nat { Low16(x) + 0x1_0000 * Low16(Next8(Next8(x))) }

  function Next32(x: bv64): bv64 { Next8(Next8(Next8(Next8(x)))) }

  lemma SixteenDigits(x: bv64, w: nat)
    ensures Number(x, w + 16) == Low16(x) + 0x1_0000 * Number(Next8(Next8(x)), w)
  {
    hide LowByte, Next8, Number;
    EightDigits(x, w + 8);
    EightDigits(Next8(x), w);
  }

  lemma HalfDigits(x: bv64, w: nat)
    ensures Number(x, w + 32) == Low32(x) + 0x1_0000_0000 * Number(Next32(x), w)
  {
    hide Low16, Next8, Number;
    SixteenDigits(x, w + 16);
    SixteenDigits(Next8(Next8(x)), w);
  }

  lemma NumberIs(x: bv64)
    ensures Number(x, 32) == Low32(x) && Number(x, 64) == Low32(x) + 0x1_0000_0000 * Low32(Next32(x))
  {
    hide Low32, Next32, Number;
    HalfDigits(x, 0);
    HalfDigits(x, 32);
    HalfDigits(Next32(x), 0);
    NoWidth(Next32(x));
    NoWidth(Next32(Next32(x)));
  }

  lemma NoWidth(x: bv64)
    ensures Number(x, 0) == 0
  {
  }

  /** The same, byte by byte. */
  function Bytes32(x: bv64): nat
  {
    LowByte(x) + 0x100 * LowByte(x >> 8) + 0x1_0000 * LowByte(x >> 16) + 0x100_0000 * LowByte(x >> 24)
  }

  function Bytes64(x: bv64): nat
  {
    Bytes32(x) + 0x1_0000_0000 * LowByte(x >> 32) + 0x100_0000_0000 * LowByte(x >> 40)
    + 0x1_0000_0000_0000 * LowByte(x >> 48) + 0x100_0000_0000_0000 * LowByte(x >> 56)
  }

  lemma BytePlaces(x: bv64)
    ensures Next8(x) == x >> 8 && Next8(x >> 8) == x >> 16 && Next8(x >> 16) == x >> 24 && Next8(x >> 24) == x >> 32
    ensures Next8(x >> 32) == x >> 40 && Next8(x >> 40) == x >> 48 && Next8(x >> 48) == x >> 56
  {
  }

  lemma NumberByBytes(x: bv64)
    ensures Number(x, 32) == Bytes32(x) && Number(x, 64) == Bytes64(x)
  {
    hide LowByte, Next8, Number;
    BytePlaces(x);
    NumberIs(x);
  }
}

/** Bytes, little-endian integers, and the few sequence facts the other modules share. */
module Bytes {
  type Byte = x: int | 0 <= x < 256

  /** The `width` low-order bytes of `n`, least significant first. */
  function ToLe(n: nat, width: nat): (s: seq<Byte>)
    ensures |s| == width
  {
    if width == 0 then [] else [n % 256] + ToLe(n / 256, width - 1)
  }

  /** The number whose little-endian representation is `s`. */
  function FromLe(s: seq<Byte>): nat
  {
    if s == [] then 0 else s[0] + 256 * FromLe(s[1..])
  }

  function Pow256(width: nat): (p: nat)
    ensures p >= 1
  {
    if width == 0 then 1 else 256 * Pow256(width - 1)
  }

  lemma {:induction false} LeRoundTrip(n: nat, width: nat)
    requires n < Pow256(width)
    ensures FromLe(ToLe(n, width)) == n
  {
    if width > 0 {
      LeRoundTrip(n / 256, width - 1);
      assert ToLe(n, width)[1..] == ToLe(n / 256, width - 1);
    }
  }

  /** Words of equal width are equal exactly when all of their bytes are. */
  lemma {:induction false} LeInjective(s: seq<Byte>, t: seq<Byte>)
    requires |s| == |t|
    ensures FromLe(s) == FromLe(t) <==> s == t
  {
    if s != [] {
      LeInjective(s[1..], t[1..]);
      assert s == [s[0]] + s[1..] && t == [t[0]] + t[1..];
    }
  }

  lemma FourBytes(s: seq<Byte>)
    requires |s| == 4
    ensures FromLe(s) == s[0] as nat + 0x100 * s[1] as nat + 0x1_0000 * s[2] as nat + 0x100_0000 * s[3] as nat
  {
    hide FromLe;
    FirstByte(s);
    FirstByte(s[1..]);
    FirstByte(s[2..]);
    FirstByte(s[3..]);
    assert s[1..][1..] == s[2..] && s[2..][1..] == s[3..] && s[3..][1..] == [];
    NoByte();
  }

  lemma EightBytes(s: seq<Byte>)
    requires |s| == 8
    ensures FromLe(s) == FromLe(s[..4]) + 0x1_0000_0000 * FromLe(s[4..])
  {
    hide FromLe;
    FirstByte(s);
    FirstByte(s[1..]);
    FirstByte(s[2..]);
    FirstByte(s[3..]);
    assert s[1..][1..] == s[2..] && s[2..][1..] == s[3..] && s[3..][1..] == s[4..];
    FourBytes(s[..4]);
  }

  lemma NoByte()
    ensures FromLe([]) == 0
  {
  }

  lemma FirstByte(s: seq<Byte>)
    requires s != []
    ensures FromLe(s) == s[0] + 256 * FromLe(s[1..])
  {
  }

  /** Exclusive or of two `width`-bit numbers, bit by bit. */
  function XorBits(a: nat, b: nat, width: nat): nat
  {
    if width == 0 then 0
    else (if a % 2 == b % 2 then 0 else 1) + 2 * XorBits(a / 2, b / 2, width - 1)
  }

  function Pow2(n: nat): (p: nat)
    ensures p >= 1
  {
    if n == 0 then 1 else 2 * Pow2(n - 1)
  }

  /** Shifted right by `r` places. */
  function Shr(a: nat, r: nat): nat
  {
    if r == 0 then a else Shr(a / 2, r - 1)
  }

  lemma {:induction false} XorBitsBound(a: nat, b: nat, width: nat)
    requires a < Pow2(width) && b < Pow2(width)
    ensures XorBits(a, b, width) < Pow2(width)
    ensures XorBits(a, b, width) == 0 <==> a == b
  {
    if width > 0 {
      XorBitsBound(a / 2, b / 2, width - 1);
    }
  }

  /** The chunks of a stream, joined. */
  function Concat(chunks: seq<seq<Byte>>): seq<Byte>
  {
    if chunks == [] then [] else Concat(chunks[..|chunks| - 1]) + chunks[|chunks| - 1]
  }

  function Min(a: int, b: int): int { if a <= b then a else b }

  function Max(a: int, b: int): int { if a <= b then b else a }

  /** A slice of a slice. */
  lemma SameSlice(data: seq<Byte>, n: nat, whole: seq<Byte>, at: nat, i: nat, j: nat)
    requires n <= |data| && at + n <= |whole| && data[..n] == whole[at..at + n] && i <= j <= n
    ensures data[i..j] == whole[at + i..at + j]
  {
    forall k: nat | k < j - i ensures data[i..j][k] == whole[at + i..at + j][k] {
      assert data[..n][i + k] == whole[at..at + n][i + k];
    }
  }

  /** The middle of three parts. */
  lemma MiddlePart(s: seq<Byte>, a: seq<Byte>, b: seq<Byte>, c: seq<Byte>)
    requires s == a + b + c
    ensures |a| + |b| <= |s| && s[|a|..|a| + |b|] == b
  {
  }

  /** `dest` with `data` over its bytes from `at` on. */
  function Patch(dest: seq<Byte>, at: nat, data: seq<Byte>): (r: seq<Byte>)
    requires at + |data| <= |dest|
    ensures |r| == |dest|
  {
    dest[..at] + data + dest[at + |data|..]
  }

  /** memcpy of all of `data` to `a + at`. */
  method CopyInto(a: array<Byte>, at: nat, data: seq<Byte>)
    requires at + |data| <= a.Length
    modifies a
    ensures a[..] == Patch(old(a[..]), at, data)
  {
    for i: nat := 0 to |data|
      invariant a[..at] == old(a[..at]) && a[at + |data|..] == old(a[at + |data|..])
      invariant a[at..at + i] == data[..i]
    {
      a[at + i] := data[i];
    }
  }
}

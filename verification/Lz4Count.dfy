/** LZ4_count: how long two positions of one buffer stay equal, eight bytes at a time. */
module Lz4Count {
  import opened Bytes

  predicate Agree(src: seq<Byte>, p: nat, m: nat, n: nat)
    requires m <= p && p + n <= |src|
  {
    forall i :: p <= i < p + n ==> src[i] == src[i - (p - m)]
  }

  /** The length of the common run of `p` and `m`, where `p` stops at `limit`: the bytes agree up
      to it, and it cannot be extended. */
  function CommonLength(src: seq<Byte>, p: nat, m: nat, limit: nat): (n: nat)
    requires m <= p && limit <= |src|
    ensures p <= limit ==> p + n <= limit && Agree(src, p, m, n)
    ensures p > limit ==> n == 0
    ensures p + n < limit ==> src[p + n] != src[m + n]
    decreases limit - p
  {
    if p >= limit || src[p] != src[m] then 0
    else 1 + CommonLength(src, p + 1, m + 1, limit)
  }

  /** Bytes known to agree can be counted first. */
  lemma {:induction false} CommonLengthSkip(src: seq<Byte>, p: nat, m: nat, limit: nat, n: nat)
    requires m <= p && limit <= |src| && p + n <= limit && Agree(src, p, m, n)
    ensures CommonLength(src, p, m, limit) == n + CommonLength(src, p + n, m + n, limit)
    decreases n
  {
    if n > 0 {
      assert src[p] == src[m];
      CommonLengthSkip(src, p + 1, m + 1, limit, n - 1);
    }
  }

  // ---------------------------------------------------------------- machine words
  // A little-endian word is kept as its bytes, least significant first.

  function XorByte(a: Byte, b: Byte): (r: Byte)
    ensures r == 0 <==> a == b
  {
    assert Pow2(8) == 256;
    XorBitsBound(a, b, 8);
    XorBits(a, b, 8)
  }

  function Xor(a: seq<Byte>, b: seq<Byte>): (r: seq<Byte>)
    requires |a| == |b|
    ensures |r| == |a| && forall i :: 0 <= i < |a| ==> (r[i] == 0 <==> a[i] == b[i])
  {
    if a == [] then [] else [XorByte(a[0], b[0])] + Xor(a[1..], b[1..])
  }

  function ByteTrailingZeros(b: Byte): (n: nat)
    requires b != 0
    ensures n < 8
  {
    if b % 2 == 1 then 0 else if b / 2 % 2 == 1 then 1 else if b / 4 % 2 == 1 then 2
    else if b / 8 % 2 == 1 then 3 else if b / 16 % 2 == 1 then 4 else if b / 32 % 2 == 1 then 5
    else if b / 64 % 2 == 1 then 6 else 7
  }

  function IsZero(word: seq<Byte>): bool { forall i :: 0 <= i < |word| ==> word[i] == 0 }

  /** Trailing zero bits of a nonzero word. */
  function TrailingZeros(word: seq<Byte>): nat
    requires !IsZero(word)
  {
    if word[0] != 0 then ByteTrailingZeros(word[0])
    else
      assert exists i :: 1 <= i < |word| && word[i] == word[1..][i - 1] != 0;
      8 + TrailingZeros(word[1..])
  }

  /** LZ4_NbCommonBytes. */
  function NbCommonBytes(diff: seq<Byte>): nat
    requires !IsZero(diff)
  {
    TrailingZeros(diff) / 8
  }

  /** The trailing zero bits of a difference locate its first differing byte. */
  lemma {:induction false} FirstDifference(word: seq<Byte>)
    requires !IsZero(word)
    ensures var n := NbCommonBytes(word);
            n < |word| && word[n] != 0 && forall i :: 0 <= i < n ==> word[i] == 0
  {
    if word[0] == 0 {
      assert exists i :: 1 <= i < |word| && word[i] == word[1..][i - 1] != 0;
      FirstDifference(word[1..]);
      var n := NbCommonBytes(word[1..]);
      assert NbCommonBytes(word) == n + 1;
      forall i | 1 <= i < n + 1 ensures word[i] == 0 { assert word[i] == word[1..][i - 1]; }
    }
  }

  /** Where the runs first differ is where they stop being common. */
  lemma StopsAt(src: seq<Byte>, p: nat, m: nat, limit: nat, n: nat)
    requires m <= p && p + n < limit <= |src| && Agree(src, p, m, n) && src[p + n] != src[m + n]
    ensures CommonLength(src, p, m, limit) == n
  {
    CommonLengthSkip(src, p, m, limit, n);
  }

  lemma SameWhereZero(src: seq<Byte>, p: nat, m: nat, n: nat, i: nat)
    requires m <= p && p + n <= |src| && i < n
    ensures Xor(src[m..m + n], src[p..p + n])[i] == 0 <==> src[p + i] == src[m + i]
  {
    hide XorByte;
  }

  lemma ZerosAgree(src: seq<Byte>, p: nat, m: nat, n: nat, k: nat, diff: seq<Byte>)
    requires m <= p && p + n <= |src| && k <= n && diff == Xor(src[m..m + n], src[p..p + n])
    requires forall i :: 0 <= i < k ==> diff[i] == 0
    ensures Agree(src, p, m, k)
  {
    hide Xor;
    forall i | p <= i < p + k ensures src[i] == src[i - (p - m)] {
      SameWhereZero(src, p, m, n, i - p);
    }
  }

  lemma WordDiffers(src: seq<Byte>, p: nat, m: nat, limit: nat, width: nat, diff: seq<Byte>)
    requires m <= p && p + width <= limit <= |src| && diff == Xor(src[m..m + width], src[p..p + width]) && !IsZero(diff)
    ensures CommonLength(src, p, m, limit) == NbCommonBytes(diff)
  {
    hide Xor, CommonLength, NbCommonBytes, Agree, XorByte, IsZero;
    FirstDifference(diff);
    var n := NbCommonBytes(diff);
    ZerosAgree(src, p, m, width, n, diff);
    SameWhereZero(src, p, m, width, n);
    StopsAt(src, p, m, limit, n);
  }

  lemma WordAgrees(src: seq<Byte>, p: nat, m: nat, limit: nat, width: nat, diff: seq<Byte>)
    requires m <= p && p + width <= limit <= |src| && diff == Xor(src[m..m + width], src[p..p + width]) && IsZero(diff)
    ensures CommonLength(src, p, m, limit) == width + CommonLength(src, p + width, m + width, limit)
  {
    hide Xor, CommonLength, Agree, XorByte;
    ZerosAgree(src, p, m, width, width, diff);
    CommonLengthSkip(src, p, m, limit, width);
  }

  /** One round of the word loop: eight bytes in common, or the length is known. */
  lemma DifferenceStep(src: seq<Byte>, p: nat, m: nat, limit: nat)
    requires m <= p && p + 8 <= limit <= |src|
    ensures var diff := Xor(src[m..m + 8], src[p..p + 8]);
            CommonLength(src, p, m, limit) ==
            if IsZero(diff) then 8 + CommonLength(src, p + 8, m + 8, limit) else NbCommonBytes(diff)
  {
    hide Xor, CommonLength, NbCommonBytes, IsZero;
    var diff := Xor(src[m..m + 8], src[p..p + 8]);
    if IsZero(diff) {
      WordAgrees(src, p, m, limit, 8, diff);
    } else {
      WordDiffers(src, p, m, limit, 8, diff);
    }
  }

  lemma WordStep(src: seq<Byte>, p: nat, m: nat, limit: nat, n: nat)
    requires m <= p && p + n <= limit <= |src|
    ensures FromLe(src[m..m + n]) == FromLe(src[p..p + n])
       ==> CommonLength(src, p, m, limit) == n + CommonLength(src, p + n, m + n, limit)
    ensures FromLe(src[m..m + n]) != FromLe(src[p..p + n]) ==> CommonLength(src, p, m, limit) < n
  {
    hide FromLe;
    LeInjective(src[m..m + n], src[p..p + n]);
    if src[m..m + n] == src[p..p + n] {
      forall i | p <= i < p + n ensures src[i] == src[i - (p - m)] {
        assert src[p..p + n][i - p] == src[m..m + n][i - p];
      }
      CommonLengthSkip(src, p, m, limit, n);
    } else if CommonLength(src, p, m, limit) >= n {
      var a, b := src[p..p + n], src[m..m + n];
      forall k | 0 <= k < n ensures a[k] == b[k] {
        assert src[p + k] == src[p + k - (p - m)];
      }
    }
  }

  /** The word loop, then one 4-, 2- and 1-byte step. */
  method Count(src: seq<Byte>, pIn0: nat, pMatch0: nat, pInLimit: nat) returns (n: nat)
    requires pMatch0 <= pIn0 && pInLimit <= |src|
    ensures n == CommonLength(src, pIn0, pMatch0, pInLimit)
  {
    hide CommonLength, FromLe, NbCommonBytes, IsZero, Xor;
    var pIn, pMatch := pIn0, pMatch0;
    while pIn < pInLimit - 7
      invariant pIn0 <= pIn && pMatch == pMatch0 + (pIn - pIn0)
      invariant CommonLength(src, pIn0, pMatch0, pInLimit) == (pIn - pIn0) + CommonLength(src, pIn, pMatch, pInLimit)
    {
      var diff := Xor(src[pMatch..pMatch + 8], src[pIn..pIn + 8]);
      DifferenceStep(src, pIn, pMatch, pInLimit);
      if !IsZero(diff) {
        pIn := pIn + NbCommonBytes(diff);
        return pIn - pIn0;
      }
      pIn, pMatch := pIn + 8, pMatch + 8;
    }
    n := CountTail(src, pIn, pMatch, pInLimit);
    n := n + (pIn - pIn0);
  }

  /** Skip `width` bytes if they fit before the limit and agree as one word. */
  method SkipWord(src: seq<Byte>, p: nat, m: nat, limit: nat, width: nat) returns (n: nat)
    requires m <= p <= limit <= |src| && width > 0
    ensures n <= width && p + n <= limit
    ensures CommonLength(src, p, m, limit) == n + CommonLength(src, p + n, m + n, limit)
    ensures CommonLength(src, p, m, limit) < 2 * width ==> CommonLength(src, p + n, m + n, limit) < width
  {
    hide FromLe, CommonLength;
    n := 0;
    if p < limit - (width - 1) {
      WordStep(src, p, m, limit, width);
      if FromLe(src[m..m + width]) == FromLe(src[p..p + width]) {
        n := width;
      }
    }
  }

  lemma LastByte(src: seq<Byte>, p: nat, m: nat, limit: nat)
    requires m <= p <= limit <= |src| && CommonLength(src, p, m, limit) < 2
    ensures CommonLength(src, p, m, limit) == if p < limit && src[p] == src[m] then 1 else 0
  {
  }

  method CountTail(src: seq<Byte>, pIn0: nat, pMatch0: nat, pInLimit: nat) returns (n: nat)
    requires pMatch0 <= pIn0 && pInLimit <= |src| && pIn0 >= pInLimit - 7
    ensures n == CommonLength(src, pIn0, pMatch0, pInLimit)
  {
    hide CommonLength, Agree;
    if pIn0 > pInLimit {
      return 0;
    }
    n := SkipWord(src, pIn0, pMatch0, pInLimit, 4);
    var k := SkipWord(src, pIn0 + n, pMatch0 + n, pInLimit, 2);
    n := n + k;
    LastByte(src, pIn0 + n, pMatch0 + n, pInLimit);
    if pIn0 + n < pInLimit && src[pMatch0 + n] == src[pIn0 + n] {
      n := n + 1;
    }
  }
}

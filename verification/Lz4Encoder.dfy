/** Writing one sequence and the last literals into the output array, as both compressors do. */
module Lz4Encoder {
  import opened Bytes
  import opened Lz4Copy
  import opened Lz4Format

  // ---------------------------------------------------------------- length extensions

  /** `q` full bytes, then a remainder. */
  lemma {:induction false} ExtBytesShape(q: nat, r: nat)
    requires r < 255
    ensures ExtBytes(255 * q + r) == seq(q, i => 255) + [r]
  {
    if q > 0 {
      ExtBytesShape(q - 1, r);
      assert seq(q, i => 255) == [255] + seq(q - 1, i => 255);
    }
  }

  /** The extension costs at most one byte in 255. */
  lemma {:induction false} ExtBytesCost(n: nat)
    ensures 255 * |ExtBytes(n)| <= n + 255
  {
    if n >= 255 { ExtBytesCost(n - 255); }
  }

  lemma LenBytesCost(n: nat)
    ensures 255 * |LenBytes(n)| <= n + 240
    ensures n < RUN_MASK ==> LenBytes(n) == []
  {
    if n >= RUN_MASK { ExtBytesCost(n - RUN_MASK); }
  }

  /** The extension written byte by byte. */
  method WriteExt(dest: array<Byte>, op0: nat, n: nat) returns (op: nat)
    requires op0 + |ExtBytes(n)| <= dest.Length
    modifies dest
    ensures op == op0 + |ExtBytes(n)| && dest[..op] == old(dest[..op0]) + ExtBytes(n)
  {
    var len := n;
    op := op0;
    while len >= 255
      invariant op0 <= op && op + |ExtBytes(len)| == op0 + |ExtBytes(n)|
      invariant dest[..op] + ExtBytes(len) == old(dest[..op0]) + ExtBytes(n)
    {
      dest[op] := 255;
      assert dest[..op + 1] + ExtBytes(len - 255) == dest[..op] + ([255] + ExtBytes(len - 255));
      op, len := op + 1, len - 255;
    }
    dest[op] := len;
    assert dest[..op + 1] == dest[..op] + [len];
    op := op + 1;
  }

  /** Four bytes of 255 at once. */
  method Fill4(dest: array<Byte>, op: nat)
    requires op + 4 <= dest.Length
    modifies dest
    ensures forall k :: op <= k < op + 4 ==> dest[k] == 255
    ensures forall k :: 0 <= k < op || op + 4 <= k < dest.Length ==> dest[k] == old(dest[k])
  {
    dest[op], dest[op + 1], dest[op + 2], dest[op + 3] := 255, 255, 255, 255;
  }

  /** The extension written with 4-byte fills that run ahead of `op`. */
  method WriteExtFill(dest: array<Byte>, op0: nat, n: nat) returns (op: nat)
    requires op0 + |ExtBytes(n)| + 4 <= dest.Length
    modifies dest
    ensures op == op0 + |ExtBytes(n)| && dest[..op] == old(dest[..op0]) + ExtBytes(n)
  {
    ExtBytesShape(n / 255, n % 255);
    assert |ExtBytes(n)| == n / 255 + 1;
    var matchCode := n;
    op := op0;
    Fill4(dest, op);
    while matchCode >= 4 * 255
      invariant op0 <= op && n == 255 * (op - op0) + matchCode
      invariant forall k :: op0 <= k < op + 4 ==> dest[k] == 255
      invariant forall k :: 0 <= k < op0 ==> dest[k] == old(dest[k])
    {
      op := op + 4;
      Fill4(dest, op);
      matchCode := matchCode - 4 * 255;
    }
    op := op + matchCode / 255;
    dest[op] := matchCode % 255;
    op := op + 1;
    assert op == op0 + n / 255 + 1 && matchCode % 255 == n % 255;
    assert dest[..op] == old(dest[..op0]) + (seq(n / 255, i => 255) + [n % 255]);
  }

  // ---------------------------------------------------------------- the parts of a sequence

  function LiteralPart(lits: seq<Byte>, low: nat): seq<Byte>
    requires low < 16
  {
    [16 * Nibble(|lits|) + low] + LenBytes(|lits|) + lits
  }

  /** A token with an empty low half, and the extension of its run length. */
  method EncodeRunHeader(dest: array<Byte>, op0: nat, n: nat) returns (op: nat)
    requires op0 + 1 + |LenBytes(n)| <= dest.Length
    modifies dest
    ensures op == op0 + 1 + |LenBytes(n)|
    ensures dest[..op] == old(dest[..op0]) + [16 * Nibble(n)] + LenBytes(n)
  {
    op := op0 + 1;
    dest[op0] := Nibble(n) * 16;
    assert dest[..op] == old(dest[..op0]) + [16 * Nibble(n)];
    if n >= RUN_MASK {
      op := WriteExt(dest, op, n - RUN_MASK);
    }
  }

  /** Token, length and literals; the literal copy may run eight bytes past its end. */
  method EncodeLiterals(src: seq<Byte>, dest: array<Byte>, op0: nat, anchor: nat, ip: nat) returns (op: nat)
    requires anchor <= ip && ip + 8 <= |src|
    requires op0 + |LiteralPart(src[anchor..ip], 0)| + 8 <= dest.Length
    modifies dest
    ensures op == op0 + |LiteralPart(src[anchor..ip], 0)|
    ensures dest[..op] == old(dest[..op0]) + LiteralPart(src[anchor..ip], 0)
  {
    hide LenBytes, Nibble;
    op := EncodeRunHeader(dest, op0, ip - anchor);
    op := CopyRun(src, dest, op, anchor, ip - anchor);
  }

  method CopyRun(src: seq<Byte>, dest: array<Byte>, op0: nat, anchor: nat, n: nat) returns (op: nat)
    requires anchor + n + 8 <= |src| && op0 + n + 8 <= dest.Length
    modifies dest
    ensures op == op0 + n && dest[..op] == old(dest[..op0]) + src[anchor..anchor + n]
  {
    WildCopyFrom(dest, op0, src, anchor, op0 + n);
    op := op0 + n;
  }

  /** Match length after the offset: half of the token, then the extension. */
  method EncodeMatchLength(dest: array<Byte>, token: nat, op0: nat, matchCode: nat) returns (op: nat)
    requires token < op0 && op0 + |LenBytes(matchCode)| + 4 <= dest.Length && dest[token] <= 240
    modifies dest
    ensures op == op0 + |LenBytes(matchCode)|
    ensures dest[..op] == old(dest[..op0])[token := old(dest[token]) + Nibble(matchCode)] + LenBytes(matchCode)
  {
    op := op0;
    if matchCode >= RUN_MASK {
      dest[token] := dest[token] + RUN_MASK;
      assert dest[..op0] == old(dest[..op0])[token := old(dest[token]) + RUN_MASK];
      op := WriteExtFill(dest, op, matchCode - RUN_MASK);
    } else {
      dest[token] := dest[token] + matchCode;
    }
  }

  method EncodeOffset(dest: array<Byte>, op0: nat, offset: nat) returns (op: nat, ghost lo: Byte, ghost hi: Byte)
    requires offset <= MAX_DISTANCE && op0 + 2 <= dest.Length
    modifies dest
    ensures op == op0 + 2 && Le16(lo, hi) == offset
    ensures dest[..op] == old(dest[..op0]) + [lo, hi]
  {
    dest[op0], dest[op0 + 1] := offset % 256, offset / 256;
    lo, hi := offset % 256, offset / 256;
    op := op0 + 2;
  }

  /** Setting the low half of the token completes the sequence. */
  lemma TokenCompletes(pre: seq<Byte>, q: Sequence)
    requires WellTyped(q)
    ensures var low := Nibble(q.matchLen - MIN_MATCH);
            (pre + LiteralPart(q.literals, 0) + [q.lo, q.hi])[|pre| := 16 * Nibble(|q.literals|) + low]
            + LenBytes(q.matchLen - MIN_MATCH)
            == pre + RenderSequence(q)
  {
    var low := Nibble(q.matchLen - MIN_MATCH);
    var tail := LenBytes(q.matchLen - MIN_MATCH);
    var body: seq<Byte>, two: seq<Byte> := LenBytes(|q.literals|) + q.literals, [q.lo, q.hi];
    assert LiteralPart(q.literals, 0) == [16 * Nibble(|q.literals|)] + body;
    assert RenderSequence(q) == [16 * Nibble(|q.literals|) + low] + body + two + tail;
    hide RenderSequence, LiteralPart, Nibble, LenBytes;
    FirstChanges(pre, 16 * Nibble(|q.literals|), 16 * Nibble(|q.literals|) + low, body, two, tail);
  }

  lemma FirstChanges(pre: seq<Byte>, a: Byte, b: Byte, body: seq<Byte>, two: seq<Byte>, tail: seq<Byte>)
    ensures (pre + ([a] + body) + two)[|pre| := b] + tail == pre + ([b] + body + two + tail)
  {
    assert (pre + ([a] + body) + two)[|pre| := b] == pre + [b] + body + two;
  }

  /** Offset and match length after the literals; together they are one sequence. */
  method EncodeMatch(dest: array<Byte>, token: nat, op0: nat, offset: nat, matchLen: nat, ghost lits: seq<Byte>)
    returns (op: nat, ghost q: Sequence)
    requires offset <= MAX_DISTANCE && matchLen >= MIN_MATCH
    requires token < op0 && op0 + 2 + |LenBytes(matchLen - MIN_MATCH)| + 4 <= dest.Length
    requires dest[token..op0] == LiteralPart(lits, 0)
    modifies dest
    ensures q.literals == lits && q.Offset() == offset && q.matchLen == matchLen
    ensures op == token + |RenderSequence(q)| && op <= dest.Length
    ensures dest[..op] == old(dest[..token]) + RenderSequence(q)
  {
    hide LenBytes, Le16;
    ghost var pre := dest[..token];
    assert dest[..op0] == pre + LiteralPart(lits, 0);
    assert dest[token] == LiteralPart(lits, 0)[0] by { assert dest[token] == dest[token..op0][0]; }
    ghost var lo, hi;
    op, lo, hi := EncodeOffset(dest, op0, offset);
    q := Sequence(lits, lo, hi, matchLen);
    assert dest[..op] == pre + LiteralPart(lits, 0) + [lo, hi];
    assert dest[token] == 16 * Nibble(|lits|) by { assert dest[token] == dest[..op][token]; }
    op := EncodeMatchLength(dest, token, op, matchLen - MIN_MATCH);
    TokenCompletes(pre, q);
  }

  /** The last literals, copied exactly. */
  method EncodeLast(src: seq<Byte>, dest: array<Byte>, op0: nat, anchor: nat) returns (op: nat)
    requires anchor <= |src| && op0 + |RenderLast(src[anchor..], 0)| <= dest.Length
    modifies dest
    ensures op == op0 + |RenderLast(src[anchor..], 0)|
    ensures dest[..op] == old(dest[..op0]) + RenderLast(src[anchor..], 0)
  {
    hide LenBytes, Nibble;
    op := EncodeRunHeader(dest, op0, |src| - anchor);
    op := CopyExact(src, dest, op, anchor);
  }

  method CopyExact(src: seq<Byte>, dest: array<Byte>, op0: nat, anchor: nat) returns (op: nat)
    requires anchor <= |src| && op0 + |src| - anchor <= dest.Length
    modifies dest
    ensures op == op0 + |src| - anchor && dest[..op] == old(dest[..op0]) + src[anchor..]
  {
    forall k | anchor <= k < |src| { dest[op0 + k - anchor] := src[k]; }
    op := op0 + |src| - anchor;
  }
}

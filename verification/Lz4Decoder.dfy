/** LZ4_decompress_safe on arrays: 8-byte copies that run past their end, the small-offset
    tables, and the careful path near the end of the output, proved equal to the byte-at-a-time
    decoder on every input. */
module Lz4Decoder {
  import opened Arith
  import opened Bytes
  import opened Lz4Copy
  import opened Lz4Format
  import opened Lz4Reference

  // ---------------------------------------------------------------- periodic bytes

  /** One byte of a match, given the byte `m` whole offsets before it. */
  lemma MatchBytePeriod(out: seq<Byte>, offset: nat, m: nat, j: nat)
    requires 0 < offset <= |out| && m >= 1
    requires m * offset <= j + offset
    ensures j >= m * offset ==> MatchByte(out, offset, j - m * offset) == MatchByte(out, offset, j)
    ensures j < m * offset ==>
              |out| + j - m * offset >= 0 && out[|out| + j - m * offset] == MatchByte(out, offset, j)
  {
    var p := m * offset;
    if j >= p {
      var q, r := (j - p) / offset, (j - p) % offset;
      assert j == (q + m) * offset + r by {
        assert j - p == q * offset + r;
        assert (q + m) * offset == q * offset + m * offset;
      }
      ModBound(j - p, offset);
      ModUnique(j, offset, q + m, r);
    } else {
      assert (m - 1) * offset == p - offset;
      ModUnique(j, offset, m - 1, j - (p - offset));
    }
  }

  predicate Filled(f: seq<Byte>, op: nat, offset: nat, n: nat)
    requires offset <= op && op + n <= |f|
  {
    forall k :: op <= k < op + n ==> f[k] == MatchByte(f[..op], offset, k - op)
  }

  /** Bytes copied from a whole number of offsets back continue the match. */
  lemma {:induction false} ExtendFill(f: seq<Byte>, op: nat, offset: nat, m: nat, lo: nat, hi: nat)
    requires 0 < offset <= op && op + hi <= |f| && lo <= hi && m >= 1
    requires m * offset <= lo + offset
    requires Filled(f, op, offset, lo)
    requires forall k :: op + lo <= k < op + hi ==> f[k] == f[k - m * offset]
    ensures Filled(f, op, offset, hi)
    decreases hi
  {
    if hi > lo {
      ExtendFill(f, op, offset, m, lo, hi - 1);
      var j := hi - 1;
      MatchBytePeriod(f[..op], offset, m, j);
      assert f[op + j] == f[op + j - m * offset];
      if j < m * offset { assert f[op + j - m * offset] == f[..op][op + j - m * offset]; }
    }
  }

  lemma {:induction false} ExtendZeros(f: seq<Byte>, op: nat, p: nat, lo: nat, hi: nat)
    requires op + hi <= |f| && 1 <= p <= lo <= hi
    requires Filled(f, op, 0, lo)
    requires forall k :: op + lo <= k < op + hi ==> f[k] == f[k - p]
    ensures Filled(f, op, 0, hi)
    decreases hi
  {
    if hi > lo {
      ExtendZeros(f, op, p, lo, hi - 1);
      assert f[op + hi - 1] == f[op + hi - 1 - p];
    }
  }

  /** The two overlap tables of the decoder. */
  const DEC32: seq<int> := [0, 1, 2, 1, 4, 4, 4, 4]
  const DEC64: seq<int> := [0, 0, 0, -1, 0, 1, 2, 3]

  /** How many whole offsets back the second four bytes, and then all later bytes, are copied from. */
  function Repeat4(offset: nat): nat
    requires offset < 8
  {
    [1, 4, 2, 2, 1, 1, 1, 1][offset]
  }

  function Repeat8(offset: nat): nat
  {
    if offset < 8 then [1, 8, 4, 3, 2, 2, 2, 2][offset] else 1
  }

  /** Distance of the bytes after the first eight from their source. */
  function Period(offset: nat): nat
  {
    if offset == 0 then 8 else Repeat8(offset) * offset
  }

  lemma PeriodBounds(offset: nat)
    ensures 8 <= Period(offset) <= offset + 8
    ensures offset > 0 ==> Repeat8(offset) >= 1 && Repeat8(offset) * offset <= 8 + offset
  {
  }

  /** The tables move `match` to exactly the repeat distances. */
  lemma TablesAreRepeats(offset: nat)
    requires offset < 8
    ensures offset > 0 ==>
              offset - DEC32[offset] + 4 == Repeat4(offset) * offset && Repeat4(offset) * offset <= 4 + offset
    ensures offset == 0 ==> offset - DEC32[offset] + 4 == 4
    ensures offset - DEC32[offset] + DEC64[offset] + 8 == Period(offset)
    ensures 4 <= offset - DEC32[offset] + 4 <= 4 + offset
  {
  }

  /** Four bytes one after the other, so that a later one may read an earlier one. */
  method CopyFour(dst: array<Byte>, op: nat, m: nat)
    requires m <= op && op + 4 <= dst.Length
    modifies dst
    ensures forall k :: op <= k < op + 4 ==> dst[k] == dst[k - (op - m)]
    ensures m == op ==> forall k :: op <= k < op + 4 ==> dst[k] == old(dst[k])
    ensures forall k :: 0 <= k < op || op + 4 <= k < dst.Length ==> dst[k] == old(dst[k])
  {
    dst[op] := dst[m];
    dst[op + 1] := dst[m + 1];
    dst[op + 2] := dst[m + 2];
    dst[op + 3] := dst[m + 3];
  }

  /** Four bytes at once, from at least four bytes back. */
  method Copy4(dst: array<Byte>, d: nat, s: nat)
    requires s + 4 <= d && d + 4 <= dst.Length
    modifies dst
    ensures forall k :: d <= k < d + 4 ==> dst[k] == dst[k - (d - s)]
    ensures forall k :: 0 <= k < d || d + 4 <= k < dst.Length ==> dst[k] == old(dst[k])
  {
    forall k | 0 <= k < 4 { dst[d + k] := dst[s + k]; }
  }

  /** The first eight bytes of a match whose offset is below 8, through the tables. */
  method CopyFirst8Near(dst: array<Byte>, op: nat, offset: nat) returns (match': int)
    requires offset < 8 && offset <= op && op + 8 <= dst.Length
    modifies dst
    ensures match' == op - offset + DEC32[offset] - DEC64[offset]
    ensures offset == 0 ==> forall k :: op <= k < op + 4 ==> dst[k] == old(dst[k])
    ensures forall k :: op <= k < op + 4 ==> dst[k] == dst[k - offset]
    ensures forall k :: op + 4 <= k < op + 8 ==> dst[k] == dst[k - (offset - DEC32[offset] + 4)]
    ensures forall k :: 0 <= k < op || op + 8 <= k < dst.Length ==> dst[k] == old(dst[k])
  {
    TablesAreRepeats(offset);
    match' := op - offset;
    CopyFour(dst, op, match');
    match' := match' + DEC32[offset];
    Copy4(dst, op + 4, match');
    match' := match' - DEC64[offset];
  }

  /** The first eight bytes of a match. On return `match'` trails `op + 8` by Period(offset). */
  method CopyFirst8(dst: array<Byte>, op: nat, offset: nat) returns (match': int)
    requires offset <= op && op + 8 <= dst.Length
    requires offset == 0 ==> forall k :: op <= k < op + 4 ==> dst[k] == 0
    modifies dst
    ensures Filled(dst[..], op, offset, 8) && match' == op + 8 - Period(offset)
    ensures forall k :: 0 <= k < op || op + 8 <= k < dst.Length ==> dst[k] == old(dst[k])
  {
    hide Filled;
    if offset < 8 {
      TablesAreRepeats(offset);
      match' := CopyFirst8Near(dst, op, offset);
      FirstEight(dst[..], op, offset, offset - DEC32[offset] + 4);
    } else {
      match' := op - offset;
      Copy8(dst, op, match');
      match' := match' + 8;
      FirstEightFar(dst[..], op, offset);
    }
  }

  lemma FirstEightFar(f: seq<Byte>, op: nat, offset: nat)
    requires 8 <= offset <= op && op + 8 <= |f|
    requires forall k :: op <= k < op + 8 ==> f[k] == f[k - offset]
    ensures Filled(f, op, offset, 8) && Period(offset) == offset
  {
    assert 1 * offset == offset;
    ExtendFill(f, op, offset, 1, 0, 8);
  }

  lemma FirstEight(f: seq<Byte>, op: nat, offset: nat, q: nat)
    requires offset < 8 && offset <= op && op + 8 <= |f| && q == offset - DEC32[offset] + 4
    requires forall k :: op <= k < op + 4 ==> f[k] == f[k - offset]
    requires forall k :: op + 4 <= k < op + 8 ==> f[k] == f[k - q]
    requires offset == 0 ==> forall k :: op <= k < op + 4 ==> f[k] == 0
    ensures Filled(f, op, offset, 8)
  {
    TablesAreRepeats(offset);
    if offset == 0 {
      ExtendZeros(f, op, 4, 4, 8);
    } else {
      assert 1 * offset == offset;
      ExtendFill(f, op, offset, 1, 0, 4);
      ExtendFill(f, op, offset, Repeat4(offset), 4, 8);
    }
  }

  /** The bytes after the first eight, with the two strategies of the decoder. */
  method CopyRest(dst: array<Byte>, op0: nat, match0: int, cpy: nat, oend: nat)
    requires op0 <= oend - 4 && oend <= dst.Length && cpy <= oend - LAST_LITERALS
    requires 8 <= op0 && 0 <= match0 <= op0 - 8 && op0 - 4 <= cpy
    modifies dst
    ensures forall k :: op0 <= k < cpy ==> dst[k] == dst[k - (op0 - match0)]
    ensures forall k :: 0 <= k < op0 || oend <= k < dst.Length ==> dst[k] == old(dst[k])
  {
    var op, match' := op0, match0;
    if cpy > oend - 12 {
      var copyLimit := oend - 7;
      if op < copyLimit {
        WildCopy(dst, op, match', copyLimit);
        match' := match' + (copyLimit - op);
        op := copyLimit;
      }
      while op < cpy
        invariant match' == op - (op0 - match0) && op0 <= op <= oend
        invariant forall k :: op0 <= k < op ==> dst[k] == dst[k - (op0 - match0)]
        invariant forall k :: 0 <= k < op0 || oend <= k < dst.Length ==> dst[k] == old(dst[k])
      {
        dst[op] := dst[match'];
        op, match' := op + 1, match' + 1;
      }
    } else {
      Copy8(dst, op, match');
      if cpy > op + 8 {
        WildCopy(dst, op + 8, match' + 8, cpy);
      }
    }
  }

  /** A whole match copied in place. The bytes past its end, up to `oend`, are left arbitrary. */
  method CopyMatch(dst: array<Byte>, op: nat, offset: nat, length: nat, oend: nat)
    requires offset <= op <= oend - MF_LIMIT && oend <= dst.Length
    requires MIN_MATCH <= length && op + length <= oend - LAST_LITERALS
    requires offset == 0 ==> forall k :: op <= k < op + 4 ==> dst[k] == 0
    modifies dst
    ensures dst[..op + length] == CopyBack(old(dst[..op]), offset, length)
    ensures forall k :: oend <= k < dst.Length ==> dst[k] == old(dst[k])
  {
    hide Filled, Period, CopyBack;
    var match' := CopyFirst8(dst, op, offset);
    ghost var f := dst[..];
    PeriodBounds(offset);
    CopyRest(dst, op + 8, match', op + length, oend);
    assert f[..op + 8] == dst[..][..op + 8];
    FillWhole(f, dst[..], op, offset, length);
    assert dst[..][..op] == old(dst[..op]);
    FilledIsCopyBack(dst[..], op, offset, length);
    assert dst[..][..op + length] == dst[..op + length];
  }

  lemma FilledIsCopyBack(f: seq<Byte>, op: nat, offset: nat, length: nat)
    requires offset <= op && op + length <= |f| && Filled(f, op, offset, length)
    ensures f[..op + length] == CopyBack(f[..op], offset, length)
  {
    var r := CopyBack(f[..op], offset, length);
    CopyBackAt(f[..op], offset, length);
    forall k | 0 <= k < op + length ensures f[k] == r[k] {
      if k < op { assert r[k] == r[..op][k]; } else { assert r[op + (k - op)] == MatchByte(f[..op], offset, k - op); }
    }
  }

  lemma FillWhole(f: seq<Byte>, g: seq<Byte>, op: nat, offset: nat, length: nat)
    requires offset <= op && |f| == |g| && op + 8 <= |f| && op + length <= |g|
    requires f[..op + 8] == g[..op + 8] && Filled(f, op, offset, 8)
    requires Period(offset) <= op + 8
    requires forall k :: op + 8 <= k < op + length ==> g[k] == g[k - Period(offset)]
    ensures Filled(g, op, offset, length)
  {
    PeriodBounds(offset);
    assert g[..op] == f[..op] by { assert g[..op] == g[..op + 8][..op]; }
    assert forall k :: op <= k < op + 8 ==> g[k] == g[..op + 8][k];
    if length > 8 {
      if offset == 0 {
        ExtendZeros(g, op, 8, 8, length);
      } else {
        ExtendFill(g, op, offset, Repeat8(offset), 8, length);
      }
    }
  }

  // ---------------------------------------------------------------- the decoding loop

  method LiteralLength(source: seq<Byte>, ip0: nat) returns (length: nat, ip: nat)
    requires Readable(source, ip0)
    ensures Run(length, ip) == ReadLiteralLength(source, ip0)
  {
    length, ip := source[ip0] / 16, ip0 + 1;
    if length == RUN_MASK {
      var s := source[ip];
      length, ip := length + s, ip + 1;
      while ip < |source| - RUN_MASK && s == 255
        invariant ip0 + 1 < ip <= |source|
        invariant length >= RUN_MASK
        invariant ReadRun(source, ip0 + 1)
               == if ip < |source| - RUN_MASK && s == 255
                  then Run(length - RUN_MASK + ReadRun(source, ip).len, ReadRun(source, ip).next)
                  else Run(length - RUN_MASK, ip)
      {
        s := source[ip];
        length, ip := length + s, ip + 1;
      }
    }
  }

  method MatchLength(source: seq<Byte>, token: Byte, ip0: nat) returns (ok: bool, length: nat, ip: nat)
    requires ip0 + 6 <= |source|
    ensures ReadMatchLength(source, token, ip0) == if ok then MatchRun(length, ip) else Overrun(ip)
  {
    length, ip := token % 16, ip0;
    if length == RUN_MASK {
      var s := 255;
      while s == 255
        invariant ip0 <= ip <= |source| - LAST_LITERALS && length >= RUN_MASK
        invariant ReadMatchRun(source, ip0)
               == if s != 255 then MatchRun(length - RUN_MASK, ip)
                  else match ReadMatchRun(source, ip)
                       case MatchRun(len, next) => MatchRun(length - RUN_MASK + len, next)
                       case Overrun(at) => Overrun(at)
        decreases |source| - ip, if s == 255 then 1 else 0
      {
        s := source[ip];
        ip := ip + 1;
        if ip > |source| - LAST_LITERALS {
          return false, length, ip;
        }
        length := length + s;
      }
    }
    length := length + MIN_MATCH;
    ok := true;
  }

  method WriteOffset(dest: array<Byte>, op: nat, lo: Byte, hi: Byte)
    requires op + 4 <= dest.Length
    modifies dest
    ensures dest[..op] == old(dest[..op])
    ensures Le16(lo, hi) == 0 ==> forall k :: op <= k < op + 4 ==> dest[k] == 0
    ensures forall k :: op + 4 <= k < dest.Length ==> dest[k] == old(dest[k])
  {
    dest[op], dest[op + 1], dest[op + 2], dest[op + 3] := lo, hi, 0, 0;
  }

  /** Match length and match copy, once the offset is known to be in range. */
  method DecodeCopy(source: seq<Byte>, dest: array<Byte>, token: Byte, ip0: nat, op0: nat, offset: nat, oend: nat)
    returns (ok: bool, ip: nat, op: nat)
    requires oend <= dest.Length
    requires ip0 + 6 <= |source| && offset <= op0 <= oend - MF_LIMIT
    requires offset == 0 ==> forall k :: op0 <= k < op0 + 4 ==> dest[k] == 0
    modifies dest
    ensures op0 <= op <= oend
    ensures match ReadMatchLength(source, token, ip0)
            case Overrun(at) => !ok && ip == at
            case MatchRun(len, next) =>
              ip == next && ok == (op0 + len <= oend - LAST_LITERALS)
              && (ok ==> dest[..op] == CopyBack(old(dest[..op0]), offset, len))
    ensures forall k :: oend <= k < dest.Length ==> dest[k] == old(dest[k])
  {
    hide CopyBack;
    var length;
    op := op0;
    ok, length, ip := MatchLength(source, token, ip0);
    hide ReadMatchLength;
    if !ok {
      return;
    }
    if op + length > oend - LAST_LITERALS {
      return false, ip, op;
    }
    CopyMatch(dest, op, offset, length, oend);
    op := op + length;
  }

  /** Offset, match length and match copy of the sequence whose literals end at `ip0`. */
  method DecodeMatch(source: seq<Byte>, dest: array<Byte>, token: Byte, ip0: nat, op0: nat, oend: nat)
    returns (ok: bool, ip: nat, op: nat)
    requires oend <= dest.Length
    requires ip0 + 8 <= |source| && op0 <= oend - MF_LIMIT
    modifies dest
    ensures op0 <= op <= oend
    ensures MatchStep(source, token, ip0, old(dest[..op0]), oend)
         == if ok then Continue(ip, dest[..op]) else Halt(Corrupt(ip))
    ensures forall k :: oend <= k < dest.Length ==> dest[k] == old(dest[k])
  {
    hide CopyBack, ReadMatchLength, Readable, Le16;
    var offset := Le16(source[ip0], source[ip0 + 1]);
    ip, op := ip0 + 2, op0;
    if offset > op {
      return false, ip, op;
    }
    WriteOffset(dest, op, source[ip0], source[ip0 + 1]);
    ok, ip, op := DecodeCopy(source, dest, token, ip, op, offset, oend);
  }

  /** Literals away from both ends: copied in 8-byte steps, spilling at most up to `oend`. */
  method CopyLiterals(source: seq<Byte>, dest: array<Byte>, ip: nat, op: nat, length: nat, oend: nat)
    requires ip + length + 8 <= |source|
    requires op + length + 8 <= oend <= dest.Length
    modifies dest
    ensures dest[..op + length] == old(dest[..op]) + source[ip..ip + length]
    ensures forall k :: oend <= k < dest.Length ==> dest[k] == old(dest[k])
  {
    WildCopyFrom(dest, op, source, ip, op + length);
  }

  /** The last literals, which must end the input and fit the output. */
  method DecodeLast(source: seq<Byte>, dest: array<Byte>, ip: nat, op: nat, length: nat, oend: nat)
    returns (r: int)
    requires ip <= |source| && op <= oend <= dest.Length
    modifies dest
    ensures Reported(if ip + length != |source| || op + length > oend then Corrupt(ip)
                     else Decoded(old(dest[..op]) + source[ip..]), r, dest[..oend])
    ensures forall k :: oend <= k < dest.Length ==> dest[k] == old(dest[k])
  {
    if ip + length != |source| || op + length > oend {
      return -(ip as int) - 1;
    }
    forall k | 0 <= k < length { dest[op + k] := source[ip + k]; }
    r := op + length;
  }

  /** Literals away from both ends, then a match. */
  method DecodeMiddle(source: seq<Byte>, dest: array<Byte>, token: Byte, ip0: nat, op0: nat, length: nat, oend: nat)
    returns (ok: bool, ip: nat, op: nat)
    requires ip0 + length + 8 <= |source| && op0 + length <= oend - MF_LIMIT && oend <= dest.Length
    modifies dest
    ensures op0 + length <= op <= oend
    ensures MatchStep(source, token, ip0 + length, old(dest[..op0]) + source[ip0..ip0 + length], oend)
         == if ok then Continue(ip, dest[..op]) else Halt(Corrupt(ip))
    ensures forall k :: oend <= k < dest.Length ==> dest[k] == old(dest[k])
  {
    hide MatchStep;
    CopyLiterals(source, dest, ip0, op0, length, oend);
    ok, ip, op := DecodeMatch(source, dest, token, ip0 + length, op0 + length, oend);
  }

  /** One turn of the decoding loop. When `done`, `r` is the value to return. */
  method DecodeSequence(source: seq<Byte>, dest: array<Byte>, ip0: nat, op0: nat, oend: nat)
    returns (done: bool, r: int, ip: nat, op: nat)
    requires oend <= dest.Length && op0 <= oend
    requires Readable(source, ip0)
    modifies dest
    ensures op <= oend
    ensures match DecodeStep(source, ip0, old(dest[..op0]), oend)
            case Continue(next, out) => !done && ip == next && dest[..op] == out
            case Halt(outcome) => done && Reported(outcome, r, dest[..oend])
    ensures forall k :: oend <= k < dest.Length ==> dest[k] == old(dest[k])
  {
    ghost var out := dest[..op0];
    var token := source[ip0];
    hide ReadLiteralLength, MatchStep, Readable, DecodeStep;
    var length;
    length, ip := LiteralLength(source, ip0);
    op := op0;
    var cpy := op + length;
    if cpy > oend - MF_LIMIT || ip + length > |source| - 8 {
      StepIsLast(source, ip0, out, oend, Run(length, ip));
      r := DecodeLast(source, dest, ip, op, length, oend);
      return true, r, ip, op;
    }
    StepTakesLiterals(source, ip0, out, oend, Run(length, ip), ip + length);
    var ok;
    ok, ip, op := DecodeMiddle(source, dest, token, ip, op, length, oend);
    done, r := !ok, -(ip as int) - 1;
  }

  /** Returns the number of bytes decoded, or a negative number for malformed input. One byte of
      input is enough unless that byte announces a length byte. Nothing past the declared output
      size is written. */
  method DecompressSafe(source: seq<Byte>, dest: array<Byte>, maxSize: nat)
    returns (r: int)
    requires maxSize <= dest.Length
    requires Readable(source, 0)
    modifies dest
    ensures Reported(Decode(source, maxSize), r, dest[..maxSize])
    ensures forall k :: maxSize <= k < dest.Length ==> dest[k] == old(dest[k])
  {
    if maxSize == 0 {
      return if |source| == 1 && source[0] == 0 then 0 else -1;
    }
    hide Readable, DecodeStep;
    var ip: nat, op: nat, done := 0, 0, false;
    r := 0;
    while !done
      invariant op <= maxSize
      invariant !done ==> Readable(source, ip)
      invariant !done ==> DecodeFrom(source, 0, [], maxSize) == DecodeFrom(source, ip, dest[..op], maxSize)
      invariant done ==> Reported(DecodeFrom(source, 0, [], maxSize), r, dest[..maxSize])
      invariant forall k :: maxSize <= k < dest.Length ==> dest[k] == old(dest[k])
      decreases !done, |source| - ip
    {
      done, r, ip, op := DecodeSequence(source, dest, ip, op, maxSize);
    }
  }
}

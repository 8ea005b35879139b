/** The LZ4 block format: what a block is, how it is written down as bytes, what it expands to,
    and a byte-at-a-time decoder that reads it back.

    A block is a list of sequences (a literal run followed by a match) closed by a last literal
    run. `Render` writes the bytes, `Expand` gives the meaning; neither mentions a decoder. */
module Lz4Format {
  import opened Arith
  import opened Bytes

  const MIN_MATCH := 4
  const LAST_LITERALS := 5
  const MF_LIMIT := 12
  const RUN_MASK := 15
  const MAX_DISTANCE := 65535

  /** One sequence: `literals`, then `matchLen` bytes copied from `Offset()` bytes back. The
      offset is kept as the two bytes it is written as, so it never exceeds MAX_DISTANCE. */
  datatype Sequence = Sequence(literals: seq<Byte>, lo: Byte, hi: Byte, matchLen: nat)
  {
    function Offset(): nat { Le16(lo, hi) }
  }

  function Le16(lo: Byte, hi: Byte): (n: nat)
    ensures n <= MAX_DISTANCE
  {
    (lo as int) + 256 * (hi as int)
  }

  /** `spare` is the low half of the last token, which carries no information. */
  datatype Block = Block(seqs: seq<Sequence>, last: seq<Byte>, spare: nat)

  predicate WellTyped(q: Sequence)
  {
    q.matchLen >= MIN_MATCH
  }

  // ---------------------------------------------------------------- writing

  /** Length extension: as many 255s as fit, then the remainder. */
  function ExtBytes(n: nat): (s: seq<Byte>)
    ensures |s| >= 1
  {
    if n >= 255 then [255] + ExtBytes(n - 255) else [n]
  }

  /** The bytes a length needs beyond its half of the token. */
  function LenBytes(n: nat): seq<Byte>
  {
    if n >= RUN_MASK then ExtBytes(n - RUN_MASK) else []
  }

  function Nibble(n: nat): nat { if n >= RUN_MASK then RUN_MASK else n }

  function RenderSequence(q: Sequence): seq<Byte>
    requires WellTyped(q)
  {
    [16 * Nibble(|q.literals|) + Nibble(q.matchLen - MIN_MATCH)]
    + LenBytes(|q.literals|) + q.literals
    + [q.lo, q.hi]
    + LenBytes(q.matchLen - MIN_MATCH)
  }

  function RenderLast(last: seq<Byte>, spare: nat): seq<Byte>
    requires spare < 16
  {
    [16 * Nibble(|last|) + spare] + LenBytes(|last|) + last
  }

  predicate AllWellTyped(seqs: seq<Sequence>)
  {
    forall i :: 0 <= i < |seqs| ==> WellTyped(seqs[i])
  }

  function RenderSequences(seqs: seq<Sequence>): seq<Byte>
    requires AllWellTyped(seqs)
  {
    if seqs == [] then [] else
      var k := |seqs| - 1;
      RenderSequences(seqs[..k]) + RenderSequence(seqs[k])
  }

  function Render(b: Block): seq<Byte>
    requires AllWellTyped(b.seqs) && b.spare < 16
  {
    RenderSequences(b.seqs) + RenderLast(b.last, b.spare)
  }

  // ---------------------------------------------------------------- meaning

  /** `n` bytes copied one at a time from `offset` back, so that a copy may read its own output.
      The format leaves offset 0 undefined; this decoder family produces zero bytes for it. */
  function CopyBack(out: seq<Byte>, offset: nat, n: nat): (r: seq<Byte>)
    requires offset <= |out|
    ensures |r| == |out| + n
    decreases n
  {
    if n == 0 then out
    else CopyBack(out + [if offset == 0 then 0 else out[|out| - offset]], offset, n - 1)
  }

  function ExpandFrom(out: seq<Byte>, q: Sequence): (r: seq<Byte>)
    requires q.Offset() <= |out| + |q.literals|
    ensures |r| == |out| + |q.literals| + q.matchLen
  {
    CopyBack(out + q.literals, q.Offset(), q.matchLen)
  }

  function ExpandedLength(seqs: seq<Sequence>): nat
  {
    if seqs == [] then 0 else
      var k := |seqs| - 1;
      ExpandedLength(seqs[..k]) + |seqs[k].literals| + seqs[k].matchLen
  }

  /** Every offset points into what has been produced before it. */
  predicate InRange(seqs: seq<Sequence>)
  {
    seqs == [] ||
    var k := |seqs| - 1;
    InRange(seqs[..k]) && seqs[k].Offset() <= ExpandedLength(seqs[..k]) + |seqs[k].literals|
  }

  function ExpandSequences(seqs: seq<Sequence>): (r: seq<Byte>)
    requires InRange(seqs)
    ensures |r| == ExpandedLength(seqs)
  {
    if seqs == [] then [] else
      var k := |seqs| - 1;
      ExpandFrom(ExpandSequences(seqs[..k]), seqs[k])
  }

  function Expand(b: Block): seq<Byte>
    requires InRange(b.seqs)
  {
    ExpandSequences(b.seqs) + b.last
  }

  /** The format's own rules: offsets from 1, a match starts at least 12 bytes before the end of
      the data, and the last 5 bytes of data are literals (a block of literals only is exempt). */
  predicate Compliant(b: Block)
  {
    AllWellTyped(b.seqs) && InRange(b.seqs) && b.spare == 0
    && (b.seqs != [] ==> |b.last| >= LAST_LITERALS)
    && CompliantSequences(b.seqs, ExpandedLength(b.seqs) + |b.last|)
  }

  predicate CompliantSequences(seqs: seq<Sequence>, total: nat)
  {
    seqs == [] ||
    var k := |seqs| - 1;
    CompliantSequences(seqs[..k], total)
    && seqs[k].Offset() >= 1
    && ExpandedLength(seqs[..k]) + |seqs[k].literals| + MF_LIMIT <= total
    && ExpandedLength(seqs) + LAST_LITERALS <= total
  }

  /** `c` is a compliant encoding of `data`. */
  ghost predicate Encodes(c: seq<Byte>, data: seq<Byte>)
  {
    exists b :: Compliant(b) && Render(b) == c && Expand(b) == data
  }

  // ---------------------------------------------------------------- appending a sequence

  lemma Snoc(seqs: seq<Sequence>, q: Sequence)
    requires AllWellTyped(seqs) && InRange(seqs) && WellTyped(q)
    requires q.Offset() <= ExpandedLength(seqs) + |q.literals|
    ensures AllWellTyped(seqs + [q]) && InRange(seqs + [q])
    ensures RenderSequences(seqs + [q]) == RenderSequences(seqs) + RenderSequence(q)
    ensures ExpandSequences(seqs + [q]) == ExpandFrom(ExpandSequences(seqs), q)
  {
    assert (seqs + [q])[..|seqs|] == seqs;
  }

  /** A byte produced by a match, in closed form. */
  function MatchByte(out: seq<Byte>, offset: nat, j: nat): Byte
    requires offset <= |out|
  {
    if offset == 0 then 0 else
      ModBound(j, offset);
      out[|out| - offset + j % offset]
  }

  lemma {:induction false} CopyBackAt(out: seq<Byte>, offset: nat, n: nat)
    requires offset <= |out|
    ensures CopyBack(out, offset, n)[..|out|] == out
    ensures forall j :: 0 <= j < n ==> CopyBack(out, offset, n)[|out| + j] == MatchByte(out, offset, j)
    decreases n
  {
    if n > 0 {
      var b := if offset == 0 then 0 else out[|out| - offset];
      var next := out + [b];
      CopyBackAt(next, offset, n - 1);
      var r := CopyBack(out, offset, n);
      assert r[..|out|] == r[..|next|][..|out|] == out;
      forall j | 0 <= j < n ensures r[|out| + j] == MatchByte(out, offset, j) {
        if j == 0 {
          assert r[|out|] == r[..|next|][|out|];
          if offset > 0 { ModUnique(0, offset, 0, 0); }
        } else {
          assert r[|next| + (j - 1)] == MatchByte(next, offset, j - 1);
          if offset > 0 { MatchByteShift(out, offset, j); }
        }
      }
    }
  }

  lemma MatchByteShift(out: seq<Byte>, offset: nat, j: nat)
    requires 0 < offset <= |out| && j >= 1
    ensures MatchByte(out + [out[|out| - offset]], offset, j - 1) == MatchByte(out, offset, j)
  {
    ModBound(j, offset);
    ModBound(j - 1, offset);
    var q, r := j / offset, j % offset;
    assert j == q * offset + r;
    if r == 0 {
      assert j - 1 == (q - 1) * offset + (offset - 1);
      ModUnique(j - 1, offset, q - 1, offset - 1);
    } else {
      ModUnique(j - 1, offset, q, r - 1);
    }
  }
}

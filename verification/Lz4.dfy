/** Compressor and decompressor together. */
module Lz4 {
  import opened Bytes
  import opened Lz4Format
  import opened Lz4Reference
  import opened Lz4Parse
  import opened Lz4Compressor
  import opened Lz4Decoder

  /** No byte string encodes two different inputs. */
  lemma EncodingIsInjective(c: seq<Byte>, data: seq<Byte>, data': seq<Byte>)
    requires Encodes(c, data) && Encodes(c, data')
    ensures data == data'
  {
    hide Encodes, Decode, Readable;
    DecodeEncoded(c, data, |data| + |data'|);
    DecodeEncoded(c, data', |data| + |data'|);
  }

  /** Decompressing what LZ4_compress_default wrote gives the input back, for every supported
      input and every output capacity that can hold it. */
  method RoundTrip(data: seq<Byte>, capacity: nat) returns (n: int, out: seq<Byte>)
    requires |data| <= MAX_INPUT_SIZE && |data| <= capacity
    ensures n == |data| && out == data
  {
    hide Encodes, Decode, Compressed, Readable;
    var comp := new Byte[CompressBound(|data|)](i => 0);
    var r := CompressDefault(data, comp);
    DecodeEncoded(comp[..r], data, capacity);
    var dest := new Byte[capacity](i => 0);
    n := DecompressSafe(comp[..r], dest, capacity);
    out := dest[..n];
  }

  // ---------------------------------------------------------------- data that does not compress

  function Four(data: seq<Byte>, i: nat): seq<Byte>
    requires i + MIN_MATCH <= |data|
  {
    data[i..i + MIN_MATCH]
  }

  /** Four bytes in a row occur twice. */
  predicate Repeats(data: seq<Byte>)
  {
    exists i, j :: 0 <= i < j <= |data| - MIN_MATCH && Four(data, i) == Four(data, j)
  }

  lemma {:induction false} CopyIsPeriodic(out: seq<Byte>, offset: nat, n: nat, j: nat)
    requires 0 < offset <= |out| && j < n
    ensures CopyBack(out, offset, n)[|out| + j] == CopyBack(out, offset, n)[|out| + j - offset]
    decreases n
  {
    var next := out + [out[|out| - offset]];
    CopyBackAt(next, offset, n - 1);
    if j == 0 {
      var r := CopyBack(out, offset, n);
      assert r[..|next|][|out|] == next[|out|] && r[..|next|][|out| - offset] == next[|out| - offset];
    } else {
      CopyIsPeriodic(next, offset, n - 1, j - 1);
    }
  }

  lemma MatchIsRepeat(r: seq<Byte>, at: nat, offset: nat, tail: seq<Byte>)
    requires 0 < offset <= at && at + MIN_MATCH <= |r|
    requires forall p: nat :: at <= p < at + MIN_MATCH ==> r[p] == r[p - offset]
    ensures Repeats(r + tail)
  {
    var data := r + tail;
    forall j: nat | j < MIN_MATCH ensures Four(data, at)[j] == Four(data, at - offset)[j] {
      assert r[at + j] == r[at + j - offset];
    }
    assert Four(data, at - offset) == Four(data, at);
  }

  lemma LastMatchRepeats(b: Block)
    requires Compliant(b) && b.seqs != []
    ensures Repeats(Expand(b))
  {
    var k := |b.seqs| - 1;
    var q := b.seqs[k];
    var out := ExpandSequences(b.seqs[..k]) + q.literals;
    assert q.Offset() >= 1;
    assert ExpandSequences(b.seqs) == CopyBack(out, q.Offset(), q.matchLen);
    var r := ExpandSequences(b.seqs);
    forall p: nat | |out| <= p < |out| + MIN_MATCH ensures r[p] == r[p - q.Offset()] {
      CopyIsPeriodic(out, q.Offset(), q.matchLen, p - |out|);
    }
    MatchIsRepeat(r, |out|, q.Offset(), b.last);
  }

  /** Data in which no four bytes occur twice has no match to use: it comes out longer than it went in. */
  lemma RepeatFreeGrows(c: seq<Byte>, data: seq<Byte>)
    requires Encodes(c, data) && !Repeats(data)
    ensures |c| > |data|
  {
    hide Repeats;
    var b :| Compliant(b) && Render(b) == c && Expand(b) == data;
    if b.seqs != [] {
      LastMatchRepeats(b);
    }
  }
}

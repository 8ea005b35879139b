/** A byte-at-a-time decoder for LZ4 blocks with the parsing limits that LZ4_decompress_safe
    applies, and the theorem that says exactly which inputs it accepts and what they mean. */
module Lz4Reference {
  import opened Bytes
  import opened Lz4Format

  datatype Outcome = Decoded(out: seq<Byte>) | Corrupt(at: nat)

  /** How an outcome is reported: a length and that many bytes, or the negated input position. */
  predicate Reported(o: Outcome, r: int, written: seq<Byte>)
  {
    match o
    case Decoded(out) => r == |out| && r <= |written| && written[..r] == out
    case Corrupt(at) => r == -(at as int) - 1
  }

  datatype Run = Run(len: nat, next: nat)
  datatype MatchRun = MatchRun(len: nat, next: nat) | Overrun(at: nat)

  /** The token at `ip` can be read, and so can the length byte it may announce. */
  predicate Readable(src: seq<Byte>, ip: nat)
  {
    ip < |src| && (src[ip] / 16 == RUN_MASK ==> ip + 1 < |src|)
  }

  /** Literal-length extension. Reading stops early within 15 bytes of the end of the input. */
  function ReadRun(src: seq<Byte>, ip: nat): (r: Run)
    requires ip < |src|
    ensures ip < r.next <= |src|
    decreases |src| - ip
  {
    if src[ip] == 255 && ip + 1 < |src| - RUN_MASK then
      var r := ReadRun(src, ip + 1);
      Run(255 + r.len, r.next)
    else
      Run(src[ip], ip + 1)
  }

  function ReadLiteralLength(src: seq<Byte>, ip: nat): (r: Run)
    requires Readable(src, ip)
    ensures ip < r.next <= |src|
  {
    if src[ip] / 16 == RUN_MASK then
      var r := ReadRun(src, ip + 1);
      Run(RUN_MASK + r.len, r.next)
    else
      Run(src[ip] / 16, ip + 1)
  }

  /** Match-length extension. Running into the last 5 bytes of the input is an error. */
  function ReadMatchRun(src: seq<Byte>, ip: nat): (r: MatchRun)
    requires ip < |src|
    ensures r.MatchRun? ==> ip < r.next <= |src| - LAST_LITERALS
    decreases |src| - ip
  {
    if ip + 1 > |src| - LAST_LITERALS then Overrun(ip + 1)
    else if src[ip] == 255 then
      match ReadMatchRun(src, ip + 1)
      case MatchRun(len, next) => MatchRun(255 + len, next)
      case Overrun(at) => Overrun(at)
    else
      MatchRun(src[ip], ip + 1)
  }

  function ReadMatchLength(src: seq<Byte>, token: Byte, ip: nat): (r: MatchRun)
    requires ip + 6 <= |src|
    ensures r.MatchRun? ==> ip <= r.next <= |src| - LAST_LITERALS && r.len >= MIN_MATCH
  {
    if token % 16 == RUN_MASK then
      match ReadMatchRun(src, ip)
      case MatchRun(len, next) => MatchRun(RUN_MASK + MIN_MATCH + len, next)
      case Overrun(at) => Overrun(at)
    else
      MatchRun(token % 16 + MIN_MATCH, ip)
  }

  datatype Step = Halt(outcome: Outcome) | Continue(next: nat, out: seq<Byte>)

  /** Decode one sequence at `ip`, `out` having been produced so far. */
  function DecodeStep(src: seq<Byte>, ip: nat, out: seq<Byte>, cap: nat): (r: Step)
    requires Readable(src, ip)
    ensures r.Continue? ==> ip < r.next && Readable(src, r.next)
  {
    var lit := ReadLiteralLength(src, ip);
    var litEnd := lit.next + lit.len;
    if |out| + lit.len > cap - MF_LIMIT || litEnd > |src| - 8 then
      Halt(if litEnd != |src| || |out| + lit.len > cap then Corrupt(lit.next)
           else Decoded(out + src[lit.next..]))
    else
      MatchStep(src, src[ip], litEnd, out + src[lit.next..litEnd], cap)
  }

  /** The second half of a sequence: offset, match length, copy. */
  function MatchStep(src: seq<Byte>, token: Byte, litEnd: nat, out: seq<Byte>, cap: nat): (r: Step)
    requires litEnd + 8 <= |src|
    ensures r.Continue? ==> litEnd < r.next && Readable(src, r.next)
  {
    var offset := Le16(src[litEnd], src[litEnd + 1]);
    if offset > |out| then Halt(Corrupt(litEnd + 2))
    else
      match ReadMatchLength(src, token, litEnd + 2)
      case Overrun(at) => Halt(Corrupt(at))
      case MatchRun(len, next) =>
        if |out| + len > cap - LAST_LITERALS then Halt(Corrupt(next))
        else Continue(next, CopyBack(out, offset, len))
  }

  /** A sequence with a match: the literals are taken, the rest is MatchStep. */
  lemma StepTakesLiterals(src: seq<Byte>, ip: nat, out: seq<Byte>, cap: nat, lit: Run, litEnd: nat)
    requires Readable(src, ip) && lit == ReadLiteralLength(src, ip) && litEnd == lit.next + lit.len
    requires |out| + lit.len <= cap - MF_LIMIT && litEnd + 8 <= |src|
    ensures DecodeStep(src, ip, out, cap) == MatchStep(src, src[ip], litEnd, out + src[lit.next..litEnd], cap)
  {
    hide ReadLiteralLength, MatchStep, Readable;
  }

  /** A sequence that cannot have a match must be the last one and must end with the input. */
  lemma StepIsLast(src: seq<Byte>, ip: nat, out: seq<Byte>, cap: nat, lit: Run)
    requires Readable(src, ip) && lit == ReadLiteralLength(src, ip)
    requires |out| + lit.len > cap - MF_LIMIT || lit.next + lit.len > |src| - 8
    ensures DecodeStep(src, ip, out, cap)
         == Halt(if lit.next + lit.len != |src| || |out| + lit.len > cap then Corrupt(lit.next)
                 else Decoded(out + src[lit.next..]))
  {
    hide ReadLiteralLength, MatchStep, Readable;
  }

  function DecodeFrom(src: seq<Byte>, ip: nat, out: seq<Byte>, cap: nat): Outcome
    requires Readable(src, ip)
    decreases |src| - ip
  {
    match DecodeStep(src, ip, out, cap)
    case Halt(outcome) => outcome
    case Continue(next, out') => DecodeFrom(src, next, out', cap)
  }

  function Decode(src: seq<Byte>, cap: nat): Outcome
    requires Readable(src, 0)
  {
    if cap == 0 then (if src == [0] then Decoded([]) else Corrupt(0))
    else DecodeFrom(src, 0, [], cap)
  }

  // ---------------------------------------------------------------- what is accepted

  function LiteralEnd(before: nat, q: Sequence): nat
  {
    before + 1 + |LenBytes(|q.literals|)| + |q.literals|
  }

  /** The room a decoder with `cap` bytes of output and `n` bytes of input asks each sequence for. */
  predicate FitsSequences(seqs: seq<Sequence>, n: nat, cap: nat)
    requires AllWellTyped(seqs)
  {
    seqs == [] ||
    var k := |seqs| - 1;
    FitsSequences(seqs[..k], n, cap)
    && ExpandedLength(seqs[..k]) + |seqs[k].literals| <= cap - MF_LIMIT
    && LiteralEnd(|RenderSequences(seqs[..k])|, seqs[k]) <= n - 8
    && ExpandedLength(seqs) <= cap - LAST_LITERALS
    && (seqs[k].matchLen - MIN_MATCH >= RUN_MASK ==> |RenderSequences(seqs)| <= n - LAST_LITERALS)
  }

  predicate Fits(b: Block, cap: nat)
  {
    AllWellTyped(b.seqs) && InRange(b.seqs) && b.spare < 16
    && FitsSequences(b.seqs, |Render(b)|, cap)
    && ExpandedLength(b.seqs) + |b.last| <= cap
    && (cap == 0 ==> b.spare == 0)
  }

  // ---------------------------------------------------------------- reading back what was written

  predicate At(src: seq<Byte>, ip: nat, chunk: seq<Byte>)
  {
    ip + |chunk| <= |src| && src[ip..ip + |chunk|] == chunk
  }

  lemma AtSplit(src: seq<Byte>, ip: nat, a: seq<Byte>, b: seq<Byte>)
    requires At(src, ip, a + b)
    ensures At(src, ip, a) && At(src, ip + |a|, b)
  {
    assert src[ip..ip + |a|] == (a + b)[..|a|];
    assert src[ip + |a|..ip + |a| + |b|] == (a + b)[|a|..];
  }

  lemma {:induction false} ReadRunWritten(src: seq<Byte>, ip: nat, n: nat)
    requires At(src, ip, ExtBytes(n)) && ip + |ExtBytes(n)| + RUN_MASK <= |src|
    ensures ReadRun(src, ip) == Run(n, ip + |ExtBytes(n)|)
    decreases n
  {
    assert src[ip] == ExtBytes(n)[0];
    if n >= 255 {
      AtSplit(src, ip, [255], ExtBytes(n - 255));
      ReadRunWritten(src, ip + 1, n - 255);
    }
  }

  lemma {:induction false} ReadMatchRunWritten(src: seq<Byte>, ip: nat, n: nat)
    requires At(src, ip, ExtBytes(n)) && ip + |ExtBytes(n)| + LAST_LITERALS <= |src|
    ensures ReadMatchRun(src, ip) == MatchRun(n, ip + |ExtBytes(n)|)
    decreases n
  {
    assert src[ip] == ExtBytes(n)[0];
    if n >= 255 {
      AtSplit(src, ip, [255], ExtBytes(n - 255));
      ReadMatchRunWritten(src, ip + 1, n - 255);
    }
  }

  lemma TokenHalves(hi: nat, lo: nat)
    requires hi < 16 && lo < 16
    ensures (16 * hi + lo) / 16 == hi && (16 * hi + lo) % 16 == lo
  {
  }

  /** The parts of a chunk made of one byte, an extension and a run. */
  lemma AtSplit3(src: seq<Byte>, ip: nat, token: Byte, ext: seq<Byte>, run: seq<Byte>)
    requires At(src, ip, [token] + ext + run)
    ensures ip + 1 + |ext| + |run| <= |src| && src[ip] == token
    ensures At(src, ip + 1, ext) && At(src, ip + 1 + |ext|, run)
    ensures src[ip + 1 + |ext|..ip + 1 + |ext| + |run|] == run
  {
    AtSplit(src, ip, [token] + ext, run);
    AtSplit(src, ip, [token], ext);
    assert src[ip] == src[ip..ip + 1][0];
  }

  lemma LiteralLengthWritten(src: seq<Byte>, ip: nat, lits: seq<Byte>, low: nat)
    requires low < 16
    requires At(src, ip, [16 * Nibble(|lits|) + low] + LenBytes(|lits|) + lits)
    ensures Readable(src, ip) && src[ip] == 16 * Nibble(|lits|) + low
    ensures ReadLiteralLength(src, ip) == Run(|lits|, ip + 1 + |LenBytes(|lits|)|)
    ensures At(src, ip + 1 + |LenBytes(|lits|)|, lits)
    ensures src[ip + 1 + |LenBytes(|lits|)|..ip + 1 + |LenBytes(|lits|)| + |lits|] == lits
  {
    hide At, ReadRun;
    AtSplit3(src, ip, 16 * Nibble(|lits|) + low, LenBytes(|lits|), lits);
    assert src[ip] / 16 == Nibble(|lits|) by { TokenHalves(Nibble(|lits|), low); }
    if |lits| >= RUN_MASK {
      ReadRunWritten(src, ip + 1, |lits| - RUN_MASK);
    }
  }

  lemma MatchLengthWritten(src: seq<Byte>, token: Byte, ip: nat, matchLen: nat)
    requires matchLen >= MIN_MATCH && token % 16 == Nibble(matchLen - MIN_MATCH)
    requires At(src, ip, LenBytes(matchLen - MIN_MATCH)) && ip + 6 <= |src|
    requires matchLen - MIN_MATCH >= RUN_MASK
         ==> ip + |LenBytes(matchLen - MIN_MATCH)| <= |src| - LAST_LITERALS
    ensures ReadMatchLength(src, token, ip) == MatchRun(matchLen, ip + |LenBytes(matchLen - MIN_MATCH)|)
  {
    if matchLen - MIN_MATCH >= RUN_MASK {
      ReadMatchRunWritten(src, ip, matchLen - MIN_MATCH - RUN_MASK);
    }
  }

  lemma OffsetWritten(src: seq<Byte>, litEnd: nat, q: Sequence)
    requires At(src, litEnd, [q.lo, q.hi])
    ensures litEnd + 2 <= |src| && src[litEnd] == q.lo && src[litEnd + 1] == q.hi
  {
    assert src[litEnd..litEnd + 2][0] == q.lo && src[litEnd..litEnd + 2][1] == q.hi;
  }

  /** Where the parts of a written sequence are found. */
  lemma PartsWritten(src: seq<Byte>, ip: nat, q: Sequence)
    requires WellTyped(q) && At(src, ip, RenderSequence(q))
    ensures |RenderSequence(q)| == LiteralEnd(0, q) + 2 + |LenBytes(q.matchLen - MIN_MATCH)|
    ensures var litEnd := LiteralEnd(ip, q);
            At(src, ip,
               [16 * Nibble(|q.literals|) + Nibble(q.matchLen - MIN_MATCH)] + LenBytes(|q.literals|) + q.literals)
            && At(src, litEnd, [q.lo, q.hi]) && At(src, litEnd + 2, LenBytes(q.matchLen - MIN_MATCH))
  {
    var head := [16 * Nibble(|q.literals|) + Nibble(q.matchLen - MIN_MATCH)] + LenBytes(|q.literals|) + q.literals;
    AtSplit(src, ip, head + [q.lo, q.hi], LenBytes(q.matchLen - MIN_MATCH));
    AtSplit(src, ip, head, [q.lo, q.hi]);
  }

  /** What the decoder reads at a written sequence. */
  lemma FieldsWritten(src: seq<Byte>, ip: nat, q: Sequence)
    requires WellTyped(q) && At(src, ip, RenderSequence(q))
    requires LiteralEnd(ip, q) <= |src| - 8
    requires q.matchLen - MIN_MATCH >= RUN_MASK ==> ip + |RenderSequence(q)| <= |src| - LAST_LITERALS
    ensures var litEnd := LiteralEnd(ip, q);
            Readable(src, ip)
            && ReadLiteralLength(src, ip) == Run(|q.literals|, litEnd - |q.literals|)
            && src[litEnd - |q.literals|..litEnd] == q.literals
            && src[litEnd] == q.lo && src[litEnd + 1] == q.hi
            && ReadMatchLength(src, src[ip], litEnd + 2) == MatchRun(q.matchLen, ip + |RenderSequence(q)|)
  {
    hide At, RenderSequence, LenBytes, Readable, ReadLiteralLength, ReadMatchLength;
    var low := Nibble(q.matchLen - MIN_MATCH);
    PartsWritten(src, ip, q);
    LiteralLengthWritten(src, ip, q.literals, low);
    assert src[ip] % 16 == low by { TokenHalves(Nibble(|q.literals|), low); }
    OffsetWritten(src, LiteralEnd(ip, q), q);
    MatchLengthWritten(src, src[ip], LiteralEnd(ip, q) + 2, q.matchLen);
  }

  /** Decoding one written sequence in place is expanding it. */
  lemma StepWritten(src: seq<Byte>, ip: nat, q: Sequence, out: seq<Byte>, cap: nat)
    requires WellTyped(q) && At(src, ip, RenderSequence(q))
    requires q.Offset() <= |out| + |q.literals|
    requires |out| + |q.literals| <= cap - MF_LIMIT
    requires |out| + |q.literals| + q.matchLen <= cap - LAST_LITERALS
    requires LiteralEnd(ip, q) <= |src| - 8
    requires q.matchLen - MIN_MATCH >= RUN_MASK ==> ip + |RenderSequence(q)| <= |src| - LAST_LITERALS
    ensures Readable(src, ip)
    ensures DecodeStep(src, ip, out, cap) == Continue(ip + |RenderSequence(q)|, ExpandFrom(out, q))
  {
    hide At, RenderSequence, LenBytes, Readable, ReadLiteralLength, ReadMatchLength, CopyBack, DecodeStep;
    FieldsWritten(src, ip, q);
    var litEnd := LiteralEnd(ip, q);
    StepTakesLiterals(src, ip, out, cap, Run(|q.literals|, litEnd - |q.literals|), litEnd);
  }

  /** Every prefix of a fitting block fits, and its bytes are where the block starts. */
  lemma {:induction false} PrefixWritten(b: Block, k: nat, cap: nat)
    requires Fits(b, cap) && k <= |b.seqs|
    ensures AllWellTyped(b.seqs[..k]) && InRange(b.seqs[..k])
    ensures At(Render(b), 0, RenderSequences(b.seqs[..k]))
    ensures FitsSequences(b.seqs[..k], |Render(b)|, cap)
    decreases |b.seqs| - k
  {
    if k == |b.seqs| {
      assert b.seqs[..k] == b.seqs;
      assert Render(b)[0..|RenderSequences(b.seqs)|] == RenderSequences(b.seqs);
    } else {
      PrefixWritten(b, k + 1, cap);
      hide RenderSequence, Render, At, LiteralEnd, LenBytes;
      assert b.seqs[..k + 1][..k] == b.seqs[..k];
      AtSplit(Render(b), 0, RenderSequences(b.seqs[..k]), RenderSequence(b.seqs[k]));
    }
  }

  /** The `k`-th sequence of a fitting block, decoded where it was written. */
  lemma StepOfBlock(b: Block, k: nat, cap: nat)
    requires Fits(b, cap) && k < |b.seqs|
    requires AllWellTyped(b.seqs[..k]) && InRange(b.seqs[..k])
    requires AllWellTyped(b.seqs[..k + 1]) && InRange(b.seqs[..k + 1])
    requires At(Render(b), 0, RenderSequences(b.seqs[..k + 1]))
    requires FitsSequences(b.seqs[..k + 1], |Render(b)|, cap)
    ensures var ip := |RenderSequences(b.seqs[..k])|;
            Readable(Render(b), ip)
            && DecodeStep(Render(b), ip, ExpandSequences(b.seqs[..k]), cap)
            == Continue(|RenderSequences(b.seqs[..k + 1])|, ExpandSequences(b.seqs[..k + 1]))
  {
    hide DecodeStep, Readable, RenderSequence, LenBytes, Render, ExpandFrom, At;
    var pre, q := b.seqs[..k], b.seqs[k];
    assert b.seqs[..k + 1] == pre + [q];
    assert (pre + [q])[..k] == pre && (pre + [q])[k] == q;
    Snoc(pre, q);
    AtSplit(Render(b), 0, RenderSequences(pre), RenderSequence(q));
    StepWritten(Render(b), |RenderSequences(pre)|, q, ExpandSequences(pre), cap);
  }

  lemma LastOfBlock(b: Block, cap: nat)
    requires Fits(b, cap)
    ensures Readable(Render(b), |RenderSequences(b.seqs)|)
    ensures DecodeFrom(Render(b), |RenderSequences(b.seqs)|, ExpandSequences(b.seqs), cap) == Decoded(Expand(b))
  {
    hide RenderSequence, LenBytes, ReadLiteralLength, MatchStep, FitsSequences, Readable, InRange, AllWellTyped;
    var src, ip := Render(b), |RenderSequences(b.seqs)|;
    assert src[ip..|src|] == RenderLast(b.last, b.spare);
    LiteralLengthWritten(src, ip, b.last, b.spare);
    assert src[ip + 1 + |LenBytes(|b.last|)|..] == src[ip + 1 + |LenBytes(|b.last|)|..|src|] == b.last;
  }

  lemma {:induction false} DecodeWritten(b: Block, k: nat, cap: nat)
    requires Fits(b, cap) && k <= |b.seqs|
    ensures AllWellTyped(b.seqs[..k]) && InRange(b.seqs[..k])
    ensures Readable(Render(b), |RenderSequences(b.seqs[..k])|)
    ensures DecodeFrom(Render(b), |RenderSequences(b.seqs[..k])|, ExpandSequences(b.seqs[..k]), cap)
         == Decoded(Expand(b))
    decreases |b.seqs| - k
  {
    PrefixWritten(b, k, cap);
    if k == |b.seqs| {
      assert b.seqs[..k] == b.seqs;
      LastOfBlock(b, cap);
    } else {
      PrefixWritten(b, k + 1, cap);
      StepOfBlock(b, k, cap);
      DecodeWritten(b, k + 1, cap);
    }
  }

  // ---------------------------------------------------------------- only written blocks are read

  lemma {:induction false} ReadRunOnlyWritten(src: seq<Byte>, ip: nat)
    requires ip < |src|
    ensures var r := ReadRun(src, ip);
            r.next + RUN_MASK + r.len <= |src| ==> src[ip..r.next] == ExtBytes(r.len)
    decreases |src| - ip
  {
    var r := ReadRun(src, ip);
    if r.next + RUN_MASK + r.len <= |src| {
      if src[ip] == 255 && ip + 1 < |src| - RUN_MASK {
        ReadRunOnlyWritten(src, ip + 1);
        assert src[ip..r.next] == [src[ip]] + src[ip + 1..r.next];
      } else {
        assert src[ip..r.next] == [src[ip]];
      }
    }
  }

  lemma {:induction false} ReadMatchRunOnlyWritten(src: seq<Byte>, ip: nat)
    requires ip < |src|
    ensures var r := ReadMatchRun(src, ip);
            r.MatchRun? ==> src[ip..r.next] == ExtBytes(r.len)
    decreases |src| - ip
  {
    var r := ReadMatchRun(src, ip);
    if r.MatchRun? {
      if src[ip] == 255 {
        ReadMatchRunOnlyWritten(src, ip + 1);
        assert src[ip..r.next] == [src[ip]] + src[ip + 1..r.next];
      } else {
        assert src[ip..r.next] == [src[ip]];
      }
    }
  }

  lemma LiteralLengthOnlyWritten(src: seq<Byte>, ip: nat)
    requires Readable(src, ip)
    ensures var r := ReadLiteralLength(src, ip);
            r.next + r.len <= |src| ==>
              var lits := src[r.next..r.next + r.len];
              src[ip..r.next + r.len] == [16 * Nibble(r.len) + src[ip] % 16] + LenBytes(r.len) + lits
  {
    var r := ReadLiteralLength(src, ip);
    if r.next + r.len <= |src| {
      if src[ip] / 16 == RUN_MASK { ReadRunOnlyWritten(src, ip + 1); }
      assert src[ip] == 16 * Nibble(r.len) + src[ip] % 16;
      assert src[ip + 1..r.next] == LenBytes(r.len);
      assert src[ip..r.next + r.len] == [src[ip]] + src[ip + 1..r.next] + src[r.next..r.next + r.len];
    }
  }

  lemma MatchLengthOnlyWritten(src: seq<Byte>, token: Byte, ip: nat)
    requires ip + 6 <= |src|
    ensures var m := ReadMatchLength(src, token, ip);
            m.MatchRun? ==> token % 16 == Nibble(m.len - MIN_MATCH) && src[ip..m.next] == LenBytes(m.len - MIN_MATCH)
  {
    if token % 16 == RUN_MASK {
      ReadMatchRunOnlyWritten(src, ip);
    }
  }

  /** If the decoder steps over a sequence, that sequence was written there. */
  lemma StepOnlyWritten(src: seq<Byte>, ip: nat, litEnd: nat, m: MatchRun) returns (q: Sequence)
    requires Readable(src, ip)
    requires var lit := ReadLiteralLength(src, ip); litEnd == lit.next + lit.len
    requires litEnd <= |src| - 8 && m == ReadMatchLength(src, src[ip], litEnd + 2) && m.MatchRun?
    ensures WellTyped(q) && src[ip..m.next] == RenderSequence(q)
    ensures q.literals == src[ReadLiteralLength(src, ip).next..litEnd]
    ensures q.Offset() == Le16(src[litEnd], src[litEnd + 1]) && q.matchLen == m.len
    ensures LiteralEnd(ip, q) == litEnd
  {
    hide ReadLiteralLength, ReadMatchLength, LenBytes;
    var lit := ReadLiteralLength(src, ip);
    var lits := src[lit.next..litEnd];
    q := Sequence(lits, src[litEnd], src[litEnd + 1], m.len);
    LiteralLengthOnlyWritten(src, ip);
    var head := [16 * Nibble(|lits|) + Nibble(m.len - MIN_MATCH)] + LenBytes(|lits|) + lits;
    MatchLengthOnlyWritten(src, src[ip], litEnd + 2);
    assert src[ip..m.next] == src[ip..litEnd] + [src[litEnd], src[litEnd + 1]] + src[litEnd + 2..m.next];
    assert src[ip..litEnd] == head;
    assert |head| == litEnd - ip;
  }

  lemma LastOnlyWritten(src: seq<Byte>, seqs: seq<Sequence>, cap: nat) returns (b: Block)
    requires AllWellTyped(seqs) && InRange(seqs) && cap > 0
    requires At(src, 0, RenderSequences(seqs)) && FitsSequences(seqs, |src|, cap)
    requires Readable(src, |RenderSequences(seqs)|)
    requires var lit := ReadLiteralLength(src, |RenderSequences(seqs)|);
             lit.next + lit.len == |src| && ExpandedLength(seqs) + lit.len <= cap
    ensures Fits(b, cap) && Render(b) == src
    ensures Expand(b) == ExpandSequences(seqs) + src[ReadLiteralLength(src, |RenderSequences(seqs)|).next..]
  {
    hide ReadLiteralLength, LenBytes;
    var ip := |RenderSequences(seqs)|;
    var lit := ReadLiteralLength(src, ip);
    b := Block(seqs, src[lit.next..], src[ip] % 16);
    LiteralLengthOnlyWritten(src, ip);
    assert src[lit.next..lit.next + lit.len] == src[lit.next..];
    assert src[ip..|src|] == RenderLast(b.last, b.spare);
    assert src == src[0..ip] + src[ip..|src|];
  }

  /** A sequence the decoder stepped over extends a fitting prefix to a fitting prefix. */
  lemma ExtendPrefix(src: seq<Byte>, seqs: seq<Sequence>, q: Sequence, next: nat, cap: nat)
    requires AllWellTyped(seqs) && InRange(seqs) && WellTyped(q)
    requires At(src, 0, RenderSequences(seqs)) && FitsSequences(seqs, |src|, cap)
    requires var ip := |RenderSequences(seqs)|;
             ip <= next <= |src| && src[ip..next] == RenderSequence(q)
             && LiteralEnd(ip, q) <= |src| - 8
    requires q.matchLen - MIN_MATCH >= RUN_MASK ==> next <= |src| - LAST_LITERALS
    requires ExpandedLength(seqs) + |q.literals| <= cap - MF_LIMIT
    requires ExpandedLength(seqs) + |q.literals| + q.matchLen <= cap - LAST_LITERALS
    requires q.Offset() <= ExpandedLength(seqs) + |q.literals|
    ensures AllWellTyped(seqs + [q]) && InRange(seqs + [q])
    ensures At(src, 0, RenderSequences(seqs + [q])) && |RenderSequences(seqs + [q])| == next
    ensures FitsSequences(seqs + [q], |src|, cap)
  {
    hide RenderSequence, LenBytes, ExpandFrom;
    Snoc(seqs, q);
    assert src[0..next] == src[0..|RenderSequences(seqs)|] + src[|RenderSequences(seqs)|..next];
    assert (seqs + [q])[..|seqs|] == seqs;
  }

  lemma {:induction false} DecodeOnlyWritten(src: seq<Byte>, seqs: seq<Sequence>, cap: nat) returns (b: Block)
    requires AllWellTyped(seqs) && InRange(seqs) && cap > 0
    requires At(src, 0, RenderSequences(seqs)) && FitsSequences(seqs, |src|, cap)
    requires Readable(src, |RenderSequences(seqs)|)
    requires DecodeFrom(src, |RenderSequences(seqs)|, ExpandSequences(seqs), cap).Decoded?
    ensures Fits(b, cap) && Render(b) == src
    ensures Decoded(Expand(b)) == DecodeFrom(src, |RenderSequences(seqs)|, ExpandSequences(seqs), cap)
    decreases |src| - |RenderSequences(seqs)|
  {
    hide At, ReadLiteralLength, ReadMatchLength, RenderSequence, LenBytes, Readable;
    var ip, out := |RenderSequences(seqs)|, ExpandSequences(seqs);
    var lit := ReadLiteralLength(src, ip);
    var litEnd := lit.next + lit.len;
    if |out| + lit.len > cap - MF_LIMIT || litEnd > |src| - 8 {
      b := LastOnlyWritten(src, seqs, cap);
    } else {
      var m := ReadMatchLength(src, src[ip], litEnd + 2);
      var q := StepOnlyWritten(src, ip, litEnd, m);
      ExtendPrefix(src, seqs, q, m.next, cap);
      Snoc(seqs, q);
      assert ExpandSequences(seqs + [q]) == CopyBack(out + src[lit.next..litEnd], q.Offset(), m.len);
      b := DecodeOnlyWritten(src, seqs + [q], cap);
    }
  }

  /** The decoder accepts an input exactly when it is the writing of a block that fits, and what
      it returns is that block's expansion. */
  lemma AcceptsExactlyBlocks(src: seq<Byte>, cap: nat, out: seq<Byte>)
    requires Readable(src, 0)
    ensures Decode(src, cap) == Decoded(out)
       <==> exists b :: Fits(b, cap) && Render(b) == src && Expand(b) == out
  {
    if Decode(src, cap) == Decoded(out) {
      if cap == 0 {
        var b := Block([], [], 0);
        assert Fits(b, 0) && Render(b) == src && Expand(b) == out;
      } else {
        var b := DecodeOnlyWritten(src, [], cap);
      }
    }
    if b :| Fits(b, cap) && Render(b) == src && Expand(b) == out {
      DecodeFits(b, cap);
    }
  }

  lemma DecodeFits(b: Block, cap: nat)
    requires Fits(b, cap)
    ensures Readable(Render(b), 0) && Decode(Render(b), cap) == Decoded(Expand(b))
  {
    assert b.seqs[..0] == [];
    DecodeWritten(b, 0, cap);
    if cap == 0 {
      assert b.seqs == [] && b.last == [] && Render(b) == [0];
    }
  }

  // ---------------------------------------------------------------- compliant blocks always fit

  lemma {:induction false} CompliantSequencesFit(seqs: seq<Sequence>, total: nat, n: nat, cap: nat)
    requires AllWellTyped(seqs) && CompliantSequences(seqs, total) && total <= cap
    requires |RenderSequences(seqs)| + 1 + LAST_LITERALS <= n
    ensures FitsSequences(seqs, n, cap)
  {
    if seqs != [] {
      var k := |seqs| - 1;
      assert |RenderSequence(seqs[k])| >= LiteralEnd(0, seqs[k]) + 2;
      CompliantSequencesFit(seqs[..k], total, n, cap);
    }
  }

  lemma CompliantFits(b: Block, cap: nat)
    requires Compliant(b) && |Expand(b)| <= cap
    ensures Fits(b, cap)
  {
    hide RenderSequence, LenBytes, CompliantSequences;
    if b.seqs != [] {
      assert |Render(b)| >= |RenderSequences(b.seqs)| + 1 + |b.last|;
      CompliantSequencesFit(b.seqs, |Expand(b)|, |Render(b)|, cap);
    }
  }

  /** A compliant encoding decodes to its data, whatever room beyond the data the caller gives. */
  lemma DecodeEncoded(c: seq<Byte>, data: seq<Byte>, cap: nat)
    requires Encodes(c, data) && |data| <= cap
    ensures Readable(c, 0) && Decode(c, cap) == Decoded(data)
  {
    var b :| Compliant(b) && Render(b) == c && Expand(b) == data;
    CompliantFits(b, cap);
    hide Fits, Readable, Decode;
    DecodeFits(b, cap);
  }
}

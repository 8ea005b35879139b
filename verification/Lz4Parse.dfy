/** What LZ4_compress_generic (unlimited output, no dictionary) makes of its input: the greedy parse by hash
    table, as a function, and why its writing is a compliant encoding within the promised bound. */
module Lz4Parse {
  import opened Bytes
  import opened Lz4Format
  import opened Lz4Count
  import opened Lz4Encoder

  const LIMIT_64K := 65536 + (MF_LIMIT - 1)
  const MAX_INPUT_SIZE := 0x7E000000
  const MIN_LENGTH := MF_LIMIT + 1
  const TABLE_SIZE_U16 := 8192
  const TABLE_SIZE_U32 := 4096

  /** Entries of the hash table: 16 KB of 16-bit or of 32-bit positions. */
  function TableSize(byU16: bool): nat { if byU16 then TABLE_SIZE_U16 else TABLE_SIZE_U32 }

  function CompressBound(n: nat): nat
  {
    if n > MAX_INPUT_SIZE then 0 else n + n / 255 + 16
  }

  /** Input sizes for which positions survive being stored. */
  predicate SizeFits(n: nat, byU16: bool)
  {
    if byU16 then n < LIMIT_64K else n <= MAX_INPUT_SIZE
  }

  // ---------------------------------------------------------------- the hash table

  /** LZ4_hash4 for the 16-bit table: the top 13 bits of a 32-bit product. */
  function Hash4(sequence: nat): (h: nat)
    ensures h < TABLE_SIZE_U16
  {
    sequence * 2654435761 % 0x1_0000_0000 / 0x8_0000
  }

  /** LZ4_hash5 for the 32-bit table: the top 12 bits of a 64-bit product. */
  function Hash5(sequence: nat): (h: nat)
    ensures h < TABLE_SIZE_U32
  {
    sequence * 0x100_0000 % 0x1_0000_0000_0000_0000 * 889523592379 % 0x1_0000_0000_0000_0000 / 0x10_0000_0000_0000
  }

  function HashPosition(src: seq<Byte>, p: nat, byU16: bool): (h: nat)
    requires p + 8 <= |src|
    ensures h < TableSize(byU16)
  {
    if byU16 then Hash4(FromLe(src[p..p + 4])) else Hash5(FromLe(src[p..p + 8]))
  }

  // ---------------------------------------------------------------- searching

  /** The four bytes at `p` occur before it, at `m`. */
  predicate SameWord(src: seq<Byte>, m: nat, p: nat)
  {
    m < p && p + 4 <= |src| && FromLe(src[m..m + 4]) == FromLe(src[p..p + 4])
  }

  lemma EqualWords(src: seq<Byte>, p: nat, m: nat)
    requires m <= p && p + 4 <= |src|
    ensures FromLe(src[m..m + 4]) == FromLe(src[p..p + 4]) <==> Agree(src, p, m, 4)
  {
    hide FromLe;
    var a, b := src[m..m + 4], src[p..p + 4];
    LeInjective(a, b);
    if a == b {
      forall i | p <= i < p + 4 ensures src[i] == src[i - (p - m)] { assert a[i - p] == b[i - p]; }
    }
    if Agree(src, p, m, 4) {
      forall k | 0 <= k < 4 ensures a[k] == b[k] { assert src[p + k] == src[p + k - (p - m)]; }
    }
  }

  datatype Found = NoMatch | Match(ip: nat, m: nat, table: seq<nat>)

  /** Where a found match may be. */
  predicate Usable(src: seq<Byte>, f: Found, ip: nat, byU16: bool)
    requires f.Match?
  {
    |f.table| == TableSize(byU16) && ip <= f.ip && f.ip + MF_LIMIT < |src| && SameWord(src, f.m, f.ip)
    && (byU16 || f.ip <= f.m + MAX_DISTANCE)
  }

  /** The skipping search from `ip` on: each position looked up is recorded, and the step grows by one with
      every 64 failures. */
  function Search(src: seq<Byte>, table: seq<nat>, ip: nat, step: nat, attempts: nat, byU16: bool): (f: Found)
    requires |table| == TableSize(byU16) && step >= 1 && attempts >= 64 && ip + 8 <= |src|
    ensures f.Match? ==> Usable(src, f, ip, byU16)
    decreases |src| - ip
  {
    if ip + step + MF_LIMIT > |src| then NoMatch
    else
      var h := HashPosition(src, ip, byU16);
      var m, table' := table[h], table[h := ip];
      if (byU16 || ip <= m + MAX_DISTANCE) && SameWord(src, m, ip) then Match(ip, m, table')
      else Search(src, table', ip + step, attempts / 64, attempts + 1, byU16)
  }

  /** One position of the search. */
  lemma SearchStep(src: seq<Byte>, table: seq<nat>, ip: nat, step: nat, attempts: nat, byU16: bool, h: nat, m: nat)
    requires |table| == TableSize(byU16) && step >= 1 && attempts >= 64 && ip + 8 <= |src|
    requires h == HashPosition(src, ip, byU16) && m == table[h]
    ensures Search(src, table, ip, step, attempts, byU16) ==
            if ip + step + MF_LIMIT > |src| then NoMatch
            else if (byU16 || ip <= m + MAX_DISTANCE) && SameWord(src, m, ip) then Match(ip, m, table[h := ip])
            else Search(src, table[h := ip], ip + step, attempts / 64, attempts + 1, byU16)
  {
  }

  datatype Place = Place(ip: nat, m: nat)

  /** A match extended backwards over pending literals. */
  function Back(src: seq<Byte>, anchor: nat, ip: nat, m: nat): (p: Place)
    requires anchor <= ip && m < ip <= |src|
    ensures anchor <= p.ip <= ip && p.m <= m && p.ip - p.m == ip - m
    ensures Agree(src, p.ip, p.m, ip - p.ip)
  {
    if ip > anchor && m > 0 && src[ip - 1] == src[m - 1] then Back(src, anchor, ip - 1, m - 1) else Place(ip, m)
  }

  // ---------------------------------------------------------------- one match after another

  /** A sequence with its offset in two bytes. */
  function SequenceOf(literals: seq<Byte>, offset: nat, matchLen: nat): (q: Sequence)
    requires offset <= MAX_DISTANCE
    ensures q.Offset() == offset
  {
    Sequence(literals, offset % 256, offset / 256, matchLen)
  }

  /** The match at `ip` in full, with the literals before it. */
  function Full(src: seq<Byte>, anchor: nat, ip: nat, m: nat): (q: Sequence)
    requires anchor <= ip && m < ip <= m + MAX_DISTANCE && ip + MF_LIMIT <= |src|
    ensures WellTyped(q) && ip + q.matchLen + LAST_LITERALS <= |src|
  {
    SequenceOf(src[anchor..ip], ip - m, MIN_MATCH + CommonLength(src, ip + 4, m + 4, |src| - LAST_LITERALS))
  }

  /** No other sequence has the same parts. */
  lemma OnlyFull(src: seq<Byte>, anchor: nat, ip: nat, m: nat, q: Sequence)
    requires anchor <= ip && m < ip <= m + MAX_DISTANCE && ip + MF_LIMIT <= |src|
    requires q.literals == src[anchor..ip] && q.Offset() == ip - m
    requires q.matchLen == MIN_MATCH + CommonLength(src, ip + 4, m + 4, |src| - LAST_LITERALS)
    ensures q == Full(src, anchor, ip, m)
  {
  }

  /** The table once the positions around a match's end `ip` are recorded. */
  function Recorded(src: seq<Byte>, table: seq<nat>, ip: nat, byU16: bool): (t: seq<nat>)
    requires |table| == TableSize(byU16) && 2 <= ip && ip + MF_LIMIT <= |src|
    ensures |t| == |table|
  {
    table[HashPosition(src, ip - 2, byU16) := ip - 2][HashPosition(src, ip, byU16) := ip]
  }

  /** What the table has for `ip` in between. */
  function Hit(src: seq<Byte>, table: seq<nat>, ip: nat, byU16: bool): nat
    requires |table| == TableSize(byU16) && 2 <= ip && ip + MF_LIMIT <= |src|
  {
    table[HashPosition(src, ip - 2, byU16) := ip - 2][HashPosition(src, ip, byU16)]
  }

  /** Whether that is a match to be taken at once. */
  predicate Takes(src: seq<Byte>, next: nat, ip: nat)
  {
    ip <= next + MAX_DISTANCE && SameWord(src, next, ip)
  }

  /** Sequences so far, where the literals after them start, the table, and whether to search on. */
  datatype Parse = Parse(seqs: seq<Sequence>, anchor: nat, table: seq<nat>, more: bool)

  /** A match, and every match that follows it directly. */
  function Matches(src: seq<Byte>, table: seq<nat>, seqs: seq<Sequence>, anchor: nat, ip: nat, m: nat,
                   byU16: bool): (p: Parse)
    requires |table| == TableSize(byU16) && anchor <= ip && m < ip <= m + MAX_DISTANCE && ip + MF_LIMIT <= |src|
    ensures |p.table| == |table| && ip + Full(src, anchor, ip, m).matchLen <= p.anchor
    ensures p.more ==> p.anchor + MF_LIMIT <= |src|
    decreases |src| - ip
  {
    var q := Full(src, anchor, ip, m);
    var end := ip + q.matchLen;
    if end + MF_LIMIT > |src| then Parse(seqs + [q], end, table, false)
    else
      var next, table' := Hit(src, table, end, byU16), Recorded(src, table, end, byU16);
      if Takes(src, next, end) then Matches(src, table', seqs + [q], end, end, next, byU16)
      else Parse(seqs + [q], end, table', true)
  }

  /** One match of several, `next` being what its end hit. */
  lemma MatchesStep(src: seq<Byte>, table: seq<nat>, seqs: seq<Sequence>, anchor: nat, ip: nat, m: nat, byU16: bool)
    requires |table| == TableSize(byU16) && anchor <= ip && m < ip <= m + MAX_DISTANCE && ip + MF_LIMIT <= |src|
    ensures var q := Full(src, anchor, ip, m);
            var end := ip + q.matchLen;
            Matches(src, table, seqs, anchor, ip, m, byU16) ==
            if end + MF_LIMIT > |src| then Parse(seqs + [q], end, table, false)
            else
              var next, table' := Hit(src, table, end, byU16), Recorded(src, table, end, byU16);
              if Takes(src, next, end) then Matches(src, table', seqs + [q], end, end, next, byU16)
              else Parse(seqs + [q], end, table', true)
  {
  }

  lemma MatchAgrees(src: seq<Byte>, ip: nat, m: nat, matchCode: nat)
    requires m < ip && ip + MF_LIMIT <= |src| && Agree(src, ip, m, 4)
    requires matchCode == CommonLength(src, ip + 4, m + 4, |src| - LAST_LITERALS)
    ensures ip + 4 + matchCode + LAST_LITERALS <= |src| && Agree(src, ip, m, 4 + matchCode)
  {
  }

  /** A match of at least 4 that agrees up to `found` leads past `found`. */
  lemma MatchPasses(src: seq<Byte>, anchor: nat, ip: nat, m: nat, found: nat)
    requires anchor <= ip && m < ip <= m + MAX_DISTANCE && ip <= found && found + MF_LIMIT <= |src|
    requires Agree(src, ip, m, 4 + (found - ip))
    ensures Agree(src, ip, m, 4) && ip + Full(src, anchor, ip, m).matchLen >= found + 4
  {
    CommonLengthSkip(src, ip + 4, m + 4, |src| - LAST_LITERALS, found - ip);
  }

  // ---------------------------------------------------------------- the whole parse

  /** Search, extend backwards, take matches. */
  function Turn(src: seq<Byte>, table: seq<nat>, seqs: seq<Sequence>, anchor: nat, ip: nat, byU16: bool,
                acceleration: nat): (p: Parse)
    requires SizeFits(|src|, byU16) && |table| == TableSize(byU16) && acceleration >= 1
    requires anchor <= ip && ip + 8 <= |src|
    ensures p.more ==> |p.table| == |table| && ip + 4 <= p.anchor && p.anchor + MF_LIMIT <= |src|
  {
    var f := Search(src, table, ip, 1, acceleration * 64, byU16);
    if f.NoMatch? then Parse(seqs, anchor, table, false)
    else
      var b := Back(src, anchor, f.ip, f.m);
      BackAgrees(src, anchor, f.ip, f.m);
      MatchPasses(src, anchor, b.ip, b.m, f.ip);
      Matches(src, f.table, seqs, anchor, b.ip, b.m, byU16)
  }

  /** A match extended backwards still has its first four bytes. */
  lemma BackAgrees(src: seq<Byte>, anchor: nat, ip: nat, m: nat)
    requires anchor <= ip && SameWord(src, m, ip)
    ensures var b := Back(src, anchor, ip, m); Agree(src, b.ip, b.m, 4 + (ip - b.ip))
  {
    EqualWords(src, ip, m);
  }

  /** Turn after turn, each from one past the last match's end. */
  function Turns(src: seq<Byte>, table: seq<nat>, seqs: seq<Sequence>, anchor: nat, ip: nat, byU16: bool,
                 acceleration: nat): Parse
    requires SizeFits(|src|, byU16) && |table| == TableSize(byU16) && acceleration >= 1
    requires anchor <= ip && ip + 8 <= |src|
    decreases |src| - ip
  {
    var p := Turn(src, table, seqs, anchor, ip, byU16, acceleration);
    if p.more then Turns(src, p.table, p.seqs, p.anchor, p.anchor + 1, byU16, acceleration) else p
  }

  /** The table when the main loop starts: only the first position is recorded. */
  function FirstTable(src: seq<Byte>, byU16: bool): (t: seq<nat>)
    requires |src| >= MIN_LENGTH
    ensures |t| == TableSize(byU16)
  {
    seq(TableSize(byU16), i => 0)[HashPosition(src, 0, byU16) := 0]
  }

  function WholeParse(src: seq<Byte>, byU16: bool, acceleration: nat): Parse
    requires SizeFits(|src|, byU16) && acceleration >= 1
  {
    if |src| < MIN_LENGTH then Parse([], 0, [], false)
    else Turns(src, FirstTable(src, byU16), [], 0, 1, byU16, acceleration)
  }

  // ---------------------------------------------------------------- what has been written

  /** `out` encodes src[..anchor] by compliant sequences at no more than 256/255 bytes per byte. */
  ghost predicate Progress(src: seq<Byte>, out: seq<Byte>, anchor: nat, seqs: seq<Sequence>)
  {
    AllWellTyped(seqs) && InRange(seqs) && out == RenderSequences(seqs)
    && anchor <= |src| && ExpandSequences(seqs) == src[..anchor]
    && CompliantSequences(seqs, |src|)
    && (seqs != [] ==> anchor + LAST_LITERALS <= |src|)
    && 255 * |out| <= 256 * anchor
  }

  /** Copying back over bytes that agree reproduces them. */
  lemma {:induction false} CopyBackAgrees(src: seq<Byte>, ip: nat, m: nat, n: nat)
    requires m < ip && ip + n <= |src| && Agree(src, ip, m, n)
    ensures CopyBack(src[..ip], ip - m, n) == src[..ip + n]
    decreases n
  {
    if n > 0 {
      assert src[ip] == src[m];
      assert src[..ip] + [src[..ip][m]] == src[..ip + 1];
      CopyBackAgrees(src, ip + 1, m + 1, n - 1);
    }
  }

  lemma SequenceCost(q: Sequence)
    requires WellTyped(q)
    ensures 255 * |RenderSequence(q)| <= 256 * (|q.literals| + q.matchLen)
    ensures 255 * |LiteralPart(q.literals, 0)| <= 256 * |q.literals| + 495
    ensures 255 * |LenBytes(q.matchLen - MIN_MATCH)| <= q.matchLen + 236
  {
    hide LenBytes;
    LenBytesCost(|q.literals|);
    LenBytesCost(q.matchLen - MIN_MATCH);
    assert |RenderSequence(q)| == 3 + |LenBytes(|q.literals|)| + |q.literals| + |LenBytes(q.matchLen - MIN_MATCH)|;
  }

  /** One more legal sequence keeps all of that. */
  lemma AppendSequence(src: seq<Byte>, out: seq<Byte>, anchor: nat, seqs: seq<Sequence>, ip: nat, m: nat, q: Sequence)
    requires Progress(src, out, anchor, seqs) && WellTyped(q)
    requires anchor <= ip && ip + MF_LIMIT <= |src| && ip + q.matchLen + LAST_LITERALS <= |src|
    requires q.literals == src[anchor..ip] && m < ip && q.Offset() == ip - m
    requires Agree(src, ip, m, q.matchLen)
    ensures Progress(src, out + RenderSequence(q), ip + q.matchLen, seqs + [q])
  {
    hide RenderSequence, LiteralPart, LenBytes, CopyBack;
    Snoc(seqs, q);
    SequenceCost(q);
    assert src[..anchor] + src[anchor..ip] == src[..ip];
    CopyBackAgrees(src, ip, m, q.matchLen);
    assert (seqs + [q])[..|seqs|] == seqs;
  }

  /** Closing the block with the remaining literals. */
  lemma CloseBlock(src: seq<Byte>, out: seq<Byte>, anchor: nat, seqs: seq<Sequence>)
    requires Progress(src, out, anchor, seqs)
    ensures Encodes(out + RenderLast(src[anchor..], 0), src)
    ensures 255 * |out + RenderLast(src[anchor..], 0)| <= 256 * |src| + 495
  {
    hide LenBytes, RenderSequence;
    LenBytesCost(|src| - anchor);
    var b := Block(seqs, src[anchor..], 0);
    assert src[..anchor] + src[anchor..] == src;
    hide CompliantSequences, RenderSequences, ExpandSequences, RenderLast;
    assert Expand(b) == src && Render(b) == out + RenderLast(src[anchor..], 0);
    assert Compliant(b);
  }

  // ---------------------------------------------------------------- what the parse encodes

  ghost predicate Sound(src: seq<Byte>, seqs: seq<Sequence>, anchor: nat)
  {
    AllWellTyped(seqs) && Progress(src, RenderSequences(seqs), anchor, seqs)
  }

  lemma FullSound(src: seq<Byte>, seqs: seq<Sequence>, anchor: nat, ip: nat, m: nat)
    requires Sound(src, seqs, anchor) && anchor <= ip && m < ip <= m + MAX_DISTANCE
    requires ip + MF_LIMIT <= |src| && Agree(src, ip, m, 4)
    ensures var q := Full(src, anchor, ip, m); Sound(src, seqs + [q], ip + q.matchLen)
  {
    var q := Full(src, anchor, ip, m);
    MatchAgrees(src, ip, m, q.matchLen - 4);
    hide Full, Agree, RenderSequence;
    AppendSequence(src, RenderSequences(seqs), anchor, seqs, ip, m, q);
  }

  lemma {:induction false} MatchesSound(src: seq<Byte>, table: seq<nat>, seqs: seq<Sequence>, anchor: nat, ip: nat,
                                        m: nat, byU16: bool)
    requires |table| == TableSize(byU16) && anchor <= ip && m < ip <= m + MAX_DISTANCE && ip + MF_LIMIT <= |src|
    requires Sound(src, seqs, anchor) && Agree(src, ip, m, 4)
    ensures var p := Matches(src, table, seqs, anchor, ip, m, byU16); Sound(src, p.seqs, p.anchor)
    decreases |src| - ip
  {
    hide Sound, Agree, Full, Hit, Recorded, FromLe;
    var q := Full(src, anchor, ip, m);
    var end := ip + q.matchLen;
    FullSound(src, seqs, anchor, ip, m);
    if end + MF_LIMIT <= |src| {
      var next, table' := Hit(src, table, end, byU16), Recorded(src, table, end, byU16);
      if Takes(src, next, end) {
        EqualWords(src, end, next);
        MatchesSound(src, table', seqs + [q], end, end, next, byU16);
      }
    }
  }

  lemma TurnSound(src: seq<Byte>, table: seq<nat>, seqs: seq<Sequence>, anchor: nat, ip: nat, byU16: bool,
                  acceleration: nat)
    requires SizeFits(|src|, byU16) && |table| == TableSize(byU16) && acceleration >= 1
    requires anchor <= ip && ip + 8 <= |src| && Sound(src, seqs, anchor)
    ensures var p := Turn(src, table, seqs, anchor, ip, byU16, acceleration); Sound(src, p.seqs, p.anchor)
  {
    var f := Search(src, table, ip, 1, acceleration * 64, byU16);
    if f.Match? {
      var b := Back(src, anchor, f.ip, f.m);
      BackAgrees(src, anchor, f.ip, f.m);
      MatchesSound(src, f.table, seqs, anchor, b.ip, b.m, byU16);
    }
  }

  lemma {:induction false} TurnsSound(src: seq<Byte>, table: seq<nat>, seqs: seq<Sequence>, anchor: nat, ip: nat,
                                      byU16: bool, acceleration: nat)
    requires SizeFits(|src|, byU16) && |table| == TableSize(byU16) && acceleration >= 1
    requires anchor <= ip && ip + 8 <= |src| && Sound(src, seqs, anchor)
    ensures var p := Turns(src, table, seqs, anchor, ip, byU16, acceleration); Sound(src, p.seqs, p.anchor)
    decreases |src| - ip
  {
    hide Sound, Turn;
    TurnSound(src, table, seqs, anchor, ip, byU16, acceleration);
    var p := Turn(src, table, seqs, anchor, ip, byU16, acceleration);
    if p.more {
      TurnsSound(src, p.table, p.seqs, p.anchor, p.anchor + 1, byU16, acceleration);
    }
  }

  lemma WholeParseSound(src: seq<Byte>, byU16: bool, acceleration: nat)
    requires SizeFits(|src|, byU16) && acceleration >= 1
    ensures var p := WholeParse(src, byU16, acceleration); Sound(src, p.seqs, p.anchor)
  {
    hide Turns;
    assert src[..0] == [];
    if |src| >= MIN_LENGTH {
      TurnsSound(src, FirstTable(src, byU16), [], 0, 1, byU16, acceleration);
    }
  }

  /** The bytes the parse is written as. */
  function CompressedBy(src: seq<Byte>, byU16: bool, acceleration: nat): seq<Byte>
    requires SizeFits(|src|, byU16) && acceleration >= 1
  {
    var p := WholeParse(src, byU16, acceleration);
    WholeParseSound(src, byU16, acceleration);
    RenderSequences(p.seqs) + RenderLast(src[p.anchor..], 0)
  }

  /** What LZ4_compress_default makes of `src`. */
  function Compressed(src: seq<Byte>): seq<Byte>
    requires |src| <= MAX_INPUT_SIZE
  {
    CompressedBy(src, |src| < LIMIT_64K, 1)
  }

  /** It is an encoding of its input, in every table mode and at every acceleration. */
  lemma CompressedByEncodes(src: seq<Byte>, byU16: bool, acceleration: nat)
    requires SizeFits(|src|, byU16) && acceleration >= 1
    ensures Encodes(CompressedBy(src, byU16, acceleration), src)
    ensures 0 < |CompressedBy(src, byU16, acceleration)| <= CompressBound(|src|)
  {
    hide Encodes, WholeParse;
    var p := WholeParse(src, byU16, acceleration);
    WholeParseSound(src, byU16, acceleration);
    CloseBlock(src, RenderSequences(p.seqs), p.anchor, p.seqs);
  }

  lemma CompressedEncodes(src: seq<Byte>)
    requires |src| <= MAX_INPUT_SIZE
    ensures Encodes(Compressed(src), src) && 0 < |Compressed(src)| <= CompressBound(|src|)
  {
    hide Encodes;
    CompressedByEncodes(src, |src| < LIMIT_64K, 1);
  }
}

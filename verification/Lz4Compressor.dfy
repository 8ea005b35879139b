/** LZ4_compress_generic with unlimited output and no dictionary, in both table modes, and
    LZ4_compress_default on top of it: it writes the parse of its input, a compliant encoding within the
    promised bound. */
module Lz4Compressor {
  import opened Bytes
  import opened Lz4Format
  import opened Lz4Count
  import opened Lz4Encoder
  import opened Lz4Parse

  /** A position as the table stores it. */
  function Stored(p: nat, byU16: bool): nat
  {
    if byU16 then p % 0x1_0000 else p % 0x1_0000_0000
  }

  predicate TableBelow(table: array<nat>, byU16: bool, p: nat)
    reads table
  {
    table.Length == TableSize(byU16) && forall i :: 0 <= i < table.Length ==> table[i] < p
  }

  method PutPositionOnHash(table: array<nat>, p: nat, h: nat, byU16: bool, ghost n: nat)
    requires SizeFits(n, byU16) && p + MF_LIMIT <= n && h < TableSize(byU16)
    requires TableBelow(table, byU16, p + 1)
    modifies table
    ensures table[..] == old(table[..])[h := p] && TableBelow(table, byU16, p + 1)
  {
    table[h] := Stored(p, byU16);
  }

  // ---------------------------------------------------------------- searching

  /** The skipping search: on success two equal 4-byte words at an encodable distance. */
  method FindMatch(src: seq<Byte>, table: array<nat>, ip0: nat, byU16: bool, acceleration: nat)
    returns (found: bool, ip: nat, match': nat)
    requires SizeFits(|src|, byU16) && MIN_LENGTH <= |src| && acceleration >= 1
    requires 1 <= ip0 <= |src| - MF_LIMIT + 1 && TableBelow(table, byU16, ip0)
    modifies table
    ensures found ==> ip0 <= ip && ip + MF_LIMIT < |src| && TableBelow(table, byU16, ip + 1)
    ensures found ==> match' < ip <= match' + MAX_DISTANCE && Agree(src, ip, match', 4)
    ensures Search(src, old(table[..]), ip0, 1, acceleration * 64, byU16)
            == if found then Match(ip, match', table[..]) else NoMatch
  {
    hide HashPosition, FromLe, Search;
    ghost var goal := Search(src, table[..], ip0, 1, acceleration * 64, byU16);
    var mflimit := |src| - MF_LIMIT;
    var forwardIp := ip0;
    var forwardH: nat := HashPosition(src, ip0, byU16);
    var step, searchMatchNb := 1, acceleration * 64;
    found, ip, match' := false, ip0, 0;
    while !found
      invariant ip0 <= ip && step >= 1 && searchMatchNb >= 64 && forwardH < TableSize(byU16)
      invariant !found ==> ip0 <= forwardIp && TableBelow(table, byU16, forwardIp) && forwardIp + 8 <= |src|
      invariant !found ==> forwardH == HashPosition(src, forwardIp, byU16)
      invariant !found ==> Search(src, table[..], forwardIp, step, searchMatchNb, byU16) == goal
      invariant found ==> goal == Match(ip, match', table[..])
      invariant found ==> ip + MF_LIMIT < |src| && TableBelow(table, byU16, ip + 1)
      invariant found ==> match' < ip <= match' + MAX_DISTANCE && Agree(src, ip, match', 4)
      decreases !found, |src| - forwardIp
    {
      var h := forwardH;
      SearchStep(src, table[..], forwardIp, step, searchMatchNb, byU16, h, table[h]);
      ip := forwardIp;
      forwardIp := forwardIp + step;
      step := searchMatchNb / 64;
      searchMatchNb := searchMatchNb + 1;
      if forwardIp > mflimit {
        return false, ip, match';
      }
      match' := table[h];
      forwardH := HashPosition(src, forwardIp, byU16);
      PutPositionOnHash(table, ip, h, byU16, |src|);
      found := (byU16 || match' + MAX_DISTANCE >= ip)
            && FromLe(src[match'..match' + 4]) == FromLe(src[ip..ip + 4]);
      EqualWords(src, ip, match');
    }
  }

  lemma BackOne(src: seq<Byte>, ip: nat, m: nat, n: nat)
    requires 0 < m < ip && ip + n <= |src| && Agree(src, ip, m, n) && src[ip - 1] == src[m - 1]
    ensures Agree(src, ip - 1, m - 1, n + 1)
  {
  }

  /** Extend a match backwards over pending literals. */
  method CatchUp(src: seq<Byte>, anchor: nat, ip0: nat, match0: nat) returns (ip: nat, match': nat)
    requires anchor <= ip0 && match0 < ip0 && ip0 + 4 <= |src| && Agree(src, ip0, match0, 4)
    ensures anchor <= ip <= ip0 && match' <= match0 && ip - match' == ip0 - match0
    ensures Agree(src, ip, match', 4 + (ip0 - ip)) && Back(src, anchor, ip0, match0) == Place(ip, match')
  {
    hide Agree;
    ip, match' := ip0, match0;
    while ip > anchor && match' > 0 && src[ip - 1] == src[match' - 1]
      invariant anchor <= ip <= ip0 && match' <= match0 && ip - match' == ip0 - match0
      invariant Agree(src, ip, match', 4 + (ip0 - ip))
      invariant Back(src, anchor, ip, match') == Back(src, anchor, ip0, match0)
    {
      BackOne(src, ip, match', 4 + (ip0 - ip));
      ip, match' := ip - 1, match' - 1;
    }
  }

  /** Room enough for every store, 8-byte overruns and 4-byte fills included. */
  predicate Roomy(dest: array<Byte>, n: nat)
  {
    255 * dest.Length >= 256 * n + 3826
  }

  lemma BoundIsRoomy(dest: array<Byte>, n: nat)
    requires n <= MAX_INPUT_SIZE && dest.Length >= CompressBound(n)
    ensures Roomy(dest, n)
  {
  }

  // ---------------------------------------------------------------- compressing

  /** The state is the parse's; the table only matters to a search that follows. */
  ghost predicate Reaches(p: Parse, seqs: seq<Sequence>, anchor: nat, more: bool, table: seq<nat>)
  {
    p.seqs == seqs && p.anchor == anchor && p.more == more && (more ==> p.table == table)
  }

  /** Offset and match length for a match at `ip0`, whose token and literals are already written. */
  method EmitMatch(src: seq<Byte>, dest: array<Byte>, token: nat, op0: nat, ip0: nat, match': nat,
                   ghost anchor: nat, ghost seqs: seq<Sequence>)
    returns (op: nat, ip: nat, ghost seqs': seq<Sequence>)
    requires Roomy(dest, |src|) && token < op0 <= dest.Length && anchor <= ip0 && ip0 + MF_LIMIT <= |src|
    requires Progress(src, dest[..token], anchor, seqs) && dest[token..op0] == LiteralPart(src[anchor..ip0], 0)
    requires match' < ip0 <= match' + MAX_DISTANCE && Agree(src, ip0, match', 4)
    modifies dest
    ensures op <= dest.Length && Progress(src, dest[..op], ip, seqs')
    ensures seqs' == seqs + [Full(src, anchor, ip0, match')] && ip == ip0 + Full(src, anchor, ip0, match').matchLen
  {
    hide Progress, Roomy, Full, Agree, CommonLength, RenderSequence, LiteralPart, LenBytes, Le16;
    var matchCode := Count(src, ip0 + MIN_MATCH, match' + MIN_MATCH, |src| - LAST_LITERALS);
    MatchAgrees(src, ip0, match', matchCode);
    assert |dest[token..op0]| == op0 - token;
    MatchRoom(src, dest, dest[..token], anchor, seqs, src[anchor..ip0], matchCode);
    ghost var q;
    op, q := EncodeMatch(dest, token, op0, ip0 - match', MIN_MATCH + matchCode, src[anchor..ip0]);
    ip := ip0 + MIN_MATCH + matchCode;
    OnlyFull(src, anchor, ip0, match', q);
    AppendSequence(src, old(dest[..token]), anchor, seqs, ip0, match', q);
    seqs' := seqs + [q];
  }

  /** Room for the whole sequence and the fill that runs past it. */
  lemma MatchRoom(src: seq<Byte>, dest: array<Byte>, out: seq<Byte>, anchor: nat, seqs: seq<Sequence>,
                  lits: seq<Byte>, matchCode: nat)
    requires Roomy(dest, |src|) && Progress(src, out, anchor, seqs)
    requires anchor + |lits| + 4 + matchCode + LAST_LITERALS <= |src|
    ensures |out| + |LiteralPart(lits, 0)| + 2 + |LenBytes(matchCode)| + 4 <= dest.Length
  {
    hide LenBytes, LiteralPart, RenderSequence;
    SequenceCost(Sequence(lits, 0, 0, matchCode + MIN_MATCH));
  }

  /** Token and literals of the next sequence. */
  method EmitLiterals(src: seq<Byte>, dest: array<Byte>, op0: nat, anchor: nat, ip: nat, ghost seqs: seq<Sequence>)
    returns (op: nat)
    requires Roomy(dest, |src|) && op0 <= dest.Length && anchor <= ip && ip + MF_LIMIT <= |src|
    requires Progress(src, dest[..op0], anchor, seqs)
    modifies dest
    ensures op0 < op <= dest.Length && dest[..op0] == old(dest[..op0])
    ensures dest[op0..op] == LiteralPart(src[anchor..ip], 0)
  {
    hide LenBytes;
    SequenceCost(Sequence(src[anchor..ip], 0, 0, MIN_MATCH));
    op := EncodeLiterals(src, dest, op0, anchor, ip);
    assert dest[..op0] == dest[..op][..op0];
    assert dest[op0..op] == dest[..op][op0..];
  }

  /** Record two positions and look one up, as done after every match. */
  method TestNext(src: seq<Byte>, table: array<nat>, ip: nat, byU16: bool) returns (hit: bool, match': nat)
    requires SizeFits(|src|, byU16) && 2 <= ip && ip + MF_LIMIT <= |src| && TableBelow(table, byU16, ip - 1)
    modifies table
    ensures TableBelow(table, byU16, ip + 1)
    ensures hit ==> match' < ip <= match' + MAX_DISTANCE && Agree(src, ip, match', 4)
    ensures match' == Hit(src, old(table[..]), ip, byU16) && table[..] == Recorded(src, old(table[..]), ip, byU16)
    ensures hit <==> Takes(src, match', ip)
  {
    hide FromLe, HashPosition;
    PutPositionOnHash(table, ip - 2, HashPosition(src, ip - 2, byU16), byU16, |src|);
    match' := table[HashPosition(src, ip, byU16)];
    PutPositionOnHash(table, ip, HashPosition(src, ip, byU16), byU16, |src|);
    hit := match' + MAX_DISTANCE >= ip && FromLe(src[match'..match' + 4]) == FromLe(src[ip..ip + 4]);
    EqualWords(src, ip, match');
  }

  /** A match and every match that follows it directly, each with an empty literal run. */
  method EmitMatches(src: seq<Byte>, dest: array<Byte>, table: array<nat>, token0: nat, op0: nat, ip0: nat, match0: nat,
                     byU16: bool, anchor0: nat, ghost found0: nat, ghost seqs0: seq<Sequence>)
    returns (op: nat, anchor: nat, more: bool, ghost seqs: seq<Sequence>)
    requires Roomy(dest, |src|) && SizeFits(|src|, byU16)
    requires token0 < op0 <= dest.Length && anchor0 <= ip0 <= found0 && found0 + MF_LIMIT <= |src|
    requires Progress(src, dest[..token0], anchor0, seqs0) && dest[token0..op0] == LiteralPart(src[anchor0..ip0], 0)
    requires match0 < ip0 <= match0 + MAX_DISTANCE && Agree(src, ip0, match0, 4 + (found0 - ip0))
    requires TableBelow(table, byU16, found0 + 1)
    modifies dest, table
    ensures op <= dest.Length && Progress(src, dest[..op], anchor, seqs)
    ensures more ==> found0 <= anchor && anchor + MF_LIMIT <= |src| && TableBelow(table, byU16, anchor + 1)
    ensures Reaches(Matches(src, old(table[..]), seqs0, anchor0, ip0, match0, byU16), seqs, anchor, more, table[..])
  {
    hide Progress, Agree, LiteralPart, CommonLength, SizeFits, Roomy, Full, Takes, Hit, Recorded, Matches;
    ghost var goal := Matches(src, table[..], seqs0, anchor0, ip0, match0, byU16);
    var token: nat, ip: nat, match': nat, hit := token0, ip0, match0, true;
    op, anchor, more, seqs := op0, anchor0, true, seqs0;
    ghost var found := found0;
    while hit
      invariant hit ==> token < op <= dest.Length && anchor <= ip <= found && found + MF_LIMIT <= |src|
      invariant hit ==> Progress(src, dest[..token], anchor, seqs) && dest[token..op] == LiteralPart(src[anchor..ip], 0)
      invariant hit ==> match' < ip <= match' + MAX_DISTANCE && Agree(src, ip, match', 4 + (found - ip))
      invariant hit ==> more && TableBelow(table, byU16, found + 1)
      invariant !hit ==> op <= dest.Length && Progress(src, dest[..op], anchor, seqs)
      invariant found0 <= found && (!hit && more ==> found0 <= anchor)
      invariant !hit && more ==> anchor + MF_LIMIT <= |src| && TableBelow(table, byU16, anchor + 1)
      invariant hit ==> Matches(src, table[..], seqs, anchor, ip, match', byU16) == goal
      invariant !hit ==> Reaches(goal, seqs, anchor, more, table[..])
      decreases hit, |src| - found
    {
      MatchPasses(src, anchor, ip, match', found);
      MatchesStep(src, table[..], seqs, anchor, ip, match', byU16);
      op, ip, seqs := EmitMatch(src, dest, token, op, ip, match', anchor, seqs);
      anchor := ip;
      if ip + MF_LIMIT > |src| {
        hit, more := false, false;
      } else {
        hit, match' := TestNext(src, table, ip, byU16);
        if hit {
          token, found := op, ip;
          op := EmitEmptyToken(src, dest, op, ip, seqs);
        }
      }
    }
  }

  method EmitEmptyToken(src: seq<Byte>, dest: array<Byte>, op0: nat, ip: nat, ghost seqs: seq<Sequence>)
    returns (op: nat)
    requires Roomy(dest, |src|) && op0 <= dest.Length && ip + MF_LIMIT <= |src|
    requires Progress(src, dest[..op0], ip, seqs)
    modifies dest
    ensures op0 < op <= dest.Length && dest[..op0] == old(dest[..op0])
    ensures dest[op0..op] == LiteralPart(src[ip..ip], 0)
  {
    op := op0 + 1;
    dest[op0] := 0;
  }

  /** The turns to come lead to `goal`; after the last, the state is there. */
  ghost predicate Continues(goal: Parse, src: seq<Byte>, table: seq<nat>, seqs: seq<Sequence>, anchor: nat, ip: nat,
                            byU16: bool, acceleration: nat, more: bool)
  {
    if more then
      SizeFits(|src|, byU16) && |table| == TableSize(byU16) && acceleration >= 1 && anchor <= ip && ip + 8 <= |src|
      && Turns(src, table, seqs, anchor, ip, byU16, acceleration) == goal
    else goal.seqs == seqs && goal.anchor == anchor
  }

  lemma TurnContinues(goal: Parse, src: seq<Byte>, table: seq<nat>, seqs: seq<Sequence>, anchor: nat, ip: nat,
                      byU16: bool, acceleration: nat,
                      table': seq<nat>, seqs': seq<Sequence>, anchor': nat, more: bool)
    requires Continues(goal, src, table, seqs, anchor, ip, byU16, acceleration, true)
    requires Reaches(Turn(src, table, seqs, anchor, ip, byU16, acceleration), seqs', anchor', more, table')
    ensures Continues(goal, src, table', seqs', anchor', if more then anchor' + 1 else ip, byU16, acceleration, more)
  {
    hide Turn;
  }

  /** One turn of the main loop: search, extend backwards, write literals, write matches. */
  method CompressStep(src: seq<Byte>, dest: array<Byte>, table: array<nat>, op0: nat, anchor0: nat, ip0: nat,
                      byU16: bool, acceleration: nat, ghost seqs0: seq<Sequence>, ghost goal: Parse)
    returns (op: nat, anchor: nat, more: bool, ghost seqs: seq<Sequence>)
    requires Roomy(dest, |src|) && SizeFits(|src|, byU16) && |src| >= MIN_LENGTH && acceleration >= 1
    requires Continues(goal, src, table[..], seqs0, anchor0, ip0, byU16, acceleration, true)
    requires op0 <= dest.Length && Progress(src, dest[..op0], anchor0, seqs0) && anchor0 <= ip0
    requires 1 <= ip0 <= |src| - MF_LIMIT + 1 && TableBelow(table, byU16, ip0)
    modifies dest, table
    ensures op <= dest.Length && Progress(src, dest[..op], anchor, seqs)
    ensures more ==> ip0 <= anchor && anchor + MF_LIMIT <= |src| && TableBelow(table, byU16, anchor + 1)
    ensures Continues(goal, src, table[..], seqs, anchor, if more then anchor + 1 else ip0, byU16, acceleration, more)
  {
    hide Progress, Agree, LiteralPart, Roomy, Search, Matches, Back, Continues, Turns;
    ghost var t := table[..];
    var found, ip, match' := FindMatch(src, table, ip0, byU16, acceleration);
    if !found {
      TurnContinues(goal, src, t, seqs0, anchor0, ip0, byU16, acceleration, table[..], seqs0, anchor0, false);
      return op0, anchor0, false, seqs0;
    }
    ghost var at := ip;
    ip, match' := CatchUp(src, anchor0, ip, match');
    op := EmitLiterals(src, dest, op0, anchor0, ip, seqs0);
    op, anchor, more, seqs := EmitMatches(src, dest, table, op0, op, ip, match', byU16, anchor0, at, seqs0);
    TurnContinues(goal, src, t, seqs0, anchor0, ip0, byU16, acceleration, table[..], seqs, anchor, more);
  }

  lemma FirstContinues(src: seq<Byte>, byU16: bool, acceleration: nat)
    requires SizeFits(|src|, byU16) && |src| >= MIN_LENGTH && acceleration >= 1
    ensures Progress(src, [], 0, [])
    ensures Continues(WholeParse(src, byU16, acceleration), src, FirstTable(src, byU16), [], 0, 1, byU16, acceleration,
                      true)
  {
    hide Turns, FirstTable;
  }

  lemma Arrived(goal: Parse, src: seq<Byte>, table: seq<nat>, seqs: seq<Sequence>, anchor: nat, ip: nat, byU16: bool,
                acceleration: nat)
    requires Continues(goal, src, table, seqs, anchor, ip, byU16, acceleration, false)
    ensures goal.seqs == seqs && goal.anchor == anchor
  {
  }

  /** The hash table when the main loop starts. */
  method NewTable(src: seq<Byte>, byU16: bool) returns (table: array<nat>)
    requires SizeFits(|src|, byU16) && |src| >= MIN_LENGTH
    ensures fresh(table) && TableBelow(table, byU16, 1) && table[..] == FirstTable(src, byU16)
  {
    hide HashPosition;
    table := new nat[TableSize(byU16)](i => 0);
    assert table[..] == seq(TableSize(byU16), i => 0);
    PutPositionOnHash(table, 0, HashPosition(src, 0, byU16), byU16, |src|);
  }

  method CompressMatches(src: seq<Byte>, dest: array<Byte>, byU16: bool, acceleration: nat)
    returns (op: nat, anchor: nat, ghost seqs: seq<Sequence>)
    requires Roomy(dest, |src|) && SizeFits(|src|, byU16) && |src| >= MIN_LENGTH && acceleration >= 1
    modifies dest
    ensures op <= dest.Length && Progress(src, dest[..op], anchor, seqs)
    ensures WholeParse(src, byU16, acceleration).seqs == seqs && WholeParse(src, byU16, acceleration).anchor == anchor
  {
    hide Progress, SizeFits, Roomy, WholeParse, FirstTable, Continues;
    var table := NewTable(src, byU16);
    op, anchor, seqs := 0, 0, [];
    ghost var goal := WholeParse(src, byU16, acceleration);
    FirstContinues(src, byU16, acceleration);
    assert dest[..0] == [];
    var ip: nat, more := 1, true;
    while more
      invariant op <= dest.Length && Progress(src, dest[..op], anchor, seqs)
      invariant more ==> anchor <= ip && 1 <= ip <= |src| - MF_LIMIT + 1 && TableBelow(table, byU16, ip)
      invariant fresh(table)
      invariant Continues(goal, src, table[..], seqs, anchor, ip, byU16, acceleration, more)
      decreases more, |src| - ip
    {
      op, anchor, more, seqs := CompressStep(src, dest, table, op, anchor, ip, byU16, acceleration, seqs, goal);
      ip := if more then anchor + 1 else ip;
    }
    Arrived(goal, src, table[..], seqs, anchor, ip, byU16, acceleration);
  }

  lemma LastRoom(src: seq<Byte>, dest: array<Byte>, op: nat, anchor: nat, seqs: seq<Sequence>)
    requires Roomy(dest, |src|) && op <= dest.Length && Progress(src, dest[..op], anchor, seqs)
    ensures anchor <= |src| && op + |RenderLast(src[anchor..], 0)| <= dest.Length
  {
    hide LenBytes, RenderSequences;
    LenBytesCost(|src| - anchor);
    assert |dest[..op]| == op;
  }

  /** LZ4_compress_generic(notLimited, noDict). Returns 0 for sizes the mode does not support. */
  method CompressGeneric(src: seq<Byte>, dest: array<Byte>, byU16: bool, acceleration: nat) returns (r: nat)
    requires acceleration >= 1 && (SizeFits(|src|, byU16) ==> Roomy(dest, |src|))
    modifies dest
    ensures r == 0 <==> !SizeFits(|src|, byU16)
    ensures r > 0 ==> r <= dest.Length && Encodes(dest[..r], src) && 255 * r <= 256 * |src| + 495
    ensures r > 0 ==> dest[..r] == CompressedBy(src, byU16, acceleration)
  {
    if |src| > MAX_INPUT_SIZE || (byU16 && |src| >= LIMIT_64K) {
      return 0;
    }
    ghost var seqs: seq<Sequence> := [];
    var op, anchor: nat := 0, 0;
    if |src| >= MIN_LENGTH {
      op, anchor, seqs := CompressMatches(src, dest, byU16, acceleration);
    }
    assert WholeParse(src, byU16, acceleration).seqs == seqs && WholeParse(src, byU16, acceleration).anchor == anchor;
    hide Progress, SizeFits, Encodes, WholeParse;
    ghost var out := dest[..op];
    LastRoom(src, dest, op, anchor, seqs);
    r := EncodeLast(src, dest, op, anchor);
    CloseBlock(src, out, anchor, seqs);
  }

  /** LZ4_compress_default through LZ4_compress_fast_extState, for callers that provide
      compressBound capacity. Inputs over the size limit give 0. */
  method CompressDefault(src: seq<Byte>, dest: array<Byte>) returns (r: nat)
    requires dest.Length >= CompressBound(|src|)
    modifies dest
    ensures r == 0 <==> |src| > MAX_INPUT_SIZE
    ensures r > 0 ==> r <= CompressBound(|src|) && r <= dest.Length && Encodes(dest[..r], src)
    ensures r > 0 ==> dest[..r] == Compressed(src)
  {
    hide Encodes, CompressedBy;
    if |src| <= MAX_INPUT_SIZE { BoundIsRoomy(dest, |src|); }
    r := CompressGeneric(src, dest, |src| < LIMIT_64K, 1);
  }
}

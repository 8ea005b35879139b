/** The hash-chain match finder of LZ4 HC (no dictionary), its sequence writer and its prices.

    Positions are counted from `base`, which lies 64 KB before the start of the data, so that the
    index 0 means "none". The chain table is a ring of 65536 16-bit deltas. */
module Lz4Hc {
  import opened Buckets
  import opened Bytes
  import opened Lz4Format
  import opened Lz4Count
  import opened Lz4Encoder

  const BASE := 65536
  const RING := 65536
  const HASH_SIZE := 32768

  /** The top 15 bits of a 32-bit product. */
  function HashWord(word: nat): (h: nat)
    ensures h < HASH_SIZE
  {
    word * 2654435761 % 0x1_0000_0000 / 0x2_0000
  }

  function WordOf(src: seq<Byte>, i: nat): nat
    requires BASE <= i && i - BASE + 4 <= |src|
  {
    FromLe(src[i - BASE..i - BASE + 4])
  }

  /** LZ4HC_hashPtr of the four bytes at index `i`. */
  function Hash(src: seq<Byte>, i: nat): (h: nat)
    requires BASE <= i && i - BASE + 4 <= |src|
    ensures h < HASH_SIZE
  {
    HashWord(WordOf(src, i))
  }

  /** Each of the 32768 buckets gets 2^17 of the four-byte words. */
  lemma HashSpreads(h: nat)
    requires h < HASH_SIZE
    ensures |set x: nat | x < 0x1_0000_0000 && HashWord(x) == h| == 0x2_0000
  {
    BucketSize(2654435761, 244002641, 0x1_0000_0000, 0x2_0000, h);
    assert (set x: nat | x < 0x1_0000_0000 && HashWord(x) == h) == Bucket(2654435761, 0x1_0000_0000, 0x2_0000, h);
  }

  // ---------------------------------------------------------------- the index, abstractly

  /** The greatest index below `i` whose hash is `h`, or 0. */
  function Latest(src: seq<Byte>, h: nat, i: nat): (r: nat)
    requires i <= BASE + |src| - 3 || i <= BASE
    ensures r == 0 || (BASE <= r < i && Hash(src, r) == h)
    ensures forall j :: BASE <= j < i && j > r ==> Hash(src, j) != h
    decreases i
  {
    if i <= BASE then 0
    else if Hash(src, i - 1) == h then i - 1
    else Latest(src, h, i - 1)
  }

  predicate InWindow(c: seq<nat>, low: nat, high: nat)
  {
    forall k :: 0 <= k < |c| ==> low <= c[k] < high
  }

  /** The indices of hash `h` in [low, i), most recent first, `k` of them at most. */
  function Candidates(src: seq<Byte>, h: nat, i: nat, low: nat, k: nat): (c: seq<nat>)
    requires BASE <= low && (i <= BASE + |src| - 3 || i <= BASE)
    ensures InWindow(c, low, i)
    decreases i
  {
    if k == 0 || i <= low then []
    else if Hash(src, i - 1) == h then [i - 1] + Candidates(src, h, i - 1, low, k - 1)
    else Candidates(src, h, i - 1, low, k)
  }

  /** The candidates start with the latest index, if that is in range. */
  lemma {:induction false} CandidatesStep(src: seq<Byte>, h: nat, i: nat, low: nat, k: nat)
    requires BASE <= low && (i <= BASE + |src| - 3 || i <= BASE) && k > 0
    ensures var m := Latest(src, h, i);
            Candidates(src, h, i, low, k)
            == if m < low then [] else [m] + Candidates(src, h, m, low, k - 1)
    decreases i
  {
    if i > low && Hash(src, i - 1) != h {
      CandidatesStep(src, h, i - 1, low, k);
    }
  }

  /** The usable length of a match at `m` for `ip`: a common run of at least 4, else 0. */
  function MatchLength(src: seq<Byte>, ip: nat, m: nat, limit: nat): nat
    requires m <= ip && limit <= |src|
  {
    var n := CommonLength(src, ip, m, limit);
    if n >= MIN_MATCH then n else 0
  }

  /** The longest match among candidates; `Best` is 0 when there is none. */
  function Best(src: seq<Byte>, ip: nat, c: seq<nat>, limit: nat): nat
    requires limit <= |src| && InWindow(c, BASE, BASE + ip)
  {
    if c == [] then 0
    else Max(MatchLength(src, ip, c[0] - BASE, limit), Best(src, ip, c[1..], limit))
  }

  // ---------------------------------------------------------------- the index in memory

  class HcIndex {
    const hashTable: array<nat>
    const chainTable: array<nat>
    var nextToUpdate: nat

    /** The tables describe exactly the indices below nextToUpdate; a ring entry is meaningful
        while its index is within 65536 of nextToUpdate. */
    ghost predicate Indexes(src: seq<Byte>)
      reads this, hashTable, chainTable
    {
      hashTable.Length == HASH_SIZE && chainTable.Length == RING && hashTable != chainTable
      && BASE <= nextToUpdate && (nextToUpdate <= BASE + |src| - 3 || nextToUpdate == BASE)
      && (forall h: nat :: h < HASH_SIZE ==> hashTable[h] == Latest(src, h, nextToUpdate))
      && (forall i :: BASE <= i < nextToUpdate && nextToUpdate <= i + RING ==>
            chainTable[i % RING] == Delta(src, i))
    }

    /** LZ4HC_init. */
    constructor (ghost src: seq<Byte>)
      ensures Indexes(src) && nextToUpdate == BASE
      ensures fresh(hashTable) && fresh(chainTable)
    {
      hashTable := new nat[HASH_SIZE](i => 0);
      chainTable := new nat[RING](i => 65535);
      nextToUpdate := BASE;
    }

    method InsertOne(src: seq<Byte>)
      requires Indexes(src) && nextToUpdate + 4 <= BASE + |src|
      modifies this, hashTable, chainTable
      ensures Indexes(src) && nextToUpdate == old(nextToUpdate) + 1
    {
      hide Hash, Latest, Delta;
      var idx := nextToUpdate;
      var h := Hash(src, idx);
      var delta := idx - hashTable[h];
      if delta > MAX_DISTANCE {
        delta := MAX_DISTANCE;
      }
      chainTable[idx % RING] := delta;
      hashTable[h] := idx;
      nextToUpdate := idx + 1;
      DeltaAt(src, idx);
      RingSlots(idx);
      forall h': nat | h' < HASH_SIZE ensures hashTable[h'] == Latest(src, h', nextToUpdate) {
        LatestUnfold(src, h', idx);
      }
    }

    /** LZ4HC_Insert: index everything below `ip`. */
    method Insert(src: seq<Byte>, ip: nat)
      requires Indexes(src) && nextToUpdate <= BASE + ip && ip + 3 <= |src|
      modifies this, hashTable, chainTable
      ensures Indexes(src) && nextToUpdate == BASE + ip
    {
      while nextToUpdate < BASE + ip
        invariant Indexes(src) && nextToUpdate <= BASE + ip
      {
        InsertOne(src);
      }
    }

    /** LZ4HC_InsertAndFindBestMatch: the best of the most recent same-hash candidates, and the
        most recent one that reaches it. */
    method InsertAndFindBestMatch(src: seq<Byte>, ip: nat, iLimit: nat, maxNbAttempts: nat)
      returns (ml: nat, matchpos: nat)
      requires Indexes(src) && nextToUpdate <= BASE + ip && ip + 4 <= iLimit < |src|
      modifies this, hashTable, chainTable
      ensures Indexes(src) && nextToUpdate == BASE + ip
      ensures var c := Candidates(src, Hash(src, BASE + ip), BASE + ip, LowLimit(ip), maxNbAttempts);
              ml == Best(src, ip, c, iLimit) && (ml > 0 ==> FirstBest(src, ip, c, iLimit, ml, matchpos))
    {
      hide Hash, Best, FirstBest, FromLe, MatchLength, Delta, CommonLength, Candidates, Latest;
      Insert(src, ip);
      var low := LowLimit(ip);
      var h := Hash(src, BASE + ip);
      var matchIndex, nbAttempts := hashTable[h], maxNbAttempts;
      ml, matchpos := 0, 0;
      ghost var i := BASE + ip;
      ghost var c := Candidates(src, h, i, low, maxNbAttempts);
      ghost var seen: seq<nat> := [];
      BestOfNone(src, ip, iLimit);
      while matchIndex >= low && nbAttempts > 0
        invariant Indexes(src) && nextToUpdate == BASE + ip && BASE <= i <= BASE + ip
        invariant matchIndex >= low ==> matchIndex == Latest(src, h, i)
        invariant matchIndex < low ==> Latest(src, h, i) < low
        invariant c == seen + Candidates(src, h, i, low, nbAttempts) && InWindow(seen, BASE, BASE + ip)
        invariant ml == Best(src, ip, seen, iLimit) && ip + ml <= iLimit
        invariant ml > 0 ==> FirstBest(src, ip, seen, iLimit, ml, matchpos)
        decreases nbAttempts
      {
        CandidatesStep(src, h, i, low, nbAttempts);
        var m := matchIndex - BASE;
        var mlt := TryCandidate(src, ip, m, iLimit, ml);
        BestOfNext(src, ip, seen, matchIndex, iLimit, ml, matchpos);
        if mlt > ml {
          ml, matchpos := mlt, m;
        }
        seen, i := seen + [matchIndex], matchIndex;
        nbAttempts := nbAttempts - 1;
        ChainStep(src, matchIndex, low, BASE + ip);
        matchIndex := matchIndex - chainTable[matchIndex % RING];
      }
      NoMoreCandidates(src, h, i, low, nbAttempts);
      assert seen + [] == seen;
    }
  }

  /** Distance to the previous index of the same hash, capped to 16 bits. */
  function Delta(src: seq<Byte>, i: nat): (d: nat)
    requires BASE <= i && i - BASE + 4 <= |src|
    ensures 0 < d <= MAX_DISTANCE
  {
    Min(i - Latest(src, Hash(src, i), i), MAX_DISTANCE)
  }

  lemma DeltaAt(src: seq<Byte>, i: nat)
    requires BASE <= i && i - BASE + 4 <= |src|
    ensures Latest(src, Hash(src, i), i) < i
    ensures Delta(src, i) == Min(i - Latest(src, Hash(src, i), i), MAX_DISTANCE)
  {
    hide Hash;
  }

  lemma LatestUnfold(src: seq<Byte>, h: nat, i: nat)
    requires BASE <= i && i - BASE + 4 <= |src|
    ensures Latest(src, h, i + 1) == if h == Hash(src, i) then i else Latest(src, h, i)
  {
  }

  /** Indices less than 65536 apart have different ring slots. */
  lemma RingSlots(i: nat)
    ensures forall j :: j < i < j + RING && j >= 0 ==> j % RING != i % RING
  {
  }

  // ---------------------------------------------------------------- the finder

  lemma MatchLengthByWord(src: seq<Byte>, ip: nat, m: nat, limit: nat)
    requires m <= ip && ip + 4 <= limit <= |src|
    ensures MatchLength(src, ip, m, limit)
         == if FromLe(src[m..m + 4]) == FromLe(src[ip..ip + 4])
            then 4 + CommonLength(src, ip + 4, m + 4, limit) else 0
  {
    hide FromLe, CommonLength;
    WordStep(src, ip, m, limit, 4);
  }

  /** A candidate that differs at offset `ml` cannot give more than `ml`. */
  lemma ShortByOneByte(src: seq<Byte>, ip: nat, m: nat, limit: nat, ml: nat)
    requires m <= ip && ip + ml <= limit < |src| && src[m + ml] != src[ip + ml]
    ensures MatchLength(src, ip, m, limit) <= ml
  {
    assert Agree(src, ip, m, CommonLength(src, ip, m, limit));
    assert src[ip + ml] != src[ip + ml - (ip - m)];
  }

  /** Following one delta from `m` reaches the next candidate or leaves the window. */
  lemma ChainStep(src: seq<Byte>, m: nat, low: nat, ipIdx: nat)
    requires BASE <= low <= m < ipIdx && ipIdx <= BASE + |src| - 3 && low + 65535 >= ipIdx
    ensures m >= Delta(src, m)
    ensures var next, m' := Latest(src, Hash(src, m), m), m - Delta(src, m);
            (m' >= low <==> next >= low) && (m' >= low ==> m' == next)
  {
    hide Hash;
  }

  /** The lowest index a match for `ip` may have: 65535 back, but not before the data. */
  function LowLimit(ip: nat): (low: nat)
    ensures low == Max(BASE, BASE + ip - MAX_DISTANCE)
  {
    if BASE + RING > BASE + ip then BASE else BASE + ip - (RING - 1)
  }

  /** One candidate's length, where any value up to `ml` may be given for one not worth measuring. */
  method TryCandidate(src: seq<Byte>, ip: nat, m: nat, iLimit: nat, ml: nat) returns (mlt: nat)
    requires m <= ip && ip + 4 <= iLimit < |src| && ip + ml <= iLimit
    ensures mlt > ml || MatchLength(src, ip, m, iLimit) > ml ==> mlt == MatchLength(src, ip, m, iLimit)
    ensures ip + mlt <= iLimit
  {
    hide FromLe;
    mlt := 0;
    MatchLengthByWord(src, ip, m, iLimit);
    if src[m + ml] == src[ip + ml] {
      if FromLe(src[m..m + 4]) == FromLe(src[ip..ip + 4]) {
        mlt := Count(src, ip + MIN_MATCH, m + MIN_MATCH, iLimit);
        mlt := mlt + MIN_MATCH;
      }
    } else {
      ShortByOneByte(src, ip, m, iLimit, ml);
    }
  }

  /** `pos` is the most recent candidate whose length is `ml`, and no candidate exceeds it. */
  ghost predicate FirstBest(src: seq<Byte>, ip: nat, c: seq<nat>, limit: nat, ml: nat, pos: nat)
    requires limit <= |src| && InWindow(c, BASE, BASE + ip)
  {
    exists k :: 0 <= k < |c| && c[k] == BASE + pos && MatchLength(src, ip, pos, limit) == ml
             && forall j :: 0 <= j < k ==> MatchLength(src, ip, c[j] - BASE, limit) < ml
  }

  lemma BestOfNone(src: seq<Byte>, ip: nat, limit: nat)
    requires limit <= |src|
    ensures Best(src, ip, [], limit) == 0
  {
  }

  lemma {:induction false} BestSnoc(src: seq<Byte>, ip: nat, c: seq<nat>, i: nat, limit: nat)
    requires limit <= |src| && InWindow(c + [i], BASE, BASE + ip)
    ensures InWindow(c, BASE, BASE + ip) && (c + [i])[|c|] == i
    ensures Best(src, ip, c + [i], limit) == Max(Best(src, ip, c, limit), MatchLength(src, ip, i - BASE, limit))
  {
    hide MatchLength;
    assert forall k :: 0 <= k < |c| ==> c[k] == (c + [i])[k];
    assert (c + [i])[|c|] == i;
    if c != [] {
      assert (c + [i])[1..] == c[1..] + [i];
      BestSnoc(src, ip, c[1..], i, limit);
    }
  }

  lemma {:induction false} BestBounds(src: seq<Byte>, ip: nat, c: seq<nat>, limit: nat, k: nat)
    requires limit <= |src| && InWindow(c, BASE, BASE + ip) && k < |c|
    ensures MatchLength(src, ip, c[k] - BASE, limit) <= Best(src, ip, c, limit)
  {
    hide MatchLength;
    if k > 0 {
      assert c[k] == c[1..][k - 1];
      BestBounds(src, ip, c[1..], limit, k - 1);
    }
  }

  /** Looking at one more candidate. */
  lemma BestOfNext(src: seq<Byte>, ip: nat, c: seq<nat>, i: nat, limit: nat, ml: nat, pos: nat)
    requires limit <= |src| && InWindow(c, BASE, BASE + ip) && BASE <= i < BASE + ip
    requires ml == Best(src, ip, c, limit) && (ml > 0 ==> FirstBest(src, ip, c, limit, ml, pos))
    ensures InWindow(c + [i], BASE, BASE + ip)
    ensures var n := MatchLength(src, ip, i - BASE, limit);
            Best(src, ip, c + [i], limit) == Max(ml, n)
            && (n > ml ==> FirstBest(src, ip, c + [i], limit, n, i - BASE))
            && (n <= ml && ml > 0 ==> FirstBest(src, ip, c + [i], limit, ml, pos))
  {
    hide MatchLength, Best;
    var c' := c + [i];
    assert InWindow(c', BASE, BASE + ip) by {
      assert forall k :: 0 <= k < |c| ==> c'[k] == c[k];
    }
    BestSnoc(src, ip, c, i, limit);
    var n := MatchLength(src, ip, i - BASE, limit);
    if n > ml {
      forall j | 0 <= j < |c| ensures MatchLength(src, ip, c'[j] - BASE, limit) < n {
        BestBounds(src, ip, c, limit, j);
        assert c'[j] == c[j];
      }
      assert c'[|c|] == BASE + (i - BASE);
    } else if ml > 0 {
      var k :| 0 <= k < |c| && c[k] == BASE + pos && MatchLength(src, ip, pos, limit) == ml
             && forall j :: 0 <= j < k ==> MatchLength(src, ip, c[j] - BASE, limit) < ml;
      assert c'[k] == BASE + pos;
      forall j | 0 <= j < k ensures MatchLength(src, ip, c'[j] - BASE, limit) < ml {
        assert c'[j] == c[j];
      }
    }
  }

  lemma NoMoreCandidates(src: seq<Byte>, h: nat, i: nat, low: nat, k: nat)
    requires BASE <= low && (i <= BASE + |src| - 3 || i <= BASE)
    requires k == 0 || Latest(src, h, i) < low
    ensures Candidates(src, h, i, low, k) == []
  {
    if k > 0 { CandidatesStep(src, h, i, low, k); }
  }

  // ---------------------------------------------------------------- brute force

  lemma {:induction false} CandidatesComplete(src: seq<Byte>, h: nat, i: nat, low: nat, k: nat, m: nat)
    requires BASE <= low <= m < i && i <= BASE + |src| - 3 && k >= i - low && Hash(src, m) == h
    ensures m in Candidates(src, h, i, low, k)
    decreases i
  {
    hide Hash;
    if m != i - 1 {
      CandidatesComplete(src, h, i - 1, low, if Hash(src, i - 1) == h then k - 1 else k, m);
    }
  }

  /** A position with a usable match shares its hash with `ip`. */
  lemma MatchSharesHash(src: seq<Byte>, ip: nat, m: nat, limit: nat)
    requires m <= ip && ip + 4 <= limit < |src| && MatchLength(src, ip, m, limit) > 0
    ensures Hash(src, BASE + m) == Hash(src, BASE + ip)
  {
    MatchLengthByWord(src, ip, m, limit);
  }

  /** No other word in the window shares the bucket of the one at `ip`. */
  predicate OwnBucket(src: seq<Byte>, ip: nat)
    requires ip + 4 <= |src|
  {
    forall i :: LowLimit(ip) <= i < BASE + ip && Hash(src, i) == Hash(src, BASE + ip) ==>
      WordOf(src, i) == WordOf(src, BASE + ip)
  }

  lemma SameBucket(src: seq<Byte>, i: nat, j: nat)
    requires BASE <= i && i - BASE + 4 <= |src| && BASE <= j && j - BASE + 4 <= |src|
    requires WordOf(src, i) == WordOf(src, j)
    ensures Hash(src, i) == Hash(src, j)
  {
    hide WordOf, HashWord;
  }

  lemma OwnWord(src: seq<Byte>, ip: nat, i: nat)
    requires ip + 4 <= |src| && OwnBucket(src, ip) && LowLimit(ip) <= i < BASE + ip
    requires Hash(src, i) == Hash(src, BASE + ip)
    ensures WordOf(src, i) == WordOf(src, BASE + ip)
  {
    hide WordOf, Hash;
  }

  /** The first candidate is then an occurrence of the word. */
  lemma FirstCandidate(src: seq<Byte>, ip: nat, k: nat, m: nat)
    requires ip + 4 <= |src| && k > 0 && m < ip <= m + MAX_DISTANCE && OwnBucket(src, ip)
    requires WordOf(src, BASE + m) == WordOf(src, BASE + ip)
    ensures var c := Candidates(src, Hash(src, BASE + ip), BASE + ip, LowLimit(ip), k);
            c != [] && WordOf(src, c[0]) == WordOf(src, BASE + ip)
  {
    hide WordOf, Hash, Candidates, Latest, OwnBucket;
    var h, low := Hash(src, BASE + ip), LowLimit(ip);
    CandidatesStep(src, h, BASE + ip, low, k);
    SameBucket(src, BASE + m, BASE + ip);
    var j := Latest(src, h, BASE + ip);
    assert j >= BASE + m >= low;
    OwnWord(src, ip, j);
  }

  lemma LongEnough(src: seq<Byte>, ip: nat, i: nat, limit: nat)
    requires BASE <= i < BASE + ip && ip + 4 <= limit < |src| && WordOf(src, i) == WordOf(src, BASE + ip)
    ensures MatchLength(src, ip, i - BASE, limit) >= MIN_MATCH
  {
    hide FromLe, CommonLength;
    MatchLengthByWord(src, ip, i - BASE, limit);
  }

  /** However small the budget, an earlier occurrence of the word at `ip` is used, if no other word in the window
      shares its bucket. */
  lemma SmallBudgetFinds(src: seq<Byte>, ip: nat, limit: nat, k: nat, m: nat)
    requires ip + 4 <= limit < |src| && k > 0 && m < ip <= m + MAX_DISTANCE && OwnBucket(src, ip)
    requires WordOf(src, BASE + m) == WordOf(src, BASE + ip)
    ensures Best(src, ip, Candidates(src, Hash(src, BASE + ip), BASE + ip, LowLimit(ip), k), limit) >= MIN_MATCH
  {
    FirstCandidate(src, ip, k, m);
    var c := Candidates(src, Hash(src, BASE + ip), BASE + ip, LowLimit(ip), k);
    hide WordOf, Hash, Best, Candidates, MatchLength, OwnBucket;
    LongEnough(src, ip, c[0], limit);
    BestBounds(src, ip, c, limit, 0);
  }

  /** With a budget that covers the window, the best candidate is the longest match anywhere in
      the last 65535 positions, whatever their hashes. */
  lemma BestIsLongestInWindow(src: seq<Byte>, ip: nat, limit: nat, k: nat)
    requires ip + 4 <= limit < |src| && k >= MAX_DISTANCE
    ensures var c := Candidates(src, Hash(src, BASE + ip), BASE + ip, LowLimit(ip), k);
            var best := Best(src, ip, c, limit);
            (forall m :: 0 <= m < ip && ip - m <= MAX_DISTANCE ==> MatchLength(src, ip, m, limit) <= best)
            && (best > 0 ==>
                  exists m :: 0 <= m < ip && ip - m <= MAX_DISTANCE && MatchLength(src, ip, m, limit) == best)
  {
    hide Hash, MatchLength, Best;
    var low, h := LowLimit(ip), Hash(src, BASE + ip);
    var c := Candidates(src, h, BASE + ip, low, k);
    forall m | 0 <= m < ip && ip - m <= MAX_DISTANCE
      ensures MatchLength(src, ip, m, limit) <= Best(src, ip, c, limit)
    {
      if MatchLength(src, ip, m, limit) > 0 {
        MatchSharesHash(src, ip, m, limit);
        CandidatesComplete(src, h, BASE + ip, low, k, BASE + m);
        var j :| 0 <= j < |c| && c[j] == BASE + m;
        BestBounds(src, ip, c, limit, j);
      }
    }
    BestAttained(src, ip, c, limit);
  }

  lemma {:induction false} BestAttained(src: seq<Byte>, ip: nat, c: seq<nat>, limit: nat)
    requires limit <= |src| && InWindow(c, BASE, BASE + ip)
    ensures Best(src, ip, c, limit) > 0 ==>
              exists j :: 0 <= j < |c| && MatchLength(src, ip, c[j] - BASE, limit) == Best(src, ip, c, limit)
  {
    hide MatchLength;
    if c != [] {
      BestAttained(src, ip, c[1..], limit);
      if Best(src, ip, c[1..], limit) > 0 {
        var j :| 0 <= j < |c[1..]| && MatchLength(src, ip, c[1..][j] - BASE, limit) == Best(src, ip, c[1..], limit);
        assert c[j + 1] == c[1..][j];
      }
    }
  }

  // ---------------------------------------------------------------- writing and pricing a sequence

  lemma PairStep(pre: seq<Byte>, length: nat)
    requires length >= 510
    ensures |ExtBytes(length)| == 2 + |ExtBytes(length - 510)|
    ensures pre + [255, 255] + ExtBytes(length - 510) == pre + ExtBytes(length)
  {
    assert ExtBytes(length) == [255] + ([255] + ExtBytes(length - 510));
  }

  /** The extension written two bytes of 255 at a time. */
  method WriteExtPairs(dest: array<Byte>, op0: nat, n: nat) returns (op: nat)
    requires op0 + |ExtBytes(n)| <= dest.Length
    modifies dest
    ensures op == op0 + |ExtBytes(n)| && dest[..op] == old(dest[..op0]) + ExtBytes(n)
  {
    var length := n;
    op := op0;
    while length >= 510
      invariant op0 <= op && op + |ExtBytes(length)| == op0 + |ExtBytes(n)|
      invariant dest[..op] + ExtBytes(length) == old(dest[..op0]) + ExtBytes(n)
    {
      PairStep(dest[..op], length);
      dest[op], dest[op + 1] := 255, 255;
      assert dest[..op + 2] == dest[..op] + [255, 255];
      op, length := op + 2, length - 510;
    }
    if length >= 255 {
      assert ExtBytes(length) == [255] + ExtBytes(length - 255);
      dest[op] := 255;
      op, length := op + 1, length - 255;
    }
    dest[op] := length;
    op := op + 1;
  }

  /** LZ4HC_encodeSequence without an output limit. */
  method EncodeSequence(src: seq<Byte>, dest: array<Byte>, op0: nat, anchor: nat, ip: nat, match': nat,
                        matchLength: nat)
    returns (op: nat, ip': nat, ghost q: Sequence)
    requires anchor <= ip && ip + 8 <= |src| && match' < ip <= match' + MAX_DISTANCE && matchLength >= MIN_MATCH
    requires op0 + SequencePrice(ip - anchor, matchLength) + 8 <= dest.Length
    modifies dest
    ensures q.literals == src[anchor..ip] && q.Offset() == ip - match' && q.matchLen == matchLength
    ensures op <= dest.Length && dest[..op] == old(dest[..op0]) + RenderSequence(q)
    ensures op == op0 + SequencePrice(ip - anchor, matchLength) && ip' == ip + matchLength
  {
    hide LenBytes, Le16, SequencePrice;
    PriceParts(src[anchor..ip], matchLength);
    op := EncodeLiterals(src, dest, op0, anchor, ip);
    assert dest[op0] == dest[..op][op0] == LiteralPart(src[anchor..ip], 0)[0];
    ghost var lo, hi;
    op, lo, hi := EncodeOffset(dest, op, ip - match');
    q := Sequence(src[anchor..ip], lo, hi, matchLength);
    assert dest[op0] == dest[..op][op0] == LiteralPart(src[anchor..ip], 0)[0];
    op := EncodeLengthPairs(dest, op0, op, matchLength - MIN_MATCH);
    TokenCompletes(old(dest[..op0]), q);
    PriceExact(q);
    ip' := ip + matchLength;
  }

  method EncodeLengthPairs(dest: array<Byte>, token: nat, op0: nat, length: nat) returns (op: nat)
    requires token < op0 && op0 + |LenBytes(length)| <= dest.Length && dest[token] <= 240
    modifies dest
    ensures op == op0 + |LenBytes(length)|
    ensures dest[..op] == old(dest[..op0])[token := old(dest[token]) + Nibble(length)] + LenBytes(length)
  {
    op := op0;
    if length >= RUN_MASK {
      dest[token] := dest[token] + RUN_MASK;
      assert dest[..op0] == old(dest[..op0])[token := old(dest[token]) + RUN_MASK];
      op := WriteExtPairs(dest, op, length - RUN_MASK);
    } else {
      dest[token] := dest[token] + length;
    }
  }

  /** LZ4HC_literalsPrice. */
  function LiteralsPrice(litlen: nat): nat
  {
    if litlen >= RUN_MASK then litlen + 1 + (litlen - RUN_MASK) / 255 else litlen
  }

  /** LZ4HC_sequencePrice. */
  function SequencePrice(litlen: nat, mlen: nat): nat
    requires mlen >= MIN_MATCH
  {
    2 + 1 + LiteralsPrice(litlen)
    + if mlen >= RUN_MASK + MIN_MATCH then 1 + (mlen - (RUN_MASK + MIN_MATCH)) / 255 else 0
  }

  lemma {:induction false} ExtBytesLength(n: nat)
    ensures |ExtBytes(n)| == n / 255 + 1
  {
    if n >= 255 { ExtBytesLength(n - 255); }
  }

  lemma PriceParts(lits: seq<Byte>, mlen: nat)
    requires mlen >= MIN_MATCH
    ensures |LiteralPart(lits, 0)| + 2 + |LenBytes(mlen - MIN_MATCH)| == SequencePrice(|lits|, mlen)
  {
    if |lits| >= RUN_MASK { ExtBytesLength(|lits| - RUN_MASK); }
    if mlen - MIN_MATCH >= RUN_MASK { ExtBytesLength(mlen - MIN_MATCH - RUN_MASK); }
  }

  /** The price the optimal parser charges is the number of bytes written. */
  lemma PriceExact(q: Sequence)
    requires WellTyped(q)
    ensures |RenderSequence(q)| == SequencePrice(|q.literals|, q.matchLen)
  {
    hide LenBytes, SequencePrice;
    PriceParts(q.literals, q.matchLen);
    assert |RenderSequence(q)| == |LiteralPart(q.literals, 0)| + 2 + |LenBytes(q.matchLen - MIN_MATCH)|;
  }
}

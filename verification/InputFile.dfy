/** Reading a slice of a remote file block by block: where each block goes in the caller's buffer, in
    whatever order the blocks arrive. Offsets in the buffer are 32 bits wide. */
module InputFile {
  import opened Arith
  import opened Bytes

  /** `count` bytes of `file` from `pos`, in blocks of `b` bytes. */
  datatype Slice = Slice(file: seq<Byte>, b: nat, pos: nat, count: nat)

  predicate Legal(r: Slice) { 0 < r.b < WORD && r.pos + r.count <= |r.file| }

  function First(r: Slice): nat requires Legal(r) { r.pos / r.b }

  function Limit(r: Slice): nat
    requires Legal(r)
  {
    (r.pos + r.count) / r.b + if (r.pos + r.count) % r.b != 0 then 1 else 0
  }

  /** The part of the slice that block `k` holds, counted from the start of the slice. */
  function Lo(r: Slice, k: nat): int { Max(0, k * r.b - r.pos) }

  function Hi(r: Slice, k: nat): int { Min(r.count, k * r.b + r.b - r.pos) }

  predicate Wanted(r: Slice, k: nat) requires Legal(r) { First(r) <= k < Limit(r) }

  lemma MulStep(i: nat, j: nat, b: nat)
    requires i < j
    ensures i * b + b <= j * b
  {
    assert (j - i) * b == j * b - i * b;
    MulGrows(j - i, b);
  }

  lemma DivEdges(x: nat, b: nat)
    requires b > 0
    ensures x / b * b <= x < x / b * b + b && x % b == x - x / b * b
  {
  }

  lemma FirstEdge(r: Slice)
    requires Legal(r)
    ensures First(r) * r.b <= r.pos < First(r) * r.b + r.b
    ensures r.pos % r.b == r.pos - First(r) * r.b
  {
    DivEdges(r.pos, r.b);
  }

  lemma LimitEdge(r: Slice)
    requires Legal(r)
    ensures r.pos + r.count <= Limit(r) * r.b < r.pos + r.count + r.b
    ensures (r.pos + r.count) % r.b ==
            if Limit(r) * r.b == r.pos + r.count then 0 else r.pos + r.count - (Limit(r) * r.b - r.b)
  {
    var e := r.pos + r.count;
    var q := e / r.b;
    DivEdges(e, r.b);
    assert (q + 1) * r.b == q * r.b + r.b;
  }

  /** A wanted block starts after the slice does, unless it is the first ... */
  lemma LowEdge(r: Slice, k: nat)
    requires Legal(r) && Wanted(r, k)
    ensures Lo(r, k) == if k == First(r) then 0 else k * r.b - r.pos
    ensures 0 <= Lo(r, k) <= r.count && k * r.b <= r.pos + Lo(r, k)
  {
    FirstEdge(r);
    LimitEdge(r);
    hide First, Limit;
    if k > First(r) { MulStep(First(r), k, r.b); }
    MulStep(k, Limit(r), r.b);
  }

  lemma NextBlock(k: nat, b: nat)
    ensures (k + 1) * b == k * b + b
  {
  }

  lemma HighLast(r: Slice, k: nat)
    requires Legal(r) && Wanted(r, k) && k + 1 == Limit(r)
    ensures r.pos + r.count <= k * r.b + r.b && k * r.b < r.pos + r.count
  {
    LimitEdge(r);
    NextBlock(k, r.b);
    hide First, Limit;
  }

  lemma HighInside(r: Slice, k: nat)
    requires Legal(r) && Wanted(r, k) && k + 1 < Limit(r)
    ensures k * r.b + r.b < r.pos + r.count
  {
    LimitEdge(r);
    hide First, Limit;
    MulStep(k + 1, Limit(r), r.b);
    NextBlock(k, r.b);
  }

  /** ... and ends before the slice does, unless it is the last. */
  lemma HighEdge(r: Slice, k: nat)
    requires Legal(r) && Wanted(r, k)
    ensures Hi(r, k) == if k + 1 == Limit(r) then r.count else k * r.b + r.b - r.pos
    ensures Lo(r, k) <= Hi(r, k) <= r.count && r.pos + Hi(r, k) <= k * r.b + r.b
  {
    FirstEdge(r);
    LowEdge(r, k);
    if k + 1 == Limit(r) { HighLast(r, k); } else { HighInside(r, k); }
    if k > First(r) { MulStep(First(r), k, r.b); }
    hide First, Limit;
  }

  lemma BlockOfByte(r: Slice, j: nat, k: nat)
    requires Legal(r) && j < r.count && k * r.b <= r.pos + j < k * r.b + r.b
    ensures Wanted(r, k) && Lo(r, k) <= j < Hi(r, k)
  {
    FirstEdge(r);
    LimitEdge(r);
    hide First, Limit;
    if k < First(r) { MulStep(k, First(r), r.b); }
    if k > Limit(r) { MulStep(Limit(r), k, r.b); }
  }

  /** Every byte of the slice is in a wanted block ... */
  lemma TilesCover(r: Slice, j: nat) returns (k: nat)
    requires Legal(r) && j < r.count
    ensures Wanted(r, k) && Lo(r, k) <= j < Hi(r, k)
  {
    k := (r.pos + j) / r.b;
    DivEdges(r.pos + j, r.b);
    BlockOfByte(r, j, k);
  }

  /** ... and in no second one. */
  lemma TilesDisjoint(r: Slice, i: nat, k: nat)
    requires Legal(r) && Wanted(r, i) && Wanted(r, k) && i < k
    ensures Hi(r, i) <= Lo(r, k)
  {
    MulStep(i, k, r.b);
    LowEdge(r, k);
    hide First, Limit;
  }

  // ---------------------------------------------------------------- what arrivals do to the buffer

  /** Block `k` arrives: its part of the slice goes to the low 32 bits of its offset. */
  function Arrive(dest: seq<Byte>, r: Slice, k: nat): (d: seq<Byte>)
    requires Legal(r) && Wanted(r, k) && |dest| >= r.count
    ensures |d| == |dest|
  {
    LowEdge(r, k);
    HighEdge(r, k);
    TruncBelow(Lo(r, k));
    Patch(dest, Trunc32(Lo(r, k)), r.file[r.pos + Lo(r, k)..r.pos + Hi(r, k)])
  }

  lemma ArriveIs(dest: seq<Byte>, r: Slice, k: nat)
    requires Legal(r) && Wanted(r, k) && |dest| >= r.count
    ensures 0 <= Lo(r, k) <= Hi(r, k) && r.pos + Hi(r, k) <= |r.file|
    ensures Trunc32(Lo(r, k)) + Hi(r, k) - Lo(r, k) <= |dest|
    ensures Arrive(dest, r, k) == Patch(dest, Trunc32(Lo(r, k)), r.file[r.pos + Lo(r, k)..r.pos + Hi(r, k)])
  {
    LowEdge(r, k);
    HighEdge(r, k);
    TruncBelow(Lo(r, k));
    hide First, Limit, Lo, Hi, Wanted, Trunc32, Patch;
  }

  ghost predicate AllWanted(r: Slice, ks: seq<nat>)
    requires Legal(r)
  {
    forall k :: k in ks ==> Wanted(r, k)
  }

  function ArriveAll(dest: seq<Byte>, r: Slice, ks: seq<nat>): (d: seq<Byte>)
    requires Legal(r) && |dest| >= r.count && AllWanted(r, ks)
    ensures |d| == |dest|
  {
    if ks == [] then dest else Arrive(ArriveAll(dest, r, ks[..|ks| - 1]), r, ks[|ks| - 1])
  }

  /** No offset in the buffer needs more than 32 bits. */
  predicate OffsetsFit(r: Slice)
    requires Legal(r)
  {
    Limit(r) <= First(r) + 1 || (Limit(r) - 1) * r.b - r.pos < WORD
  }

  lemma OffsetFits(r: Slice, k: nat)
    requires Legal(r) && Wanted(r, k) && OffsetsFit(r)
    ensures 0 <= Lo(r, k) < WORD && Trunc32(Lo(r, k)) == Lo(r, k)
  {
    LowEdge(r, k);
    if k + 1 < Limit(r) { MulStep(k, Limit(r) - 1, r.b); }
    TruncBelow(Lo(r, k));
  }

  lemma ArriveByte(dest: seq<Byte>, r: Slice, k: nat, j: nat)
    requires Legal(r) && Wanted(r, k) && |dest| >= r.count && OffsetsFit(r) && j < |dest|
    ensures Arrive(dest, r, k)[j] == if Lo(r, k) <= j < Hi(r, k) then r.file[r.pos + j] else dest[j]
  {
    OffsetFits(r, k);
    LowEdge(r, k);
    HighEdge(r, k);
    hide First, Limit, Wanted, Lo, Hi;
  }

  /** Each byte of the buffer is the file's once its block has arrived, and untouched until then. */
  lemma {:induction false} ArrivedByte(dest: seq<Byte>, r: Slice, ks: seq<nat>, j: nat)
    requires Legal(r) && AllWanted(r, ks) && |dest| >= r.count && OffsetsFit(r) && j < |dest|
    ensures ArriveAll(dest, r, ks)[j] ==
            if exists k :: k in ks && Lo(r, k) <= j < Hi(r, k) then r.file[r.pos + j] else dest[j]
  {
    if ks != [] {
      var before, last := ks[..|ks| - 1], ks[|ks| - 1];
      ArrivedByte(dest, r, before, j);
      ArriveByte(ArriveAll(dest, r, before), r, last, j);
      assert forall k :: k in ks <==> k in before || k == last;
      hide Lo, Hi, First, Limit, Wanted, OffsetsFit;
    }
  }

  ghost predicate AllArrived(r: Slice, ks: seq<nat>)
    requires Legal(r)
  {
    AllWanted(r, ks) && forall k: nat :: Wanted(r, k) ==> k in ks
  }

  lemma ArrivedInSlice(dest: seq<Byte>, r: Slice, ks: seq<nat>, j: nat)
    requires Legal(r) && AllArrived(r, ks) && |dest| >= r.count && OffsetsFit(r) && j < |dest|
    ensures ArriveAll(dest, r, ks)[j] == if j < r.count then r.file[r.pos + j] else dest[j]
  {
    ArrivedByte(dest, r, ks, j);
    if j < r.count {
      var k := TilesCover(r, j);
      assert k in ks;
    } else {
      assert forall k :: k in ks ==> Hi(r, k) <= j;
    }
  }

  lemma ByBytes(result: seq<Byte>, file: seq<Byte>, pos: nat, count: nat, dest: seq<Byte>)
    requires pos + count <= |file| && count <= |dest| == |result|
    requires forall j: nat :: j < |dest| ==> result[j] == if j < count then file[pos + j] else dest[j]
    ensures result == file[pos..pos + count] + dest[count..]
  {
  }

  /** In whatever order, and however often, all blocks arrive: the buffer holds the slice. */
  lemma AnyOrder(dest: seq<Byte>, r: Slice, ks: seq<nat>)
    requires Legal(r) && AllArrived(r, ks) && |dest| >= r.count && OffsetsFit(r)
    ensures ArriveAll(dest, r, ks) == r.file[r.pos..r.pos + r.count] + dest[r.count..]
  {
    hide First, Limit, OffsetsFit, ArriveAll, Arrive;
    forall j: nat | j < |dest|
      ensures ArriveAll(dest, r, ks)[j] == if j < r.count then r.file[r.pos + j] else dest[j]
    {
      ArrivedInSlice(dest, r, ks, j);
    }
    ByBytes(ArriveAll(dest, r, ks), r.file, r.pos, r.count, dest);
  }

  /** Where block `k` goes is all before the last byte asked for. */
  lemma WrappedBefore(r: Slice, k: nat)
    requires Legal(r) && Wanted(r, k) && !OffsetsFit(r)
    ensures 0 <= Lo(r, k) <= Hi(r, k) && Trunc32(Lo(r, k)) + Hi(r, k) - Lo(r, k) < r.count
  {
    var last := Limit(r) - 1;
    LowEdge(r, k);
    HighEdge(r, k);
    LowEdge(r, last);
    HighEdge(r, last);
    LimitEdge(r);
    assert last * r.b == Limit(r) * r.b - r.b;
    if k < last { TilesDisjoint(r, k, last); }
    TruncBelow(Lo(r, k));
    hide First, Limit, Wanted;
  }

  lemma WrappedMiss(dest: seq<Byte>, r: Slice, k: nat)
    requires Legal(r) && Wanted(r, k) && |dest| >= r.count && !OffsetsFit(r)
    ensures r.count > 0 && Arrive(dest, r, k)[r.count - 1] == dest[r.count - 1]
  {
    WrappedBefore(r, k);
    LowEdge(r, k);
    HighEdge(r, k);
    TruncBelow(Lo(r, k));
    hide First, Limit, Wanted, Lo, Hi, OffsetsFit;
  }

  /** When an offset does not fit, the last byte asked for is never written. */
  lemma {:induction false} WrappedMisses(dest: seq<Byte>, r: Slice, ks: seq<nat>)
    requires Legal(r) && AllWanted(r, ks) && |dest| >= r.count && !OffsetsFit(r)
    ensures r.count > 0 && ArriveAll(dest, r, ks)[r.count - 1] == dest[r.count - 1]
  {
    WrappedMiss(dest, r, First(r));
    if ks != [] {
      WrappedMisses(dest, r, ks[..|ks| - 1]);
      WrappedMiss(ArriveAll(dest, r, ks[..|ks| - 1]), r, ks[|ks| - 1]);
    }
  }

  lemma WrappedIsWrong(r: Slice, ks: seq<nat>) returns (dest: seq<Byte>)
    requires Legal(r) && AllWanted(r, ks) && !OffsetsFit(r)
    ensures |dest| == r.count && ArriveAll(dest, r, ks) != r.file[r.pos..r.pos + r.count]
  {
    WrappedMiss(seq(r.count, i => 0), r, First(r));
    dest := Unlike(r, r.count - 1);
    WrappedMisses(dest, r, ks);
    hide ArriveAll, OffsetsFit, AllWanted, First, Limit;
    assert r.file[r.pos..r.pos + r.count][r.count - 1] != dest[r.count - 1];
  }

  /** A buffer that differs from the slice at byte `j`. */
  function Unlike(r: Slice, j: nat): (dest: seq<Byte>)
    requires Legal(r) && j < r.count
    ensures |dest| == r.count && dest[j] != r.file[r.pos + j]
  {
    var right := r.file[r.pos + j];
    seq(r.count, i => if right == 0 then 1 else 0)
  }

  /** Unless nothing is asked for, every wanted block holds some of it. */
  lemma WantedNotEmpty(r: Slice, k: nat)
    requires Legal(r) && Wanted(r, k) && r.count > 0
    ensures Lo(r, k) < Hi(r, k)
  {
    FirstEdge(r);
    LowEdge(r, k);
    HighEdge(r, k);
    if k + 1 == Limit(r) { HighLast(r, k); }
    hide First, Limit;
  }

  lemma MissingIsWrong(r: Slice, ks: seq<nat>, k: nat) returns (dest: seq<Byte>)
    requires Legal(r) && AllWanted(r, ks) && OffsetsFit(r) && Wanted(r, k) && k !in ks && r.count > 0
    ensures |dest| == r.count && ArriveAll(dest, r, ks) != r.file[r.pos..r.pos + r.count]
  {
    WantedNotEmpty(r, k);
    LowEdge(r, k);
    HighEdge(r, k);
    var j := Lo(r, k);
    dest := Unlike(r, j);
    ArrivedByte(dest, r, ks, j);
    forall i | i in ks ensures !(Lo(r, i) <= j < Hi(r, i)) {
      if i < k { TilesDisjoint(r, i, k); } else if i > k { TilesDisjoint(r, k, i); }
    }
    hide ArriveAll, OffsetsFit, First, Limit, Lo, Hi;
    assert r.file[r.pos..r.pos + r.count][j] != dest[j];
  }

  lemma FitIsRight(r: Slice, ks: seq<nat>, dest: seq<Byte>)
    requires Legal(r) && AllArrived(r, ks) && OffsetsFit(r) && |dest| == r.count
    ensures ArriveAll(dest, r, ks) == r.file[r.pos..r.pos + r.count]
  {
    AnyOrder(dest, r, ks);
    hide ArriveAll, OffsetsFit, AllArrived;
    assert dest[r.count..] == [];
  }

  /** The slice is in every buffer. */
  ghost predicate Delivered(r: Slice, ks: seq<nat>)
    requires Legal(r) && AllWanted(r, ks)
  {
    forall dest: seq<Byte> :: |dest| == r.count ==> ArriveAll(dest, r, ks) == r.file[r.pos..r.pos + r.count]
  }

  /** Unless nothing is asked for, the slice is delivered into every buffer exactly when all wanted
      blocks have arrived and the last one's offset fits in 32 bits. */
  lemma SliceIffArrivedAndFit(r: Slice, ks: seq<nat>)
    requires Legal(r) && AllWanted(r, ks) && r.count > 0
    ensures Delivered(r, ks) <==> AllArrived(r, ks) && OffsetsFit(r)
  {
    hide ArriveAll, OffsetsFit, First, Limit;
    if !OffsetsFit(r) {
      var dest := WrappedIsWrong(r, ks);
    } else if AllArrived(r, ks) {
      forall dest: seq<Byte> | |dest| == r.count
        ensures ArriveAll(dest, r, ks) == r.file[r.pos..r.pos + r.count]
      {
        FitIsRight(r, ks, dest);
      }
    } else {
      var k: nat :| Wanted(r, k) && k !in ks;
      var dest := MissingIsWrong(r, ks, k);
    }
  }

  /** In particular, with all blocks in, exactly when that offset fits. */
  lemma SliceIffOffsetsFit(r: Slice, ks: seq<nat>)
    requires Legal(r) && AllArrived(r, ks)
    ensures Delivered(r, ks) <==> OffsetsFit(r)
  {
    if r.count > 0 {
      SliceIffArrivedAndFit(r, ks);
    } else {
      LimitEdge(r);
      NothingFits(r);
      forall dest: seq<Byte> | |dest| == 0 ensures ArriveAll(dest, r, ks) == r.file[r.pos..r.pos] {
        FitIsRight(r, ks, dest);
      }
    }
  }

  lemma NothingFits(r: Slice)
    requires Legal(r) && r.count == 0
    ensures OffsetsFit(r)
  {
  }

  /** The failing side exists: 2^32 + 1 bytes from the start of a file in blocks of 2^31. */
  lemma SomeOffsetsDoNotFit() returns (r: Slice)
    ensures Legal(r) && !OffsetsFit(r)
  {
    r := Slice(seq(WORD + 1, i => 0), WORD / 2, 0, WORD + 1);
  }

  lemma RangeFits(r: Slice, numBlks: nat)
    requires Legal(r) && numBlks == |r.file| / r.b + (if |r.file| % r.b != 0 then 1 else 0) && numBlks < WORD
    ensures Trunc32(r.pos / r.b) == First(r) && Limit(r) <= numBlks
    ensures Trunc32((r.pos + r.count) / r.b) == (r.pos + r.count) / r.b
    ensures (r.pos + r.count) % r.b != 0 ==> Trunc32((r.pos + r.count) / r.b + 1) == Limit(r)
    ensures (r.pos + r.count) % r.b == 0 ==> (r.pos + r.count) / r.b == Limit(r)
  {
    LimitInFile(r);
    FirstInRange(r);
    TruncRange(First(r), (r.pos + r.count) / r.b, (r.pos + r.count) % r.b, numBlks);
    hide Trunc32;
  }

  lemma TruncRange(first: nat, q: nat, m: nat, numBlks: nat)
    requires first <= q + (if m != 0 then 1 else 0) <= numBlks < WORD
    ensures Trunc32(first) == first && Trunc32(q) == q && (m != 0 ==> Trunc32(q + 1) == q + 1)
  {
  }

  lemma FirstInRange(r: Slice)
    requires Legal(r)
    ensures First(r) <= Limit(r)
  {
    FirstEdge(r);
    LimitEdge(r);
    hide First, Limit;
    if First(r) > Limit(r) { MulStep(Limit(r), First(r), r.b); }
  }

  // ---------------------------------------------------------------- the reader

  lemma ArriveNone(dest: seq<Byte>, r: Slice)
    requires Legal(r) && |dest| >= r.count
    ensures AllWanted(r, []) && ArriveAll(dest, r, []) == dest
  {
  }

  /** No request reaches past the file's last block. */
  lemma LimitInFile(r: Slice)
    requires Legal(r)
    ensures Limit(r) <= |r.file| / r.b + if |r.file| % r.b != 0 then 1 else 0
  {
    var whole := r.(pos := 0, count := |r.file|);
    LimitEdge(r);
    LimitEdge(whole);
    if Limit(r) > Limit(whole) { MulStep(Limit(whole), Limit(r), r.b); }
  }

  /** `data` starts with block `k` of `file`; the last block may be short. */
  predicate HoldsBlock(data: seq<Byte>, file: seq<Byte>, b: nat, k: nat)
  {
    k * b <= |file| && var n := Min(b, |file| - k * b); n <= |data| && data[..n] == file[k * b..k * b + n]
  }

  /** The unsigned 32-bit arithmetic that places a block. */
  lemma StartOffset(r: Slice, k: nat)
    requires Legal(r) && Wanted(r, k) && k > First(r) && Limit(r) < WORD
    ensures Trunc32(r.b - r.pos % r.b) == First(r) * r.b + r.b - r.pos
    ensures Trunc32(k - First(r) - 1) * r.b + First(r) * r.b + r.b - r.pos == Lo(r, k)
  {
    FirstEdge(r);
    LowEdge(r, k);
    ThreeTerms(k, First(r), r.b);
    hide First, Limit, Wanted;
  }

  lemma ThreeTerms(k: nat, i: nat, b: nat)
    ensures (k - i - 1) * b == k * b - i * b - b
  {
  }

  lemma LastSize(r: Slice, k: nat)
    requires Legal(r) && Wanted(r, k) && k > First(r) && k + 1 == Limit(r)
    ensures var temp := Trunc32((r.pos + r.count) % r.b);
            (if temp != 0 then temp else r.b) == Hi(r, k) - Lo(r, k)
  {
    LimitEdge(r);
    LowEdge(r, k);
    HighEdge(r, k);
    NextBlock(k, r.b);
    ModBound(r.pos + r.count, r.b);
    TruncBelow((r.pos + r.count) % r.b);
    hide First, Limit, Wanted, Trunc32, Lo, Hi;
  }

  lemma BlockSlice(data: seq<Byte>, file: seq<Byte>, b: nat, k: nat, at: nat, i: nat, j: nat)
    requires HoldsBlock(data, file, b, k) && at == k * b && i <= j <= b && at + j <= |file|
    ensures j <= |data| && data[i..j] == file[at + i..at + j]
  {
    SameSlice(data, Min(b, |file| - at), file, at, i, j);
  }

  lemma PartOfBlock(data: seq<Byte>, r: Slice, k: nat, from: nat, size: nat)
    requires Legal(r) && Wanted(r, k) && HoldsBlock(data, r.file, r.b, k)
    requires 0 <= Lo(r, k) <= Hi(r, k) && k * r.b + from == r.pos + Lo(r, k) && size == Hi(r, k) - Lo(r, k)
    ensures from + size <= |data| && r.pos + Hi(r, k) <= |r.file|
    ensures data[from..from + size] == r.file[r.pos + Lo(r, k)..r.pos + Hi(r, k)]
  {
    HighEdge(r, k);
    hide First, Limit, Wanted, Lo, Hi, HoldsBlock;
    BlockSlice(data, r.file, r.b, k, r.pos + Lo(r, k) - from, from, from + size);
  }

  lemma ArriveMore(dest: seq<Byte>, r: Slice, ks: seq<nat>, k: nat)
    requires Legal(r) && |dest| >= r.count && AllWanted(r, ks) && Wanted(r, k)
    ensures AllWanted(r, ks + [k]) && ArriveAll(dest, r, ks + [k]) == Arrive(ArriveAll(dest, r, ks), r, k)
  {
    assert (ks + [k])[..|ks|] == ks;
  }

  /** Where the copy of a block starts, in the caller's buffer and in the block, and its size. */
  method PlaceBlock(ghost r: Slice, blkSize: nat, filePos: nat, blk: nat, startBlock: nat, endBlock: nat,
                     count: nat)
    returns (localStart: nat, startFP: nat, localSize: nat)
    requires Legal(r) && blkSize == r.b && filePos == r.pos && count == r.count
    requires startBlock == First(r) && endBlock == Limit(r) < WORD && Wanted(r, blk)
    ensures 0 <= Lo(r, blk) <= Hi(r, blk)
    ensures localStart == Trunc32(Lo(r, blk)) && localSize == Hi(r, blk) - Lo(r, blk)
    ensures blk * r.b + startFP == r.pos + Lo(r, blk)
  {
    FirstEdge(r);
    LowEdge(r, blk);
    HighEdge(r, blk);
    hide First, Limit, Lo, Hi, Wanted, Trunc32;
    TruncBelow(blkSize);
    TruncBelow(filePos % blkSize);
    var blkOneSize := Trunc32(blkSize - filePos % blkSize);
    localStart := Trunc32(Trunc32(blk - startBlock - 1) * blkSize + blkOneSize);
    startFP := 0;
    localSize := Trunc32(blkSize);
    if blk == startBlock && blk + 1 == endBlock {
      localStart := 0;
      startFP := Trunc32(filePos % blkSize);
      localSize := Trunc32(count);
      TruncBelow(count);
      TruncBelow(0);
    } else if blk == startBlock {
      localStart := 0;
      startFP := Trunc32(filePos % blkSize);
      TruncBelow(localSize - startFP);
      localSize := Trunc32(localSize - startFP);
      TruncBelow(0);
    } else if blk + 1 == endBlock {
      StartOffset(r, blk);
      LastSize(r, blk);
      var temp := Trunc32((filePos + count) % blkSize);
      if temp != 0 {
        localSize := temp;
      }
    } else {
      StartOffset(r, blk);
    }
  }

  /** What a future holds when it is waited for: a request that is ready, one that is not, or nothing at
      all, which throws. */
  datatype Fate = Ready(data: seq<Byte>) | Unready | Broken

  /** The request for a block: answered at once by a client-side cache, or later, over the network or
      from the local file. */
  datatype BlockRequest = AtOnce(data: seq<Byte>) | Later(network: bool, fate: Fate)

  predicate Accepted(q: BlockRequest) { q.AtOnce? || q.fate.Ready? }

  predicate Throws(q: BlockRequest) { q.Later? && q.fate.Broken? }

  function DataOf(q: BlockRequest): seq<Byte>
    requires Accepted(q)
  {
    if q.AtOnce? then q.data else q.fate.data
  }

  /** Every wanted block has a request, and those that get an answer get the block. */
  ghost predicate Served(requests: seq<BlockRequest>, r: Slice)
  {
    Legal(r) && Limit(r) <= |requests|
    && forall k: nat :: Wanted(r, k) && Accepted(requests[k]) ==> HoldsBlock(DataOf(requests[k]), r.file, r.b, k)
  }

  /** The blocks that have been copied are accepted ones, and include those that were there at once. */
  ghost predicate Copied(requests: seq<BlockRequest>, r: Slice, arrived: seq<nat>)
    requires Legal(r) && Limit(r) <= |requests|
  {
    AllWanted(r, arrived)
    && (forall k :: k in arrived ==> Accepted(requests[k]))
    && (forall k: nat :: Wanted(r, k) && requests[k].AtOnce? ==> k in arrived)
  }

  /** Byte `j` of the slice belongs to a block that was accepted. */
  ghost predicate ByteAccepted(requests: seq<BlockRequest>, r: Slice, j: nat)
    requires Legal(r) && Limit(r) <= |requests|
  {
    exists k: nat :: Wanted(r, k) && Accepted(requests[k]) && Lo(r, k) <= j < Hi(r, k)
  }

  ghost predicate AllAccepted(requests: seq<BlockRequest>, r: Slice)
    requires Legal(r) && Limit(r) <= |requests|
  {
    forall k: nat :: Wanted(r, k) ==> Accepted(requests[k])
  }

  ghost predicate AnyThrows(requests: seq<BlockRequest>, r: Slice)
    requires Legal(r) && Limit(r) <= |requests|
  {
    exists k: nat :: Wanted(r, k) && Throws(requests[k])
  }

  /** When everything accepted has been copied, the buffer has the file's bytes just there. */
  lemma AcceptedBytes(requests: seq<BlockRequest>, r: Slice, arrived: seq<nat>, dest: seq<Byte>)
    requires Legal(r) && Limit(r) <= |requests| && Copied(requests, r, arrived) && |dest| >= r.count && OffsetsFit(r)
    requires forall k: nat :: Wanted(r, k) && Accepted(requests[k]) ==> k in arrived
    ensures forall j: nat :: j < |dest| ==>
              ArriveAll(dest, r, arrived)[j] ==
              if ByteAccepted(requests, r, j) then r.file[r.pos + j] else dest[j]
  {
    hide ArriveAll, OffsetsFit, First, Limit, Lo, Wanted, Accepted;
    forall j: nat | j < |dest|
      ensures ArriveAll(dest, r, arrived)[j] == if ByteAccepted(requests, r, j) then r.file[r.pos + j] else dest[j]
    {
      ArrivedByte(dest, r, arrived, j);
      assert ByteAccepted(requests, r, j) <==> exists k :: k in arrived && Lo(r, k) <= j < Hi(r, k);
    }
  }

  /** What a read leaves in the caller's buffer. `arrived` lists the blocks copied, in order: accepted ones,
      and those at hand even if a later one throws. Offsets fitting, each byte is then the file's if its
      block was accepted and untouched otherwise; and unless nothing is asked for, the slice is left in
      every buffer exactly when all wanted blocks were accepted and offsets fit. */
  ghost predicate LeftInBuffer(requests: seq<BlockRequest>, r: Slice, arrived: seq<nat>, thrown: bool,
                               before: seq<Byte>, after: seq<Byte>)
    requires Legal(r) && Limit(r) <= |requests|
  {
    Copied(requests, r, arrived) && |before| >= r.count && after == ArriveAll(before, r, arrived)
    && (!thrown && OffsetsFit(r) ==> forall j: nat :: j < |before| ==>
          after[j] == if ByteAccepted(requests, r, j) then r.file[r.pos + j] else before[j])
    && (!thrown && OffsetsFit(r) && AllAccepted(requests, r) ==>
          after == r.file[r.pos..r.pos + r.count] + before[r.count..])
    && (!OffsetsFit(r) ==> r.count > 0 && after[r.count - 1] == before[r.count - 1])
    && (r.count > 0 ==> (Delivered(r, arrived) <==> AllAccepted(requests, r) && OffsetsFit(r)))
  }

  /** Unless nothing is asked for, the slice is in every buffer exactly when all wanted blocks were
      accepted and the last one's offset fits. */
  lemma DeliveredIffAccepted(requests: seq<BlockRequest>, r: Slice, arrived: seq<nat>, thrown: bool)
    requires Served(requests, r) && Copied(requests, r, arrived) && r.count > 0 && (thrown <==> AnyThrows(requests, r))
    requires !thrown ==> forall k: nat :: Wanted(r, k) && Accepted(requests[k]) ==> k in arrived
    ensures Delivered(r, arrived) <==> AllAccepted(requests, r) && OffsetsFit(r)
  {
    SliceIffArrivedAndFit(r, arrived);
    hide Delivered, OffsetsFit, First, Limit, HoldsBlock;
    assert AllArrived(r, arrived) <==> AllAccepted(requests, r);
  }

  /** The bytes an undisturbed read leaves. */
  lemma BytesAfter(requests: seq<BlockRequest>, r: Slice, arrived: seq<nat>, before: seq<Byte>)
    requires Legal(r) && Limit(r) <= |requests| && Copied(requests, r, arrived) && |before| >= r.count && OffsetsFit(r)
    requires forall k: nat :: Wanted(r, k) && Accepted(requests[k]) ==> k in arrived
    ensures forall j: nat :: j < |before| ==>
              ArriveAll(before, r, arrived)[j] ==
              if ByteAccepted(requests, r, j) then r.file[r.pos + j] else before[j]
    ensures AllAccepted(requests, r) ==>
              ArriveAll(before, r, arrived) == r.file[r.pos..r.pos + r.count] + before[r.count..]
  {
    AcceptedBytes(requests, r, arrived, before);
    hide ArriveAll, OffsetsFit, First, Limit, ByteAccepted;
    if AllAccepted(requests, r) { AnyOrder(before, r, arrived); }
  }

  lemma AfterCopies(requests: seq<BlockRequest>, r: Slice, arrived: seq<nat>, thrown: bool,
                    before: seq<Byte>, after: seq<Byte>)
    requires Served(requests, r) && Copied(requests, r, arrived)
    requires |before| >= r.count && after == ArriveAll(before, r, arrived)
    requires thrown <==> AnyThrows(requests, r)
    requires !thrown ==> forall k: nat :: Wanted(r, k) && Accepted(requests[k]) ==> k in arrived
    ensures LeftInBuffer(requests, r, arrived, thrown, before, after)
  {
    hide ArriveAll, OffsetsFit, First, Limit, HoldsBlock, Delivered, ByteAccepted, AllAccepted, AnyThrows;
    if r.count > 0 { DeliveredIffAccepted(requests, r, arrived, thrown); }
    if !OffsetsFit(r) {
      WrappedMisses(before, r, arrived);
    } else if !thrown {
      BytesAfter(requests, r, arrived, before);
    }
  }

  class InputFile {
    const blkSize: nat
    const numBlks: nat
    const fileSize: nat
    ghost const file: seq<Byte> // what the server holds
    var active: bool
    var filePos: nat
    var eof: bool

    /** The block count is the size divided by the block size, rounded up, and has 32 bits. */
    ghost predicate Valid()
    {
      fileSize == |file| && numBlks < WORD
      && (numBlks > 0 ==>
            0 < blkSize < WORD && numBlks == fileSize / blkSize + if fileSize % blkSize != 0 then 1 else 0)
    }

    /** A file smaller than a block is one block; an empty one is not opened. */
    constructor (file: seq<Byte>, maxBlockSize: nat)
      requires 0 < maxBlockSize < WORD && |file| / maxBlockSize + 1 < WORD
      ensures Valid() && filePos == 0 && this.file == file && (active <==> file != []) && (active ==> numBlks > 0)
      ensures active ==> blkSize == Min(maxBlockSize, |file|)
    {
      this.file, fileSize := file, |file|;
      var b := if |file| < maxBlockSize then |file| else maxBlockSize;
      blkSize := b;
      if |file| > 0 {
        DivEdges(|file|, b);
        if |file| < maxBlockSize { ModUnique(|file|, |file|, 1, 0); }
        numBlks := |file| / b + if |file| % b != 0 then 1 else 0;
      } else {
        numBlks := 0;
      }
      active, filePos, eof := |file| > 0, 0, false;
    }

    predicate Opened() reads this { active && numBlks > 0 }

    /** The part of the file that a read of `wanted` bytes is for. */
    ghost function Request(wanted: nat): Slice
      requires Valid() && filePos < fileSize
      reads this
    {
      Slice(file, blkSize, filePos, Min(wanted, fileSize - filePos))
    }

    method CopyBlock(buf: array<Byte>, blkBuf: seq<Byte>, ghost r: Slice, blk: nat, startBlock: nat, endBlock: nat,
                     count: nat)
      returns (amt: nat)
      requires Legal(r) && blkSize == r.b && filePos == r.pos && count == r.count <= buf.Length
      requires startBlock == First(r) && endBlock == Limit(r) < WORD && Wanted(r, blk)
      requires HoldsBlock(blkBuf, r.file, r.b, blk)
      modifies buf
      ensures buf[..] == Arrive(old(buf[..]), r, blk) && amt == Hi(r, blk) - Lo(r, blk)
    {
      hide *;
      var localStart, startFP, localSize := PlaceBlock(r, blkSize, filePos, blk, startBlock, endBlock, count);
      PartOfBlock(blkBuf, r, blk, startFP, localSize);
      ArriveIs(buf[..], r, blk);
      CopyInto(buf, localStart, blkBuf[startFP..startFP + localSize]);
      amt := localSize;
    }

    /** The blocks a request touches, as 32-bit numbers. */
    method BlockRange(ghost r: Slice, count: nat) returns (startBlock: nat, endBlock: nat)
      requires Valid() && numBlks > 0 && Legal(r) && r == Slice(file, blkSize, filePos, count)
      ensures startBlock == First(r) && endBlock == Limit(r) <= numBlks
    {
      RangeFits(r, numBlks);
      hide *;
      startBlock := Trunc32(filePos / blkSize);
      endBlock := Trunc32((filePos + count) / blkSize);
      if (filePos + count) % blkSize != 0 {
        endBlock := Trunc32(endBlock + 1);
      }
      if endBlock > numBlks {
        endBlock := numBlks;
      }
    }

    /** Wait for the requests in `waiting`, in no particular order, and copy those that are ready. */
    method CopyAll(buf: array<Byte>, requests: seq<BlockRequest>, waiting: set<nat>, ghost r: Slice,
                   ghost dest: seq<Byte>,
                   ghost before: seq<nat>, startBlock: nat, endBlock: nat, count: nat)
      returns (thrown: bool, ghost arrived: seq<nat>)
      requires Served(requests, r) && blkSize == r.b && filePos == r.pos && count == r.count <= buf.Length == |dest|
      requires startBlock == First(r) && endBlock == Limit(r) < WORD
      requires Copied(requests, r, before) && buf[..] == ArriveAll(dest, r, before)
      requires forall k :: k in waiting ==> Wanted(r, k) && requests[k].Later?
      modifies buf
      ensures Copied(requests, r, arrived) && buf[..] == ArriveAll(dest, r, arrived)
      ensures thrown <==> exists k :: k in waiting && Throws(requests[k])
      ensures forall k :: k in before ==> k in arrived
      ensures !thrown ==> forall k :: k in waiting && Accepted(requests[k]) ==> k in arrived
    {
      hide ArriveAll, Arrive, HoldsBlock, First, Limit;
      var rest := waiting;
      arrived := before;
      while rest != {}
        invariant Copied(requests, r, arrived) && buf[..] == ArriveAll(dest, r, arrived) && rest <= waiting
        invariant forall k :: k in before ==> k in arrived
        invariant forall k :: k in waiting - rest ==> !Throws(requests[k]) && (Accepted(requests[k]) ==> k in arrived)
      {
        var blk :| blk in rest;
        if requests[blk].fate.Broken? {
          return true, arrived;
        }
        if requests[blk].fate.Ready? {
          ArriveMore(dest, r, arrived, blk);
          var amt := CopyBlock(buf, requests[blk].fate.data, r, blk, startBlock, endBlock, count);
          arrived := arrived + [blk];
        }
        rest := rest - {blk};
      }
      thrown := false;
    }

    /** Request every block: copy those that are ready, and sort the others by where they come from. */
    method RequestAll(buf: array<Byte>, requests: seq<BlockRequest>, ghost r: Slice, startBlock: nat, endBlock: nat,
                      count: nat)
      returns (netReads: set<nat>, localReads: set<nat>, ghost arrived: seq<nat>)
      requires Served(requests, r) && blkSize == r.b && filePos == r.pos && count == r.count <= buf.Length
      requires startBlock == First(r) && endBlock == Limit(r) < WORD
      modifies buf
      ensures Copied(requests, r, arrived) && buf[..] == ArriveAll(old(buf[..]), r, arrived)
      ensures forall k: nat :: k in netReads || k in localReads <==> Wanted(r, k) && requests[k].Later?
    {
      FirstInRange(r);
      hide ArriveAll, Arrive, HoldsBlock, First, Limit;
      netReads, localReads, arrived := {}, {}, [];
      ArriveNone(buf[..], r);
      var blk := startBlock;
      while blk < endBlock
        invariant startBlock <= blk <= endBlock
        invariant AllWanted(r, arrived) && buf[..] == ArriveAll(old(buf[..]), r, arrived)
        invariant forall k: nat :: k in arrived <==> startBlock <= k < blk && requests[k].AtOnce?
        invariant forall k: nat :: k in netReads || k in localReads <==> startBlock <= k < blk && requests[k].Later?
      {
        match requests[blk] {
          case AtOnce(data) =>
            ArriveMore(old(buf[..]), r, arrived, blk);
            var amt := CopyBlock(buf, data, r, blk, startBlock, endBlock, count);
            arrived := arrived + [blk];
          case Later(network, _) =>
            if network {
              netReads := netReads + {blk};
            } else {
              localReads := localReads + {blk};
            }
        }
        blk := blk + 1;
      }
    }

    /** The loops of a read: first what is there at once, then the network's blocks, then local ones. */
    method Fill(buf: array<Byte>, count: nat, requests: seq<BlockRequest>, ghost r: Slice)
      returns (thrown: bool, ghost arrived: seq<nat>)
      requires Valid() && numBlks > 0 && r == Slice(file, blkSize, filePos, count) && Served(requests, r)
      requires count <= buf.Length
      modifies buf
      ensures Copied(requests, r, arrived) && buf[..] == ArriveAll(old(buf[..]), r, arrived)
      ensures thrown <==> AnyThrows(requests, r)
      ensures !thrown ==> forall k: nat :: Wanted(r, k) && Accepted(requests[k]) ==> k in arrived
    {
      ghost var dest := buf[..];
      hide ArriveAll, Arrive, HoldsBlock, First, Limit;
      var startBlock, endBlock := BlockRange(r, count);
      var netReads, localReads;
      netReads, localReads, arrived := RequestAll(buf, requests, r, startBlock, endBlock, count);
      thrown, arrived := CopyAll(buf, requests, netReads, r, dest, arrived, startBlock, endBlock, count);
      if !thrown {
        thrown, arrived := CopyAll(buf, requests, localReads, r, dest, arrived, startBlock, endBlock, count);
      }
    }

    /** A read. `requests[k]` is what becomes of the request for block `k`; one that never gets ready is
        passed over, and one whose future is broken throws. */
    method Read(buf: array<Byte>, wanted: nat, requests: seq<BlockRequest>)
      returns (thrown: bool, ret: nat, ghost arrived: seq<nat>)
      requires Valid() && wanted <= buf.Length
      requires Opened() && filePos < fileSize ==> Served(requests, Request(wanted))
      modifies buf, this`filePos, this`eof
      ensures !Opened() ==>
                !thrown && ret == 0 && filePos == old(filePos) && eof == old(eof) && buf[..] == old(buf[..])
      ensures Opened() && old(filePos) >= fileSize ==>
                !thrown && ret == 0 && filePos == old(filePos) && eof && buf[..] == old(buf[..])
      ensures Opened() && old(filePos) < fileSize ==>
                var r := old(Request(wanted));
                (thrown <==> AnyThrows(requests, r)) && eof == old(eof)
                && filePos == old(filePos) + (if thrown then 0 else r.count) && (!thrown ==> ret == r.count)
                && LeftInBuffer(requests, r, arrived, thrown, old(buf[..]), buf[..])
    {
      hide LeftInBuffer, Served, Copied, ArriveAll, First, Limit, AnyThrows;
      thrown, ret, arrived := false, 0, [];
      if !Opened() {
        return;
      }
      if filePos >= fileSize {
        eof := true;
        return;
      }
      var count := wanted;
      if count > fileSize - filePos {
        count := fileSize - filePos;
      }
      ghost var r, dest := Slice(file, blkSize, filePos, count), buf[..];
      thrown, arrived := Fill(buf, count, requests, r);
      AfterCopies(requests, r, arrived, thrown, dest, buf[..]);
      if !thrown {
        filePos := filePos + count;
        ret := count;
      }
    }
  }
}

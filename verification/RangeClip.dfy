/** Keeping bytes `start` to `end` of a download that arrives in chunks of any sizes. */
module RangeClip {
  import opened Arith
  import opened Bytes

  /** The bytes of `stream` at positions `start` to `end`, as far as the stream goes. */
  function Window(stream: seq<Byte>, start: nat, end: nat): seq<Byte>
    requires start <= end
  {
    stream[Min(start, |stream|)..Min(end + 1, |stream|)]
  }

  function Clamp(x: int, n: nat): (c: nat)
    ensures c <= n
  {
    if x < 0 then 0 else if x > n then n else x
  }

  /** What a further chunk adds to the window. */
  function Share(at: nat, chunk: seq<Byte>, start: nat, end: nat): seq<Byte>
    requires start <= end
  {
    chunk[Clamp(start - at, |chunk|)..Clamp(end + 1 - at, |chunk|)]
  }

  lemma WindowGrows(stream: seq<Byte>, chunk: seq<Byte>, start: nat, end: nat)
    requires start <= end
    ensures Window(stream + chunk, start, end) == Window(stream, start, end) + Share(|stream|, chunk, start, end)
  {
  }

  /** The callback's five cases, in unsigned 32-bit arithmetic: what to copy from a chunk at `current`. */
  method Clip(current: nat, nmemb: nat, memStart: nat, memEnd: nat) returns (copyStart: nat, copySize: nat)
    requires memStart <= memEnd < WORD && 0 < nmemb && current + nmemb < WORD
    ensures copySize == Clamp(memEnd + 1 - current, nmemb) - Clamp(memStart - current, nmemb)
    ensures copySize > 0 ==> copyStart == Clamp(memStart - current, nmemb)
  {
    hide Trunc32;
    TruncBelow(current + nmemb - 1);
    TruncBelow(nmemb);
    var start, end := current, Trunc32(current + nmemb - 1);
    copyStart, copySize := 0, 0;
    if end < memStart || start > memEnd {
      copySize := 0;
    } else if memStart <= start && start <= memEnd && memStart <= end && end <= memEnd {
      copySize := Trunc32(nmemb);
    } else if start <= memStart && memEnd <= end {
      copyStart := Trunc32(memStart - current);
      copySize := Trunc32(memEnd - memStart + 1);
      TruncBelow(memStart - current);
      TruncBelow(memEnd - memStart + 1);
    } else if start < memStart && end <= memEnd {
      copyStart := Trunc32(memStart - current);
      TruncBelow(memStart - current);
      copySize := Trunc32(nmemb - copyStart);
      TruncBelow(nmemb - copyStart);
    } else if start <= memEnd && memEnd < end {
      copySize := Trunc32(memEnd - current + 1);
      TruncBelow(memEnd - current + 1);
    } else {
      assert false; // the five cases are all there are
    }
  }

  class MemoryChunk {
    var memory: array<Byte>
    var size: nat      // one more than the bytes kept
    const start: nat
    const end: nat
    var current: nat
    ghost var received: seq<Byte>

    ghost predicate Valid()
      reads this, memory
    {
      start <= end < WORD && 1 <= size <= memory.Length && current == |received|
      && memory[..size - 1] == Window(received, start, end)
    }

    constructor (start: nat, end: nat)
      requires start <= end < WORD
      ensures Valid() && received == [] && fresh(memory) && this.start == start && this.end == end
    {
      memory := new Byte[1](_ => 10);
      size, current, received := 1, 0, [];
      this.start, this.end := start, end;
    }

    /** Grow the memory, keeping what is in it; the new bytes are arbitrary. */
    method Realloc(length: nat)
      requires size <= memory.Length && size <= length
      modifies this`memory
      ensures fresh(memory) && memory.Length == length && memory[..size] == old(memory[..size])
    {
      var grown := new Byte[length];
      for i := 0 to size
        invariant memory == old(memory) && grown[..i] == memory[..i]
      {
        grown[i] := memory[i];
      }
      memory := grown;
    }

    method Accumulate(kept: seq<Byte>)
      requires 1 <= size <= memory.Length
      modifies this`size, this`memory
      ensures fresh(memory) && 1 <= size <= memory.Length && memory[..size - 1] == old(memory[..size - 1]) + kept
    {
      Realloc(size + |kept| + 1);
      assert memory[..size][..size - 1] == memory[..size - 1];
      Keep(kept);
    }

    method WriteMemoryRangeCallback(contents: seq<Byte>) returns (realsize: nat)
      requires Valid() && current + |contents| < WORD
      modifies this
      ensures Valid() && received == old(received) + contents && realsize == |contents|
      ensures memory == old(memory) || fresh(memory)
    {
      hide Window, Trunc32, Share;
      realsize := |contents|;
      var nmemb := |contents|;
      WindowGrows(received, contents, start, end);
      TruncBelow(current + nmemb);
      if nmemb > 0 {
        CopyShare(contents);
        current := Trunc32(current + nmemb);
      } else {
        assert received + contents == received;
      }
      received := received + contents;
    }

    /** Keep what lies in the range. */
    method CopyShare(contents: seq<Byte>)
      requires start <= end < WORD && 1 <= size <= memory.Length && contents != [] && current + |contents| < WORD
      modifies this`size, this`memory
      ensures (memory == old(memory) || fresh(memory)) && 1 <= size <= memory.Length
      ensures memory[..size - 1] == old(memory[..size - 1]) + Share(current, contents, start, end)
    {
      var copyStart, copySize := Clip(current, |contents|, start, end);
      if copySize > 0 {
        assert contents[copyStart..copyStart + copySize] == Share(current, contents, start, end);
        Accumulate(contents[copyStart..copyStart + copySize]);
      } else {
        assert Share(current, contents, start, end) == [];
      }
    }

    /** The copy overwrites the last byte of the old memory, and the terminator goes one past the new last. */
    method Keep(kept: seq<Byte>)
      requires 1 <= size && memory.Length == size + |kept| + 1
      modifies this`size, memory
      ensures size == old(size) + |kept| && memory[..size - 1] == old(memory[..size - 1]) + kept
    {
      CopyInto(memory, size - 1, kept);
      assert memory[..size - 1 + |kept|] == old(memory[..size - 1]) + kept;
      size := size + |kept|;
      memory[size] := 0;
    }
  }

  /** However the stream is cut into chunks, the bytes kept are its window. */
  method Download(chunks: seq<seq<Byte>>, start: nat, end: nat) returns (kept: seq<Byte>)
    requires start <= end < WORD && |Concat(chunks)| < WORD
    ensures kept == Window(Concat(chunks), start, end)
  {
    var mem := new MemoryChunk(start, end);
    assert chunks[..0] == [];
    for i := 0 to |chunks|
      invariant fresh(mem) && fresh(mem.memory) && mem.Valid() && mem.start == start && mem.end == end
      invariant mem.received == Concat(chunks[..i])
    {
      ConcatPrefix(chunks, i + 1);
      assert chunks[..i + 1][..i] == chunks[..i];
      var n := mem.WriteMemoryRangeCallback(chunks[i]);
    }
    assert chunks[..|chunks|] == chunks;
    kept := mem.memory[..mem.size - 1];
  }

  lemma {:induction false} ConcatPrefix(chunks: seq<seq<Byte>>, i: nat)
    requires i <= |chunks|
    ensures |Concat(chunks[..i])| <= |Concat(chunks)|
    decreases |chunks|
  {
    if i < |chunks| {
      ConcatPrefix(chunks[..|chunks| - 1], i);
      assert chunks[..|chunks| - 1][..i] == chunks[..i];
    } else {
      assert chunks[..i] == chunks;
    }
  }
}

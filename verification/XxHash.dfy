/** xxHash, 32- and 64-bit: the one-shot functions and the buffered incremental state, proved to
    compute the same hash for every way of cutting the input. */
module XxHash {
  import opened Arith
  import opened Bytes

  datatype Width = W32 | W64
  {
    /** Bytes of a word and of a stripe of four words. */
    function Word(): nat { if W32? then 4 else 8 }
    function Stripe(): nat { if W32? then 16 else 32 }
    function Modulus(): nat { if W32? then 0x1_0000_0000 else 0x1_0000_0000_0000_0000 }
    function Bits(): nat { if W32? then 32 else 64 }

    function Prime(i: nat): nat
      requires 1 <= i <= 5
    {
      if W32? then [2654435761, 2246822519, 3266489917, 668265263, 374761393][i - 1]
      else [11400714785074694791, 14029467366897019727, 1609587929392839161,
            9650029242287828579, 2870177450012600261][i - 1]
    }
  }

  // ---------------------------------------------------------------- machine arithmetic

  function Wrap(w: Width, n: nat): nat { n % w.Modulus() }

  function Mul(w: Width, a: nat, b: nat): nat { Wrap(w, a * b) }

  function Add(w: Width, a: nat, b: nat): nat { Wrap(w, a + b) }

  function Sub(w: Width, a: nat, b: nat): nat
    requires b <= w.Modulus()
  {
    Wrap(w, a + (w.Modulus() - b))
  }

  function Xor(w: Width, a: nat, b: nat): nat { XorBits(a, b, w.Bits()) }

  function Rotl(w: Width, a: nat, r: nat): nat
    requires r <= w.Bits()
  {
    Wrap(w, a * Pow2(r)) + Shr(a, w.Bits() - r)
  }

  // ---------------------------------------------------------------- the algorithm

  datatype Lanes = Lanes(v1: nat, v2: nat, v3: nat, v4: nat)

  function Round(w: Width, acc: nat, input: nat): nat
  {
    var r := if w.W32? then 13 else 31;
    Mul(w, Rotl(w, Add(w, acc, Mul(w, input, w.Prime(2))), r), w.Prime(1))
  }

  function MergeRound(acc: nat, val: nat): nat
  {
    Add(W64, Mul(W64, Xor(W64, acc, Round(W64, 0, val)), W64.Prime(1)), W64.Prime(4))
  }

  function InitialLanes(w: Width, seed: nat): Lanes
  {
    Lanes(Add(w, Add(w, seed, w.Prime(1)), w.Prime(2)), Add(w, seed, w.Prime(2)), Wrap(w, seed),
          Sub(w, seed, w.Prime(1)))
  }

  /** One stripe: each lane takes one word. */
  function TakeStripe(w: Width, l: Lanes, s: seq<Byte>): Lanes
    requires |s| == w.Stripe()
  {
    var k := w.Word();
    Lanes(Round(w, l.v1, FromLe(s[..k])), Round(w, l.v2, FromLe(s[k..2 * k])),
          Round(w, l.v3, FromLe(s[2 * k..3 * k])), Round(w, l.v4, FromLe(s[3 * k..])))
  }

  /** All whole stripes of `s`. */
  function TakeStripes(w: Width, l: Lanes, s: seq<Byte>): Lanes
    decreases |s|
  {
    if |s| < w.Stripe() then l
    else TakeStripes(w, TakeStripe(w, l, s[..w.Stripe()]), s[w.Stripe()..])
  }

  /** What is left of `s` after its whole stripes. */
  function Leftover(w: Width, s: seq<Byte>): (t: seq<Byte>)
    ensures |t| < w.Stripe()
    decreases |s|
  {
    if |s| < w.Stripe() then s else Leftover(w, s[w.Stripe()..])
  }

  function Converge(w: Width, l: Lanes): nat
  {
    var h := Add(w, Add(w, Add(w, Rotl(w, l.v1, 1), Rotl(w, l.v2, 7)), Rotl(w, l.v3, 12)), Rotl(w, l.v4, 18));
    if w.W32? then h else MergeRound(MergeRound(MergeRound(MergeRound(h, l.v1), l.v2), l.v3), l.v4)
  }

  /** The remaining input: words, then (64-bit only) one half word, then bytes. */
  function FinishWords(w: Width, h: nat, t: seq<Byte>): nat
    decreases |t|
  {
    if |t| < w.Word() then FinishHalf(w, h, t)
    else FinishWords(w, MixWord(w, h, FromLe(t[..w.Word()])), t[w.Word()..])
  }

  function MixWord(w: Width, h: nat, word: nat): nat
  {
    if w.W32? then Mul(w, Rotl(w, Add(w, h, Mul(w, word, w.Prime(3))), 17), w.Prime(4))
    else Add(w, Mul(w, Rotl(w, Xor(w, h, Round(w, 0, word)), 27), w.Prime(1)), w.Prime(4))
  }

  function FinishHalf(w: Width, h: nat, t: seq<Byte>): nat
  {
    if w.W64? && |t| >= 4 then FinishBytes(w, MixHalf(h, FromLe(t[..4])), t[4..])
    else FinishBytes(w, h, t)
  }

  function MixHalf(h: nat, half: nat): nat
  {
    Add(W64, Mul(W64, Rotl(W64, Xor(W64, h, Mul(W64, half, W64.Prime(1))), 23), W64.Prime(2)), W64.Prime(3))
  }

  function FinishBytes(w: Width, h: nat, t: seq<Byte>): nat
    decreases |t|
  {
    if t == [] then h else FinishBytes(w, MixByte(w, h, t[0]), t[1..])
  }

  function MixByte(w: Width, h: nat, b: Byte): nat
  {
    var x := Mul(w, b, w.Prime(5));
    Mul(w, Rotl(w, if w.W32? then Add(w, h, x) else Xor(w, h, x), 11), w.Prime(1))
  }

  function Avalanche(w: Width, h: nat): nat
  {
    var s := if w.W32? then [15, 13, 16] else [33, 29, 32];
    var h1 := Mul(w, Xor(w, h, Shr(h, s[0])), w.Prime(2));
    var h2 := Mul(w, Xor(w, h1, Shr(h1, s[1])), w.Prime(3));
    Xor(w, h2, Shr(h2, s[2]))
  }

  /** Everything after the stripes. */
  function Finalize(w: Width, large: bool, l: Lanes, length: nat, t: seq<Byte>): nat
  {
    var h := if large then Converge(w, l) else Add(w, l.v3, w.Prime(5));
    Avalanche(w, FinishWords(w, Add(w, h, length), t))
  }

  /** The hash of `data`, as the algorithm is described. */
  function Hash(w: Width, data: seq<Byte>, seed: nat): nat
  {
    Finalize(w, |data| >= w.Stripe(), TakeStripes(w, InitialLanes(w, seed), data), Wrap(w, |data|), Leftover(w, data))
  }

  // ---------------------------------------------------------------- cutting the input

  predicate Whole(w: Width, s: seq<Byte>)
    decreases |s|
  {
    s == [] || (|s| >= w.Stripe() && Whole(w, s[w.Stripe()..]))
  }

  /** Whole stripes in front can be taken first. */
  lemma {:induction false} StripesAppend(w: Width, l: Lanes, a: seq<Byte>, b: seq<Byte>)
    requires Whole(w, a)
    ensures TakeStripes(w, l, a + b) == TakeStripes(w, TakeStripes(w, l, a), b)
    ensures Leftover(w, a + b) == Leftover(w, b)
    decreases |a|
  {
    hide TakeStripe;
    if a == [] {
      assert a + b == b;
    } else {
      var k := w.Stripe();
      assert (a + b)[..k] == a[..k] && (a + b)[k..] == a[k..] + b;
      StripesAppend(w, TakeStripe(w, l, a[..k]), a[k..], b);
    }
  }

  lemma {:induction false} WholeAppend(w: Width, a: seq<Byte>, s: seq<Byte>)
    requires Whole(w, a) && |s| == w.Stripe()
    ensures Whole(w, a + s)
    decreases |a|
  {
    var k := w.Stripe();
    if a == [] {
      assert a + s == s && s[k..] == [];
    } else {
      assert (a + s)[k..] == a[k..] + s;
      WholeAppend(w, a[k..], s);
    }
  }

  /** Taking the next stripe. */
  lemma NextStripe(w: Width, seed: nat, head: seq<Byte>, s: seq<Byte>)
    requires Whole(w, head) && |s| == w.Stripe()
    ensures Whole(w, head + s)
    ensures TakeStripes(w, InitialLanes(w, seed), head + s)
         == TakeStripe(w, TakeStripes(w, InitialLanes(w, seed), head), s)
  {
    hide InitialLanes, TakeStripe, Whole;
    WholeAppend(w, head, s);
    StripesAppend(w, InitialLanes(w, seed), head, s);
    assert s[..w.Stripe()] == s && s[w.Stripe()..] == [];
  }

  // ---------------------------------------------------------------- one-shot

  /** The tail loops of the one-shot function and of digest. */
  method Finish(w: Width, h0: nat, t: seq<Byte>) returns (h: nat)
    ensures h == Avalanche(w, FinishWords(w, h0, t))
  {
    hide MixWord, MixByte, MixHalf, Avalanche, FromLe;
    var p := 0;
    h := h0;
    while p + w.Word() <= |t|
      invariant p <= |t| && FinishWords(w, h0, t) == FinishWords(w, h, t[p..])
    {
      assert t[p..][..w.Word()] == t[p..p + w.Word()] && t[p..][w.Word()..] == t[p + w.Word()..];
      h := MixWord(w, h, FromLe(t[p..p + w.Word()]));
      p := p + w.Word();
    }
    if w.W64? && p + 4 <= |t| {
      assert t[p..][..4] == t[p..p + 4] && t[p..][4..] == t[p + 4..];
      h := MixHalf(h, FromLe(t[p..p + 4]));
      p := p + 4;
    }
    while p < |t|
      invariant p <= |t| && FinishWords(w, h0, t) == FinishBytes(w, h, t[p..])
    {
      h := MixByte(w, h, t[p]);
      p := p + 1;
    }
    h := Avalanche(w, h);
  }

  /** XXH32 / XXH64. */
  method OneShot(w: Width, data: seq<Byte>, seed: nat) returns (h: nat)
    ensures h == Hash(w, data, seed)
  {
    hide FinishWords, Avalanche, TakeStripe, InitialLanes, Converge;
    var p := 0;
    var lanes := InitialLanes(w, seed);
    while p + w.Stripe() <= |data|
      invariant p <= |data| && (p == 0 || |data| >= w.Stripe())
      invariant TakeStripes(w, InitialLanes(w, seed), data) == TakeStripes(w, lanes, data[p..])
      invariant Leftover(w, data) == Leftover(w, data[p..])
    {
      assert data[p..][..w.Stripe()] == data[p..p + w.Stripe()] && data[p..][w.Stripe()..] == data[p + w.Stripe()..];
      lanes := TakeStripe(w, lanes, data[p..p + w.Stripe()]);
      p := p + w.Stripe();
    }
    if |data| >= w.Stripe() {
      h := Converge(w, lanes);
    } else {
      h := Add(w, lanes.v3, w.Prime(5));
    }
    h := Finish(w, Add(w, h, Wrap(w, |data|)), data[p..]);
  }

  // ---------------------------------------------------------------- incremental

  /** XXH32_state_t / XXH64_state_t. The 32-bit state keeps its length modulo 2^32 and a flag for
      "at least one stripe"; the 64-bit state keeps only its length modulo 2^64. */
  class State {
    const w: Width
    var totalLen: nat
    var largeLen: bool
    var lanes: Lanes
    const mem: array<Byte>
    var memsize: nat
    ghost var seed: nat
    ghost var head: seq<Byte>

    /** The bytes given so far: whole stripes already taken, and the ones buffered. */
    ghost function Data(): seq<Byte>
      reads this, mem
      requires memsize <= mem.Length
    {
      head + mem[..memsize]
    }

    ghost predicate Valid()
      reads this, mem
    {
      mem.Length == w.Stripe() && memsize < w.Stripe() && Whole(w, head)
      && lanes == TakeStripes(w, InitialLanes(w, seed), head)
      && totalLen == Wrap(w, |Data()|)
      && (w.W32? ==> largeLen == (|Data()| >= w.Stripe()))
    }

    /** XXH32_reset / XXH64_reset on a new state. */
    constructor (w: Width, seed: nat)
      ensures Valid() && Data() == [] && this.w == w && this.seed == seed && fresh(mem)
    {
      this.w, this.seed, this.head := w, seed, [];
      totalLen, largeLen, memsize := 0, false, 0;
      lanes := InitialLanes(w, seed);
      mem := new Byte[w.Stripe()](i => 0);
    }

    /** Fill the buffer with the start of the input and take it as a stripe. */
    method FlushBuffer(input: seq<Byte>) returns (p: nat)
      requires mem.Length == w.Stripe() && memsize < w.Stripe() && memsize + |input| >= w.Stripe()
      requires Whole(w, head) && lanes == TakeStripes(w, InitialLanes(w, seed), head)
      modifies this`lanes, this`memsize, this`head, mem
      ensures memsize == 0 && p == w.Stripe() - old(memsize) && p <= |input|
      ensures Whole(w, head) && lanes == TakeStripes(w, InitialLanes(w, seed), head)
      ensures head == old(Data()) + input[..p]
    {
      hide TakeStripes, Whole, TakeStripe, InitialLanes;
      p := w.Stripe() - memsize;
      forall k | 0 <= k < p { mem[memsize + k] := input[k]; }
      assert mem[..] == old(mem[..memsize]) + input[..p];
      NextStripe(w, seed, head, mem[..]);
      lanes := TakeStripe(w, lanes, mem[..]);
      head := head + mem[..];
      memsize := 0;
    }

    /** Take every whole stripe of the input from `p0` on. */
    method TakeInput(input: seq<Byte>, p0: nat) returns (p: nat)
      requires p0 <= |input| && Whole(w, head) && lanes == TakeStripes(w, InitialLanes(w, seed), head)
      modifies this`lanes, this`head
      ensures p0 <= p <= |input| && |input| - p < w.Stripe()
      ensures Whole(w, head) && lanes == TakeStripes(w, InitialLanes(w, seed), head)
      ensures head == old(head) + input[p0..p]
    {
      hide TakeStripes, Whole, TakeStripe, InitialLanes;
      p := p0;
      while p + w.Stripe() <= |input|
        invariant p0 <= p <= |input|
        invariant Whole(w, head) && lanes == TakeStripes(w, InitialLanes(w, seed), head)
        invariant head == old(head) + input[p0..p]
      {
        var s := input[p..p + w.Stripe()];
        NextStripe(w, seed, head, s);
        lanes := TakeStripe(w, lanes, s);
        head := head + s;
        assert input[p0..p] + s == input[p0..p + w.Stripe()];
        p := p + w.Stripe();
      }
    }

    method AddLength(ghost n: nat, len: nat)
      requires totalLen == Wrap(w, n) && (w.W32? ==> largeLen == (n >= w.Stripe()))
      modifies this`totalLen, this`largeLen
      ensures totalLen == Wrap(w, n + len) && (w.W32? ==> largeLen == (n + len >= w.Stripe()))
    {
      LengthAdds(w, n, len);
      totalLen := Wrap(w, totalLen + Wrap(w, len));
      largeLen := largeLen || len >= w.Stripe() || totalLen >= w.Stripe();
    }

    /** Too little for a stripe: keep it all. */
    method KeepAll(input: seq<Byte>)
      requires memsize + |input| < mem.Length
      modifies this`memsize, mem
      ensures memsize == old(memsize) + |input| && mem[..memsize] == old(mem[..memsize]) + input
    {
      forall k | 0 <= k < |input| { mem[memsize + k] := input[k]; }
      memsize := memsize + |input|;
    }

    /** XXH32_update / XXH64_update. */
    method Update(input: seq<Byte>)
      requires Valid()
      modifies this, mem
      ensures Valid() && Data() == old(Data()) + input && seed == old(seed)
    {
      hide TakeStripes, Whole, InitialLanes, Wrap;
      AddLength(|Data()|, |input|);
      if memsize + |input| < w.Stripe() {
        KeepAll(input);
        return;
      }
      var p := 0;
      if memsize > 0 {
        p := FlushBuffer(input);
      }
      assert head == old(Data()) + input[..p];
      p := TakeInput(input, p);
      assert head == old(Data()) + input[..p];
      StoreRest(input, p);
    }

    method StoreRest(input: seq<Byte>, p: nat)
      requires p <= |input| && |input| - p < w.Stripe() == mem.Length && memsize == 0
      modifies this`memsize, mem
      ensures memsize == |input| - p && mem[..memsize] == input[p..]
    {
      if p < |input| {
        forall k | p <= k < |input| { mem[k - p] := input[k]; }
        memsize := |input| - p;
      }
    }

    /** XXH32_digest / XXH64_digest. The 64-bit state has lost its length once 2^64 bytes are in. */
    method Digest() returns (h: nat)
      requires Valid() && (w.W64? ==> |Data()| < w.Modulus())
      ensures h == Hash(w, Data(), seed)
    {
      hide TakeStripes, FinishWords, Avalanche, Converge, InitialLanes;
      var large := if w.W32? then largeLen else totalLen >= w.Stripe();
      if large {
        h := Converge(w, lanes);
      } else {
        h := Add(w, lanes.v3, w.Prime(5));
      }
      LengthKept(w, |Data()|);
      hide Wrap;
      DataSplit(w, seed, head, mem[..memsize]);
      h := Finish(w, Add(w, h, totalLen), mem[..memsize]);
    }
  }

  lemma LengthAdds(w: Width, n: nat, m: nat)
    ensures Wrap(w, Wrap(w, n) + Wrap(w, m)) == Wrap(w, n + m)
    ensures n + m >= w.Stripe() <==>
            n >= w.Stripe() || m >= w.Stripe() || Wrap(w, Wrap(w, n) + Wrap(w, m)) >= w.Stripe()
  {
    ModAdds(n, m, w.Modulus());
    assert Wrap(w, Wrap(w, n) + Wrap(w, m)) == Wrap(w, n + m);
    if n < w.Stripe() && m < w.Stripe() { LengthKept(w, n + m); }
    hide Wrap;
  }

  lemma LengthKept(w: Width, n: nat)
    ensures n < w.Modulus() ==> Wrap(w, n) == n
  {
  }

  lemma DataSplit(w: Width, seed: nat, head: seq<Byte>, tail: seq<Byte>)
    requires Whole(w, head) && |tail| < w.Stripe()
    ensures TakeStripes(w, InitialLanes(w, seed), head + tail) == TakeStripes(w, InitialLanes(w, seed), head)
    ensures Leftover(w, head + tail) == tail
  {
    StripesAppend(w, InitialLanes(w, seed), head, tail);
  }

  /** Hashing chunk by chunk gives the hash of their concatenation. */
  method Streamed(w: Width, seed: nat, chunks: seq<seq<Byte>>) returns (h: nat)
    requires w.W64? ==> |Concat(chunks)| < w.Modulus()
    ensures h == Hash(w, Concat(chunks), seed)
  {
    var state := new State(w, seed);
    var i := 0;
    while i < |chunks|
      invariant i <= |chunks| && state.Valid() && state.w == w && state.seed == seed
      invariant fresh(state) && fresh(state.mem) && state.Data() == Concat(chunks[..i])
    {
      assert chunks[..i + 1][..i] == chunks[..i];
      state.Update(chunks[i]);
      i := i + 1;
    }
    assert chunks[..i] == chunks;
    h := state.Digest();
  }
}

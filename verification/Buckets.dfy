/** Multiplicative hashing: the top bits of a product by an odd constant, modulo a power of two. Multiplying is
    a bijection, so the words are spread evenly over the buckets. */
module Buckets {
  import opened Arith

  function Times(x: nat, p: nat, m: nat): (y: nat)
    requires m > 0
    ensures y < m
  {
    x * p % m
  }

  /** `q` undoes a multiplication by `p`. */
  predicate Inverse(p: nat, q: nat, m: nat)
    requires m > 0
  {
    p * q % m == 1
  }

  lemma ModTimes(a: nat, b: nat, m: nat)
    requires m > 0
    ensures (a % m) * b % m == a * b % m
  {
    var k, r := a / m, a % m;
    assert a == k * m + r;
    assert a * b == (k * m) * b + r * b == (k * b) * m + r * b;
    var s := r * b;
    assert s == (s / m) * m + s % m;
    assert a * b == (k * b + s / m) * m + s % m;
    ModUnique(a * b, m, k * b + s / m, s % m);
  }

  lemma TimesOne(x: nat, n: nat, m: nat)
    requires m > 0 && n % m == 1 && x < m
    ensures x * n % m == x
  {
    var k := n / m;
    assert n == k * m + 1;
    OneMoreThan(x, n, k, m);
    ModUnique(x * n, m, x * k, x);
  }

  lemma OneMoreThan(x: nat, n: nat, k: nat, m: nat)
    requires n == k * m + 1
    ensures x * n == (x * k) * m + x
  {
    assert x * n == x * (k * m) + x;
  }

  lemma Associate(x: nat, p: nat, q: nat)
    ensures (x * p) * q == x * (p * q)
  {
  }

  /** Multiplying by one and then the other gives the word back. */
  lemma TimesUndone(x: nat, p: nat, q: nat, m: nat)
    requires m > 0 && Inverse(p, q, m) && x < m
    ensures Times(Times(x, p, m), q, m) == x
  {
    TimesTwice(x, p, q, m);
    hide Times;
    Associate(x, p, q);
    TimesOne(x, p * q, m);
  }

  lemma TimesTwice(x: nat, p: nat, q: nat, m: nat)
    requires m > 0
    ensures Times(Times(x, p, m), q, m) == (x * p) * q % m
  {
    ModTimes(x * p, q, m);
  }

  /** The words whose product lies between `lo` and `hi`. */
  ghost function Between(p: nat, m: nat, lo: nat, hi: nat): set<nat>
    requires m > 0
  {
    set x: nat | x < m && lo <= Times(x, p, m) < hi
  }

  /** There are as many as there are products. */
  lemma {:induction false} BetweenSize(p: nat, q: nat, m: nat, lo: nat, hi: nat)
    requires m > 0 && Inverse(p, q, m) && Inverse(q, p, m) && lo <= hi <= m
    ensures |Between(p, m, lo, hi)| == hi - lo
    decreases hi - lo
  {
    if lo == hi {
      assert Between(p, m, lo, hi) == {};
    } else {
      BetweenSize(p, q, m, lo, hi - 1);
      var x := Times(hi - 1, q, m);
      TimesUndone(hi - 1, q, p, m);
      hide Times;
      forall y: nat | y < m && Times(y, p, m) == hi - 1 ensures y == x {
        TimesUndone(y, p, q, m);
      }
      assert Between(p, m, lo, hi) == Between(p, m, lo, hi - 1) + {x};
    }
  }

  /** The words of one bucket: those whose product's top digits, from `width` on, are `h`. */
  ghost function Bucket(p: nat, m: nat, width: nat, h: nat): set<nat>
    requires m > 0 && width > 0
  {
    set x: nat | x < m && Times(x, p, m) / width == h
  }

  /** Every bucket holds as many words. */
  lemma BucketSize(p: nat, q: nat, m: nat, width: nat, h: nat)
    requires m > 0 && Inverse(p, q, m) && Inverse(q, p, m) && width > 0 && h * width + width <= m
    ensures |Bucket(p, m, width, h)| == width
  {
    BetweenSize(p, q, m, h * width, h * width + width);
    forall x: nat | x < m
      ensures Times(x, p, m) / width == h <==> h * width <= Times(x, p, m) < h * width + width
    {
      Quotient(Times(x, p, m), width, h);
    }
    assert Bucket(p, m, width, h) == Between(p, m, h * width, h * width + width);
  }

  lemma Quotient(y: nat, width: nat, h: nat)
    requires width > 0
    ensures y / width == h <==> h * width <= y < h * width + width
  {
    var k := y / width;
    assert y == k * width + y % width;
    if k < h { MulGrows(h - k, width); assert (h - k) * width == h * width - k * width; }
    if k > h { MulGrows(k - h, width); assert (k - h) * width == k * width - h * width; }
  }
}

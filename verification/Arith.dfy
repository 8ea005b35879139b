/** Facts about multiplication and remainders that the solver does not find by itself. */
module Arith {
  const WORD := 0x1_0000_0000

  /** Unsigned 32-bit wrap-around. */
  function Trunc32(x: int): nat { x % WORD }

  lemma TruncBelow(x: nat)
    ensures 0 <= Trunc32(x) <= x && (x < WORD ==> Trunc32(x) == x) && (x >= WORD ==> Trunc32(x) <= x - WORD)
  {
  }

  lemma ModBound(j: nat, m: nat)
    requires m > 0
    ensures 0 <= j % m < m
  {
  }

  lemma {:induction false} MulGrows(d: int, m: nat)
    requires d > 0
    ensures d * m >= m
  {
    if d > 1 {
      MulGrows(d - 1, m);
      assert d * m == (d - 1) * m + m;
    }
  }

  lemma ModAdds(a: nat, b: nat, m: nat)
    requires m > 0
    ensures (a % m + b % m) % m == (a + b) % m
  {
    var s := a % m + b % m;
    var q := a / m + b / m + s / m;
    assert a == (a / m) * m + a % m && b == (b / m) * m + b % m && s == (s / m) * m + s % m;
    assert q * m == (a / m) * m + (b / m) * m + (s / m) * m;
    ModBound(s, m);
    ModUnique(a + b, m, q, s % m);
  }

  /** Quotient and remainder are unique. */
  lemma ModUnique(j: nat, m: nat, q: int, r: nat)
    requires m > 0 && r < m && j == q * m + r
    ensures j % m == r
  {
    var d := j / m - q;
    assert d * m == r - j % m by {
      assert j == (j / m) * m + j % m;
      assert d * m == (j / m) * m - q * m;
    }
    assert (-d) * m == -(d * m);
    if d > 0 { MulGrows(d, m); } else if d < 0 { MulGrows(-d, m); }
  }
}

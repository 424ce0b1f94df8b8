/** Powers of two and floor division, for the constant-divide proof. */
module Arithmetic {

  function Pow2(k: nat): (p: nat)
    ensures p >= 1
  {
    if k == 0 then 1 else 2 * Pow2(k - 1)
  }

  lemma {:induction false} Pow2Add(a: nat, b: nat)
    ensures Pow2(a + b) == Pow2(a) * Pow2(b)
  {
    if b == 0 {
    } else {
      Pow2Add(a, b - 1);
      assert Pow2(a + b) == 2 * (Pow2(a) * Pow2(b - 1));
      MulAssoc(Pow2(a), 2, Pow2(b - 1));
      MulAssoc(2, Pow2(a), Pow2(b - 1));
    }
  }

  lemma {:induction false} Pow2Mono(a: nat, b: nat)
    requires a <= b
    ensures Pow2(a) <= Pow2(b)
  {
    if a < b {
      Pow2Mono(a, b - 1);
    }
  }

  lemma Pow2Less(a: nat, b: nat)
    requires a < b
    ensures 2 * Pow2(a) <= Pow2(b)
  {
    Pow2Mono(a + 1, b);
  }

  lemma Pow2Byte(k: nat)
    ensures Pow2(k + 8) == 256 * Pow2(k)
  {
    assert Pow2(k + 4) == 16 * Pow2(k) by {
      assert Pow2(k + 2) == 4 * Pow2(k);
    }
    assert Pow2(k + 8) == 16 * Pow2(k + 4) by {
      assert Pow2(k + 6) == 4 * Pow2(k + 4);
    }
  }

  lemma Pow2Consts32()
    ensures Pow2(31) == 0x8000_0000 && Pow2(32) == 0x1_0000_0000
  {
    Pow2Byte(0);
    Pow2Byte(8);
    Pow2Byte(16);
    Pow2Byte(24);
    assert Pow2(32) == 2 * Pow2(31);
  }

  lemma Pow2Consts64()
    ensures Pow2(63) == 0x8000_0000_0000_0000 && Pow2(64) == 0x1_0000_0000_0000_0000
  {
    Pow2Consts32();
    Pow2Byte(32);
    Pow2Byte(40);
    Pow2Byte(48);
    Pow2Byte(56);
    assert Pow2(64) == 2 * Pow2(63);
  }

  lemma MulAssoc(a: int, b: int, c: int)
    ensures a * b * c == a * (b * c)
  {
  }

  lemma MulMono(a: int, b: int, c: int)
    requires a <= b && c >= 0
    ensures a * c <= b * c
  {
  }

  lemma MulMonoStrict(a: int, b: int, c: int)
    requires a < b && c > 0
    ensures a * c + c <= b * c
  {
    MulMono(a + 1, b, c);
    assert (a + 1) * c == a * c + c;
  }

  /** The quotient is the only number that brackets `x`. */
  lemma DivIs(x: int, d: int, q: int)
    requires d > 0 && q * d <= x < q * d + d
    ensures x / d == q && x % d == x - q * d
  {
    var q' := x / d;
    assert x == q' * d + x % d;
    if q' < q {
      MulMonoStrict(q', q, d);
    } else if q < q' {
      MulMonoStrict(q, q', d);
    }
  }

  lemma DivBounds(x: int, d: int)
    requires d > 0
    ensures x / d * d <= x < x / d * d + d && x % d == x - x / d * d
  {
  }

  lemma DivDiv(x: int, a: int, b: int)
    requires a > 0 && b > 0
    ensures a * b > 0 && (x / a) / b == x / (a * b)
  {
    var q := x / a;
    var s := q / b;
    assert a * b > 0;
    DivBounds(x, a);
    DivBounds(q, b);
    MulMono(s * b, q, a);
    MulMono(q + 1, s * b + b, a);
    assert s * b * a == s * (a * b);
    assert (s * b + b) * a == s * (a * b) + a * b;
    assert (q + 1) * a == q * a + a;
    DivIs(x, a * b, s);
  }

  lemma DivMono(x: int, y: int, d: int)
    requires d > 0 && x <= y
    ensures x / d <= y / d
  {
    DivBounds(x, d);
    DivBounds(y, d);
    if y / d < x / d {
      MulMonoStrict(y / d, x / d, d);
    }
  }

  /** A multiple of the divisor passes through the division. */
  lemma DivShift(x: int, k: int, d: int)
    requires d > 0
    ensures (x + k * d) / d == x / d + k
  {
    DivBounds(x, d);
    assert (x / d + k) * d == x / d * d + k * d;
    DivIs(x + k * d, d, x / d + k);
  }

  /** `trailing_zeros`, and the odd number left after shifting them out. */
  function TrailingZeros(x: nat): (k: nat)
    requires x > 0
    ensures x % Pow2(k) == 0 && Pow2(k) <= x && x == Pow2(k) * (x / Pow2(k))
    ensures (x / Pow2(k)) % 2 == 1
    ensures k == 0 <==> x % 2 == 1
  {
    if x % 2 == 1 then 0
    else
      var k := TrailingZeros(x / 2) + 1;
      HalvingKeepsOdd(x, k);
      k
  }

  lemma HalvingKeepsOdd(x: nat, k: nat)
    requires x % 2 == 0 && x > 0 && k >= 1
    requires (x / 2) == Pow2(k - 1) * ((x / 2) / Pow2(k - 1))
    ensures x / Pow2(k) == (x / 2) / Pow2(k - 1) && x % Pow2(k) == 0 && Pow2(k) * (x / Pow2(k)) == x
  {
    var o := (x / 2) / Pow2(k - 1);
    assert x == 2 * (Pow2(k - 1) * o) == Pow2(k) * o by {
      MulAssoc(2, Pow2(k - 1), o);
    }
    assert o * Pow2(k) == x;
    DivIs(x, Pow2(k), o);
  }

  /** `is_power_of_two` */
  predicate IsPow2(x: nat) {
    x > 0 && Pow2(TrailingZeros(x)) == x
  }

  lemma {:induction false} Pow2IsPow2(k: nat)
    ensures IsPow2(Pow2(k)) && TrailingZeros(Pow2(k)) == k
  {
    if k > 0 {
      Pow2IsPow2(k - 1);
      assert Pow2(k) / 2 == Pow2(k - 1);
    }
  }

  lemma OddTimesOdd(d: nat, m: nat)
    requires d % 2 == 1 && m % 2 == 1
    ensures d * m % 2 == 1
  {
    var a, b := d / 2, m / 2;
    assert d == 2 * a + 1 && m == 2 * b + 1;
    assert d * m == 2 * (2 * (a * b) + a + b) + 1;
  }

  /** Only powers of two divide a power of two. */
  lemma {:induction false} DivisorOfPow2(d: nat, m: nat, p: nat)
    requires d * m == Pow2(p)
    ensures IsPow2(d)
  {
    if p == 0 {
      assert d == 1 by {
        if d >= 2 && m >= 1 {
          MulMono(2, d, m);
        }
      }
      Pow2IsPow2(0);
    } else if d % 2 == 0 {
      var half := d / 2;
      assert half * m == Pow2(p - 1) by {
        assert d == 2 * half;
        MulAssoc(2, half, m);
      }
      DivisorOfPow2(half, m, p - 1);
      Pow2IsPow2(TrailingZeros(half) + 1);
    } else {
      assert m % 2 == 0 by {
        if m % 2 == 1 {
          OddTimesOdd(d, m);
        }
      }
      var half := m / 2;
      assert d * half == Pow2(p - 1) by {
        assert m == 2 * half;
        assert d * m == 2 * (d * half);
      }
      DivisorOfPow2(d, half, p - 1);
    }
  }

  /** A number that is no power of two lies strictly between two of them. */
  lemma Bracket(d: nat) returns (l: nat)
    requires d >= 3 && !IsPow2(d)
    ensures l >= 2 && Pow2(l - 1) < d < Pow2(l)
  {
    l := BracketFrom(d, 2);
    if Pow2(l) == d {
      Pow2IsPow2(l);
    }
  }

  lemma {:induction false} BracketFrom(d: nat, from: nat) returns (l: nat)
    requires from >= 1 && Pow2(from - 1) < d
    ensures l >= from && Pow2(l - 1) < d <= Pow2(l)
    decreases d - Pow2(from - 1)
  {
    if d <= Pow2(from) {
      l := from;
    } else {
      l := BracketFrom(d, from + 1);
    }
  }
}

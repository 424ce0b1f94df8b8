/** The reciprocal search of `src/c5/codegen/magic.rs`: `search`,
    `magic_unsigned` and `magic_signed`, and why the multipliers are exact. */
module Magic {
  import opened Arithmetic

  /** The largest in-range numerator congruent to -1, and whether its bound is strict. */
  datatype Bound = Bound(nc: int, strict: bool)

  function WorstCase(nmax: int, d: int): int
    requires d > 0
  {
    nmax - (nmax + 1) % d
  }

  function CeilDiv(x: nat, d: nat): nat
    requires d > 0
  {
    (x + d - 1) / d
  }

  /** `m * d - 2^p` for the multiplier `m` tried at `p`. */
  function Excess(d: nat, p: nat): int
    requires d > 0
  {
    CeilDiv(Pow2(p), d) * d - Pow2(p)
  }

  /** The test `search` makes at `p`. */
  predicate Fits(d: nat, bounds: seq<Bound>, p: nat)
    requires d > 0
  {
    forall i :: 0 <= i < |bounds| ==>
      var b := bounds[i];
      if b.strict then Excess(d, p) * b.nc < Pow2(p) else Excess(d, p) * b.nc <= Pow2(p)
  }

  /** The smallest shift from `p` on that fits; `stop` if none below it does. */
  function FirstFit(d: nat, bounds: seq<Bound>, p: nat, stop: nat): (r: nat)
    requires d > 0 && p <= stop
    ensures p <= r <= stop && (r < stop ==> Fits(d, bounds, r))
    ensures forall k :: p <= k < r ==> !Fits(d, bounds, k)
    decreases stop - p
  {
    if p == stop || Fits(d, bounds, p) then p else FirstFit(d, bounds, p + 1, stop)
  }

  lemma CeilDivBounds(x: nat, d: nat)
    requires d > 0
    ensures var m := CeilDiv(x, d); x <= m * d <= x + d - 1
  {
    DivBounds(x + d - 1, d);
  }

  lemma CeilDivMono(x: nat, y: nat, d: nat)
    requires d > 0 && x <= y
    ensures CeilDiv(x, d) <= CeilDiv(y, d)
  {
    DivMono(x + d - 1, y + d - 1, d);
  }

  // ----- Exactness of the reciprocal

  lemma WorstCaseIs(nmax: int, d: int, n: int)
    requires d > 0 && 0 <= n <= nmax
    ensures WorstCase(nmax, d) % d == d - 1 && nmax < WorstCase(nmax, d) + d
    ensures n % d == d - 1 ==> n <= WorstCase(nmax, d)
    ensures d <= nmax + 1 ==> WorstCase(nmax, d) >= d - 1
  {
    var nc := WorstCase(nmax, d);
    var q := (nmax + 1) / d;
    DivBounds(nmax + 1, d);
    assert nc + 1 == q * d;
    assert (q - 1) * d == q * d - d;
    DivIs(nc, d, q - 1);
    if n % d == d - 1 {
      DivBounds(n, d);
      var k := n / d + 1;
      assert k * d == n / d * d + d;
      if q < k {
        MulMonoStrict(q, k, d);
      } else {
        MulMono(k, q, d);
      }
    }
    if d <= nmax + 1 {
      if q < 1 {
        MulMono(q, 0, d);
      } else {
        MulMono(1, q, d);
      }
    }
  }

  /** The error of the approximation stays below what the residue leaves room for. */
  lemma ErrorBelow(d: int, nmax: int, e: int, n: int, pow: int, slack: int)
    requires 2 <= d <= nmax + 1 && 0 <= n <= nmax && 0 <= e && pow > 0 && 0 <= slack <= 1
    requires e * WorstCase(nmax, d) + slack <= pow
    ensures e * n + slack <= (d - n % d) * pow
  {
    var nc, r := WorstCase(nmax, d), n % d;
    WorstCaseIs(nmax, d, n);
    if r == d - 1 {
      MulMono(n, nc, e);
    } else {
      MulMono(n, nc + (d - 1), e);
      MulMono(d - 1, nc, e);
      assert (nc + (d - 1)) * e == nc * e + (d - 1) * e;
      MulMono(2, d - r, pow);
    }
  }

  /** `n * m` sits between `n / d` and the next multiple of the power. */
  lemma ProductSplit(d: int, m: int, pow: int, n: int)
    requires d > 0
    ensures var e := m * d - pow; var q, r := n / d, n % d;
            (n * m - q * pow) * d == n * e + r * pow
  {
    var e := m * d - pow;
    var q, r := n / d, n % d;
    DivBounds(n, d);
    assert n * m * d == n * (m * d) by { MulAssoc(n, m, d); }
    assert n * (m * d) == n * pow + n * e;
    assert n * pow == q * d * pow + r * pow;
    assert (n * m - q * pow) * d == n * m * d - q * pow * d;
    assert q * d * pow == q * pow * d;
  }

  lemma ScaleDown(a: int, b: int, d: int)
    requires d > 0 && a * d < b * d
    ensures a < b
  {
    if b <= a {
      MulMono(b, a, d);
    }
  }

  /** Unsigned: the high part of the product is the quotient, for every numerator. */
  lemma ReciprocalExact(d: int, m: int, pow: int, nmax: int, n: int)
    requires 2 <= d <= nmax + 1 && 0 <= n <= nmax && pow > 0 && m * d >= pow
    requires (m * d - pow) * WorstCase(nmax, d) < pow
    ensures n * m / pow == n / d
  {
    var e := m * d - pow;
    var q, r := n / d, n % d;
    ProductSplit(d, m, pow, n);
    ErrorBelow(d, nmax, e, n, pow, 1);
    assert (d - r) * pow == d * pow - r * pow;
    assert (n * m - q * pow) * d < pow * d;
    ScaleDown(n * m - q * pow, pow, d);
    assert r * pow >= 0 && n * e >= 0;
    if n * m - q * pow < 0 {
      MulMono(n * m - q * pow, -1, d);
    }
    DivIs(n * m, pow, q);
  }

  /** Signed, below zero: the floor lands one under the truncated quotient. */
  lemma ReciprocalExactBelow(d: int, m: int, pow: int, nmax: int, a: int)
    requires 2 <= d <= nmax + 1 && 1 <= a <= nmax && pow > 0 && m * d > pow
    requires (m * d - pow) * WorstCase(nmax, d) <= pow
    ensures -a * m / pow == -(a / d) - 1
  {
    var e := m * d - pow;
    var q, r := a / d, a % d;
    ProductSplit(d, m, pow, a);
    ErrorBelow(d, nmax, e, a, pow, 0);
    assert (d - r) * pow == d * pow - r * pow;
    var over := a * m - q * pow;
    assert a * e >= e by { MulMono(1, a, e); }
    assert r * pow >= 0;
    assert 0 < over * d <= pow * d;
    PositiveFactor(over, pow, d);
    FloorBelow(a, m, q, pow, over);
  }

  lemma PositiveFactor(over: int, pow: int, d: int)
    requires d > 0 && 0 < over * d <= pow * d
    ensures 0 < over <= pow
  {
    if over > pow {
      MulMonoStrict(pow, over, d);
    } else if over <= 0 {
      MulMono(over, 0, d);
    }
  }

  lemma FloorBelow(a: int, m: int, q: int, pow: int, over: int)
    requires pow > 0 && a * m == q * pow + over && 0 < over <= pow
    ensures -a * m / pow == -q - 1
  {
    assert -a * m == -(a * m);
    assert (-q - 1) * pow == -(q * pow) - pow;
    DivIs(-a * m, pow, -q - 1);
  }

  // ----- The search succeeds, and how large the multiplier gets

  /** `d` has `l` bits and fits both the register and the range of `bits` bits. */
  ghost predicate Sized(d: nat, w: nat, bits: nat, l: nat) {
    && d >= 3 && l >= 2 && Pow2(l - 1) < d < Pow2(l)
    && 1 <= bits <= w && d <= Pow2(bits) && l <= w - 1
  }

  /** A shift that certainly fits a range of `bits` bits. */
  ghost function SafeShift(w: nat, bits: nat, l: nat): nat {
    if bits + l <= w then w else bits + l
  }

  lemma ProductBelow(e: int, nc: int, d: int, range: int, top: int, pow: int)
    requires 0 <= e < d < top && 0 <= nc <= range && range >= 1 && range * top <= pow
    ensures e * nc < pow
  {
    MulMono(e, d, nc);
    MulMono(nc, range, d);
    MulMonoStrict(d, top, range);
  }

  lemma ErrorAtSafeShift(d: nat, w: nat, bits: nat, l: nat, nmax: int)
    requires Sized(d, w, bits, l) && d - 1 <= nmax <= Pow2(bits)
    ensures var p := SafeShift(w, bits, l); Excess(d, p) * WorstCase(nmax, d) < Pow2(p)
  {
    var p, nc := SafeShift(w, bits, l), WorstCase(nmax, d);
    CeilDivBounds(Pow2(p), d);
    WorstCaseIs(nmax, d, nmax);
    Pow2Add(bits, l);
    Pow2Mono(bits + l, p);
    ProductBelow(Excess(d, p), nc, d, Pow2(bits), Pow2(l), Pow2(p));
  }

  lemma MultiplierBelow(m: int, d: int, half: int, top: int, pow: int)
    requires half < d <= top && half >= 1 && half * top == pow && m * d < pow + d
    ensures m < top
  {
    if m >= top {
      MulMono(top, m, d);
      MulMonoStrict(half, d, top);
    }
  }

  lemma MultiplierAtSafeShift(d: nat, w: nat, bits: nat, l: nat)
    requires Sized(d, w, bits, l)
    ensures var m := CeilDiv(Pow2(SafeShift(w, bits, l)), d); m < Pow2(bits + 1) || m < Pow2(w)
  {
    var p := SafeShift(w, bits, l);
    CeilDivBounds(Pow2(p), d);
    if p == w {
      Pow2Mono(l, w);
      MultiplierBelow(CeilDiv(Pow2(p), d), d, 1, Pow2(w), Pow2(w));
    } else {
      Pow2Add(l - 1, bits + 1);
      assert l - 1 + (bits + 1) == p;
      Pow2Mono(bits, bits + 1);
      MultiplierBelow(CeilDiv(Pow2(p), d), d, Pow2(l - 1), Pow2(bits + 1), Pow2(p));
    }
  }

  function UnsignedBounds(d: nat, bits: nat): seq<Bound>
    requires d > 0
  {
    [Bound(WorstCase(Pow2(bits) - 1, d), true)]
  }

  function SignedBounds(d: nat, w: nat): seq<Bound>
    requires d > 0 && w >= 1
  {
    [Bound(WorstCase(Pow2(w - 1) - 1, d), true), Bound(WorstCase(Pow2(w - 1), d), false)]
  }

  /** What both derivations ask of the divisor. */
  predicate Divisor(d: nat, w: nat) {
    d >= 3 && !IsPow2(d) && w >= 2 && d < Pow2(w - 1)
  }

  lemma UnsignedSearchFits(d: nat, w: nat, bits: nat) returns (p: nat)
    requires Divisor(d, w) && 1 <= bits <= w && d < Pow2(bits)
    ensures w <= p < 2 * w && Fits(d, UnsignedBounds(d, bits), p)
    ensures CeilDiv(Pow2(p), d) < Pow2(bits + 1) || CeilDiv(Pow2(p), d) < Pow2(w)
  {
    var l := Bracket(d);
    if l - 1 >= w - 1 {
      Pow2Mono(w - 1, l - 1);
    }
    p := SafeShift(w, bits, l);
    ErrorAtSafeShift(d, w, bits, l, Pow2(bits) - 1);
    MultiplierAtSafeShift(d, w, bits, l);
  }

  lemma SignedSearchFits(d: nat, w: nat) returns (p: nat)
    requires Divisor(d, w)
    ensures w <= p < 2 * w && Fits(d, SignedBounds(d, w), p)
    ensures CeilDiv(Pow2(p), d) < Pow2(w)
  {
    var l := Bracket(d);
    if l - 1 >= w - 1 {
      Pow2Mono(w - 1, l - 1);
    }
    p := SafeShift(w, w - 1, l);
    ErrorAtSafeShift(d, w, w - 1, l, Pow2(w - 1) - 1);
    ErrorAtSafeShift(d, w, w - 1, l, Pow2(w - 1));
    MultiplierAtSafeShift(d, w, w - 1, l);
  }

  /** The loop of `search`: the smallest fitting shift, or the end of the range,
      where the source has `unreachable!`. */
  method Search(d: nat, w: nat, bounds: seq<Bound>) returns (p: nat, m: nat)
    requires d > 0
    ensures p == FirstFit(d, bounds, w, 2 * w) && m == CeilDiv(Pow2(p), d)
  {
    p := w;
    while p < 2 * w && !Fits(d, bounds, p)
      invariant w <= p <= 2 * w
      invariant FirstFit(d, bounds, p, 2 * w) == FirstFit(d, bounds, w, 2 * w)
    {
      p := p + 1;
    }
    m := CeilDiv(Pow2(p), d);
  }

  /** In the add-back form `m` is the true multiplier less `2^w`. */
  datatype UnsignedMagic = UnsignedMagic(m: int, add: bool, shift: int)

  datatype SignedMagic = SignedMagic(m: int, shift: int)

  function MagicUnsigned(d: nat, w: nat, bits: nat): UnsignedMagic
    requires d > 0
  {
    var p := FirstFit(d, UnsignedBounds(d, bits), w, 2 * w);
    var m := CeilDiv(Pow2(p), d);
    if m < Pow2(w) then UnsignedMagic(m, false, p - w)
    else UnsignedMagic(m - Pow2(w), true, p - w - 1)
  }

  function MagicSigned(d: nat, w: nat): SignedMagic
    requires d > 0 && w >= 1
  {
    var p := FirstFit(d, SignedBounds(d, w), w, 2 * w);
    SignedMagic(CeilDiv(Pow2(p), d), p - w)
  }

  /** `magic_unsigned` never exhausts the search, and its multiplier has `w` bits,
      one more only over the full range. */
  lemma MagicUnsignedShape(d: nat, w: nat, bits: nat)
    requires Divisor(d, w) && 1 <= bits <= w && d < Pow2(bits)
    ensures var mag := MagicUnsigned(d, w, bits);
            && 0 <= mag.m < Pow2(w) && 0 <= mag.shift && mag.shift + w + (if mag.add then 1 else 0) < 2 * w
            && (mag.add ==> bits == w)
  {
    var last := UnsignedSearchFits(d, w, bits);
    var p := FirstFit(d, UnsignedBounds(d, bits), w, 2 * w);
    assert w <= p <= last;
    if bits < w {
      Pow2Mono(bits + 1, w);
    }
    MultiplierMono(d, p, last);
    SmallShiftSmallMultiplier(d, w);
  }

  lemma MultiplierMono(d: nat, p: nat, q: nat)
    requires d > 0 && p <= q
    ensures CeilDiv(Pow2(p), d) <= CeilDiv(Pow2(q), d)
  {
    Pow2Mono(p, q);
    CeilDivMono(Pow2(p), Pow2(q), d);
  }

  /** The true multiplier and the full shift of `magic_unsigned` divide every
      numerator of the range exactly. */
  lemma MagicUnsignedIsExact(d: nat, w: nat, bits: nat, n: nat)
    requires Divisor(d, w) && 1 <= bits <= w && d < Pow2(bits) && n < Pow2(bits)
    ensures var mag := MagicUnsigned(d, w, bits);
            && mag.shift >= 0
            && (mag.add ==> n * (mag.m + Pow2(w)) / Pow2(mag.shift + w + 1) == n / d)
            && (!mag.add ==> n * mag.m / Pow2(mag.shift + w) == n / d)
  {
    MagicUnsignedShape(d, w, bits);
    var p := FirstFit(d, UnsignedBounds(d, bits), w, 2 * w);
    var m := CeilDiv(Pow2(p), d);
    CeilDivBounds(Pow2(p), d);
    assert UnsignedBounds(d, bits)[0] == Bound(WorstCase(Pow2(bits) - 1, d), true);
    ReciprocalExact(d, m, Pow2(p), Pow2(bits) - 1, n);
  }

  lemma SmallShiftSmallMultiplier(d: nat, w: nat)
    requires Divisor(d, w)
    ensures CeilDiv(Pow2(w), d) < Pow2(w)
  {
    CeilDivBounds(Pow2(w), d);
    Pow2Mono(w - 1, w);
    MultiplierBelow(CeilDiv(Pow2(w), d), d, 1, Pow2(w), Pow2(w));
  }

  /** `magic_signed` never exhausts the search, and its multiplier has `w` bits. */
  lemma MagicSignedShape(d: nat, w: nat)
    requires Divisor(d, w)
    ensures var mag := MagicSigned(d, w); 0 <= mag.m < Pow2(w) && 0 <= mag.shift < w
  {
    var last := SignedSearchFits(d, w);
    var p := FirstFit(d, SignedBounds(d, w), w, 2 * w);
    assert p <= last;
    MultiplierMono(d, p, last);
  }

  /** Its floor is the quotient from zero up, and one less than it below. */
  lemma MagicSignedIsExact(d: nat, w: nat, n: int)
    requires Divisor(d, w) && 0 <= n + Pow2(w - 1) && n < Pow2(w - 1)
    ensures var mag := MagicSigned(d, w);
            && mag.shift >= 0
            && (n >= 0 ==> n * mag.m / Pow2(mag.shift + w) == n / d)
            && (n < 0 ==> n * mag.m / Pow2(mag.shift + w) == -(-n / d) - 1)
  {
    MagicSignedShape(d, w);
    var bounds := SignedBounds(d, w);
    var p := FirstFit(d, bounds, w, 2 * w);
    var m := CeilDiv(Pow2(p), d);
    CeilDivBounds(Pow2(p), d);
    assert bounds[0] == Bound(WorstCase(Pow2(w - 1) - 1, d), true);
    assert bounds[1] == Bound(WorstCase(Pow2(w - 1), d), false);
    if n >= 0 {
      ReciprocalExact(d, m, Pow2(p), Pow2(w - 1) - 1, n);
    } else {
      if m * d == Pow2(p) {
        DivisorOfPow2(d, m, p);
      }
      ReciprocalExactBelow(d, m, Pow2(p), Pow2(w - 1), -n);
    }
  }
}

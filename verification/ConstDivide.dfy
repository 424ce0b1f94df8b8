/** Division by a constant as multiplies and shifts: the lowering of
    `src/c5/codegen/magic.rs` and its driver in `passes/divmod_const.rs`,
    over the 64-bit register semantics of `src/c5/ir.rs` and `src/c5/vm/eval.rs`. */
module ConstDivide {
  import opened Options
  import opened Arithmetic
  import opened Magic

  // ----- Registers and operators

  const M64 := 0x1_0000_0000_0000_0000
  const M63 := 0x8000_0000_0000_0000
  const M32 := 0x1_0000_0000

  predicate IsI64(x: int) { -M63 <= x < M63 }

  /** The register that holds `x` modulo `2^64`. Registers are their unsigned reading. */
  function W(x: int): (u: int)
    ensures 0 <= u < M64
  {
    x % M64
  }

  /** The signed reading of a register. */
  function Sgn(u: int): int { if u < M63 then u else u - M64 }

  function BitAnd(a: nat, b: nat): nat {
    if a == 0 || b == 0 then 0 else a % 2 * (b % 2) + 2 * BitAnd(a / 2, b / 2)
  }

  function AddR(l: int, r: int): int { W(l + r) }

  function SubR(l: int, r: int): int { W(l - r) }

  function MulR(l: int, r: int): int { W(l * r) }

  function MulhR(l: int, r: int): int { W(Sgn(l) * Sgn(r) / M64) }

  function MulhuR(l: int, r: int): int { l * r / M64 }

  function ShrR(l: int, r: int): int { W(Sgn(l) / Pow2(r % 64)) }

  function ShruR(l: int, r: int): int { l / Pow2(r % 64) }

  function AndR(l: int, r: int): int { BitAnd(W(l), W(r)) }

  function UgeR(l: int, r: int): int { if l >= r then 1 else 0 }

  /** The trait `DivSink`: whatever receives the operations of a lowering. A lowering
      is generic in `V`, so the operations it asks for cannot depend on the numerator. */
  datatype Sink<!V> = Sink(
    imm: int -> V, add: (V, V) -> V, sub: (V, V) -> V, mul: (V, V) -> V, mulh: (V, V) -> V, mulhu: (V, V) -> V,
    shr: (V, V) -> V, shru: (V, V) -> V, and: (V, V) -> V, uge: (V, V) -> V)

  /** The sink that evaluates as the interpreter does. */
  function Vm(): Sink<int> { Sink(W, AddR, SubR, MulR, MulhR, MulhuR, ShrR, ShruR, AndR, UgeR) }

  // ----- The division being replaced

  datatype DivOp = Div | Mod | Divu | Modu

  function Abs(x: int): nat { if x < 0 then -x else x }

  /** C's quotient: truncated toward zero. */
  function Trunc(n: int, d: int): int
    requires d != 0
  {
    if (n < 0) == (d < 0) then Abs(n) / Abs(d) else -(Abs(n) / Abs(d))
  }

  /** The register the divide instruction leaves for the operands `n` and `d`. */
  function Divide(op: DivOp, n: int, d: int): int
    requires d != 0
  {
    match op
    case Div => W(Trunc(n, d))
    case Mod => W(n - Trunc(n, d) * d)
    case Divu => if W(d) == 0 then 0 else W(n) / W(d)
    case Modu => if W(d) == 0 then 0 else W(n) % W(d)
  }

  /** A register holds the one number below 2^64 that is congruent to the value. */
  lemma RegisterIs(x: int)
    ensures 0 <= W(x) < 18446744073709551616 && (W(x) - x) % 18446744073709551616 == 0
  {
    var q := x / M64;
    assert W(x) - x == 18446744073709551616 * -q;
  }

  /** Smaller than the divisor, and with the numerator's sign if not zero. */
  predicate ProperRemainder(n: int, d: int, r: int) { Abs(r) < Abs(d) && (r > 0 ==> n > 0) && (r < 0 ==> n < 0) }

  /** What the divide leaves, by the identity that defines it. Signed: quotient times
      divisor and remainder make the numerator, the remainder is smaller than the
      divisor and has the numerator's sign. Unsigned: the same of the readings. */
  lemma DivideIs(n: int, d: int) returns (q: int, r: int)
    requires d != 0
    ensures n == q * d + r && ProperRemainder(n, d, r)
    ensures Divide(Div, n, d) == W(q) && Divide(Mod, n, d) == W(r)
    ensures W(d) != 0 ==>
      W(n) == Divide(Divu, n, d) * W(d) + Divide(Modu, n, d) && 0 <= Divide(Modu, n, d) < W(d)
  {
    q, r := Trunc(n, d), n - Trunc(n, d) * d;
    SignedParts(n, d, Abs(n), Abs(d));
    UnsignedIs(n, d);
  }

  lemma SignedParts(n: int, d: int, u: nat, v: nat)
    requires d != 0 && u == Abs(n) && v == Abs(d)
    ensures ProperRemainder(n, d, n - Trunc(n, d) * d)
  {
    DivMod(u, v);
    RemainderSign(n, d, Trunc(n, d), u / v, u % v, u, v);
    SmallAndSigned(n, d, n - Trunc(n, d) * d, u % v, v);
  }

  lemma SmallAndSigned(n: int, d: int, r: int, b: int, v: nat)
    requires v == Abs(d) && 0 <= b < v && b <= Abs(n) && r == if n < 0 then -b else b
    ensures ProperRemainder(n, d, r)
  {
  }

  lemma UnsignedIs(n: int, d: int)
    requires d != 0
    ensures W(d) != 0 ==>
      W(n) == Divide(Divu, n, d) * W(d) + Divide(Modu, n, d) && 0 <= Divide(Modu, n, d) < W(d)
  {
    if W(d) != 0 {
      DivMod(W(n), W(d));
    }
  }

  lemma SignsOut(a: int, v: int)
    ensures a * -v == -(a * v) && -a * v == -(a * v) && -a * -v == a * v
  {
  }

  lemma DivMod(u: nat, v: nat)
    requires v > 0
    ensures u / v * v + u % v == u && 0 <= u % v < v && u % v <= u
  {
  }

  lemma SignedProduct(neg: bool, d: int, t: int, a: int, v: int)
    requires d == v || d == -v
    requires t == if neg == (d == -v) then a else -a
    requires v > 0
    ensures t * d == if neg then -(a * v) else a * v
  {
    SignsOut(a, v);
    if d == v {
      assert t * d == t * v;
    } else {
      assert t * d == t * -v;
    }
  }

  /** With the product of the magnitudes named, the rest is linear. */
  lemma RemainderIs(n: int, u: int, p: int, b: int, td: int)
    requires n == u || n == -u
    requires u >= 0 && p + b == u && b >= 0 && td == if n < 0 then -p else p
    ensures n - td == if n < 0 then -b else b
  {
  }

  lemma RemainderSign(n: int, d: int, t: int, a: int, b: int, u: int, v: int)
    requires v > 0 && (d == v || d == -v) && u >= 0 && (n == u || n == -u)
    requires t == (if (n < 0) == (d == -v) then a else -a) && a * v + b == u && 0 <= b < v
    ensures n - t * d == if n < 0 then -b else b
  {
    SignedProduct(n < 0, d, t, a, v);
    RemainderIs(n, u, a * v, b, t * d);
  }

  // ----- The lowering

  function ShiftRightU<V>(s: Sink<V>, v: V, k: int): V {
    if k == 0 then v else s.shru(v, s.imm(k))
  }

  function ShiftRightS<V>(s: Sink<V>, v: V, k: int): V {
    if k == 0 then v else s.shr(v, s.imm(k))
  }

  function MulHigh<V>(s: Sink<V>, n: V, m: int, w: nat, extra: int): V {
    if w == 64 then ShiftRightU(s, s.mulhu(n, s.imm(m)), extra)
    else s.shru(s.mul(n, s.imm(m)), s.imm(32 + extra))
  }

  /** Recovers `floor(n * m / 2^w)` from a multiplier that is short by `2^w`. */
  function AddBack<V>(s: Sink<V>, n: V, t: V, shift: int): V {
    ShiftRightU(s, s.add(s.shru(s.sub(n, t), s.imm(1)), t), shift)
  }

  /** Multiply high and shift, with the add-back fix-up for a long multiplier. */
  function ReciprocalSteps<V>(s: Sink<V>, n: V, mag: UnsignedMagic, w: nat): V {
    if !mag.add then MulHigh(s, n, mag.m, w, mag.shift)
    else AddBack(s, n, MulHigh(s, n, mag.m, w, 0), mag.shift)
  }

  function PreShiftSteps<V>(s: Sink<V>, n: V, tz: int, odd: UnsignedMagic, w: nat): V {
    MulHigh(s, s.shru(n, s.imm(tz)), odd.m, w, odd.shift)
  }

  function UdivMagic<V>(s: Sink<V>, n: V, d: nat, w: nat, bits: nat): V
    requires d > 0
  {
    if bits < w then
      var mag := MagicUnsigned(d, w, bits);
      MulHigh(s, n, mag.m, w, mag.shift)
    else
      var tz := TrailingZeros(d);
      if 0 < tz < w && !MagicUnsigned(d / Pow2(tz), w, w - tz).add then
        PreShiftSteps(s, n, tz, MagicUnsigned(d / Pow2(tz), w, w - tz), w)
      else
        ReciprocalSteps(s, n, MagicUnsigned(d, w, w), w)
  }

  function SdivFloor<V>(s: Sink<V>, n: V, mag: SignedMagic, w: nat): V {
    if w == 64 then
      var hi := s.mulh(n, s.imm(mag.m));
      ShiftRightS(s, if mag.m >= M63 then s.add(hi, n) else hi, mag.shift)
    else
      s.shr(s.mul(n, s.imm(mag.m)), s.imm(32 + mag.shift))
  }

  function SdivMagic<V>(s: Sink<V>, n: V, d: nat, w: nat): V
    requires d > 0 && w >= 1
  {
    var q0 := SdivFloor(s, n, MagicSigned(d, w), w);
    s.add(q0, s.shru(q0, s.imm(63)))
  }

  /** `2^k - 1` below zero and 0 from zero up. */
  function Pow2Bias<V>(s: Sink<V>, n: V, k: nat, w: nat): V {
    s.shru(if k + w <= 65 then n else s.shr(n, s.imm(63)), s.imm(64 - k))
  }

  function Negate<V>(s: Sink<V>, v: V): V { s.sub(s.imm(0), v) }

  /** `lower_udivmod` for a non-zero divisor. */
  function LowerUdivmod<V>(s: Sink<V>, rem: bool, n: V, du: nat, w: nat, bits: nat): V
    requires du > 0 && w >= 1
  {
    if du == 1 then (if rem then s.imm(0) else n)
    else if bits < 64 && du / Pow2(bits) != 0 then (if rem then n else s.imm(0))
    else if IsPow2(du) then
      if rem then s.and(n, s.imm(du - 1)) else s.shru(n, s.imm(TrailingZeros(du)))
    else UdivmodSteps(s, rem, n, du, w, bits)
  }

  /** A compare above `2^(w-1)`, a reciprocal below; then the remainder if wanted. */
  function UdivmodSteps<V>(s: Sink<V>, rem: bool, n: V, du: nat, w: nat, bits: nat): V
    requires du > 0 && w >= 1
  {
    var q := UdivQuotient(s, n, du, w, bits);
    if rem then s.sub(n, s.mul(q, s.imm(du))) else q
  }

  function UdivQuotient<V>(s: Sink<V>, n: V, du: nat, w: nat, bits: nat): V
    requires du > 0 && w >= 1
  {
    if du > Pow2(w - 1) then s.uge(n, s.imm(du)) else UdivMagic(s, n, du, w, bits)
  }

  /** The signed half of `lower_divmod` for a non-zero divisor. */
  function LowerSigned<V>(s: Sink<V>, rem: bool, n: V, d: int, w: nat): V
    requires d != 0 && w >= 1
  {
    var ad := Abs(d);
    if ad == 1 then
      if rem then s.imm(0) else if d < 0 then Negate(s, n) else n
    else if IsPow2(ad) then
      SignedPow2Steps(s, rem, d < 0, n, TrailingZeros(ad), w)
    else
      SignedMagicSteps(s, rem, n, d, w)
  }

  /** Bias, then shift or mask; the remainder ignores the divisor's sign. */
  function SignedPow2Steps<V>(s: Sink<V>, rem: bool, neg: bool, n: V, k: nat, w: nat): V {
    var bias := Pow2Bias(s, n, k, w);
    var adj := s.add(n, bias);
    if rem then s.sub(s.and(adj, s.imm(Pow2(k) - 1)), bias)
    else if neg then Negate(s, s.shr(adj, s.imm(k))) else s.shr(adj, s.imm(k))
  }

  function SignedMagicSteps<V>(s: Sink<V>, rem: bool, n: V, d: int, w: nat): V
    requires d != 0 && w >= 1
  {
    var q := SignedQuotient(s, n, d, w);
    if rem then s.sub(n, s.mul(q, s.imm(d))) else q
  }

  function SignedQuotient<V>(s: Sink<V>, n: V, d: int, w: nat): V
    requires d != 0 && w >= 1
  {
    var q := SdivMagic(s, n, Abs(d), w);
    if d < 0 then Negate(s, q) else q
  }

  /** `lower_divmod`; `None` for a zero divisor. */
  function LowerDivmod<V>(s: Sink<V>, op: DivOp, n: V, d: int, w: nat): Option<V>
    requires w >= 1
  {
    if op.Divu? || op.Modu? then
      var du := if w == 64 then W(d) else W(d) % M32;
      if du == 0 then None else Some(LowerUdivmod(s, op.Modu?, n, du, w, w))
    else if d == 0 then None
    else Some(LowerSigned(s, op.Mod?, n, d, w))
  }

  // ----- Register facts

  lemma WKept(x: int)
    ensures 0 <= x < M64 ==> W(x) == x
    ensures IsI64(x) ==> Sgn(W(x)) == x
  {
  }

  lemma WSame(x: int, k: int)
    ensures W(x + k * M64) == W(x)
  {
    DivShift(x, k, M64);
    DivBounds(x, M64);
    DivBounds(x + k * M64, M64);
  }

  lemma WAdd(a: int, b: int)
    ensures AddR(W(a), W(b)) == W(a + b)
  {
    var k := -(a / M64) - b / M64;
    DivBounds(a, M64);
    DivBounds(b, M64);
    assert W(a) + W(b) == a + b + k * M64;
    WSame(a + b, k);
  }

  lemma WSub(a: int, b: int)
    ensures SubR(W(a), W(b)) == W(a - b)
  {
    var k := b / M64 - a / M64;
    DivBounds(a, M64);
    DivBounds(b, M64);
    assert W(a) - W(b) == a - b + k * M64;
    WSame(a - b, k);
  }

  lemma WMul(a: int, b: int)
    ensures MulR(W(a), W(b)) == W(a * b)
  {
    var i, j := a / M64, b / M64;
    DivBounds(a, M64);
    DivBounds(b, M64);
    var k := -(W(a) * j) - W(b) * i - i * j * M64;
    assert W(a) * W(b) == a * b + k * M64 by {
      assert a == W(a) + i * M64 && b == W(b) + j * M64;
      assert a * b == W(a) * W(b) + W(a) * j * M64 + W(b) * i * M64 + i * j * M64 * M64;
    }
    WSame(a * b, k);
  }

  lemma WideConsts()
    ensures Pow2(64) == M64 && Pow2(63) == M63 && Pow2(32) == M32 && Pow2(31) == 0x8000_0000
  {
    Pow2Consts32();
    Pow2Consts64();
  }

  lemma WordFits(u: int, w: nat)
    requires (w == 32 || w == 64) && u < Pow2(w)
    ensures u < M64
  {
    WideConsts();
  }

  lemma ProductInRange(u: int, m: int, a: int, b: int)
    requires 0 <= u < a && 0 <= m < b
    ensures 0 <= u * m < a * b
  {
    MulMono(u, a, m);
    MulMonoStrict(m, b, a);
  }

  lemma DivIsBelow(x: int, d: int, b: int)
    requires d > 0 && 0 <= x < b * d
    ensures 0 <= x / d < b
  {
    DivBounds(x, d);
    if x / d >= b {
      MulMono(b, x / d, d);
    } else if x / d < 0 {
      MulMono(x / d, -1, d);
    }
  }

  lemma SmallCount(k: int)
    requires 0 <= k < 64
    ensures W(k) % 64 == k
  {
  }

  lemma DivShrinks(u: int, pow: int)
    requires 0 <= u && pow >= 1
    ensures 0 <= u / pow <= u
  {
    DivBounds(u, pow);
    if u / pow < 0 {
      MulMono(u / pow, -1, pow);
    } else {
      MulMono(1, pow, u / pow);
    }
  }

  lemma ShruIs(u: int, k: int)
    requires 0 <= u < M64 && 0 <= k < 64
    ensures ShruR(u, W(k)) == u / Pow2(k) && 0 <= u / Pow2(k) <= u
  {
    SmallCount(k);
    DivShrinks(u, Pow2(k));
  }

  lemma ShiftRightUIs(u: int, k: int)
    requires 0 <= u < M64 && 0 <= k < 64
    ensures ShiftRightU(Vm(), u, k) == u / Pow2(k)
  {
    ShruIs(u, k);
  }

  lemma DivStaysI64(n: int, pow: int)
    requires IsI64(n) && pow >= 1
    ensures IsI64(n / pow)
  {
    DivBounds(n, pow);
    var q := n / pow;
    if q < -M63 {
      MulMono(q, -M63 - 1, pow);
    } else if q >= M63 {
      MulMono(M63, q, pow);
    }
  }

  lemma ShrIs(n: int, k: int)
    requires IsI64(n) && 0 <= k < 64
    ensures ShrR(W(n), W(k)) == W(n / Pow2(k)) && IsI64(n / Pow2(k))
  {
    SmallCount(k);
    WKept(n);
    DivStaysI64(n, Pow2(k));
  }

  // ----- Unsigned division

  /** `mulhu` is the product shifted right by the width and more. */
  lemma MulHighIs(u: int, m: int, w: nat, extra: int)
    requires (w == 32 || w == 64) && 0 <= u < Pow2(w) && 0 <= m < Pow2(w) && 0 <= extra < w
    ensures MulHigh(Vm(), u, m, w, extra) == u * m / Pow2(w + extra)
  {
    WideConsts();
    if w == 64 {
      MulHighWide(u, m, extra);
    } else {
      MulHighNarrow(u, m, extra);
    }
  }

  lemma MulHighWide(u: int, m: int, extra: int)
    requires 0 <= u < M64 && 0 <= m < M64 && 0 <= extra < 64
    ensures MulHigh(Vm(), u, m, 64, extra) == u * m / Pow2(64 + extra)
  {
    WideConsts();
    WKept(m);
    ProductInRange(u, m, M64, M64);
    DivIsBelow(u * m, M64, M64);
    ShiftRightUIs(u * m / M64, extra);
    DivDiv(u * m, M64, Pow2(extra));
    Pow2Add(64, extra);
  }

  lemma MulHighNarrow(u: int, m: int, extra: int)
    requires 0 <= u < M32 && 0 <= m < M32 && 0 <= extra < 32
    ensures MulHigh(Vm(), u, m, 32, extra) == u * m / Pow2(32 + extra)
  {
    WKept(m);
    ProductInRange(u, m, M32, M32);
    WKept(u * m);
    ShruIs(u * m, 32 + extra);
  }

  /** The add-back sequence halves the long product without overflow. */
  lemma AddBackIs(u: int, t: int, shift: int)
    requires 0 <= t <= u < M64 && 0 <= shift < 64
    ensures AddBack(Vm(), u, t, shift) == (u + t) / 2 / Pow2(shift)
  {
    HalfSum(u, t);
    WKept(u - t);
    ShruIs(u - t, 1);
    WKept((u + t) / 2);
    ShiftRightUIs((u + t) / 2, shift);
  }

  lemma HalfSum(u: int, t: int)
    requires 0 <= t <= u
    ensures (u - t) / Pow2(1) + t == (u + t) / 2 <= u
  {
    assert Pow2(1) == 2;
  }

  lemma HighBelow(u: int, m: int, pow: int)
    requires 0 <= u && 0 <= m < pow
    ensures 0 <= u * m / pow <= u
  {
    MulMono(m, pow, u);
    assert u * m >= 0;
    DivBounds(u * m, pow);
    if u * m / pow > u {
      MulMonoStrict(u, u * m / pow, pow);
    } else if u * m / pow < 0 {
      MulMono(u * m / pow, -1, pow);
    }
  }

  lemma AddBackArithmetic(u: int, m: int, w: nat, shift: nat)
    requires 0 <= u && 0 <= m
    ensures (u + u * m / Pow2(w)) / 2 / Pow2(shift) == u * (m + Pow2(w)) / Pow2(w + shift + 1)
  {
    var long := u * (m + Pow2(w));
    assert long == u * m + u * Pow2(w);
    DivShift(u * m, u, Pow2(w));
    DivDiv(long / Pow2(w), 2, Pow2(shift));
    DivDiv(long, Pow2(w), 2 * Pow2(shift));
    Pow2Add(w, shift + 1);
    assert Pow2(shift + 1) == 2 * Pow2(shift);
    assert w + (shift + 1) == w + shift + 1;
  }

  /** An exact reciprocal that needs the add-back form gives the quotient. */
  lemma LongReciprocal(u: int, mag: UnsignedMagic, d: nat, w: nat)
    requires (w == 32 || w == 64) && d > 0 && 0 <= u < Pow2(w) && mag.add
    requires 0 <= mag.m < Pow2(w) && 0 <= mag.shift < w
    requires u * (mag.m + Pow2(w)) / Pow2(mag.shift + w + 1) == u / d
    ensures ReciprocalSteps(Vm(), u, mag, w) == u / d
  {
    var t := u * mag.m / Pow2(w);
    HighHalf(u, mag.m, w);
    AddBackQuotient(u, t, mag.m, d, w, mag.shift);
    AddBackIs(u, t, mag.shift);
  }

  lemma AddBackQuotient(u: int, t: int, m: int, d: nat, w: nat, shift: nat)
    requires 0 <= u && 0 <= m && d > 0 && t == u * m / Pow2(w)
    requires u * (m + Pow2(w)) / Pow2(shift + w + 1) == u / d
    ensures (u + t) / 2 / Pow2(shift) == u / d
  {
    AddBackArithmetic(u, m, w, shift);
    assert shift + w + 1 == w + shift + 1;
  }

  lemma HighHalf(u: int, m: int, w: nat)
    requires (w == 32 || w == 64) && 0 <= u < Pow2(w) && 0 <= m < Pow2(w)
    ensures MulHigh(Vm(), u, m, w, 0) == u * m / Pow2(w) && 0 <= u * m / Pow2(w) <= u < M64
  {
    MulHighIs(u, m, w, 0);
    HighBelow(u, m, Pow2(w));
    WordFits(u, w);
  }

  lemma ShortReciprocal(u: int, mag: UnsignedMagic, d: nat, w: nat)
    requires (w == 32 || w == 64) && d > 0 && 0 <= u < Pow2(w) && !mag.add
    requires 0 <= mag.m < Pow2(w) && 0 <= mag.shift < w
    requires u * mag.m / Pow2(mag.shift + w) == u / d
    ensures MulHigh(Vm(), u, mag.m, w, mag.shift) == u / d
  {
    MulHighIs(u, mag.m, w, mag.shift);
  }

  /** The odd part of an even divisor that is no power of two. */
  lemma OddPart(d: nat, w: nat)
    requires Divisor(d, w) && d % 2 == 0
    ensures var tz := TrailingZeros(d); var odd := d / Pow2(tz);
            0 < tz < w && odd > 0 && Divisor(odd, w) && odd < Pow2(w - tz) && d == Pow2(tz) * odd
  {
    var tz := TrailingZeros(d);
    var odd := d / Pow2(tz);
    if tz >= w - 1 {
      Pow2Mono(w - 1, tz);
    }
    assert odd != 1;
    assert TrailingZeros(odd) == 0 && !IsPow2(odd);
    OddPartBounds(d, w, tz, odd);
  }

  lemma OddPartBounds(d: nat, w: nat, tz: nat, odd: nat)
    requires w >= 1 && tz < w - 1 && d == Pow2(tz) * odd && d < Pow2(w - 1)
    ensures odd <= d && odd < Pow2(w - tz)
  {
    MulMono(1, Pow2(tz), odd);
    Pow2Add(w - tz, tz);
    assert w - tz + tz == w;
    Pow2Mono(w - 1, w);
    if odd >= Pow2(w - tz) {
      MulMono(Pow2(w - tz), odd, Pow2(tz));
    }
  }

  lemma NarrowReciprocal(u: int, d: nat, w: nat, bits: nat)
    requires (w == 32 || w == 64) && Divisor(d, w) && 1 <= bits < w && d < Pow2(bits) && 0 <= u < Pow2(bits)
    ensures var mag := MagicUnsigned(d, w, bits); !mag.add && MulHigh(Vm(), u, mag.m, w, mag.shift) == u / d
  {
    var mag := MagicUnsigned(d, w, bits);
    MagicUnsignedShape(d, w, bits);
    MagicUnsignedIsExact(d, w, bits, u);
    Pow2Mono(bits, w);
    ShortReciprocal(u, mag, d, w);
  }

  lemma FullReciprocal(u: int, d: nat, w: nat)
    requires (w == 32 || w == 64) && Divisor(d, w) && d < Pow2(w) && 0 <= u < Pow2(w)
    ensures ReciprocalSteps(Vm(), u, MagicUnsigned(d, w, w), w) == u / d
  {
    var mag := MagicUnsigned(d, w, w);
    MagicUnsignedShape(d, w, w);
    MagicUnsignedIsExact(d, w, w, u);
    if mag.add {
      LongReciprocal(u, mag, d, w);
    } else {
      ShortReciprocal(u, mag, d, w);
    }
  }

  lemma PreShifted(u: int, d: nat, tz: nat, odd: nat, w: nat)
    requires d == Pow2(tz) * odd && odd > 0 && tz <= w && 0 <= u < Pow2(w)
    ensures 0 <= u / Pow2(tz) < Pow2(w - tz) && u / Pow2(tz) / odd == u / d
  {
    Pow2Add(w - tz, tz);
    assert w - tz + tz == w;
    DivIsBelow(u, Pow2(tz), Pow2(w - tz));
    DivDiv(u, Pow2(tz), odd);
  }

  lemma PreShiftStepsAre(u: int, d: nat, w: nat, tz: nat, odd: nat)
    requires (w == 32 || w == 64) && 0 < tz < w && Divisor(odd, w) && odd < Pow2(w - tz) && d == Pow2(tz) * odd
    requires 0 <= u < Pow2(w)
    ensures var mag := MagicUnsigned(odd, w, w - tz); !mag.add && PreShiftSteps(Vm(), u, tz, mag, w) == u / d
  {
    WordFits(u, w);
    ShruIs(u, tz);
    PreShifted(u, d, tz, odd, w);
    NarrowReciprocal(u / Pow2(tz), odd, w, w - tz);
  }

  lemma UdivPreShiftIs(u: int, d: nat, w: nat)
    requires (w == 32 || w == 64) && Divisor(d, w) && d % 2 == 0 && 0 <= u < Pow2(w)
    ensures UdivMagic(Vm(), u, d, w, w) == u / d
  {
    OddPart(d, w);
    PreShiftStepsAre(u, d, w, TrailingZeros(d), d / Pow2(TrailingZeros(d)));
  }

  /** `udiv_magic`: the sequence is the quotient. For an even divisor over the
      full width the narrowed multiplier never needs the add-back form. */
  lemma UdivMagicIs(u: int, d: nat, w: nat, bits: nat)
    requires (w == 32 || w == 64) && Divisor(d, w) && 1 <= bits <= w && d < Pow2(bits) && 0 <= u < Pow2(bits)
    ensures UdivMagic(Vm(), u, d, w, bits) == u / d
  {
    if bits < w {
      NarrowReciprocal(u, d, w, bits);
    } else if d % 2 == 1 {
      FullReciprocal(u, d, w);
    } else {
      UdivPreShiftIs(u, d, w);
    }
  }

  /** Masking with `2^k - 1` keeps the low part. */
  lemma {:induction false} MaskKeepsLow(q: nat, r: nat, k: nat)
    requires r < Pow2(k)
    ensures BitAnd(q * Pow2(k) + r, Pow2(k) - 1) == r
    decreases k
  {
    if k == 0 {
    } else {
      var p, a := Pow2(k - 1), q * Pow2(k) + r;
      assert q * Pow2(k) == 2 * (q * p) by { MulAssoc(q, 2, p); }
      assert a / 2 == q * p + r / 2 && a % 2 == r % 2;
      MaskKeepsLow(q, r / 2, k - 1);
      HalfMask(p);
    }
  }

  lemma HalfMask(p: nat)
    requires p >= 1
    ensures (2 * p - 1) / 2 == p - 1 && (2 * p - 1) % 2 == 1
  {
  }

  lemma MaskIsRemainder(a: nat, k: nat)
    ensures BitAnd(a, Pow2(k) - 1) == a % Pow2(k)
  {
    DivBounds(a, Pow2(k));
    DivShrinks(a, Pow2(k));
    MaskKeepsLow(a / Pow2(k), a % Pow2(k), k);
  }

  lemma RemainderFromQuotient(u: int, du: int)
    requires 0 <= u < M64 && 0 < du < M64
    ensures SubR(u, MulR(u / du, W(du))) == u % du
  {
    DivBounds(u, du);
    DivShrinks(u, du);
    WKept(u);
    WKept(u / du);
    WMul(u / du, du);
    WSub(u, u / du * du);
    WKept(u % du);
  }

  lemma CompareIsQuotient(u: int, du: int, half: int)
    requires 0 <= u < 2 * half && half < du
    ensures u / du == if u >= du then 1 else 0
  {
    if u >= du {
      DivIs(u, du, 1);
    } else {
      DivIs(u, du, 0);
    }
  }

  /** What the callers of `lower_udivmod` guarantee. */
  ghost predicate UnsignedSite(u: int, du: int, w: nat, bits: nat) {
    (w == 32 || w == 64) && 1 <= bits <= w && 0 < du < M64 && 0 <= u < Pow2(bits)
  }

  lemma SiteInRange(u: int, du: int, w: nat, bits: nat)
    requires UnsignedSite(u, du, w, bits)
    ensures 0 <= u < M64 && u < Pow2(w) && Pow2(w) == 2 * Pow2(w - 1)
    ensures bits < 64 && du / Pow2(bits) != 0 <==> du >= Pow2(bits)
  {
    Pow2Mono(bits, w);
    WideConsts();
    DivBounds(du, Pow2(bits));
    if bits < 64 && du / Pow2(bits) == 0 {
    } else if bits < 64 && du < Pow2(bits) {
      DivIs(du, Pow2(bits), 0);
    }
  }

  lemma UdivQuotientIs(u: int, du: nat, w: nat, bits: nat)
    requires UnsignedSite(u, du, w, bits) && du >= 3 && !IsPow2(du) && du < Pow2(bits)
    ensures UdivQuotient(Vm(), u, du, w, bits) == u / du
  {
    if du > Pow2(w - 1) {
      SiteInRange(u, du, w, bits);
      WKept(du);
      CompareIsQuotient(u, du, Pow2(w - 1));
    } else {
      assert du != Pow2(w - 1) by { Pow2IsPow2(w - 1); }
      UdivMagicIs(u, du, w, bits);
    }
  }

  lemma Pow2StepsAre(u: int, du: nat)
    requires 0 <= u < M64 && 0 < du < M64 && IsPow2(du)
    ensures AndR(u, W(du - 1)) == u % du && ShruR(u, W(TrailingZeros(du))) == u / du
  {
    var k := TrailingZeros(du);
    if k >= 64 {
      WideConsts();
      Pow2Mono(64, k);
    }
    ShruIs(u, k);
    WKept(u);
    WKept(du - 1);
    MaskIsRemainder(u, k);
  }

  lemma UdivmodStepsAre(rem: bool, u: int, du: nat, w: nat, bits: nat)
    requires UnsignedSite(u, du, w, bits) && du >= 3 && !IsPow2(du) && du < Pow2(bits)
    ensures UdivmodSteps(Vm(), rem, u, du, w, bits) == if rem then u % du else u / du
  {
    SiteInRange(u, du, w, bits);
    UdivQuotientIs(u, du, w, bits);
    RemainderFromQuotient(u, du);
  }

  lemma LargeDivisor(rem: bool, u: int, du: nat, w: nat, bits: nat)
    requires UnsignedSite(u, du, w, bits) && du >= Pow2(bits)
    ensures LowerUdivmod(Vm(), rem, u, du, w, bits) == if rem then u % du else u / du
  {
    SiteInRange(u, du, w, bits);
    assert du > 1 by { assert Pow2(bits) == 2 * Pow2(bits - 1); }
    DivIs(u, du, 0);
    assert bits < 64 by { WideConsts(); }
  }

  lemma Pow2Divisor(rem: bool, u: int, du: nat, w: nat, bits: nat)
    requires UnsignedSite(u, du, w, bits) && 1 < du < Pow2(bits) && IsPow2(du)
    ensures LowerUdivmod(Vm(), rem, u, du, w, bits) == if rem then u % du else u / du
  {
    SiteInRange(u, du, w, bits);
    Pow2StepsAre(u, du);
  }

  /** `lower_udivmod`: every sequence it can emit computes the quotient or the
      remainder, for every numerator of the promised width. */
  lemma LowerUdivmodIs(rem: bool, u: int, du: nat, w: nat, bits: nat)
    requires UnsignedSite(u, du, w, bits)
    ensures LowerUdivmod(Vm(), rem, u, du, w, bits) == if rem then u % du else u / du
  {
    if du >= Pow2(bits) {
      LargeDivisor(rem, u, du, w, bits);
    } else if du == 1 {
    } else if IsPow2(du) {
      Pow2Divisor(rem, u, du, w, bits);
    } else {
      SiteInRange(u, du, w, bits);
      assert du >= 3 by { Pow2IsPow2(1); }
      UdivmodStepsAre(rem, u, du, w, bits);
    }
  }

  // ----- Signed division

  /** The multiply-high step, with the fix-up for a multiplier read as negative. */
  lemma MulhIs(n: int, m: int)
    requires IsI64(n) && 0 <= m < M64
    ensures IsI64(n * m / M64)
    ensures var hi := MulhR(W(n), W(m)); (if m >= M63 then AddR(hi, W(n)) else hi) == W(n * m / M64)
  {
    HighStaysI64(n, m);
    if m >= M63 {
      MulhLong(n, m);
    } else {
      MulhShort(n, m);
    }
  }

  lemma MulhShort(n: int, m: int)
    requires IsI64(n) && 0 <= m < M63
    ensures MulhR(W(n), W(m)) == W(n * m / M64)
  {
    WKept(n);
    WKept(m);
  }

  lemma MulhLong(n: int, m: int)
    requires IsI64(n) && M63 <= m < M64
    ensures AddR(MulhR(W(n), W(m)), W(n)) == W(n * m / M64)
  {
    WKept(n);
    WKept(m);
    assert Sgn(W(m)) == m - M64;
    assert n * (m - M64) == n * m + (-n) * M64;
    DivShift(n * m, -n, M64);
    assert MulhR(W(n), W(m)) == W(n * m / M64 - n);
    WAdd(n * m / M64 - n, n);
  }

  lemma HighStaysI64(n: int, m: int)
    requires IsI64(n) && 0 <= m < M64
    ensures IsI64(n * m / M64)
  {
    if n >= 0 {
      HighBelow(n, m, M64);
    } else {
      MulMono(m, M64, -n);
      assert n * m >= n * M64;
      DivMono(n * M64, n * m, M64);
      DivShift(0, n, M64);
      MulMono(0, m, -n);
      DivMono(n * m, 0, M64);
    }
  }

  lemma FloorWide(n: int, mag: SignedMagic)
    requires IsI64(n) && 0 <= mag.m < M64 && 0 <= mag.shift < 64
    ensures var q := n * mag.m / Pow2(mag.shift + 64); IsI64(q) && SdivFloor(Vm(), W(n), mag, 64) == W(q)
  {
    MulhIs(n, mag.m);
    ShrIs(n * mag.m / M64, mag.shift);
    DivDiv(n * mag.m, M64, Pow2(mag.shift));
    WideConsts();
    Pow2Add(64, mag.shift);
  }

  lemma NarrowProduct(n: int, m: int)
    requires -0x8000_0000 <= n < 0x8000_0000 && 0 <= m < M32
    ensures IsI64(n * m)
  {
    if n >= 0 {
      ProductInRange(n, m, 0x8000_0000, M32);
    } else {
      MulMono(m, M32, -n);
      assert n * m >= n * M32;
      MulMono(0, m, -n);
    }
  }

  lemma FloorNarrow(n: int, mag: SignedMagic)
    requires -0x8000_0000 <= n < 0x8000_0000 && 0 <= mag.m < M32 && 0 <= mag.shift < 32
    ensures var q := n * mag.m / Pow2(mag.shift + 32); IsI64(q) && SdivFloor(Vm(), W(n), mag, 32) == W(q)
  {
    NarrowProduct(n, mag.m);
    WMul(n, mag.m);
    ShrIs(n * mag.m, 32 + mag.shift);
  }

  /** Adding the sign bit turns the floor of a negative quotient into its truncation. */
  lemma SignFixUp(q: int)
    requires IsI64(q)
    ensures AddR(W(q), ShruR(W(q), W(63))) == W(if q < 0 then q + 1 else q)
  {
    ShruIs(W(q), 63);
    WideConsts();
    if q < 0 {
      assert W(q) == q + M64;
      DivIs(W(q), M63, 1);
      WAdd(q, 1);
    } else {
      assert W(q) == q;
      DivIs(q, M63, 0);
      WAdd(q, 0);
    }
  }

  /** What the callers of the signed lowering guarantee: operands of `w` bits. */
  ghost predicate SignedSite(n: int, d: int, w: nat) {
    (w == 32 || w == 64) && d != 0 && Fits2(n, w) && Fits2(d, w)
  }

  /** A signed number of `w` bits. */
  ghost predicate Fits2(x: int, w: nat)
    requires w >= 1
  {
    0 <= x + Pow2(w - 1) && x < Pow2(w - 1)
  }

  lemma SiteIsI64(x: int, w: nat)
    requires (w == 32 || w == 64) && Fits2(x, w)
    ensures IsI64(x) && (w == 32 ==> -0x8000_0000 <= x < 0x8000_0000)
  {
    WideConsts();
  }

  /** The floor `sdiv_magic` starts from, one below the quotient for a negative one. */
  lemma FloorOf(n: int, d: nat, w: nat) returns (q: int)
    requires (w == 32 || w == 64) && Divisor(d, w) && Fits2(n, w)
    ensures IsI64(q) && SdivFloor(Vm(), W(n), MagicSigned(d, w), w) == W(q)
    ensures Trunc(n, d) == if q < 0 then q + 1 else q
  {
    MagicSignedShape(d, w);
    q := FloorIs(n, MagicSigned(d, w), w);
    FloorIsQuotient(n, d, w, q);
  }

  /** `sdiv_magic` truncates toward zero, for every numerator. */
  lemma SdivMagicIs(n: int, d: nat, w: nat)
    requires (w == 32 || w == 64) && Divisor(d, w) && Fits2(n, w)
    ensures SdivMagic(Vm(), W(n), d, w) == W(Trunc(n, d))
  {
    var q := FloorOf(n, d, w);
    SignFixUp(q);
  }

  lemma FloorIsQuotient(n: int, d: nat, w: nat, q: int)
    requires Divisor(d, w) && Fits2(n, w) && IsFloor(n, MagicSigned(d, w), w, q)
    ensures Trunc(n, d) == if q < 0 then q + 1 else q
  {
    MagicSignedIsExact(d, w, n);
    DivShrinks(Abs(n), d);
  }

  ghost predicate IsFloor(n: int, mag: SignedMagic, w: nat, q: int) {
    mag.shift >= 0 && q == n * mag.m / Pow2(mag.shift + w)
  }

  lemma FloorIs(n: int, mag: SignedMagic, w: nat) returns (q: int)
    requires (w == 32 || w == 64) && Fits2(n, w) && 0 <= mag.m < Pow2(w) && 0 <= mag.shift < w
    ensures IsFloor(n, mag, w, q) && IsI64(q) && SdivFloor(Vm(), W(n), mag, w) == W(q)
  {
    SiteIsI64(n, w);
    WordFits(mag.m, w);
    q := n * mag.m / Pow2(mag.shift + w);
    if w == 64 {
      FloorWide(n, mag);
    } else {
      Pow2Consts32();
      FloorNarrow(n, mag);
    }
  }

  // ----- Signed division by a power of two

  /** The bias is `2^k - 1` below zero and 0 from zero up. */
  lemma Pow2BiasIs(n: int, k: nat, w: nat)
    requires (w == 32 || w == 64) && Fits2(n, w) && 1 <= k < w
    ensures Pow2Bias(Vm(), W(n), k, w) == if n < 0 then Pow2(k) - 1 else 0
  {
    BiasSource(n, k, w);
    SignSource(n, k, w);
    TopBitsShifted(if k + w <= 65 then n else n / Pow2(63), k);
  }

  lemma TopBitsShifted(src: int, k: nat)
    requires 1 <= k < 64 && 0 <= src + Pow2(64 - k) && src < Pow2(64 - k)
    ensures ShruR(W(src), W(64 - k)) == if src < 0 then Pow2(k) - 1 else 0
  {
    ShruIs(W(src), 64 - k);
    TopBits(src, k);
  }

  lemma BiasSource(n: int, k: nat, w: nat)
    requires (w == 32 || w == 64) && Fits2(n, w)
    ensures (if k + w <= 65 then W(n) else ShrR(W(n), W(63))) == W(if k + w <= 65 then n else n / Pow2(63))
  {
    SiteIsI64(n, w);
    ShrIs(n, 63);
  }

  /** Shifting by 63 leaves the sign; a short number already repeats it enough. */
  lemma SignSource(n: int, k: nat, w: nat)
    requires (w == 32 || w == 64) && Fits2(n, w) && 1 <= k < w
    ensures var src := if k + w <= 65 then n else n / Pow2(63);
            0 <= src + Pow2(64 - k) && src < Pow2(64 - k) && (src < 0 <==> n < 0)
  {
    WideConsts();
    if k + w <= 65 {
      Pow2Mono(w - 1, 64 - k);
    } else if n < 0 {
      DivIs(n, M63, -1);
    } else {
      DivIs(n, M63, 0);
    }
  }

  lemma TopBits(src: int, k: nat)
    requires 1 <= k <= 64 && 0 <= src + Pow2(64 - k) && src < Pow2(64 - k)
    ensures W(src) / Pow2(64 - k) == if src < 0 then Pow2(k) - 1 else 0
  {
    var low, top := Pow2(64 - k), Pow2(k);
    assert top * low == M64 by {
      Pow2Add(k, 64 - k);
      assert k + (64 - k) == 64;
      Pow2Consts64();
    }
    MulMono(1, top, low);
    HighPart(src, top, low);
  }

  lemma HighPart(src: int, top: int, low: int)
    requires top >= 1 && low >= 1 && top * low == M64 && -low <= src < low <= M64
    ensures W(src) / low == if src < 0 then top - 1 else 0
  {
    if src < 0 {
      assert W(src) == src + M64;
      assert (top - 1) * low == M64 - low;
      DivIs(W(src), low, top - 1);
    } else if src < M64 {
      assert W(src) == src;
      DivIs(src, low, 0);
    }
  }

  lemma BiasedQuotient(n: int, p: int)
    requires p >= 2
    ensures (n + if n < 0 then p - 1 else 0) / p == if n < 0 then -(-n / p) else n / p
  {
    if n < 0 {
      var a := -n;
      DivBounds(a, p);
      assert -(a / p) * p == -(a / p * p);
      DivIs(n + p - 1, p, -(a / p));
    }
  }

  lemma ResidueOfResidue(x: int, k: nat)
    requires k <= 64
    ensures W(x) % Pow2(k) == x % Pow2(k)
  {
    var c := x / M64 * Pow2(64 - k);
    assert c * Pow2(k) == x / M64 * M64 by {
      Pow2Add(64 - k, k);
      WideConsts();
      assert 64 - k + k == 64;
      MulAssoc(x / M64, Pow2(64 - k), Pow2(k));
    }
    DivBounds(x, M64);
    AddMultiple(W(x), c, Pow2(k));
  }

  lemma AddMultiple(x: int, c: int, p: int)
    requires p > 0
    ensures (x + c * p) % p == x % p
  {
    DivBounds(x, p);
    assert (x / p + c) * p == x / p * p + c * p;
    DivIs(x + c * p, p, x / p + c);
  }

  /** The quotient of `|d| = 2^k`, truncated. */
  ghost function Pow2Quotient(n: int, k: nat): int { if n < 0 then -(-n / Pow2(k)) else n / Pow2(k) }

  ghost function BiasOf(n: int, k: nat): int { if n < 0 then Pow2(k) - 1 else 0 }

  lemma BiasBounds(n: int, k: nat)
    requires IsI64(n) && 1 <= k < 64
    ensures 0 <= BiasOf(n, k) <= M63 && W(BiasOf(n, k)) == BiasOf(n, k) && IsI64(n + BiasOf(n, k))
  {
    WideConsts();
    Pow2Mono(k, 63);
    WKept(BiasOf(n, k));
  }

  lemma BiasedShift(n: int, k: nat)
    requires IsI64(n) && 1 <= k < 64
    ensures AddR(W(n), BiasOf(n, k)) == W(n + BiasOf(n, k))
    ensures ShrR(W(n + BiasOf(n, k)), W(k)) == W(Pow2Quotient(n, k))
  {
    BiasBounds(n, k);
    WAdd(n, BiasOf(n, k));
    assert Pow2(k) == 2 * Pow2(k - 1);
    BiasedQuotient(n, Pow2(k));
    ShrIs(n + BiasOf(n, k), k);
  }

  lemma BiasedMask(n: int, k: nat)
    requires IsI64(n) && 1 <= k < 64
    ensures SubR(AndR(W(n + BiasOf(n, k)), W(Pow2(k) - 1)), BiasOf(n, k)) == W(n - Pow2Quotient(n, k) * Pow2(k))
  {
    BiasBounds(n, k);
    MaskedBias(n, BiasOf(n, k), k);
    assert Pow2(k) == 2 * Pow2(k - 1);
    BiasedQuotient(n, Pow2(k));
    RemainderOf(n + BiasOf(n, k), Pow2(k), Pow2Quotient(n, k));
  }

  lemma RemainderOf(x: int, p: int, q: int)
    requires p > 0 && x / p == q
    ensures x % p == x - q * p
  {
    DivBounds(x, p);
  }

  lemma MaskedBias(n: int, bias: int, k: nat)
    requires 0 <= bias < M64 && 1 <= k < 64
    ensures SubR(AndR(W(n + bias), W(Pow2(k) - 1)), bias) == W((n + bias) % Pow2(k) - bias)
  {
    var x, r := n + bias, (n + bias) % Pow2(k);
    MaskedRegister(x, k);
    assert 0 <= r < M64 by { WideConsts(); Pow2Mono(k, 64); }
    WKept(r);
    WKept(bias);
    WSub(r, bias);
  }

  lemma MaskedRegister(x: int, k: nat)
    requires 1 <= k < 64
    ensures AndR(W(x), W(Pow2(k) - 1)) == x % Pow2(k)
  {
    assert 0 <= Pow2(k) - 1 < M64 by { WideConsts(); Pow2Mono(k, 64); }
    WKept(Pow2(k) - 1);
    WKept(W(x));
    MaskIsRemainder(W(x), k);
    ResidueOfResidue(x, k);
  }

  lemma NegateIs(q: int)
    ensures Negate(Vm(), W(q)) == W(-q)
  {
    WSub(0, q);
  }

  lemma TruncOfNegative(n: int, d: int)
    requires d != 0
    ensures Trunc(n, d) == if d < 0 then -Trunc(n, Abs(d)) else Trunc(n, Abs(d))
  {
    if d < 0 && n == 0 {
      DivIs(0, Abs(d), 0);
    }
  }

  lemma TruncByUnit(n: int, d: int)
    requires d == 1 || d == -1
    ensures Trunc(n, d) == (if d < 0 then -n else n) && n - Trunc(n, d) * d == 0
  {
    assert Abs(n) / 1 == Abs(n);
  }

  lemma SignedUnit(rem: bool, n: int, d: int, w: nat)
    requires SignedSite(n, d, w) && (d == 1 || d == -1)
    ensures LowerSigned(Vm(), rem, W(n), d, w) == W(if rem then n - Trunc(n, d) * d else Trunc(n, d))
  {
    TruncByUnit(n, d);
    NegateIs(n);
  }

  lemma AbsFits(d: int, w: nat)
    requires (w == 32 || w == 64) && Fits2(d, w) && d != 0
    ensures 1 <= Abs(d) <= Pow2(w - 1) && IsI64(d)
  {
    SiteIsI64(d, w);
  }

  lemma SignedPow2Remainder(n: int, d: int, k: nat, w: nat)
    requires (w == 32 || w == 64) && Fits2(n, w) && 1 <= k < w && Abs(d) == Pow2(k)
    ensures SignedPow2Steps(Vm(), true, d < 0, W(n), k, w) == W(n - Trunc(n, d) * d)
  {
    SiteIsI64(n, w);
    Pow2BiasIs(n, k, w);
    BiasedShift(n, k);
    BiasedMask(n, k);
    TruncByPow2(n, d, k);
  }

  lemma SignedPow2Quotient(n: int, d: int, k: nat, w: nat)
    requires (w == 32 || w == 64) && Fits2(n, w) && 1 <= k < w && Abs(d) == Pow2(k)
    ensures SignedPow2Steps(Vm(), false, d < 0, W(n), k, w) == W(Trunc(n, d))
  {
    SiteIsI64(n, w);
    Pow2BiasIs(n, k, w);
    BiasedShift(n, k);
    TruncByPow2(n, d, k);
    NegateIs(Pow2Quotient(n, k));
  }

  lemma TruncByPow2(n: int, d: int, k: nat)
    requires Abs(d) == Pow2(k)
    ensures var q := Pow2Quotient(n, k);
            Trunc(n, d) == (if d < 0 then -q else q) && Trunc(n, d) * d == q * Pow2(k)
  {
    TruncOfNegative(n, d);
    assert Trunc(n, Abs(d)) == Pow2Quotient(n, k);
  }

  lemma SmallExponent(d: nat, w: nat)
    requires w >= 1 && 1 < d <= Pow2(w - 1) && IsPow2(d)
    ensures 1 <= TrailingZeros(d) < w
  {
    if TrailingZeros(d) >= w {
      Pow2Less(w - 1, TrailingZeros(d));
    }
  }

  lemma SignedMagicStepsAre(rem: bool, n: int, d: int, w: nat)
    requires SignedSite(n, d, w) && Divisor(Abs(d), w)
    ensures SignedMagicSteps(Vm(), rem, W(n), d, w) == W(if rem then n - Trunc(n, d) * d else Trunc(n, d))
  {
    SignedQuotientIs(n, d, w);
    RemainderStep(n, Trunc(n, d), d);
  }

  lemma QuotientSign(s: Sink<int>, x: int, d: int, w: nat, t: int)
    requires d != 0 && w >= 1 && SdivMagic(s, x, Abs(d), w) == W(t) && Negate(s, W(t)) == W(-t)
    ensures SignedQuotient(s, x, d, w) == W(if d < 0 then -t else t)
  {
  }

  lemma SignedQuotientIs(n: int, d: int, w: nat)
    requires SignedSite(n, d, w) && Divisor(Abs(d), w)
    ensures SignedQuotient(Vm(), W(n), d, w) == W(Trunc(n, d))
  {
    var t := Trunc(n, Abs(d));
    assert Trunc(n, d) == if d < 0 then -t else t by {
      TruncOfNegative(n, d);
    }
    SdivMagicIs(n, Abs(d), w);
    NegateIs(t);
    QuotientSign(Vm(), W(n), d, w, t);
  }

  lemma RemainderStep(n: int, q: int, d: int)
    ensures SubR(W(n), MulR(W(q), W(d))) == W(n - q * d)
  {
    WMul(q, d);
    WSub(n, q * d);
  }

  lemma OddDivisor(d: nat, w: nat)
    requires w >= 2 && 1 < d <= Pow2(w - 1) && !IsPow2(d)
    ensures Divisor(d, w)
  {
    Pow2IsPow2(w - 1);
    Pow2IsPow2(1);
  }

  /** The signed lowering truncates toward zero like the divide it replaces; its
      remainder keeps the numerator's sign; `INT_MIN / -1` wraps. */
  lemma LowerSignedIs(rem: bool, n: int, d: int, w: nat)
    requires SignedSite(n, d, w)
    ensures LowerSigned(Vm(), rem, W(n), d, w) == W(if rem then n - Trunc(n, d) * d else Trunc(n, d))
  {
    AbsFits(d, w);
    if Abs(d) == 1 {
      SignedUnit(rem, n, d, w);
    } else if IsPow2(Abs(d)) {
      SmallExponent(Abs(d), w);
      SignedPow2Remainder(n, d, TrailingZeros(Abs(d)), w);
      SignedPow2Quotient(n, d, TrailingZeros(Abs(d)), w);
    } else {
      OddDivisor(Abs(d), w);
      SignedMagicStepsAre(rem, n, d, w);
    }
  }

  // ----- The entry points

  /** `lower_divmod`: declines exactly a zero divisor, and otherwise emits what
      the divide instruction computes, for every numerator of the width. */
  lemma LowerDivmodIs(op: DivOp, n: int, d: int, w: nat)
    requires w == 32 || w == 64
    requires if op.Div? || op.Mod? then Fits2(n, w) && Fits2(d, w)
             else if w == 64 then IsI64(n) && IsI64(d)
             else 0 <= n < M32 && 0 <= d < M32
    ensures LowerDivmod(Vm(), op, W(n), d, w) == if d == 0 then None else Some(Divide(op, n, d))
  {
    if op.Divu? || op.Modu? {
      LowerUnsignedIs(op, n, d, w);
    } else if d != 0 {
      LowerSignedIs(op.Mod?, n, d, w);
    }
  }

  lemma LowerUnsignedIs(op: DivOp, n: int, d: int, w: nat)
    requires op.Divu? || op.Modu?
    requires (w == 64 && IsI64(n) && IsI64(d)) || (w == 32 && 0 <= n < M32 && 0 <= d < M32)
    ensures LowerDivmod(Vm(), op, W(n), d, w) == if d == 0 then None else Some(Divide(op, n, d))
  {
    UnsignedOperands(n, d, w);
    if d != 0 {
      LowerUdivmodIs(op.Modu?, W(n), W(d), w, w);
    }
  }

  lemma UnsignedOperands(n: int, d: int, w: nat)
    requires (w == 64 && IsI64(n) && IsI64(d)) || (w == 32 && 0 <= n < M32 && 0 <= d < M32)
    ensures (W(d) == 0 <==> d == 0) && 0 <= W(n) < Pow2(w) && (w == 32 ==> W(d) % M32 == W(d))
  {
    WideConsts();
    WKept(n);
    WKept(d);
  }

  /** Bits needed for `x`: 128 less the leading zeros of its 128-bit form. */
  function BitLength(x: nat): (b: nat)
    ensures x < Pow2(b)
  {
    if x == 0 then 0 else 1 + BitLength(x / 2)
  }

  function Clamp(x: int, lo: int, hi: int): int { if x < lo then lo else if x > hi then hi else x }

  /** `below_divisor`: every dividend in `lo..=hi` is below `d` in magnitude. */
  predicate BelowDivisor(op: DivOp, lo: int, hi: int, d: int) {
    if op.Div? || op.Mod? then 0 < lo + Abs(d) && hi < Abs(d) else lo >= 0 && (d < 0 || hi < d)
  }

  /** A site's new value, the register form of the divide, or no change. */
  datatype Lowered<V> = Value(v: V) | RegisterDivide | Unchanged

  /** `lower` of the pass: the sequence chosen from the dividend's bounds `lo..=hi`. */
  function LowerSite<V>(s: Sink<V>, op: DivOp, n: V, d: int, lo: int, hi: int, immForm: bool): Lowered<V> {
    var rem := op.Mod? || op.Modu?;
    if d != 0 && BelowDivisor(op, lo, hi, d) then
      Value(if rem then n else s.imm(0))
    else if lo >= 0 && d > 0 then
      var w := if hi < M32 && d < M32 then 32 else 64;
      var bits := Clamp(if hi < 0 then 128 else BitLength(hi), 1, w);
      Value(LowerUdivmod(s, rem, n, d, w, bits))
    else
      match LowerDivmod(s, op, n, d, if NarrowSite(op, d, lo, hi) then 32 else 64)
      case Some(v) => Value(v)
      case None => if immForm then RegisterDivide else Unchanged
  }

  /** The 32-bit signed sequence serves: dividend and divisor are 32-bit numbers. */
  predicate NarrowSite(op: DivOp, d: int, lo: int, hi: int) {
    (op.Div? || op.Mod?) && -0x8000_0000 <= lo && hi < 0x8000_0000 && -0x8000_0000 <= d < 0x8000_0000
  }

  lemma NonNegativeAgrees(op: DivOp, n: int, d: int)
    requires IsI64(n) && IsI64(d) && n >= 0 && d > 0
    ensures Divide(op, n, d) == if op.Mod? || op.Modu? then n % d else n / d
  {
    WKept(n);
    WKept(d);
    DivBounds(n, d);
    DivShrinks(n, d);
    WKept(n / d);
    WKept(n % d);
  }

  lemma BelowIsZero(op: DivOp, n: int, d: int, lo: int, hi: int)
    requires IsI64(n) && IsI64(d) && lo <= n <= hi && d != 0 && BelowDivisor(op, lo, hi, d)
    ensures Divide(op, n, d) == if op.Mod? || op.Modu? then W(n) else W(0)
  {
    if op.Div? || op.Mod? {
      DivIs(Abs(n), Abs(d), 0);
    } else {
      WKept(n);
      DivIs(W(n), W(d), 0);
    }
  }

  lemma RangedBits(n: int, hi: int, w: nat)
    requires (w == 32 || w == 64) && 0 <= n <= hi && IsI64(n) && (w == 32 ==> hi < M32)
    ensures var bits := Clamp(BitLength(hi), 1, w); 1 <= bits <= w && n < Pow2(bits)
  {
    WideConsts();
    if BitLength(hi) < 1 {
      Pow2Mono(BitLength(hi), 1);
    }
  }

  /** The pass is exact: at every site with a non-zero divisor, for every dividend
      within its bounds, the new value is what the divide leaves. A zero divisor
      is never given a sequence. */
  lemma LowerSiteIs(op: DivOp, n: int, d: int, lo: int, hi: int, immForm: bool)
    requires IsI64(n) && IsI64(d) && lo <= n <= hi
    ensures LowerSite(Vm(), op, W(n), d, lo, hi, immForm)
         == if d != 0 then Value(Divide(op, n, d)) else if immForm then RegisterDivide else Unchanged
  {
    if d != 0 && BelowDivisor(op, lo, hi, d) {
      BelowIsZero(op, n, d, lo, hi);
    } else if lo >= 0 && d > 0 {
      NonNegativeSite(op, n, d, lo, hi, immForm);
    } else {
      GeneralSite(op, n, d, lo, hi);
    }
  }

  lemma GeneralSite(op: DivOp, n: int, d: int, lo: int, hi: int)
    requires IsI64(n) && IsI64(d) && lo <= n <= hi
    ensures LowerDivmod(Vm(), op, W(n), d, if NarrowSite(op, d, lo, hi) then 32 else 64)
         == if d == 0 then None else Some(Divide(op, n, d))
  {
    var w := if NarrowSite(op, d, lo, hi) then 32 else 64;
    assert op.Div? || op.Mod? ==> Fits2(n, w) && Fits2(d, w) by { WideConsts(); }
    LowerDivmodIs(op, n, d, w);
  }

  lemma NonNegativeSite(op: DivOp, n: int, d: int, lo: int, hi: int, immForm: bool)
    requires IsI64(n) && IsI64(d) && 0 <= lo <= n <= hi && d > 0 && !BelowDivisor(op, lo, hi, d)
    ensures LowerSite(Vm(), op, W(n), d, lo, hi, immForm) == Value(Divide(op, n, d))
  {
    var w := if hi < M32 && d < M32 then 32 else 64;
    NonNegativeAgrees(op, n, d);
    WKept(n);
    RangedBits(n, hi, w);
    LowerUdivmodIs(op.Mod? || op.Modu?, n, d, w, Clamp(BitLength(hi), 1, w));
  }
}

/** lib/arithmetic.c: 64-bit division built from the x86 instruction that divides 64 bits by 32. */
module Arithmetic {
  import opened Common

  const B31: int := 0x8000_0000
  const B32: int := 0x1_0000_0000
  const B63: int := 0x8000_0000_0000_0000
  const B64: int := 0x1_0000_0000_0000_0000

  type U32 = x: int | 0 <= x < B32
  type U64 = x: int | 0 <= x < B64
  type I32 = x: int | -B31 <= x < B31
  type I64 = x: int | -B63 <= x < B63

  /** A divide error, or a quotient. */
  datatype Division = Trap | Quotient(q: int)

  function Pow2(k: nat): (p: nat)
    ensures p > 0
  {
    if k == 0 then 1 else 2 * Pow2(k - 1)
  }

  lemma {:induction false} PowAdd(a: nat, b: nat)
    ensures Pow2(a + b) == Pow2(a) * Pow2(b)
  {
    if a > 0 {
      PowAdd(a - 1, b);
      Assoc(2, Pow2(a - 1), Pow2(b));
    }
  }

  lemma Assoc(a: int, b: int, c: int)
    ensures a * b * c == a * (b * c)
  {
  }

  lemma Powers()
    ensures Pow2(1) == 2 && Pow2(2) == 4 && Pow2(4) == 16 && Pow2(8) == 256 && Pow2(16) == 65536 && Pow2(32) == B32
  {
    PowAdd(1, 1);
    PowAdd(2, 2);
    PowAdd(4, 4);
    PowAdd(8, 8);
    PowAdd(16, 16);
  }

  // ---- the instruction and the leading zeros ----

  function Quot(n: int, d: int): int
    requires d != 0
  {
    n / d
  }
  function Rem(n: int, d: int): int
    requires d != 0
  {
    n % d
  }

  /** DIVL: traps on a zero divisor and on a quotient that needs more than 32 bits. */
  function Divl(n: U64, d: U32): Division {
    if d == 0 || Quot(n, d) >= B32 then Trap else Quotient(Quot(n, d))
  }

  /** The low 32 bits. */
  function Low32(x: int): (r: U32)
    ensures 0 <= x < B32 ==> r == x
  {
    x % B32
  }

  /** The low 64 bits. */
  function Low64(x: int): (r: U64)
    ensures 0 <= x < B64 ==> r == x
  {
    x % B64
  }

  /** `x` shifted left by `n` bits. */
  function Shl(x: int, n: nat): int { x * Pow2(n) }

  lemma Shifted(x: int, n: nat, k: nat, c: int)
    requires Pow2(k) == c
    ensures Shl(x, n) * c == Shl(x, n + k)
  {
    PowAdd(n, k);
    Assoc(x, Pow2(n), c);
  }

  /** nlz: `n` is the shift that brings the top bit of `x` to the top of the word. */
  method Nlz(x: U32) returns (n: nat)
    requires x != 0
    ensures n <= 31 && B31 <= Shl(x, n) < B32
  {
    hide Pow2, Shl, Low32;
    Powers();
    ShlNone(x);
    var y: int := x;
    n := 0;
    if y <= 0x0000_FFFF {
      Shifted(x, n, 16, 65536);
      n, y := n + 16, Low32(y * 65536);
    }
    assert n <= 16 && y == Shl(x, n) && 0x0001_0000 <= y < B32;
    if y <= 0x00FF_FFFF {
      Shifted(x, n, 8, 256);
      n, y := n + 8, Low32(y * 256);
    }
    assert n <= 24 && y == Shl(x, n) && 0x0100_0000 <= y < B32;
    if y <= 0x0FFF_FFFF {
      Shifted(x, n, 4, 16);
      n, y := n + 4, Low32(y * 16);
    }
    assert n <= 28 && y == Shl(x, n) && 0x1000_0000 <= y < B32;
    if y <= 0x3FFF_FFFF {
      Shifted(x, n, 2, 4);
      n, y := n + 2, Low32(y * 4);
    }
    assert n <= 30 && y == Shl(x, n) && 0x4000_0000 <= y < B32;
    if y <= 0x7FFF_FFFF {
      Shifted(x, n, 1, 2);
      n := n + 1;
    }
  }

  lemma ShlNone(x: int)
    ensures Shl(x, 0) == x
  {
  }

  // ---- unsigned division ----

  lemma DivIs(n: int, d: int, q: int)
    requires d > 0 && q * d <= n < (q + 1) * d
    ensures n / d == q
  {
    var r := n % d;
    assert n == (n / d) * d + r;
    if n / d > q { Times(q + 1, n / d, d); }
    if n / d < q { Times(n / d + 1, q, d); }
  }

  lemma DivBounds(n: int, d: int)
    requires d > 0
    ensures (n / d) * d <= n < (n / d + 1) * d
  {
    assert n == (n / d) * d + n % d;
    assert (n / d + 1) * d == (n / d) * d + d;
  }

  /** The schoolbook step: divide the high word, then its remainder followed by the low word. */
  lemma LongDivision(n: U64, d: int)
    requires 0 < d < B32
    ensures var n1, n0 := n / B32, n % B32;
      && 0 <= B32 * Rem(n1, d) + n0 < B64 && Quot(B32 * Rem(n1, d) + n0, d) < B32
      && 0 <= Quot(n, d) == Quot(B32 * Rem(n1, d) + n0, d) + B32 * Quot(n1, d) < B64
  {
    var n1, n0 := n / B32, n % B32;
    var t, u := n1 / d, n1 % d;
    var m := B32 * u + n0;
    Times(u, d - 1, B32);
    DivBounds(m, d);
    QuotientUnder(m, d, B32);
    LongStep(n, d, t, u, n0, m / d);
    Times(1, d, B64);
    QuotientUnder(n, d, B64);
    Positive(n, d);
  }

  lemma QuotientUnder(n: int, d: int, b: int)
    requires d > 0 && n < b * d
    ensures n / d < b
  {
    DivBounds(n, d);
    if n / d >= b { Times(b, n / d, d); }
  }

  lemma LongStep(n: int, d: int, t: int, u: int, n0: int, q: int)
    requires d > 0 && n == B32 * (t * d + u) + n0 && q * d <= B32 * u + n0 < (q + 1) * d
    ensures n / d == q + B32 * t
  {
    Assoc(B32, t, d);
    Split(d, q, B32 * t);
    Split(d, q + 1, B32 * t);
    DivIs(n, d, q + B32 * t);
  }

  lemma Cancel(a: int, b: int, c: int)
    requires c > 0
    ensures a * c <= b * c <==> a <= b
    ensures a * c < b * c <==> a < b
  {
    if a <= b { Times(a, b, c); }
    if a < b { Times(a + 1, b, c); assert (a + 1) * c == a * c + c; }
    if b <= a { Times(b, a, c); }
    if b < a { Times(b + 1, a, c); assert (b + 1) * c == b * c + c; }
  }

  lemma DivDiv(n: nat, a: int, b: int)
    requires a > 0 && b > 0
    ensures a * b > 0 && n / a / b == n / (a * b)
  {
    Times(1, a, b);
    var q := n / a;
    var r := q / b;
    DivBounds(n, a);
    DivBounds(q, b);
    Times(r * b, q, a);
    Times(q + 1, (r + 1) * b, a);
    Assoc(r, b, a);
    Assoc(r + 1, b, a);
    assert b * a == a * b;
    DivIs(n, a * b, r);
  }

  lemma ShiftFits(d: U64, s: int, p: int)
    requires d >= B32 && s > 0 && p >= 2 && s * p == B32 && B31 <= (d / B32) * s < B32
    ensures B31 * B32 <= d * s < B64
  {
    var d1 := d / B32;
    DivBounds(d, B32);
    assert p * s == B32;
    Cancel(d1, p, s);
    Times(d1 + 1, p, B32);
    Cancel(d, p * B32, s);
    Swap(p, B32, s);
    Times(d1 * B32, d, s);
    Swap(d1, B32, s);
  }

  lemma Swap(a: int, b: int, c: int)
    ensures a * b * c == (a * c) * b
  {
  }

  /** The divisor shifted until its top bit is set, cut to its high word, is the divisor cut to `p` = 2^(32-s) units. */
  lemma Normalised(d: U64, s: int, p: int)
    requires d >= B32 && s > 0 && p >= 2 && s * p == B32 && B31 <= (d / B32) * s < B32
    ensures 0 <= d * s < B64
    ensures var v := d * s / B32; B31 <= v < B32 && v * p <= d < (v + 1) * p
  {
    ShiftFits(d, s, p);
    var w := d * s;
    var v := w / B32;
    DivBounds(w, B32);
    CutDown(d, s, p, v);
  }

  lemma CutDown(d: int, s: int, p: int, v: int)
    requires s > 0 && s * p == B32 && v * B32 <= d * s < (v + 1) * B32
    ensures v * p <= d < (v + 1) * p
  {
    Assoc(v, p, s);
    Assoc(v + 1, p, s);
    assert p * s == B32;
    Cancel(v * p, d, s);
    Cancel(d, (v + 1) * p, s);
  }

  lemma Gap(n: int, d: int, e: int, p: int, t: int)
    requires t >= 0 && (t + 2) * e <= n < (t + 1) * d && d <= e + (p - 1)
    ensures e < (t + 1) * (p - 1)
  {
    Times(d, e + (p - 1), t + 1);
    Split(t + 1, e, p - 1);
    Split(e, t + 1, 1);
  }

  lemma Split(a: int, b: int, c: int)
    ensures a * (b + c) == a * b + a * c && (b + c) * a == b * a + c * a
  {
  }

  lemma SquareBelow(e: int, p: int, t: int)
    requires 0 < e < (t + 1) * (p - 1) && t >= 0 && p >= 2 && (t + 1) * e <= B64
    ensures e * e < B64 * (p - 1)
  {
    Cancel(e, (t + 1) * (p - 1), e);
    Assoc(t + 1, p - 1, e);
    Assoc(t + 1, e, p - 1);
    assert (p - 1) * e == e * (p - 1);
    Times((t + 1) * e, B64, p - 1);
  }

  lemma SquareAbove(e: int, p: int)
    requires p >= 2 && e >= B31 * p
    ensures e * e >= B64 * (p - 1)
  {
    Times(B31 * p, e, B31 * p);
    Times(B31 * p, e, e);
    assert (B31 * p) * (B31 * p) == (B31 * B31) * (p * p);
    FourTimes(p);
    Times(4 * (p - 1), p * p, B31 * B31);
  }

  lemma FourTimes(p: int)
    requires p >= 2
    ensures 4 * (p - 1) <= p * p
  {
    var x := p - 2;
    Times(0, x, x);
    assert p * p == (x + 2) * (x + 2) == x * x + 4 * x + 4;
  }

  lemma AtMostOneMore(n: U64, d: int, e: int, p: int, q: int, t: int)
    requires p >= 2 && e >= B31 * p && e <= d <= e + (p - 1) && t >= 0
    requires q * e <= n < (t + 1) * d
    ensures q <= t + 1
  {
    if q > t + 1 {
      Times(t + 2, q, e);
      Gap(n, d, e, p, t);
      Times(t + 1, t + 2, e);
      SquareBelow(e, p, t);
      SquareAbove(e, p);
    }
  }

  lemma AtLeast(n: nat, d: int, e: int)
    requires 0 < e <= d
    ensures n / d <= n / e
  {
    var q, t := n / e, n / d;
    DivBounds(n, e);
    DivBounds(n, d);
    Times(e, d, t);
    assert t * e == e * t && t * d == d * t;
    if t > q { Times(q + 1, t, e); }
  }

  /** Dividing by the cut-down divisor gives the quotient or one more. */
  lemma Estimate(n: U64, d: int, v: int, p: int)
    requires v >= B31 && p >= 2 && v * p <= d < (v + 1) * p
    ensures v * p > 0 && d > 0 && n / d <= n / (v * p) <= n / d + 1
  {
    var e := v * p;
    Times(B31, v, p);
    Split(p, v, 1);
    AtLeast(n, d, e);
    DivBounds(n, e);
    DivBounds(n, d);
    Positive(n, d);
    AtMostOneMore(n, d, e, p, n / e, n / d);
  }

  lemma Positive(n: nat, d: int)
    requires d > 0
    ensures n / d >= 0
  {
  }

  lemma EstimateBy(n: U64, d: U64, s: int, h: int)
    requires d >= B32 && s > 0 && h > 0 && s * (2 * h) == B32 && B31 <= (d / B32) * s < B32
    ensures 0 <= d * s < B64
    ensures var v := d * s / B32;
      && 0 < v < B32 && 0 <= n / 2 / v < B32
      && n / d <= n / 2 / v / h <= n / d + 1
  {
    Normalised(d, s, 2 * h);
    var v := d * s / B32;
    HalfFits(n, v);
    Quarter(n, v, h);
    Estimate(n, d, v, 2 * h);
  }

  lemma Quarter(n: nat, v: int, h: int)
    requires v > 0 && h > 0
    ensures v * (2 * h) > 0 && n / 2 / v / h == n / (v * (2 * h))
  {
    DivDiv(n, 2, v);
    DivDiv(n, 2 * v, h);
    Assoc(v, 2, h);
  }

  lemma Complement(k: nat)
    requires k <= 31
    ensures Pow2(k) * (2 * Pow2(31 - k)) == B32
  {
    PowAdd(k, 32 - k);
    Powers();
  }

  /** The estimate udiv64 takes for a divisor of more than 32 bits: DIVL does not trap, and the result is the quotient
      or one more. `k` is the number of leading zeros of the divisor's high word. */
  lemma WideEstimate(n: U64, d: U64, k: nat)
    requires d >= B32 && k <= 31 && B31 <= Shl(d / B32, k) < B32
    ensures 0 <= Shl(d, k) < B64
    ensures var v := Shl(d, k) / B32;
      && 0 < v < B32 && 0 <= n / 2 / v < B32
      && n / d <= n / 2 / v / Pow2(31 - k) <= n / d + 1
  {
    hide Pow2;
    Complement(k);
    EstimateBy(n, d, Pow2(k), Pow2(31 - k));
  }

  lemma HalfFits(n: U64, v: int)
    requires v >= B31
    ensures 0 <= n / 2 / v < B32
  {
    DivBounds(n / 2, v);
    Positive(n / 2, v);
    var q := n / 2 / v;
    if q >= B32 { Times(B32, q, v); Times(B31, v, B32); }
  }

  /** The final correction of udiv64. */
  lemma Corrected(n: U64, d: U64, q: int)
    requires 0 < d <= n && n / d <= q <= n / d + 1
    ensures 1 <= q && 0 <= (q - 1) * d <= n
    ensures (if n - (q - 1) * d < d then q - 1 else q) == n / d
  {
    DivBounds(n, d);
    var t := n / d;
    if t <= 0 { Times(t + 1, 1, d); }
    Split(d, t - 1, 1);
    Times(0, q - 1, d);
    Times(q - 1, t, d);
  }

  /** udiv64 for a divisor of at most 32 bits. */
  function Narrow(n: U64, d: U32): Division {
    if d == 0 then Trap else
    var n1, n0 := n / B32, n % B32;
    match Divl(Low64(B32 * Rem(n1, d) + n0), d)
    case Trap => Trap
    case Quotient(q) => Quotient(Low64(q + B32 * Quot(n1, d)))
  }

  /** udiv64 for a longer divisor with `s` leading zeros. */
  function Wide(n: U64, d: U64, s: nat): Division
    requires s <= 31
  {
    match Divl(n / 2, Low64(Shl(d, s)) / B32)
    case Trap => Trap
    case Quotient(e) =>
      var q := e / Pow2(31 - s);
      Quotient(if Low64(n - (q - 1) * d) < d then q - 1 else q)
  }

  lemma NarrowRight(n: U64, d: U32)
    requires d > 0
    ensures Narrow(n, d) == Quotient(Quot(n, d))
  {
    hide Low64, Divl, Quot, Rem;
    LongDivision(n, d);
    DivlFits(B32 * Rem(n / B32, d) + n % B32, d);
  }

  lemma DivlFits(n: U64, d: U32)
    requires d > 0 && Quot(n, d) < B32
    ensures Divl(n, d) == Quotient(Quot(n, d))
  {
  }

  lemma WideRight(n: U64, d: U64, s: nat)
    requires B32 <= d <= n && s <= 31 && B31 <= Shl(d / B32, s) < B32
    ensures Wide(n, d, s) == Quotient(n / d)
  {
    hide Shl, Pow2, Low64, Divl;
    WideEstimate(n, d, s);
    var v := Shl(d, s) / B32;
    DivlFits(n / 2, v);
    Corrected(n, d, n / 2 / v / Pow2(31 - s));
  }

  /** udiv64: the true quotient, and a divide error only for a zero divisor. */
  method Udiv64(n: U64, d: U64) returns (r: Division)
    ensures d == 0 <==> r.Trap?
    ensures d > 0 ==> r == Quotient(n / d) && 0 <= n / d < B64
  {
    hide Narrow, Wide, Shl, Pow2;
    if d > 0 { QuotientBelow(n, d); }
    if d / B32 == 0 {
      if d == 0 { NarrowZero(n); } else { NarrowRight(n, d); }
      return Narrow(n, d);
    }
    if n < d {
      DivIs(n, d, 0);
      return Quotient(0);
    }
    var s := Nlz(d / B32);
    WideRight(n, d, s);
    return Wide(n, d, s);
  }

  lemma NarrowZero(n: U64)
    ensures Narrow(n, 0) == Trap
  {
  }

  lemma QuotientBelow(n: U64, d: int)
    requires d > 0
    ensures 0 <= n / d <= n
  {
    Positive(n, d);
    DivBounds(n, d);
    Times(1, d, n / d);
    assert n / d * d == d * (n / d);
  }

  // ---- remainders and signed forms ----

  /** umod64, which hands back only 32 bits of the remainder. */
  method Umod64(n: U64, d: U64) returns (r: Division)
    ensures d == 0 <==> r.Trap?
    ensures d > 0 ==> r == Quotient(Low32(n % d))
  {
    var q := Udiv64(n, d);
    if q.Trap? {
      return Trap;
    }
    assert n - d * (n / d) == n % d;
    return Quotient(Low32(Low64(n - d * q.q)));
  }

  /** The remainder comes out right for every dividend exactly when the divisor is at most 2^32. */
  lemma UmodRight(d: U64)
    requires d > 0
    ensures (forall n: U64 :: Low32(n % d) == n % d) <==> d <= B32
  {
    if d > B32 {
      var n: U64 := B32;
      assert n % d == n by { DivIs(n, d, 0); }
      assert Low32(n % d) != n % d;
    }
  }

  function Abs(x: int): nat { if x < 0 then -x else x }

  /** C's division, which rounds toward zero, and the remainder that goes with it. */
  function TruncDiv(n: int, d: int): int
    requires d != 0
  {
    if (n < 0) == (d < 0) then Abs(n) / Abs(d) else -(Abs(n) / Abs(d))
  }
  function TruncMod(n: int, d: int): int
    requires d != 0
  {
    n - d * TruncDiv(n, d)
  }

  /** Reading 64 and 32 bits as a signed number. */
  function Signed64(x: int): (r: I64)
    ensures -B63 <= x < B63 ==> r == x
  {
    var m := x % B64;
    if m < B63 then m else m - B64
  }
  function Signed32(x: int): (r: I32)
    ensures -B31 <= x < B31 ==> r == x
  {
    var m := x % B32;
    if m < B31 then m else m - B32
  }

  /** C's remainder is what is left of the dividend's size, with the dividend's sign. */
  lemma TruncModIs(n: int, d: int)
    requires d != 0
    ensures TruncMod(n, d) == if n < 0 then -(Abs(n) % Abs(d)) else Abs(n) % Abs(d)
  {
    assert Abs(n) == Abs(d) * (Abs(n) / Abs(d)) + Abs(n) % Abs(d);
  }

  lemma QuotientFits(n: I64, d: I64)
    requires d != 0
    ensures 0 <= Abs(n) / Abs(d) <= Abs(n) <= B63
    ensures Abs(n) / Abs(d) == B63 <==> n == -B63 && (d == 1 || d == -1)
  {
    var a, b := Abs(n), Abs(d);
    var q := a / b;
    DivBounds(a, b);
    Positive(a, b);
    Times(1, b, q);
    assert q * b == b * q;
    if b >= 2 { Times(2, b, q); }
  }

  /** Negating after the conversion is negating before it, 2^63 included. */
  lemma NegatedTwice(q: int)
    requires 0 <= q <= B63
    ensures Signed64(0 - Signed64(q)) == Signed64(-q)
  {
  }

  /** sdiv64. */
  method Sdiv64(n: I64, d: I64) returns (r: Division)
    ensures d == 0 <==> r.Trap?
    ensures d != 0 ==> r == Quotient(Signed64(TruncDiv(n, d)))
  {
    var q := Udiv64(Abs(n), Abs(d));
    if q.Trap? {
      return Trap;
    }
    QuotientFits(n, d);
    NegatedTwice(q.q);
    return Quotient(if (n < 0) == (d < 0) then Signed64(q.q) else Signed64(0 - Signed64(q.q)));
  }

  /** sdiv64 is truncated division except for the one quotient that does not fit. */
  lemma SdivRight(n: I64, d: I64)
    requires d != 0
    ensures Signed64(TruncDiv(n, d)) == TruncDiv(n, d) <==> !(n == -B63 && d == -1)
  {
    QuotientFits(n, d);
  }

  /** smod64, which hands back only 32 bits of the remainder. */
  method Smod64(n: I64, d: I64) returns (r: Division)
    ensures d == 0 <==> r.Trap?
    ensures d != 0 ==> r == Quotient(Signed32(TruncMod(n, d)))
  {
    var q := Sdiv64(n, d);
    if q.Trap? {
      return Trap;
    }
    SdivRight(n, d);
    TruncModIs(n, d);
    return Quotient(Signed32(Signed64(n - Signed64(d * q.q))));
  }

  /** The signed remainder comes out right for every dividend exactly when the divisor's size is at most 2^31. */
  lemma SmodRight(d: I64)
    requires d != 0
    ensures (forall n: I64 :: Signed32(TruncMod(n, d)) == TruncMod(n, d)) <==> Abs(d) <= B31
  {
    if Abs(d) <= B31 {
      forall n: I64 ensures Signed32(TruncMod(n, d)) == TruncMod(n, d) { TruncModIs(n, d); }
    } else {
      var n: I64 := B31;
      TruncModIs(n, d);
      assert Abs(n) % Abs(d) == B31 by { DivIs(B31, Abs(d), 0); }
      assert Signed32(TruncMod(n, d)) != TruncMod(n, d);
    }
  }
}

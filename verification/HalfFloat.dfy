/** The binary16 codec of se_f16.c on bit patterns, and the in-place encoding of
    `binary_string_from_floats` in static_embeddings.c.

    A pattern is split into its fields; fields joined with `|` do not overlap, so they are added.
    Values are integers: binary32 magnitudes count units of 2^-149, binary16 magnitudes units of
    2^-24, and UNIT is the second unit measured in the first.
  */
module HalfFloat {
  import opened Utf8
  import opened Words

  lemma {:induction false} Pow2Adds(a: nat, b: nat)
    ensures Pow2(a + b) == Pow2(a) * Pow2(b)
  {
    if a > 0 { Pow2Adds(a - 1, b); }
  }

  // ----- fields and values -----

  function Sign32(x: Word32): (r: nat) ensures r < 2 { x / 0x8000_0000 }
  function Exp32(x: Word32): (r: nat) ensures r < 256 { x / 0x80_0000 % 256 }
  function Mant32(x: Word32): (r: nat) ensures r < 0x80_0000 { x % 0x80_0000 }

  function Sign16(h: Half): (r: nat) ensures r < 2 { h / 0x8000 }
  function Exp16(h: Half): (r: nat) ensures r < 32 { h / 0x400 % 32 }
  function Mant16(h: Half): (r: nat) ensures r < 0x400 { h % 0x400 }

  /** Unsigned 32-bit arithmetic. */
  function Add32(a: Word32, b: Word32): Word32 { if a + b >= 0x1_0000_0000 then a + b - 0x1_0000_0000 else a + b }
  function Dec32(a: Word32): Word32 { if a == 0 then 0xFFFF_FFFF else a - 1 }

  /** sign | exp << 23 | mant, the shift dropping what leaves the word. */
  function Join(sign: nat, exp: Word32, mant: nat): Word32
    requires (sign == 0 || sign == 0x8000_0000) && mant < 0x80_0000
  {
    if exp < 256 then sign + exp * 0x80_0000 + mant
    else if exp / 256 % 2 == 1 then 0x8000_0000 + exp % 256 * 0x80_0000 + mant
    else sign + exp % 256 * 0x80_0000 + mant
  }

  predicate Finite32(x: Word32) { Exp32(x) != 255 }
  predicate Finite16(h: Half) { Exp16(h) != 31 }
  predicate IsNaN32(x: Word32) { Exp32(x) == 255 && Mant32(x) != 0 }
  predicate IsNaN16(h: Half) { Exp16(h) == 31 && Mant16(h) != 0 }

  /** The magnitude of a finite binary32 in units of 2^-149. */
  function Value32(x: Word32): nat {
    if Exp32(x) == 0 then Mant32(x) else (Mant32(x) + 0x80_0000) * Pow2(Exp32(x) - 1)
  }

  /** The magnitude of a finite binary16 in units of 2^-24. The pattern of infinity gets the value
      its fields would have, 65536: what lies between it and 65504 is where overflow begins. */
  function Value16(h: Half): nat {
    if Exp16(h) == 0 then Mant16(h) else (Mant16(h) + 0x400) * Pow2(Exp16(h) - 1)
  }

  ghost function UNIT(): (r: nat) ensures r > 0 { Pow2(125) }

  // ----- the encoder -----

  /** `se_float_to_f16_bits` */
  function Encode(bits: Word32): Half {
    hide Sign32, Exp32, Mant32, Pow2;
    var sign := Sign32(bits) * 0x8000;
    var exp := Exp32(bits);
    var mant := Mant32(bits);
    if exp == 255 then
      if mant == 0 then sign + 0x7C00
      else sign + 0x7C00 + if mant / 0x2000 == 0 then 1 else mant / 0x2000
    else
      var halfExp := exp - 127 + 15;
      if halfExp >= 31 then sign + 0x7C00
      else if halfExp <= 0 then
        if halfExp < -10 then sign
        else
          var shift: nat := 14 - halfExp;
          RoundedFits(mant, shift);
          sign + (mant + 0x80_0000 + Pow2(shift - 1)) / Pow2(shift)
      else
        var up := mant + 0x1000;
        if up >= 0x80_0000 then
          if halfExp + 1 >= 31 then sign + 0x7C00 else sign + (halfExp + 1) * 0x400
        else sign + halfExp * 0x400 + up / 0x2000
  }

  lemma RoundedFits(mant: nat, shift: nat)
    requires mant < 0x80_0000 && 14 <= shift <= 24
    ensures (mant + 0x80_0000 + Pow2(shift - 1)) / Pow2(shift) <= 0x400
  {
    Pow2Adds(14, shift - 14);
    Pow2Ten();
    var p, n := Pow2(shift), mant + 0x80_0000 + Pow2(shift - 1);
    assert p == 2 * Pow2(shift - 1) && p >= 0x4000;
    assert 0x400 * p >= 0x100_0000;
    assert n < 0x401 * p;
    Quotient(n, p, 0x401);
  }

  lemma Product(a: nat, b: nat, p: nat)
    ensures a >= b ==> a * p >= b * p
  {
  }

  lemma Quotient(n: nat, p: nat, bound: nat)
    requires p > 0 && n < bound * p
    ensures n / p < bound
  {
    Product(n / p, bound, p);
  }

  // ----- the decoder -----

  /** Shifts a subnormal fraction up to its leading bit; the exponent counts down and may wrap. */
  function Normalized(mant: nat, exp: Word32): (r: (nat, Word32))
    requires 0 < mant < 0x800
    ensures 0x400 <= r.0 < 0x800
    decreases 0x800 - mant
  {
    if mant >= 0x400 then (mant, exp) else Normalized(2 * mant, Dec32(exp))
  }

  /** `se_f16_bits_to_float` */
  function Decode(h: Half): Word32 {
    var sign := Sign16(h) * 0x8000_0000;
    var exp := Exp16(h);
    var mant := Mant16(h);
    if exp == 0 then
      if mant == 0 then sign
      else
        var n := Normalized(mant, 1);
        Join(sign, Add32(n.1, 112), (n.0 - 0x400) * 0x2000)
    else if exp == 31 then Join(sign, 255, mant * 0x2000)
    else Join(sign, exp + 112, mant * 0x2000)
  }

  method HalfToFloat(h: Half) returns (bits: Word32)
    ensures bits == Decode(h)
  {
    hide Sign16, Exp16, Mant16, Join;
    var sign := Sign16(h) * 0x8000_0000;
    var exp: Word32 := Exp16(h);
    var mant := Mant16(h);
    if exp == 0 {
      if mant == 0 {
        bits := sign;
      } else {
        exp := 1;
        while mant / 0x400 % 2 == 0
          invariant 0 < mant < 0x800 && Normalized(mant, exp) == Normalized(Mant16(h), 1)
          decreases 0x800 - mant
        {
          mant := 2 * mant;
          exp := Dec32(exp);
        }
        mant := mant % 0x400;
        bits := Join(sign, Add32(exp, 112), mant * 0x2000);
      }
    } else if exp == 31 {
      bits := Join(sign, 255, mant * 0x2000);
    } else {
      bits := Join(sign, exp + 112, mant * 0x2000);
    }
  }

  /** 1 - k as an unsigned word. */
  function OneLess(k: nat): Word32
    requires k <= 11
  {
    if k <= 1 then 1 - k else 0x1_0000_0001 - k
  }

  /** j shifts: the exponent is still 1 minus the number of shifts, modulo 2^32. */
  lemma {:induction false} NormalizedMeans(mant: nat, k: nat) returns (j: nat)
    requires k <= 10 && Pow2(k) <= mant < 0x800
    ensures var n := Normalized(mant, OneLess(k)); n.0 == mant * Pow2(j) && k + j <= 10 && n.1 == OneLess(k + j)
    decreases 0x800 - mant
  {
    Pow2Ten();
    if mant >= 0x400 {
      j := 0;
    } else {
      var i := NormalizedMeans(2 * mant, k + 1);
      j := i + 1;
      Doubled(mant, Pow2(i));
    }
  }

  lemma Doubled(a: nat, p: nat)
    ensures 2 * a * p == a * (2 * p)
  {
  }

  lemma Pow2Ten()
    ensures Pow2(3) == 8 && Pow2(5) == 32 && Pow2(10) == 0x400 && Pow2(13) == 0x2000 && Pow2(14) == 0x4000
  {
  }

  /** The decoder keeps the sign and, for a finite half, the exact value. */
  lemma DecodeIsExact(h: Half)
    ensures Sign32(Decode(h)) == Sign16(h)
    ensures Finite32(Decode(h)) <==> Finite16(h)
    ensures Finite16(h) ==> Value32(Decode(h)) == Value16(h) * UNIT()
    ensures !Finite16(h) ==> Mant32(Decode(h)) == Mant16(h) * 0x2000
  {
    hide Sign32, Exp32, Mant32, Sign16, Exp16, Mant16, Pow2, Normalized, UNIT;
    var exp, mant := Exp16(h), Mant16(h);
    if exp == 0 && mant != 0 {
      SubnormalIsExact(h);
    } else if exp == 0 {
      Fields(Sign16(h), 0, 0);
    } else if exp == 31 {
      Fields(Sign16(h), 255, mant * 0x2000);
    } else {
      Fields(Sign16(h), exp + 112, mant * 0x2000);
      NormalValue(exp - 1, mant);
    }
  }

  lemma SubnormalIsExact(h: Half)
    requires Exp16(h) == 0 && Mant16(h) != 0
    ensures Sign32(Decode(h)) == Sign16(h) && Finite32(Decode(h)) && Value32(Decode(h)) == Value16(h) * UNIT()
  {
    hide Sign32, Exp32, Mant32, Sign16, Exp16, Mant16, Normalized, UNIT;
    var mant := Mant16(h);
    var j := NormalizedMeans(mant, 0);
    hide Pow2;
    var n := Normalized(mant, 1);
    Fields(Sign16(h), 113 - j, (n.0 - 0x400) * 0x2000);
    assert Value32(Decode(h)) == n.0 * 0x2000 * Pow2(112 - j);
    SubnormalValue(mant, j);
  }

  lemma SubnormalValue(mant: nat, j: nat)
    requires j <= 10
    ensures mant * Pow2(j) * 0x2000 * Pow2(112 - j) == mant * UNIT()
  {
    hide Pow2;
    Pow2Ten();
    Pow2Adds(j, 112 - j);
    Pow2Adds(112, 13);
    Rearrange(mant, Pow2(j), 0x2000, Pow2(112 - j));
  }

  lemma NormalValue(exp: nat, mant: nat)
    ensures (mant * 0x2000 + 0x80_0000) * Pow2(exp + 112) == (mant + 0x400) * Pow2(exp) * UNIT()
  {
    hide Pow2;
    Pow2Ten();
    Pow2Adds(exp, 112);
    Pow2Adds(112, 13);
    Rearrange2(mant + 0x400, 0x2000, Pow2(exp), Pow2(112));
  }

  lemma Rearrange(a: nat, b: nat, c: nat, d: nat)
    ensures a * b * c * d == a * (b * d * c)
  {
  }

  lemma Rearrange2(a: nat, b: nat, c: nat, d: nat)
    ensures a * b * (c * d) == a * c * (d * b)
  {
  }

  lemma Fields(sign: nat, exp: nat, mant: nat)
    requires sign < 2 && exp < 256 && mant < 0x80_0000
    ensures var x := sign * 0x8000_0000 + exp * 0x80_0000 + mant;
            x < 0x1_0000_0000 && x == Join(sign * 0x8000_0000, exp, mant) && Sign32(x) == sign && Exp32(x) == exp
                && Mant32(x) == mant
  {
  }

  // ----- the decoder in Ruby -----

  datatype Float = Number(negative: bool, magnitude: real) | Infinity(negative: bool) | NotANumber

  function Ldexp(x: real, exp: int): real {
    if exp >= 0 then x * Pow2(exp) as real else x / Pow2(-exp) as real
  }

  /** `half_to_float`; every number it computes fits a double. */
  function RubyHalfToFloat(h: Half): Float {
    var negative := Sign16(h) == 1;
    if Exp16(h) == 0 then Number(negative, if Mant16(h) == 0 then 0.0 else Ldexp(Mant16(h) as real, -24))
    else if Exp16(h) == 31 then (if Mant16(h) == 0 then Infinity(negative) else NotANumber)
    else Number(negative, Ldexp(1.0 + Mant16(h) as real / 1024.0, Exp16(h) - 15))
  }

  lemma LdexpScales(mant: nat, exp: nat)
    requires 1 <= exp <= 30
    ensures Ldexp(1.0 + mant as real / 1024.0, exp - 15) * Pow2(24) as real == ((mant + 0x400) * Pow2(exp - 1)) as real
  {
    hide Pow2;
    Pow2Ten();
    Pow2Adds(10, 14);
    var x := 1.0 + mant as real / 1024.0;
    assert x * 1024.0 == (mant + 0x400) as real;
    if exp >= 15 {
      Pow2Adds(exp - 15, 14);
      var p := Pow2(exp - 15) as real;
      assert Pow2(exp - 1) as real == p * 16384.0;
      assert x * p * 16777216.0 == x * 1024.0 * (p * 16384.0);
    } else {
      Pow2Adds(exp - 1, 15 - exp);
      var p, q := Pow2(15 - exp) as real, Pow2(exp - 1) as real;
      assert q * p == 16384.0;
      assert x / p * 16777216.0 == x * 1024.0 * (q * p) / p;
      assert x * 1024.0 * (q * p) / p == x * 1024.0 * q;
    }
  }

  lemma RubyIsExact(h: Half)
    requires Finite16(h)
    ensures RubyHalfToFloat(h).Number? && RubyHalfToFloat(h).magnitude * Pow2(24) as real == Value16(h) as real
  {
    hide Pow2, Exp16, Mant16;
    if Exp16(h) == 0 {
      assert Ldexp(Mant16(h) as real, -24) * Pow2(24) as real == Mant16(h) as real;
    } else {
      LdexpScales(Mant16(h), Exp16(h));
    }
  }

  /** The fallback in Ruby and the native decoder name the same number for every pattern, and NaN for the
      same patterns. */
  lemma DecodersAgree(h: Half)
    ensures match RubyHalfToFloat(h)
            case Number(negative, magnitude) =>
              && Finite32(Decode(h)) && (Sign32(Decode(h)) == 1 <==> negative)
              && magnitude * (Pow2(24) * UNIT()) as real == Value32(Decode(h)) as real
            case Infinity(negative) =>
              !Finite32(Decode(h)) && !IsNaN32(Decode(h)) && (Sign32(Decode(h)) == 1 <==> negative)
            case NotANumber => IsNaN32(Decode(h))
  {
    DecodeIsExact(h);
    hide Pow2, UNIT, Decode, Sign32, Exp32, Mant32, Sign16, Exp16, Mant16, Ldexp, Value16, Value32;
    if Finite16(h) {
      RubyIsExact(h);
      SameUnit(RubyHalfToFloat(h).magnitude, Pow2(24), UNIT(), Value16(h));
    }
  }

  lemma SameUnit(x: real, a: nat, b: nat, v: nat)
    requires x * a as real == v as real
    ensures x * (a * b) as real == (v * b) as real
  {
    assert (a * b) as real == a as real * b as real;
    assert x * (a as real * b as real) == x * a as real * b as real;
  }

  // ----- the spacing of the halves -----

  /** The finite magnitudes in order, and behind them the pattern of infinity. */
  type Magnitude = h: Half | h <= 0x7C00

  lemma NormalAt(e: nat, q: nat)
    requires 1 <= e <= 30 && q <= 0x400
    ensures e * 0x400 + q <= 0x7C00 && Value16(e * 0x400 + q) == (q + 0x400) * Pow2(e - 1)
  {
    if q == 0x400 {
      Split(e + 1, 0);
      Doubled(0x400, Pow2(e - 1));
    } else {
      Split(e, q);
    }
  }

  lemma Split(e: nat, q: nat)
    requires e < 32 && q < 0x400
    ensures var h := e * 0x400 + q; h < 0x8000 && Exp16(h) == e && Mant16(h) == q && Sign16(h) == 0
  {
  }

  lemma SubnormalAt(h: nat)
    requires h <= 0x401
    ensures Value16(h) == h
  {
    if h < 0x400 { Split(0, h); } else { Split(1, h - 0x400); }
  }

  /** What lies next to the half with fields e and q: one step up is at least, one down at most 2^(e-1). */
  lemma Neighbours(e: nat, q: nat)
    requires 1 <= e <= 30 && q <= 0x400
    ensures var h := e * 0x400 + q;
            && Value16(h - 1) < Value16(h) == (q + 0x400) * Pow2(e - 1)
            && (q > 0 ==> Value16(h - 1) == (q - 1 + 0x400) * Pow2(e - 1))
            && (h < 0x7C00 ==> Value16(h + 1) >= (q + 1 + 0x400) * Pow2(e - 1))
  {
    hide Value16, Pow2;
    NormalAt(e, q);
    if q > 0 {
      NormalAt(e, q - 1);
    } else {
      BelowBinade(e);
    }
    StepUp(q + 0x3FF, Pow2(e - 1));
    if q < 0x400 {
      NormalAt(e, q + 1);
    } else if e < 30 {
      NormalAt(e + 1, 1);
      PowStep(e);
      Doubled(0x401, Pow2(e - 1));
      Product(0x802, 0x801, Pow2(e - 1));
    }
  }

  lemma StepUp(a: nat, p: nat)
    requires p > 0
    ensures a * p < (a + 1) * p
  {
  }

  lemma PowStep(e: nat)
    requires e > 0
    ensures Pow2(e) == 2 * Pow2(e - 1)
  {
  }

  lemma BelowBinade(e: nat)
    requires 1 <= e <= 30
    ensures Value16(e * 0x400 - 1) < 0x400 * Pow2(e - 1)
  {
    hide Value16, Pow2;
    if e > 1 {
      NormalAt(e - 1, 0x3FF);
      PowStep(e - 1);
    } else {
      SubnormalAt(0x3FF);
      assert Pow2(0) == 1 by { Pow2Zero(); }
    }
  }

  lemma Pow2Zero()
    ensures Pow2(0) == 1
  {
  }

  lemma {:induction false} ValuesIncrease(a: Magnitude, b: Magnitude)
    ensures a < b ==> Value16(a) < Value16(b)
    decreases b
  {
    if a < b {
      if b <= 0x401 {
        SubnormalAt(a);
        SubnormalAt(b);
      } else {
        assert b == b / 0x400 * 0x400 + b % 0x400;
        if b == 0x7C00 { Neighbours(30, 0x400); } else { Neighbours(b / 0x400, b % 0x400); }
        ValuesIncrease(a, b - 1);
      }
    }
  }

  // ----- rounding -----

  /** x lies from the midpoint below h, included, to the midpoint above it. */
  ghost predicate Rounds(x: nat, h: nat) {
    && h <= 0x7C00
    && (h > 0 ==> 2 * x >= (Value16(h - 1) + Value16(h)) * UNIT())
    && (h < 0x7C00 ==> 2 * x < (Value16(h) + Value16(h + 1)) * UNIT())
  }

  function Distance(a: int, b: int): nat { if a <= b then b - a else a - b }

  /** Rounding is to the nearest half; of two equally near ones the larger is taken. */
  lemma RoundsToNearest(x: nat, h: Magnitude, g: Magnitude)
    requires Rounds(x, h) && h < 0x7C00 && g < 0x7C00 && g != h
    ensures Distance(x, Value16(h) * UNIT()) <= Distance(x, Value16(g) * UNIT())
    ensures Distance(x, Value16(h) * UNIT()) == Distance(x, Value16(g) * UNIT()) ==> g < h
  {
    hide Value16, UNIT, Distance;
    if g < h {
      ValuesIncrease(g, h);
      ValuesIncrease(g, h - 1);
      ValuesIncrease(h - 1, h);
      NearerAbove(x, Value16(g), Value16(h - 1), Value16(h), UNIT());
    } else {
      ValuesIncrease(h, g);
      ValuesIncrease(h + 1, g);
      ValuesIncrease(h, h + 1);
      NearerBelow(x, Value16(h), Value16(h + 1), Value16(g), UNIT());
    }
  }

  lemma NearerAbove(x: nat, a: nat, b: nat, c: nat, u: nat)
    requires a <= b <= c && a < c && u > 0 && 2 * x >= (b + c) * u
    ensures Distance(x, c * u) <= Distance(x, a * u)
  {
    Midpoint(a, b, c, u);
    var low, high, mid := a * u, c * u, (b + c) * u;
    assert low + high <= mid;
  }

  lemma NearerBelow(x: nat, a: nat, b: nat, c: nat, u: nat)
    requires a <= b <= c && a < c && u > 0 && 2 * x < (a + b) * u
    ensures Distance(x, a * u) < Distance(x, c * u)
  {
    Midpoint(a, b, c, u);
    var low, high, mid := a * u, c * u, (a + b) * u;
    assert mid <= low + high;
  }

  lemma Midpoint(a: nat, b: nat, c: nat, u: nat)
    requires a <= b <= c && a < c && u > 0
    ensures a * u + c * u <= (b + c) * u && (a + b) * u <= a * u + c * u && a * u < c * u
  {
    Distribute(a, c, u);
    Product(b + c, a + c, u);
    Product(a + c, a + b, u);
    Distribute(a, c - a, u);
    Product(c - a, 1, u);
  }

  lemma Distribute(a: nat, b: nat, u: nat)
    ensures (a + b) * u == a * u + b * u
  {
  }

  /** Rounding keeps the order; so it has one result. */
  lemma RoundsMonotone(x: nat, y: nat, h: Magnitude, g: Magnitude)
    requires Rounds(x, h) && Rounds(y, g) && x <= y
    ensures h <= g
  {
    hide Value16, UNIT;
    if h > g {
      ValuesIncrease(g, h - 1);
      ValuesIncrease(g + 1, h);
      Product(Value16(h - 1) + Value16(h), Value16(g) + Value16(g + 1), UNIT());
    }
  }

  /** Infinity is the result exactly from 65520 on. */
  lemma InfiniteFrom65520(x: nat, h: Magnitude)
    requires Rounds(x, h)
    ensures h == 0x7C00 <==> x >= 65520 * Pow2(149)
  {
    hide Value16, UNIT, Pow2;
    Threshold();
    if h < 0x7C00 {
      ValuesIncrease(h, 0x7BFF);
      ValuesIncrease(h + 1, 0x7C00);
      Product(Value16(0x7BFF) + Value16(0x7C00), Value16(h) + Value16(h + 1), UNIT());
    }
  }

  lemma Threshold()
    ensures (Value16(0x7BFF) + Value16(0x7C00)) * UNIT() == 2 * (65520 * Pow2(149))
  {
    hide Value16, Pow2;
    Pow2Adds(24, 125);
    TopValues();
    Scaled(Value16(0x7BFF) + Value16(0x7C00), Pow2(24), UNIT());
  }

  lemma TopValues()
    ensures Value16(0x7BFF) + Value16(0x7C00) == 4095 * (32 * Pow2(24))
  {
    hide Value16, Pow2;
    Pow2Ten();
    Pow2Adds(5, 24);
    Neighbours(30, 0x400);
  }

  lemma Scaled(v: nat, p: nat, u: nat)
    requires v == 4095 * (32 * p)
    ensures v * u == 2 * (65520 * (p * u))
  {
    assert v == 131040 * p;
  }

  // ----- the encoder rounds -----

  lemma {:induction false} Pow2Grows(a: nat, b: nat)
    requires a <= b
    ensures Pow2(a) <= Pow2(b)
    decreases b
  {
    if a < b { Pow2Grows(a, b - 1); }
  }

  lemma NormalRounds(exp: nat, mant: nat)
    requires 113 <= exp <= 142 && mant < 0x80_0000
    ensures Rounds((mant + 0x80_0000) * Pow2(exp - 1), (exp - 112) * 0x400 + (mant + 0x1000) / 0x2000)
  {
    hide Value16, UNIT, Pow2;
    var e, q := exp - 112, (mant + 0x1000) / 0x2000;
    var h := e * 0x400 + q;
    Neighbours(e, q);
    Binades(e);
    Band(mant + 0x80_0000, q, Pow2(e - 1), UNIT(), Pow2(exp - 1), Value16(h - 1),
         if h < 0x7C00 then Value16(h + 1) else (q + 0x401) * Pow2(e - 1));
  }

  lemma Binades(e: nat)
    requires e >= 1
    ensures Pow2(e - 1) * UNIT() == 0x2000 * Pow2(e + 111)
  {
    hide Pow2;
    Pow2Ten();
    Pow2Adds(e - 1, 125);
    Pow2Adds(e + 111, 13);
  }

  lemma Band(m: nat, q: nat, p: nat, u: nat, w: nat, below: nat, above: nat)
    requires p > 0 && u > 0 && w > 0 && p * u == 0x2000 * w && m >= 0x80_0000
    requires (q + 0x400) * 0x2000 <= m + 0x1000 < (q + 0x401) * 0x2000
    requires below <= (q + 0x400) * p && (q > 0 ==> below == (q - 1 + 0x400) * p) && above >= (q + 0x401) * p
    ensures 2 * (m * w) >= (below + (q + 0x400) * p) * u
    ensures 2 * (m * w) < ((q + 0x400) * p + above) * u
  {
    var lower := if q > 0 then 2 * q + 0x7FF else 0x800;
    var upper := 2 * q + 0x801;
    Grouped(lower, p, u, w);
    Grouped(upper, p, u, w);
    BandEdges(q, p, below, above, lower);
    Product(lower * p, below + (q + 0x400) * p, u);
    Product((q + 0x400) * p + above, upper * p, u);
    Product(2 * m, lower * 0x2000, w);
    ScaleUp(2 * m, upper * 0x2000, w);
    assert 2 * m * w == 2 * (m * w);
  }

  lemma BandEdges(q: nat, p: nat, below: nat, above: nat, lower: nat)
    requires below <= (q + 0x400) * p && (q > 0 ==> below == (q - 1 + 0x400) * p) && above >= (q + 0x401) * p
    requires lower == if q > 0 then 2 * q + 0x7FF else 0x800
    ensures lower * p >= below + (q + 0x400) * p && (q + 0x400) * p + above >= (2 * q + 0x801) * p
  {
  }

  lemma Grouped(a: nat, p: nat, u: nat, w: nat)
    requires p * u == 0x2000 * w
    ensures a * p * u == a * 0x2000 * w
  {
    assert a * p * u == a * (p * u);
  }

  lemma SubnormalRounds(exp: nat, mant: nat)
    requires 102 <= exp <= 112 && mant < 0x80_0000
    ensures var shift := 126 - exp;
            Rounds((mant + 0x80_0000) * Pow2(exp - 1), (mant + 0x80_0000 + Pow2(shift - 1)) / Pow2(shift))
  {
    hide Value16, UNIT, Pow2;
    var shift, m := 126 - exp, mant + 0x80_0000;
    RoundedFits(mant, shift);
    var r := (m + Pow2(shift - 1)) / Pow2(shift);
    if r > 0 { SubnormalAt(r - 1); }
    SubnormalAt(r);
    SubnormalAt(r + 1);
    PowStep(shift);
    ShiftedUnit(exp);
    HalfUp(m, Pow2(shift - 1), Pow2(exp - 1), UNIT());
  }

  lemma ShiftedUnit(exp: nat)
    requires 102 <= exp <= 112
    ensures Pow2(126 - exp) * Pow2(exp - 1) == UNIT()
  {
    hide Pow2;
    Pow2Adds(126 - exp, exp - 1);
  }

  lemma HalfUp(m: nat, half: nat, w: nat, u: nat)
    requires half > 0 && w > 0 && 2 * half * w == u
    ensures var r := (m + half) / (2 * half);
            (r > 0 ==> 2 * (m * w) >= (r - 1 + r) * u) && 2 * (m * w) < (r + (r + 1)) * u
  {
    HalfUpBounds(m, half);
    HalfUpScaled(m, (m + half) / (2 * half), 2 * half, w);
  }

  lemma HalfUpScaled(m: nat, r: nat, s: nat, w: nat)
    requires w > 0 && 2 * m < (2 * r + 1) * s && (r > 0 ==> 2 * m >= (2 * r - 1) * s)
    ensures (r > 0 ==> 2 * (m * w) >= (r - 1 + r) * (s * w)) && 2 * (m * w) < (r + (r + 1)) * (s * w)
  {
    Grouping(2, m, w);
    Grouping(2 * r + 1, s, w);
    ScaleUp(2 * m, (2 * r + 1) * s, w);
    if r > 0 {
      Grouping(2 * r - 1, s, w);
      Product(2 * m, (2 * r - 1) * s, w);
    }
  }

  lemma HalfUpBounds(m: nat, half: nat)
    requires half > 0
    ensures var r, s := (m + half) / (2 * half), 2 * half;
            2 * m < (2 * r + 1) * s && (r > 0 ==> 2 * m >= (2 * r - 1) * s)
  {
    var r, s := (m + half) / (2 * half), 2 * half;
    Euclid(m + half, s);
    assert (r + 1) * s == r * s + s && (2 * r + 1) * s == 2 * (r * s) + s && (2 * r - 1) * s == 2 * (r * s) - s;
  }

  lemma ScaleUp(a: nat, b: nat, w: nat)
    requires a < b && w > 0
    ensures a * w < b * w
  {
  }

  lemma Grouping(a: int, s: nat, w: nat)
    ensures a * s * w == a * (s * w)
  {
  }

  lemma Euclid(n: nat, s: nat)
    requires s > 0
    ensures n / s * s <= n < (n / s + 1) * s
  {
  }

  lemma TinyRounds(exp: nat, mant: nat)
    requires exp < 102 && mant < 0x80_0000
    ensures Rounds(if exp == 0 then mant else (mant + 0x80_0000) * Pow2(exp - 1), 0)
  {
    hide Value16, UNIT, Pow2;
    SubnormalAt(0);
    SubnormalAt(1);
    Pow2Ten();
    TinyUnit();
    if exp > 0 {
      Pow2Grows(exp - 1, 100);
      Product(Pow2(100), Pow2(exp - 1), mant + 0x80_0000);
      Product(0x100_0000, mant + 0x80_0001, Pow2(100));
    }
  }

  lemma TinyUnit()
    ensures UNIT() == 2 * (0x100_0000 * Pow2(100)) && Pow2(100) > 0
  {
    hide Pow2;
    Pow2Ten();
    Pow2Adds(10, 14);
    Pow2Adds(24, 100);
    PowStep(125);
  }

  lemma HugeRounds(exp: nat, mant: nat)
    requires 143 <= exp && mant < 0x80_0000
    ensures Rounds((mant + 0x80_0000) * Pow2(exp - 1), 0x7C00)
  {
    hide Value16, UNIT, Pow2;
    Threshold();
    Pow2Ten();
    Pow2Adds(10, 13);
    Pow2Adds(23, 142);
    Pow2Adds(13, 3);
    Pow2Adds(16, 149);
    Pow2Grows(142, exp - 1);
    Product(Pow2(exp - 1), Pow2(142), mant + 0x80_0000);
    Product(mant + 0x80_0000, 0x80_0000, Pow2(142));
  }

  /** The encoder keeps the sign and rounds the value to the nearest half, ties away from zero. */
  lemma EncodeRounds(bits: Word32)
    requires Finite32(bits)
    ensures Sign16(Encode(bits)) == Sign32(bits) && Rounds(Value32(bits), Encode(bits) % 0x8000)
  {
    hide Sign32, Exp32, Mant32, Exp16, Mant16, Value16, UNIT, Pow2, Rounds;
    var exp, mant := Exp32(bits), Mant32(bits);
    if exp < 102 {
      TinyRounds(exp, mant);
    } else if exp <= 112 {
      SubnormalRounds(exp, mant);
      RoundedFits(mant, 126 - exp);
    } else if exp <= 142 {
      NormalRounds(exp, mant);
    } else {
      HugeRounds(exp, mant);
    }
  }

  // ----- what the codec promises -----

  /** roundTiesToAway of IEEE 754-2008, section 4.3.1: no finite half is nearer, and of two equally
      near ones the one larger in magnitude is taken; infinity is the result exactly from 65520 on. */
  lemma EncodeIsNearest(bits: Word32, g: Half)
    requires Finite32(bits)
    ensures var h := Encode(bits);
            && Sign16(h) == Sign32(bits)
            && (Finite16(h) <==> Value32(bits) < 65520 * Pow2(149))
            && (!Finite16(h) ==> h % 0x8000 == 0x7C00)
            && (Finite16(h) && Finite16(g) ==>
                  var d := Distance(Value32(bits), Value16(h) * UNIT());
                  var e := Distance(Value32(bits), Value16(g) * UNIT());
                  d <= e && (d == e ==> Value16(g) <= Value16(h)))
  {
    hide Sign16, Sign32, Finite32, Value32, Value16, UNIT, Pow2, Encode, Distance;
    var h: Half := Encode(bits);
    EncodeRounds(bits);
    var a, b := h % 0x8000, g % 0x8000;
    Unsigned(h);
    Unsigned(g);
    InfiniteFrom65520(Value32(bits), a);
    if Finite16(h) && Finite16(g) && a != b {
      RoundsToNearest(Value32(bits), a, b);
      ValuesIncrease(b, a);
    }
  }

  /** The sign bit apart, a half is its magnitude pattern. */
  lemma Unsigned(h: Half)
    ensures var m := h % 0x8000;
            && Value16(m) == Value16(h) && Exp16(m) == Exp16(h) && Mant16(m) == Mant16(h) && h == Sign16(h) * 0x8000 + m
            && (Finite16(h) <==> m < 0x7C00) && (m == 0x7C00 <==> !Finite16(h) && Mant16(h) == 0)
  {
    assert h % 0x8000 / 0x400 == h / 0x400 % 32;
    assert h % 0x8000 % 0x400 == h % 0x400;
  }

  lemma SpecialsAreKept(bits: Word32)
    requires !Finite32(bits)
    ensures Sign16(Encode(bits)) == Sign32(bits) && !Finite16(Encode(bits))
    ensures IsNaN16(Encode(bits)) <==> IsNaN32(bits)
  {
    hide Sign32, Exp32, Mant32;
  }

  /** A finite number as a signed integer pattern, ordered like its value. */
  function Key16(h: Half): int { if Sign16(h) == 1 then -(h % 0x8000) else h % 0x8000 }

  function Signed32(bits: Word32): int { if Sign32(bits) == 1 then -(Value32(bits) as int) else Value32(bits) }

  lemma EncodeKeepsOrder(x: Word32, y: Word32)
    requires Finite32(x) && Finite32(y) && Signed32(x) <= Signed32(y)
    ensures Key16(Encode(x)) <= Key16(Encode(y))
  {
    hide Sign16, Sign32, Finite32, Value32, Value16, UNIT, Encode, Rounds;
    EncodeRounds(x);
    EncodeRounds(y);
    var a, b := Encode(x) % 0x8000, Encode(y) % 0x8000;
    RoundsAreMagnitudes(Value32(x), a);
    RoundsAreMagnitudes(Value32(y), b);
    if Value32(x) <= Value32(y) { RoundsMonotone(Value32(x), Value32(y), a, b); }
    if Value32(y) <= Value32(x) { RoundsMonotone(Value32(y), Value32(x), b, a); }
    if Value32(x) == 0 { ZeroRoundsToZero(a); }
    if Value32(y) == 0 { ZeroRoundsToZero(b); }
  }

  lemma ZeroRoundsToZero(h: nat)
    requires Rounds(0, h)
    ensures h == 0
  {
    hide Value16, UNIT;
    SubnormalAt(0);
    ExactRounds(0);
    RoundsMonotone(0, 0, h, 0);
  }

  lemma RoundsAreMagnitudes(x: nat, h: nat)
    requires Rounds(x, h)
    ensures h <= 0x7C00
  {
  }

  /** Every half survives being decoded and encoded, NaN patterns included. */
  lemma EncodeUndoesDecode(h: Half)
    ensures Encode(Decode(h)) == h
  {
    DecodeIsExact(h);
    Unsigned(h);
    var bits := Decode(h);
    if Finite16(h) {
      EncodeRounds(bits);
      Unsigned(Encode(bits));
      hide Encode, Decode, Value32, Value16, UNIT, Sign16, Sign32, Finite32, Finite16, Exp16, Mant16;
      var m, back := h % 0x8000, Encode(bits) % 0x8000;
      ExactRounds(m);
      RoundsAreMagnitudes(Value32(bits), back);
      RoundsMonotone(Value32(bits), Value32(bits), m, back);
      RoundsMonotone(Value32(bits), Value32(bits), back, m);
    } else {
      hide Sign32, Exp32, Mant32, Sign16, Exp16, Mant16, Decode;
    }
  }

  lemma ExactRounds(m: Magnitude)
    requires m < 0x7C00
    ensures Rounds(Value16(m) * UNIT(), m)
  {
    hide Value16, UNIT;
    ValuesIncrease(m, m + 1);
    Distribute(Value16(m), Value16(m + 1), UNIT());
    ScaleUp(Value16(m), Value16(m + 1), UNIT());
    if m > 0 {
      ValuesIncrease(m - 1, m);
      Distribute(Value16(m - 1), Value16(m), UNIT());
      ScaleUp(Value16(m - 1), Value16(m), UNIT());
    }
  }

  // ----- buffers -----

  /** The first `count` floats of a buffer as halves. */
  ghost function Encoded(src: seq<byte>, count: nat): (r: seq<Half>)
    requires 4 * count <= |src|
    ensures |r| == count && forall i: nat | i < count :: r[i] == Encode(ReadU32(src, 4 * i))
  {
    if count == 0 then [] else Encoded(src, count - 1) + [Encode(ReadU32(src, 4 * (count - 1)))]
  }

  ghost predicate HoldsHalves(s: seq<byte>, halves: seq<Half>) {
    2 * |halves| <= |s| && forall i: nat | i < |halves| :: HalfAt(s, i) == halves[i]
  }

  /** `se_encode_f16_from_floats`. The two buffers may be the same one: the write of element i ends
      at byte 2i + 2, before the unread floats from byte 4i + 4 on. */
  method EncodeFloats(dst: array<byte>, src: array<byte>, count: nat)
    requires 4 * count <= src.Length && 2 * count <= dst.Length
    modifies dst
    ensures HoldsHalves(dst[..2 * count], Encoded(old(src[..]), count))
    ensures dst[2 * count..] == old(dst[2 * count..])
  {
    hide Encode, Encoded, ReadU32, Le16, Le32;
    ghost var floats := src[..];
    var i: nat := 0;
    while i < count
      invariant i <= count
      invariant forall k: nat | k < i :: Le16(dst[2 * k], dst[2 * k + 1]) == Encode(ReadU32(floats, 4 * k))
      invariant forall k: nat | 2 * i <= k < dst.Length :: dst[k] == old(dst[k])
      invariant forall k: nat | 2 * i <= k < src.Length :: src[k] == floats[k]
    {
      var half := Encode(Le32(src[4 * i], src[4 * i + 1], src[4 * i + 2], src[4 * i + 3]));
      WordIs(floats, 4 * i);
      HalfSplits(half);
      dst[2 * i] := half % 0x100;
      dst[2 * i + 1] := half / 0x100;
      i := i + 1;
    }
    ghost var halves := Encoded(floats, count);
    forall k: nat | k < |halves|
      ensures HalfAt(dst[..2 * count], k) == halves[k]
    {
      assert Le16(dst[2 * k], dst[2 * k + 1]) == Encode(ReadU32(floats, 4 * k));
    }
  }

  lemma WordIs(s: seq<byte>, off: nat)
    requires off + 4 <= |s|
    ensures ReadU32(s, off) == Le32(s[off], s[off + 1], s[off + 2], s[off + 3])
  {
  }

  lemma HalfSplits(h: Half)
    ensures h % 0x100 < 0x100 && h / 0x100 < 0x100 && Le16(h % 0x100, h / 0x100) == h
  {
  }

  /** `binary_string_from_floats` for halves: the buffer is encoded onto its own start. */
  method EncodeInPlace(buf: array<byte>, count: nat) returns (out: seq<byte>)
    requires 4 * count == buf.Length
    modifies buf
    ensures |out| == 2 * count && HoldsHalves(out, Encoded(old(buf[..]), count))
  {
    EncodeFloats(buf, buf, count);
    out := buf[..2 * count];
  }

  /** `se_decode_f16_to_floats` */
  method DecodeFloats(dst: array<Word32>, src: array<byte>, count: nat)
    requires count <= dst.Length && 2 * count <= src.Length
    modifies dst
    ensures forall i: nat | i < count :: dst[i] == Decode(HalfAt(src[..], i))
    ensures dst[count..] == old(dst[count..])
  {
    hide Decode;
    var i: nat := 0;
    while i < count
      invariant i <= count
      invariant forall k: nat | k < i :: dst[k] == Decode(HalfAt(src[..], k))
      invariant forall k: nat | i <= k < dst.Length :: dst[k] == old(dst[k])
    {
      assert src[..][2 * i] == src[2 * i] && src[..][2 * i + 1] == src[2 * i + 1];
      dst[i] := HalfToFloat(Le16(src[2 * i], src[2 * i + 1]));
      i := i + 1;
    }
  }

  /** Bytes are determined by the halves they hold, so both ways of encoding give the same bytes. */
  lemma SameHalvesSameBytes(a: seq<byte>, b: seq<byte>, halves: seq<Half>)
    requires HoldsHalves(a, halves) && HoldsHalves(b, halves) && |a| == |b| == 2 * |halves|
    ensures a == b
  {
    forall k: nat | k < |a|
      ensures a[k] == b[k]
    {
      var i := k / 2;
      assert HalfAt(a, i) == HalfAt(b, i);
      Le16Splits(a[2 * i], a[2 * i + 1]);
      Le16Splits(b[2 * i], b[2 * i + 1]);
      assert k == 2 * i || k == 2 * i + 1;
    }
  }
}

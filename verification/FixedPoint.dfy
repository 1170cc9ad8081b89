/** The tuner's 64-bit fixed-point helpers, each against an exact specification. */
module FixedPoint {
  import opened Arith
  import opened Fractions

  const Q: nat := 16
  const ONE: nat := 0x1_0000
  const GAMMA: nat := 65503
  const LN2: nat := 45426

  // ---------- Write amplification ----------

  /** 65536 * (1 + gc / host), rounded down. */
  ghost function Waf(host: nat, gc: nat): nat
    requires host > 0
  {
    ONE + gc * ONE / host
  }

  lemma LongDivision(rem0: nat, f: nat, rem: nat, host: nat)
    requires rem < host && rem0 * ONE == f * host + rem
    ensures rem0 * ONE / host == f
  {
    var x := f * host + rem;
    assert x == x / host * host + x % host;
    if x / host > f {
      MulLe(f + 1, x / host, host);
    } else if x / host < f {
      MulLe(x / host + 1, f, host);
    }
  }

  lemma WholePlusFraction(gc: nat, host: nat, whole: nat, rem: nat, f: nat, r: nat)
    requires host > 0 && gc == whole * host + rem && rem < host
    requires r < host && rem * ONE == f * host + r
    ensures gc * ONE / host == whole * ONE + f
  {
    assert gc * ONE == (whole * ONE + f) * host + r by {
      assert gc * ONE == whole * host * ONE + rem * ONE;
      assert whole * host * ONE == whole * ONE * host;
      assert (whole * ONE + f) * host == whole * ONE * host + f * host;
    }
    LongDivision(gc, whole * ONE + f, r, host);
  }

  function Half(i: nat): nat
    requires i <= 16
  {
    [1, 2, 4, 8, 16, 32, 64, 128, 256, 512, 1024, 2048, 4096, 8192, 16384, 32768, 65536][i]
  }

  /** After `i` bits the quotient is `f` and the remainder `rem`. */
  ghost predicate Divided(rem0: nat, host: nat, i: nat, f: nat, rem: nat)
    requires i <= 16
  {
    rem < host && f < Half(i) && rem0 * Half(i) == f * host + rem
  }

  /** One more bit of the quotient. */
  lemma DivisionStep(rem0: nat, host: nat, i: nat, f: nat, rem: nat)
    requires i < 16 && Divided(rem0, host, i, f, rem)
    ensures rem < host && f < 0x1_0000
    ensures rem >= host - rem ==> Divided(rem0, host, i + 1, 2 * f + 1, rem - (host - rem))
    ensures rem < host - rem ==> Divided(rem0, host, i + 1, 2 * f, rem + rem)
  {
    assert Half(i + 1) == 2 * Half(i);
    assert rem0 * (2 * Half(i)) == 2 * (rem0 * Half(i));
  }

  lemma DivisionEnds(host: nat, gc: nat, rem0: nat, f: nat, rem: nat)
    requires host > 0 && rem0 == Rem(gc, host) && Divided(rem0, host, 16, f, rem)
    ensures f < ONE && Waf(host, gc) == (Quot(gc, host) + 1) * ONE + f
  {
    WholePlusFraction(gc, host, Quot(gc, host), rem0, f, rem);
  }

  method WafQ16(host: nat, gc: nat) returns (ok: bool, out: nat)
    requires host <= MAX64 && gc <= MAX64
    ensures ok <==> host > 0 && Quot(gc, host) < 65535
    ensures ok ==> out == Waf(host, gc) && 65536 <= out <= 0xFFFF_FFFF
    ensures ok ==> (out - 65536) * host <= gc * 65536 < (out - 65536 + 1) * host
  {
    hide Divided, Waf, Half, Quot, Rem;
    out := 0;
    if host == 0 {
      return false, 0;
    }
    var whole: nat, rem: nat := Quot(gc, host), Rem(gc, host);
    if whole >= 65535 {
      return false, 0;
    }
    ghost var rem0: nat := rem;
    var fraction: nat := 0;
    var i: nat := 0;
    DivisionStarts(rem0, host);
    while i < Q
      invariant i <= Q && rem < host && Divided(rem0, host, i, fraction, rem)
    {
      DivisionStep(rem0, host, i, fraction, rem);
      fraction := fraction * 2;
      if rem >= host - rem {
        rem := rem - (host - rem);
        fraction := fraction + 1;
      } else {
        assert rem + rem <= MAX64;
        rem := rem + rem;
      }
      i := i + 1;
    }
    DivisionEnds(host, gc, rem0, fraction, rem);
    WafBounds(host, gc);
    // the whole part is shifted past the sixteen bits of the fraction
    out := (whole + 1) * ONE + fraction;
    ok := true;
  }

  lemma WafBounds(host: nat, gc: nat)
    requires host > 0
    ensures Waf(host, gc) >= 65536
    ensures (Waf(host, gc) - 65536) * host <= gc * 65536 < (Waf(host, gc) - 65536 + 1) * host
  {
    var q := gc * ONE / host;
    assert gc * ONE == q * host + gc * ONE % host;
  }

  lemma DivisionStarts(rem0: nat, host: nat)
    requires rem0 < host
    ensures Divided(rem0, host, 0, 0, rem0)
  {
  }

  // ---------- Discounting ----------

  function Discount(v: nat): nat {
    v / ONE * GAMMA + v % ONE * GAMMA / ONE
  }

  /** The split product neither overflows nor loses anything: it is the rounded-down product. */
  lemma DiscountExact(v: nat)
    ensures Discount(v) == v * GAMMA / ONE
    ensures v <= MAX64 ==> v / ONE * GAMMA + v % ONE * GAMMA / ONE <= MAX64 && v % ONE * GAMMA <= MAX64
    ensures Discount(v) * ONE <= v * GAMMA && Discount(v) <= v
  {
    var hi, lo := v / ONE, v % ONE;
    assert v * GAMMA == hi * GAMMA * ONE + lo * GAMMA;
  }

  // ---------- Square root ----------

  /** A power of two no larger than 2^32, halved step by step. */
  ghost predicate Pow2(q: nat) {
    q > 0 && (q == 1 || (q % 2 == 0 && Pow2(q / 2)))
  }

  lemma Square(a: int, b: int)
    ensures (a + b) * (a + b) == a * a + 2 * (a * b) + b * b
  {
  }

  lemma SqrtStep(v0: nat, s: nat, p: nat)
    ensures (s + p) * (s + p) == s * s + s * (2 * p) + p * p
    ensures s * (2 * p) / 2 == s * p && (s + p) * p == s * p + p * p
  {
    Square(s, p);
    assert s * (2 * p) == 2 * (s * p);
    assert (s + p) * p == s * p + p * p;
  }

  lemma MulMono(a: nat, b: nat)
    requires a <= b
    ensures a * a <= b * b
  {
    MulLe(a, b, a);
    MulLe(a, b, b);
  }

  lemma QuarterSquare(p: nat)
    requires p % 2 == 0
    ensures p * p / 4 == p / 2 * (p / 2)
  {
    var h := p / 2;
    assert p == 2 * h;
    assert p * p == 4 * (h * h);
  }

  method Sqrt(v0: nat) returns (root: nat)
    requires v0 <= MAX64
    ensures root * root <= v0 < (root + 1) * (root + 1)
  {
    var value: nat := v0;
    root := 0;
    var bit: nat := 0x4000_0000_0000_0000;
    ghost var q: nat := 0x1_0000_0000;
    assert Pow2(q) by { BigPow(); }
    assert v0 < q * q;
    while bit > value
      invariant Pow2(q) && q <= 0x1_0000_0000 && bit == q / 2 * (q / 2) && v0 < q * q
    {
      BitsHalve(q);
      bit := bit / 4;
      q := q / 2;
    }
    ghost var s: nat := 0;
    while bit != 0
      invariant Pow2(q) && s + q <= 0x1_0000_0000 && bit == q / 2 * (q / 2)
      invariant root == s * q && v0 == s * s + value && v0 < (s + q) * (s + q)
      decreases q
    {
      BitsHalve(q);
      ghost var p := q / 2;
      SqrtStep(v0, s, p);
      MulMono(s + p, 0xFFFF_FFFF);
      assert root + bit <= MAX64;
      if value >= root + bit {
        value := value - (root + bit);
        root := root / 2 + bit;
        s := s + p;
      } else {
        root := root / 2;
      }
      bit := bit / 4;
      q := p;
    }
    LastBit(q);
  }

  lemma BigPow()
    ensures Pow2(0x1_0000_0000)
  {
    assert Pow2(0x10);
    assert Pow2(0x100);
    assert Pow2(0x1000);
    assert Pow2(0x1_0000);
    assert Pow2(0x10_0000);
    assert Pow2(0x100_0000);
    assert Pow2(0x1000_0000);
  }

  lemma BitsHalve(q: nat)
    requires Pow2(q) && q / 2 * (q / 2) != 0
    ensures q % 2 == 0 && 0 < q / 2 < q && Pow2(q / 2) && 2 * (q / 2) == q
    ensures q / 2 * (q / 2) / 4 == q / 2 / 2 * (q / 2 / 2)
  {
    var p := q / 2;
    assert q == 1 ==> p == 0;
    if p > 1 {
      QuarterSquare(p);
    }
  }

  lemma LastBit(q: nat)
    requires Pow2(q) && q / 2 * (q / 2) == 0
    ensures q == 1
  {
    if q >= 2 {
      assert q / 2 >= 1;
      MulLe(1, q / 2, q / 2);
    }
  }

  // ---------- Logarithm ----------

  /** The series on one octave: 2 * (z + z^3/3 + z^5/5) with z = (c - 1) / (c + 1), all in Q16. */
  function Series(c: nat): nat
    requires c >= ONE
  {
    var z := Centred(c);
    var z2 := MulQ(z, z);
    var z3 := MulQ(z2, z);
    var z5 := MulQ(z3, z2);
    2 * (z + z3 / 3 + z5 / 5)
  }

  function Centred(c: nat): nat
    requires c >= ONE
  {
    (c - ONE) * ONE / (c + ONE)
  }

  /** The product of two Q16 numbers. */
  function MulQ(a: nat, b: nat): nat {
    a * b / ONE
  }

  /** The logarithm of a Q16 number: halve down to one octave, adding ln 2 each time, then the series. */
  ghost function Log(c: nat): nat
    decreases c
  {
    if c <= ONE then 0
    else if c >= 2 * ONE then LN2 + Log(c / 2)
    else Series(c)
  }

  /** The end of octave `h`. */
  ghost function OctaveEnd(h: nat): nat {
    if h == 0 then 2 * ONE else 2 * OctaveEnd(h - 1)
  }

  lemma LastOctave()
    ensures OctaveEnd(47) == MAX64 + 1
  {
    assert OctaveEnd(12) == 0x2000_0000;
    assert OctaveEnd(24) == 0x200_0000_0000;
    assert OctaveEnd(36) == 0x20_0000_0000_0000;
  }

  /** No step of the series exceeds 64 bits. */
  lemma SeriesFits(c: nat)
    requires ONE <= c < 2 * ONE
    ensures (c - ONE) * ONE <= MAX64 && Centred(c) <= ONE
    ensures var z := Centred(c); z * z <= MAX64 && MulQ(z, z) <= ONE
    ensures var z := Centred(c); MulQ(z, z) * z <= MAX64 && MulQ(MulQ(z, z), z) <= ONE
    ensures var z := Centred(c); MulQ(MulQ(z, z), z) * MulQ(z, z) <= MAX64 && Series(c) <= 6 * ONE
  {
    assert (c - ONE) * ONE <= ONE * ONE;
    DivMono((c - ONE) * ONE, ONE * (c + ONE), c + ONE);
    ExactQuotient(ONE, c + ONE);
    var z := Centred(c);
    MulQLe(z, z);
    MulQLe(MulQ(z, z), z);
    MulQLe(MulQ(MulQ(z, z), z), MulQ(z, z));
  }

  lemma MulQLe(a: nat, b: nat)
    requires a <= ONE && b <= ONE
    ensures a * b <= ONE * ONE && MulQ(a, b) <= ONE
  {
    MulLe(a, ONE, b);
    MulLe(b, ONE, ONE);
    DivMono(a * b, ONE * ONE, ONE);
  }

  method LogQ16(c0: nat) returns (r: nat)
    requires c0 <= MAX64
    ensures r == Log(c0)
  {
    hide Centred, MulQ;
    var c: nat := c0;
    var integral: nat := 0;
    ghost var octave: nat := 47;
    LastOctave();
    if c <= ONE {
      return 0;
    }
    while c >= 2 * ONE
      invariant ONE <= c < OctaveEnd(octave) && octave <= 47 && integral == (47 - octave) * LN2
      invariant Log(c0) == integral + (if c == ONE then Series(c) else Log(c))
      decreases c
    {
      SeriesStart();
      c := c / 2;
      octave := octave - 1;
      assert integral + LN2 <= MAX64;
      integral := integral + LN2;
    }
    SeriesFits(c);
    assert (c - ONE) * ONE <= MAX64;
    var z := Centred(c);
    assert z * z <= MAX64;
    var z2 := MulQ(z, z);
    assert z2 * z <= MAX64;
    var z3 := MulQ(z2, z);
    assert z3 * z2 <= MAX64;
    var z5 := MulQ(z3, z2);
    assert integral + 2 * (z + z3 / 3 + z5 / 5) <= MAX64;
    return integral + 2 * (z + z3 / 3 + z5 / 5);
  }

  lemma SeriesStart()
    ensures Series(ONE) == 0 && Log(ONE) == 0
  {
  }

  lemma ScaleMono(a: nat, b: nat, c: nat, d: nat)
    requires a <= b && c <= d
    ensures a * c / ONE <= b * d / ONE
  {
    MulLe(a, b, c);
    MulLe(c, d, b);
    DivMono(a * c, b * d, ONE);
  }

  /** (c - 1) / (c + 1) grows with c. */
  lemma RatioMono(a: nat, b: nat)
    requires ONE <= a <= b
    ensures (a - ONE) * ONE / (a + ONE) <= (b - ONE) * ONE / (b + ONE)
  {
    var x, y := (a - ONE) * ONE / (a + ONE), (b - ONE) * ONE / (b + ONE);
    // x * (b + 1) <= (b - 1): from x * (a + 1) <= a - 1 and x <= 1
    assert x * (a + ONE) <= (a - ONE) * ONE;
    assert x <= ONE by {
      if x > ONE {
        MulLe(ONE + 1, x, a + ONE);
      }
    }
    MulLe(x, ONE, b - a);
    assert x * (b + ONE) == x * (a + ONE) + x * (b - a);
    assert x * (b + ONE) <= (b - ONE) * ONE;
    DivMono(x * (b + ONE), (b - ONE) * ONE, b + ONE);
    ExactQuotient(x, b + ONE);
  }

  lemma SeriesMono(a: nat, b: nat)
    requires ONE <= a <= b
    ensures Series(a) <= Series(b)
  {
    var za, zb := (a - ONE) * ONE / (a + ONE), (b - ONE) * ONE / (b + ONE);
    RatioMono(a, b);
    ScaleMono(za, zb, za, zb);
    var za2, zb2 := za * za / ONE, zb * zb / ONE;
    ScaleMono(za2, zb2, za, zb);
    var za3, zb3 := za2 * za / ONE, zb2 * zb / ONE;
    ScaleMono(za3, zb3, za2, zb2);
    DivMono(za3, zb3, 3);
    DivMono(za3 * za2 / ONE, zb3 * zb2 / ONE, 5);
  }

  /** The series never overtakes the ln 2 that the next octave adds. */
  lemma SeriesBelowOctave(c: nat)
    requires ONE <= c < 2 * ONE
    ensures Series(c) <= LN2
  {
    hide Series;
    SeriesMono(c, 131071);
    SeriesTop();
  }

  lemma SeriesTop()
    ensures Series(131071) == 45412
  {
    var z := (131071 - ONE) * ONE / (131071 + ONE);
    assert z == 21845;
    var z2 := z * z / ONE;
    assert z2 == 7281;
    var z3 := z2 * z / ONE;
    assert z3 == 2426;
    var z5 := z3 * z2 / ONE;
    assert z5 == 269;
    assert Series(131071) == 2 * (z + z3 / 3 + z5 / 5);
  }

  /** At the end of an octave the series comes within 14 of 65536 parts of ln 2; doubling adds 45426 parts exactly. */
  lemma OctaveEnds(c: nat)
    requires c >= ONE
    ensures Log(2 * c) == 45426 + Log(c)
    ensures Log(65536) == 0 && Log(131071) == 45412
  {
    hide Series;
    SeriesTop();
  }

  lemma {:induction false} LogLarge(c: nat)
    requires c >= ONE
    ensures c >= 2 * ONE ==> Log(c) >= LN2
    ensures c < 2 * ONE ==> Log(c) <= LN2
  {
    if c < 2 * ONE && c > ONE {
      SeriesBelowOctave(c);
    }
  }

  /** The logarithm is monotone, also across the octaves where it is normalised. */
  lemma {:induction false} LogMonotone(a: nat, b: nat)
    requires a <= b
    ensures Log(a) <= Log(b)
    decreases b
  {
    if ONE < a {
      if a >= 2 * ONE {
        LogMonotone(a / 2, b / 2);
      } else if b >= 2 * ONE {
        LogLarge(a);
        LogLarge(b);
      } else {
        SeriesMono(a, b);
      }
    }
  }
}

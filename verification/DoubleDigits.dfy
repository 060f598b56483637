/** The digits of a double: its significand and exponents, and why the string printed for it is
    always the closest of the shortest ones. */
module DoubleDigits {
  import opened BigintSpec
  import opened BigintDivision
  import opened BigintShift
  import opened Bigints
  import opened PowersOfFive
  import opened DigitSpec
  import opened DigitProofs
  import opened DigitLoops
  import opened DigitSetup

  /** The double b * 2^be, with b odd and of that many bits, as `d2b` takes it apart. */
  datatype Double = Double(b: nat, be: int, bits: nat, denorm: bool) {
    ghost predicate Valid() {
      && b % 2 == 1 && bits >= 1 && Pow2(bits - 1) <= b < Pow2(bits)
      && if denorm then -1074 <= be && bits + be <= -1022
         else bits <= 53 && -1021 <= bits + be <= 1024
    }

    /** Half a unit in the last place is 2^(be - gap). */
    function Gap(): int {
      if denorm then be + 1075 else 54 - bits
    }

    /** A power of two other than the least normal one: the double below is nearer. */
    predicate Special() {
      b == 1 && !denorm && be > -1022
    }

    /** Is the last bit of the significand clear?  Then trailing zeros were stripped from b. */
    predicate EvenBits() {
      if denorm then be > -1074 else bits < 53
    }

    // The exponents of two and five in numerator and divisor, for the decimal exponent k.

    function B2(k: int): nat {
      (if be > 0 then be else 0) + if k < 0 then -k else 0
    }

    function S2(k: int): nat {
      (if be < 0 then -be else 0) + if k >= 0 then k else 0
    }

    function B5(k: int): nat {
      if k < 0 then -k else 0
    }

    function S5(k: int): nat {
      if k >= 0 then k else 0
    }

    /** The double divided by 10^k is Over / Under. */
    function Over(k: int): nat {
      Mul(Mul(b, Pow5(B5(k))), Pow2(B2(k)))
    }

    function Under(k: int): nat {
      Mul(Pow5(S5(k)), Pow2(S2(k)))
    }

    /** Where the digit loop starts. */
    ghost function Start(k: int, less: bool, closed: bool): Target
      requires Valid()
    {
      Prepare(
        Mul(b, Pow5(B5(k))), Pow5(S5(k)), Pow5(B5(k)), B2(k) + Gap(), S2(k) + Gap(), B2(k), Special(), less, closed)
    }

    /** Twice the significand, as an integer with its trailing zeros. */
    ghost function Twice(): nat
      requires Valid()
    {
      Mul(b, Pow2(Gap()))
    }
  }

  // ----- the quotient

  lemma {:induction false} ScaleIsPowers(x: nat, n: nat)
    ensures Scale(x, n) == Mul(Mul(x, Pow5(n)), Pow2(n))
  {
    if n == 0 {
      MulOne(x);
    } else {
      ScaleIsPowers(x, n - 1);
      var p, q := Pow5(n - 1), Pow2(n - 1);
      assert x * (5 * p) * (2 * q) == 10 * (x * p * q);
    }
  }

  lemma Rearrange(b: nat, f: nat, g: nat, p: nat, q: nat)
    ensures Mul(Mul(Mul(b, f), Mul(p, g)), q) == Mul(Mul(Mul(Mul(q, b), p), f), g)
  {
    var x := b * p * q;
    assert (b * f) * (p * g) * q == x * f * g;
    assert q * b * p * f * g == x * f * g;
  }

  lemma RearrangeUnder(b: nat, f: nat, g: nat, p: nat, q: nat)
    ensures Mul(Mul(Mul(Mul(b, p), q), f), g) == Mul(Mul(Mul(f, Mul(q, g)), b), p)
  {
    var x := b * p * q;
    assert b * p * q * f * g == x * f * g;
    assert (f * (q * g)) * b * p == x * f * g;
  }

  /** Over / Under is the double divided by 10^k. */
  lemma QuotientIsValue(d: Double, k: int)
    ensures var up := if d.be > 0 then d.be else 0;
            var down := if d.be < 0 then -d.be else 0;
            Scale(Mul(d.Over(k), Pow2(down)), d.S5(k)) == Scale(Mul(Mul(d.Under(k), d.b), Pow2(up)), d.B5(k))
  {
    hide Mul, Pow2, Pow5, Scale;
    var p := Pow2(if d.be > 0 then d.be else 0);
    var q := Pow2(if d.be < 0 then -d.be else 0);
    var f, g := Pow5(if k < 0 then -k else k), Pow2(if k < 0 then -k else k);
    NoFives();
    NoTwos();
    MulOne(d.b);
    MulOne(q);
    MulOne(p);
    if k < 0 {
      Pow2Add(if d.be > 0 then d.be else 0, -k);
      ScaleNone(Mul(d.Over(k), q));
      ScaleIsPowers(Mul(Mul(d.Under(k), d.b), p), -k);
      Rearrange(d.b, f, g, p, q);
    } else {
      Pow2Add(if d.be < 0 then -d.be else 0, k);
      ScaleNone(Mul(Mul(d.Under(k), d.b), p));
      ScaleIsPowers(Mul(d.Over(k), q), k);
      RearrangeUnder(d.b, f, g, p, q);
    }
  }

  lemma NoTwos()
    ensures Pow2(0) == 1
  {
  }

  lemma ScaleNone(x: nat)
    ensures Scale(x, 0) == x
  {
  }

  // ----- the interval

  lemma Gather(ten: nat, b: nat, f: nat, p: nat, g: nat, q: nat)
    ensures Mul(ten, Mul(Mul(b, f), Mul(Mul(p, g), q))) == Mul(Mul(Mul(ten, Mul(f, p)), q), Mul(b, g))
  {
    var x := ten * f * p * q;
    assert ten * ((b * f) * ((p * g) * q)) == x * (b * g);
    assert (ten * (f * p)) * q == x;
  }

  /** The double is `Twice` times the upper half-width: that is half a unit in the last place;
      the lower one is the same, or half of that below a power of two. */
  lemma UnitsInLastPlace(d: Double, k: int, less: bool, closed: bool)
    requires d.Valid()
    ensures var t := d.Start(k, less, closed);
            t.b == Mul(t.hi, d.Twice()) && t.hi == if d.Special() then 2 * t.lo else t.lo
  {
    hide Mul, Pow2, Pow5, Double.B2, Double.S2, Double.B5, Double.S5, Double.Special;
    var t := d.Start(k, less, closed);
    var e := if d.Special() then 1 else 0;
    var gap: nat := d.Gap();
    Pow2Add(d.B2(k), gap);
    Pow2Add(d.B2(k) + gap, e);
    Gather(if less then 10 else 1, d.b, Pow5(d.B5(k)), Pow2(d.B2(k)), Pow2(gap), Pow2(e));
    Pow2Values();
    MulOne(t.lo);
    MulTwoRight(t.lo);
  }

  lemma {:induction false} Pow2Grows(m: nat, n: nat)
    requires m <= n
    ensures Pow2(m) <= Pow2(n)
  {
    if m < n {
      Pow2Grows(m, n - 1);
    }
  }

  /** The significand of a normal double has 53 bits, that of a denormal fewer. */
  lemma TwiceSignificand(d: Double)
    requires d.Valid()
    ensures if d.denorm then d.Twice() < Pow2(53) else Pow2(53) <= d.Twice() < Pow2(54)
  {
    hide Mul, Pow2;
    var gap := d.Gap();
    MulLt(d.b, Pow2(d.bits), Pow2(gap));
    MulMono(Pow2(d.bits - 1), d.b, Pow2(gap));
    Pow2Add(d.bits, gap);
    Pow2Add(d.bits - 1, gap);
    if d.denorm {
      Pow2Grows(d.bits + gap, 53);
    }
  }

  // ----- no double is on the edge

  lemma {:induction false} TwosHaveNoFive(n: nat)
    ensures Pow2(n) % 5 != 0
  {
    if n > 0 {
      TwosHaveNoFive(n - 1);
    }
  }

  predicate By25(n: nat) {
    n % 25 == 0
  }

  lemma Multiple(x: nat, y: nat)
    requires By25(y)
    ensures By25(Mul(x, y)) && By25(Mul(y, x))
  {
    var q := y / 25;
    assert y == 25 * q;
    assert x * (25 * q) == 25 * (x * q);
  }

  lemma FivesDivide(n: nat)
    requires n >= 2
    ensures By25(Pow5(n))
  {
    assert Pow5(n) == 5 * (5 * Pow5(n - 2));
  }

  /** Below the normal range the decimal exponent is far below zero. */
  lemma DenormalExponent(d: Double, k: int, check: bool)
    requires d.Valid() && d.denorm && OneDigit(d.Over(k), d.Under(k), check)
    ensures k <= -2
  {
    hide Mul, Pow2, Pow5;
    if k >= -1 {
      TinyOver(d, k);
      TinyUnder(d, k);
    }
  }

  lemma TinyOver(d: Double, k: int)
    requires d.Valid() && d.denorm && k >= -1
    ensures d.Over(k) <= 10 * d.b
  {
    NoFives();
    NoTwos();
    assert Pow5(1) == 5 && Pow2(1) == 2;
  }

  lemma TinyUnder(d: Double, k: int)
    requires d.Valid() && d.denorm && k >= -1
    ensures 100 * d.b < d.Under(k)
  {
    hide Mul, Pow2, Pow5;
    Pow2Grows(d.bits + 7, -d.be);
    Pow2Grows(-d.be, d.S2(k));
    Pow2Add(d.bits, 7);
    Seven(Pow2(d.bits));
    MulMono(1, Pow5(d.S5(k)), Pow2(d.S2(k)));
    MulOne(Pow2(d.S2(k)));
  }

  lemma Seven(p: nat)
    ensures Mul(p, Pow2(7)) == 128 * p
  {
    assert Pow2(7) == 2 * (2 * (2 * Pow2(4)));
    assert Pow2(4) == 2 * (2 * (2 * (2 * Pow2(0))));
  }

  /** For a denormal, both ends of the interval are multiples of 25 and the next power of ten
      is not. */
  lemma DenormalOffEdge(d: Double, k: int, less: bool, closed: bool)
    requires d.Valid() && d.denorm && k <= -2
    ensures var t := d.Start(k, less, closed);
            By25(t.b) && By25(t.hi) && !By25(10 * t.S)
  {
    hide Mul, Pow2, Pow5, By25;
    var ten := if less then 10 else 1;
    var f := Pow5(d.B5(k));
    var gap: nat := d.Gap();
    FivesDivide(d.B5(k));
    Multiple(d.b, f);
    Multiple(Pow2(d.B2(k) + gap + 0), Mul(d.b, f));
    Multiple(ten, Mul(Mul(d.b, f), Pow2(d.B2(k) + gap + 0)));
    Multiple(Pow2(d.B2(k)), f);
    Multiple(ten, Mul(f, Pow2(d.B2(k))));
    Multiple(Pow2(0), Mul(ten, Mul(f, Pow2(d.B2(k)))));
    NoFives();
    MulOne(Pow2(d.S2(k) + gap + 0));
    TenTwos(d.S2(k) + gap + 0);
  }

  lemma TenTwos(n: nat)
    ensures !By25(10 * Pow2(n))
  {
    TwosHaveNoFive(n);
  }

  lemma NormalOffEdge(t: Target, twice: nat, bare: bool)
    requires twice >= 20 && t.b == Mul(t.hi, twice)
    ensures !t.NineEdge(bare)
  {
    MulMono(20, twice, t.hi);
  }

  lemma EdgeSum(t: Target, bare: bool)
    requires t.NineEdge(bare)
    ensures t.b + t.hi == 10 * t.S
  {
    assert t.b == t.b / t.S * t.S + t.b % t.S;
  }

  lemma SumDivides(x: nat, y: nat)
    requires By25(x) && By25(y)
    ensures By25(x + y)
  {
  }

  lemma DivisibleOffEdge(t: Target, bare: bool)
    requires By25(t.b) && By25(t.hi) && !By25(10 * t.S)
    ensures !t.NineEdge(bare)
  {
    hide Target.NineEdge, By25;
    SumDivides(t.b, t.hi);
    if t.NineEdge(bare) {
      EdgeSum(t, bare);
    }
  }

  /** The one case in which the closest string is missed does not arise for a double. */
  lemma NoDoubleOnEdge(d: Double, k: int, check: bool, less: bool, closed: bool, bare: bool)
    requires d.Valid() && OneDigit(d.Over(k), d.Under(k), check)
    ensures !d.Start(k, less, closed).NineEdge(bare)
  {
    hide Mul, Pow2, Pow5, Target.NineEdge, OneDigit, Prepare, Double.Over, Double.Under;
    var t := d.Start(k, less, closed);
    if d.denorm {
      DenormalExponent(d, k, check);
      DenormalOffEdge(d, k, less, closed);
      DivisibleOffEdge(t, bare);
    } else {
      UnitsInLastPlace(d, k, less, closed);
      TwiceSignificand(d);
      Twenty();
      NormalOffEdge(t, d.Twice(), bare);
    }
  }

  lemma Twenty()
    ensures Pow2(53) >= 20
  {
    Pow2Grows(8, 53);
    Pow2Values();
  }

  // ----- printing

  /** `ph_dtoa` in modes 0 and 1, past the fast path for small integers: for every double, the
      digits of a decimal that rounds to it, none shorter, and the closest of those.  k is the
      estimate of the decimal exponent, and the result the exponent itself. */
  method ShortestDouble(cache: Pow5Cache, b: Bigint, d: Double, k: int, check: bool, closed: bool)
    returns (out: Output, exponent: int)
    requires cache.Valid() && Positive(b) && d.Valid() && b.Val() == d.b
    requires OneDigit(d.Over(k), d.Under(k), check)
    modifies cache, b, b.x
    ensures exponent == if d.Over(k) < d.Under(k) then k - 1 else k
    ensures var t := d.Start(k, exponent < k, closed);
            IsShortest(out, t) && IsClosest(out, t)
  {
    hide Mul, Pow2, Pow5, OneDigit, Prepare, IsShortest, IsClosest, Target.NineEdge, Value, Normal;
    hide Double.B2, Double.S2, Double.B5, Double.S5, Double.Special;
    var less;
    ghost var bare;
    var gap: nat := d.Gap();
    out, less, bare := ShortestFrom(
      cache, b, d.B2(k), d.B5(k), d.S2(k), d.S5(k), gap, d.Special(), check, closed, -1, -1);
    exponent := if less then k - 1 else k;
    NoDoubleOnEdge(d, k, check, less, closed, bare);
  }
}

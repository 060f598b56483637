/** Printing a double: the string is read back as the same double, no shorter one is, and none
    of its length that is comes closer. */
module DoublePrinting {
  import opened BigintSpec
  import opened BigintDivision
  import opened BigintShift
  import opened Bigints
  import opened PowersOfFive
  import opened DigitSpec
  import opened DigitProofs
  import opened DigitScaling
  import opened DigitLoops
  import opened DigitSetup
  import opened DoubleDigits
  import opened Doubles

  /** The double in units of 2^-1074. */
  ghost function ValueOf(d: Double): nat
    requires d.Valid()
  {
    Mul(d.b, Pow2(d.be + 1074))
  }

  // ----- significand and exponent

  ghost function Fraction(d: Double): nat
    requires d.Valid()
  {
    Mul(d.b, Pow2(d.Gap() - 1))
  }

  ghost function Exponent(d: Double): nat
    requires d.Valid()
  {
    if d.denorm then 0 else d.be + d.bits + 1021
  }

  lemma ExponentsAdd(d: Double)
    requires d.Valid()
    ensures d.Gap() >= 1 && d.Gap() - 1 + Exponent(d) == d.be + 1074
  {
  }

  lemma HasSignificand(d: Double)
    requires d.Valid()
    ensures Significand(Fraction(d), Exponent(d), ValueOf(d)) && Fraction(d) > 0 && d.Twice() == 2 * Fraction(d)
  {
    hide Mul, Pow2;
    var g: nat := d.Gap() - 1;
    ExponentsAdd(d);
    Pow2Add(g, Exponent(d));
    MulAssoc(d.b, Pow2(g), Pow2(Exponent(d)));
    Doubled(d.b, g);
    Binade();
    TwiceSignificand(d);
    MulPositive(d.b, Pow2(g));
    Pow2Double(53);
  }

  lemma OddTimes(b: nat, n: nat)
    requires b % 2 == 1
    ensures Even(Mul(b, Pow2(n))) <==> n > 0
  {
    hide Mul, Pow2;
    NoTwos();
    if n > 0 {
      Doubled(b, n - 1);
    } else {
      MulOne(b);
    }
  }

  /** The last bit of the significand is clear. */
  lemma EvenIffStripped(d: Double)
    requires d.Valid()
    ensures d.EvenBits() <==> EvenSignificand(ValueOf(d))
  {
    hide Mul, Pow2, Significand;
    HasSignificand(d);
    OddTimes(d.b, d.Gap() - 1);
    if EvenSignificand(ValueOf(d)) {
      var f: nat, q: nat :| Significand(f, q, ValueOf(d)) && Even(f);
      SignificandUnique(f, q, Fraction(d), Exponent(d), ValueOf(d));
    }
  }

  lemma SignificandUnique(f: nat, q: nat, g: nat, p: nat, V: nat)
    requires Significand(f, q, V) && Significand(g, p, V)
    ensures f == g && q == p
  {
    hide Mul, Pow2;
    if q < p {
      FinerBelow(f, q, p);
      MulMono(Pow2(52), g, Pow2(p));
    } else if p < q {
      FinerBelow(g, p, q);
      MulMono(Pow2(52), f, Pow2(q));
    } else if f < g {
      MulLast(f, g, Pow2(q));
    } else if g < f {
      MulLast(g, f, Pow2(q));
    }
  }

  /** The gap below is half the one above exactly for the doubles the code singles out. */
  lemma SpecialIff(d: Double)
    requires d.Valid()
    ensures d.Special() <==> Fraction(d) == Pow2(52) && Exponent(d) > 0
  {
    hide Mul, Pow2;
    if d.denorm {
    } else {
      Pow2Add(d.bits - 1, 53 - d.bits);
      if d.b == Pow2(d.bits - 1) {
        MulOne(Pow2(d.bits - 1));
        OddTimes(1, d.bits - 1);
        NoTwos();
      } else {
        MulLast(Pow2(d.bits - 1), d.b, Pow2(53 - d.bits));
      }
      if d.b == 1 {
        OneBit(d.bits);
      }
    }
  }

  lemma OneBit(bits: nat)
    requires bits >= 1 && Pow2(bits - 1) <= 1
    ensures bits == 1
  {
  }

  // ----- the value of the target

  function Plus(k: int): nat {
    if k > 0 then k else 0
  }

  function Minus(k: int): nat {
    if k < 0 then -k else 0
  }

  lemma PowersShift(x: nat, a: nat, b: nat)
    ensures Units(Mul(x, Pow2(a)), Pow2(b)) == Mul(x, Pow2(a + b))
  {
    PowersJoin(x, a, b);
  }

  lemma Swap(u: nat, b: nat, p: nat, t: nat, r: nat)
    ensures Units(Units(Mul(Mul(u, b), p), t), r) == Units(Units(u, Units(Mul(b, p), r)), t)
  {
    var x := u * b * p * t * r;
    assert u * (b * p * r) * t == x;
  }

  lemma SwapOver(o: nat, p: nat, t: nat, r: nat)
    ensures Units(Units(Mul(o, p), t), r) == Units(Units(o, Units(p, r)), t)
  {
    var x := o * p * t * r;
    assert o * (p * r) * t == x;
  }

  /** Over * 2^1074 / 10^-k is Under times the double. */
  lemma OverIsValue(d: Double, k: int)
    requires d.Valid()
    ensures Units(Units(d.Over(k), Pow2(1074)), Ten(Plus(k))) == Units(Units(d.Under(k), ValueOf(d)), Ten(Minus(k)))
  {
    hide Mul, Pow2, Units, Scale, Double.Over, Double.Under, Ten;
    var up, down := if d.be > 0 then d.be else 0, if d.be < 0 then -d.be else 0;
    var r := Pow2(1074 - down);
    QuotientIsValue(d, k);
    ScaleIsTen(Mul(d.Over(k), Pow2(down)), Plus(k));
    ScaleIsTen(Mul(Mul(d.Under(k), d.b), Pow2(up)), Minus(k));
    assert Units(Units(Mul(d.Over(k), Pow2(down)), Ten(Plus(k))), r) ==
           Units(Units(Mul(Mul(d.Under(k), d.b), Pow2(up)), Ten(Minus(k))), r);
    SwapOver(d.Over(k), Pow2(down), Ten(Plus(k)), r);
    Swap(d.Under(k), d.b, Pow2(up), Ten(Minus(k)), r);
    PowersShift(1, down, 1074 - down);
    PowersShift(d.b, up, 1074 - down);
    MulOne(Pow2(down));
    MulOne(Pow2(1074));
    assert down + (1074 - down) == 1074 && up + (1074 - down) == d.be + 1074;
  }

  // ----- a common scale

  lemma TensAgree(K: int, m: nat)
    ensures Units(Ten(Plus(K)), Ten(Minus(K - m))) == Units(Units(Ten(m), Ten(Minus(K))), Ten(Plus(K - m)))
  {
    hide Ten, Units;
    TenAdd(Plus(K), Minus(K - m));
    TenAdd(m, Minus(K));
    TenAdd(m + Minus(K), Plus(K - m));
    assert Plus(K) + Minus(K - m) == m + Minus(K) + Plus(K - m);
  }

  /** The target is Over / Under in larger numbers, times ten if the estimate was too large. */
  lemma StartIsQuotient(d: Double, k: int, less: bool, closed: bool)
    requires d.Valid()
    ensures var t := d.Start(k, less, closed);
            var c := Pow2(d.Gap() + if d.Special() then 1 else 0);
            t.b == Units(if less then 10 else 1, Units(d.Over(k), c)) && t.S == Units(d.Under(k), c)
  {
    hide Pow2, Pow5, Double.B2, Double.S2, Double.B5, Double.S5, Double.Special;
    var e := if d.Special() then 1 else 0;
    PowersJoin(Mul(d.b, Pow5(d.B5(k))), d.B2(k), d.Gap() + e);
    PowersJoin(Pow5(d.S5(k)), d.S2(k), d.Gap() + e);
    assert d.B2(k) + d.Gap() + e == d.B2(k) + (d.Gap() + e) && d.S2(k) + d.Gap() + e == d.S2(k) + (d.Gap() + e);
  }

  lemma TenLeft(ten: nat, o: nat, c: nat, p: nat, t: nat, u: nat, v: nat, t2: nat)
    requires Units(Units(o, p), Units(ten, t)) == Units(Units(u, v), t2)
    ensures Units(Units(Units(ten, Units(o, c)), p), t) == Units(Units(Units(u, c), v), t2)
  {
    assert ten * (o * c) * p * t == o * p * (ten * t) * c;
    assert u * c * v * t2 == u * v * t2 * c;
  }

  lemma TenRight(ten: nat, o: nat, c: nat, p: nat, t: nat, u: nat, v: nat, t2: nat)
    requires Units(Units(o, p), t) == Units(Units(u, v), t2)
    ensures Units(Units(Units(ten, Units(o, c)), p), t) == Units(Units(Units(u, c), v), Units(ten, t2))
  {
    assert ten * (o * c) * p * t == o * p * t * (ten * c);
    assert u * c * v * (ten * t2) == u * v * t2 * (ten * c);
  }

  lemma TenSteps(n: nat)
    ensures Ten(n + 1) == Units(10, Ten(n)) && Units(1, Ten(n)) == Ten(n)
  {
  }

  /** The decimal exponent the digits stand at. */
  function Final(k: int, less: bool): int {
    if less then k - 1 else k
  }

  /** b / S is the double V divided by 10^K. */
  ghost predicate Quotient(b: nat, S: nat, V: nat, K: int) {
    Units(Units(b, Pow2(1074)), Ten(Plus(K))) == Units(Units(S, V), Ten(Minus(K)))
  }

  /** b / S of the target is the double divided by the power of ten. */
  lemma StartValue(d: Double, k: int, less: bool, closed: bool)
    requires d.Valid()
    ensures var t, K := d.Start(k, less, closed), Final(k, less);
            Quotient(t.b, t.S, ValueOf(d), K)
  {
    hide Mul, Pow2, Units, Ten, Double.Over, Double.Under, Prepare, Double.Special;
    var c := Pow2(d.Gap() + if d.Special() then 1 else 0);
    var P, V := Pow2(1074), ValueOf(d);
    var O, U := d.Over(k), d.Under(k);
    StartIsQuotient(d, k, less, closed);
    OverIsValue(d, k);
    if less && k <= 0 {
      TenSteps(-k);
      TenRight(10, O, c, P, Ten(0), U, V, Ten(-k));
    } else if less {
      TenSteps(k - 1);
      TenLeft(10, O, c, P, Ten(k - 1), U, V, Ten(0));
    } else {
      TenSteps(Plus(k));
      TenLeft(1, O, c, P, Ten(Plus(k)), U, V, Ten(Minus(k)));
    }
  }

  lemma GroupFirst(N: nat, S: nat, V: nat, tk: nat, te: nat)
    ensures Units(Units(Units(N, S), V), Units(tk, te)) == Units(Units(N, Units(Units(S, V), tk)), te)
  {
    var x := N * S * V;
    assert x * (tk * te) == x * tk * te;
    assert N * (S * V * tk) == x * tk;
  }

  lemma GroupLast(N: nat, b: nat, P: nat, u: nat, v: nat)
    ensures Units(Units(N, Units(Units(b, P), u)), v) == Units(Units(N, Units(b, P)), Units(u, v))
  {
    var x := N * (b * P);
    assert N * (b * P * u) == x * u;
    assert x * u * v == x * (u * v);
  }

  lemma Cross(N: nat, b: nat, P: nat, tm: nat, tk: nat, Te: nat)
    ensures Units(Units(N, Units(b, P)), Units(Units(tm, tk), Te)) ==
            Units(Units(Mul(N, P), Te), Units(Units(b, tm), tk))
  {
    var x, y := N * P, tm * tk;
    assert N * (b * P) == x * b;
    assert b * tm * tk == b * y;
    assert x * b * (y * Te) == x * Te * (b * y);
  }

  /** A decimal, in units of the target and in those of `Doubles`. */
  lemma PositionIs(
    N: nat, S: nat, V: nat, tk: nat, te: nat, b: nat, P: nat, Tk: nat, tm: nat, Te: nat)
    requires Units(Units(b, P), Tk) == Units(Units(S, V), tk) && Units(Tk, te) == Units(Units(tm, tk), Te)
    ensures Units(Units(Units(N, S), V), Units(tk, te)) == Units(Units(Mul(N, P), Te), Units(Units(b, tm), tk))
  {
    hide Units, Mul;
    GroupFirst(N, S, V, tk, te);
    GroupLast(N, b, P, Tk, te);
    Cross(N, b, P, tm, tk, Te);
  }

  lemma ValueIs(b: nat, tm: nat, V: nat, tk: nat, te: nat)
    ensures Units(Units(Units(b, tm), V), Units(tk, te)) == Units(Units(V, te), Units(Units(b, tm), tk))
  {
    var x := b * tm * V;
    assert x * (tk * te) == x * tk * te;
    assert V * te * (b * tm * tk) == x * tk * te;
  }

  lemma WidthIs(h: nat, f: nat, p: nat, b: nat, tm: nat, V: nat, tk: nat, te: nat)
    requires b == Mul(h, 2 * f) && V == Mul(f, p)
    ensures 2 * Units(Units(Units(h, tm), V), Units(tk, te)) == Units(Units(p, te), Units(Units(b, tm), tk))
  {
    var x := h * f * p * tm;
    assert h * tm * V == x;
    assert 2 * (x * (tk * te)) == 2 * x * tk * te;
    assert p * te * (b * tm * tk) == 2 * x * tk * te;
  }

  lemma HalfWidthIs(l: nat, f: nat, p: nat, b: nat, tm: nat, V: nat, tk: nat, te: nat)
    requires b == Mul(2 * l, 2 * f) && V == Mul(f, 2 * p)
    ensures 2 * Units(Units(Units(l, tm), V), Units(tk, te)) == Units(Units(p, te), Units(Units(b, tm), tk))
  {
    var x := l * f * p * tm;
    assert V == 2 * (f * p);
    assert l * tm * V == 2 * x;
    assert b == 4 * (l * f);
    assert 2 * (2 * x * (tk * te)) == 4 * x * tk * te;
    assert p * te * (b * tm * tk) == 4 * x * tk * te;
  }

  /** x against y and a half-width h, in two units of measurement. */
  lemma SameSide(x: nat, y: nat, h: nat, V: nat, c: nat, x': nat, y': nat, g: nat, c': nat)
    requires V > 0 && c > 0 && c' > 0
    requires Units(Units(x, V), c) == Units(x', c') && Units(Units(y, V), c) == Units(y', c')
    requires 2 * Units(Units(h, V), c) == Units(g, c')
    ensures x < y + h <==> 2 * x' < 2 * y' + g
    ensures x <= y + h <==> 2 * x' <= 2 * y' + g
  {
    hide Units;
    UnitsCompare(x, y, h, V);
    UnitsSum(Units(y, V), Units(h, V), c);
    UnitsCompare(Units(x, V), Units(y, V), Units(h, V), c);
    TwoUnits(x', c');
    TwoUnits(y', c');
    UnitsCompare(2 * x', 2 * y', g, c');
  }

  lemma TwoUnits(x: nat, c: nat)
    ensures Units(2 * x, c) == 2 * Units(x, c)
  {
  }

  // ----- rounding in the target is reading

  /** The two units of measurement at m digits after the first. */
  ghost function TargetUnit(K: int, m: nat): nat {
    Units(Ten(Minus(K)), Ten(Minus(K - m)))
  }

  ghost function DoubleUnit(b: nat, K: int, m: nat): nat {
    Units(Units(b, Ten(m)), Ten(Minus(K)))
  }

  lemma UnitsPositive(x: nat, y: nat)
    requires x > 0 && y > 0
    ensures Units(x, y) > 0
  {
    MulPositive(x, y);
  }

  lemma UnitsOfMeasurement(b: nat, K: int, m: nat)
    requires b > 0
    ensures TargetUnit(K, m) > 0 && DoubleUnit(b, K, m) > 0
  {
    hide Units, Ten;
    ScaleIsTen(1, m);
    ScaleIsTen(1, Minus(K));
    ScaleIsTen(1, Minus(K - m));
    UnitsPositive(Ten(Minus(K)), Ten(Minus(K - m)));
    UnitsPositive(b, Ten(m));
    UnitsPositive(Units(b, Ten(m)), Ten(Minus(K)));
  }

  /** A decimal and the double itself in both units. */
  lemma MeasuredIn(b: nat, S: nat, V: nat, K: int, N: nat, m: nat)
    requires Quotient(b, S, V, K)
    ensures Units(Units(Units(N, S), V), TargetUnit(K, m)) == Units(DecimalAt(N, K - m), DoubleUnit(b, K, m))
    ensures Units(Units(Scale(b, m), V), TargetUnit(K, m)) ==
            Units(Units(V, Ten(Minus(K - m))), DoubleUnit(b, K, m))
  {
    hide Mul, Pow2, Units, Ten;
    TensAgree(K, m);
    ScaleIsTen(Mul(N, Pow2(1074)), Plus(K - m));
    ScaleIsTen(b, m);
    PositionIs(N, S, V, Ten(Minus(K)), Ten(Minus(K - m)), b, Pow2(1074), Ten(Plus(K)), Ten(m), Ten(Plus(K - m)));
    ValueIs(b, Ten(m), V, Ten(Minus(K)), Ten(Minus(K - m)));
  }

  /** Its half-widths in both units: half the gaps to the neighbours. */
  lemma MeasuredWidths(d: Double, k: int, less: bool, closed: bool, m: nat)
    requires d.Valid()
    ensures var t, K, V := d.Start(k, less, closed), Final(k, less), ValueOf(d);
            && 2 * Units(Units(Scale(t.hi, m), V), TargetUnit(K, m)) ==
               Units(Units(Pow2(Exponent(d)), Ten(Minus(K - m))), DoubleUnit(t.b, K, m))
            && 2 * Units(Units(Scale(t.lo, m), V), TargetUnit(K, m)) ==
               Units(Units(GapBelow(Fraction(d), Exponent(d)), Ten(Minus(K - m))), DoubleUnit(t.b, K, m))
  {
    hide Mul, Pow2, Units, Ten, Prepare, Double.Special;
    var t, K, V := d.Start(k, less, closed), Final(k, less), ValueOf(d);
    var f, q := Fraction(d), Exponent(d);
    HasSignificand(d);
    UnitsInLastPlace(d, k, less, closed);
    SpecialIff(d);
    ScaleIsTen(t.hi, m);
    ScaleIsTen(t.lo, m);
    WidthIs(t.hi, f, Pow2(q), t.b, Ten(m), V, Ten(Minus(K)), Ten(Minus(K - m)));
    if d.Special() {
      Pow2Double(q - 1);
      HalfWidthIs(t.lo, f, Pow2(q - 1), t.b, Ten(m), V, Ten(Minus(K)), Ten(Minus(K - m)));
    }
  }

  /** A decimal rounds to v in the target exactly if it is read as the double. */
  lemma RoundsIffReads(d: Double, k: int, less: bool, closed: bool, N: nat, m: nat)
    requires d.Valid() && d.Start(k, less, closed).b > 0
    ensures d.Start(k, less, closed).Rounds(N, m) <==> ReadsAs(N, Final(k, less) - m, ValueOf(d), closed)
  {
    hide Mul, Pow2, Units, Ten, Prepare, Scale, DecimalAt, ReadsAs, TargetUnit, DoubleUnit, GapBelow, Significand;
    var t, K, V := d.Start(k, less, closed), Final(k, less), ValueOf(d);
    var f, q := Fraction(d), Exponent(d);
    var c, c', ten := TargetUnit(K, m), DoubleUnit(t.b, K, m), Ten(Minus(K - m));
    HasSignificand(d);
    PositiveValue(d);
    UnitsOfMeasurement(t.b, K, m);
    StartValue(d, k, less, closed);
    MeasuredIn(t.b, t.S, V, K, N, m);
    MeasuredWidths(d, k, less, closed, m);
    ReadsAsIffInside(N, K - m, f, q, V, closed);
    SameSide(
      Units(N, t.S), Scale(t.b, m), Scale(t.hi, m), V, c, DecimalAt(N, K - m), Units(V, ten), Units(Pow2(q), ten), c');
    SameSide(
      Scale(t.b, m), Units(N, t.S), Scale(t.lo, m), V, c, Units(V, ten), DecimalAt(N, K - m),
      Units(GapBelow(f, q), ten), c');
    TargetTies(d, k, less, closed);
  }

  lemma PositiveValue(d: Double)
    requires d.Valid()
    ensures ValueOf(d) > 0
  {
    MulPositive(d.b, Pow2(d.be + 1074));
  }

  lemma TargetTies(d: Double, k: int, less: bool, closed: bool)
    requires d.Valid()
    ensures d.Start(k, less, closed).closed == closed
  {
  }

  /** Distances from b / S order decimals as their errors do. */
  lemma DistanceIffError(b: nat, S: nat, V: nat, K: int, N: nat, M: nat, m: nat)
    requires Quotient(b, S, V, K) && b > 0 && V > 0
    ensures Dist(Units(N, S), Scale(b, m)) <= Dist(Units(M, S), Scale(b, m)) <==>
            Error(N, K - m, V) <= Error(M, K - m, V)
  {
    hide Mul, Pow2, Units, Ten, Scale, DecimalAt, TargetUnit, DoubleUnit, Dist, Quotient;
    var c, c', ten := TargetUnit(K, m), DoubleUnit(b, K, m), Ten(Minus(K - m));
    UnitsOfMeasurement(b, K, m);
    ScaleIsTen(V, Minus(K - m));
    MeasuredIn(b, S, V, K, N, m);
    MeasuredIn(b, S, V, K, M, m);
    SameDistance(Units(N, S), Scale(b, m), V, c, DecimalAt(N, K - m), Units(V, ten), c');
    SameDistance(Units(M, S), Scale(b, m), V, c, DecimalAt(M, K - m), Units(V, ten), c');
    var x, y := Dist(Units(N, S), Scale(b, m)), Dist(Units(M, S), Scale(b, m));
    UnitsOrder(x, y, V);
    UnitsOrder(Units(x, V), Units(y, V), c);
    UnitsOrder(Error(N, K - m, V), Error(M, K - m, V), c');
  }

  lemma SameDistance(x: nat, y: nat, V: nat, c: nat, x': nat, y': nat, c': nat)
    requires V > 0 && c > 0 && c' > 0
    requires Units(Units(x, V), c) == Units(x', c') && Units(Units(y, V), c) == Units(y', c')
    ensures Units(Units(Dist(x, y), V), c) == Units(Dist(x', y'), c')
  {
    hide Units, Dist;
    DistScaled(x, y, V);
    DistScaled(Units(x, V), Units(y, V), c);
    DistScaled(x', y', c');
  }

  // ----- printing

  lemma StartPositive(d: Double, k: int, less: bool, closed: bool)
    requires d.Valid()
    ensures d.Start(k, less, closed).b > 0
  {
    hide Mul, Pow2, Pow5, Units, Prepare, Double.Special, Double.B2, Double.B5;
    StartIsQuotient(d, k, less, closed);
    MulPositive(d.b, Pow5(d.B5(k)));
    MulPositive(Mul(d.b, Pow5(d.B5(k))), Pow2(d.B2(k)));
    var c := Pow2(d.Gap() + if d.Special() then 1 else 0);
    UnitsPositive(d.Over(k), c);
    UnitsPositive(if less then 10 else 1, Units(d.Over(k), c));
  }

  /** The digits, of which the first stands at 10^exponent, are read as V; no decimal that ends
      at a higher place is; and of those that end at the same place none is closer. */
  ghost predicate Prints(out: Output, exponent: int, V: nat, ties: bool) {
    var n := |out.digits|;
    var N, e := ScaledInt(out, n), exponent - (n - 1);
    && Canonical(out) && ReadsAs(N, e, V, ties)
    && (forall M: nat, i: int :: e < i <= exponent ==> !ReadsAs(M, i, V, ties))
    && (forall M: nat :: ReadsAs(M, e, V, ties) ==> Error(N, e, V) <= Error(M, e, V))
  }

  lemma ShortestPrints(out: Output, d: Double, k: int, less: bool, closed: bool)
    requires d.Valid()
    requires IsShortest(out, d.Start(k, less, closed)) && IsClosest(out, d.Start(k, less, closed))
    ensures Prints(out, Final(k, less), ValueOf(d), closed)
  {
    hide Mul, Pow2, Prepare, Scale, ReadsAs, Error, Target.Rounds, ScaledInt, Quotient, Dist, Units;
    var t, K, V := d.Start(k, less, closed), Final(k, less), ValueOf(d);
    var n := |out.digits|;
    var e := K - (n - 1);
    StartPositive(d, k, less, closed);
    PositiveValue(d);
    StartValue(d, k, less, closed);
    RoundsIffReads(d, k, less, closed, ScaledInt(out, n), n - 1);
    forall M: nat, i: int | e < i <= K ensures !ReadsAs(M, i, V, closed) {
      RoundsIffReads(d, k, less, closed, M, K - i);
      assert t.NoneAt(K - i);
    }
    forall M: nat | ReadsAs(M, e, V, closed) ensures Error(ScaledInt(out, n), e, V) <= Error(M, e, V) {
      RoundsIffReads(d, k, less, closed, M, n - 1);
      DistanceIffError(t.b, t.S, V, K, ScaledInt(out, n), M, n - 1);
    }
  }

  lemma TenNearer(x: nat, v: nat, w: nat, ties: bool)
    ensures Nearer(10 * x, 10 * v, 10 * w, ties) <==> Nearer(x, v, w, ties)
  {
  }

  lemma TenMul(N: nat, P: nat)
    ensures Mul(10 * N, P) == 10 * Mul(N, P)
  {
    assert 10 * N * P == 10 * (N * P);
  }

  lemma {:induction false} ScaleOut(x: nat, n: nat)
    ensures Scale(10 * x, n) == Scale(x, n + 1) == 10 * Scale(x, n)
  {
    if n > 0 {
      ScaleOut(x, n - 1);
    }
  }

  /** 10 * N at one place is N at the next. */
  lemma ReadsShifted(N: nat, e: int, V: nat, ties: bool)
    ensures ReadsAs(10 * N, e, V, ties) <==> ReadsAs(N, e + 1, V, ties)
  {
    hide Mul, Pow2, Scale, Nearer, IsDouble;
    var x := Mul(N, Pow2(1074));
    TenMul(N, Pow2(1074));
    if e >= 0 {
      ScaleOut(x, e);
    } else {
      ScaleOut(x, 0);
      ScaleOut(V, -e - 1);
      forall W: nat
        ensures Nearer(DecimalAt(10 * N, e), DoubleAt(V, e), DoubleAt(W, e), ties) <==>
                Nearer(DecimalAt(N, e + 1), DoubleAt(V, e + 1), DoubleAt(W, e + 1), ties)
      {
        ScaleOut(W, -e - 1);
        TenNearer(DecimalAt(N, e + 1), DoubleAt(V, e + 1), DoubleAt(W, e + 1), ties);
      }
    }
  }

  /** The digits with the decimal point after the first `decpt` of them are read as V. */
  lemma DigitsRead(out: Output, exponent: int, V: nat, ties: bool)
    requires Prints(out, exponent, V, ties)
    ensures ReadsAs(Int(out.digits), exponent + (if out.carried then 2 else 1) - |out.digits|, V, ties)
  {
    hide ReadsAs, Error;
    ScaledIntSame(out);
    ReadsShifted(Int(out.digits), exponent - (|out.digits| - 1), V, ties);
  }

  /** `ph_dtoa` in modes 0 and 1, past the fast path for small integers.  In mode 0 the digits
      are read as the double under rounding to nearest with ties to even, in mode 1 under any
      rounding to nearest; fewer digits would not do, and no others as many are closer.  k is the
      estimate of the decimal exponent. */
  method PrintShortest(cache: Pow5Cache, b: Bigint, d: Double, k: int, check: bool, mode: nat)
    returns (out: Output, decpt: int, ghost exponent: int)
    requires cache.Valid() && Positive(b) && d.Valid() && b.Val() == d.b && mode <= 1
    requires OneDigit(d.Over(k), d.Under(k), check)
    modifies cache, b, b.x
    ensures var V := ValueOf(d);
            var ties := mode == 0 && EvenSignificand(V);
            Prints(out, exponent, V, ties) && ReadsAs(Int(out.digits), decpt - |out.digits|, V, ties)
    ensures decpt == exponent + if out.carried then 2 else 1
  {
    hide Mul, Pow2, Pow5, OneDigit, Prepare, IsShortest, IsClosest, Prints, ReadsAs, EvenSignificand, Value, Normal, Int;
    var K;
    out, K := ShortestDouble(cache, b, d, k, check, mode == 0 && d.EvenBits());
    exponent := K;
    decpt := K + if out.carried then 2 else 1;
    EvenIffStripped(d);
    ShortestPrints(out, d, k, K < k, mode == 0 && d.EvenBits());
    DigitsRead(out, K, ValueOf(d), mode == 0 && d.EvenBits());
  }

  // ----- a fixed number of digits

  /** N * 10^e is as close to V as any multiple of 10^e, and even if another one is as close. */
  ghost predicate NearestAt(N: nat, e: int, V: nat) {
    && (forall M: nat :: Error(N, e, V) <= Error(M, e, V))
    && (forall M: nat :: M != N && Error(M, e, V) == Error(N, e, V) ==> Even(N))
  }

  lemma NoneNearer(N: nat, M: nat, X: nat, S: nat)
    requires NearestInt(N, X, S) && M != N && S > 0
    ensures Dist(Units(N, S), X) <= Dist(Units(M, S), X)
    ensures Dist(Units(M, S), X) <= Dist(Units(N, S), X) ==> Even(N)
  {
    hide Units;
    UnitsApart(N, M, S);
    UnitsApart(M, N, S);
  }

  lemma FixedIsNearest(out: Output, n: nat, b: nat, S: nat, V: nat, K: int)
    requires Quotient(b, S, V, K) && b > 0 && S > 0 && V > 0 && n >= 1 && Nearest(out, n, Scale(b, n - 1), S)
    ensures NearestAt(ScaledInt(out, n), K - (n - 1), V)
  {
    hide Mul, Pow2, Scale, Error, ScaledInt, Quotient, Dist, Units, NearestInt, Even;
    var N, e := ScaledInt(out, n), K - (n - 1);
    forall M: nat
      ensures Error(N, e, V) <= Error(M, e, V)
      ensures M != N && Error(M, e, V) == Error(N, e, V) ==> Even(N)
    {
      DistanceIffError(b, S, V, K, N, M, n - 1);
      DistanceIffError(b, S, V, K, M, N, n - 1);
      if M != N {
        NoneNearer(N, M, Scale(b, n - 1), S);
      }
    }
  }

  lemma OverQuotient(d: Double, k: int, less: bool)
    requires d.Valid()
    ensures Quotient(if less then 10 * d.Over(k) else d.Over(k), d.Under(k), ValueOf(d), Final(k, less))
    ensures d.Over(k) > 0 && d.Under(k) > 0
  {
    hide Mul, Pow2, Pow5, Units, Ten, Double.B2, Double.B5, Double.S2, Double.S5;
    var P, V := Pow2(1074), ValueOf(d);
    var O, U := d.Over(k), d.Under(k);
    MulPositive(d.b, Pow5(d.B5(k)));
    MulPositive(Mul(d.b, Pow5(d.B5(k))), Pow2(d.B2(k)));
    MulPositive(Pow5(d.S5(k)), Pow2(d.S2(k)));
    OverIsValue(d, k);
    OneUnit(O);
    OneUnit(U);
    if less && k <= 0 {
      TenSteps(-k);
      TenRight(10, O, 1, P, Ten(0), U, V, Ten(-k));
    } else if less {
      TenSteps(k - 1);
      TenLeft(10, O, 1, P, Ten(k - 1), U, V, Ten(0));
    }
  }

  lemma OneUnit(x: nat)
    ensures Units(x, 1) == x && Units(10, x) == 10 * x
  {
  }

  // ----- the estimate of the decimal exponent

  /** b / S, the double divided by 10^K, against N. */
  lemma QuotientAgainst(b: nat, S: nat, V: nat, K: int, N: nat)
    requires Quotient(b, S, V, K) && b > 0 && V > 0
    ensures Units(N, S) <= b <==> DecimalAt(N, K) <= DoubleAt(V, K)
  {
    hide Mul, Pow2, Units, Ten, Scale, DecimalAt, TargetUnit, DoubleUnit, Quotient;
    UnitsOfMeasurement(b, K, 0);
    MeasuredIn(b, S, V, K, N, 0);
    ScaleIsTen(V, Minus(K));
    ScaleNone(b);
    var c, c' := TargetUnit(K, 0), DoubleUnit(b, K, 0);
    UnitsOrder(Units(N, S), b, V);
    UnitsOrder(Units(Units(N, S), V), Units(b, V), c);
    UnitsOrder(DecimalAt(N, K), DoubleAt(V, K), c');
  }

  /** The estimate is accepted exactly if 10^k <= d < 10^(k + 1), or, where it is checked, also
      if 10^(k - 1) <= d < 10^k. */
  lemma EstimateIff(d: Double, k: int, check: bool)
    requires d.Valid()
    ensures var V := ValueOf(d);
            OneDigit(d.Over(k), d.Under(k), check) <==>
            && DoubleAt(V, k) < DecimalAt(10, k)
            && (DecimalAt(1, k) <= DoubleAt(V, k) || (check && DecimalAt(1, k - 1) <= DoubleAt(V, k - 1)))
  {
    hide Mul, Pow2, Units, Double.Over, Double.Under, DecimalAt, DoubleAt, Quotient;
    var V, O, U := ValueOf(d), d.Over(k), d.Under(k);
    PositiveValue(d);
    OverQuotient(d, k, false);
    OverQuotient(d, k, true);
    OneUnit(U);
    UnitsSwap(1, U);
    QuotientAgainst(O, U, V, k, 10);
    QuotientAgainst(O, U, V, k, 1);
    QuotientAgainst(10 * O, U, V, k - 1, 1);
  }

  // ----- seventeen digits are enough

  lemma {:induction false} TenGrows(m: nat, n: nat)
    requires m <= n
    ensures Ten(m) <= Ten(n)
  {
    if m < n {
      TenGrows(m, n - 1);
    }
  }

  lemma SixteenZeros()
    ensures Pow2(53) < Ten(16)
  {
    hide Pow2, Ten;
    Pow2Values();
    Pow2Add(32, 16);
    Pow2Add(48, 4);
    Pow2Double(52);
    assert Pow2(53) == 2 * Mul(Mul(BASE, 0x1_0000), 16) == 9007199254740992;
    assert Ten(4) == 10000 by { FourZeros(); }
    TenAdd(4, 4);
    TenAdd(8, 8);
    assert Units(10000, 10000) == 100000000 && Units(100000000, 100000000) == 10000000000000000;
  }

  lemma FourZeros()
    ensures Ten(4) == 10000
  {
    assert Ten(1) == 10 && Ten(2) == 10 * Ten(1) && Ten(3) == 10 * Ten(2) && Ten(4) == 10 * Ten(3);
  }

  /** The lower half-width is at least v / 2^54. */
  lemma WideEnough(d: Double, k: int, less: bool, closed: bool)
    requires d.Valid()
    ensures var t := d.Start(k, less, closed);
            t.b <= Mul(t.lo, Pow2(54)) && t.lo <= t.hi
  {
    hide Mul, Pow2, Prepare, Double.Special;
    var t := d.Start(k, less, closed);
    var f := Fraction(d);
    UnitsInLastPlace(d, k, less, closed);
    HasSignificand(d);
    SpecialIff(d);
    Binade();
    Pow2Double(53);
    if d.Special() {
      TwiceTwice(t.lo, f);
    } else {
      MulMono(2 * f, Pow2(54), t.lo);
    }
  }

  lemma TwiceTwice(l: nat, f: nat)
    ensures Mul(2 * l, 2 * f) == Mul(l, 2 * (2 * f))
  {
    assert 2 * l * (2 * f) == l * (2 * (2 * f));
  }

  /** A decimal that is off by half a unit of its n-th digit is well inside the interval. */
  lemma OffByHalf(off: nat, S: nat, b: nat, lo: nat, n: nat)
    requires 2 * off <= S <= b && 0 < b <= Mul(lo, Pow2(54)) && n >= 16
    ensures off < Scale(lo, n)
  {
    hide Mul, Pow2, Scale, Units, Ten;
    SixteenZeros();
    TenGrows(16, n);
    ScaleIsTen(lo, n);
    Pow2Double(53);
    HalfMul(lo, Pow2(53));
    LoPositive(lo, Pow2(54));
    UnitsOrder(Ten(n), Pow2(53), lo);
    UnitsSwap(lo, Ten(n));
    UnitsSwap(lo, Pow2(53));
  }

  lemma LoPositive(lo: nat, p: nat)
    requires Mul(lo, p) > 0
    ensures lo > 0
  {
  }

  lemma HalfMul(l: nat, p: nat)
    ensures Mul(l, 2 * p) == 2 * Units(l, p)
  {
    assert l * (2 * p) == 2 * (l * p);
  }

  lemma UnitsSwap(x: nat, y: nat)
    ensures Units(x, y) == Units(y, x)
  {
  }

  lemma NearEnough(x: nat, y: nat, lo: nat, hi: nat)
    requires Dist(x, y) < lo <= hi
    ensures y < x + lo && x < y + hi
  {
  }

  /** The nearest decimal with seventeen digits or more is read as the double under any rounding to
      nearest. */
  lemma SeventeenDigits(d: Double, k: int, less: bool, N: nat, n: nat)
    requires d.Valid() && n >= 17
    requires var x := if less then 10 * d.Over(k) else d.Over(k);
             d.Under(k) <= x && NearestInt(N, Scale(x, n - 1), d.Under(k))
    ensures ReadsAs(N, Final(k, less) - (n - 1), ValueOf(d), false)
  {
    hide Mul, Pow2, Pow5, Units, Prepare, Double.Special, Scale, Double.Over, Double.Under, ReadsAs, Dist, Even;
    var x, S := if less then 10 * d.Over(k) else d.Over(k), d.Under(k);
    var t := d.Start(k, less, false);
    var c := Pow2(d.Gap() + if d.Special() then 1 else 0);
    StartIsQuotient(d, k, less, false);
    TenTimesUnits(less, d.Over(k), c);
    ScaleUnits(x, c, n - 1);
    NearestScaled(N, Scale(x, n - 1), S, c);
    UnitsOrder(S, x, c);
    StartPositive(d, k, less, false);
    WideEnough(d, k, less, false);
    OffByHalf(Dist(Units(N, t.S), Scale(t.b, n - 1)), t.S, t.b, t.lo, n - 1);
    ScaleOrdered(t.lo, t.hi, n - 1);
    NearEnough(Units(N, t.S), Scale(t.b, n - 1), Scale(t.lo, n - 1), Scale(t.hi, n - 1));
    TargetTies(d, k, less, false);
    RoundsIffReads(d, k, less, false, N, n - 1);
  }

  lemma TenTimesUnits(less: bool, o: nat, c: nat)
    ensures Units(if less then 10 else 1, Units(o, c)) == Units(if less then 10 * o else o, c)
  {
    assert 10 * (o * c) == 10 * o * c;
  }

  lemma {:induction false} ScaleOrdered(x: nat, y: nat, n: nat)
    requires x <= y
    ensures Scale(x, n) <= Scale(y, n)
  {
    if n > 0 {
      ScaleOrdered(x, y, n - 1);
    }
  }

  /** `ph_dtoa` in modes 2 and 3, past the fast paths, when at least one digit is wanted: the
      nearest decimal with that many digits, ties to even; seventeen are read as the double. */
  method PrintFixed(cache: Pow5Cache, b: Bigint, d: Double, k: int, check: bool, ilim: nat, ilim1: nat)
    returns (out: Output, decpt: int, ghost exponent: int)
    requires cache.Valid() && cache.Apart(b) && Positive(b) && d.Valid() && b.Val() == d.b && ilim >= 1 && ilim1 >= 1
    requires OneDigit(d.Over(k), d.Under(k), check)
    modifies cache, b, b.x
    ensures exponent == k || exponent == k - 1
    ensures var n := if exponent < k then ilim1 else ilim;
            && Canonical(out) && |out.digits| <= n && NearestAt(ScaledInt(out, n), exponent - (n - 1), ValueOf(d))
            && (n >= 17 ==> ReadsAs(ScaledInt(out, n), exponent - (n - 1), ValueOf(d), false))
    ensures decpt == exponent + if out.carried then 2 else 1
  {
    hide Mul, Pow2, Pow5, OneDigit, Canonical, NearestAt, NearestInt, Value, Normal, Scale, ScaledInt, Quotient, ReadsAs;
    hide Double.B2, Double.S2, Double.B5, Double.S5;
    var less;
    out, less := FixedFrom(cache, b, d.B2(k), d.B5(k), d.S2(k), d.S5(k), check, ilim, ilim1);
    exponent := Final(k, less);
    decpt := Final(k, less) + if out.carried then 2 else 1;
    ghost var n := if less then ilim1 else ilim;
    OverQuotient(d, k, less);
    PositiveValue(d);
    FixedIsNearest(
      out, n, if less then 10 * d.Over(k) else d.Over(k), d.Under(k), ValueOf(d), Final(k, less));
    if n >= 17 {
      OneDigitLeft(d.Over(k), d.Under(k), check, less);
      SeventeenDigits(d, k, less, ScaledInt(out, n), n);
    }
  }

  lemma OneDigitLeft(b: nat, S: nat, check: bool, less: bool)
    requires OneDigit(b, S, check) && (less <==> b < S)
    ensures S <= if less then 10 * b else b
  {
  }
}

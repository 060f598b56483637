/** The doubles as integers: multiples of the least positive one, 2^-1074.  What the nearest
    ones on either side are, and which decimals are read as a given double. */
module Doubles {
  import opened BigintSpec
  import opened BigintDivision
  import opened BigintShift
  import opened Bigints
  import opened DigitSpec
  import opened DigitProofs
  import opened DigitScaling

  /** W * 2^-1074 has a significand of at most 53 bits.  There is no greatest exponent. */
  ghost predicate IsDouble(W: nat) {
    exists f: nat, q: nat :: Represents(f, q, W)
  }

  ghost predicate Represents(f: nat, q: nat, W: nat) {
    f < Pow2(53) && W == Mul(f, Pow2(q))
  }

  /** f is the significand of V: it has all 53 bits, unless the exponent is the least one. */
  ghost predicate Significand(f: nat, q: nat, V: nat) {
    Represents(f, q, V) && (q == 0 || Pow2(52) <= f)
  }

  ghost predicate EvenSignificand(V: nat) {
    exists f: nat, q: nat :: Significand(f, q, V) && Even(f)
  }

  // ----- what a decimal reads as

  /** N * 10^e and W * 2^-1074 on a common scale. */
  function DecimalAt(N: nat, e: int): nat {
    Scale(Mul(N, Pow2(1074)), if e > 0 then e else 0)
  }

  function DoubleAt(W: nat, e: int): nat {
    Scale(W, if e < 0 then -e else 0)
  }

  /** x is nearer to v than to w, or as near if v wins ties. */
  predicate Nearer(x: nat, v: nat, w: nat, ties: bool) {
    Dist(x, v) < Dist(x, w) || (ties && Dist(x, v) == Dist(x, w))
  }

  /** Of all doubles, V is the nearest to N * 10^e.  With ties for even significands this is
      what reading the decimal with rounding to nearest yields. */
  ghost predicate ReadsAs(N: nat, e: int, V: nat, ties: bool) {
    forall W: nat :: IsDouble(W) && W != V ==> Nearer(DecimalAt(N, e), DoubleAt(V, e), DoubleAt(W, e), ties)
  }

  /** How far N * 10^e is from V. */
  function Error(N: nat, e: int, V: nat): nat {
    Dist(DecimalAt(N, e), DoubleAt(V, e))
  }

  // ----- neighbours

  lemma Doubled(f: nat, q: nat)
    ensures Mul(f, Pow2(q + 1)) == Mul(2 * f, Pow2(q)) == 2 * Mul(f, Pow2(q))
  {
    var p := Pow2(q);
    assert f * (2 * p) == 2 * f * p == 2 * (f * p);
  }

  lemma Binade()
    ensures Pow2(53) == 2 * Pow2(52) && Pow2(52) > 1
  {
    assert Pow2(52) == 2 * Pow2(51);
  }

  /** A double with a lower exponent than 2^52 * 2^q is well below it. */
  lemma FinerBelow(g: nat, p: nat, q: nat)
    requires g < Pow2(53) && p < q
    ensures Mul(g, Pow2(p)) + Pow2(q - 1) <= Mul(Pow2(52), Pow2(q))
  {
    hide Mul, Pow2;
    Binade();
    Doubled(Pow2(52), q - 1);
    MulLast(g, Pow2(53), Pow2(p));
    if p < q - 1 {
      Doubled(Pow2(53), q - 2);
      Doubled(1, q - 2);
      MulOne(Pow2(q - 1));
      MulOne(Pow2(q - 2));
      MulMono(2, Pow2(53), Pow2(q - 2));
      PowersGrow(p, q - 2);
      MulMono(Pow2(p), Pow2(q - 2), Pow2(53));
    }
  }

  lemma {:induction false} PowersGrow(m: nat, n: nat)
    requires m <= n
    ensures Pow2(m) <= Pow2(n)
  {
    if m < n {
      PowersGrow(m, n - 1);
    }
  }

  /** No double is nearer than one unit in the last place, above; below, half a unit if the
      significand is the least with 53 bits. */
  lemma NoneBetween(f: nat, q: nat, V: nat, W: nat)
    requires Significand(f, q, V) && IsDouble(W)
    ensures W > V ==> V + Pow2(q) <= W
    ensures W < V ==> W + Pow2(q) <= V || (f == Pow2(52) && q > 0 && W + Pow2(q - 1) <= V)
  {
    hide Mul, Pow2;
    var g: nat, p: nat :| Represents(g, p, W);
    if p >= q {
      var h := Mul(g, Pow2(p - q));
      Pow2Add(p - q, q);
      MulAssoc(g, Pow2(p - q), Pow2(q));
      if h < f {
        MulLast(h, f, Pow2(q));
      } else if f < h {
        MulLast(f, h, Pow2(q));
      }
    } else {
      FinerBelow(g, p, q);
      if f > Pow2(52) {
        MulLast(Pow2(52), f, Pow2(q));
      }
    }
  }

  lemma NextAbove(f: nat, q: nat, V: nat)
    requires Significand(f, q, V)
    ensures IsDouble(V + Pow2(q))
  {
    hide Mul, Pow2;
    MulSuccLeft(f, Pow2(q));
    Binade();
    if f + 1 < Pow2(53) {
      assert Represents(f + 1, q, V + Pow2(q));
    } else {
      Doubled(Pow2(52), q);
      assert Represents(Pow2(52), q + 1, V + Pow2(q));
    }
  }

  lemma MulSuccLeft(f: nat, p: nat)
    ensures Mul(f + 1, p) == Mul(f, p) + p
  {
  }

  /** The distance to the next double below. */
  ghost function GapBelow(f: nat, q: nat): nat {
    if f == Pow2(52) && q > 0 then Pow2(q - 1) else Pow2(q)
  }

  lemma NextBelow(f: nat, q: nat, V: nat)
    requires Significand(f, q, V) && f > 0
    ensures 0 < GapBelow(f, q) <= V && IsDouble(V - GapBelow(f, q))
  {
    hide Mul, Pow2;
    Binade();
    if f == Pow2(52) && q > 0 {
      Doubled(Pow2(52), q - 1);
      MulSuccLeft(Pow2(53) - 1, Pow2(q - 1));
      assert Represents(Pow2(53) - 1, q - 1, V - Pow2(q - 1));
    } else {
      MulSuccLeft(f - 1, Pow2(q));
      assert Represents(f - 1, q, V - Pow2(q));
    }
  }

  lemma GapsOrdered(q: nat)
    requires q > 0
    ensures Pow2(q - 1) <= Pow2(q)
  {
  }

  // ----- the interval of a double

  lemma Midpoint(x: nat, v: nat, w: nat, ties: bool)
    ensures v < w ==> (Nearer(x, v, w, ties) <==> 2 * x < v + w || (ties && 2 * x == v + w))
    ensures w < v ==> (Nearer(x, v, w, ties) <==> v + w < 2 * x || (ties && v + w == 2 * x))
  {
  }

  /** Twice x is within lo below and hi above twice v, with or without the ends. */
  predicate Inside(x: nat, v: nat, lo: nat, hi: nat, ties: bool) {
    if ties then 2 * v <= 2 * x + lo && 2 * x <= 2 * v + hi else 2 * v < 2 * x + lo && 2 * x < 2 * v + hi
  }

  lemma InsideIsNearer(x: nat, c: nat, f: nat, q: nat, V: nat, W: nat, ties: bool)
    requires Significand(f, q, V) && c > 0 && IsDouble(W) && W != V
    requires Inside(x, Units(V, c), Units(GapBelow(f, q), c), Units(Pow2(q), c), ties)
    ensures Nearer(x, Units(V, c), Units(W, c), ties)
  {
    hide Mul, Pow2, Units;
    NoneBetween(f, q, V, W);
    UnitsOrder(V, W, c);
    UnitsOrder(W, V, c);
    Midpoint(x, Units(V, c), Units(W, c), ties);
    if W > V {
      UnitsCompare(W, V, Pow2(q), c);
    } else {
      if q > 0 {
        GapsOrdered(q);
      }
      UnitsCompare(V, W, GapBelow(f, q), c);
    }
  }

  /** A position is nearer to V than to any other double exactly if it is inside the interval
      that reaches half way to the neighbours. */
  lemma ReadsIffInside(x: nat, c: nat, f: nat, q: nat, V: nat, ties: bool)
    requires Significand(f, q, V) && f > 0 && c > 0
    ensures (forall W: nat :: IsDouble(W) && W != V ==> Nearer(x, Units(V, c), Units(W, c), ties)) <==>
            Inside(x, Units(V, c), Units(GapBelow(f, q), c), Units(Pow2(q), c), ties)
  {
    hide Mul, Pow2, Units, Nearer, GapBelow, IsDouble, Significand;
    var lo, hi := GapBelow(f, q), Pow2(q);
    if Inside(x, Units(V, c), Units(lo, c), Units(hi, c), ties) {
      forall W: nat | IsDouble(W) && W != V ensures Nearer(x, Units(V, c), Units(W, c), ties) {
        InsideIsNearer(x, c, f, q, V, W, ties);
      }
    }
    NextAbove(f, q, V);
    NextBelow(f, q, V);
    if Nearer(x, Units(V, c), Units(V + hi, c), ties) && Nearer(x, Units(V, c), Units(V - lo, c), ties) {
      UnitsSum(V, hi, c);
      UnitsSum(V - lo, lo, c);
      UnitsOrder(V, V + hi, c);
      UnitsOrder(V - lo, V, c);
      UnitsOrder(V, V - lo, c);
      Midpoint(x, Units(V, c), Units(V + hi, c), ties);
      Midpoint(x, Units(V, c), Units(V - lo, c), ties);
    }
  }

  // ----- powers of ten

  function Ten(n: nat): nat {
    Scale(1, n)
  }

  lemma {:induction false} ScaleIsTen(x: nat, n: nat)
    ensures Scale(x, n) == Units(x, Ten(n)) && Ten(n) > 0
  {
    if n > 0 {
      ScaleIsTen(x, n - 1);
      assert x * (10 * Ten(n - 1)) == 10 * (x * Ten(n - 1));
    }
  }

  lemma {:induction false} TenAdd(m: nat, n: nat)
    ensures Units(Ten(m), Ten(n)) == Ten(m + n)
  {
    if n == 0 {
      assert Ten(m) * Ten(0) == Ten(m);
    } else {
      TenAdd(m, n - 1);
      assert Ten(m) * (10 * Ten(n - 1)) == 10 * (Ten(m) * Ten(n - 1));
    }
  }

  lemma ReadsAsIffInside(N: nat, e: int, f: nat, q: nat, V: nat, ties: bool)
    requires Significand(f, q, V) && f > 0
    ensures var c := Ten(if e < 0 then -e else 0);
            ReadsAs(N, e, V, ties) <==>
            Inside(DecimalAt(N, e), Units(V, c), Units(GapBelow(f, q), c), Units(Pow2(q), c), ties)
  {
    hide Mul, Pow2, Units, Nearer, GapBelow, IsDouble, Significand, Scale, Inside, Ten, DecimalAt;
    var n := if e < 0 then -e else 0;
    ScaleIsTen(V, n);
    ReadsIffInside(DecimalAt(N, e), Ten(n), f, q, V, ties);
    forall W: nat ensures DoubleAt(W, e) == Units(W, Ten(n)) {
      ScaleIsTen(W, n);
    }
  }
}

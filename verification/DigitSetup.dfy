/** From a significand and the exponents of two and five to the digit string: the powers, the
    common shift and the correction of the exponent estimate that precede the digit loops. */
module DigitSetup {
  import opened BigintSpec
  import opened BigintDivision
  import opened BigintShift
  import opened Bigints
  import opened BigintSubtraction
  import opened PowersOfFive
  import opened DigitSpec
  import opened DigitProofs
  import opened DigitScaling
  import opened DigitLoops

  /** A number other than zero. */
  ghost predicate Positive(b: Bigint)
    reads b, b.x
  {
    Num(b) && b.wds >= 1 && b.Val() > 0
  }

  lemma PositiveHasWords(b: Bigint)
    requires Num(b) && b.Val() > 0
    ensures Positive(b)
  {
    HasWords(b.Words());
  }

  lemma MulPositive(a: nat, b: nat)
    requires a > 0 && b > 0
    ensures Mul(a, b) > 0
  {
    MulGe(a, b);
  }

  // ----- the steps

  /** `i2b` */
  method I2B(w: Word) returns (r: Bigint)
    ensures fresh(r) && fresh(r.x) && Num(r) && r.wds == 1 && r.Val() == w
  {
    Pow2Values();
    r := new Bigint(1);
    r.x[0] := w;
    r.wds := 1;
    assert r.Words() == [w];
    assert Value([w]) == w + BASE * Value([w][1..]);
  }

  /** `lshift`, if there is anything to shift by. */
  method ShiftBy(b: Bigint, count: nat) returns (r: Bigint)
    requires Positive(b)
    ensures Positive(r) && r.Words() == LShiftWords(b.Words(), count) && r.Val() == Mul(b.Val(), Pow2(count))
    ensures r == b || (fresh(r) && fresh(r.x))
  {
    hide Value, Mul, Pow2, LShiftWords, Normal;
    LShiftValue(b.Words(), count);
    LShiftNormal(b.Words(), count);
    MulPositive(b.Val(), Pow2(count));
    if count > 0 {
      r := LShift(b, count);
      PositiveHasWords(r);
    } else {
      NoShift(b.Words());
      r := b;
    }
  }

  lemma NoShift(x: seq<Word>)
    ensures LShiftWords(x, 0) == x
  {
    assert ZeroWords(0) + x == x;
  }

  // ----- the numbers the loop is started with

  /** The number b * 2^b2 / (S * 2^s2) and the interval m * 2^m2 about it, twice as wide above
      if the number is a power of two; all but S times ten if the estimate was one too large. */
  function Prepare(b: nat, S: nat, m: nat, b2: nat, s2: nat, m2: nat, special: bool, less: bool, closed: bool): Target {
    Numbers(b, S, m, b2, s2, m2, if special then 1 else 0, if less then 10 else 1, closed)
  }

  function Numbers(b: nat, S: nat, m: nat, b2: nat, s2: nat, m2: nat, e: nat, ten: nat, closed: bool): Target {
    var lo := Mul(ten, Mul(m, Pow2(m2)));
    Target(Mul(ten, Mul(b, Pow2(b2 + e))), Mul(S, Pow2(s2 + e)), lo, Mul(lo, Pow2(e)), closed)
  }

  /** (x * 2^a) * 2^i */
  lemma PowersJoin(x: nat, a: nat, i: nat)
    ensures Units(Mul(x, Pow2(a)), Pow2(i)) == Mul(x, Pow2(a + i))
  {
    Pow2Add(a, i);
    assert x * Pow2(a) * Pow2(i) == x * (Pow2(a) * Pow2(i));
  }

  lemma TenJoin(t: nat, x: nat, c: nat)
    ensures Units(Mul(t, x), c) == Mul(t, Units(x, c))
  {
    assert t * x * c == t * (x * c);
  }

  lemma RightJoin(x: nat, y: nat, c: nat)
    ensures Units(Mul(x, y), c) == Mul(Units(x, c), y)
  {
    assert x * y * c == x * c * y;
  }

  lemma PartShifted(ten: nat, x: nat, a: nat, e: nat, i: nat)
    ensures Mul(x, Pow2(a + i + e)) == Units(Mul(x, Pow2(a + e)), Pow2(i))
    ensures Mul(ten, Mul(x, Pow2(a + i + e))) == Units(Mul(ten, Mul(x, Pow2(a + e))), Pow2(i))
  {
    hide Mul, Pow2, Units;
    PowersJoin(x, a + e, i);
    TenJoin(ten, Mul(x, Pow2(a + e)), Pow2(i));
    assert a + i + e == a + e + i;
  }

  lemma WidthShifted(lo: nat, lo': nat, e: nat, c: nat)
    requires lo' == Units(lo, c)
    ensures Mul(lo', Pow2(e)) == Units(Mul(lo, Pow2(e)), c)
  {
    hide Mul, Pow2, Units;
    RightJoin(lo, Pow2(e), c);
  }

  lemma NumbersShifted(b: nat, S: nat, m: nat, b2: nat, s2: nat, m2: nat, i: nat, e: nat, ten: nat, closed: bool)
    ensures Numbers(b, S, m, b2 + i, s2 + i, m2 + i, e, ten, closed) ==
            Scaled(Numbers(b, S, m, b2, s2, m2, e, ten, closed), Pow2(i))
  {
    hide Mul, Pow2, Units;
    PartShifted(ten, b, b2, e, i);
    PartShifted(ten, S, s2, e, i);
    PartShifted(ten, m, m2, 0, i);
    assert m2 + i + 0 == m2 + i && m2 + 0 == m2;
    WidthShifted(Mul(ten, Mul(m, Pow2(m2))), Mul(ten, Mul(m, Pow2(m2 + i))), e, Pow2(i));
  }

  /** Shifting b, S and m by i more is multiplying everything by 2^i. */
  lemma PrepareShifted(
    b: nat, S: nat, m: nat, b2: nat, s2: nat, m2: nat, i: nat, special: bool, less: bool, closed: bool)
    ensures Prepare(b, S, m, b2 + i, s2 + i, m2 + i, special, less, closed) ==
            Scaled(Prepare(b, S, m, b2, s2, m2, special, less, closed), Pow2(i))
  {
    hide Mul, Pow2, Units, Numbers, Scaled;
    NumbersShifted(b, S, m, b2, s2, m2, i, if special then 1 else 0, if less then 10 else 1, closed);
  }

  // ----- the setup of the shortest-digit loop

  /** The quotient has one digit before the point; if the estimate is to be checked, possibly
      only after multiplying by ten. */
  predicate OneDigit(b: nat, S: nat, check: bool) {
    b < 10 * S && (S <= b || (check && S <= 10 * b))
  }

  /** A wrong estimate of the decimal exponent is put right. */
  method CorrectEstimate(b0: Bigint, S: Bigint, m0: Bigint, check: bool) returns (b: Bigint, m: Bigint, less: bool)
    requires Positive(b0) && Positive(S) && Positive(m0) && Apart(b0, S) && Apart(b0, m0) && Apart(S, m0)
    requires OneDigit(b0.Val(), S.Val(), check)
    modifies b0, b0.x, m0, m0.x
    ensures Positive(b) && Positive(S) && Positive(m) && Apart(b, S) && Apart(b, m) && Apart(S, m)
    ensures S.Words() == old(S.Words()) && S.wds == old(S.wds) && S.Val() <= b.Val() < 10 * S.Val()
    ensures less <==> old(b0.Val()) < S.Val()
    ensures b.Val() == (if less then 10 * old(b0.Val()) else old(b0.Val()))
    ensures m.Val() == (if less then 10 * old(m0.Val()) else old(m0.Val()))
    ensures Replaces(b, b0) && Replaces(m, m0)
  {
    hide Value, Normal, CmpWords, Pow2;
    b, m, less := b0, m0, false;
    if check {
      var c := Cmp(b, S);
      CompareNumbers(b.Words(), S.Words());
      if c < 0 {
        less := true;
        b := TenTimes(b);
        m := TenTimes(m);
      }
    }
  }

  lemma CompareNumbers(a: seq<Word>, b: seq<Word>)
    requires Normal(a) && Normal(b) && a != [] && b != []
    ensures CmpWords(a, b) < 0 <==> Value(a) < Value(b)
  {
    hide Value, CmpWords;
    NotMixed(a, b);
    CmpAgrees(a, b);
  }

  /** mlo and mhi: one number, or two if the interval is wider above. */
  method Bounds(m: Bigint, special: bool) returns (mhi: Bigint)
    requires Positive(m)
    ensures Positive(mhi) && mhi.Val() == Mul(m.Val(), Pow2(if special then 1 else 0))
    ensures if special then fresh(mhi) && fresh(mhi.x) else mhi == m
  {
    hide Value, Mul, Normal, LShiftWords;
    if special {
      mhi := new Bigint(m.k);
      CopyWords(m, mhi);
      mhi := ShiftBy(mhi, 1);
    } else {
      MulOne(m.Val());
      assert Pow2(0) == 1;
      mhi := m;
    }
  }

  /** Both sides of a comparison times 2^i. */
  lemma OneDigitShifted(b: nat, S: nat, b2: nat, s2: nat, i: nat, check: bool)
    ensures OneDigit(Mul(b, Pow2(b2 + i)), Mul(S, Pow2(s2 + i)), check) <==>
            OneDigit(Mul(b, Pow2(b2)), Mul(S, Pow2(s2)), check)
    ensures Mul(b, Pow2(b2 + i)) < Mul(S, Pow2(s2 + i)) <==> Mul(b, Pow2(b2)) < Mul(S, Pow2(s2))
  {
    hide Mul, Pow2, Units;
    var x, y, c := Mul(b, Pow2(b2)), Mul(S, Pow2(s2)), Pow2(i);
    PowersJoin(b, b2, i);
    PowersJoin(S, s2, i);
    UnitsOrder(x, y, c);
    UnitsOrder(y, x, c);
    TenUnits(x, c);
    TenUnits(y, c);
    UnitsOrder(10 * y, x, c);
    UnitsOrder(y, 10 * x, c);
  }

  lemma TenUnits(x: nat, c: nat)
    ensures Units(10 * x, c) == 10 * Units(x, c)
  {
  }

  lemma TenFirst(ten: nat, m: nat, p: nat)
    ensures Mul(Mul(ten, m), p) == Mul(ten, Mul(m, p))
    ensures Mul(10, m) == 10 * m && Mul(1, m) == m
  {
    assert ten * m * p == ten * (m * p);
  }

  /** Shift b and S by as much as gives the divisor four leading zero bits. */
  method ShiftBoth(b0: Bigint, S0: Bigint, b2: nat, s2: nat) returns (b: Bigint, S: Bigint, i: nat)
    requires Positive(b0) && Positive(S0) && Apart(b0, S0)
    ensures Positive(b) && Positive(S) && Apart(b, S) && Prepared(S.Words())
    ensures b.Val() == Mul(b0.Val(), Pow2(b2 + i)) && S.Val() == Mul(S0.Val(), Pow2(s2 + i))
    ensures (b == b0 || (fresh(b) && fresh(b.x))) && (S == S0 || (fresh(S) && fresh(S.x)))
  {
    hide Value, Mul, Pow2, Normal, Prepared, LShiftWords;
    i := DShift(S0.x[..S0.wds], s2);
    b := ShiftBy(b0, b2 + i);
    S := ShiftBy(S0, s2 + i);
  }

  /** The two ends of the interval. */
  method Interval(b: Bigint, S: Bigint, m0: Bigint, count: nat, special: bool) returns (m: Bigint, mhi: Bigint)
    requires Positive(b) && Positive(S) && Positive(m0) && Apart(b, S) && Apart(b, m0) && Apart(S, m0)
    requires Prepared(S.Words()) && b.Val() < 10 * S.Val()
    ensures Loop(b, S, m, mhi) && m.Val() == Mul(m0.Val(), Pow2(count))
    ensures mhi.Val() == Mul(m.Val(), Pow2(if special then 1 else 0))
    ensures (m == m0 || (fresh(m) && fresh(m.x))) && (mhi == m || (fresh(mhi) && fresh(mhi.x)))
  {
    hide Value, Mul, Pow2, Normal, Prepared, LShiftWords;
    m := ShiftBy(m0, count);
    mhi := Bounds(m, special);
  }

  /** Everything the loop starts with. */
  method Arrange(
    b0: Bigint, S0: Bigint, m0: Bigint, b2: nat, s2: nat, m2: nat, special: bool, check: bool)
    returns (b: Bigint, S: Bigint, m: Bigint, mhi: Bigint, less: bool, ghost i: nat)
    requires Positive(b0) && Positive(S0) && Positive(m0) && Apart(b0, S0) && Apart(b0, m0) && Apart(S0, m0)
    requires OneDigit(Mul(b0.Val(), Pow2(b2)), Mul(S0.Val(), Pow2(s2)), check)
    modifies b0, b0.x, m0, m0.x
    ensures Loop(b, S, m, mhi) && S.Val() <= b.Val()
    ensures (b == b0 || fresh(b)) && (b.x == old(b0.x) || fresh(b.x))
    ensures (m == m0 || fresh(m)) && (m.x == old(m0.x) || fresh(m.x))
    ensures mhi == m || (fresh(mhi) && fresh(mhi.x))
    ensures less <==> old(Mul(b0.Val(), Pow2(b2)) < Mul(S0.Val(), Pow2(s2)))
    ensures var e := if special then 1 else 0;
            var ten := if less then 10 else 1;
            && b.Val() == ten * Mul(old(b0.Val()), Pow2(b2 + i + e)) && S.Val() == Mul(old(S0.Val()), Pow2(s2 + i + e))
            && m.Val() == Mul(ten, Mul(old(m0.Val()), Pow2(m2 + i))) && mhi.Val() == Mul(m.Val(), Pow2(e))
  {
    hide Value, Mul, Pow2, Normal, Prepared, OneDigit;
    ghost var M := m0.Val();
    var e := if special then 1 else 0;
    var shift;
    ghost var B, V := b0.Val(), S0.Val();
    b, S, shift := ShiftBoth(b0, S0, b2 + e, s2 + e);
    i := shift;
    OneDigitShifted(B, V, b2, s2, e + i, check);
    assert b2 + (e + i) == b2 + e + i && s2 + (e + i) == s2 + e + i;
    b, m, less := CorrectEstimate(b, S, m0, check);
    TenFirst(if less then 10 else 1, M, Pow2(m2 + i));
    m, mhi := Interval(b, S, m, m2 + shift, special);
    assert b2 + e + i == b2 + i + e && s2 + e + i == s2 + i + e;
  }

  /** From b, S and m and the powers of two to multiply them by, to the digit string. */
  method ShortestPrepared(
    b0: Bigint, S0: Bigint, m0: Bigint, b2: nat, s2: nat, m2: nat, special: bool, check: bool, closed: bool,
    ilim: int, ilim1: int)
    returns (out: Output, less: bool, ghost bare: bool)
    requires Positive(b0) && Positive(S0) && Positive(m0) && Apart(b0, S0) && Apart(b0, m0) && Apart(S0, m0)
    requires OneDigit(Mul(b0.Val(), Pow2(b2)), Mul(S0.Val(), Pow2(s2)), check)
    modifies b0, b0.x, m0, m0.x
    ensures less <==> old(Mul(b0.Val(), Pow2(b2)) < Mul(S0.Val(), Pow2(s2)))
    ensures ShortestResult(
              out, Prepare(old(b0.Val()), old(S0.Val()), old(m0.Val()), b2, s2, m2, special, less, closed),
              bare, if less then ilim1 else ilim, [])
  {
    hide Value, Mul, Pow2, Normal, Prepared, ShortestResult, Prepare, Scaled, OneDigit;
    ghost var B, V, M := b0.Val(), S0.Val(), m0.Val();
    var b, S, m, mhi;
    ghost var i;
    b, S, m, mhi, less, i := Arrange(b0, S0, m0, b2, s2, m2, special, check);
    bare := S.wds == 1;
    ghost var t := Target(b.Val(), S.Val(), m.Val(), mhi.Val(), closed);
    PreparedTarget(t, B, V, M, b2 + i, s2 + i, m2 + i, special, less, closed);
    PrepareShifted(B, V, M, b2, s2, m2, i, special, less, closed);
    WiderAbove(m.Val(), special);
    out := ShortestDigits(b, S, m, mhi, closed, if less then ilim1 else ilim);
    PrepareDivisor(B, V, M, b2, s2, m2, special, less, closed);
    ResultScaled(out, Prepare(B, V, M, b2, s2, m2, special, less, closed), bare, if less then ilim1 else ilim, Pow2(i));
  }

  lemma WiderAbove(m: nat, special: bool)
    ensures m <= Mul(m, Pow2(if special then 1 else 0))
  {
    hide Pow2;
    Pow2Values();
  }

  lemma PreparedTarget(
    t: Target, b: nat, S: nat, m: nat, b2: nat, s2: nat, m2: nat, special: bool, less: bool, closed: bool)
    requires var e := if special then 1 else 0;
             var ten := if less then 10 else 1;
             && t.closed == closed
             && t.b == ten * Mul(b, Pow2(b2 + e)) && t.S == Mul(S, Pow2(s2 + e))
             && t.lo == Mul(ten, Mul(m, Pow2(m2))) && t.hi == Mul(t.lo, Pow2(e))
    ensures t == Prepare(b, S, m, b2, s2, m2, special, less, closed)
  {
    hide Pow2;
    var ten := if less then 10 else 1;
    assert Mul(ten, Mul(b, Pow2(b2 + if special then 1 else 0))) == t.b;
  }

  lemma PrepareDivisor(b: nat, S: nat, m: nat, b2: nat, s2: nat, m2: nat, special: bool, less: bool, closed: bool)
    requires S > 0
    ensures Prepare(b, S, m, b2, s2, m2, special, less, closed).S > 0
  {
    hide Mul, Pow2;
    MulPositive(S, Pow2(s2 + if special then 1 else 0));
  }

  // ----- powers of five, and factors of two in common

  /** 5^n, as a number of its own. */
  method PowerOfFive(cache: Pow5Cache, n: nat) returns (r: Bigint)
    requires cache.Valid()
    modifies cache
    ensures cache.Valid() && Positive(r) && r.Val() == Pow5(n) && fresh(r) && fresh(r.x) && cache.Apart(r)
    ensures old(cache.chain) <= cache.chain
    ensures forall j :: |old(cache.chain)| <= j < |cache.chain| ==> fresh(cache.chain[j]) && fresh(cache.chain[j].x)
  {
    hide Value, Mul, Pow5, Normal, Pow2, ChainValue;
    r := I2B(1);
    MulOne(Pow5(n));
    if n > 0 {
      r := cache.Pow5Mult(r, n);
    } else {
      NoFives();
    }
    PositiveHasWords(r);
  }

  lemma NoFives()
    ensures Pow5(0) == 1
  {
  }

  /** b * 5^b5, 5^b5 and 5^s5. */
  method Powers(cache: Pow5Cache, b0: Bigint, b5: nat, s5: nat) returns (b: Bigint, m: Bigint, S: Bigint)
    requires cache.Valid() && Positive(b0)
    modifies cache
    ensures cache.Valid()
    ensures Positive(b) && Positive(m) && Positive(S) && Apart(b, m) && Apart(b, S) && Apart(S, m)
    ensures b.Val() == Mul(b0.Val(), Pow5(b5)) && m.Val() == Pow5(b5) && S.Val() == Pow5(s5)
    ensures (b == b0 || (fresh(b) && fresh(b.x))) && fresh(m) && fresh(m.x) && fresh(S) && fresh(S.x)
  {
    hide Value, Mul, Pow5, Normal, Pow2, ChainValue;
    ghost var B := b0.Val();
    m := PowerOfFive(cache, b5);
    b := b0;
    MulPositive(B, Pow5(b5));
    MulCommutes(B, Pow5(b5));
    if b5 > 0 {
      b := Mult(m, b);
      PositiveHasWords(b);
    } else {
      NoFives();
      MulOne(B);
    }
    S := PowerOfFive(cache, s5);
  }

  /** The digits of b * 5^b5 * 2^b2 / (5^s5 * 2^s2) with an interval of 5^b5 * 2^b2 / (5^s5 *
      2^(s2 + gap)) about it: the shortest string that rounds to it, from the significand on. */
  method ShortestFrom(
    cache: Pow5Cache, b0: Bigint, b2: nat, b5: nat, s2: nat, s5: nat, gap: nat, special: bool, check: bool,
    closed: bool, ilim: int, ilim1: int)
    returns (out: Output, less: bool, ghost bare: bool)
    requires cache.Valid() && Positive(b0)
    requires OneDigit(Mul(Mul(b0.Val(), Pow5(b5)), Pow2(b2)), Mul(Pow5(s5), Pow2(s2)), check)
    modifies cache, b0, b0.x
    ensures less <==> old(Mul(Mul(b0.Val(), Pow5(b5)), Pow2(b2))) < Mul(Pow5(s5), Pow2(s2))
    ensures ShortestResult(
              out, Prepare(Mul(old(b0.Val()), Pow5(b5)), Pow5(s5), Pow5(b5), b2 + gap, s2 + gap, b2, special, less, closed),
              bare, if less then ilim1 else ilim, [])
  {
    hide Value, Mul, Pow2, Pow5, Normal, ShortestResult, Prepare, Scaled, OneDigit;
    ghost var X := Mul(b0.Val(), Pow5(b5));
    var common := if b2 > 0 && s2 + gap > 0 then if b2 < s2 + gap then b2 else s2 + gap else 0;
    Cancelled(X, Pow5(s5), b2, s2, gap, common, check);
    var b, m, S := Powers(cache, b0, b5, s5);
    out, less, bare := ShortestPrepared(
      b, S, m, b2 + gap - common, s2 + gap - common, b2 - common, special, check, closed, ilim, ilim1);
    PrepareShifted(
      X, Pow5(s5), Pow5(b5), b2 + gap - common, s2 + gap - common, b2 - common, common, special, less, closed);
    PrepareDivisor(
      X, Pow5(s5), Pow5(b5), b2 + gap - common, s2 + gap - common, b2 - common, special, less, closed);
    ResultScaled(
      out, Prepare(X, Pow5(s5), Pow5(b5), b2 + gap - common, s2 + gap - common, b2 - common, special, less, closed),
      bare, if less then ilim1 else ilim, Pow2(common));
  }

  /** Multiplying by 2^gap and dividing by a common power of two changes no comparison. */
  lemma Cancelled(x: nat, y: nat, b2: nat, s2: nat, gap: nat, common: nat, check: bool)
    requires common <= b2 + gap && common <= s2 + gap
    ensures OneDigit(Mul(x, Pow2(b2 + gap - common)), Mul(y, Pow2(s2 + gap - common)), check) <==>
            OneDigit(Mul(x, Pow2(b2)), Mul(y, Pow2(s2)), check)
    ensures Mul(x, Pow2(b2 + gap - common)) < Mul(y, Pow2(s2 + gap - common)) <==>
            Mul(x, Pow2(b2)) < Mul(y, Pow2(s2))
  {
    hide Mul, Pow2, OneDigit;
    OneDigitShifted(x, y, b2, s2, gap, check);
    OneDigitShifted(x, y, b2 + gap - common, s2 + gap - common, common, check);
  }

  // ----- a fixed number of digits

  /** Correct the estimate when only b and S are in play. */
  method CorrectQuotient(b0: Bigint, S: Bigint, check: bool) returns (b: Bigint, less: bool)
    requires Positive(b0) && Positive(S) && Apart(b0, S) && OneDigit(b0.Val(), S.Val(), check)
    modifies b0, b0.x
    ensures Positive(b) && Positive(S) && Apart(b, S) && S.Words() == old(S.Words())
    ensures S.Val() <= b.Val() < 10 * S.Val() && Replaces(b, b0)
    ensures less <==> old(b0.Val()) < S.Val()
    ensures b.Val() == (if less then 10 * old(b0.Val()) else old(b0.Val()))
  {
    hide Value, Normal, CmpWords, Pow2;
    b, less := b0, false;
    if check {
      var c := Cmp(b, S);
      CompareNumbers(b.Words(), S.Words());
      if c < 0 {
        less := true;
        b := TenTimes(b);
      }
    }
  }

  /** The number times 5^b5, and 5^s5: no interval, so no third number. */
  method TwoPowers(cache: Pow5Cache, b0: Bigint, b5: nat, s5: nat) returns (b: Bigint, S: Bigint)
    requires cache.Valid() && cache.Apart(b0) && Positive(b0)
    modifies cache, b0, b0.x
    ensures cache.Valid() && Positive(b) && Positive(S) && Apart(b, S)
    ensures b.Val() == Mul(old(b0.Val()), Pow5(b5)) && S.Val() == Pow5(s5)
    ensures (b == b0 || fresh(b)) && (b.x == old(b0.x) || fresh(b.x)) && fresh(S) && fresh(S.x)
  {
    hide Value, Mul, Pow2, Pow5, Normal, ChainValue;
    ghost var B := b0.Val();
    b := b0;
    MulPositive(B, Pow5(b5));
    if b5 > 0 {
      b := cache.Pow5Mult(b, b5);
      PositiveHasWords(b);
    } else {
      NoFives();
      MulOne(B);
    }
    S := PowerOfFive(cache, s5);
  }

  /** Shift, correct the estimate and take the digits. */
  method FixedPrepared(b0: Bigint, S0: Bigint, b2: nat, s2: nat, check: bool, ilim: nat, ilim1: nat)
    returns (out: Output, less: bool, ghost i: nat)
    requires Positive(b0) && Positive(S0) && Apart(b0, S0) && ilim >= 1 && ilim1 >= 1
    requires OneDigit(Mul(b0.Val(), Pow2(b2)), Mul(S0.Val(), Pow2(s2)), check)
    modifies b0, b0.x, S0, S0.x
    ensures less <==> old(Mul(b0.Val(), Pow2(b2))) < old(Mul(S0.Val(), Pow2(s2)))
    ensures var n := if less then ilim1 else ilim;
            var x := Mul(old(b0.Val()), Pow2(b2 + i));
            Nearest(out, n, Scale(if less then 10 * x else x, n - 1), Mul(old(S0.Val()), Pow2(s2 + i))) &&
            Canonical(out)
  {
    hide Value, Mul, Pow2, Normal, Nearest, OneDigit, Scale, Canonical;
    ghost var X, Y := b0.Val(), S0.Val();
    var b, S;
    b, S, i := ShiftBoth(b0, S0, b2, s2);
    OneDigitShifted(X, Y, b2, s2, i, check);
    b, less := CorrectQuotient(b, S, check);
    out := FixedDigits(b, S, if less then ilim1 else ilim);
  }

  /** The first digits of b * 5^b5 * 2^b2 / (5^s5 * 2^s2), rounded to nearest. */
  method FixedFrom(
    cache: Pow5Cache, b0: Bigint, b2: nat, b5: nat, s2: nat, s5: nat, check: bool, ilim: nat, ilim1: nat)
    returns (out: Output, less: bool)
    requires cache.Valid() && cache.Apart(b0) && Positive(b0) && ilim >= 1 && ilim1 >= 1
    requires OneDigit(Mul(Mul(b0.Val(), Pow5(b5)), Pow2(b2)), Mul(Pow5(s5), Pow2(s2)), check)
    modifies cache, b0, b0.x
    ensures less <==> old(Mul(Mul(b0.Val(), Pow5(b5)), Pow2(b2))) < Mul(Pow5(s5), Pow2(s2))
    ensures var n := if less then ilim1 else ilim;
            var x := Mul(Mul(old(b0.Val()), Pow5(b5)), Pow2(b2));
            Nearest(out, n, Scale(if less then 10 * x else x, n - 1), Mul(Pow5(s5), Pow2(s2))) && Canonical(out)
  {
    hide Value, Mul, Pow2, Pow5, Normal, Nearest, OneDigit, Scale, Canonical;
    ghost var X := Mul(b0.Val(), Pow5(b5));
    var common := if b2 > 0 && s2 > 0 then if b2 < s2 then b2 else s2 else 0;
    Cancelled(X, Pow5(s5), b2, s2, 0, common, check);
    var b, S := TwoPowers(cache, b0, b5, s5);
    ghost var i;
    out, less, i := FixedPrepared(b, S, b2 - common, s2 - common, check, ilim, ilim1);
    NearestUnshifted(out, if less then ilim1 else ilim, X, Pow5(s5), b2, s2, i, common, less);
  }

  lemma NearestUnshifted(out: Output, n: nat, x: nat, y: nat, b2: nat, s2: nat, i: nat, common: nat, less: bool)
    requires n >= 1 && common <= b2 && common <= s2
    requires var b := Mul(x, Pow2(b2 - common + i));
             Nearest(out, n, Scale(if less then 10 * b else b, n - 1), Mul(y, Pow2(s2 - common + i)))
    ensures var b := Mul(x, Pow2(b2));
            Nearest(out, n, Scale(if less then 10 * b else b, n - 1), Mul(y, Pow2(s2)))
  {
    hide Mul, Pow2, Units, Scale, NearestInt, Even;
    var b, b' := Mul(x, Pow2(b2 - common + i)), Mul(x, Pow2(b2));
    var t, t' := if less then 10 * b else b, if less then 10 * b' else b';
    PowersJoin(x, b2 - common + i, common);
    PowersJoin(y, s2 - common + i, common);
    PowersJoin(x, b2, i);
    PowersJoin(y, s2, i);
    TenUnits(b, Pow2(common));
    TenUnits(b', Pow2(i));
    ScaleUnits(t, Pow2(common), n - 1);
    ScaleUnits(t', Pow2(i), n - 1);
    var N := ScaledInt(out, n);
    NearestScaled(N, Scale(t, n - 1), Mul(y, Pow2(s2 - common + i)), Pow2(common));
    NearestScaled(N, Scale(t', n - 1), Mul(y, Pow2(s2)), Pow2(i));
    assert b2 - common + i + common == b2 + i && s2 - common + i + common == s2 + i;
  }
}

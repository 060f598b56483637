/** Comparison, subtraction and the one-digit division `quorem`, on words. */
module BigintDivision {
  import opened Arith
  import opened BigintSpec

  // ----- comparison

  /** `cmp`: more words is larger; otherwise the highest differing word decides. */
  function CmpWords(a: seq<Word>, b: seq<Word>): int {
    if |a| != |b| then |a| - |b|
    else if a == [] then 0
    else
      var n := |a| - 1;
      if a[n] != b[n] then (if a[n] < b[n] then -1 else 1) else CmpWords(a[..n], b[..n])
  }

  lemma CmpLength(a: seq<Word>, b: seq<Word>)
    requires CmpWords(a, b) >= 0
    ensures |a| >= |b|
  {
  }

  ghost predicate SameOrder(c: int, x: nat, y: nat) {
    (c < 0 <==> x < y) && (c == 0 <==> x == y) && (c > 0 <==> x > y)
  }

  lemma {:induction false} CmpSameLength(a: seq<Word>, b: seq<Word>)
    requires |a| == |b|
    ensures SameOrder(CmpWords(a, b), Value(a), Value(b))
  {
    if a != [] {
      var n := |a| - 1;
      ValueTop(a);
      ValueTop(b);
      ValueBound(a[..n]);
      ValueBound(b[..n]);
      if a[n] == b[n] {
        CmpSameLength(a[..n], b[..n]);
      } else if a[n] < b[n] {
        MulStep(Power(n), a[n], b[n]);
      } else {
        MulStep(Power(n), b[n], a[n]);
      }
    }
  }

  lemma MulStep(p: nat, x: nat, y: nat)
    requires x < y
    ensures Mul(p, x) + p <= Mul(p, y)
  {
    MulMonotone(x + 1, y, p);
    assert p * (x + 1) == p * x + p;
  }

  /** Two ways of writing zero. */
  predicate MixedZeros(a: seq<Word>, b: seq<Word>) {
    |a| != |b| && Value(a) == 0 && Value(b) == 0
  }

  lemma Longer(a: seq<Word>, b: seq<Word>)
    requires Normal(a) && |b| < |a| && !MixedZeros(a, b)
    ensures Value(b) < Value(a)
  {
    ValueBound(b);
    if |a| > 1 {
      ValueTop(a);
      PowerMonotone(|b|, |a| - 1);
    }
  }

  lemma {:induction false} PowerMonotone(m: nat, n: nat)
    requires m <= n
    ensures Power(m) <= Power(n)
  {
    if m < n {
      PowerMonotone(m, n - 1);
    }
  }

  /** On normal forms `cmp` has the sign of the difference, except precisely when the two
      numbers are zero written with different lengths. */
  lemma CmpAgrees(a: seq<Word>, b: seq<Word>)
    requires Normal(a) && Normal(b)
    ensures SameOrder(CmpWords(a, b), Value(a), Value(b)) <==> !MixedZeros(a, b)
  {
    if |a| == |b| {
      CmpSameLength(a, b);
    } else if !MixedZeros(a, b) {
      if |b| < |a| {
        Longer(a, b);
      } else {
        Longer(b, a);
      }
    }
  }

  // ----- subtraction

  /** Unsigned 64-bit wrap-around. */
  function Wrap64(y: int): nat {
    y % 0x1_0000_0000_0000_0000
  }

  /** One word of a borrow loop: 64-bit subtraction, keep the low word, and take bit 32 as
      the borrow. */
  function SubWord(x: Word, y: Word, borrow: nat): (r: (Word, nat))
    requires borrow <= 1
    ensures r.1 <= 1 && r.0 + y + borrow == x + BASE * r.1
  {
    var d := Wrap64(x - y - borrow);
    assert d == if x >= y + borrow then x - y - borrow else 0x1_0000_0000_0000_0000 + x - y - borrow;
    (d % BASE, d / BASE % 2)
  }

  /** The loops of `diff` on a >= b: the words of a - b - borrow and the final borrow. */
  function DiffWords(a: seq<Word>, b: seq<Word>, borrow: nat): (seq<Word>, nat)
    requires |b| <= |a| && borrow <= 1
    decreases |a|
  {
    if a == [] then ([], borrow)
    else
      var (w, br) := SubWord(a[0], if b == [] then 0 else b[0], borrow);
      var (rest, last) := DiffWords(a[1..], if b == [] then [] else b[1..], br);
      ([w] + rest, last)
  }

  lemma {:induction false} DiffWordsValue(a: seq<Word>, b: seq<Word>, borrow: nat)
    requires |b| <= |a| && borrow <= 1
    ensures var (d, last) := DiffWords(a, b, borrow);
            && |d| == |a| && last <= 1
            && Value(d) + Value(b) + borrow == Value(a) + if last == 1 then Power(|a|) else 0
    decreases |a|
  {
    if a != [] {
      var b0, b' := if b == [] then 0 else b[0], if b == [] then [] else b[1..];
      var (w, br) := SubWord(a[0], b0, borrow);
      DiffWordsValue(a[1..], b', br);
      var (rest, last) := DiffWords(a[1..], b', br);
      assert ([w] + rest)[1..] == rest;
    }
  }

  /** Subtracting the smaller from the larger leaves no borrow. */
  lemma DiffExact(a: seq<Word>, b: seq<Word>)
    requires |b| <= |a| && Value(b) <= Value(a)
    ensures var (d, last) := DiffWords(a, b, 0);
            last == 0 && |d| == |a| && Value(d) == Value(a) - Value(b)
  {
    DiffWordsValue(a, b, 0);
    ValueBound(DiffWords(a, b, 0).0);
  }

  // ----- quorem

  /** The first loop of `quorem`: the words of b - q*s, with the final carry and borrow. */
  function SubMulWords(b: seq<Word>, s: seq<Word>, q: nat, carry: Word, borrow: nat): (seq<Word>, nat, nat)
    requires |b| == |s| && q < BASE && borrow <= 1
  {
    if b == [] then ([], carry, borrow)
    else
      var ys := Mul(s[0], q) + carry;
      CarryFits(s[0], q, carry);
      var (w, br) := SubWord(b[0], ys % BASE, borrow);
      var (rest, c, last) := SubMulWords(b[1..], s[1..], q, ys / BASE, br);
      ([w] + rest, c, last)
  }

  lemma {:induction false} SubMulWordsValue(b: seq<Word>, s: seq<Word>, q: nat, carry: Word, borrow: nat)
    requires |b| == |s| && q < BASE && borrow <= 1
    ensures var (d, c, last) := SubMulWords(b, s, q, carry, borrow);
            && |d| == |b| && c < BASE && last <= 1
            && Value(d) + Mul(Value(s), q) + carry + borrow == Value(b) + Mul(Power(|b|), c + last)
  {
    hide Mul, SubWord, Value;
    if b == [] {
      MulZero(q);
      NoValue();
      assert Mul(1, carry + borrow) == carry + borrow by { MulOne(carry + borrow); }
    } else {
      var ys := Mul(s[0], q) + carry;
      CarryFits(s[0], q, carry);
      var (w, br) := SubWord(b[0], ys % BASE, borrow);
      SubMulWordsValue(b[1..], s[1..], q, ys / BASE, br);
      var (rest, c, last) := SubMulWords(b[1..], s[1..], q, ys / BASE, br);
      FirstWord([w] + rest);
      FirstWord(b);
      FirstWord(s);
      assert ([w] + rest)[1..] == rest;
      MulAdd(s[0], Value(s[1..]), carry, q);
      MulBase(Power(|b| - 1), c + last);
    }
  }

  lemma FirstWord(x: seq<Word>)
    requires x != []
    ensures Value(x) == x[0] + BASE * Value(x[1..])
  {
  }

  lemma NoValue()
    ensures Value([]) == 0
  {
  }

  lemma MulOne(x: nat)
    ensures Mul(1, x) == x && Mul(x, 1) == x
  {
  }

  lemma MulBase(p: nat, x: nat)
    ensures Mul(BASE * p, x) == BASE * Mul(p, x)
  {
    assert BASE * p * x == BASE * (p * x);
  }

  /** Subtracting a multiple that is not too large leaves neither carry nor borrow. */
  lemma SubMulExact(b: seq<Word>, s: seq<Word>, q: nat)
    requires |b| == |s| && q < BASE && Mul(Value(s), q) <= Value(b)
    ensures var (d, c, last) := SubMulWords(b, s, q, 0, 0);
            c == 0 && last == 0 && |d| == |b| && Value(d) == Value(b) - Mul(Value(s), q)
  {
    hide Mul;
    SubMulWordsValue(b, s, q, 0, 0);
    var (d, c, last) := SubMulWords(b, s, q, 0, 0);
    ValueBound(d);
    MulGe(Power(|b|), c + last);
    assert Mul(Power(|b|), 0) == 0 by { MulZero(Power(|b|)); }
  }

  lemma MulGe(p: nat, x: nat)
    ensures x > 0 ==> Mul(p, x) >= p
  {
    if x > 0 {
      MulAtLeast(x, p);
    }
  }

  /** What `quorem` does to a number whose top word has become zero. */
  function StripTop(x: seq<Word>): seq<Word>
    requires x != []
  {
    if x[|x| - 1] == 0 then Strip(x[..|x| - 1]) else x
  }

  lemma StripTopKeepsValue(x: seq<Word>)
    requires x != []
    ensures Value(StripTop(x)) == Value(x) && Normal(StripTop(x)) && |StripTop(x)| <= |x|
  {
    if x[|x| - 1] == 0 {
      DropTopZero(x);
      StripKeepsValue(x[..|x| - 1]);
    }
  }

  /** Zero keeps one word, unless there was only one to begin with. */
  lemma StripTopZero(x: seq<Word>)
    requires x != [] && Value(x) == 0
    ensures |StripTop(x)| == if |x| == 1 then 0 else 1
  {
    StripTopKeepsValue(x);
    var y := StripTop(x);
    if |y| > 1 {
      ValueTop(y);
    }
    ValueTop(x);
    MulGe(Power(|x| - 1), x[|x| - 1]);
    if |x| > 1 {
      StripNonempty(x[..|x| - 1]);
    }
  }

  lemma {:induction false} StripNonempty(x: seq<Word>)
    requires x != []
    ensures Strip(x) != []
  {
    if |x| > 1 && x[|x| - 1] == 0 {
      StripNonempty(x[..|x| - 1]);
    }
  }

  /** The scaled top word of a divisor prepared by `dshift` and `lshift`. */
  predicate Prepared(s: seq<Word>) {
    s != [] && 0x800_0000 <= s[|s| - 1] < 0x1000_0000
  }

  /** The quotient estimate from the top words. */
  function Guess(x: Word, y: Word): (q: nat)
    ensures q <= x && Mul(y + 1, q) <= x < Mul(y + 1, q) + y + 1
  {
    var d: nat := (y as nat) + 1;
    DivNonneg(x, d);
    var q := x / d;
    assert x == q * d + x % d;
    MulMonotone(1, d, q);
    q
  }

  /** One subtraction of q*s, and the stripping that follows it. */
  function Reduce(b: seq<Word>, s: seq<Word>, q: nat): seq<Word>
    requires |b| == |s| > 0 && q < BASE
  {
    SubMulWordsValue(b, s, q, 0, 0);
    if q == 0 then b else StripTop(SubMulWords(b, s, q, 0, 0).0)
  }

  /** `quorem`: the quotient digit and the remainder's words. */
  function QuoremWords(b: seq<Word>, s: seq<Word>): (nat, seq<Word>)
    requires Prepared(s) && |b| <= |s|
  {
    if |b| < |s| then (0, b)
    else
      var q := Guess(b[|s| - 1], s[|s| - 1]);
      var b1 := Reduce(b, s, q);
      if CmpWords(b1, s) >= 0 && |b1| == |s| then (q + 1, Reduce(b1, s, 1)) else (q, b1)
  }

  /** A prepared divisor leaves room: ten times it still fits in as many words. */
  lemma PreparedRoom(s: seq<Word>, b: seq<Word>)
    requires Prepared(s) && Normal(b) && Value(b) < 10 * Value(s)
    ensures |b| <= |s|
  {
    hide Mul;
    var n := |s| - 1;
    ValueTop(s);
    ValueBound(s[..n]);
    MulStep(Power(n), s[n], 0x1000_0000);
    PrepareSixteen(Power(n));
    LongIsLarge(b, |s|);
  }

  lemma LongIsLarge(b: seq<Word>, n: nat)
    requires Normal(b) && n >= 1
    ensures |b| > n ==> Power(n) <= Value(b)
  {
    if |b| > n {
      ValueTop(b);
      PowerMonotone(n, |b| - 1);
    }
  }

  lemma PrepareSixteen(p: nat)
    ensures 16 * Mul(p, 0x1000_0000) == BASE * p
  {
  }

  /** The estimate from the top words is never too large and at most one too small. */
  lemma Estimate(b: seq<Word>, s: seq<Word>)
    requires Prepared(s) && |b| == |s| && Value(b) < 10 * Value(s)
    ensures var q := Guess(b[|s| - 1], s[|s| - 1]);
            q < 10 && Mul(Value(s), q) <= Value(b) < Mul(Value(s), q) + 2 * Value(s)
  {
    hide Mul, Guess, Power, Value;
    var n := |s| - 1;
    var q := Guess(b[n], s[n]);
    ValueTop(s);
    ValueTop(b);
    ValueBound(s[..n]);
    ValueBound(b[..n]);
    EstimateLow(Value(s), Value(b), s[n], b[n], q, Power(n));
    TenOrMore(Value(s), q);
    EstimateHigh(Value(s), Value(b), s[n], b[n], q, Power(n));
  }

  lemma TenOrMore(v: nat, q: nat)
    ensures q >= 10 ==> Mul(v, q) >= 10 * v
  {
    if q >= 10 {
      MulMonotone(10, q, v);
    }
  }

  lemma EstimateLow(S: nat, b: nat, top: nat, bTop: nat, q: nat, p: nat)
    requires S < Mul(p, top) + p && Mul(p, bTop) <= b && Mul(top + 1, q) <= bTop
    ensures Mul(S, q) <= b
  {
    MulMonotone(S, p * top + p, q);
    assert (p * top + p) * q == p * ((top + 1) * q);
    MulMonotone((top + 1) * q, bTop, p);
  }

  lemma MulSucc(S: nat, q: nat)
    ensures Mul(S, q + 1) == Mul(S, q) + S
  {
  }

  lemma MulMono(x: nat, y: nat, p: nat)
    ensures x <= y ==> Mul(p, x) <= Mul(p, y) && Mul(x, p) <= Mul(y, p)
  {
    if x <= y {
      MulMonotone(x, y, p);
    }
  }

  lemma MulAssocSucc(p: nat, x: nat, y: nat)
    ensures Mul(p, Mul(x + 1, y)) == Mul(Mul(p, x), y) + Mul(p, y)
  {
    assert p * ((x + 1) * y) == (p * x) * y + p * y;
  }

  lemma EstimateHigh(S: nat, b: nat, top: nat, bTop: nat, q: nat, p: nat)
    requires Mul(p, top) <= S && b < Mul(p, bTop) + p
    requires bTop < Mul(top + 1, q) + top + 1
    ensures q + 1 <= top ==> b < Mul(S, q) + 2 * S
  {
    hide Mul;
    MulSucc(top + 1, q);
    MulSucc(p, bTop);
    MulMono(bTop + 1, Mul(top + 1, q + 1), p);
    MulAssocSucc(p, top, q + 1);
    MulMono(Mul(p, top), S, q + 1);
    MulMono(q + 1, top, p);
    MulSucc(S, q);
  }

  lemma QuotientIs(b: nat, S: nat, q: nat)
    requires Mul(S, q) <= b < Mul(S, q) + S
    ensures b / S == q && b % S == b - Mul(S, q)
  {
    DivUnique(b, S, q, b - S * q);
  }

  /** Reducing subtracts exactly, and leaves a normal form. */
  lemma ReduceExact(b: seq<Word>, s: seq<Word>, q: nat)
    requires |b| == |s| > 0 && q < BASE && Mul(Value(s), q) <= Value(b) && Normal(b)
    ensures var b1 := Reduce(b, s, q);
            && Value(b1) == Value(b) - Mul(Value(s), q) && Normal(b1) && |b1| <= |s|
            && (q > 0 && Value(b1) == 0 ==> |b1| == if |s| == 1 then 0 else 1)
  {
    hide Mul;
    SubMulExact(b, s, q);
    MulZero(Value(s));
    var d := SubMulWords(b, s, q, 0, 0).0;
    StripTopKeepsValue(d);
    if Value(d) == 0 {
      StripTopZero(d);
    }
  }

  lemma QuoremEqual(b: seq<Word>, s: seq<Word>)
    requires Prepared(s) && |b| == |s| && Value(b) < 10 * Value(s) && Value(s) > 0 && Normal(b)
    ensures var (q, r) := QuoremWords(b, s);
            && q == Value(b) / Value(s) && Value(r) == Value(b) % Value(s)
            && Normal(r) && |r| <= |s|
            && (Value(b) > 0 && Value(r) == 0 ==> |r| == if |s| == 1 then 0 else 1)
  {
    hide Mul, SubMulWords, Reduce, Guess, Power, Value, CmpWords;
    var q := Guess(b[|s| - 1], s[|s| - 1]);
    Estimate(b, s);
    ReduceExact(b, s, q);
    var b1 := Reduce(b, s, q);
    CmpAgrees(b1, s);
    MulSucc(Value(s), q);
    MulZero(Value(s));
    if CmpWords(b1, s) >= 0 {
      CmpLength(b1, s);
      MulOne(Value(s));
      ReduceExact(b1, s, 1);
      QuotientIs(Value(b), Value(s), q + 1);
    } else {
      QuotientIs(Value(b), Value(s), q);
    }
  }

  /** On a prepared divisor and a dividend below ten times it, `quorem` returns exactly the
      quotient and leaves exactly the remainder, in normal form. */
  lemma QuoremExact(b: seq<Word>, s: seq<Word>)
    requires Prepared(s) && Normal(b) && Value(b) < 10 * Value(s)
    ensures |b| <= |s| && Value(s) > 0
    ensures var (q, r) := QuoremWords(b, s);
            && q == Value(b) / Value(s) && Value(r) == Value(b) % Value(s)
            && Normal(r) && |r| <= |s|
            && (Value(b) > 0 && Value(r) == 0 ==> |r| == if |s| == 1 then 0 else 1)
  {
    hide Mul;
    PreparedRoom(s, b);
    ValueTop(s);
    if |b| < |s| {
      Longer(s, b);
      MulZero(Value(s));
      QuotientIs(Value(b), Value(s), 0);
    } else {
      QuoremEqual(b, s);
    }
  }
}

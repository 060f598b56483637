/** The two digit loops of `ph_dtoa`, on multi-precision numbers. */
module DigitLoops {
  import opened BigintSpec
  import opened BigintDivision
  import opened BigintShift
  import opened Bigints
  import opened BigintSubtraction
  import opened PowersOfFive
  import opened DigitSpec
  import opened DigitProofs

  ghost predicate Num(b: Bigint)
    reads b, b.x
  {
    b.Valid() && Normal(b.Words())
  }

  ghost predicate Apart(a: Bigint, b: Bigint)
    reads a, b
  {
    a != b && a.x != b.x
  }

  // ----- rounding the digit string

  /** The code at `roundoff`. */
  method RoundOffDigits(digits: seq<nat>) returns (out: Output)
    requires digits != []
    ensures out == RoundOff(digits)
  {
    var s := digits;
    while true
      invariant s != [] && RoundOff(s) == RoundOff(digits)
      decreases |s|
    {
      var last := s[|s| - 1];
      s := s[..|s| - 1];
      if last != 9 {
        return Output(s + [last + 1], false);
      }
      if s == [] {
        return Output([1], true);
      }
    }
  }

  /** Suppress trailing zeros. */
  method TrimDigits(digits: seq<nat>) returns (s: seq<nat>)
    ensures s == TrimZeros(digits)
  {
    s := digits;
    while s != [] && s[|s| - 1] == 0
      invariant TrimZeros(s) == TrimZeros(digits)
    {
      s := s[..|s| - 1];
    }
  }

  /** Compare twice a nonzero remainder with the divisor. */
  method CmpTwice(b: Bigint, S: Bigint) returns (c: int)
    requires Num(b) && Num(S) && b.Val() > 0 && S.Val() > 0
    ensures SameOrder(c, 2 * b.Val(), S.Val())
  {
    hide Value, LShiftWords, CmpWords, Mul, Pow2;
    HasWords(b.Words());
    HasWords(S.Words());
    var twice := LShift(b, 1);
    LShiftNormal(b.Words(), 1);
    LShiftValue(b.Words(), 1);
    Pow2Values();
    MulTwoRight(b.Val());
    HasWords(twice.Words());
    c := Cmp(twice, S);
    CmpAgrees(twice.Words(), S.Words());
  }

  lemma HasWords(x: seq<Word>)
    requires Value(x) > 0
    ensures x != []
  {
  }

  lemma MulTwoRight(x: nat)
    ensures Mul(x, 2) == 2 * x
  {
  }

  /** Round off the last digit: nearest, ties to even. */
  method RoundLastDigit(digits: seq<nat>, b: Bigint, S: Bigint) returns (out: Output)
    requires digits != [] && Num(b) && Num(S) && b.Val() > 0 && S.Val() > 0
    ensures out == RoundLast(digits, b.Val(), S.Val())
  {
    var j := CmpTwice(b, S);
    if j > 0 || (j == 0 && !Even(digits[|digits| - 1])) {
      out := RoundOffDigits(digits);
    } else {
      var s := TrimDigits(digits);
      out := Output(s, false);
    }
  }

  /** b * 10, in place where possible. */
  method TenTimes(b: Bigint) returns (r: Bigint)
    requires Num(b) && b.wds >= 1
    modifies b, b.x
    ensures Num(r) && r.wds >= 1 && r.Val() == 10 * old(b.Val())
    ensures r == b || fresh(r)
    ensures r.x == old(b.x) || fresh(r.x)
  {
    hide Value, MulAddWords, Mul, Pow2;
    MulAddNormal(b.Words(), 10, 0);
    MulTen(b.Val());
    r := MultAdd(b, 10, 0);
  }

  lemma MulTen(x: nat)
    ensures Mul(x, 10) == 10 * x
  {
  }

  // ----- fixed number of digits

  /** The loop for modes 2 and 3: the first `ilim` digits of b/S, rounded. */
  method FixedDigits(b0: Bigint, S: Bigint, ilim: nat) returns (out: Output)
    requires Num(b0) && Num(S) && Prepared(S.Words()) && Apart(b0, S)
    requires S.Val() <= b0.Val() < 10 * S.Val() && ilim >= 1
    modifies b0, b0.x
    ensures S.Val() == old(S.Val())
    ensures out == Fixed(old(b0.Val()), S.Val(), ilim, [])
    ensures Nearest(out, ilim, Scale(old(b0.Val()), ilim - 1), S.Val()) && Canonical(out)
  {
    hide Value, Mul, Pow2, Fixed, Units;
    ghost var target := Fixed(b0.Val(), S.Val(), ilim, []);
    ghost var W := S.Words();
    FixedStart(b0.Val(), S.Val(), ilim);
    HasWords(b0.Words());
    var b := b0;
    var s := [];
    while true
      invariant Num(b) && b.wds >= 1 && b.Val() > 0 && b.Val() < 10 * S.Val()
      invariant Num(S) && S.Words() == W && Apart(b, S) && |s| < ilim
      invariant (b == b0 || fresh(b)) && (b.x == old(b0.x) || fresh(b.x))
      invariant Fixed(b.Val(), S.Val(), ilim, s) == target
      decreases ilim - |s|
    {
      FixedStep(b.Val(), S.Val(), ilim, s);
      var dig := Quorem(b, S);
      s := s + [dig];
      var zero := IsZero(b);
      if zero {
        return Output(s, false);
      }
      HasWords(b.Words());
      if |s| >= ilim {
        break;
      }
      b := TenTimes(b);
    }
    out := RoundLastDigit(s, b, S);
  }

  /** The test `!b->x[0] && b->wds <= 1`. */
  method IsZero(b: Bigint) returns (zero: bool)
    requires Num(b)
    ensures zero <==> b.Val() == 0
  {
    if b.wds > 1 {
      ValueTop(b.Words());
      return false;
    }
    if b.wds == 1 {
      assert b.Words() == [b.x[0]];
      assert Value([b.x[0]]) == b.x[0] + BASE * Value([b.x[0]][1..]);
      return b.x[0] == 0;
    }
    return true;
  }

  lemma FixedStart(b: nat, S: nat, ilim: nat)
    requires 0 < S <= b < 10 * S && ilim >= 1
    ensures var out := Fixed(b, S, ilim, []);
            Nearest(out, ilim, Scale(b, ilim - 1), S) && Canonical(out)
  {
    FixedNearest(b, S, b, ilim, []);
  }

  lemma FixedStep(b: nat, S: nat, ilim: nat, s: seq<nat>)
    requires S > 0 && b < 10 * S && |s| < ilim
    ensures 0 <= b / S && 0 <= b % S < S
    ensures var t := s + [b / S];
            Fixed(b, S, ilim, s) == if b % S == 0 then Output(t, false)
                                    else if |t| >= ilim then RoundLast(t, b % S, S)
                                    else Fixed(10 * (b % S), S, ilim, t)
  {
    QuotientDigit(b, S);
  }

  // ----- shortest string

  /** One turn of the shortest-digit loop: extract a digit and apply the loop's tests. */
  method DecideDigit(b: Bigint, S: Bigint, mlo: Bigint, mhi: Bigint, closed: bool)
    returns (dig: nat, d: Decision)
    requires Num(b) && Num(S) && Num(mlo) && Num(mhi) && Prepared(S.Words())
    requires Apart(b, S) && Apart(b, mlo) && Apart(b, mhi)
    requires 0 < b.Val() < 10 * S.Val() && mlo.Val() > 0 && mhi.Val() > 0
    modifies b, b.x
    ensures Num(b) && b.k == old(b.k) && b.x == old(b.x) && S.Val() > 0
    ensures dig == old(b.Val()) / S.Val() && b.Val() == old(b.Val()) % S.Val()
    ensures d == Decide(dig, b.Val(), S.Val(), mlo.Val(), mhi.Val(), closed, S.wds == 1)
  {
    hide Value, CmpWords, Mul, Pow2;
    dig := Quorem(b, S);
    HasWords(S.Words());
    HasWords(mlo.Words());
    var j := Cmp(b, mlo);
    CmpAgrees(b.Words(), mlo.Words());
    CmpBare(b.Words(), S.Words());
    var j1 := CmpUpper(b, S, mhi);
    if j1 == 0 && closed {
      return dig, if dig == 9 || j > 0 then Up else Down;
    }
    if j < 0 || (j == 0 && closed) {
      var zero := IsZero(b);
      if zero {
        return dig, Down;
      }
      if j1 > 0 {
        var c := CmpTwice(b, S);
        if c > 0 || (c == 0 && !Even(dig)) {
          return dig, Up;
        }
      }
      return dig, Down;
    }
    if j1 > 0 {
      return dig, Up;
    }
    return dig, More;
  }

  /** Compare b with S - mhi, that is, the next digit up with the upper end of the interval. */
  method CmpUpper(b: Bigint, S: Bigint, mhi: Bigint) returns (j1: int)
    requires Num(b) && Num(S) && Num(mhi) && S.Val() > 0 && mhi.Val() > 0
    requires b.Val() == 0 ==> b.wds <= 1
    ensures j1 > 0 <==> b.Val() + mhi.Val() > S.Val()
    ensures j1 == 0 <==> b.Val() + mhi.Val() == S.Val() && b.wds > 0
  {
    hide Value, CmpWords, Pow2;
    HasWords(S.Words());
    HasWords(mhi.Words());
    var delta := Diff(S, mhi);
    j1 := 1;
    if !delta.sign {
      j1 := Cmp(b, delta);
      CmpAgrees(b.Words(), delta.Words());
      CmpBare(b.Words(), delta.Words());
      ZeroOneWord(delta.Words());
    }
  }

  /** A zero without words compares as smaller than anything with words. */
  lemma CmpBare(a: seq<Word>, b: seq<Word>)
    ensures a == [] && b != [] ==> CmpWords(a, b) < 0
    ensures a == [] ==> Value(a) == 0
  {
  }

  lemma ZeroOneWord(x: seq<Word>)
    requires Normal(x) && x != []
    ensures Value(x) == 0 ==> |x| == 1
  {
    ValueTop(x);
  }

  /** The numbers of the shortest-digit loop; mlo and mhi may be the same number. */
  ghost predicate Loop(b: Bigint, S: Bigint, mlo: Bigint, mhi: Bigint)
    reads b, b.x, S, S.x, mlo, mlo.x, mhi, mhi.x
  {
    && Num(b) && Num(S) && Num(mlo) && Num(mhi) && Prepared(S.Words())
    && Apart(b, S) && Apart(b, mlo) && Apart(b, mhi) && Apart(S, mlo) && Apart(S, mhi)
    && (mlo == mhi || mlo.x != mhi.x)
    && 0 < b.Val() < 10 * S.Val() && mlo.Val() > 0 && mhi.Val() > 0
  }

  lemma ShortestStep(b: nat, S: nat, lo: nat, hi: nat, closed: bool, bare: bool, ilim: int, s: seq<nat>)
    requires S > 0 && b < 10 * S && lo > 0
    ensures 0 <= b / S && 0 <= b % S < S
    ensures var dig, r := b / S, b % S;
            Shortest(b, S, lo, hi, closed, bare, ilim, s) ==
            var d := Decide(dig, r, S, lo, hi, closed, bare);
            if d == Down then Output(s + [dig], false)
            else if d == Up then RoundedUp(s, dig)
            else if |s| + 1 == ilim then RoundLast(s + [dig], r, S)
            else Shortest(10 * r, S, 10 * lo, 10 * hi, closed, bare, ilim, s + [dig])
  {
    QuotientDigit(b, S);
  }

  lemma MoreMeans(dig: nat, r: nat, S: nat, lo: nat, hi: nat, closed: bool, bare: bool)
    requires Decide(dig, r, S, lo, hi, closed, bare) == More
    ensures r >= lo
  {
  }

  /** mlo and mhi times ten, together if they are one number. */
  method TenTimesBoth(mlo: Bigint, mhi: Bigint) returns (lo: Bigint, hi: Bigint)
    requires Num(mlo) && Num(mhi) && mlo.wds >= 1 && mhi.wds >= 1 && (mlo == mhi || mlo.x != mhi.x)
    modifies mlo, mlo.x, mhi, mhi.x
    ensures Num(lo) && Num(hi) && lo.Val() == 10 * old(mlo.Val()) && hi.Val() == 10 * old(mhi.Val())
    ensures lo == hi || lo.x != hi.x
    ensures (lo == mlo || fresh(lo)) && (hi == mhi || fresh(hi))
    ensures (lo.x == old(mlo.x) || fresh(lo.x)) && (hi.x == old(mhi.x) || fresh(hi.x))
  {
    hide Value, Normal, Pow2;
    if mlo == mhi {
      hi := TenTimes(mhi);
      lo := hi;
    } else {
      lo := TenTimes(mlo);
      hi := TenTimes(mhi);
    }
  }

  /** `r` is `b`, updated in place, or a new number. */
  twostate predicate Replaces(new r: Bigint, b: Bigint)
    reads r
  {
    (r == b || fresh(r)) && (r.x == old(b.x) || fresh(r.x))
  }

  /** Stop, with this digit or the next one up. */
  method Stop(s: seq<nat>, dig: nat, d: Decision) returns (out: Output)
    ensures out == if d == Down then Output(s + [dig], false) else RoundedUp(s, dig)
  {
    if d == Down {
      return Output(s + [dig], false);
    }
    if dig == 9 {
      out := RoundOffDigits(s + [9]);
      return;
    }
    return Output(s + [dig + 1], false);
  }

  /** The end of a turn: remainder and interval, all times ten. */
  method Rescale(b: Bigint, S: Bigint, mlo: Bigint, mhi: Bigint) returns (b': Bigint, lo: Bigint, hi: Bigint)
    requires Loop(b, S, mlo, mhi) && b.Val() < S.Val()
    modifies b, b.x, mlo, mlo.x, mhi, mhi.x
    ensures Loop(b', S, lo, hi) && S.Words() == old(S.Words())
    ensures b'.Val() == 10 * old(b.Val()) && lo.Val() == 10 * old(mlo.Val()) && hi.Val() == 10 * old(mhi.Val())
    ensures Replaces(b', b) && Replaces(lo, mlo) && Replaces(hi, mhi)
  {
    hide Value, Pow2, Normal;
    HasWords(b.Words());
    HasWords(mlo.Words());
    HasWords(mhi.Words());
    b' := TenTimes(b);
    lo, hi := TenTimesBoth(mlo, mhi);
  }

  /** One turn of the loop: either the output is complete, or the same search goes on. */
  method Turn(b: Bigint, S: Bigint, mlo: Bigint, mhi: Bigint, closed: bool, ilim: int, s: seq<nat>)
    returns (done: bool, out: Output, b': Bigint, lo: Bigint, hi: Bigint, s': seq<nat>)
    requires Loop(b, S, mlo, mhi)
    modifies b, b.x, mlo, mlo.x, mhi, mhi.x
    ensures S.Val() > 0 && S.Words() == old(S.Words()) && S.wds == old(S.wds)
    ensures Replaces(b', b) && Replaces(lo, mlo) && Replaces(hi, mhi)
    ensures var all := Shortest(old(b.Val()), S.Val(), old(mlo.Val()), old(mhi.Val()), closed, S.wds == 1, ilim, s);
            if done then out == all
            else && Loop(b', S, lo, hi) && old(mlo.Val()) < lo.Val() && old(mlo.Val()) < S.Val()
                 && all == Shortest(b'.Val(), S.Val(), lo.Val(), hi.Val(), closed, S.wds == 1, ilim, s')
  {
    hide Value, Mul, Pow2, Shortest, Decide, Normal, RoundLast;
    b', lo, hi, out := b, mlo, mhi, Output([], false);
    ShortestStep(b.Val(), S.Val(), mlo.Val(), mhi.Val(), closed, S.wds == 1, ilim, s);
    var dig, d := DecideDigit(b, S, mlo, mhi, closed);
    s' := s + [dig];
    if d != More {
      out := Stop(s, dig, d);
      done := true;
      return;
    }
    MoreMeans(dig, b.Val(), S.Val(), mlo.Val(), mhi.Val(), closed, S.wds == 1);
    if |s'| == ilim {
      out := RoundLastDigit(s', b, S);
      done := true;
      return;
    }
    b', lo, hi := Rescale(b, S, mlo, mhi);
    done := false;
  }

  /** The loop for modes 0, 1, 4 and 5: the shortest string that rounds to b/S, limited to
      `ilim` digits if that is positive. */
  method ShortestDigits(b0: Bigint, S: Bigint, mlo0: Bigint, mhi0: Bigint, closed: bool, ilim: int)
    returns (out: Output)
    requires Loop(b0, S, mlo0, mhi0)
    requires S.Val() <= b0.Val() && mlo0.Val() <= mhi0.Val()
    modifies b0, b0.x, mlo0, mlo0.x, mhi0, mhi0.x
    ensures S.Val() == old(S.Val()) > 0
    ensures out == Shortest(old(b0.Val()), S.Val(), old(mlo0.Val()), old(mhi0.Val()), closed, S.wds == 1, ilim, [])
    ensures ShortestResult(out, Target(old(b0.Val()), S.Val(), old(mlo0.Val()), old(mhi0.Val()), closed), S.wds == 1, ilim, [])
  {
    hide ShortestResult, Value, Mul, Pow2, Shortest, Normal, Prepared;
    ghost var v := S.Val();
    ghost var target := Shortest(b0.Val(), v, mlo0.Val(), mhi0.Val(), closed, S.wds == 1, ilim, []);
    ShortestString(Target(b0.Val(), v, mlo0.Val(), mhi0.Val(), closed), S.wds == 1, ilim);
    var b, mlo, mhi, s := b0, mlo0, mhi0, [];
    while true
      invariant Loop(b, S, mlo, mhi) && S.Val() == v && S.wds == old(S.wds)
      invariant Replaces(b, b0) && Replaces(mlo, mlo0) && Replaces(mhi, mhi0)
      invariant Shortest(b.Val(), v, mlo.Val(), mhi.Val(), closed, S.wds == 1, ilim, s) == target
      decreases if v > mlo.Val() then v - mlo.Val() else 0
    {
      var done;
      done, out, b, mlo, mhi, s := Turn(b, S, mlo, mhi, closed, ilim, s);
      if done {
        return;
      }
    }
  }
}

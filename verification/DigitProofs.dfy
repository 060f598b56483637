/** What the digit loops compute. */
module DigitProofs {
  import opened Arith
  import opened DigitSpec

  // ----- digit strings

  lemma IntSnoc(s: seq<nat>, d: nat)
    ensures Int(s + [d]) == 10 * Int(s) + d
  {
    assert (s + [d])[..|s|] == s;
  }

  /** Rounding off adds one unit in the last place of the string it is given. */
  lemma {:induction false} RoundOffAddsOne(s: seq<nat>)
    requires s != [] && IsDigits(s)
    ensures var out := RoundOff(s);
            && 1 <= |out.digits| <= |s| && IsDigits(out.digits)
            && out.digits[|out.digits| - 1] != 0
            && ScaledInt(out, |s|) == Int(s) + 1
            && (out.carried ==> out.digits == [1])
  {
    hide Even, ScaledInt, Int;
    var n := |s| - 1;
    var out := RoundOff(s);
    assert s == s[..n] + [s[n]];
    IntSnoc(s[..n], s[n]);
    if s[n] != 9 {
      IntSnoc(s[..n], s[n] + 1);
      ScaledIntSame(out);
    } else if n == 0 {
      CarryOut(s[..0]);
    } else {
      RoundOffAddsOne(s[..n]);
      ScaledIntUp(out, n);
    }
  }

  lemma ScaledIntSame(out: Output)
    ensures ScaledInt(out, |out.digits|) == if out.carried then 10 * Int(out.digits) else Int(out.digits)
  {
  }

  lemma CarryOut(none: seq<nat>)
    requires none == []
    ensures Int(none) == 0 && ScaledInt(Output([1], true), 1) == 10
  {
    assert Int([1]) == 10 * Int([1][..0]) + 1;
  }

  lemma ScaledIntUp(out: Output, n: nat)
    requires |out.digits| <= n
    ensures ScaledInt(out, n + 1) == 10 * ScaledInt(out, n)
  {
  }

  lemma {:induction false} TrimKeepsValue(s: seq<nat>)
    requires s != [] && IsDigits(s) && s[0] != 0
    ensures var t := TrimZeros(s);
            && 1 <= |t| <= |s| && IsDigits(t) && t[|t| - 1] != 0
            && Scale(Int(t), |s| - |t|) == Int(s)
  {
    var n := |s| - 1;
    if s[n] == 0 {
      TrimKeepsValue(s[..n]);
    }
  }

  // ----- distances

  function Dist(x: nat, y: nat): nat {
    if x <= y then y - x else x - y
  }

  // ----- multiples of S

  lemma UnitsSucc(n: nat, S: nat)
    ensures Units(n + 1, S) == Units(n, S) + S
  {
  }

  lemma UnitsTen(n: nat, d: nat, S: nat)
    ensures Units(10 * n + d, S) == 10 * Units(n, S) + Units(d, S)
  {
    assert (10 * n + d) * S == 10 * (n * S) + d * S;
  }

  /** Multiples of S are at least S apart. */
  lemma UnitsApart(D: nat, M: nat, S: nat)
    ensures M < D ==> Units(M, S) + S <= Units(D, S)
    ensures M > D + 1 ==> Units(M, S) >= Units(D, S) + 2 * S
  {
    UnitsSucc(D, S);
    UnitsSucc(D + 1, S);
    if M < D {
      UnitsSucc(M, S);
      MulMonotone(M + 1, D, S);
    } else if M > D + 1 {
      MulMonotone(D + 2, M, S);
    }
  }

  /** Division with remainder in units of S. */
  lemma QuotientDigit(b: nat, S: nat)
    requires S > 0 && b < 10 * S
    ensures 0 <= b / S < 10 && 0 <= b % S < S && Splits(b, S, b / S, b % S)
    ensures S <= b ==> 1 <= b / S
    ensures b > 0 && b % S == 0 ==> b / S >= 1
  {
    var dig := b / S;
    assert b == dig * S + b % S;
    MulLe(10, dig, S);
  }

  /** b is dig units of size S and a remainder r. */
  ghost predicate Splits(b: nat, S: nat, dig: nat, r: nat) {
    b == Units(dig, S) + r && r < S
  }

  lemma SplitsDigit(b: nat, S: nat, dig: nat, r: nat)
    requires Splits(b, S, dig, r) && b < 10 * S
    ensures dig < 10 && b / S == dig && b % S == r && (S <= b ==> dig > 0)
    ensures Units(9, S) == 9 * S
  {
    MulLe(10, dig, S);
    DivUnique(b, S, dig, r);
  }

  // ----- rounding at a digit limit

  /** The output is the n-digit decimal nearest to v, the even one of two that tie. */
  ghost predicate Nearest(out: Output, n: nat, X: nat, S: nat) {
    1 <= |out.digits| <= n && NearestInt(ScaledInt(out, n), X, S)
  }

  ghost predicate NearestInt(N: nat, X: nat, S: nat) {
    2 * Dist(Units(N, S), X) <= S && (2 * Dist(Units(N, S), X) == S ==> Even(N))
  }

  lemma NearestNeighbour(D: nat, r: nat, X: nat, S: nat)
    requires Splits(X, S, D, r)
    ensures 2 * r < S || (2 * r == S && Even(D)) ==> NearestInt(D, X, S)
    ensures 2 * r > S || (2 * r == S && !Even(D)) ==> NearestInt(D + 1, X, S)
  {
    hide Units;
    UnitsSucc(D, S);
    SuccParity(D);
  }

  lemma SuccParity(n: nat)
    ensures Even(n + 1) == !Even(n)
  {
  }

  /** Proper digits, the first and the last of them not zero. */
  ghost predicate Canonical(out: Output) {
    && out.digits != [] && IsDigits(out.digits)
    && out.digits[0] != 0 && out.digits[|out.digits| - 1] != 0
    && (out.carried ==> out.digits == [1])
  }

  lemma {:induction false} RoundOffFirst(s: seq<nat>)
    requires s != [] && IsDigits(s) && s[0] != 0
    ensures RoundOff(s).digits != [] && RoundOff(s).digits[0] != 0
  {
    var n := |s| - 1;
    if s[n] == 9 && n > 0 {
      RoundOffFirst(s[..n]);
    }
  }

  lemma {:induction false} TrimFirst(s: seq<nat>)
    requires s != [] && s[0] != 0
    ensures TrimZeros(s) != [] && TrimZeros(s)[0] == s[0]
  {
    if s[|s| - 1] == 0 {
      TrimFirst(s[..|s| - 1]);
    }
  }

  lemma IntParity(s: seq<nat>)
    requires s != []
    ensures Even(Int(s)) == Even(s[|s| - 1])
  {
    hide Even;
    TenParity(Int(s[..|s| - 1]), s[|s| - 1]);
  }

  lemma TenParity(a: nat, d: nat)
    ensures Even(10 * a + d) == Even(d)
  {
    DivUnique(10 * a + d, 2, 5 * a + d / 2, d % 2);
  }

  /** Does the rounding of the last digit go up? */
  predicate GoesUp(s: seq<nat>, r: nat, S: nat)
    requires s != []
  {
    2 * r > S || (2 * r == S && !Even(s[|s| - 1]))
  }

  lemma RoundLastValue(s: seq<nat>, r: nat, S: nat)
    requires s != [] && IsDigits(s) && s[0] != 0
    ensures var out := RoundLast(s, r, S);
            && Canonical(out) && |out.digits| <= |s|
            && ScaledInt(out, |s|) == if GoesUp(s, r, S) then Int(s) + 1 else Int(s)
  {
    hide Even, Int, Scale, RoundOff, TrimZeros;
    if GoesUp(s, r, S) {
      RoundOffAddsOne(s);
      RoundOffFirst(s);
    } else {
      TrimKeepsValue(s);
      TrimFirst(s);
    }
  }

  lemma RoundLastNearest(s: seq<nat>, r: nat, X: nat, S: nat)
    requires s != [] && IsDigits(s) && s[0] != 0
    requires Splits(X, S, Int(s), r)
    ensures Nearest(RoundLast(s, r, S), |s|, X, S) && Canonical(RoundLast(s, r, S))
  {
    hide Units, Even, Int, RoundLast, ScaledInt;
    RoundLastValue(s, r, S);
    IntParity(s);
    NearestNeighbour(Int(s), r, X, S);
  }

  // ----- the fixed-digit loop

  /** `s` holds the first digits of b0/S and b is ten times what is left over. */
  ghost predicate Expanding(b0: nat, S: nat, b: nat, s: seq<nat>) {
    && IsDigits(s) && S > 0 && b < 10 * S
    && Scale(b0, |s|) == 10 * Units(Int(s), S) + b
    && (if s == [] then S <= b else s[0] != 0)
  }

  /** One division yields the next digit. */
  lemma NextDigit(b0: nat, S: nat, b: nat, s: seq<nat>, dig: nat, r: nat)
    requires Expanding(b0, S, b, s) && Splits(b, S, dig, r)
    ensures dig < 10 && IsDigits(s + [dig]) && (s + [dig])[0] != 0
    ensures Splits(Scale(b0, |s|), S, Int(s + [dig]), r)
    ensures Expanding(b0, S, 10 * r, s + [dig])
  {
    hide Units;
    SplitsDigit(b, S, dig, r);
    IntSnoc(s, dig);
    UnitsTen(Int(s), dig, S);
  }

  /** After rounding, the fixed-digit loop yields the nearest decimal of `ilim` digits. */
  lemma {:induction false} FixedNearest(b0: nat, S: nat, b: nat, ilim: nat, s: seq<nat>)
    requires Expanding(b0, S, b, s) && |s| < ilim
    requires b > 0
    ensures var out := Fixed(b, S, ilim, s);
            Nearest(out, ilim, Scale(b0, ilim - 1), S) && Canonical(out)
    decreases ilim - |s|
  {
    hide Units;
    QuotientDigit(b, S);
    var dig, r := b / S, b % S;
    NextDigit(b0, S, b, s, dig, r);
    var t := s + [dig];
    if r == 0 {
      ExactIsNearest(b0, S, t, ilim);
    } else if |t| >= ilim {
      RoundLastNearest(t, r, Scale(b0, ilim - 1), S);
    } else {
      FixedNearest(b0, S, 10 * r, ilim, t);
    }
  }

  /** A string that denotes v exactly still does when padded with zeros. */
  lemma ExactIsNearest(b0: nat, S: nat, t: seq<nat>, ilim: nat)
    requires S > 0 && 1 <= |t| <= ilim && Scale(b0, |t| - 1) == Units(Int(t), S)
    ensures Nearest(Output(t, false), ilim, Scale(b0, ilim - 1), S)
  {
    hide Units;
    var e := ilim - |t|;
    ScaleAdd(b0, |t| - 1, e);
    ScaleUnits(Int(t), S, e);
  }

  lemma {:induction false} ScaleAdd(x: nat, m: nat, n: nat)
    ensures Scale(x, m + n) == Scale(Scale(x, m), n)
  {
    if n > 0 {
      ScaleAdd(x, m, n - 1);
    }
  }

  lemma {:induction false} ScaleUnits(x: nat, S: nat, n: nat)
    ensures Scale(Units(x, S), n) == Units(Scale(x, n), S)
  {
    if n > 0 {
      ScaleUnits(x, S, n - 1);
      UnitsTen(Scale(x, n - 1), 0, S);
    }
  }

  // ----- the shortest-digit loop

  /** What is printed: v = b/S, with the distances lo/S below and hi/S above it that still
      round to it, the ends included when `closed`. */
  datatype Target = Target(b: nat, S: nat, lo: nat, hi: nat, closed: bool) {

    ghost predicate Valid() {
      0 < S <= b < 10 * S && 0 < lo <= hi
    }

    /** Does y, in units of 10^-m / S, round to v? */
    predicate Within(y: nat, m: nat) {
      var x, l, h := Scale(b, m), Scale(lo, m), Scale(hi, m);
      if closed then x <= y + l && y <= x + h else x < y + l && y < x + h
    }

    /** Does N / 10^m round to v? */
    predicate Rounds(N: nat, m: nat) {
      Within(Units(N, S), m)
    }

    /** No decimal with m fractional digits rounds to v. */
    ghost predicate NoneAt(m: nat) {
      forall N: nat :: !Rounds(N, m)
    }

    ghost predicate NoneBefore(n: nat) {
      forall m: nat :: m < n ==> NoneAt(m)
    }

    /** The distance of N / 10^m from v, in units of 10^-m / S. */
    function Off(N: nat, m: nat): nat {
      Dist(Units(N, S), Scale(b, m))
    }

    /** N / 10^m is at least as close to v as any other such decimal that rounds to v. */
    ghost predicate Closest(N: nat, m: nat) {
      forall M: nat :: Rounds(M, m) ==> Off(N, m) <= Off(M, m)
    }

    /** The one case in which the loop prefers a value that is further away: v starts with a 9,
        rounding up to 10 lands exactly on the upper end, and 9 was closer. */
    predicate NineEdge(bare: bool) {
      S > 0 && closed && b / S == 9 && b % S + hi == S && b % S <= lo && 2 * (b % S) < S && !(bare && b % S == 0)
    }
  }

  predicate DownOk(t: Target, r: nat, lo: nat) {
    r < lo || (r == lo && t.closed)
  }

  predicate UpOk(t: Target, r: nat, hi: nat) {
    r + hi > t.S || (r + hi == t.S && t.closed)
  }

  /** v lies between D and D+1 units; which of the two round to it? */
  lemma Neighbours(t: Target, D: nat, r: nat, m: nat)
    requires Splits(Scale(t.b, m), t.S, D, r) && Scale(t.lo, m) > 0 && Scale(t.hi, m) > 0
    ensures t.Rounds(D, m) <==> DownOk(t, r, Scale(t.lo, m))
    ensures t.Rounds(D + 1, m) <==> UpOk(t, r, Scale(t.hi, m))
  {
    hide Units;
    UnitsSucc(D, t.S);
  }

  /** If neither neighbour rounds to v, nothing at this scale does. */
  lemma NeighboursSuffice(t: Target, D: nat, r: nat, m: nat)
    requires Splits(Scale(t.b, m), t.S, D, r)
    requires !DownOk(t, r, Scale(t.lo, m)) && !UpOk(t, r, Scale(t.hi, m))
    ensures t.NoneAt(m)
  {
    hide Units;
    UnitsSucc(D, t.S);
    forall N: nat ensures !t.Rounds(N, m) {
      UnitsApart(D, N, t.S);
    }
  }

  lemma DownClosest(t: Target, D: nat, r: nat, m: nat)
    requires Splits(Scale(t.b, m), t.S, D, r) && (2 * r <= t.S || !t.Rounds(D + 1, m))
    ensures t.Closest(D, m)
  {
    hide Units;
    UnitsSucc(D, t.S);
    forall M: nat | t.Rounds(M, m) ensures t.Off(D, m) <= t.Off(M, m) {
      UnitsApart(D, M, t.S);
    }
  }

  lemma UpClosest(t: Target, D: nat, r: nat, m: nat)
    requires Splits(Scale(t.b, m), t.S, D, r)
    ensures (2 * r >= t.S || !t.Rounds(D, m)) <==> t.Closest(D + 1, m)
  {
    hide Units;
    UnitsSucc(D, t.S);
    if 2 * r >= t.S || !t.Rounds(D, m) {
      forall M: nat | t.Rounds(M, m) ensures t.Off(D + 1, m) <= t.Off(M, m) {
        UnitsApart(D, M, t.S);
      }
    } else {
      assert t.Off(D, m) < t.Off(D + 1, m);
    }
  }

  /** `s` holds the first digits of v, b is ten times what is left over, and no string
      as short as `s` rounds to v. */
  ghost predicate Searching(t: Target, b: nat, lo: nat, hi: nat, s: seq<nat>) {
    && t.Valid() && Expanding(t.b, t.S, b, s)
    && 0 < lo <= hi && lo == Scale(t.lo, |s|) && hi == Scale(t.hi, |s|)
    && t.NoneBefore(|s|)
    && (s != [] ==> b + hi < 10 * t.S || (b + hi == 10 * t.S && !t.closed))
  }

  /** The output rounds to v and no shorter string does. */
  ghost predicate IsShortest(out: Output, t: Target) {
    && Canonical(out)
    && t.Rounds(ScaledInt(out, |out.digits|), |out.digits| - 1)
    && t.NoneBefore(|out.digits| - 1)
  }

  ghost predicate IsClosest(out: Output, t: Target)
    requires out.digits != []
  {
    t.Closest(ScaledInt(out, |out.digits|), |out.digits| - 1)
  }

  /** A string ending in 0 that rounds to v would have a shorter one do so. */
  lemma LastNotZero(t: Target, b: nat, lo: nat, hi: nat, s: seq<nat>)
    requires Searching(t, b, lo, hi, s) && s != []
    ensures !t.Rounds(Int(s + [0]), |s|)
  {
    IntSnoc(s, 0);
    UnitsTen(Int(s), 0, t.S);
    assert Units(0, t.S) == 0;
    assert t.NoneAt(|s| - 1);
    assert !t.Rounds(Int(s), |s| - 1);
  }

  /** Stopping with digit d. */
  lemma StopWith(t: Target, b: nat, lo: nat, hi: nat, s: seq<nat>, d: nat)
    requires Searching(t, b, lo, hi, s)
    requires d < 10 && (s == [] ==> d > 0) && t.Rounds(Int(s + [d]), |s|)
    ensures IsShortest(Output(s + [d], false), t)
    ensures IsClosest(Output(s + [d], false), t) <==> t.Closest(Int(s + [d]), |s|)
  {
    hide Units;
    if s != [] && d == 0 {
      LastNotZero(t, b, lo, hi, s);
    }
  }

  /** Rounding a 9 up happens only on the first digit. */
  lemma NineOnlyFirst(t: Target, b: nat, lo: nat, hi: nat, s: seq<nat>, r: nat)
    requires Searching(t, b, lo, hi, s) && Splits(b, t.S, 9, r) && UpOk(t, r, hi)
    ensures s == []
  {
    hide Units;
    SplitsDigit(b, t.S, 9, r);
  }

  lemma StopWithCarry(t: Target)
    requires t.Valid() && t.Rounds(10, 0)
    ensures IsShortest(RoundOff([9]), t)
    ensures IsClosest(RoundOff([9]), t) <==> t.Closest(10, 0)
  {
    hide Units;
    assert RoundOff([9]) == Output([1], true);
    assert Int([1]) == 10 * Int([1][..0]) + 1;
  }

  /** The facts about the current digit that the loop's tests rely on. */
  lemma Digit(t: Target, b: nat, lo: nat, hi: nat, s: seq<nat>, dig: nat, r: nat) returns (D: nat)
    requires Searching(t, b, lo, hi, s) && Splits(b, t.S, dig, r)
    ensures dig < 10 && (s == [] ==> dig > 0)
    ensures D == Int(s + [dig]) && Splits(Scale(t.b, |s|), t.S, D, r)
    ensures t.Rounds(D, |s|) <==> DownOk(t, r, lo)
    ensures t.Rounds(D + 1, |s|) <==> UpOk(t, r, hi)
    ensures D + 1 == Int(s + [dig + 1])
  {
    hide Units;
    SplitsDigit(b, t.S, dig, r);
    NextDigit(t.b, t.S, b, s, dig, r);
    D := Int(s + [dig]);
    Neighbours(t, D, r, |s|);
    IntSnoc(s, dig);
    IntSnoc(s, dig + 1);
  }

  /** Stopping with the digit as it is. */
  lemma StopDown(t: Target, b: nat, lo: nat, hi: nat, s: seq<nat>, dig: nat, r: nat)
    requires Searching(t, b, lo, hi, s) && Splits(b, t.S, dig, r)
    requires DownOk(t, r, lo) && (2 * r <= t.S || !UpOk(t, r, hi))
    ensures IsShortest(Output(s + [dig], false), t) && IsClosest(Output(s + [dig], false), t)
  {
    hide Units;
    var D := Digit(t, b, lo, hi, s, dig, r);
    DownClosest(t, D, r, |s|);
    StopWith(t, b, lo, hi, s, dig);
  }

  /** Stopping with the digit rounded up. */
  lemma StopUp(t: Target, b: nat, lo: nat, hi: nat, s: seq<nat>, dig: nat, r: nat)
    requires Searching(t, b, lo, hi, s) && Splits(b, t.S, dig, r) && UpOk(t, r, hi)
    ensures IsShortest(RoundedUp(s, dig), t)
    ensures IsClosest(RoundedUp(s, dig), t) <==> 2 * r >= t.S || !DownOk(t, r, lo)
  {
    hide Units, Int, RoundOff;
    var D := Digit(t, b, lo, hi, s, dig, r);
    UpClosest(t, D, r, |s|);
    if dig == 9 {
      NineOnlyFirst(t, b, lo, hi, s, r);
      assert s + [9] == [9];
      IntNine();
      StopWithCarry(t);
    } else {
      StopWith(t, b, lo, hi, s, dig + 1);
    }
  }

  lemma IntNine()
    ensures Int([9]) == 9
  {
    assert Int([9]) == 10 * Int([9][..0]) + 9;
  }

  /** When neither neighbour rounds to v the search goes on with one more digit. */
  lemma KeepSearching(t: Target, b: nat, lo: nat, hi: nat, s: seq<nat>, dig: nat, r: nat)
    requires Searching(t, b, lo, hi, s) && Splits(b, t.S, dig, r) && !DownOk(t, r, lo) && !UpOk(t, r, hi)
    ensures Searching(t, 10 * r, 10 * lo, 10 * hi, s + [dig])
  {
    hide Units;
    NextDigit(t.b, t.S, b, s, dig, r);
    NeighboursSuffice(t, Int(s + [dig]), r, |s|);
    OneMoreExcluded(t, |s|);
  }

  lemma OneMoreExcluded(t: Target, n: nat)
    requires t.NoneBefore(n) && t.NoneAt(n)
    ensures t.NoneBefore(n + 1)
  {
  }

  /** At the first digit b is the target itself, so the edge case is visible in the target. */
  lemma NineStop(t: Target, b: nat, lo: nat, hi: nat, s: seq<nat>, dig: nat, r: nat, bare: bool)
    requires Searching(t, b, lo, hi, s) && Splits(b, t.S, dig, r)
    ensures s == [] && t.NineEdge(bare) <==>
            t.closed && dig == 9 && r + hi == t.S && DownOk(t, r, lo) && 2 * r < t.S && !(bare && r == 0)
  {
    hide Units;
    SplitsDigit(b, t.S, dig, r);
    if s == [] {
      assert b == t.b && lo == t.lo && hi == t.hi by {
        assert Units(Int([]), t.S) == 0 by { ZeroUnits(t.S); }
      }
    } else if dig == 9 && UpOk(t, r, hi) {
      NineOnlyFirst(t, b, lo, hi, s, r);
    }
  }

  lemma ZeroUnits(S: nat)
    ensures Units(0, S) == 0
  {
  }

  /** What the shortest-digit loop yields: the shortest string that rounds to v, and (but for
      one edge case) of those the closest; if a digit limit is given and no string within it
      rounds to v, the nearest string of that length. */
  ghost predicate ShortestResult(out: Output, t: Target, bare: bool, ilim: int, s: seq<nat>) {
    if |s| < ilim && t.NoneBefore(ilim)
    then Nearest(out, ilim, Scale(t.b, ilim - 1), t.S) && Canonical(out)
    else IsShortest(out, t) && (IsClosest(out, t) <==> !(s == [] && t.NineEdge(bare)))
  }

  /** Where the loop's tests stop it, some string of this length rounds to v. */
  lemma StopsRounded(t: Target, b: nat, lo: nat, hi: nat, s: seq<nat>, dig: nat, r: nat, bare: bool)
    requires Searching(t, b, lo, hi, s) && Splits(b, t.S, dig, r)
    requires Decide(dig, r, t.S, lo, hi, t.closed, bare) != More
    ensures !t.NoneAt(|s|)
  {
    hide Units;
    var D := Digit(t, b, lo, hi, s, dig, r);
    assert t.Rounds(D, |s|) || t.Rounds(D + 1, |s|);
  }

  /** Stopping where the loop's tests say so yields a right answer. */
  lemma StopCorrect(t: Target, b: nat, lo: nat, hi: nat, s: seq<nat>, dig: nat, r: nat, bare: bool)
    requires Searching(t, b, lo, hi, s) && Splits(b, t.S, dig, r)
    requires Decide(dig, r, t.S, lo, hi, t.closed, bare) != More
    ensures var out := if Decide(dig, r, t.S, lo, hi, t.closed, bare) == Down then Output(s + [dig], false) else RoundedUp(s, dig);
            IsShortest(out, t) && (IsClosest(out, t) <==> !(s == [] && t.NineEdge(bare)))
  {
    hide Units;
    NineStop(t, b, lo, hi, s, dig, r, bare);
    if Decide(dig, r, t.S, lo, hi, t.closed, bare) == Down {
      StopDown(t, b, lo, hi, s, dig, r);
    } else {
      StopUp(t, b, lo, hi, s, dig, r);
    }
  }

  lemma {:induction false} ShortestCorrect(t: Target, bare: bool, ilim: int, b: nat, lo: nat, hi: nat, s: seq<nat>)
    requires Searching(t, b, lo, hi, s)
    ensures ShortestResult(Shortest(b, t.S, lo, hi, t.closed, bare, ilim, s), t, bare, ilim, s)
    decreases if t.S > lo then t.S - lo else 0
  {
    hide Units, Nearest, Canonical, IsClosest, RoundLast, RoundOff;
    QuotientDigit(b, t.S);
    var dig, r := b / t.S, b % t.S;
    if Decide(dig, r, t.S, lo, hi, t.closed, bare) != More {
      StopCorrect(t, b, lo, hi, s, dig, r, bare);
      StopsRounded(t, b, lo, hi, s, dig, r, bare);
    } else if |s| + 1 == ilim {
      KeepSearching(t, b, lo, hi, s, dig, r);
      assert |s + [dig]| == ilim;
      LimitCorrect(t, b, lo, hi, s, dig, r);
    } else {
      KeepSearching(t, b, lo, hi, s, dig, r);
      ShortestCorrect(t, bare, ilim, 10 * r, 10 * lo, 10 * hi, s + [dig]);
      assert |s + [dig]| == |s| + 1;
    }
  }

  lemma LimitCorrect(t: Target, b: nat, lo: nat, hi: nat, s: seq<nat>, dig: nat, r: nat)
    requires Searching(t, b, lo, hi, s) && Splits(b, t.S, dig, r)
    ensures var out := RoundLast(s + [dig], r, t.S);
            Nearest(out, |s| + 1, Scale(t.b, |s|), t.S) && Canonical(out)
  {
    hide Units;
    NextDigit(t.b, t.S, b, s, dig, r);
    RoundLastNearest(s + [dig], r, Scale(t.b, |s|), t.S);
  }

  /** The whole shortest-digit loop.  Without a digit limit (modes 0 and 1) the output is
      always the shortest string that rounds to v. */
  lemma ShortestString(t: Target, bare: bool, ilim: int)
    requires t.Valid()
    ensures var out := Shortest(t.b, t.S, t.lo, t.hi, t.closed, bare, ilim, []);
            && ShortestResult(out, t, bare, ilim, [])
            && (ilim <= 0 ==> IsShortest(out, t) && (IsClosest(out, t) <==> !t.NineEdge(bare)))
  {
    ZeroUnits(t.S);
    ShortestCorrect(t, bare, ilim, t.b, t.lo, t.hi, []);
  }

  /** If the interval is narrower than a unit of the first digit, as it is for every normal
      double, the edge case is excluded: the string is the shortest and the closest. */
  lemma NarrowIsClosest(t: Target, bare: bool, ilim: int)
    requires t.Valid() && t.lo + t.hi < t.S && ilim <= 0
    ensures var out := Shortest(t.b, t.S, t.lo, t.hi, t.closed, bare, ilim, []);
            IsShortest(out, t) && IsClosest(out, t)
  {
    ShortestString(t, bare, ilim);
  }

  /** A target on the edge: 9.1 with an interval reaching up to 10 is printed as 1e+1, although
      9 is closer and no longer. */
  lemma NineEdgeExample()
    ensures var t := Target(91, 10, 9, 9, true);
            var out := Shortest(t.b, t.S, t.lo, t.hi, t.closed, false, 0, []);
            t.Valid() && t.NineEdge(false) && out == Output([1], true) && !IsClosest(out, t)
  {
    var t := Target(91, 10, 9, 9, true);
    ShortestString(t, false, 0);
    assert Decide(9, 1, 10, 9, 9, true, false) == Up;
    assert [] + [9] == [9];
    assert Shortest(91, 10, 9, 9, true, false, 0, []) == RoundOff([9]);
  }
}

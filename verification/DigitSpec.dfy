/** Decimal digit generation in exact arithmetic.

    The number printed is v = b/S with 1 <= v < 10.  A string of n digits with integer
    value N stands for N / 10^(n-1), so at scale n it is compared with v through
    N*S and X = b * 10^(n-1).  `Shortest` and `Fixed` are the two digit loops of
    `ph_dtoa` as recursive functions; the lemmas of `DigitProofs` say what they produce. */
module DigitSpec {
  import opened Arith

  /** x * 10^n */
  function Scale(x: nat, n: nat): nat {
    if n == 0 then x else 10 * Scale(x, n - 1)
  }

  /** n units of size S.  Most proofs hide the product and use the facts of `DigitProofs`. */
  function Units(n: nat, S: nat): nat {
    n * S
  }

  predicate Even(n: nat) {
    n % 2 == 0
  }

  /** The integer a string of digits denotes. */
  function Int(s: seq<nat>): nat {
    if s == [] then 0 else 10 * Int(s[..|s| - 1]) + s[|s| - 1]
  }

  /** The generated digits; `carried` when rounding carried out of the first digit, so that
      the decimal exponent k was incremented. */
  datatype Output = Output(digits: seq<nat>, carried: bool)

  ghost predicate IsDigits(s: seq<nat>) {
    forall i :: 0 <= i < |s| ==> s[i] < 10
  }

  /** The value of an output written with n digits, trailing zeros restored. */
  function ScaledInt(out: Output, n: nat): nat
    requires |out.digits| <= n
  {
    var N := Scale(Int(out.digits), n - |out.digits|);
    if out.carried then 10 * N else N
  }

  /** The code at `roundoff`: drop trailing nines and increment what precedes them. */
  function RoundOff(s: seq<nat>): Output
    requires s != []
  {
    var n := |s| - 1;
    if s[n] == 9 then
      if n == 0 then Output([1], true) else RoundOff(s[..n])
    else
      Output(s[..n] + [s[n] + 1], false)
  }

  /** Drop trailing zeros. */
  function TrimZeros(s: seq<nat>): seq<nat> {
    if s != [] && s[|s| - 1] == 0 then TrimZeros(s[..|s| - 1]) else s
  }

  /** Round to nearest, ties to even, on the remainder r of the last digit. */
  function RoundLast(s: seq<nat>, r: nat, S: nat): Output
    requires s != []
  {
    if 2 * r > S || (2 * r == S && !Even(s[|s| - 1])) then RoundOff(s) else Output(TrimZeros(s), false)
  }

  /** What the loop does with a digit: stop with it, stop with the next one, or go on. */
  datatype Decision = Down | Up | More

  /** The tests of the shortest-digit loop on the remainder r of digit `dig`.  `closed` says
      that the ends of the rounding interval round to v.  `bare` says that a zero remainder
      has no words, which `cmp` does not find equal to a zero S - mhi. */
  function Decide(dig: nat, r: nat, S: nat, mlo: nat, mhi: nat, closed: bool, bare: bool): Decision {
    if r + mhi == S && closed && !(bare && r == 0) then
      if dig == 9 || r > mlo then Up else Down
    else if r < mlo || (r == mlo && closed) then
      if r == 0 || r + mhi <= S then Down
      else if 2 * r > S || (2 * r == S && !Even(dig)) then Up
      else Down
    else if r + mhi > S then Up
    else More
  }

  function RoundedUp(s: seq<nat>, dig: nat): Output {
    if dig == 9 then RoundOff(s + [9]) else Output(s + [dig + 1], false)
  }

  /** The loop for modes that ask for the shortest string (`leftright`), entered with digits
      `s` already emitted.  A positive `ilim` limits the number of digits. */
  function Shortest(b: nat, S: nat, mlo: nat, mhi: nat, closed: bool, bare: bool, ilim: int, s: seq<nat>): Output
    requires S > 0 && mlo > 0
    decreases if S > mlo then S - mlo else 0
  {
    DivNonneg(b, S);
    var dig, r := b / S, b % S;
    match Decide(dig, r, S, mlo, mhi, closed, bare)
    case Down => Output(s + [dig], false)
    case Up => RoundedUp(s, dig)
    case More =>
      if |s| + 1 == ilim then RoundLast(s + [dig], r, S)
      else Shortest(10 * r, S, 10 * mlo, 10 * mhi, closed, bare, ilim, s + [dig])
  }

  /** The loop for modes that ask for a fixed number of digits. */
  function Fixed(b: nat, S: nat, ilim: nat, s: seq<nat>): Output
    requires S > 0 && |s| < ilim
    decreases ilim - |s|
  {
    DivNonneg(b, S);
    var dig, r := b / S, b % S;
    if r == 0 then Output(s + [dig], false)
    else if |s| + 1 >= ilim then RoundLast(s + [dig], r, S)
    else Fixed(10 * r, S, ilim, s + [dig])
  }
}

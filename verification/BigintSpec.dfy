/** Multi-precision integers as little-endian sequences of 32-bit words: the word-level
    recurrences of the arithmetic loops and what they compute. */
module BigintSpec {
  import opened Arith

  const BASE: nat := 0x1_0000_0000

  type Word = w: nat | w < BASE

  /** The number a sequence of words denotes. */
  function Value(x: seq<Word>): nat {
    if x == [] then 0 else x[0] + BASE * Value(x[1..])
  }

  /** BASE^n */
  function Power(n: nat): (p: nat)
    ensures p > 0
  {
    if n == 0 then 1 else BASE * Power(n - 1)
  }

  /** No leading zero words; zero may be written with no word or with one. */
  predicate Normal(x: seq<Word>) {
    |x| <= 1 || x[|x| - 1] != 0
  }

  /** Products, kept apart so that proofs can treat them as atoms. */
  function Mul(a: nat, b: nat): nat {
    a * b
  }

  lemma MulAdd(a: nat, b: nat, c: nat, m: nat)
    ensures Mul(a + BASE * b, m) + c == (Mul(a, m) + c) + BASE * Mul(b, m)
  {
    assert (a + BASE * b) * m == a * m + BASE * (b * m);
  }

  lemma MulBound(a: nat, b: nat, p: nat, q: nat)
    requires a < p && b < q
    ensures Mul(a, b) <= Mul(p - 1, q - 1)
  {
    MulMonotone(a, p - 1, b);
    MulMonotone(b, q - 1, p - 1);
  }

  // ----- values

  lemma {:induction false} ValueConcat(x: seq<Word>, y: seq<Word>)
    ensures Value(x + y) == Value(x) + Mul(Power(|x|), Value(y))
  {
    if x == [] {
      assert [] + y == y;
    } else {
      assert (x + y)[1..] == x[1..] + y;
      ValueConcat(x[1..], y);
      var p, v := Power(|x| - 1), Value(y);
      assert BASE * p * v == BASE * (p * v);
    }
  }

  lemma {:induction false} ValueBound(x: seq<Word>)
    ensures Value(x) < Power(|x|)
  {
    if x != [] {
      ValueBound(x[1..]);
    }
  }

  /** A nonzero top word bounds the value from below. */
  lemma {:induction false} ValueTop(x: seq<Word>)
    requires x != []
    ensures Value(x) == Value(x[..|x| - 1]) + Mul(Power(|x| - 1), x[|x| - 1])
    ensures x[|x| - 1] != 0 ==> Power(|x| - 1) <= Value(x)
  {
    var n := |x| - 1;
    assert x == x[..n] + [x[n]];
    ValueConcat(x[..n], [x[n]]);
    assert Value([x[n]]) == x[n];
    if x[n] != 0 {
      MulMonotone(1, x[n], Power(n));
    }
  }

  lemma {:induction false} DropTopZero(x: seq<Word>)
    requires x != [] && x[|x| - 1] == 0
    ensures Value(x[..|x| - 1]) == Value(x)
  {
    ValueTop(x);
  }

  /** Strip leading zero words, but never below one word. */
  function Strip(x: seq<Word>): seq<Word> {
    if |x| > 1 && x[|x| - 1] == 0 then Strip(x[..|x| - 1]) else x
  }

  lemma {:induction false} StripKeepsValue(x: seq<Word>)
    ensures Value(Strip(x)) == Value(x) && Normal(Strip(x)) && |Strip(x)| <= |x|
  {
    if |x| > 1 && x[|x| - 1] == 0 {
      DropTopZero(x);
      StripKeepsValue(x[..|x| - 1]);
    }
  }

  // ----- multadd and lshift

  /** The carry loop of `multadd`: the words of x*m + c, with the last carry as top word. */
  function MulAddWords(x: seq<Word>, m: nat, c: Word): seq<Word>
    requires m < BASE
  {
    if x == [] then [c]
    else
      var y := Mul(x[0], m) + c;
      CarryFits(x[0], m, c);
      [y % BASE] + MulAddWords(x[1..], m, y / BASE)
  }

  lemma CarryFits(w: Word, m: nat, c: Word)
    requires m < BASE
    ensures Mul(w, m) + c < BASE * BASE
    ensures 0 <= (Mul(w, m) + c) / BASE < BASE
  {
    MulBound(w, m, BASE, BASE);
  }

  lemma {:induction false} MulAddWordsValue(x: seq<Word>, m: nat, c: Word)
    requires m < BASE
    ensures Value(MulAddWords(x, m, c)) == Mul(Value(x), m) + c
    ensures |MulAddWords(x, m, c)| == |x| + 1
  {
    hide Mul;
    if x == [] {
      assert Value([c]) == c;
      assert Mul(0, m) == 0 by { MulZero(m); }
    } else {
      var y := Mul(x[0], m) + c;
      CarryFits(x[0], m, c);
      var rest := MulAddWords(x[1..], m, y / BASE);
      MulAddWordsValue(x[1..], m, y / BASE);
      assert ([y % BASE] + rest)[1..] == rest;
      MulAdd(x[0], Value(x[1..]), c, m);
    }
  }

  lemma MulZero(m: nat)
    ensures Mul(0, m) == 0 && Mul(m, 0) == 0
  {
  }

  // ----- mult

  /** One row of the schoolbook product: the words of acc + x*y + c. */
  function RowWords(x: seq<Word>, y: Word, acc: seq<Word>, c: Word): seq<Word>
    requires |x| == |acc|
  {
    if x == [] then [c]
    else
      var z := Mul(x[0], y) + acc[0] + c;
      RowFits(x[0], y, acc[0], c);
      [z % BASE] + RowWords(x[1..], y, acc[1..], z / BASE)
  }

  lemma RowFits(w: Word, y: Word, a: Word, c: Word)
    ensures Mul(w, y) + a + c < BASE * BASE
    ensures 0 <= (Mul(w, y) + a + c) / BASE < BASE
  {
    MulBound(w, y, BASE, BASE);
  }

  lemma {:induction false} RowWordsValue(x: seq<Word>, y: Word, acc: seq<Word>, c: Word)
    requires |x| == |acc|
    ensures Value(RowWords(x, y, acc, c)) == Value(acc) + Mul(Value(x), y) + c
    ensures |RowWords(x, y, acc, c)| == |x| + 1
  {
    hide Mul;
    if x == [] {
      assert Value([c]) == c;
      assert Mul(0, y) == 0 by { MulZero(y); }
    } else {
      var z := Mul(x[0], y) + acc[0] + c;
      RowFits(x[0], y, acc[0], c);
      var rest := RowWords(x[1..], y, acc[1..], z / BASE);
      RowWordsValue(x[1..], y, acc[1..], z / BASE);
      assert ([z % BASE] + rest)[1..] == rest;
      MulAdd(x[0], Value(x[1..]), acc[0] + c, y);
    }
  }

  /** The outer loop of `mult`: `c` holds |a| accumulated words followed by zeros. */
  function MultWords(a: seq<Word>, b: seq<Word>, c: seq<Word>): seq<Word>
    requires |c| == |a| + |b|
    decreases |b|
  {
    if b == [] then c
    else
      RowWordsValue(a, b[0], c[..|a|], 0);
      var c' := if b[0] == 0 then c else RowWords(a, b[0], c[..|a|], 0) + c[|a| + 1..];
      [c'[0]] + MultWords(a, b[1..], c'[1..])
  }

  ghost predicate Zeros(x: seq<Word>) {
    forall i :: 0 <= i < |x| ==> x[i] == 0
  }

  lemma {:induction false} ZerosValue(x: seq<Word>, z: seq<Word>)
    requires Zeros(z)
    ensures Value(x + z) == Value(x)
  {
    if z == [] {
      assert x + z == x;
    } else {
      var y := x + z;
      assert y[..|y| - 1] == x + z[..|z| - 1];
      DropTopZero(y);
      ZerosValue(x, z[..|z| - 1]);
    }
  }

  lemma {:induction false} MultWordsValue(a: seq<Word>, b: seq<Word>, c: seq<Word>)
    requires |c| == |a| + |b| && Zeros(c[|a|..])
    ensures Value(MultWords(a, b, c)) == Value(c) + Mul(Value(a), Value(b))
    ensures |MultWords(a, b, c)| == |c|
    decreases |b|
  {
    hide Mul;
    if b == [] {
      assert Mul(Value(a), 0) == 0 by { MulZero(Value(a)); }
    } else {
      var c' := RowStep(a, b[0], c);
      MultWordsValue(a, b[1..], c'[1..]);
      var rest := MultWords(a, b[1..], c'[1..]);
      assert ([c'[0]] + rest)[1..] == rest;
      MulSplit(Value(a), b[0], Value(b[1..]));
    }
  }

  lemma MulSplit(v: nat, b0: nat, b: nat)
    ensures Mul(v, b0 + BASE * b) == Mul(v, b0) + BASE * Mul(v, b)
  {
    assert v * (b0 + BASE * b) == v * b0 + BASE * (v * b);
  }

  /** One pass of the outer loop adds a*y to the accumulator, and it still ends in zeros. */
  lemma RowStep(a: seq<Word>, y: Word, c: seq<Word>) returns (c': seq<Word>)
    requires |c| > |a| && Zeros(c[|a|..])
    ensures |c'| == |c|
    ensures c' == if y == 0 then c else RowWords(a, y, c[..|a|], 0) + c[|a| + 1..]
    ensures Value(c') == Value(c) + Mul(Value(a), y)
    ensures Zeros(c'[1..][|a|..])
  {
    hide Mul;
    MulZero(Value(a));
    RowWordsValue(a, y, c[..|a|], 0);
    var row := RowWords(a, y, c[..|a|], 0);
    var z := c[|a| + 1..];
    c' := if y == 0 then c else row + z;
    assert c == c[..|a|] + c[|a|..];
    ZerosValue(c[..|a|], c[|a|..]);
    assert Zeros(z) by { assert forall i :: 0 <= i < |z| ==> z[i] == c[|a|..][i + 1]; }
    ZerosValue(row, z);
    assert c'[1..][|a|..] == z;
  }
}

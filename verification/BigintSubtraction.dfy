/** The borrow loops: `diff` and `quorem` on word arrays. */
module BigintSubtraction {
  import opened BigintSpec
  import opened BigintDivision
  import opened BigintShift
  import opened Bigints

  // ----- diff

  lemma DiffWordsStep(A: seq<Word>, B: seq<Word>, borrow: nat, done: seq<Word>)
    requires A != [] && |B| <= |A| && borrow <= 1
    ensures var (w, br) := SubWord(A[0], if B == [] then 0 else B[0], borrow);
            var B' := if B == [] then [] else B[1..];
            && br <= 1
            && done + DiffWords(A, B, borrow).0 == (done + [w]) + DiffWords(A[1..], B', br).0
            && DiffWords(A, B, borrow).1 == DiffWords(A[1..], B', br).1
  {
  }

  /** The two loops of `diff`: first over the words both numbers have, then over the rest. */
  method SubtractInto(a: array<Word>, wa: nat, b: array<Word>, wb: nat, c: array<Word>)
    requires wb <= wa <= a.Length && wb <= b.Length && wa <= c.Length && c != a && c != b
    modifies c
    ensures c[..wa] == DiffWords(a[..wa], b[..wb], 0).0
  {
    hide DiffWords, SubWord;
    ghost var A, B := a[..wa], b[..wb];
    var borrow := 0;
    var i := 0;
    assert A[0..] == A && B[0..] == B;
    while i < wb
      invariant 0 <= i <= wb && borrow <= 1 && a[..wa] == A && b[..wb] == B
      invariant c[..i] + DiffWords(A[i..], B[i..], borrow).0 == DiffWords(A, B, 0).0
    {
      ghost var done := c[..i];
      assert A[i..][0] == a[i] && A[i..][1..] == A[i + 1..] && B[i..][0] == b[i] && B[i..][1..] == B[i + 1..];
      DiffWordsStep(A[i..], B[i..], borrow, done);
      var (w, br) := SubWord(a[i], b[i], borrow);
      c[i], borrow := w, br;
      assert c[..i + 1] == done + [w];
      i := i + 1;
    }
    assert B[wb..] == [];
    while i < wa
      invariant wb <= i <= wa && borrow <= 1 && a[..wa] == A && b[..wb] == B
      invariant c[..i] + DiffWords(A[i..], [], borrow).0 == DiffWords(A, B, 0).0
    {
      ghost var done := c[..i];
      assert A[i..][0] == a[i] && A[i..][1..] == A[i + 1..];
      DiffWordsStep(A[i..], [], borrow, done);
      var (w, br) := SubWord(a[i], 0, borrow);
      c[i], borrow := w, br;
      assert c[..i + 1] == done + [w];
      i := i + 1;
    }
    assert A[wa..] == [];
    DiffWordsNone(borrow);
  }

  lemma DiffWordsNone(borrow: nat)
    requires borrow <= 1
    ensures DiffWords([], [], borrow) == ([], borrow)
  {
  }

  ghost function AbsDiff(x: nat, y: nat): nat {
    if x >= y then x - y else y - x
  }

  /** `diff`: a new number, the absolute difference, with the sign of a0 - b0. */
  method Diff(a0: Bigint, b0: Bigint) returns (c: Bigint)
    requires a0.Valid() && b0.Valid() && a0.wds >= 1 && b0.wds >= 1
    requires Normal(a0.Words()) && Normal(b0.Words())
    ensures fresh(c) && fresh(c.x) && c.Valid() && Normal(c.Words()) && c.wds >= 1
    ensures c.Val() == AbsDiff(a0.Val(), b0.Val())
    ensures c.sign <==> a0.Val() < b0.Val()
  {
    hide DiffWords, StripAll, Value, CmpWords, Pow2;
    var i := Cmp(a0, b0);
    CmpAgrees(a0.Words(), b0.Words());
    NotMixed(a0.Words(), b0.Words());
    if i == 0 {
      Pow2Values();
      c := new Bigint(0);
      c.x[0] := 0;
      c.wds := 1;
      assert c.Words() == [0];
      ZeroValue();
      return;
    }
    var a, b := a0, b0;
    if i < 0 {
      a, b := b0, a0;
    }
    c := new Bigint(a.k);
    c.sign := i < 0;
    assert a.Val() > b.Val();
    ShorterOrEqual(a.Words(), b.Words());
    SubtractInto(a.x, a.wds, b.x, b.wds, c.x);
    DiffExact(a.Words(), b.Words());
    StripAllKeepsValue(c.x[..a.wds]);
    var wa := CountWords(c.x, a.wds);
    c.wds := wa;
  }

  lemma NotMixed(a: seq<Word>, b: seq<Word>)
    requires Normal(a) && Normal(b) && a != [] && b != []
    ensures !MixedZeros(a, b)
  {
    if |a| > 1 { ValueTop(a); }
    if |b| > 1 { ValueTop(b); }
  }

  lemma ZeroValue()
    ensures Value([0]) == 0
  {
    assert Value([0]) == 0 + BASE * Value([0][1..]);
  }

  lemma ShorterOrEqual(a: seq<Word>, b: seq<Word>)
    requires Normal(b) && Value(a) > Value(b)
    ensures |b| <= |a|
  {
    if |b| > |a| {
      Longer(b, a);
    }
  }

  // ----- quorem

  lemma SubMulWordsStep(B: seq<Word>, S: seq<Word>, q: nat, carry: Word, borrow: nat, done: seq<Word>)
    requires B != [] && |B| == |S| && q < BASE && borrow <= 1
    ensures var ys := Mul(S[0], q) + carry;
            && 0 <= ys / BASE < BASE
            && var (w, br) := SubWord(B[0], ys % BASE, borrow);
               && br <= 1
               && done + SubMulWords(B, S, q, carry, borrow).0
                  == (done + [w]) + SubMulWords(B[1..], S[1..], q, ys / BASE, br).0
  {
    CarryFits(S[0], q, carry);
  }

  /** Either loop of `quorem`: subtract q times the divisor in place. */
  method SubtractMultiple(b: array<Word>, s: array<Word>, n: nat, q: nat)
    requires b != s && n <= b.Length && n <= s.Length && q < BASE
    modifies b
    ensures b[..n] == SubMulWords(old(b[..n]), s[..n], q, 0, 0).0
  {
    hide SubMulWords, SubWord, Mul;
    ghost var B, S := b[..n], s[..n];
    var carry: Word, borrow := 0, 0;
    var i := 0;
    assert B[0..] == B && S[0..] == S;
    while i < n
      invariant 0 <= i <= n && borrow <= 1 && s[..n] == S
      invariant b[i..n] == B[i..]
      invariant b[..i] + SubMulWords(B[i..], S[i..], q, carry, borrow).0 == SubMulWords(B, S, q, 0, 0).0
    {
      ghost var done, rest := b[..i], b[i..n];
      assert B[i..][0] == rest[0] == b[i] && B[i..][1..] == B[i + 1..] && S[i..][0] == s[i] && S[i..][1..] == S[i + 1..];
      SubMulWordsStep(B[i..], S[i..], q, carry, borrow, done);
      var ys := Mul(s[i], q) + carry;
      var (w, br) := SubWord(b[i], ys % BASE, borrow);
      carry, borrow := ys / BASE, br;
      b[i] := w;
      assert b[..i + 1] == done + [w];
      assert b[i + 1..n] == rest[1..];
      i := i + 1;
    }
    assert B[n..] == [] && S[n..] == [];
    SubMulWordsNone(q, carry, borrow);
  }

  lemma SubMulWordsNone(q: nat, carry: Word, borrow: nat)
    requires q < BASE && borrow <= 1
    ensures SubMulWords([], [], q, carry, borrow) == ([], carry, borrow)
  {
  }

  /** Drop leading zero words after a subtraction that cleared the top word. */
  method StripTopWords(x: array<Word>, n: nat) returns (m: nat)
    requires 0 < n <= x.Length
    ensures m <= n && x[..m] == StripTop(x[..n])
  {
    m := n;
    if x[n - 1] == 0 {
      m := n - 1;
      assert x[..n][..n - 1] == x[..m];
      while m > 1 && x[m - 1] == 0
        invariant m <= n - 1 && Strip(x[..m]) == Strip(x[..n - 1])
      {
        assert x[..m][..m - 1] == x[..m - 1];
        m := m - 1;
      }
    }
  }

  /** One reduction step of `quorem` on b, which has as many words as S. */
  method ReduceBy(b: Bigint, S: Bigint, q: nat)
    requires b.Valid() && S.Valid() && b != S && b.x != S.x
    requires b.wds == S.wds > 0 && 0 < q < BASE
    modifies b, b.x
    ensures b.k == old(b.k) && b.x == old(b.x) && b.Valid()
    ensures b.Words() == Reduce(old(b.Words()), S.Words(), q)
    ensures S.Words() == old(S.Words())
  {
    hide SubMulWords, Mul, Pow2;
    SubMulWordsValue(b.Words(), S.Words(), q, 0, 0);
    SubtractMultiple(b.x, S.x, b.wds, q);
    var m := StripTopWords(b.x, b.wds);
    b.wds := m;
  }

  /** `quorem`: replace b by b mod S and return b / S, for a prepared divisor. */
  method Quorem(b: Bigint, S: Bigint) returns (q: nat)
    requires b.Valid() && S.Valid() && b != S && b.x != S.x
    requires Prepared(S.Words()) && Normal(b.Words()) && b.Val() < 10 * S.Val()
    modifies b, b.x
    ensures b.k == old(b.k) && b.x == old(b.x) && b.Valid() && Normal(b.Words())
    ensures S.Val() > 0 && q == old(b.Val()) / S.Val() && b.Val() == old(b.Val()) % S.Val()
    ensures old(b.Val()) > 0 && b.Val() == 0 ==> b.wds == if S.wds == 1 then 0 else 1
    ensures S.Words() == old(S.Words())
  {
    hide Reduce, SubMulWords, CmpWords, Mul, Pow2, Value;
    ghost var B, W := b.Words(), S.Words();
    QuoremExact(B, W);
    if b.wds < S.wds {
      return 0;
    }
    var n := S.wds - 1;
    q := Guess(b.x[n], S.x[n]);
    ReduceNone(B, W);
    if q != 0 {
      ReduceBy(b, S, q);
    }
    var c := Cmp(b, S);
    if c >= 0 {
      CmpLength(b.Words(), S.Words());
      q := q + 1;
      ReduceBy(b, S, 1);
    }
  }

  lemma ReduceNone(b: seq<Word>, s: seq<Word>)
    requires |b| == |s| > 0
    ensures Reduce(b, s, 0) == b
  {
  }
}

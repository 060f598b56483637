/** `Bigint` objects and the loops over their word arrays, each proved to compute the words
    of `BigintSpec`, `BigintDivision` and `BigintShift` within the 2^k words allocated. */
module Bigints {
  import opened Arith
  import opened BigintSpec
  import opened BigintDivision
  import opened BigintShift

  class Bigint {
    var k: nat
    var x: array<Word>
    var wds: nat
    var sign: bool

    ghost predicate Valid()
      reads this
    {
      x.Length == Pow2(k) && wds <= x.Length
    }

    ghost function Words(): seq<Word>
      requires Valid()
      reads this, x
    {
      x[..wds]
    }

    ghost function Val(): nat
      requires Valid()
      reads this, x
    {
      Value(Words())
    }

    /** `Balloc` */
    constructor (k0: nat)
      ensures Valid() && k == k0 && wds == 0 && !sign && fresh(x)
    {
      k := k0;
      x := new Word[Pow2(k0)];
      wds := 0;
      sign := false;
    }
  }

  /** `multadd`: multiply in place by m and add a, growing the number if a carry is left. */
  method MultAdd(b: Bigint, m: nat, a: Word) returns (r: Bigint)
    requires b.Valid() && b.wds >= 1 && m < 0x8000_0000
    modifies b, b.x
    ensures r.Valid() && r.Words() == DropCarry(MulAddWords(old(b.Words()), m, a))
    ensures r == b || fresh(r)
    ensures r.x == old(b.x) || fresh(r.x)
  {
    hide MulAddWords, Mul, Pow2;
    ghost var w := b.Words();
    MulAddWordsValue(w, m, a);
    var carry := MultiplyWords(b.x, b.wds, m, a);
    r := b;
    if carry != 0 {
      if b.wds >= b.x.Length {
        Pow2Step(b.k);
        r := new Bigint(b.k + 1);
        CopyWords(b, r);
      }
      ghost var done := r.Words();
      r.x[r.wds] := carry;
      r.wds := r.wds + 1;
      assert r.Words() == done + [carry];
    }
  }

  lemma Pow2Step(k: nat)
    ensures Pow2(k) < Pow2(k + 1)
  {
  }

  lemma MulAddWordsStep(x: seq<Word>, m: nat, c: Word, done: seq<Word>)
    requires x != [] && m < BASE
    ensures 0 <= (Mul(x[0], m) + c) / BASE < BASE
    ensures var y := Mul(x[0], m) + c;
            done + MulAddWords(x, m, c) == (done + [y % BASE]) + MulAddWords(x[1..], m, y / BASE)
  {
    CarryFits(x[0], m, c);
  }

  lemma MulAddWordsNone(m: nat, c: Word)
    requires m < BASE
    ensures MulAddWords([], m, c) == [c]
  {
  }

  /** The carry loop of `multadd`. */
  method MultiplyWords(x: array<Word>, wds: nat, m: nat, a: Word) returns (carry: Word)
    requires wds <= x.Length && m < BASE
    modifies x
    ensures x[..wds] + [carry] == MulAddWords(old(x[..wds]), m, a)
  {
    hide MulAddWords, Mul;
    ghost var w := x[..wds];
    carry := a;
    var i := 0;
    assert w[0..] == w;
    while i < wds
      invariant 0 <= i <= wds
      invariant x[i..wds] == w[i..]
      invariant x[..i] + MulAddWords(w[i..], m, carry) == MulAddWords(w, m, a)
    {
      ghost var done, rest := x[..i], x[i..wds];
      assert x[i] == rest[0] == w[i..][0] && w[i..][1..] == w[i + 1..];
      MulAddWordsStep(w[i..], m, carry, done);
      var y := Mul(x[i], m) + carry;
      carry := y / BASE;
      x[i] := y % BASE;
      assert x[..i + 1] == done + [y % BASE];
      assert x[i + 1..wds] == rest[1..];
      i := i + 1;
    }
    assert w[wds..] == [];
    MulAddWordsNone(m, carry);
  }

  /** `Bcopy`: sign and words, into a number with room for them. */
  method CopyWords(b: Bigint, r: Bigint)
    requires b.Valid() && r.Valid() && b.wds <= r.x.Length && r != b && r.x != b.x
    modifies r, r.x
    ensures r.k == old(r.k) && r.x == old(r.x) && r.Valid()
    ensures r.wds == b.wds && r.Words() == b.Words() && r.sign == b.sign
  {
    var x := r.x;
    var i := 0;
    while i < b.wds
      invariant 0 <= i <= b.wds && x[..i] == b.x[..i]
      modifies x
    {
      x[i] := b.x[i];
      i := i + 1;
    }
    r.wds := b.wds;
    r.sign := b.sign;
  }

  /** `cmp`: reads from the top word down.  Two numbers without words would make it read
      before the first word. */
  method Cmp(a: Bigint, b: Bigint) returns (c: int)
    requires a.Valid() && b.Valid() && (a.wds > 0 || b.wds > 0)
    ensures c == CmpWords(a.Words(), b.Words())
  {
    if a.wds != b.wds {
      return (a.wds as int) - (b.wds as int);
    }
    var i := a.wds;
    while true
      invariant 0 < i <= a.wds
      invariant CmpWords(a.x[..i], b.x[..i]) == CmpWords(a.Words(), b.Words())
      decreases i
    {
      i := i - 1;
      assert a.x[..i + 1][..i] == a.x[..i] && b.x[..i + 1][..i] == b.x[..i];
      if a.x[i] != b.x[i] {
        return if a.x[i] < b.x[i] then -1 else 1;
      }
      if i <= 0 {
        break;
      }
    }
    return 0;
  }

  /** `lshift`: a new number, b shifted left by `count` bits. */
  method LShift(b: Bigint, count: nat) returns (r: Bigint)
    requires b.Valid() && b.wds >= 1
    ensures fresh(r) && fresh(r.x) && r.Valid() && r.Words() == LShiftWords(b.Words(), count)
  {
    hide MulAddWords, Mul;
    var n, bits := count / 32, count % 32;
    var n1 := n + b.wds + 1;
    var k1 := b.k;
    while n1 > Pow2(k1)
      decreases n1 - Pow2(k1)
    {
      k1 := k1 + 1;
    }
    r := new Bigint(k1);
    FillZeros(r.x, n);
    ghost var w := b.Words();
    if bits != 0 {
      SmallShift(bits);
      MulAddWordsValue(w, Pow2(bits), 0);
      var z := ShiftInto(b, bits, r, n);
      ghost var y := MulAddWords(w, Pow2(bits), 0);
      r.wds := if z != 0 then n1 else n1 - 1;
      assert r.x[..n1][..n1 - 1] == ZeroWords(n) + y[..|y| - 1];
      assert r.x[..n1][n1 - 1] == y[|y| - 1];
    } else {
      CopyTo(b, r.x, n);
      r.wds := n1 - 1;
    }
  }

  method FillZeros(x: array<Word>, n: nat)
    requires n <= x.Length
    modifies x
    ensures x[..n] == ZeroWords(n)
  {
    var i := 0;
    while i < n
      invariant 0 <= i <= n && x[..i] == ZeroWords(i)
    {
      x[i] := 0;
      i := i + 1;
    }
  }

  /** The copy loop of `lshift` when only whole words are shifted. */
  method CopyTo(b: Bigint, x: array<Word>, n: nat)
    requires b.Valid() && x != b.x && n + b.wds <= x.Length
    modifies x
    ensures x[..n] == old(x[..n]) && x[..n + b.wds] == old(x[..n]) + b.Words()
  {
    ghost var head := x[..n];
    var i := 0;
    while i < b.wds
      invariant 0 <= i <= b.wds && x[..n + i] == head + b.x[..i]
    {
      x[n + i] := b.x[i];
      i := i + 1;
    }
    assert x[..n] == x[..n + b.wds][..n];
  }

  /** The carry loop of `lshift`, writing the shifted words of b at offset n of r. */
  method ShiftInto(b: Bigint, bits: nat, r: Bigint, n: nat) returns (z: Word)
    requires b.Valid() && b.wds >= 1 && 0 < bits < 32 && Pow2(bits) < BASE
    requires r != b && r.x != b.x && n + b.wds + 1 <= r.x.Length
    requires r.x[..n] == ZeroWords(n)
    modifies r.x
    ensures r.x[..n + b.wds + 1] == ZeroWords(n) + MulAddWords(b.Words(), Pow2(bits), 0)
    ensures z == r.x[n + b.wds]
    ensures b.Words() == old(b.Words())
  {
    hide MulAddWords, Mul, Pow2;
    ghost var w, m := b.Words(), Pow2(bits);
    Pow2Pos(bits);
    z := 0;
    var i := 0;
    assert w[0..] == w;
    while i < b.wds
      invariant 0 <= i <= b.wds && z < m && b.Words() == w
      invariant r.x[..n + i] + MulAddWords(w[i..], m, z) == ZeroWords(n) + MulAddWords(w, m, 0)
    {
      ghost var done := r.x[..n + i];
      assert w[i..][0] == w[i] == b.x[i] && w[i..][1..] == w[i + 1..];
      MulAddWordsStep(w[i..], m, z, done);
      ShiftedWord(w[i], bits, z);
      r.x[n + i] := Mul(b.x[i], Pow2(bits)) % BASE + z;
      z := b.x[i] / Pow2(32 - bits);
      assert r.x[..n + i + 1] == done + [r.x[n + i]];
      i := i + 1;
    }
    assert w[b.wds..] == [];
    MulAddWordsNone(m, z);
    ghost var done := r.x[..n + i];
    r.x[n + i] := z;
    assert r.x[..n + i + 1] == done + [z];
  }

  /** Shifting a word left and or-ing in fewer than 2^bits bits is multiply-and-add; the bits
      shifted out are the carry. */
  lemma ShiftedWord(w: Word, bits: nat, z: nat)
    requires 0 < bits < 32 && z < Pow2(bits) < BASE
    ensures Mul(w, Pow2(bits)) % BASE + z == (Mul(w, Pow2(bits)) + z) % BASE
    ensures w / Pow2(32 - bits) == (Mul(w, Pow2(bits)) + z) / BASE
    ensures Mul(w, Pow2(bits)) % BASE + z < BASE && 0 <= w / Pow2(32 - bits) < Pow2(bits)
  {
    hide Mul, Pow2;
    var m, d := Pow2(bits), Pow2(32 - bits);
    Pow2Pos(32 - bits);
    Pow2Add(32 - bits, bits);
    Pow2Values();
    var hi, lo := Divide(w, d);
    MulRegroup(hi, d, lo, m);
    MulConst(hi);
    MulCommutes(hi, BASE);
    MulLast(lo, d, m);
    DivUnique(Mul(w, m), BASE, hi, Mul(lo, m));
    DivUnique(Mul(w, m) + z, BASE, hi, Mul(lo, m) + z);
    MulMono(m, hi, d);
    MulCommutes(d, m);
    MulCommutes(hi, d);
  }

  lemma Divide(w: nat, d: nat) returns (hi: nat, lo: nat)
    requires d > 0
    ensures hi == w / d && lo < d && w == Mul(hi, d) + lo
  {
    DivNonneg(w, d);
    hi, lo := w / d, w % d;
    assert w == hi * d + lo;
  }

  lemma MulRegroup(hi: nat, d: nat, lo: nat, m: nat)
    ensures Mul(Mul(hi, d) + lo, m) == Mul(hi, Mul(d, m)) + Mul(lo, m)
  {
    assert (hi * d + lo) * m == hi * (d * m) + lo * m;
  }

  lemma MulLast(lo: nat, d: nat, m: nat)
    requires lo < d
    ensures Mul(lo, m) + m <= Mul(d, m)
  {
    MulMonotone(lo + 1, d, m);
    assert (lo + 1) * m == lo * m + m;
  }

  // ----- mult

  /** `mult` strips every leading zero word, so zero ends up with no words. */
  function StripAll(x: seq<Word>): seq<Word> {
    if x != [] && x[|x| - 1] == 0 then StripAll(x[..|x| - 1]) else x
  }

  lemma {:induction false} StripAllKeepsValue(x: seq<Word>)
    ensures Value(StripAll(x)) == Value(x) && Normal(StripAll(x)) && |StripAll(x)| <= |x|
    ensures Value(x) > 0 ==> StripAll(x) != []
  {
    if x != [] && x[|x| - 1] == 0 {
      DropTopZero(x);
      StripAllKeepsValue(x[..|x| - 1]);
    }
  }

  lemma RowWordsStep(A: seq<Word>, y: Word, C: seq<Word>, c: Word, done: seq<Word>)
    requires A != [] && |A| == |C|
    ensures 0 <= (Mul(A[0], y) + C[0] + c) / BASE < BASE
    ensures var z := Mul(A[0], y) + C[0] + c;
            done + RowWords(A, y, C, c) == (done + [z % BASE]) + RowWords(A[1..], y, C[1..], z / BASE)
  {
    RowFits(A[0], y, C[0], c);
  }

  /** The inner loop of `mult`: add a*y to the words of c from offset j on. */
  method AddRow(a: array<Word>, wa: nat, y: Word, c: array<Word>, j: nat)
    requires a != c && wa <= a.Length && j + wa < c.Length
    modifies c
    ensures c[..j] == old(c[..j]) && c[j + wa + 1..] == old(c[j + wa + 1..])
    ensures c[j..j + wa + 1] == RowWords(a[..wa], y, old(c[j..j + wa]), 0)
  {
    hide RowWords, Mul;
    ghost var A, C := a[..wa], c[j..j + wa];
    var carry: Word := 0;
    var i := 0;
    assert A[0..] == A && C[0..] == C;
    while i < wa
      invariant 0 <= i <= wa && a[..wa] == A
      invariant c[..j] == old(c[..j]) && c[j + wa + 1..] == old(c[j + wa + 1..])
      invariant c[j + i..j + wa] == C[i..]
      invariant c[j..j + i] + RowWords(A[i..], y, C[i..], carry) == RowWords(A, y, C, 0)
    {
      ghost var done, rest := c[j..j + i], c[j + i..j + wa];
      assert A[i..][0] == a[i] && A[i..][1..] == A[i + 1..];
      assert C[i..][0] == rest[0] == c[j + i] && C[i..][1..] == C[i + 1..];
      RowWordsStep(A[i..], y, C[i..], carry, done);
      var z := Mul(a[i], y) + c[j + i] + carry;
      carry := z / BASE;
      c[j + i] := z % BASE;
      assert c[j..j + i + 1] == done + [z % BASE];
      assert c[j + i + 1..j + wa] == rest[1..];
      i := i + 1;
    }
    ghost var done := c[j..j + wa];
    assert A[wa..] == [] && C[wa..] == [];
    RowWordsNone(y, carry);
    c[j + wa] := carry;
    assert c[j..j + wa + 1] == done + [carry];
  }

  lemma RowWordsNone(y: Word, c: Word)
    ensures RowWords([], y, [], c) == [c]
  {
  }

  /** One pass of the outer loop: rows for zero words are skipped. */
  method MultRow(a: array<Word>, wa: nat, y: Word, c: array<Word>, j: nat, wc: nat)
    requires a != c && wa <= a.Length && j + wa < wc <= c.Length
    modifies c
    ensures c[..j] == old(c[..j])
    ensures c[j..wc] == if y == 0 then old(c[j..wc])
                        else RowWords(a[..wa], y, old(c[j..wc])[..wa], 0) + old(c[j..wc])[wa + 1..]
  {
    if y != 0 {
      ghost var C, rest := c[j..wc], c[j + wa + 1..];
      assert C[..wa] == c[j..j + wa] && C[wa + 1..] == rest[..wc - (j + wa + 1)];
      AddRow(a, wa, y, c, j);
      assert c[j + wa + 1..] == rest;
      assert c[j..wc] == c[j..j + wa + 1] + c[j + wa + 1..][..wc - (j + wa + 1)];
    }
  }

  lemma MultWordsStep(A: seq<Word>, B: seq<Word>, C: seq<Word>, C': seq<Word>, done: seq<Word>)
    requires B != [] && |C| == |A| + |B| && |C'| == |C|
    requires C' == if B[0] == 0 then C else RowWords(A, B[0], C[..|A|], 0) + C[|A| + 1..]
    ensures done + MultWords(A, B, C) == (done + [C'[0]]) + MultWords(A, B[1..], C'[1..])
  {
  }

  /** The outer loop of `mult`, on a cleared result. */
  method MultiplyInto(a: array<Word>, wa: nat, b: array<Word>, wb: nat, c: array<Word>)
    requires a != c && b != c && wa <= a.Length && wb <= b.Length && wa + wb <= c.Length
    requires c[..wa + wb] == ZeroWords(wa + wb)
    modifies c
    ensures c[..wa + wb] == MultWords(a[..wa], b[..wb], ZeroWords(wa + wb))
  {
    hide MultWords, RowWords;
    ghost var A, B := a[..wa], b[..wb];
    var wc, j := wa + wb, 0;
    assert B[0..] == B && c[0..wc] == c[..wc];
    assert c[..0] + MultWords(A, B[0..], c[0..wc]) == MultWords(A, B, ZeroWords(wc));
    while j < wb
      invariant 0 <= j <= wb && a[..wa] == A && b[..wb] == B
      invariant Zeros(c[j..wc][wa..])
      invariant c[..j] + MultWords(A, B[j..], c[j..wc]) == MultWords(A, B, ZeroWords(wc))
    {
      assert B[j..][0] == b[j] && B[j..][1..] == B[j + 1..];
      ghost var done, C := c[..j], c[j..wc];
      ghost var C' := RowStep(A, b[j], C);
      MultWordsStep(A, B[j..], C, C', done);
      MultRow(a, wa, b[j], c, j, wc);
      assert c[..j + 1] == done + [C'[0]] && c[j + 1..wc] == C'[1..];
      j := j + 1;
    }
    assert B[wb..] == [] && c[..wb] + c[wb..wc] == c[..wc];
    MultWordsNone(A, c[wb..wc]);
  }

  lemma MultWordsNone(A: seq<Word>, C: seq<Word>)
    requires |C| == |A|
    ensures MultWords(A, [], C) == C
  {
  }

  /** The loop that drops leading zero words. */
  method CountWords(x: array<Word>, n: nat) returns (m: nat)
    requires n <= x.Length
    ensures m <= n && x[..m] == StripAll(x[..n])
  {
    m := n;
    while m > 0 && x[m - 1] == 0
      invariant m <= n && StripAll(x[..m]) == StripAll(x[..n])
    {
      assert x[..m][..m - 1] == x[..m - 1];
      m := m - 1;
    }
  }

  /** `mult`: a new number, the product. */
  method Mult(a0: Bigint, b0: Bigint) returns (c: Bigint)
    requires a0.Valid() && b0.Valid()
    ensures fresh(c) && fresh(c.x) && c.Valid() && Normal(c.Words())
    ensures c.Val() == Mul(a0.Val(), b0.Val())
    ensures c.Val() > 0 ==> c.wds > 0
  {
    hide Mul, MultWords, Pow2, Value, StripAll;
    var a, b := a0, b0;
    if a0.wds < b0.wds {
      a, b := b0, a0;
    }
    var wc := a.wds + b.wds;
    Pow2Double(a.k);
    var k := if wc > a.x.Length then a.k + 1 else a.k;
    c := new Bigint(k);
    FillZeros(c.x, wc);
    MultiplyInto(a.x, a.wds, b.x, b.wds, c.x);
    ProductValue(a.Words(), b.Words());
    MulCommutes(a.Val(), b.Val());
    StripAllKeepsValue(c.x[..wc]);
    wc := CountWords(c.x, wc);
    c.wds := wc;
  }

  lemma Pow2Double(k: nat)
    ensures Pow2(k + 1) == 2 * Pow2(k)
  {
  }

  lemma ProductValue(A: seq<Word>, B: seq<Word>)
    ensures |MultWords(A, B, ZeroWords(|A| + |B|))| == |A| + |B|
    ensures Value(MultWords(A, B, ZeroWords(|A| + |B|))) == Mul(Value(A), Value(B))
  {
    var z := ZeroWords(|A| + |B|);
    assert [] + z == z;
    ZerosValue([], z);
    MultWordsValue(A, B, z);
  }
}

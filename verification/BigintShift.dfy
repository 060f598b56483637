/** Shifting, and preparing a divisor so that its top word has exactly four leading zero bits. */
module BigintShift {
  import opened Arith
  import opened BigintSpec
  import opened BigintDivision

  function Pow2(n: nat): (p: nat)
    ensures p > 0
  {
    if n == 0 then 1 else 2 * Pow2(n - 1)
  }

  lemma {:induction false} Pow2Add(a: nat, b: nat)
    ensures Pow2(a + b) == Mul(Pow2(a), Pow2(b))
  {
    hide Mul;
    MulOne(Pow2(a));
    if b > 0 {
      Pow2Add(a, b - 1);
      MulTwo(Pow2(a), Pow2(b - 1));
    }
  }

  lemma MulTwo(p: nat, q: nat)
    ensures Mul(p, 2 * q) == 2 * Mul(p, q)
  {
  }

  lemma {:induction false} Pow2Monotone(a: nat, b: nat)
    requires a <= b
    ensures Pow2(a) <= Pow2(b)
  {
    if a < b {
      Pow2Monotone(a, b - 1);
    }
  }

  lemma Pow2Values()
    ensures Pow2(0) == 1 && Pow2(1) == 2 && Pow2(2) == 4 && Pow2(4) == 16 && Pow2(8) == 256 && Pow2(16) == 0x1_0000
    ensures Pow2(27) == 0x800_0000 && Pow2(28) == 0x1000_0000
    ensures Pow2(31) == 0x8000_0000 && Pow2(32) == BASE
  {
    assert Pow2(4) == 16;
    assert Pow2(8) == 256;
    assert Pow2(12) == 4096;
    assert Pow2(16) == 0x1_0000;
    assert Pow2(20) == 0x10_0000;
    assert Pow2(24) == 0x100_0000;
    assert Pow2(27) == 0x800_0000;
    assert Pow2(28) == 0x1000_0000;
    assert Pow2(31) == 0x8000_0000;
  }

  lemma {:induction false} PowerIsPow2(n: nat)
    ensures Power(n) == Pow2(32 * n)
  {
    if n > 0 {
      PowerIsPow2(n - 1);
      Pow2Values();
      Pow2Add(32, 32 * (n - 1));
    }
  }

  /** Drop a carry word that turned out to be zero. */
  function DropCarry(x: seq<Word>): seq<Word>
    requires x != []
  {
    if x[|x| - 1] == 0 then x[..|x| - 1] else x
  }

  function ZeroWords(n: nat): (z: seq<Word>)
    ensures |z| == n && Zeros(z)
  {
    seq(n, i => 0)
  }

  lemma SmallShift(k: nat)
    requires k < 32
    ensures Pow2(k) < BASE
  {
    Pow2Monotone(k, 31);
    Pow2Values();
  }

  /** `lshift`: whole words of zeros first, then a carry loop for the remaining bits.  A word
      shifted left and combined with the bits shifted out below it is a product with a
      power of two plus a carry. */
  function LShiftWords(x: seq<Word>, k: nat): seq<Word> {
    SmallShift(k % 32);
    MulAddWordsValue(x, Pow2(k % 32), 0);
    ZeroWords(k / 32) + if k % 32 == 0 then x else DropCarry(MulAddWords(x, Pow2(k % 32), 0))
  }

  lemma LShiftValue(x: seq<Word>, k: nat)
    ensures Value(LShiftWords(x, k)) == Mul(Value(x), Pow2(k))
  {
    hide Mul, Value, Power, Pow2, MulAddWords;
    var n, m := k / 32, k % 32;
    Pow2Values();
    SmallShift(m);
    var y := MulAddWords(x, Pow2(m), 0);
    MulAddWordsValue(x, Pow2(m), 0);
    if y[|y| - 1] == 0 {
      DropTopZero(y);
    }
    MulOne(Value(x));
    assert Value(if m == 0 then x else DropCarry(y)) == Mul(Value(x), Pow2(m));
    ShiftZeros(n, if m == 0 then x else DropCarry(y));
    PowerIsPow2(n);
    Pow2Add(32 * n, m);
    Rearrange(Pow2(32 * n), Value(x), Pow2(m));
  }

  lemma Rearrange(a: nat, b: nat, c: nat)
    ensures Mul(a, Mul(b, c)) == Mul(b, Mul(a, c))
  {
    assert a * (b * c) == b * (a * c);
  }

  lemma ShiftZeros(n: nat, y: seq<Word>)
    ensures Value(ZeroWords(n) + y) == Mul(Power(n), Value(y))
  {
    ValueConcat(ZeroWords(n), y);
    assert [] + ZeroWords(n) == ZeroWords(n);
    ZerosValue([], ZeroWords(n));
  }

  /** The top two words a carry loop produces from the top word of x. */
  lemma {:induction false} TopWords(x: seq<Word>, m: nat, c: Word)
    requires x != [] && m < BASE && c < m
    ensures var r := MulAddWords(x, m, c);
            && |r| == |x| + 1
            && Mul(x[|x| - 1], m) <= r[|x| - 1] + BASE * r[|x|] < Mul(x[|x| - 1], m) + m
  {
    hide Mul;
    CarryFits(x[0], m, c);
    var y := Mul(x[0], m) + c;
    var r := MulAddWords(x, m, c);
    MulAddWordsValue(x, m, c);
    if |x| == 1 {
      assert x[1..] == [];
      assert r == [y % BASE, y / BASE];
    } else {
      CarryBelow(x[0], m, c);
      TopWords(x[1..], m, y / BASE);
      assert x[1..][|x| - 2] == x[|x| - 1];
      var rest := MulAddWords(x[1..], m, y / BASE);
      assert r == [y % BASE] + rest;
    }
  }

  lemma CarryBelow(w: Word, m: nat, c: nat)
    requires c < m < BASE
    ensures 0 <= (Mul(w, m) + c) / BASE < m
  {
    MulMonotone(w, BASE - 1, m);
    assert (BASE - 1) * m == BASE * m - m;
    assert Mul(w, m) + c < BASE * m;
  }

  /** Shifting a number whose top word is nonzero leaves a nonzero top word. */
  lemma LShiftTop(x: seq<Word>, k: nat)
    requires x != [] && x[|x| - 1] != 0
    ensures |LShiftWords(x, k)| >= 1 && LShiftWords(x, k)[|LShiftWords(x, k)| - 1] != 0
  {
    hide Mul, Pow2, MulAddWords;
    var m, top := k % 32, x[|x| - 1];
    SmallShift(m);
    Pow2Pos(m);
    TopWords(x, Pow2(m), 0);
    MulGe(Pow2(m), top);
    MulCommutes(top, Pow2(m));
    var s := LShiftWords(x, k);
    if m == 0 {
      assert s[|s| - 1] == top;
    } else {
      var z := DropCarry(MulAddWords(x, Pow2(m), 0));
      assert s[|s| - 1] == z[|z| - 1];
    }
  }

  /** Shifting keeps normal form exactly unless zero is shifted by whole words. */
  lemma LShiftNormal(x: seq<Word>, k: nat)
    requires Normal(x) && x != []
    ensures Normal(LShiftWords(x, k)) <==> Value(x) > 0 || k < 32
  {
    hide Mul, Pow2, MulAddWords;
    ValueTop(x);
    assert Mul(Power(|x| - 1), 0) == 0 by { MulZero(Power(|x| - 1)); }
    if x[|x| - 1] != 0 {
      LShiftTop(x, k);
    } else {
      SmallShift(k % 32);
      var y := MulAddWords(x, Pow2(k % 32), 0);
      MulAddWordsValue(x, Pow2(k % 32), 0);
      MulZero(Pow2(k % 32));
      assert Value(y) == y[0] + BASE * Value(y[1..]) && Value(y[1..]) == y[1] + BASE * Value(y[1..][1..]);
      var s := LShiftWords(x, k);
      assert |s| == k / 32 + 1 && s[|s| - 1] == 0;
    }
  }

  lemma MulCommutes(a: nat, b: nat)
    ensures Mul(a, b) == Mul(b, a)
  {
  }

  // ----- hi0bits and dshift

  /** h is the number of leading zero bits of the nonzero word x. */
  ghost predicate LeadingZeros(x: Word, h: nat) {
    h < 32 && Pow2(31 - h) <= x < Pow2(32 - h)
  }

  lemma ShiftMore(word: nat, k: nat, j: nat, x: nat)
    requires x == Mul(word, Pow2(k))
    ensures Mul(word, Pow2(k + j)) == Mul(x, Pow2(j))
  {
    hide Mul, Pow2;
    Pow2Add(k, j);
    MulAssoc(word, Pow2(k), Pow2(j));
  }

  lemma MulAssoc(a: nat, b: nat, c: nat)
    ensures Mul(a, Mul(b, c)) == Mul(Mul(a, b), c)
  {
    assert a * (b * c) == a * b * c;
  }

  /** If shifting by k brings the highest one bit to bit 31, there were k leading zeros. */
  lemma LeadingFromShift(word: Word, k: nat)
    requires k < 32 && 0x8000_0000 <= Mul(word, Pow2(k)) < BASE
    ensures LeadingZeros(word, k)
  {
    hide Mul;
    Pow2Values();
    Pow2Add(31 - k, k);
    Pow2Add(32 - k, k);
    MulLt(word, Pow2(31 - k), Pow2(k));
    MulMono(Pow2(32 - k), word, Pow2(k));
  }

  lemma MulLt(x: nat, y: nat, p: nat)
    requires p > 0
    ensures x < y ==> Mul(x, p) < Mul(y, p)
  {
    if x < y {
      MulMonotone(x + 1, y, p);
      assert (x + 1) * p == x * p + p;
    }
  }

  /** `hi0bits`: binary search for the highest one bit, shifting x as it goes. */
  method Hi0Bits(word: Word) returns (k: nat)
    ensures word > 0 ==> LeadingZeros(word, k)
    ensures word == 0 ==> k == 32
  {
    Pow2Values();
    MulOne(word);
    var x: nat;
    k, x := HalfStep(word, 0, word, 16, 0x1_0000);
    k, x := HalfStep(word, k, x, 8, 0x100);
    k, x := HalfStep(word, k, x, 4, 0x10);
    k, x := HalfStep(word, k, x, 2, 4);
    if x < 0x8000_0000 {
      ShiftMore(word, k, 1, x);
      k := k + 1;
      if x < 0x4000_0000 {
        return 32;
      }
    }
    LeadingFromShift(word, k);
  }

  /** One test of the search: if the top j bits are clear, shift them out. */
  method HalfStep(word: Word, k: nat, x: nat, j: nat, f: nat) returns (k': nat, x': nat)
    requires j > 0 && f == Pow2(j) && k + j < 32 && x == Mul(word, Pow2(k)) && x < BASE
    requires word > 0 ==> x * f * f >= BASE
    ensures x' == Mul(word, Pow2(k')) && x' < BASE && k <= k' <= k + j
    ensures word > 0 ==> x' * f >= BASE
    ensures word == 0 ==> x' == 0
  {
    k', x' := k, x;
    if x * f < BASE {
      ShiftMore(word, k, j, x);
      k', x' := k + j, x * f;
    }
  }

  /** `dshift`: how many more bits to shift a divisor that will be shifted by p2. */
  method DShift(x: seq<Word>, p2: nat) returns (i: nat)
    requires Normal(x) && Value(x) > 0
    ensures i < 32 && Prepared(LShiftWords(x, p2 + i))
  {
    var top := x[|x| - 1];
    assert top != 0 by { ValueTop(x); assert Mul(Power(|x| - 1), 0) == 0; }
    var h := Hi0Bits(top);
    var rv: int := (h as int) - 4;
    if p2 > 0 {
      rv := rv - p2;
    }
    i := rv % 32;
    ShiftModulo(h, p2, i);
    ShiftPrepares(x, h, p2 + i);
  }

  lemma ShiftModulo(h: nat, p2: nat, i: nat)
    requires h < 32 && i == (h - 4 - p2) % 32
    ensures (p2 + i) % 32 == if h >= 4 then h - 4 else h + 28
  {
    var j: int := if h >= 4 then h - 4 else h + 28;
    assert (p2 + i - j) % 32 == 0;
  }

  /** After such a shift the divisor's top word has exactly four leading zero bits. */
  lemma ShiftPrepares(x: seq<Word>, h: nat, k: nat)
    requires Normal(x) && x != [] && LeadingZeros(x[|x| - 1], h)
    requires k % 32 == if h >= 4 then h - 4 else h + 28
    ensures Prepared(LShiftWords(x, k))
  {
    hide Mul, Pow2;
    var m, top := k % 32, x[|x| - 1];
    var z := ZeroWords(k / 32);
    if m == 0 {
      Pow2Values();
      assert LShiftWords(x, k) == z + x;
    } else {
      SmallShift(m);
      Pow2Pos(m);
      TopWords(x, Pow2(m), 0);
      TopRange(top, h, m);
      var y := MulAddWords(x, Pow2(m), 0);
      var s := LShiftWords(x, k);
      assert s == z + DropCarry(y);
      TwoWords(y[|x| - 1], y[|x|], h);
      assert s[|s| - 1] == DropCarry(y)[|DropCarry(y)| - 1];
    }
  }

  lemma Pow2Pos(m: nat)
    ensures Pow2(m) > 0
  {
  }

  lemma TopRange(top: Word, h: nat, m: nat)
    requires LeadingZeros(top, h) && m == if h >= 4 then h - 4 else h + 28
    ensures h >= 4 ==> 0x800_0000 <= Mul(top, Pow2(m)) && Mul(top, Pow2(m)) + Pow2(m) <= 0x1000_0000
    ensures h < 4 ==> BASE * 0x800_0000 <= Mul(top, Pow2(m)) && Mul(top, Pow2(m)) + Pow2(m) <= BASE * 0x1000_0000
  {
    hide Mul, Pow2;
    MulMono(Pow2(31 - h), top, Pow2(m));
    MulMono(top + 1, Pow2(32 - h), Pow2(m));
    MulSucc(Pow2(m), top);
    MulCommutes(top, Pow2(m));
    MulCommutes(top + 1, Pow2(m));
    Pow2Add(31 - h, m);
    Pow2Add(32 - h, m);
    Pow2Values();
    if h < 4 {
      Pow2Add(32, 27);
      Pow2Add(32, 28);
      MulConst(0x800_0000);
      MulConst(0x1000_0000);
    }
  }

  lemma MulConst(x: nat)
    ensures Mul(BASE, x) == BASE * x
  {
  }

  lemma TwoWords(lo: Word, hi: Word, h: nat)
    requires h >= 4 ==> 0x800_0000 <= lo + BASE * hi < 0x1000_0000
    requires h < 4 ==> BASE * 0x800_0000 <= lo + BASE * hi < BASE * 0x1000_0000
    ensures h >= 4 ==> hi == 0 && 0x800_0000 <= lo < 0x1000_0000
    ensures h < 4 ==> 0x800_0000 <= hi < 0x1000_0000
  {
  }
}

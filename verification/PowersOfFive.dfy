/** `pow5mult` and the chain of powers of five that it extends lazily. */
module PowersOfFive {
  import opened BigintSpec
  import opened BigintDivision
  import opened BigintShift
  import opened Bigints

  function Pow5(n: nat): (p: nat)
    ensures p > 0
  {
    if n == 0 then 1 else 5 * Pow5(n - 1)
  }

  lemma {:induction false} Pow5Add(a: nat, b: nat)
    ensures Pow5(a + b) == Mul(Pow5(a), Pow5(b))
  {
    hide Mul;
    MulOne(Pow5(a));
    if b > 0 {
      Pow5Add(a, b - 1);
      MulFive(Pow5(a), Pow5(b - 1));
    }
  }

  lemma MulFive(p: nat, q: nat)
    ensures Mul(p, 5 * q) == 5 * Mul(p, q)
  {
  }

  /** 5^(4 * 2^i), the i-th number of the chain. */
  function ChainValue(i: nat): nat {
    Pow5(4 * Pow2(i))
  }

  lemma ChainSquares(i: nat)
    ensures ChainValue(i + 1) == Mul(ChainValue(i), ChainValue(i))
  {
    Pow5Add(4 * Pow2(i), 4 * Pow2(i));
  }

  lemma ChainPositive(i: nat)
    ensures ChainValue(i) > 0
  {
  }

  // ----- repeated squaring

  /** c^k */
  function Exp(c: nat, k: nat): nat {
    if k == 0 then 1 else Mul(c, Exp(c, k - 1))
  }

  lemma {:induction false} ExpSquare(c: nat, h: nat)
    ensures Exp(c, 2 * h) == Exp(Mul(c, c), h)
  {
    hide Mul;
    if h > 0 {
      ExpSquare(c, h - 1);
      assert Exp(c, 2 * h) == Mul(c, Exp(c, 2 * h - 1));
      assert Exp(c, 2 * h - 1) == Mul(c, Exp(c, 2 * (h - 1)));
      MulAssoc(c, c, Exp(c, 2 * (h - 1)));
    }
  }

  /** One turn of the squaring loop preserves the product still to be formed. */
  lemma ExpHalf(v: nat, c: nat, k: nat)
    requires k > 0
    ensures k % 2 == 0 ==> Mul(v, Exp(c, k)) == Mul(v, Exp(Mul(c, c), k / 2))
    ensures k % 2 == 1 ==> Mul(v, Exp(c, k)) == Mul(Mul(v, c), Exp(Mul(c, c), k / 2))
    ensures k / 2 == 0 ==> Mul(Mul(v, c), Exp(Mul(c, c), k / 2)) == Mul(v, c)
  {
    hide Mul;
    var h := k / 2;
    ExpSquare(c, h);
    if k % 2 == 1 {
      assert k == 2 * h + 1;
      assert Exp(c, k) == Mul(c, Exp(c, 2 * h));
      MulAssoc(v, c, Exp(c, 2 * h));
    } else {
      assert k == 2 * h;
    }
    MulOne(Mul(v, c));
  }

  lemma ChainStep(v: nat, i: nat, k: nat)
    requires k > 0
    ensures var v' := if k % 2 == 1 then Mul(v, ChainValue(i)) else v;
            && Mul(v, Exp(ChainValue(i), k)) == Mul(v', Exp(ChainValue(i + 1), k / 2))
            && (k / 2 == 0 ==> Mul(v, Exp(ChainValue(i), k)) == v')
  {
    hide Mul, ChainValue;
    ExpHalf(v, ChainValue(i), k);
    ChainSquares(i);
  }

  lemma {:induction false} ExpOfPow5(n: nat)
    ensures Exp(Pow5(4), n) == Pow5(4 * n)
  {
    hide Mul;
    if n > 0 {
      ExpOfPow5(n - 1);
      Pow5Add(4, 4 * (n - 1));
    }
  }

  /** 5^count as the small factor and a power of 625. */
  lemma SplitPower(v: nat, count: nat)
    ensures Mul(v, Pow5(count)) == Mul(Mul(v, Pow5(count % 4)), Exp(ChainValue(0), count / 4))
    ensures count / 4 == 0 ==> count % 4 == count
  {
    hide Mul;
    var n, i := count / 4, count % 4;
    assert ChainValue(0) == Pow5(4);
    ExpOfPow5(n);
    Pow5Add(i, 4 * n);
    MulAssoc(v, Pow5(i), Pow5(4 * n));
  }

  lemma SmallPowers()
    ensures Pow5(0) == 1 && Pow5(1) == 5 && Pow5(2) == 25 && Pow5(3) == 125
  {
    assert Pow5(1) == 5 * Pow5(0);
    assert Pow5(2) == 5 * Pow5(1);
    assert Pow5(3) == 5 * Pow5(2);
  }

  /** Multiplying a nonzero number keeps normal form. */
  lemma MulAddNormal(x: seq<Word>, m: nat, a: Word)
    requires Normal(x) && x != [] && 0 < m < BASE
    ensures |MulAddWords(x, m, a)| == |x| + 1
    ensures var y := DropCarry(MulAddWords(x, m, a));
            Normal(y) && y != [] && Value(y) == Mul(Value(x), m) + a
  {
    hide Mul, MulAddWords;
    MulAddWordsValue(x, m, a);
    var w := MulAddWords(x, m, a);
    var y := DropCarry(w);
    if w[|x|] == 0 {
      DropTopZero(w);
      if |x| > 1 {
        ValueTop(x);
        ValueTop(y);
        ValueBound(y[..|y| - 1]);
        MulZero(Power(|y| - 1));
        MulMono(1, m, Value(x));
        MulOne(Value(x));
      }
    }
  }

  class Pow5Cache {
    var chain: seq<Bigint>

    ghost predicate Valid()
      reads this, chain, set p | p in chain :: p.x
    {
      forall i :: 0 <= i < |chain| ==>
        chain[i].Valid() && Normal(chain[i].Words()) && chain[i].wds >= 1 && chain[i].Val() == ChainValue(i)
    }

    /** The chain shares no storage with b. */
    ghost predicate Apart(b: Bigint)
      reads this, chain, b
    {
      forall i :: 0 <= i < |chain| ==> chain[i] != b && chain[i].x != b.x
    }

    constructor ()
      ensures Valid() && chain == []
    {
      chain := [];
    }

    /** The first member of the chain, i2b(625). */
    method Start()
      requires Valid()
      modifies this
      ensures Valid() && chain != [] && old(chain) <= chain
      ensures forall j :: |old(chain)| <= j < |chain| ==> fresh(chain[j]) && fresh(chain[j].x)
    {
      if chain == [] {
        Pow2Values();
        var p := new Bigint(1);
        p.x[0] := 625;
        p.wds := 1;
        assert p.Words() == [625];
        assert Value([625]) == 625 + BASE * Value([625][1..]);
        assert ChainValue(0) == 625 by { assert Pow5(4) == 625; }
        chain := [p];
      }
    }

    /** Make sure the chain has a member after index i: square the last one. */
    method Extend(i: nat)
      requires Valid() && i < |chain|
      modifies this
      ensures Valid() && i + 1 < |chain| && old(chain) <= chain
      ensures forall j :: |old(chain)| <= j < |chain| ==> fresh(chain[j]) && fresh(chain[j].x)
    {
      hide Mul, ChainValue;
      if i + 1 == |chain| {
        var p := Mult(chain[i], chain[i]);
        ChainSquares(i);
        ChainPositive(i + 1);
        chain := chain + [p];
      }
    }

    /** `pow5mult`: b * 5^k, in place where possible. */
    method Pow5Mult(b0: Bigint, count: nat) returns (b: Bigint)
      requires Valid() && Apart(b0) && b0.Valid() && b0.wds >= 1 && Normal(b0.Words())
      modifies this, b0, b0.x
      ensures Valid() && b.Valid() && Normal(b.Words())
      ensures b.Val() == Mul(old(b0.Val()), Pow5(count))
      ensures b == b0 || fresh(b)
      ensures b.x == old(b0.x) || fresh(b.x)
      ensures Apart(b) && old(chain) <= chain
      ensures forall j :: |old(chain)| <= j < |chain| ==> fresh(chain[j]) && fresh(chain[j].x)
    {
      hide Mul, Pow5, ChainValue, Exp;
      ghost var v := b0.Val();
      SplitPower(v, count);
      b := SmallFactor(b0, count % 4);
      if count / 4 == 0 {
        return;
      }
      Start();
      b := MultiplyChain(b, count / 4);
    }

    /** The leading step of `pow5mult`: multiply by 1, 5, 25 or 125. */
    method SmallFactor(b0: Bigint, i: nat) returns (b: Bigint)
      requires i < 4 && Valid() && Apart(b0) && b0.Valid() && b0.wds >= 1 && Normal(b0.Words())
      modifies b0, b0.x
      ensures Valid() && Apart(b) && b.Valid() && Normal(b.Words())
      ensures b.Val() == Mul(old(b0.Val()), Pow5(i))
      ensures b == b0 || fresh(b)
      ensures b.x == old(b0.x) || fresh(b.x)
    {
      hide Mul, Pow5, MulAddWords, Pow2;
      SmallPowers();
      MulOne(b0.Val());
      b := b0;
      if i != 0 {
        MulAddNormal(b.Words(), [5, 25, 125][i - 1], 0);
        b := MultAdd(b, [5, 25, 125][i - 1], 0);
      }
    }

    /** Multiply by the i-th member of the chain if the low bit of k is set. */
    method MultiplyIfOdd(b: Bigint, i: nat, k: nat) returns (r: Bigint)
      requires Valid() && i < |chain| && Apart(b) && b.Valid() && Normal(b.Words())
      ensures r.Valid() && Normal(r.Words()) && Apart(r)
      ensures if k % 2 == 1 then fresh(r) && fresh(r.x) else r == b
      ensures r.Val() == if k % 2 == 1 then Mul(b.Val(), ChainValue(i)) else b.Val()
    {
      r := b;
      if k % 2 == 1 {
        r := Mult(b, chain[i]);
      }
    }

    /** The loop of `pow5mult`: b * 625^k by repeated squaring along the chain. */
    method MultiplyChain(b0: Bigint, k0: nat) returns (b: Bigint)
      requires Valid() && chain != [] && Apart(b0) && b0.Valid() && Normal(b0.Words()) && k0 > 0
      modifies this
      ensures Valid() && b.Valid() && Normal(b.Words()) && Apart(b) && fresh(b) && fresh(b.x)
      ensures b.Val() == Mul(old(b0.Val()), Exp(ChainValue(0), k0))
      ensures old(chain) <= chain
      ensures forall j :: |old(chain)| <= j < |chain| ==> fresh(chain[j]) && fresh(chain[j].x)
    {
      hide Mul, ChainValue, Exp, Value, Pow2, Normal, Pow5Cache.Valid;
      b := b0;
      var k, i := k0, 0;
      ghost var target := Mul(b0.Val(), Exp(ChainValue(0), k0));
      while true
        invariant Valid() && Apart(b) && b.Valid() && Normal(b.Words()) && k > 0 && i < |chain|
        invariant Mul(b.Val(), Exp(ChainValue(i), k)) == target
        invariant old(chain) <= chain
        invariant forall j :: |old(chain)| <= j < |chain| ==> fresh(chain[j]) && fresh(chain[j].x)
        decreases k
      {
        ChainStep(b.Val(), i, k);
        b := MultiplyIfOdd(b, i, k);
        k := k / 2;
        if k == 0 {
          return;
        }
        ghost var v := b.Val();
        Extend(i);
        i := i + 1;
        assert b.Val() == v;
      }
    }
  }
}

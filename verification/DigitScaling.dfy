/** Multiplying the numbers of the digit loops by a common factor changes none of their answers. */
module DigitScaling {
  import opened Arith
  import opened DigitSpec
  import opened DigitProofs

  /** The same number and interval, in numbers c times as large. */
  function Scaled(t: Target, c: nat): Target {
    Target(Units(t.b, c), Units(t.S, c), Units(t.lo, c), Units(t.hi, c), t.closed)
  }

  lemma UnitsAssociate(n: nat, s: nat, c: nat)
    ensures Units(n, Units(s, c)) == Units(Units(n, s), c)
  {
    assert n * (s * c) == n * s * c;
  }

  lemma UnitsOrder(x: nat, y: nat, c: nat)
    requires c > 0
    ensures Units(x, c) <= Units(y, c) <==> x <= y
    ensures Units(x, c) == Units(y, c) <==> x == y
  {
    MulLe(x, y, c);
    if y < x {
      MulMonotone(y + 1, x, c);
      assert (y + 1) * c == y * c + c;
    }
    if x < y {
      MulMonotone(x + 1, y, c);
      assert (x + 1) * c == x * c + c;
    }
  }

  lemma UnitsSum(x: nat, y: nat, c: nat)
    ensures Units(x + y, c) == Units(x, c) + Units(y, c)
  {
    assert (x + y) * c == x * c + y * c;
  }

  /** The comparison of x with y + z, scaled. */
  lemma UnitsCompare(x: nat, y: nat, z: nat, c: nat)
    requires c > 0
    ensures Units(x, c) <= Units(y, c) + Units(z, c) <==> x <= y + z
    ensures Units(x, c) < Units(y, c) + Units(z, c) <==> x < y + z
    ensures Units(x, c) == Units(y, c) + Units(z, c) <==> x == y + z
  {
    hide Units;
    UnitsSum(y, z, c);
    UnitsOrder(x, y + z, c);
  }

  lemma RoundsScaled(t: Target, c: nat, N: nat, m: nat)
    requires c > 0
    ensures Scaled(t, c).Rounds(N, m) <==> t.Rounds(N, m)
  {
    hide Units;
    ScaleUnits(t.b, c, m);
    ScaleUnits(t.lo, c, m);
    ScaleUnits(t.hi, c, m);
    UnitsAssociate(N, t.S, c);
    UnitsCompare(Scale(t.b, m), Units(N, t.S), Scale(t.lo, m), c);
    UnitsCompare(Units(N, t.S), Scale(t.b, m), Scale(t.hi, m), c);
  }

  lemma DistScaled(x: nat, y: nat, c: nat)
    requires c > 0
    ensures Dist(Units(x, c), Units(y, c)) == Units(Dist(x, y), c)
  {
    hide Units;
    UnitsOrder(x, y, c);
    if x <= y {
      UnitsSum(x, y - x, c);
    } else {
      UnitsSum(y, x - y, c);
    }
  }

  lemma OffScaled(t: Target, c: nat, N: nat, m: nat)
    requires c > 0
    ensures Scaled(t, c).Off(N, m) == Units(t.Off(N, m), c)
  {
    hide Units, Dist;
    ScaleUnits(t.b, c, m);
    UnitsAssociate(N, t.S, c);
    DistScaled(Units(N, t.S), Scale(t.b, m), c);
  }

  lemma ClosestScaled(t: Target, c: nat, N: nat, m: nat)
    requires c > 0
    ensures Scaled(t, c).Closest(N, m) <==> t.Closest(N, m)
  {
    hide Units, Target.Off, Target.Rounds, Scaled;
    OffScaled(t, c, N, m);
    forall M: nat
      ensures Scaled(t, c).Rounds(M, m) <==> t.Rounds(M, m)
      ensures Scaled(t, c).Off(N, m) <= Scaled(t, c).Off(M, m) <==> t.Off(N, m) <= t.Off(M, m)
    {
      RoundsScaled(t, c, M, m);
      OffScaled(t, c, M, m);
      UnitsOrder(t.Off(N, m), t.Off(M, m), c);
    }
  }

  lemma NoneScaled(t: Target, c: nat, n: nat)
    requires c > 0
    ensures Scaled(t, c).NoneBefore(n) <==> t.NoneBefore(n)
  {
    hide Units, Target.Rounds, Scaled;
    forall m: nat ensures Scaled(t, c).NoneAt(m) <==> t.NoneAt(m) {
      forall N: nat ensures Scaled(t, c).Rounds(N, m) <==> t.Rounds(N, m) {
        RoundsScaled(t, c, N, m);
      }
    }
  }

  lemma QuotientScaled(b: nat, S: nat, c: nat)
    requires S > 0 && c > 0
    ensures Units(S, c) > 0 && Units(b, c) / Units(S, c) == b / S && Units(b, c) % Units(S, c) == Units(b % S, c)
  {
    var q, r := b / S, b % S;
    DivNonneg(b, S);
    assert b == q * S + r;
    MulAtLeast(S, c);
    assert (q * S + r) * c == q * (S * c) + r * c;
    MulMonotone(r + 1, S, c);
    assert (r + 1) * c == r * c + c;
    DivUnique(b * c, S * c, q, r * c);
  }

  lemma NineEdgeScaled(t: Target, c: nat, bare: bool)
    requires c > 0 && t.S > 0
    ensures Scaled(t, c).NineEdge(bare) <==> t.NineEdge(bare)
  {
    hide Units;
    var r := t.b % t.S;
    QuotientScaled(t.b, t.S, c);
    UnitsCompare(t.S, r, t.hi, c);
    UnitsOrder(r, t.lo, c);
    UnitsCompare(t.S, r, r, c);
    UnitsOrder(r, 0, c);
    ZeroTimes(c);
  }

  lemma ZeroTimes(c: nat)
    ensures Units(0, c) == 0
  {
  }

  lemma NearestScaled(N: nat, X: nat, S: nat, c: nat)
    requires c > 0
    ensures NearestInt(N, Units(X, c), Units(S, c)) <==> NearestInt(N, X, S)
  {
    hide Units, Dist, Even;
    UnitsAssociate(N, S, c);
    DistScaled(Units(N, S), X, c);
    var d := Dist(Units(N, S), X);
    UnitsCompare(S, d, d, c);
  }

  /** The shortest-digit loop may be given any common multiple of its numbers. */
  lemma ResultScaled(out: Output, t: Target, bare: bool, ilim: int, c: nat)
    requires c > 0 && t.S > 0
    ensures ShortestResult(out, Scaled(t, c), bare, ilim, []) <==> ShortestResult(out, t, bare, ilim, [])
  {
    hide Units, Scaled, Target.NineEdge, Target.Closest, Target.Rounds, Target.NoneBefore, NearestInt, Even;
    NineEdgeScaled(t, c, bare);
    if ilim > 0 {
      NoneScaled(t, c, ilim);
      ScaledFields(t, c);
      ScaleUnits(t.b, c, ilim - 1);
      if |out.digits| <= ilim {
        NearestScaled(ScaledInt(out, ilim), Scale(t.b, ilim - 1), t.S, c);
      }
    }
    if out.digits != [] {
      var n := |out.digits|;
      RoundsScaled(t, c, ScaledInt(out, n), n - 1);
      NoneScaled(t, c, n - 1);
      ClosestScaled(t, c, ScaledInt(out, n), n - 1);
    }
  }

  lemma ScaledFields(t: Target, c: nat)
    ensures Scaled(t, c).b == Units(t.b, c) && Scaled(t, c).S == Units(t.S, c)
  {
  }
}

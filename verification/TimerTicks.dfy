/** Wall-clock times and wheel ticks.

    A wheel is driven by `struct timeval` times but indexes its slots by tick
    numbers.  This module models the two conversions and characterises the
    resolutions for which advancing the clock by one resolution advances the
    tick number by exactly one, which everything else about the wheel needs. */
module TimerTicks {
  import opened Arith

  const USEC_PER_SEC: nat := 1000000

  datatype Timeval = Timeval(sec: nat, usec: nat) {

    predicate Normal() {
      usec < USEC_PER_SEC
    }

    /** The time as a single number of microseconds. */
    function Usec(): nat {
      sec * USEC_PER_SEC + usec
    }

    /** `timercmp(this, that, <)` */
    predicate Before(that: Timeval) {
      sec < that.sec || (sec == that.sec && usec < that.usec)
    }
  }

  /** `timeradd` */
  function TimerAdd(a: Timeval, b: Timeval): Timeval {
    if a.usec + b.usec >= USEC_PER_SEC then
      Timeval(a.sec + b.sec + 1, a.usec + b.usec - USEC_PER_SEC)
    else
      Timeval(a.sec + b.sec, a.usec + b.usec)
  }

  /** One tick of `res` milliseconds as a timeval. */
  function ResInterval(res: nat): Timeval {
    Timeval(res / 1000, (res - res / 1000 * 1000) * 1000)
  }

  /** `tval_add_res` */
  function AddRes(res: nat, tv: Timeval): Timeval {
    TimerAdd(ResInterval(res), tv)
  }

  /** `tval_to_tick` */
  function ToTick(res: nat, tv: Timeval): nat
    requires res > 0
  {
    DivNonneg(tv.sec * 1000, res);
    DivNonneg(tv.usec, res * 1000);
    tv.sec * 1000 / res + tv.usec / (res * 1000)
  }

  /** Resolutions that divide a second evenly, or are whole seconds. */
  predicate Uniform(res: nat)
    requires res > 0
  {
    1000 % res == 0 || res % 1000 == 0
  }

  // ----- times

  /** Adding one resolution keeps times normal and adds exactly `res` milliseconds. */
  lemma AddResExact(res: nat, tv: Timeval)
    requires tv.Normal()
    ensures AddRes(res, tv).Normal()
    ensures AddRes(res, tv).Usec() == tv.Usec() + res * 1000
  {
  }

  lemma BeforeIsLess(a: Timeval, b: Timeval)
    requires a.Normal() && b.Normal()
    ensures a.Before(b) <==> a.Usec() < b.Usec()
  {
  }

  /** For a uniform resolution a tick number is the time divided by the tick length. */
  lemma ToTickIsQuotient(res: nat, tv: Timeval)
    requires res > 0 && Uniform(res) && tv.Normal()
    ensures ToTick(res, tv) == tv.Usec() / (res * 1000)
  {
    var d := res * 1000;
    if 1000 % res == 0 {
      var q := 1000 / res;
      assert 1000 == q * res;
      assert tv.sec * 1000 == (tv.sec * q) * res + 0;
      DivUnique(tv.sec * 1000, res, tv.sec * q, 0);
      assert tv.sec * USEC_PER_SEC == (tv.sec * q) * d by {
        assert USEC_PER_SEC == q * d;
        assert tv.sec * (q * d) == (tv.sec * q) * d;
      }
      DivAddMultiple(tv.sec * q, tv.usec, d);
    } else {
      var m := res / 1000;
      assert res == m * 1000 && m > 0;
      var q, r := tv.sec / m, tv.sec % m;
      assert tv.sec == q * m + r;
      assert tv.sec * 1000 == q * res + r * 1000 by { assert q * res == q * m * 1000; }
      DivUnique(tv.sec * 1000, res, q, r * 1000);
      assert tv.usec / d == 0 by { DivUnique(tv.usec, d, 0, tv.usec); }
      assert tv.Usec() == q * d + (r * USEC_PER_SEC + tv.usec) by {
        assert q * d == q * m * USEC_PER_SEC;
      }
      DivUnique(tv.Usec(), d, q, r * USEC_PER_SEC + tv.usec);
    }
  }

  /** Later times have no smaller tick numbers, whatever the resolution. */
  lemma ToTickMonotone(res: nat, a: Timeval, b: Timeval)
    requires res > 0 && a.Normal() && b.Normal() && !b.Before(a)
    ensures ToTick(res, a) <= ToTick(res, b)
  {
    if a.sec == b.sec {
      DivMonotone(a.usec, b.usec, res * 1000);
    } else {
      SecondsOrdered(res, a.sec * 1000, a.usec, b.sec * 1000);
      DivNonneg(b.usec, res * 1000);
    }
  }

  lemma SecondsOrdered(res: nat, x: nat, usec: nat, y: nat)
    requires res > 0 && usec < USEC_PER_SEC && x + 1000 <= y
    ensures x / res + usec / (res * 1000) <= y / res
  {
    var q, u := x / res, usec / (res * 1000);
    DivNonneg(x, res);
    DivNonneg(usec, res * 1000);
    DivFloor(x, res, q);
    DivFloor(usec, res * 1000, u);
    Thousands(u, res);
    Distribute(q, u, res);
    DivAtLeast(y, res, q + u);
  }

  lemma Thousands(u: nat, res: nat)
    ensures u * (res * 1000) == u * res * 1000
  {
  }

  lemma Distribute(q: nat, u: nat, res: nat)
    ensures (q + u) * res == q * res + u * res
  {
  }

  lemma DivFloor(x: nat, d: nat, q: nat)
    requires d > 0 && q == x / d
    ensures q * d <= x
  {
    assert x == x / d * d + x % d;
  }

  lemma DivAtLeast(x: nat, d: nat, q: nat)
    requires d > 0 && q * d <= x
    ensures q <= x / d
  {
    DivMonotone(q * d, x, d);
    DivUnique(q * d, d, q, 0);
  }

  lemma AddResAdvances(res: nat, tv: Timeval)
    requires res > 0 && Uniform(res) && tv.Normal()
    ensures ToTick(res, AddRes(res, tv)) == ToTick(res, tv) + 1
  {
    AddResExact(res, tv);
    ToTickIsQuotient(res, tv);
    ToTickIsQuotient(res, AddRes(res, tv));
    DivAddMultiple(1, tv.Usec(), res * 1000);
  }

  /** A time at which the wheel's clock advances but its tick number does not. */
  function StuckTime(res: nat): Timeval
    requires res > 0
  {
    Timeval(0, if res < 1000 then 1000 / res * res * 1000 else 0)
  }

  lemma StuckTimeIsStuck(res: nat)
    requires res > 0 && !Uniform(res)
    ensures StuckTime(res).Normal()
    ensures ToTick(res, AddRes(res, StuckTime(res))) == ToTick(res, StuckTime(res))
  {
    var tv := StuckTime(res);
    if res < 1000 {
      var q, r := 1000 / res, 1000 % res;
      assert 1000 == q * res + r && 0 < r < res;
      assert tv == Timeval(0, q * res * 1000);
      assert AddRes(res, tv) == Timeval(1, (res - r) * 1000);
      assert q * res * 1000 == q * (res * 1000);
      DivUnique(q * res * 1000, res * 1000, q, 0);
      DivUnique((res - r) * 1000, res * 1000, 0, (res - r) * 1000);
    } else {
      var a, b := res / 1000, res % 1000;
      assert AddRes(res, tv) == Timeval(a, b * 1000);
      DivUnique(a * 1000, res, 0, a * 1000);
      DivUnique(b * 1000, res * 1000, 0, b * 1000);
    }
  }

  /** Every clock step is exactly one tick precisely for the uniform resolutions. */
  lemma StepsAreTicksIffUniform(res: nat)
    requires res > 0
    ensures (forall tv: Timeval :: tv.Normal() ==> ToTick(res, AddRes(res, tv)) == ToTick(res, tv) + 1)
            <==> Uniform(res)
  {
    if Uniform(res) {
      forall tv: Timeval | tv.Normal() ensures ToTick(res, AddRes(res, tv)) == ToTick(res, tv) + 1 {
        AddResAdvances(res, tv);
      }
    } else {
      StuckTimeIsStuck(res);
      assert StuckTime(res).Normal();
    }
  }
}

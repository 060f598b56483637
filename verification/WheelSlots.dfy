/** Where a timer is filed: the slot arithmetic of the four-level wheel.

    Level `l` has 256 slots and its slots are visited every `256^l` ticks: at
    tick `v` the wheel empties slot `v / 256^l % 256` of each level `l` whose
    span divides `v`.  The key notion is `Timely`: the next visit of the slot a
    timer is filed in comes no later than the timer's due tick, and for level 0
    comes exactly at it. */
module WheelSlots {
  import opened Arith

  const WHEEL_SIZE: nat := 256
  const MAX_DIFF: nat := 0xffff_ffff

  datatype Slot = Slot(level: nat, index: nat)

  predicate InWheel(s: Slot) {
    s.level < 4 && s.index < WHEEL_SIZE
  }

  /** Ticks between two consecutive visits to slots of this level. */
  function Span(level: nat): (span: nat)
    requires level < 4
    ensures span > 0
  {
    if level == 0 then 1 else if level == 1 then 256 else if level == 2 then 65536 else 16777216
  }

  /** The list `compute_list` picks for tick `due` when the next tick to run is `now`. */
  function ComputeList(now: nat, due: nat): Slot
    requires now <= due
  {
    var diff := due - now;
    if diff < 256 then
      Slot(0, due % 256)
    else if diff < 65536 then
      Slot(1, due / 256 % 256)
    else if diff < 16777216 then
      Slot(2, due / 65536 % 256)
    else
      var due' := if diff > MAX_DIFF then MAX_DIFF + now else due;
      Slot(3, due' / 16777216 % 256)
  }

  /** Does the tick numbered `now` empty slot `s`? */
  predicate Visited(s: Slot, now: nat)
    requires InWheel(s)
  {
    now % Span(s.level) == 0 && now / Span(s.level) % WHEEL_SIZE == s.index
  }

  function CeilDiv(x: nat, d: nat): nat
    requires d > 0
  {
    (x + d - 1) / d
  }

  /** The first number at or after `c` that is `index` modulo the wheel size. */
  function NextTurn(c: nat, index: nat): nat
    requires index < WHEEL_SIZE
  {
    c + (index + WHEEL_SIZE - c % WHEEL_SIZE) % WHEEL_SIZE
  }

  /** The first tick at or after `now` that empties slot `s`. */
  function NextVisit(s: Slot, now: nat): nat
    requires InWheel(s)
  {
    NextTurn(CeilDiv(now, Span(s.level)), s.index) * Span(s.level)
  }

  predicate Timely(s: Slot, now: nat, due: nat)
    requires InWheel(s)
  {
    && now <= due
    && (if s.level == 0 then NextVisit(s, now) == due else NextVisit(s, now) <= due)
  }

  // ----- the two ingredients of NextVisit

  lemma CeilDivBounds(x: nat, d: nat)
    requires d > 0
    ensures CeilDiv(x, d) * d - d < x <= CeilDiv(x, d) * d
  {
    var y := x + d - 1;
    assert y == y / d * d + y % d;
  }

  lemma CeilDivLeast(x: nat, d: nat, q: nat)
    requires d > 0 && x <= q * d
    ensures CeilDiv(x, d) <= q
  {
    CeilDivBounds(x, d);
    var c := CeilDiv(x, d);
    if c > q {
      assert (c - q) * d == c * d - q * d;
      assert (c - 1 - q) * d == (c - q) * d - d;
      MulNonneg(c - 1 - q, d);
    }
  }

  lemma NextTurnIsFirst(c: nat, index: nat)
    requires index < WHEEL_SIZE
    ensures c <= NextTurn(c, index) < c + WHEEL_SIZE && NextTurn(c, index) % WHEEL_SIZE == index
    ensures forall q: nat :: c <= q && q % WHEEL_SIZE == index ==> NextTurn(c, index) <= q
  {
  }

  // ----- NextVisit

  lemma VisitedIsMultiple(s: Slot, v: nat, q: nat)
    requires InWheel(s) && v == q * Span(s.level)
    ensures Visited(s, v) <==> q % WHEEL_SIZE == s.index
  {
    DivUnique(v, Span(s.level), q, 0);
  }

  lemma NotAfterVisit(s: Slot, now: nat, v: nat)
    requires InWheel(s) && now <= v && Visited(s, v)
    ensures NextVisit(s, now) <= v
  {
    var d, q := Span(s.level), v / Span(s.level);
    assert v == q * d;
    CeilDivLeast(now, d, q);
    NextTurnIsFirst(CeilDiv(now, d), s.index);
    MulMonotone(NextTurn(CeilDiv(now, d), s.index), q, d);
  }

  /** `NextVisit` is what its name says: a visit, not before `now`, and the first one. */
  lemma NextVisitIsFirst(s: Slot, now: nat)
    requires InWheel(s)
    ensures now <= NextVisit(s, now) && Visited(s, NextVisit(s, now))
    ensures forall v: nat :: now <= v && Visited(s, v) ==> NextVisit(s, now) <= v
  {
    var d := Span(s.level);
    var c := CeilDiv(now, d);
    var n := NextTurn(c, s.index);
    NextTurnIsFirst(c, s.index);
    CeilDivBounds(now, d);
    MulMonotone(c, n, d);
    VisitedIsMultiple(s, n * d, n);
    forall v: nat | now <= v && Visited(s, v) ensures n * d <= v {
      NotAfterVisit(s, now, v);
    }
  }

  /** Unless the current tick visits it, a slot's next visit does not depend on the tick passing. */
  lemma NextVisitStable(s: Slot, now: nat)
    requires InWheel(s)
    ensures Visited(s, now) <==> NextVisit(s, now) == now
    ensures !Visited(s, now) ==> NextVisit(s, now + 1) == NextVisit(s, now)
  {
    NextVisitIsFirst(s, now);
    NextVisitIsFirst(s, now + 1);
  }

  /** Any visit between `now` and `due` makes the slot of an upper level timely. */
  lemma VisitBetween(s: Slot, now: nat, due: nat, v: nat)
    requires InWheel(s) && now <= v <= due && Visited(s, v)
    ensures NextVisit(s, now) <= due
  {
    NextVisitIsFirst(s, now);
  }

  lemma Level0Exact(now: nat, due: nat)
    requires now <= due < now + 256
    ensures NextVisit(Slot(0, due % 256), now) == due
  {
    var s := Slot(0, due % 256);
    VisitedIsMultiple(s, due, due);
    NextVisitIsFirst(s, now);
    VisitedIsMultiple(s, NextVisit(s, now), NextVisit(s, now));
  }

  lemma QuotientBetween(p: nat, d: nat, t: nat)
    requires d > 0 && p * d + d <= t < p * d + WHEEL_SIZE * d
    ensures p < t / d < p + WHEEL_SIZE
  {
    var q := t / d;
    assert t == q * d + t % d;
    assert (p + WHEEL_SIZE) * d == p * d + WHEEL_SIZE * d;
    MulLe(q, p, d);
    MulLe(p + WHEEL_SIZE, q, d);
  }

  /** Above level 0, a slot a full span but less than a full turn ahead has its next
      visit after `now` and no later than the target tick. */
  lemma UpperTimely(level: nat, now: nat, target: nat)
    requires 1 <= level < 4
    requires now + Span(level) <= target < now + WHEEL_SIZE * Span(level)
    ensures var s := Slot(level, target / Span(level) % WHEEL_SIZE);
            NextVisit(s, now) <= target && !Visited(s, now)
  {
    var d := Span(level);
    var q := target / d;
    var s := Slot(level, q % WHEEL_SIZE);
    assert target == q * d + target % d;
    VisitedIsMultiple(s, q * d, q);
    assert now <= q * d by { assert target % d < d; }
    VisitBetween(s, now, target, q * d);
    NotVisitedNow(s, now, target);
  }

  lemma NotVisitedNow(s: Slot, now: nat, target: nat)
    requires InWheel(s) && s.index == target / Span(s.level) % WHEEL_SIZE
    requires now + Span(s.level) <= target < now + WHEEL_SIZE * Span(s.level)
    ensures !Visited(s, now)
  {
    var d := Span(s.level);
    if now % d == 0 {
      assert now == now / d * d;
      QuotientBetween(now / d, d, target);
      SameTurn(now / d, target / d);
    }
  }

  lemma SameTurn(p: nat, q: nat)
    requires p < q < p + WHEEL_SIZE
    ensures p % WHEEL_SIZE != q % WHEEL_SIZE
  {
  }

  /** The computed slot is timely, and above level 0 never one that the current tick empties. */
  lemma ComputeListTimely(now: nat, due: nat)
    requires now <= due
    ensures InWheel(ComputeList(now, due))
    ensures Timely(ComputeList(now, due), now, due)
    ensures ComputeList(now, due).level > 0 ==> !Visited(ComputeList(now, due), now)
  {
    var diff := due - now;
    if diff < 256 {
      Level0Exact(now, due);
    } else if diff < 65536 {
      UpperTimely(1, now, due);
    } else if diff < 16777216 {
      UpperTimely(2, now, due);
    } else {
      UpperTimely(3, now, if diff > MAX_DIFF then MAX_DIFF + now else due);
    }
  }

  /** Letting tick `now` pass keeps a timer timely unless that tick empties its slot. */
  lemma TimelyAfterTick(s: Slot, now: nat, due: nat)
    requires InWheel(s) && Timely(s, now, due) && !Visited(s, now)
    ensures Timely(s, now + 1, due)
  {
    NextVisitStable(s, now);
    NextVisitIsFirst(s, now);
  }

  /** A timely level 0 timer is in the slot emptied by tick `now` exactly when it is due then. */
  lemma Level0VisitIsDue(s: Slot, now: nat, due: nat)
    requires InWheel(s) && s.level == 0 && Timely(s, now, due)
    ensures Visited(s, now) <==> due == now
  {
    NextVisitStable(s, now);
  }
}

/** Every wheel operation keeps the invariant `Inv`, and a tick claims exactly
    the timers that are due. */
module WheelInvariant {
  import opened Arith
  import opened Options
  import opened TimerTicks
  import opened WheelSlots
  import opened WheelModel

  // ----- primitives

  lemma UnlinkKeeps(st: State, id: Id)
    requires Sane(st) && Linked(st) && id in st.timers && id !in st.held
    ensures Sane(Unlink(st, id)) && Linked(Unlink(st, id))
  {
    if st.timers[id].list.Some? {
      var s := st.timers[id].list.value;
      WithoutMembers(st.List(s), id);
      var st' := Unlink(st, id);
      assert st'.List(s) == Without(st.List(s), id);
      assert forall s' :: s' != s ==> st'.List(s') == st.List(s');
      assert forall s', x :: st'.IsIn(x, s') <==> st.IsIn(x, s') && x != id;
    }
  }

  lemma LinkKeeps(st: State, id: Id, s: Slot)
    requires Sane(st) && Linked(st) && id in st.timers && st.timers[id].list == None && InWheel(s)
    ensures Sane(Link(st, id, s)) && Linked(Link(st, id, s))
  {
    assert id !in st.List(s);
    var st' := Link(st, id, s);
    assert st'.List(s) == [id] + st.List(s);
    assert forall s' :: s' != s ==> st'.List(s') == st.List(s');
    assert forall s', x :: st'.IsIn(x, s') <==> if x == id then s' == s else st.IsIn(x, s');
    assert id !in st.held;
    assert NoDup(st'.List(s));
    forall s', x ensures x in st'.List(s') <==> st'.IsIn(x, s') && x !in st'.held {
      assert x in st.List(s') <==> st.IsIn(x, s') && x !in st.held;
    }
  }

  lemma DropKeeps(st: State, k: nat)
    requires Sane(st) && Linked(st) && k < |st.held|
    ensures Sane(Drop(st, k)) && Linked(Drop(st, k))
    ensures forall x :: x in Drop(st, k).held <==> x in st.held && x != st.held[k]
  {
    var st' := Drop(st, k);
    assert forall x :: x in st'.held <==> x in st.held && x != st.held[k];
    assert forall s :: st'.List(s) == st.List(s);
    assert forall s, x :: st'.IsIn(x, s) <==> st.IsIn(x, s) && x != st.held[k];
  }

  lemma StealKeeps(st: State, s: Slot)
    requires Sane(st) && Linked(st) && st.held == []
    ensures Sane(Steal(st, s)) && Linked(Steal(st, s))
    ensures forall x :: x in Steal(st, s).held <==> st.IsIn(x, s)
  {
    var st' := Steal(st, s);
    assert forall s' :: st'.List(s') == if s' == s then [] else st.List(s');
    assert forall s', x :: st'.IsIn(x, s') <==> st.IsIn(x, s');
  }

  /** Changing only a timer's state or due time does not disturb the lists. */
  lemma SetTimerKeeps(st: State, id: Id, t: Timer)
    requires Sane(st) && Linked(st) && id in st.timers
    requires t.list == st.timers[id].list && t.due.Normal()
    ensures Sane(SetTimer(st, id, t)) && Linked(SetTimer(st, id, t))
  {
    var st' := SetTimer(st, id, t);
    assert forall s, x :: st'.IsIn(x, s) <==> st.IsIn(x, s);
    assert forall s :: st'.List(s) == st.List(s);
  }

  // ----- enable, disable, remove

  /** Enabling a timer that has just been filed on time restores the invariant. */
  lemma MarkEnabledKeeps(st: State, st1: State, id: Id)
    requires Inv(st) && Sane(st1) && Linked(st1) && id in st.timers && id !in st.held
    requires st1.res == st.res && st1.nextRun == st.nextRun && st1.held == st.held
    requires st1.timers.Keys == st.timers.Keys
    requires forall x :: x in st.timers && x != id ==> st1.timers[x] == st.timers[x]
    requires st1.timers[id].list.Some? && Timely(st1.timers[id].list.value, st1.Now(), st1.DueTick(id))
    ensures Inv(Mark(st1, id, Enabled))
  {
    SetTimerKeeps(st1, id, st1.timers[id].(state := Enabled));
    var st' := Mark(st1, id, Enabled);
    forall x | x in st'.timers ensures Seen(st'.timers[x], x in st'.held, st'.Now(), st'.res) {
      assert Seen(st.timers[x], x in st.held, st.Now(), st.res);
    }
  }

  lemma EnableKeeps(st: State, id: Id)
    requires Inv(st) && id in st.timers
    ensures Inv(EnableTimer(st, id).0)
  {
    if st.timers[id].state == Disabled {
      var st0 := Mark(st, id, Locked);
      SetTimerKeeps(st, id, st0.timers[id]);
      ClampOrders(st0, id);
      var st1 := ClampDue(st0, id);
      var s := SlotFor(st1, id);
      ComputeListTimely(st1.Now(), st1.DueTick(id));
      SetTimerKeeps(st0, id, st1.timers[id]);
      if st1.timers[id].list == Some(s) {
        MarkEnabledKeeps(st, st1, id);
      } else {
        UnlinkKeeps(st1, id);
        LinkKeeps(Unlink(st1, id), id, s);
        MarkEnabledKeeps(st, Link(Unlink(st1, id), id, s), id);
      }
    }
  }

  lemma DisableKeeps(st: State, id: Id)
    requires Inv(st) && id in st.timers
    ensures Inv(DisableTimer(st, id).0)
  {
    if st.timers[id].state != Locked {
      SetTimerKeeps(st, id, st.timers[id].(state := Disabled));
    }
  }

  lemma RemoveKeeps(st: State, id: Id)
    requires Inv(st) && id in st.timers
    ensures Inv(RemoveTimer(st, id).0)
  {
    DisableKeeps(st, id);
    var st1 := DisableTimer(st, id).0;
    if st.timers[id].state != Locked {
      UnlinkKeeps(st1, id);
    }
  }

  // ----- what the three operations do, for a caller

  function Later(a: nat, b: nat): nat {
    if a < b then b else a
  }

  /** Nothing but the timer and the lists it is on has changed. */
  ghost predicate OnlyTimer(st: State, id: Id, st': State) {
    && st'.res == st.res && st'.nextRun == st.nextRun && st'.held == st.held
    && st'.timers.Keys == st.timers.Keys
    && (forall x :: x in st.timers && x != id ==> st'.timers[x] == st.timers[x])
    && (forall s, x :: x != id ==> (x in st'.List(s) <==> x in st.List(s)))
  }

  /** The lists that hold a timer: the one it names, or none. */
  ghost predicate ListedIn(st: State, id: Id, list: Option<Slot>) {
    forall s :: id in st.List(s) <==> list == Some(s)
  }

  /** Enabling works exactly for a disabled timer.  It is then due at the tick of the time the
      caller set, or at once if that has passed, and is on one list. */
  ghost predicate Enabling(st: State, id: Id, st': State, r: Result)
    requires Sane(st) && Sane(st') && id in st.timers
  {
    if st.timers[id].state != Disabled then r == Busy && st' == st
    else
      && r == Ok && OnlyTimer(st, id, st') && st'.Is(id, Enabled)
      && st'.DueTick(id) == Later(st.DueTick(id), st.Now())
      && st'.timers[id].list.Some? && ListedIn(st', id, st'.timers[id].list)
  }

  /** Disabling works exactly for a timer that is not locked, and leaves it where it is. */
  ghost predicate Disabling(st: State, id: Id, st': State, r: Result)
    requires id in st.timers
  {
    if st.timers[id].state == Locked then r == Busy && st' == st
    else
      && r == Ok && OnlyTimer(st, id, st') && st'.Is(id, Disabled)
      && st'.timers[id].due == st.timers[id].due && st'.timers[id].list == st.timers[id].list
      && forall s :: st'.List(s) == st.List(s)
  }

  /** Removing works exactly for a timer that is on a list and not locked, and takes it off. */
  ghost predicate Removing(st: State, id: Id, st': State, r: Result)
    requires id in st.timers
  {
    if st.timers[id].list.None? then r == NoEnt && st' == st
    else if st.timers[id].state == Locked then r == Busy && st' == st
    else
      && r == Ok && OnlyTimer(st, id, st') && st'.Is(id, Disabled)
      && st'.timers[id].due == st.timers[id].due && st'.timers[id].list == None && ListedIn(st', id, None)
  }

  lemma OnlyTimerChanged(st: State, id: Id, st': State)
    requires Linked(st) && Linked(st') && id in st.timers && id in st'.timers
    requires st'.res == st.res && st'.nextRun == st.nextRun && st'.held == st.held
    requires st'.timers == st.timers[id := st'.timers[id]]
    ensures OnlyTimer(st, id, st')
    ensures id !in st'.held ==> ListedIn(st', id, st'.timers[id].list)
  {
    forall s, x | x != id ensures x in st'.List(s) <==> x in st.List(s) {
      assert st'.IsIn(x, s) <==> st.IsIn(x, s);
    }
    if id !in st'.held {
      forall s ensures id in st'.List(s) <==> st'.timers[id].list == Some(s) {
        assert st'.IsIn(id, s) <==> st'.timers[id].list == Some(s);
      }
    }
  }

  lemma EnableIsEnabling(st: State, id: Id)
    requires Inv(st) && id in st.timers
    ensures Inv(EnableTimer(st, id).0) && Enabling(st, id, EnableTimer(st, id).0, EnableTimer(st, id).1)
  {
    hide OnlyTimer, ListedIn, OnTime, ComputeList;
    EnableKeeps(st, id);
    if st.timers[id].state == Disabled {
      ClampOrders(Mark(st, id, Locked), id);
      OnlyTimerChanged(st, id, EnableTimer(st, id).0);
    }
  }

  lemma DisableIsDisabling(st: State, id: Id)
    requires Inv(st) && id in st.timers
    ensures Inv(DisableTimer(st, id).0) && Disabling(st, id, DisableTimer(st, id).0, DisableTimer(st, id).1)
  {
    DisableKeeps(st, id);
    if st.timers[id].state != Locked {
      OnlyTimerChanged(st, id, DisableTimer(st, id).0);
    }
  }

  lemma RemoveIsRemoving(st: State, id: Id)
    requires Inv(st) && id in st.timers
    ensures Inv(RemoveTimer(st, id).0) && Removing(st, id, RemoveTimer(st, id).0, RemoveTimer(st, id).1)
  {
    hide OnlyTimer, ListedIn, OnTime;
    RemoveKeeps(st, id);
    if st.timers[id].state != Locked {
      OnlyTimerChanged(st, id, RemoveTimer(st, id).0);
    }
  }

  // ----- cascading

  /** What a cascade leaves alone: the clock, who exists, every timer's state, and the
      tick at which it is due. */
  ghost predicate SameSchedule(st: State, st': State)
    requires Sane(st) && Sane(st')
  {
    && st'.res == st.res && st'.nextRun == st.nextRun && st'.timers.Keys == st.timers.Keys
    && forall x :: x in st.timers ==>
         st'.timers[x].state == st.timers[x].state && st'.DueTick(x) == st.DueTick(x)
  }

  /** The timer is not filed in a slot of levels 1 to `level` that tick `now` empties. */
  ghost predicate Passed(t: Timer, held: bool, now: nat, level: nat) {
    t.state == Enabled && !held && t.list.Some? && InWheel(t.list.value) ==>
      1 <= t.list.value.level <= level ==> !Visited(t.list.value, now)
  }

  ghost predicate Clear(st: State, level: nat)
    requires st.res > 0
  {
    forall x :: x in st.timers ==> Passed(st.timers[x], x in st.held, st.Now(), level)
  }

  ghost predicate Cascading(st: State, level: nat) {
    Sane(st) && Linked(st) && OnTime(st) && Clear(st, level) && forall x :: st.Is(x, Locked) ==> st.timers[x].list == None
  }

  /** How re-filing one timer changes that timer. */
  ghost predicate Refiled(now: nat, t: Timer, t': Timer, res: nat)
    requires res > 0
  {
    && t'.state == t.state && t'.due.Normal()
    && (t.state == Disabled ==> t'.list == None && t'.due == t.due)
    && (t.state == Enabled ==>
          && ToTick(res, t'.due) == ToTick(res, t.due)
          && t'.list.Some? && InWheel(t'.list.value)
          && Timely(t'.list.value, now, ToTick(res, t'.due))
          && (t'.list.value.level > 0 ==> !Visited(t'.list.value, now)))
  }

  lemma RefileFirstShape(st: State)
    requires Sane(st) && Linked(st) && OnTime(st) && st.held != []
    ensures var st', id := RefileFirst(st), st.held[0];
            && Sane(st') && Linked(st') && st'.held == st.held[1..]
            && st'.res == st.res && st'.nextRun == st.nextRun
            && st'.timers.Keys == st.timers.Keys
            && (forall x :: x in st.timers && x != id ==> st'.timers[x] == st.timers[x])
            && Refiled(st.Now(), st.timers[id], st'.timers[id], st.res)
  {
    var id := st.held[0];
    var st1 := Drop(st, 0);
    DropKeeps(st, 0);
    assert st1.held == st.held[1..];
    if st.timers[id].state != Disabled {
      ClampOrders(st1, id);
      var st2 := ClampDue(st1, id);
      SetTimerKeeps(st1, id, st2.timers[id]);
      ComputeListTimely(st2.Now(), st2.DueTick(id));
      LinkKeeps(st2, id, SlotFor(st2, id));
    }
  }

  lemma RefileFirstKeeps(st: State, level: nat)
    requires Cascading(st, level) && st.held != []
    ensures var st' := RefileFirst(st);
            Cascading(st', level) && st'.held == st.held[1..] && SameSchedule(st, st')
  {
    RefileFirstShape(st);
    var st' := RefileFirst(st);
    var id := st.held[0];
    assert st.held == [id] + st'.held;
    forall x | x in st.timers
      ensures Seen(st'.timers[x], x in st'.held, st.Now(), st.res)
      ensures Passed(st'.timers[x], x in st'.held, st.Now(), level)
      ensures st'.DueTick(x) == st.DueTick(x)
    {
      assert Seen(st.timers[x], x in st.held, st.Now(), st.res);
      assert Passed(st.timers[x], x in st.held, st.Now(), level);
      assert x != id ==> (x in st'.held <==> x in st.held) && st'.timers[x] == st.timers[x];
    }
  }

  /** The loop of `cascade_timer`. */
  ghost function RefileAll(st: State): State
    requires Cascading(st, 0)
    decreases |st.held|
  {
    if st.held == [] then st
    else
      RefileFirstKeeps(st, 0);
      RefileAll(RefileFirst(st))
  }

  lemma {:induction false} RefileAllKeeps(st: State, level: nat)
    requires Cascading(st, 0) && Cascading(st, level)
    ensures var st' := RefileAll(st);
            Cascading(st', level) && st'.held == [] && SameSchedule(st, st')
    decreases |st.held|
  {
    if st.held != [] {
      RefileFirstKeeps(st, 0);
      RefileFirstKeeps(st, level);
      RefileAllKeeps(RefileFirst(st), level);
    }
  }

  /** A state in which a tick may start. */
  ghost predicate Settled(st: State) {
    Inv(st) && st.held == []
  }

  lemma StealStartsCascade(st: State, s: Slot)
    requires Settled(st) && InWheel(s) && s.level >= 1 && Clear(st, s.level - 1)
    ensures Cascading(Steal(st, s), 0)
    ensures Visited(s, st.Now()) ==> Cascading(Steal(st, s), s.level)
  {
    StealKeeps(st, s);
    var st' := Steal(st, s);
    forall x | x in st'.timers && Visited(s, st.Now())
      ensures Passed(st'.timers[x], x in st'.held, st'.Now(), s.level)
    {
      assert Passed(st.timers[x], false, st.Now(), s.level - 1);
    }
  }

  /** `cascade_timer` on slot `s`. */
  ghost function Cascade(st: State, s: Slot): State
    requires Settled(st) && InWheel(s) && s.level >= 1
  {
    StealStartsCascade1(st, s);
    RefileAll(Steal(st, s))
  }

  lemma StealStartsCascade1(st: State, s: Slot)
    requires Settled(st) && InWheel(s) && s.level >= 1
    ensures Cascading(Steal(st, s), 0)
  {
    StealKeeps(st, s);
  }

  lemma CascadeKeeps(st: State, s: Slot)
    requires Settled(st) && InWheel(s) && s.level >= 1
    requires Visited(s, st.Now()) && Clear(st, s.level - 1)
    ensures Settled(Cascade(st, s)) && Clear(Cascade(st, s), s.level) && SameSchedule(st, Cascade(st, s))
  {
    StealStartsCascade(st, s);
    RefileAllKeeps(Steal(st, s), s.level);
  }

  /** The cascades at the head of a tick. */
  ghost function TickCascades(st: State): State
    requires Settled(st)
  {
    var n := st.Now();
    if n % 256 != 0 then st
    else
      var i1 := n / 256 % 256;
      ClearZero(st);
      Visits(n);
      CascadeKeeps(st, Slot(1, i1));
      var st1 := Cascade(st, Slot(1, i1));
      if i1 != 0 then st1
      else
        var i2 := n / 65536 % 256;
        CascadeKeeps(st1, Slot(2, i2));
        var st2 := Cascade(st1, Slot(2, i2));
        if i2 != 0 then st2
        else
          CascadeKeeps(st2, Slot(3, n / 16777216 % 256));
          Cascade(st2, Slot(3, n / 16777216 % 256))
  }

  lemma ClearZero(st: State)
    requires Sane(st)
    ensures Clear(st, 0)
  {
  }

  /** Which upper slots a tick empties, as the nested tests of the tick see it. */
  lemma Visits(n: nat)
    ensures n % 256 == 0 ==> Visited(Slot(1, n / 256 % 256), n)
    ensures n % 256 == 0 && n / 256 % 256 == 0 ==> Visited(Slot(2, n / 65536 % 256), n)
    ensures n % 256 == 0 && n / 256 % 256 == 0 && n / 65536 % 256 == 0 ==> Visited(Slot(3, n / 16777216 % 256), n)
  {
    var a := n / 256;
    if n % 256 == 0 && a % 256 == 0 {
      var b := a / 256;
      assert n == b * 65536 + 0;
      DivUnique(n, 65536, b, 0);
      if b % 256 == 0 {
        assert n == b / 256 * 16777216 + 0;
        DivUnique(n, 16777216, b / 256, 0);
      }
    }
  }

  lemma NoVisits(n: nat, s: Slot)
    requires InWheel(s) && Visited(s, n)
    ensures s.level >= 1 ==> n % 256 == 0
    ensures s.level >= 2 ==> n / 256 % 256 == 0
    ensures s.level >= 3 ==> n / 65536 % 256 == 0
  {
    if s.level == 2 {
      var b := n / 65536;
      assert n == b * 256 * 256 + 0;
      DivUnique(n, 256, b * 256, 0);
    } else if s.level == 3 {
      var c := n / 16777216;
      assert n == c * 256 * 65536 + 0 && n == c * 65536 * 256 + 0;
      DivUnique(n, 65536, c * 256, 0);
      DivUnique(n, 256, c * 65536, 0);
    }
  }

  lemma ClearMore(st: State, level: nat)
    requires Sane(st) && Clear(st, level) && level < 4
    requires forall s :: InWheel(s) && level < s.level ==> !Visited(s, st.Now())
    ensures Clear(st, 3)
  {
    forall x | x in st.timers ensures Passed(st.timers[x], x in st.held, st.Now(), 3) {
      assert Passed(st.timers[x], x in st.held, st.Now(), level);
    }
  }

  /** After its cascades a tick finds every enabled timer that is due now at level 0. */
  lemma TickCascadesKeeps(st: State)
    requires Settled(st)
    ensures var st' := TickCascades(st);
            Settled(st') && Clear(st', 3) && SameSchedule(st, st')
  {
    var n := st.Now();
    ClearZero(st);
    Visits(n);
    forall s | InWheel(s) && Visited(s, n)
      ensures s.level >= 1 ==> n % 256 == 0
      ensures s.level >= 2 ==> n / 256 % 256 == 0
      ensures s.level >= 3 ==> n / 65536 % 256 == 0
    {
      NoVisits(n, s);
    }
    if n % 256 != 0 {
      ClearMore(st, 0);
    } else {
      var i1, i2 := n / 256 % 256, n / 65536 % 256;
      CascadeKeeps(st, Slot(1, i1));
      var st1 := Cascade(st, Slot(1, i1));
      if i1 != 0 {
        ClearMore(st1, 1);
      } else {
        CascadeKeeps(st1, Slot(2, i2));
        var st2 := Cascade(st1, Slot(2, i2));
        if i2 != 0 {
          ClearMore(st2, 2);
        } else {
          CascadeKeeps(st2, Slot(3, n / 16777216 % 256));
        }
      }
    }
  }

  // ----- claiming

  /** At the start of the claim loop: the held timers are as they were on the slot, and
      everyone else is on time for the next tick. */
  ghost predicate Claiming(st: State) {
    && Sane(st) && Linked(st)
    && (forall x :: st.Is(x, Locked) ==> st.timers[x].list == None)
    && (forall x :: x in st.timers && x !in st.held ==> Seen(st.timers[x], false, st.Now(), st.res))
  }

  lemma {:induction false} KeptMembers(st: State, ids: seq<Id>, vetoed: set<Id>)
    requires NoDup(ids)
    ensures NoDup(Kept(st, ids, vetoed))
    ensures forall x :: x in Kept(st, ids, vetoed) <==> x in ids && Claims(st, x, vetoed)
  {
    if ids != [] {
      var init, last := ids[..|ids| - 1], ids[|ids| - 1];
      assert ids == init + [last];
      assert last !in init;
      KeptMembers(st, init, vetoed);
    }
  }

  lemma ClaimHeldKeeps(st: State, vetoed: set<Id>)
    requires Claiming(st)
    ensures Inv(ClaimHeld(st, vetoed))
    ensures forall x :: x in ClaimHeld(st, vetoed).held <==> x in st.held && Claims(st, x, vetoed)
  {
    KeptMembers(st, st.held, vetoed);
    var st' := ClaimHeld(st, vetoed);
    assert forall s :: st'.List(s) == st.List(s);
    forall s, x ensures x in st'.List(s) <==> st'.IsIn(x, s) && x !in st'.held {
      assert x in st.List(s) <==> st.IsIn(x, s) && x !in st.held;
    }
    forall x | x in st'.timers ensures Seen(st'.timers[x], x in st'.held, st'.Now(), st'.res) {
      assert x in st.held ==> st'.timers[x].state != Enabled;
    }
  }

  /** The clock moves on and the slot of tick `n` is taken. */
  function Take(st: State, n: nat): State {
    Steal(st.(nextRun := AddRes(st.res, st.nextRun)), Slot(0, n % 256))
  }

  lemma TakeStartsClaim(st: State)
    requires Settled(st) && Clear(st, 3)
    ensures var st' := Take(st, st.Now());
            && Claiming(st') && st'.Now() == st.Now() + 1 && st'.timers == st.timers
            && (forall x :: st.Is(x, Enabled) ==> (x in st'.held <==> st.DueTick(x) == st.Now()))
  {
    var n := st.Now();
    var st1 := st.(nextRun := AddRes(st.res, st.nextRun));
    var s0 := Slot(0, n % 256);
    AddResAdvances(st.res, st.nextRun);
    AddResExact(st.res, st.nextRun);
    assert forall s :: st1.List(s) == st.List(s);
    assert forall s, x :: st1.IsIn(x, s) <==> st.IsIn(x, s);
    StealKeeps(st1, s0);
    VisitedIsMultiple(s0, n, n);
    forall x | st.Is(x, Enabled)
      ensures st.IsIn(x, s0) <==> st.DueTick(x) == n
      ensures !st.IsIn(x, s0) ==> Seen(st.timers[x], false, n + 1, st.res)
    {
      TakeOne(st.timers[x], n, st.res);
      assert Passed(st.timers[x], x in st.held, n, 3);
    }
  }

  /** A timer that is on time and not in a slot being cascaded is in the level 0 slot of
      tick `n` exactly when it is due, and otherwise stays on time. */
  lemma TakeOne(t: Timer, n: nat, res: nat)
    requires res > 0 && t.state == Enabled && Seen(t, false, n, res) && Passed(t, false, n, 3)
    ensures t.list == Some(Slot(0, n % 256)) <==> ToTick(res, t.due) == n
    ensures t.list != Some(Slot(0, n % 256)) ==> Seen(t, false, n + 1, res)
  {
    var s, due := t.list.value, ToTick(res, t.due);
    if s.level == 0 {
      VisitedIsMultiple(s, n, n);
      Level0VisitIsDue(s, n, due);
    } else {
      NextVisitStable(s, n);
      NextVisitIsFirst(s, n);
    }
    if !Visited(s, n) {
      TimelyAfterTick(s, n, due);
    }
  }

  /** What a tick that runs does to one timer. */
  ghost predicate TimerTicked(st: State, vetoed: set<Id>, st': State, x: Id)
    requires Sane(st) && Sane(st') && x in st.timers && x in st'.timers
  {
    && st'.DueTick(x) == st.DueTick(x)
    && (x in st'.held <==> st.Is(x, Enabled) && st.DueTick(x) == st.Now() && x !in vetoed)
    && (st.Is(x, Enabled) && st.DueTick(x) == st.Now() ==> st'.Is(x, Locked))
    && (st.Is(x, Enabled) && st.DueTick(x) != st.Now() ==> st'.Is(x, Enabled))
    && (st.Is(x, Disabled) ==> st'.Is(x, Disabled))
    && (st.Is(x, Locked) ==> st'.Is(x, Locked) && st'.timers[x].list == None)
  }

  ghost predicate Ticked(st: State, vetoed: set<Id>, st': State)
    requires Sane(st) && Sane(st')
  {
    && st'.res == st.res && st'.Now() == st.Now() + 1 && st'.timers.Keys == st.timers.Keys
    && (forall x :: x in st'.held <==> st.Is(x, Enabled) && st.DueTick(x) == st.Now() && x !in vetoed)
    && (forall x :: x in st.timers ==> TimerTicked(st, vetoed, st', x))
  }

  /** The locked part of a tick that runs: cascade, advance the clock, claim the slot. */
  ghost function RunTick(st: State, vetoed: set<Id>): State
    requires Settled(st)
  {
    ClaimHeld(Take(TickCascades(st), st.Now()), vetoed)
  }

  /** What a tick does to a timer, from what its three stages did. */
  lemma StagesTickTimer(st: State, st1: State, st2: State, vetoed: set<Id>, x: Id)
    requires Sane(st) && Sane(st1) && Sane(st2) && Sane(ClaimHeld(st2, vetoed)) && SameSchedule(st, st1)
    requires st2.timers == st1.timers && st2.res == st1.res && x in st.timers
    requires st1.Is(x, Enabled) ==> (x in st2.held <==> st1.DueTick(x) == st1.Now())
    requires st2.Is(x, Locked) ==> st2.timers[x].list == None && x !in st2.held
    requires x in ClaimHeld(st2, vetoed).held <==> x in st2.held && Claims(st2, x, vetoed)
    ensures TimerTicked(st, vetoed, ClaimHeld(st2, vetoed), x)
  {
    hide ToTick, InWheel, Kept;
    assert st1.timers[x].state == st.timers[x].state && st1.DueTick(x) == st.DueTick(x);
  }

  lemma StagesTick(st: State, st1: State, st2: State, vetoed: set<Id>)
    requires Sane(st) && Sane(st1) && Sane(st2) && Sane(ClaimHeld(st2, vetoed)) && SameSchedule(st, st1)
    requires st2.timers == st1.timers && st2.res == st1.res && st2.Now() == st1.Now() + 1
    requires forall x :: st1.Is(x, Enabled) ==> (x in st2.held <==> st1.DueTick(x) == st1.Now())
    requires forall x :: st2.Is(x, Locked) ==> st2.timers[x].list == None
    requires forall x :: x in st2.held ==> x in st2.timers && st2.timers[x].list.Some?
    requires forall x :: x in ClaimHeld(st2, vetoed).held <==> x in st2.held && Claims(st2, x, vetoed)
    ensures Ticked(st, vetoed, ClaimHeld(st2, vetoed))
  {
    hide ToTick, InWheel, Kept;
    forall x | x in st.timers ensures TimerTicked(st, vetoed, ClaimHeld(st2, vetoed), x) {
      StagesTickTimer(st, st1, st2, vetoed, x);
    }
    assert forall x :: x in ClaimHeld(st2, vetoed).held ==> x in st.timers;
  }

  /** A tick that runs claims precisely the enabled timers due at its tick number, leaves
      every other enabled timer enabled and due when it was, and advances the clock by one. */
  lemma TickIsExact(st: State, vetoed: set<Id>)
    requires Settled(st)
    ensures var st' := RunTick(st, vetoed);
            Inv(st') && Ticked(st, vetoed, st') && st'.nextRun == AddRes(st.res, st.nextRun)
  {
    hide TickCascades, Clear, OnTime, ToTick, AddRes, Ticked, SameSchedule;
    TickCascadesKeeps(st);
    var st1 := TickCascades(st);
    SameClock(st, st1);
    TakeStartsClaim(st1);
    var st2 := Take(st1, st.Now());
    ClaimHeldKeeps(st2, vetoed);
    StagesTick(st, st1, st2, vetoed);
  }

  lemma SameClock(st: State, st': State)
    requires Sane(st) && Sane(st') && SameSchedule(st, st')
    ensures st'.Now() == st.Now() && st'.res == st.res && st'.nextRun == st.nextRun
  {
  }

  /** `ph_timerwheel_tick` up to the point where the lock is released. */
  ghost function Claim(st: State, now: Timeval, vetoed: set<Id>): (st': State)
    requires Settled(st)
    ensures Inv(st')
  {
    if st.Now() <= ToTick(st.res, now) then
      TickIsExact(st, vetoed);
      RunTick(st, vetoed)
    else
      st
  }

  lemma ClaimIsExact(st: State, now: Timeval, vetoed: set<Id>)
    requires Settled(st) && st.Now() <= ToTick(st.res, now)
    ensures var st' := Claim(st, now, vetoed);
            Inv(st') && Ticked(st, vetoed, st') && st'.nextRun == AddRes(st.res, st.nextRun)
  {
    TickIsExact(st, vetoed);
  }
}

/** The timer wheel as the library implements it: operations that update the lists, the
    timers and the clock in place, each proved to perform its transition of `WheelModel`. */
module TimerWheel {
  import opened Options
  import opened TimerTicks
  import opened WheelSlots
  import opened WheelModel
  import opened WheelInvariant
  import opened WheelRuns

  class Wheel {
    const res: nat
    var nextRun: Timeval
    var lists: map<Slot, seq<Id>>
    var timers: map<Id, Timer>
    var held: seq<Id>

    function Abs(): State
      reads this
    {
      State(res, nextRun, lists, timers, held)
    }

    /** `ph_timerwheel_init` */
    constructor (now: Timeval, tickResolution: nat)
      requires tickResolution > 0 && Uniform(tickResolution) && now.Normal()
      ensures Initial(Abs()) && res == tickResolution
      ensures Abs().Now() == ToTick(tickResolution, now) + 1
    {
      res := tickResolution;
      nextRun := AddRes(tickResolution, now);
      lists, timers, held := map[], map[], [];
      AddResExact(tickResolution, now);
      AddResAdvances(tickResolution, now);
    }

    method Arm(id: Id, due: Timeval)
      requires Inv(Abs()) && due.Normal() && !Abs().Is(id, Enabled)
      modifies this`timers
      ensures Abs() == Armed(old(Abs()), id, due) && timers[id].due == due
    {
      timers := timers[id := if id in timers then timers[id].(due := due) else Timer(due, Disabled, None)];
    }

    /** `compute_list`: clamps the timer's due time and returns its slot. */
    method FindList(id: Id) returns (s: Slot)
      requires Sane(Abs()) && id in timers
      modifies this`timers
      ensures Abs() == ClampDue(old(Abs()), id)
      ensures Sane(Abs()) && Abs().Now() <= Abs().DueTick(id) && s == SlotFor(Abs(), id)
    {
      ClampOrders(Abs(), id);
      if timers[id].due.Before(nextRun) {
        timers := timers[id := timers[id].(due := nextRun)];
      }
      assert Abs().timers == ClampDue(old(Abs()), id).timers;
      s := ComputeList(ToTick(res, nextRun), ToTick(res, timers[id].due));
    }

    /** `ph_timerwheel_enable` */
    method Enable(id: Id) returns (r: Result)
      requires Inv(Abs()) && id in timers
      modifies this`lists, this`timers
      ensures (Abs(), r) == EnableTimer(old(Abs()), id) && Inv(Abs())
      ensures Enabling(old(Abs()), id, Abs(), r)
    {
      EnableIsEnabling(Abs(), id);
      if timers[id].state != Disabled {
        return Busy;
      }
      timers := timers[id := timers[id].(state := Locked)];
      SetTimerKeeps(old(Abs()), id, timers[id]);
      var s := FindList(id);
      if timers[id].list == Some(s) {
        timers := timers[id := timers[id].(state := Enabled)];
      } else {
        Move(id, s);
      }
      return Ok;
    }

    /** Take a locked timer off its list, if any, and put it on another one, enabled. */
    method Move(id: Id, s: Slot)
      requires id in timers
      modifies this`lists, this`timers
      ensures Abs() == WheelModel.Move(old(Abs()), id, s)
    {
      if timers[id].list.Some? {
        var from := timers[id].list.value;
        lists := lists[from := Without(Abs().List(from), id)];
        timers := timers[id := timers[id].(list := None)];
      }
      timers := timers[id := timers[id].(list := Some(s))];
      lists := lists[s := [id] + Abs().List(s)];
      timers := timers[id := timers[id].(state := Enabled)];
    }

    /** `ph_timerwheel_disable` */
    method Disable(id: Id) returns (r: Result)
      requires Inv(Abs()) && id in timers
      modifies this`timers
      ensures (Abs(), r) == DisableTimer(old(Abs()), id) && Inv(Abs())
      ensures Disabling(old(Abs()), id, Abs(), r)
    {
      DisableIsDisabling(Abs(), id);
      if timers[id].state == Disabled {
        assert timers[id := timers[id].(state := Disabled)] == timers;
        return Ok;
      }
      if timers[id].state == Enabled {
        timers := timers[id := timers[id].(state := Disabled)];
        return Ok;
      }
      return Busy;
    }

    /** `ph_timerwheel_remove` */
    method Remove(id: Id) returns (r: Result)
      requires Inv(Abs()) && id in timers
      modifies this`lists, this`timers
      ensures (Abs(), r) == RemoveTimer(old(Abs()), id) && Inv(Abs())
      ensures Removing(old(Abs()), id, Abs(), r)
    {
      RemoveIsRemoving(Abs(), id);
      if timers[id].list.None? {
        return NoEnt;
      }
      r := Disable(id);
      if r != Ok {
        return;
      }
      var from := timers[id].list.value;
      lists := lists[from := Without(Abs().List(from), id)];
      timers := timers[id := timers[id].(list := None)];
    }

    /** `cascade_timer` */
    method CascadeTimer(level: nat, index: nat) returns (next: bool)
      requires Settled(Abs()) && 1 <= level < 4 && index < WHEEL_SIZE
      modifies this`lists, this`timers, this`held
      ensures Abs() == Cascade(old(Abs()), Slot(level, index)) && next == (index == 0)
    {
      var from := Slot(level, index);
      StealStartsCascade1(Abs(), from);
      held, lists := Abs().List(from), lists[from := []];
      ghost var start := Abs();
      while held != []
        invariant nextRun == old(nextRun)
        invariant Cascading(Abs(), 0)
        invariant RefileAll(Abs()) == RefileAll(start)
        decreases |held|
      {
        RefileFirstKeeps(Abs(), 0);
        RefileNext();
      }
      return index == 0;
    }

    /** Re-schedule the first timer of the stolen list, unless it is disabled. */
    method RefileNext()
      requires Sane(Abs()) && Linked(Abs()) && held != []
      modifies this`lists, this`timers, this`held
      ensures Abs() == RefileFirst(old(Abs()))
    {
      DropKeeps(Abs(), 0);
      var id := held[0];
      held := held[1..];
      timers := timers[id := timers[id].(list := None)];
      assert Abs() == Drop(old(Abs()), 0);
      if timers[id].state != Disabled {
        var target := FindList(id);
        timers := timers[id := timers[id].(list := Some(target))];
        lists := lists[target := [id] + Abs().List(target)];
      }
    }

    /** The part of `ph_timerwheel_tick` that runs under the lock, for a tick that is due. */
    method ClaimDue(now: Timeval, vetoed: set<Id>)
      requires Settled(Abs()) && Abs().Now() <= ToTick(res, now)
      modifies this`nextRun, this`lists, this`timers, this`held
      ensures Abs() == Claim(old(Abs()), now, vetoed)
      ensures Inv(Abs()) && Ticked(old(Abs()), vetoed, Abs())
    {
      ClaimIsExact(Abs(), now, vetoed);
      TickCascadesKeeps(Abs());
      var nowTick := ToTick(res, nextRun);
      Visits(nowTick);
      ClearZero(Abs());
      if nowTick % 256 == 0 {
        CascadeKeeps(Abs(), Slot(1, nowTick / 256 % 256));
        var next := CascadeTimer(1, nowTick / 256 % 256);
        if next {
          CascadeKeeps(Abs(), Slot(2, nowTick / 65536 % 256));
          next := CascadeTimer(2, nowTick / 65536 % 256);
          if next {
            next := CascadeTimer(3, nowTick / 16777216 % 256);
          }
        }
      }
      assert Abs() == TickCascades(old(Abs()));
      TakeStartsClaim(Abs());
      ghost var before := Abs();
      var slot := Slot(0, nowTick % 256);
      nextRun := AddRes(res, nextRun);
      held, lists := Abs().List(slot), lists[slot := []];
      assert Abs() == Take(before, nowTick);
      LockHeld(vetoed);
    }

    /** The claim loop: lock what is enabled and not vetoed, drop the rest from the local list. */
    method LockHeld(vetoed: set<Id>)
      requires NoDup(held) && forall x :: x in held ==> x in timers
      modifies this`timers, this`held
      ensures Abs() == ClaimHeld(old(Abs()), vetoed)
    {
      hide Kept, ClaimTimers;
      ghost var start := Abs();
      ghost var done, kept, rest := [], [], held;
      var k := 0;
      ClaimNone(start, vetoed);
      while k < |held|
        invariant start.held == done + rest
        invariant kept == Kept(start, done, vetoed)
        invariant held == kept + rest && k == |kept|
        invariant timers == ClaimTimers(start, done, vetoed)
        decreases |rest|
      {
        ghost var id := held[k];
        SplitNoDup(done, rest);
        ClaimOne(start, done, id, vetoed);
        Advance(kept, rest);
        Advance(done, rest);
        var claimed := LockOrDrop(k, vetoed);
        if claimed {
          k := k + 1;
          kept := kept + [id];
        }
        done, rest := done + [id], rest[1..];
      }
      assert rest == [] && done == start.held;
    }

    /** One turn of the claim loop. */
    method LockOrDrop(k: nat, vetoed: set<Id>) returns (claimed: bool)
      requires k < |held| && held[k] in timers
      modifies this`timers, this`held
      ensures claimed == (old(timers[held[k]].state) == Enabled && old(held)[k] !in vetoed)
      ensures timers == old(timers)[old(held)[k] := ClaimedTimer(old(timers[held[k]]), old(held)[k] in vetoed)]
      ensures held == if claimed then old(held) else old(held)[..k] + old(held)[k + 1..]
    {
      var id := held[k];
      claimed := true;
      if timers[id].state != Enabled {
        claimed := false;
      } else {
        timers := timers[id := timers[id].(state := Locked)];
        if id in vetoed {
          claimed := false;
        }
      }
      if !claimed {
        held := held[..k] + held[k + 1..];
        timers := timers[id := timers[id].(list := None)];
      }
    }

    /** A dispatch callback acting on the wheel. */
    method Callback(steps: seq<Step>)
      requires Inv(Abs())
      modifies this`lists, this`timers
      ensures Abs() == React(old(Abs()), steps)
    {
      var rest := steps;
      while rest != []
        invariant Inv(Abs()) && React(Abs(), rest) == React(old(Abs()), steps)
        decreases |rest|
      {
        if CallbackStep(Abs(), rest[0]) {
          StepKeeps(Abs(), rest[0]);
          match rest[0] {
            case SetDue(id, due) => Arm(id, due);
            case Enable(id) => var _ := Enable(id);
            case Disable(id) => var _ := Disable(id);
            case Remove(id) => var _ := Remove(id);
          }
        }
        rest := rest[1..];
      }
    }

    /** `ph_timerwheel_tick`: claims the timers that are due and dispatches them one by one,
        letting each callback act on the wheel.  `fired` lists the dispatched timers. */
    method Tick(now: Timeval, vetoed: set<Id>, callback: (State, Id) -> seq<Step>)
      returns (ticked: nat, fired: seq<Id>)
      requires Settled(Abs())
      modifies this`nextRun, this`lists, this`timers, this`held
      ensures Settled(Abs()) && ticked == |fired|
      ensures ToTick(res, now) < old(Abs()).Now() ==> fired == [] && Abs() == old(Abs())
      ensures old(Abs()).Now() <= ToTick(res, now) ==>
                && Abs() == DispatchAll(Claim(old(Abs()), now, vetoed), callback)
                && fired == Claim(old(Abs()), now, vetoed).held
                && NoDup(fired)
                && (forall x :: x in fired <==>
                      old(Abs()).Is(x, Enabled) && old(Abs()).DueTick(x) == old(Abs()).Now() && x !in vetoed)
                && nextRun == AddRes(res, old(nextRun))
    {
      ticked, fired := 0, [];
      if ToTick(res, nextRun) <= ToTick(res, now) {
        ClaimIsExact(Abs(), now, vetoed);
        ClaimDue(now, vetoed);
      }
      ticked, fired := DispatchHeld(callback);
    }

    /** Take the next claimed timer, leaving it disabled and off every list. */
    method DispatchNext() returns (id: Id)
      requires Inv(Abs()) && held != []
      modifies this`timers, this`held
      ensures id == old(held)[0] && held == old(held)[1..]
      ensures Abs() == DispatchFirst(old(Abs())) && Inv(Abs())
    {
      DispatchKeeps(Abs());
      id := held[0];
      held := held[1..];
      timers := timers[id := timers[id].(list := None, state := Disabled)];
    }

    /** The dispatch loop: everything held is locked. */
    method DispatchHeld(callback: (State, Id) -> seq<Step>) returns (ticked: nat, fired: seq<Id>)
      requires Inv(Abs())
      modifies this`lists, this`timers, this`held
      ensures Abs() == DispatchAll(old(Abs()), callback) && Settled(Abs())
      ensures fired == old(held) && ticked == |fired|
    {
      ghost var start := Abs();
      ticked, fired := 0, [];
      while held != []
        invariant Inv(Abs())
        invariant DispatchAll(Abs(), callback) == DispatchAll(start, callback)
        invariant fired + held == start.held && ticked == |fired|
        decreases |held|
      {
        Advance(fired, held);
        ticked := ticked + 1;
        var id := DispatchNext();
        fired := fired + [id];
        var steps := callback(Abs(), id);
        ReactKeeps(Abs(), steps);
        Callback(steps);
      }
    }

    /** `ph_nbio_emitter_timer_tick`: tick until the clock has caught up with `now`.  The log
        has one entry for each tick number passed, in order, with the timers dispatched in it;
        `seen` are the wheels those ticks found. */
    method CatchUp(now: Timeval, callback: (State, Id) -> seq<Step>)
      returns (log: seq<(nat, seq<Id>)>, ghost seen: seq<State>)
      requires Settled(Abs()) && now.Normal()
      modifies this`nextRun, this`lists, this`timers, this`held
      ensures Settled(Abs()) && !nextRun.Before(now)
      ensures old(!nextRun.Before(now)) ==> log == [] && Abs() == old(Abs())
      ensures old(nextRun.Before(now)) ==> nextRun.Usec() < now.Usec() + res * 1000
      ensures nextRun.Usec() == old(nextRun).Usec() + |log| * (res * 1000)
      ensures Abs().Now() == old(Abs()).Now() + |log|
      ensures forall i :: 0 <= i < |log| ==> log[i].0 == old(Abs()).Now() + i
      ensures |seen| == |log| + 1 && seen[0] == old(Abs()) && seen[|log|] == Abs()
      ensures forall i :: 0 <= i < |log| ==> TickLogged(seen, i, now, callback, log[i])
    {
      hide TickOf, TickLogged, ToTick, Linked, OnTime;
      log, seen := [], [Abs()];
      while nextRun.Before(now)
        invariant Settled(Abs())
        invariant nextRun.Usec() == old(nextRun).Usec() + |log| * (res * 1000)
        invariant log == [] ==> Abs() == old(Abs())
        invariant log != [] ==> old(nextRun.Before(now))
        invariant log != [] ==> nextRun.Usec() < now.Usec() + res * 1000
        invariant Abs().Now() == old(Abs()).Now() + |log|
        invariant forall i :: 0 <= i < |log| ==> log[i].0 == old(Abs()).Now() + i
        invariant |seen| == |log| + 1 && seen[0] == old(Abs()) && seen[|log|] == Abs()
        invariant forall i :: 0 <= i < |log| ==> TickLogged(seen, i, now, callback, log[i])
        decreases if nextRun.Before(now) then now.Usec() - nextRun.Usec() else 0
      {
        assert (|log| + 1) * (res * 1000) == |log| * (res * 1000) + res * 1000;
        var n, fired := TickBehind(now, callback);
        LogMore(seen, log, now, callback, (n, fired), Abs());
        log, seen := log + [(n, fired)], seen + [Abs()];
      }
      BeforeIsLess(nextRun, now);
    }

    /** One turn of the catch-up loop: while behind, a tick always runs. */
    method TickBehind(now: Timeval, callback: (State, Id) -> seq<Step>) returns (n: nat, fired: seq<Id>)
      requires Settled(Abs()) && now.Normal() && nextRun.Before(now)
      modifies this`nextRun, this`lists, this`timers, this`held
      ensures Settled(Abs()) && n == old(Abs()).Now() && Abs().Now() == n + 1
      ensures nextRun.Usec() == old(nextRun).Usec() + res * 1000
      ensures old(nextRun).Usec() < now.Usec()
      ensures TickOf(old(Abs()), now, callback, (n, fired), Abs())
    {
      BeforeIsLess(nextRun, now);
      ToTickMonotone(res, nextRun, now);
      AddResExact(res, nextRun);
      AddResAdvances(res, nextRun);
      n := ToTick(res, nextRun);
      var ticked;
      ticked, fired := Tick(now, {}, callback);
    }
  }

  /** A tick with this entry in the log takes the wheel from st to st': it dispatches exactly
      the enabled timers due in it, each once. */
  ghost predicate TickOf(st: State, now: Timeval, callback: (State, Id) -> seq<Step>, entry: (nat, seq<Id>), st': State) {
    && Settled(st) && entry.0 == st.Now() && NoDup(entry.1)
    && (forall x :: x in entry.1 <==> st.Is(x, Enabled) && st.DueTick(x) == entry.0)
    && st' == DispatchAll(Claim(st, now, {}), callback)
  }

  ghost predicate TickLogged(
    seen: seq<State>, i: nat, now: Timeval, callback: (State, Id) -> seq<Step>, entry: (nat, seq<Id>))
  {
    i + 1 < |seen| && TickOf(seen[i], now, callback, entry, seen[i + 1])
  }

  lemma LogMore(
    seen: seq<State>, log: seq<(nat, seq<Id>)>, now: Timeval, callback: (State, Id) -> seq<Step>,
    entry: (nat, seq<Id>), st: State)
    requires |seen| == |log| + 1 && TickOf(seen[|log|], now, callback, entry, st)
    requires forall i :: 0 <= i < |log| ==> TickLogged(seen, i, now, callback, log[i])
    ensures forall i :: 0 <= i < |log| + 1 ==> TickLogged(seen + [st], i, now, callback, (log + [entry])[i])
  {
    hide TickOf;
    forall i | 0 <= i < |log| ensures TickLogged(seen + [st], i, now, callback, log[i]) {
      assert TickLogged(seen, i, now, callback, log[i]);
    }
  }

  lemma SplitNoDup(a: seq<Id>, b: seq<Id>)
    requires NoDup(a + b) && b != []
    ensures b[0] !in a && b[0] in a + b
  {
    assert b[0] == (a + b)[|a|];
    forall i | 0 <= i < |a| ensures a[i] != b[0] {
      assert a[i] == (a + b)[i];
    }
  }

  /** Moving a cursor past the first element of `rest`, keeping or dropping it. */
  lemma Advance(done: seq<Id>, rest: seq<Id>)
    requires rest != []
    ensures (done + [rest[0]]) + rest[1..] == done + rest
    ensures (done + rest)[..|done|] + (done + rest)[|done| + 1..] == done + rest[1..]
  {
  }
}

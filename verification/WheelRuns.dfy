/** Whole runs of a timer wheel: any interleaving of arming, enabling, disabling and
    removing timers with ticks and with the dispatches a tick still owes. */
module WheelRuns {
  import opened Options
  import opened TimerTicks
  import opened WheelModel
  import opened WheelInvariant

  datatype Step =
    | SetDue(id: Id, due: Timeval)
    | Enable(id: Id)
    | Disable(id: Id)
    | Remove(id: Id)
    | Tick(now: Timeval, vetoed: set<Id>)
    | Dispatch

  /** The caller's side of the protocol: due times are written only while the timer is
      not enabled, and one thread ticks the wheel, finishing a tick before the next. */
  predicate Legal(st: State, step: Step) {
    match step
    case SetDue(id, due) => due.Normal() && !st.Is(id, Enabled)
    case Enable(id) => id in st.timers
    case Disable(id) => id in st.timers
    case Remove(id) => id in st.timers
    case Tick(now, _) => st.held == []
    case Dispatch => st.held != []
  }

  function Armed(st: State, id: Id, due: Timeval): State {
    SetTimer(st, id, if id in st.timers then st.timers[id].(due := due) else Timer(due, Disabled, None))
  }

  ghost function Apply(st: State, step: Step): State
    requires Inv(st) && Legal(st, step)
  {
    match step
    case SetDue(id, due) => Armed(st, id, due)
    case Enable(id) => EnableTimer(st, id).0
    case Disable(id) => DisableTimer(st, id).0
    case Remove(id) => RemoveTimer(st, id).0
    case Tick(now, vetoed) => Claim(st, now, vetoed)
    case Dispatch => DispatchFirst(st)
  }

  ghost predicate Initial(st: State) {
    Sane(st) && st.lists == map[] && st.timers == map[] && st.held == []
  }

  ghost predicate StepAt(states: seq<State>, steps: seq<Step>, i: nat)
    requires i < |steps| < |states|
  {
    Inv(states[i]) ==> Legal(states[i], steps[i]) && states[i + 1] == Apply(states[i], steps[i])
  }

  ghost predicate Run(states: seq<State>, steps: seq<Step>) {
    && |states| == |steps| + 1
    && Initial(states[0])
    && forall i :: 0 <= i < |steps| ==> StepAt(states, steps, i)
  }

  // ----- single steps

  ghost predicate Runs(st: State, step: Step)
    requires Sane(st)
  {
    step.Tick? && st.Now() <= ToTick(st.res, step.now)
  }

  /** Tick `step` finds timer `id` due. */
  ghost predicate Expires(st: State, step: Step, id: Id)
    requires Sane(st)
  {
    Runs(st, step) && st.Is(id, Enabled) && st.DueTick(id) == st.Now()
  }

  predicate Cancels(st: State, step: Step, id: Id) {
    (step == Disable(id) || step == Remove(id)) && st.Is(id, Enabled)
  }

  predicate Sets(step: Step, id: Id) {
    step.SetDue? && step.id == id
  }

  predicate Unlists(st: State, step: Step, id: Id) {
    step == Remove(id) && id in st.timers && st.timers[id].list.Some? && !st.Is(id, Locked)
  }

  predicate Enables(st: State, step: Step, id: Id) {
    step == Enable(id) && st.Is(id, Disabled)
  }

  predicate Dispatches(st: State, step: Step, id: Id) {
    step == Dispatch && st.held != [] && st.held[0] == id
  }

  ghost predicate Vetoes(st: State, step: Step, id: Id)
    requires Sane(st)
  {
    Expires(st, step, id) && id in step.vetoed
  }

  lemma DispatchKeeps(st: State)
    requires Inv(st) && st.held != []
    ensures Inv(DispatchFirst(st))
    ensures DispatchFirst(st).held == st.held[1..]
  {
    DropKeeps(st, 0);
    var st1 := Drop(st, 0);
    SetTimerKeeps(st1, st.held[0], st1.timers[st.held[0]].(state := Disabled));
    assert st.held == [st.held[0]] + st1.held;
  }

  lemma ArmedKeeps(st: State, id: Id, due: Timeval)
    requires Inv(st) && due.Normal() && !st.Is(id, Enabled)
    ensures Inv(Armed(st, id, due))
  {
    var st' := Armed(st, id, due);
    if id in st.timers {
      SetTimerKeeps(st, id, st'.timers[id]);
    } else {
      assert forall s :: st'.List(s) == st.List(s);
      assert forall s, x :: st'.IsIn(x, s) <==> st.IsIn(x, s);
    }
  }

  lemma StepKeeps(st: State, step: Step)
    requires Inv(st) && Legal(st, step)
    ensures Inv(Apply(st, step))
  {
    match step
    case SetDue(id, due) => ArmedKeeps(st, id, due);
    case Enable(id) => EnableKeeps(st, id);
    case Disable(id) => DisableKeeps(st, id);
    case Remove(id) => RemoveKeeps(st, id);
    case Tick(now, vetoed) =>
      if Runs(st, step) {
        ClaimIsExact(st, now, vetoed);
      }
    case Dispatch => DispatchKeeps(st);
  }

  /** What one step means for one timer and for the clock. */
  ghost predicate Effect(st: State, step: Step, id: Id, st': State)
    requires Sane(st) && Sane(st')
  {
    && st'.res == st.res && st'.Now() == (if Runs(st, step) then st.Now() + 1 else st.Now())
    && (st.Is(id, Enabled) && !Cancels(st, step, id) && !Expires(st, step, id) ==> st'.Is(id, Enabled))
    && (Cancels(st, step, id) ==> st'.Is(id, Disabled))
    && (Expires(st, step, id) ==> st'.Is(id, Locked) && (id in st'.held <==> id !in step.vetoed))
    && (Enables(st, step, id) ==> st'.Is(id, Enabled) && st'.DueTick(id) == Later(st.DueTick(id), st.Now()))
    && (Sets(step, id) ==> id in st'.timers && st'.timers[id].due == step.due)
    && (id in st.timers && !Enables(st, step, id) && !Sets(step, id) ==>
          id in st'.timers && st'.DueTick(id) == st.DueTick(id))
    && (Unlists(st, step, id) ==> st'.Is(id, Disabled) && ListedIn(st', id, None))
    && (!st.Is(id, Enabled) && !Enables(st, step, id) ==> !st'.Is(id, Enabled))
    && (id in st.held && !Dispatches(st, step, id) ==> id in st'.held)
    && (Dispatches(st, step, id) ==> id !in st'.held && st'.Is(id, Disabled))
    && (id !in st.held && !Expires(st, step, id) ==> id !in st'.held)
    && (st.Is(id, Locked) && id !in st.held ==> st'.Is(id, Locked) && id !in st'.held)
    && (st.Is(id, Disabled) && !Enables(st, step, id) ==> st'.Is(id, Disabled))
  }

  /** Steps other than ticks and dispatches leave the clock, the held list and all other
      timers alone. */
  lemma LocalEffect(st: State, step: Step, id: Id)
    requires Inv(st) && Legal(st, step) && !step.Tick? && !step.Dispatch?
    ensures var st' := Apply(st, step);
            && st'.res == st.res && st'.nextRun == st.nextRun && st'.held == st.held
            && (id != step.id ==> st'.Is(id, Disabled) == st.Is(id, Disabled)
                                  && st'.Is(id, Locked) == st.Is(id, Locked)
                                  && st'.Is(id, Enabled) == st.Is(id, Enabled)
                                  && (id in st.timers ==> st'.timers[id] == st.timers[id]))
  {
    if step.Enable? && st.timers[step.id].state == Disabled {
      ClampOrders(Mark(st, step.id, Locked), step.id);
    }
  }

  lemma StepEffect(st: State, step: Step, id: Id)
    requires Inv(st) && Legal(st, step)
    ensures Inv(Apply(st, step)) && Effect(st, step, id, Apply(st, step))
  {
    hide Effect, Inv;
    StepKeeps(st, step);
    match step
    case SetDue(x, due) => SetDueEffect(st, x, due, id);
    case Enable(x) => EnableEffect(st, x, id);
    case Disable(x) => DisableEffect(st, x, id);
    case Remove(x) => RemoveEffect(st, x, id);
    case Tick(now, vetoed) => TickEffect(st, step, id);
    case Dispatch => DispatchEffect(st, id);
  }

  lemma SetDueEffect(st: State, x: Id, due: Timeval, id: Id)
    requires Inv(st) && due.Normal() && !st.Is(x, Enabled)
    ensures Inv(Armed(st, x, due)) && Effect(st, SetDue(x, due), id, Armed(st, x, due))
  {
    hide Linked, OnTime, ToTick;
    ArmedKeeps(st, x, due);
  }

  lemma DisableEffect(st: State, x: Id, id: Id)
    requires Inv(st) && x in st.timers
    ensures Inv(DisableTimer(st, x).0) && Effect(st, Disable(x), id, DisableTimer(st, x).0)
  {
    hide DisableTimer, Linked, OnTime, ToTick;
    DisableIsDisabling(st, x);
  }

  lemma RemoveEffect(st: State, x: Id, id: Id)
    requires Inv(st) && x in st.timers
    ensures Inv(RemoveTimer(st, x).0) && Effect(st, Remove(x), id, RemoveTimer(st, x).0)
  {
    hide RemoveTimer, Linked, OnTime, ToTick, ListedIn;
    RemoveIsRemoving(st, x);
    if st.Is(x, Enabled) {
      EnabledIsListed(st, x);
    }
  }

  lemma EnabledIsListed(st: State, x: Id)
    requires Inv(st) && st.Is(x, Enabled)
    ensures st.timers[x].list.Some?
  {
    assert Seen(st.timers[x], x in st.held, st.Now(), st.res);
  }

  lemma TickEffect(st: State, step: Step, id: Id)
    requires Inv(st) && Legal(st, step) && step.Tick? && Inv(Apply(st, step))
    ensures Effect(st, step, id, Apply(st, step))
  {
    if Runs(st, step) {
      ClaimIsExact(st, step.now, step.vetoed);
    }
  }

  lemma EnableEffect(st: State, x: Id, id: Id)
    requires Inv(st) && x in st.timers
    ensures Inv(EnableTimer(st, x).0) && Effect(st, Enable(x), id, EnableTimer(st, x).0)
  {
    hide EnableTimer, Linked, OnTime, ToTick, ListedIn;
    EnableIsEnabling(st, x);
  }

  lemma DispatchEffect(st: State, id: Id)
    requires Inv(st) && st.held != []
    ensures Inv(DispatchFirst(st)) && Effect(st, Dispatch, id, DispatchFirst(st))
  {
    assert st.held == [st.held[0]] + st.held[1..];
    DispatchKeeps(st);
  }

  // ----- runs

  lemma {:induction false} RunKeeps(states: seq<State>, steps: seq<Step>, i: nat)
    requires Run(states, steps) && i <= |steps|
    ensures Inv(states[i])
  {
    if i > 0 {
      RunKeeps(states, steps, i - 1);
      assert StepAt(states, steps, i - 1);
      StepKeeps(states[i - 1], steps[i - 1]);
    } else {
      InitialInv(states[0]);
    }
  }

  lemma InitialInv(st: State)
    requires Initial(st)
    ensures Inv(st)
  {
    assert forall s :: st.List(s) == [];
  }

  lemma RunStep(states: seq<State>, steps: seq<Step>, i: nat)
    requires Run(states, steps) && i < |steps|
    ensures Inv(states[i]) && Legal(states[i], steps[i]) && states[i + 1] == Apply(states[i], steps[i])
  {
    RunKeeps(states, steps, i);
    assert StepAt(states, steps, i);
  }

  ghost predicate Uncancelled(states: seq<State>, steps: seq<Step>, id: Id, i: nat, j: nat)
    requires i <= j <= |steps| <= |states|
  {
    forall k :: i <= k < j ==> !Cancels(states[k], steps[k], id)
  }

  /** Step `k` of the run is the tick numbered `due`, it runs, and it claims `id`. */
  ghost predicate FiresAt(states: seq<State>, steps: seq<Step>, id: Id, due: nat, k: nat)
    requires Run(states, steps) && k < |steps|
  {
    && Inv(states[k]) && Expires(states[k], steps[k], id) && states[k].Now() == due
    && states[k + 1].Is(id, Locked)
    && (id in states[k + 1].held <==> id !in steps[k].vetoed)
  }

  /** A timer left enabled stays enabled, with its due tick, until the clock passes that
      tick, and it is claimed by exactly the tick with that number. */
  lemma {:induction false} FiresExactlyWhenDue(states: seq<State>, steps: seq<Step>, id: Id, i: nat, j: nat)
    requires Run(states, steps) && i <= j <= |steps|
    requires Uncancelled(states, steps, id, i, j)
    requires Inv(states[i]) && states[i].Is(id, Enabled)
    ensures Inv(states[j])
    ensures var due := states[i].DueTick(id);
            && states[i].Now() <= due
            && (states[j].Now() <= due ==> states[j].Is(id, Enabled) && states[j].DueTick(id) == due)
            && (due < states[j].Now() ==> exists k :: i <= k < j && FiresAt(states, steps, id, due, k))
    decreases j
  {
    var due := states[i].DueTick(id);
    assert Seen(states[i].timers[id], id in states[i].held, states[i].Now(), states[i].res);
    if i < j {
      FiresExactlyWhenDue(states, steps, id, i, j - 1);
      RunStep(states, steps, j - 1);
      StepEffect(states[j - 1], steps[j - 1], id);
      if states[j - 1].Now() <= due {
        assert states[j - 1].Is(id, Enabled) && states[j - 1].DueTick(id) == due;
        assert !Cancels(states[j - 1], steps[j - 1], id);
        if due < states[j].Now() {
          assert Expires(states[j - 1], steps[j - 1], id);
          assert FiresAt(states, steps, id, due, j - 1);
        }
      }
    }
  }

  /** The timer is not given another due time by steps h + 1 to i - 1. */
  predicate NotSetIn(steps: seq<Step>, id: Id, h: nat, i: nat)
    requires i <= |steps|
  {
    forall k :: h < k < i ==> !Sets(steps[k], id)
  }

  /** The time a timer is armed for stands until it is armed again: enabling, firing and
      disabling it on the way can only make a time that has passed the present one. */
  lemma {:induction false} ArmedStands(states: seq<State>, steps: seq<Step>, id: Id, h: nat, i: nat)
    requires Run(states, steps) && h < i <= |steps| && Sets(steps[h], id) && NotSetIn(steps, id, h, i)
    ensures Inv(states[h]) && Inv(states[i]) && id in states[i].timers && states[i].res == states[h].res
    ensures Later(states[i].DueTick(id), states[i].Now()) ==
            Later(ToTick(states[h].res, steps[h].due), states[i].Now())
    decreases i
  {
    hide Inv, Apply, ToTick;
    RunStep(states, steps, i - 1);
    StepEffect(states[i - 1], steps[i - 1], id);
    SaneWheel(states[i - 1]);
    SaneWheel(states[i]);
    if h < i - 1 {
      ArmedStands(states, steps, id, h, i - 1);
    }
  }

  /** From arming to firing: a timer given the due time `due` at step h and enabled at step i
      is claimed by the tick with the number of that time, or by the one current at step i if
      that is later, and by no earlier one. */
  lemma FiresAtTimeSet(states: seq<State>, steps: seq<Step>, id: Id, h: nat, i: nat, j: nat)
    requires Run(states, steps) && h < i < j <= |steps|
    requires Sets(steps[h], id) && NotSetIn(steps, id, h, i) && Enables(states[i], steps[i], id)
    requires Uncancelled(states, steps, id, i + 1, j)
    ensures Inv(states[h]) && Inv(states[i]) && Inv(states[j])
    ensures var n := Later(ToTick(states[h].res, steps[h].due), states[i].Now());
            && (states[j].Now() <= n ==> states[j].Is(id, Enabled) && states[j].DueTick(id) == n)
            && (n < states[j].Now() ==> exists k :: i < k < j && FiresAt(states, steps, id, n, k))
  {
    hide Inv, Apply, ToTick, FiresAt;
    ArmedStands(states, steps, id, h, i);
    RunStep(states, steps, i);
    StepEffect(states[i], steps[i], id);
    SaneWheel(states[i]);
    SaneWheel(states[i + 1]);
    FiresExactlyWhenDue(states, steps, id, i + 1, j);
  }

  lemma StepMovesClock(st: State, step: Step)
    requires Inv(st) && Legal(st, step)
    ensures Inv(Apply(st, step))
    ensures Apply(st, step).Now() == if Runs(st, step) then st.Now() + 1 else st.Now()
  {
    StepEffect(st, step, 0);
  }

  lemma {:induction false} ClockOnlyAdvances(states: seq<State>, steps: seq<Step>, i: nat, j: nat)
    requires Run(states, steps) && i <= j <= |steps|
    ensures Inv(states[i]) && Inv(states[j]) && states[i].Now() <= states[j].Now()
    decreases j
  {
    RunKeeps(states, steps, i);
    if i < j {
      ClockOnlyAdvances(states, steps, i, j - 1);
      RunStep(states, steps, j - 1);
      StepMovesClock(states[j - 1], steps[j - 1]);
    }
  }

  /** Two different steps never claim timers for the same tick: a timer enabled again after
      tick `n` ran, say by its own callback, is due strictly after `n`. */
  lemma ReEnabledFiresLater(states: seq<State>, steps: seq<Step>, k: nat, m: nat, id: Id)
    requires Run(states, steps) && k < m <= |steps|
    requires Inv(states[k]) && Runs(states[k], steps[k])
    requires states[m].Is(id, Enabled)
    ensures Inv(states[m]) && states[k].Now() < states[m].DueTick(id)
  {
    RunStep(states, steps, k);
    StepMovesClock(states[k], steps[k]);
    ClockOnlyAdvances(states, steps, k + 1, m);
    assert Seen(states[m].timers[id], id in states[m].held, states[m].Now(), states[m].res);
  }

  // ----- conservation

  ghost function Count(states: seq<State>, steps: seq<Step>, n: nat, p: (State, Step) -> bool): nat
    requires n <= |steps| && n <= |states|
  {
    if n == 0 then 0
    else Count(states, steps, n - 1, p) + if p(states[n - 1], steps[n - 1]) then 1 else 0
  }

  /** Is an enable of this timer still outstanding? */
  function Live(st: State, id: Id): nat {
    if st.Is(id, Enabled) || id in st.held then 1 else 0
  }

  /** Every successful enable is accounted for by exactly one dispatch, cancellation or
      veto, or is still outstanding. */
  lemma {:induction false} EnablesAreConserved(states: seq<State>, steps: seq<Step>, id: Id, n: nat)
    requires Run(states, steps) && n <= |steps|
    ensures Count(states, steps, n, (st, step) => Enables(st, step, id)) ==
            Count(states, steps, n, (st, step) => Dispatches(st, step, id))
            + Count(states, steps, n, (st, step) => Cancels(st, step, id))
            + Count(states, steps, n, (st, step) => Sane(st) && Vetoes(st, step, id))
            + Live(states[n], id)
  {
    hide Inv, Apply, Legal, Enables, Dispatches, Cancels, Vetoes, Live;
    if n > 0 {
      EnablesAreConserved(states, steps, id, n - 1);
      RunStep(states, steps, n - 1);
      StepBalances(states[n - 1], steps[n - 1], id);
    } else {
      NothingLive(states[0], id);
    }
  }

  function One(b: bool): nat {
    if b then 1 else 0
  }

  lemma StepBalances(st: State, step: Step, id: Id)
    requires Inv(st) && Legal(st, step)
    ensures Sane(st)
    ensures Live(st, id) + One(Enables(st, step, id)) ==
            One(Dispatches(st, step, id)) + One(Cancels(st, step, id)) + One(Vetoes(st, step, id))
            + Live(Apply(st, step), id)
  {
    StepEffect(st, step, id);
  }

  lemma NothingLive(st: State, id: Id)
    requires Initial(st)
    ensures Live(st, id) == 0
  {
  }

  // ----- vetoed timers

  /** A timer that `should_dispatch` rejects is never usable again: it stays locked
      and off every list, so enabling it reports Busy and removing it NoEnt for the rest of
      the run, although the header promises that it is merely deactivated. */
  lemma VetoedTimerIsStuck(states: seq<State>, steps: seq<Step>, id: Id, k: nat, j: nat)
    requires Run(states, steps) && k < j <= |steps|
    requires Inv(states[k]) && Vetoes(states[k], steps[k], id)
    ensures Inv(states[j]) && states[j].Is(id, Locked) && id !in states[j].held
    ensures EnableTimer(states[j], id) == (states[j], Busy)
    ensures RemoveTimer(states[j], id) == (states[j], NoEnt)
  {
    StaysLocked(states, steps, id, k, j);
  }

  lemma LockedStep(st: State, step: Step, id: Id)
    requires Inv(st) && Legal(st, step)
    requires (st.Is(id, Locked) && id !in st.held) || Vetoes(st, step, id)
    ensures Inv(Apply(st, step)) && Apply(st, step).Is(id, Locked) && id !in Apply(st, step).held
  {
    StepEffect(st, step, id);
  }

  lemma {:induction false} StaysLocked(states: seq<State>, steps: seq<Step>, id: Id, k: nat, j: nat)
    requires Run(states, steps) && k < j <= |steps|
    requires Inv(states[k]) && Vetoes(states[k], steps[k], id)
    ensures Inv(states[j]) && states[j].Is(id, Locked) && id !in states[j].held
    decreases j
  {
    RunStep(states, steps, j - 1);
    if k < j - 1 {
      StaysLocked(states, steps, id, k, j - 1);
    }
    LockedStep(states[j - 1], steps[j - 1], id);
  }

  /** Step i does not enable the timer. */
  ghost predicate NotEnabledIn(steps: seq<Step>, id: Id, k: nat, j: nat)
    requires j <= |steps|
  {
    forall i :: k < i < j ==> steps[i] != Enable(id)
  }

  lemma {:induction false} AfterExpiry(states: seq<State>, steps: seq<Step>, id: Id, k: nat, j: nat)
    requires Run(states, steps) && k < j <= |steps| && NotEnabledIn(steps, id, k, j)
    requires Inv(states[k]) && Expires(states[k], steps[k], id) && id !in steps[k].vetoed
    ensures Inv(states[j]) && (if id in states[j].held then states[j].Is(id, Locked) else states[j].Is(id, Disabled))
    decreases j
  {
    RunStep(states, steps, j - 1);
    if k < j - 1 {
      AfterExpiry(states, steps, id, k, j - 1);
    }
    StepEffect(states[j - 1], steps[j - 1], id);
  }

  /** Once a tick has found a timer due and is done with it, the timer can be enabled again
      exactly if its dispatch was not refused; otherwise it is stuck. */
  lemma StuckIffVetoed(states: seq<State>, steps: seq<Step>, id: Id, k: nat, j: nat)
    requires Run(states, steps) && k < j <= |steps| && NotEnabledIn(steps, id, k, j)
    requires Inv(states[k]) && Expires(states[k], steps[k], id)
    requires id !in states[j].held
    ensures Inv(states[j]) && id in states[j].timers
    ensures EnableTimer(states[j], id).1 == Ok <==> id !in steps[k].vetoed
    ensures states[j].Is(id, Locked) <==> id in steps[k].vetoed
  {
    if id in steps[k].vetoed {
      VetoedTimerIsStuck(states, steps, id, k, j);
    } else {
      AfterExpiry(states, steps, id, k, j);
    }
  }

  /** A timer due at the next run is enabled for the very next tick. */
  lemma EnabledAtOnce(st: State, id: Id)
    requires Inv(st) && st.Is(id, Disabled) && st.timers[id].due == st.nextRun
    ensures var st' := EnableTimer(st, id).0;
            && Inv(st') && st'.Is(id, Enabled) && st'.timers[id].due == st.nextRun
            && st'.res == st.res && st'.nextRun == st.nextRun && st'.held == st.held
  {
    EnableKeeps(st, id);
    LocalEffect(st, Enable(id), id);
    ClampOrders(Mark(st, id, Locked), id);
  }

  lemma ArmedAtOnce(st: State, id: Id)
    requires Initial(st)
    ensures var st' := Armed(st, id, st.nextRun);
            && Inv(st) && Inv(st') && st'.Is(id, Disabled) && st'.timers[id].due == st.nextRun
            && st'.res == st.res && st'.nextRun == st.nextRun && st'.held == []
  {
    InitialInv(st);
    ArmedKeeps(st, id, st.nextRun);
  }

  /** A run that gets there, from any new wheel: a timer is armed, enabled, found due by the
      next tick, and refused. */
  lemma VetoedRun(st: State, id: Id) returns (states: seq<State>, steps: seq<Step>)
    requires Initial(st)
    ensures Run(states, steps) && states[0] == st && |steps| == 3
    ensures Inv(states[2]) && Vetoes(states[2], steps[2], id)
    ensures Inv(states[3]) && id in states[3].timers
    ensures EnableTimer(states[3], id).1 == Busy && RemoveTimer(states[3], id).1 == NoEnt
  {
    hide Inv, Claim, EnableTimer, Initial, RemoveTimer;
    ArmedAtOnce(st, id);
    var st1 := Armed(st, id, st.nextRun);
    EnabledAtOnce(st1, id);
    var st2 := EnableTimer(st1, id).0;
    steps := [SetDue(id, st.nextRun), Enable(id), Tick(st.nextRun, {id})];
    SaneWheel(st);
    states := [st, st1, st2, Apply(st2, steps[2])];
    assert StepAt(states, steps, 0) && StepAt(states, steps, 1) && StepAt(states, steps, 2);
    VetoedTimerIsStuck(states, steps, id, 2, 3);
  }

  lemma SaneWheel(st: State)
    requires Inv(st)
    ensures Sane(st) && st.nextRun.Normal()
  {
  }

  // ----- a tick together with the callbacks it dispatches

  /** A dispatch callback may arm, enable, disable and remove timers. */
  predicate CallbackStep(st: State, step: Step) {
    !step.Tick? && !step.Dispatch? && Legal(st, step)
  }

  ghost function React(st: State, steps: seq<Step>): State
    requires Inv(st)
    decreases |steps|
  {
    if steps == [] then st
    else if CallbackStep(st, steps[0]) then
      StepKeeps(st, steps[0]);
      React(Apply(st, steps[0]), steps[1..])
    else
      React(st, steps[1..])
  }

  lemma {:induction false} ReactKeeps(st: State, steps: seq<Step>)
    requires Inv(st)
    ensures var st' := React(st, steps);
            Inv(st') && st'.held == st.held && st'.res == st.res && st'.nextRun == st.nextRun
    decreases |steps|
  {
    if steps != [] {
      if CallbackStep(st, steps[0]) {
        StepKeeps(st, steps[0]);
        LocalEffect(st, steps[0], 0);
        ReactKeeps(Apply(st, steps[0]), steps[1..]);
      } else {
        ReactKeeps(st, steps[1..]);
      }
    }
  }

  /** The dispatch loop of `ph_timerwheel_tick`: `callback` says how the callback of a
      timer reacts, given the wheel it sees. */
  ghost function DispatchAll(st: State, callback: (State, Id) -> seq<Step>): State
    requires Inv(st)
    decreases |st.held|
  {
    if st.held == [] then st
    else
      DispatchKeeps(st);
      var st1 := DispatchFirst(st);
      var steps := callback(st1, st.held[0]);
      ReactKeeps(st1, steps);
      DispatchAll(React(st1, steps), callback)
  }

  lemma {:induction false} DispatchAllKeeps(st: State, callback: (State, Id) -> seq<Step>)
    requires Inv(st)
    ensures var st' := DispatchAll(st, callback);
            Settled(st') && st'.res == st.res && st'.nextRun == st.nextRun
    decreases |st.held|
  {
    if st.held != [] {
      DispatchKeeps(st);
      var st1 := DispatchFirst(st);
      var steps := callback(st1, st.held[0]);
      ReactKeeps(st1, steps);
      DispatchAllKeeps(React(st1, steps), callback);
    }
  }

  // ----- what one tick leaves of a timer it found due

  predicate LeavesAlone(steps: seq<Step>, id: Id) {
    forall i :: 0 <= i < |steps| ==> steps[i].Tick? || steps[i].Dispatch? || steps[i].id != id
  }

  lemma {:induction false} ReactLeaves(st: State, steps: seq<Step>, id: Id)
    requires Inv(st) && LeavesAlone(steps, id) && id in st.timers
    ensures id in React(st, steps).timers && React(st, steps).timers[id] == st.timers[id]
    decreases |steps|
  {
    if steps != [] {
      if CallbackStep(st, steps[0]) {
        StepKeeps(st, steps[0]);
        LocalEffect(st, steps[0], id);
        assert st.Is(id, st.timers[id].state);
        ReactLeaves(Apply(st, steps[0]), steps[1..], id);
      } else {
        ReactLeaves(st, steps[1..], id);
      }
    }
  }

  lemma {:induction false} DispatchAllSettles(st: State, callback: (State, Id) -> seq<Step>, id: Id)
    requires Inv(st) && id in st.timers && forall s, x :: LeavesAlone(callback(s, x), id)
    ensures var st' := DispatchAll(st, callback);
            id in st'.timers && st'.timers[id].state == if id in st.held then Disabled else st.timers[id].state
    decreases |st.held|
  {
    hide Inv;
    if st.held != [] {
      DispatchKeeps(st);
      HeldSplit(st);
      var st1 := DispatchFirst(st);
      var steps := callback(st1, st.held[0]);
      ReactKeeps(st1, steps);
      ReactLeaves(st1, steps, id);
      DispatchAllSettles(React(st1, steps), callback, id);
    }
  }

  lemma HeldSplit(st: State)
    requires Inv(st) && st.held != []
    ensures st.held[0] !in st.held[1..] && st.held[0] in st.timers
    ensures forall x :: x in st.held <==> x == st.held[0] || x in st.held[1..]
  {
    assert st.held == [st.held[0]] + st.held[1..];
  }

  /** A whole tick with its callbacks: a timer due in it can be enabled afterwards exactly if
      its dispatch was not refused, unless a callback has acted on it. */
  lemma UsableIffDispatched(st: State, now: Timeval, vetoed: set<Id>, callback: (State, Id) -> seq<Step>, id: Id)
    requires Settled(st) && st.Is(id, Enabled) && st.DueTick(id) == st.Now() <= ToTick(st.res, now)
    requires forall s, x :: LeavesAlone(callback(s, x), id)
    ensures var st' := DispatchAll(Claim(st, now, vetoed), callback);
            Settled(st') && id in st'.timers && (EnableTimer(st', id).1 == Ok <==> id !in vetoed)
  {
    ClaimIsExact(st, now, vetoed);
    DispatchAllKeeps(Claim(st, now, vetoed), callback);
    DispatchAllSettles(Claim(st, now, vetoed), callback, id);
  }
}

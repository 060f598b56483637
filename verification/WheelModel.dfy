/** The timer wheel as a state machine: what each locked operation does to the
    slot lists and the timers.  `TimerWheel` implements these operations in place. */
module WheelModel {
  import opened Options
  import opened TimerTicks
  import opened WheelSlots

  type Id = nat

  datatype TimerState = Disabled | Locked | Enabled

  datatype Timer = Timer(due: Timeval, state: TimerState, list: Option<Slot>)

  datatype Result = Ok | Busy | NoEnt

  /** `held` is the local list of a cascade or tick: timers stolen from a slot
      and not yet re-filed or dispatched. */
  datatype State = State(
    res: nat,
    nextRun: Timeval,
    lists: map<Slot, seq<Id>>,
    timers: map<Id, Timer>,
    held: seq<Id>)
  {
    function List(s: Slot): seq<Id> {
      if s in lists then lists[s] else []
    }

    function Now(): nat
      requires res > 0
    {
      ToTick(res, nextRun)
    }

    function DueTick(id: Id): nat
      requires res > 0 && id in timers
    {
      ToTick(res, timers[id].due)
    }

    predicate Is(id: Id, state: TimerState) {
      id in timers && timers[id].state == state
    }

    predicate IsIn(id: Id, s: Slot) {
      id in timers && timers[id].list == Some(s)
    }
  }

  // ----- well-formed states

  ghost predicate NoDup<T>(s: seq<T>) {
    forall i, j :: 0 <= i < j < |s| ==> s[i] != s[j]
  }

  /** Clock and timers are sane; the resolution is one whose steps are ticks. */
  ghost predicate Sane(st: State) {
    && st.res > 0 && Uniform(st.res) && st.nextRun.Normal()
    && (forall id :: id in st.timers ==> st.timers[id].due.Normal())
    && (forall id :: id in st.timers && st.timers[id].list.Some? ==> InWheel(st.timers[id].list.value))
  }

  /** The lists and the timers' `list` fields agree: each timer that is not held is on
      exactly the list it names, once. */
  ghost predicate Linked(st: State) {
    && (forall s, id :: id in st.List(s) <==> st.IsIn(id, s) && id !in st.held)
    && (forall s :: NoDup(st.List(s)))
    && NoDup(st.held)
    && (forall id :: id in st.held ==> id in st.timers && st.timers[id].list.Some?)
  }

  /** If enabled, a timer is not overdue at tick `now`, and unless it is held it is
      filed where it will be seen in time. */
  ghost predicate Seen(t: Timer, held: bool, now: nat, res: nat)
    requires res > 0
  {
    t.state == Enabled ==>
      && t.list.Some? && InWheel(t.list.value)
      && now <= ToTick(res, t.due)
      && (!held ==> Timely(t.list.value, now, ToTick(res, t.due)))
  }

  ghost predicate OnTime(st: State)
    requires st.res > 0
  {
    forall id :: id in st.timers ==> Seen(st.timers[id], id in st.held, st.Now(), st.res)
  }

  /** Between operations the timers a tick holds are locked, and no timer on a list is. */
  ghost predicate HeldLocked(st: State) {
    && (forall id :: id in st.held ==> st.Is(id, Locked))
    && (forall id :: st.Is(id, Locked) && id !in st.held ==> st.timers[id].list == None)
  }

  ghost predicate Inv(st: State) {
    Sane(st) && Linked(st) && OnTime(st) && HeldLocked(st)
  }

  // ----- list primitives

  /** PH_LIST_REMOVE */
  function Without(s: seq<Id>, id: Id): seq<Id> {
    if s == [] then []
    else if s[0] == id then s[1..]
    else [s[0]] + Without(s[1..], id)
  }

  lemma {:induction false} WithoutMembers(s: seq<Id>, id: Id)
    requires NoDup(s)
    ensures NoDup(Without(s, id))
    ensures forall x :: x in Without(s, id) <==> x in s && x != id
  {
    if s != [] {
      var t := s[1..];
      assert forall x :: x in s <==> x == s[0] || x in t;
      assert s[0] !in t;
      if s[0] != id {
        WithoutMembers(t, id);
      }
    }
  }

  function SetTimer(st: State, id: Id, t: Timer): State {
    st.(timers := st.timers[id := t])
  }

  function Unlink(st: State, id: Id): State {
    if id in st.timers && st.timers[id].list.Some? then
      var s := st.timers[id].list.value;
      st.(lists := st.lists[s := Without(st.List(s), id)],
          timers := st.timers[id := st.timers[id].(list := None)])
    else
      st
  }

  function Link(st: State, id: Id, s: Slot): State
    requires id in st.timers
  {
    st.(lists := st.lists[s := [id] + st.List(s)],
        timers := st.timers[id := st.timers[id].(list := Some(s))])
  }

  // ----- operations

  /** The clamp at the head of `compute_list`: never schedule in the past. */
  function Clamp(nextRun: Timeval, due: Timeval): Timeval {
    if due.Before(nextRun) then nextRun else due
  }

  function ClampDue(st: State, id: Id): State
    requires id in st.timers
  {
    SetTimer(st, id, st.timers[id].(due := Clamp(st.nextRun, st.timers[id].due)))
  }

  /** The slot for a timer whose due time has been clamped. */
  function SlotFor(st: State, id: Id): Slot
    requires st.res > 0 && id in st.timers && st.Now() <= st.DueTick(id)
  {
    ComputeList(st.Now(), st.DueTick(id))
  }

  lemma ClampOrders(st: State, id: Id)
    requires Sane(st) && id in st.timers
    ensures Sane(ClampDue(st, id)) && ClampDue(st, id).Now() <= ClampDue(st, id).DueTick(id)
    ensures st.Now() <= st.DueTick(id) ==> ClampDue(st, id).DueTick(id) == st.DueTick(id)
    ensures st.DueTick(id) <= st.Now() ==> ClampDue(st, id).DueTick(id) == st.Now()
  {
    var due := st.timers[id].due;
    ToTickMonotone(st.res, st.nextRun, Clamp(st.nextRun, due));
    if due.Before(st.nextRun) {
      ToTickMonotone(st.res, due, st.nextRun);
    } else {
      ToTickMonotone(st.res, st.nextRun, due);
    }
  }

  function Mark(st: State, id: Id, state: TimerState): State
    requires id in st.timers
  {
    SetTimer(st, id, st.timers[id].(state := state))
  }

  /** Take a timer off its list, if any, and put it on another one, enabled. */
  function Move(st: State, id: Id, s: Slot): State
    requires id in st.timers
  {
    Mark(Link(Unlink(st, id), id, s), id, Enabled)
  }

  /** `ph_timerwheel_enable` */
  function EnableTimer(st: State, id: Id): (State, Result)
    requires Sane(st) && id in st.timers
  {
    if st.timers[id].state != Disabled then
      (st, Busy)
    else
      var st0 := Mark(st, id, Locked);
      ClampOrders(st0, id);
      var st1 := ClampDue(st0, id);
      var s := SlotFor(st1, id);
      if st1.timers[id].list == Some(s) then
        (Mark(st1, id, Enabled), Ok)
      else
        (Move(st1, id, s), Ok)
  }

  /** `ph_timerwheel_disable` */
  function DisableTimer(st: State, id: Id): (State, Result)
    requires id in st.timers
  {
    if st.timers[id].state == Locked then
      (st, Busy)
    else
      (SetTimer(st, id, st.timers[id].(state := Disabled)), Ok)
  }

  /** `ph_timerwheel_remove` */
  function RemoveTimer(st: State, id: Id): (State, Result)
    requires id in st.timers
  {
    if st.timers[id].list.None? then
      (st, NoEnt)
    else
      var (st1, r) := DisableTimer(st, id);
      if r != Ok then (st1, r) else (Unlink(st1, id), Ok)
  }

  /** PH_LIST_SWAP of an empty local list with a slot. */
  function Steal(st: State, s: Slot): State {
    st.(held := st.List(s), lists := st.lists[s := []])
  }

  /** Take the held timer at `k` off the local list. */
  function Drop(st: State, k: nat): State
    requires k < |st.held| && st.held[k] in st.timers
  {
    var id := st.held[k];
    SetTimer(st.(held := st.held[..k] + st.held[k + 1..]), id, st.timers[id].(list := None))
  }

  /** One iteration of the loop of `cascade_timer`: take the first held timer. */
  function RefileFirst(st: State): State
    requires Sane(st) && st.held != [] && st.held[0] in st.timers
  {
    var id := st.held[0];
    var st1 := Drop(st, 0);
    if st.timers[id].state == Disabled then
      st1
    else
      ClampOrders(st1, id);
      var st2 := ClampDue(st1, id);
      Link(st2, id, SlotFor(st2, id))
  }

  /** Does the claim loop of `ph_timerwheel_tick` keep this timer?  `vetoed` are the
      timers for which `should_dispatch` answers false. */
  predicate Claims(st: State, id: Id, vetoed: set<Id>) {
    st.Is(id, Enabled) && id !in vetoed
  }

  /** What the claim loop does to a timer of the slot. */
  function ClaimedTimer(t: Timer, vetoed: bool): Timer {
    if t.state == Enabled then
      if vetoed then t.(state := Locked, list := None) else t.(state := Locked)
    else
      t.(list := None)
  }

  /** The timers of `ids` that the claim loop keeps, in order. */
  function Kept(st: State, ids: seq<Id>, vetoed: set<Id>): seq<Id> {
    if ids == [] then []
    else
      var last := ids[|ids| - 1];
      Kept(st, ids[..|ids| - 1], vetoed) + (if Claims(st, last, vetoed) then [last] else [])
  }

  /** The timers after the claim loop has passed over `ids`. */
  function ClaimTimers(st: State, ids: seq<Id>, vetoed: set<Id>): map<Id, Timer> {
    map x | x in st.timers ::
      if x in ids then ClaimedTimer(st.timers[x], x in vetoed) else st.timers[x]
  }

  /** The whole claim loop on the held timers. */
  function ClaimHeld(st: State, vetoed: set<Id>): State {
    st.(held := Kept(st, st.held, vetoed), timers := ClaimTimers(st, st.held, vetoed))
  }

  lemma ClaimNone(st: State, vetoed: set<Id>)
    ensures ClaimTimers(st, [], vetoed) == st.timers && Kept(st, [], vetoed) == []
  {
  }

  /** One iteration of the claim loop. */
  lemma ClaimOne(st: State, ids: seq<Id>, id: Id, vetoed: set<Id>)
    requires id in st.timers && id !in ids
    ensures id in ClaimTimers(st, ids, vetoed) && ClaimTimers(st, ids, vetoed)[id] == st.timers[id]
    ensures ClaimTimers(st, ids + [id], vetoed) ==
            ClaimTimers(st, ids, vetoed)[id := ClaimedTimer(st.timers[id], id in vetoed)]
    ensures Kept(st, ids + [id], vetoed) == Kept(st, ids, vetoed) + if Claims(st, id, vetoed) then [id] else []
  {
    assert (ids + [id])[..|ids|] == ids;
  }

  /** One iteration of the dispatch loop, up to the callback. */
  function DispatchFirst(st: State): State
    requires st.held != [] && st.held[0] in st.timers
  {
    var st1 := Drop(st, 0);
    SetTimer(st1, st.held[0], st1.timers[st.held[0]].(state := Disabled))
  }
}

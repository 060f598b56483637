/** Handing functions to an emitter thread: a locked list, and a ping when it becomes non-empty. */
module AffineJobs {

  /** A queued function: the wakeup of a job, or some other call. */
  datatype Func = Wake(job: nat) | Call(id: nat)

  /** Where the emitter is: waiting for the ping descriptor to become readable, draining pings,
      done draining, or running the functions it took. */
  datatype Emitter = Waiting | Draining | Drained | Running(list: seq<Func>)

  /** `queue` is affine_jobs, `pings` the undelivered pings, `owing` the producers that found
      the list empty and have yet to ping. `pending` counts n_wakeups_pending of every job,
      `waking` the wakeups counted but not yet queued. `queued` and `ran` are histories. */
  datatype State = State(
    queue: seq<Func>, pings: nat, owing: nat, emitter: Emitter,
    pending: multiset<nat>, waking: multiset<nat>, queued: seq<Func>, ran: seq<Func>)

  datatype Step =
    | Queue(id: nat)
    | Ping
    | WakeBegin(job: nat)
    | WakeQueue(job: nat)
    | WakeFail(job: nat)
    | ConsumeOne
    | ConsumeEnd
    | Swap
    | RunOne
    | RunEnd

  /** The locked part of `ph_nbio_queue_affine_func`. */
  function Enqueue(s: State, f: Func): State {
    s.(queue := s.queue + [f], queued := s.queued + [f], owing := if s.queue == [] then s.owing + 1 else s.owing)
  }

  predicate Legal(s: State, step: Step) {
    match step
    case Queue(_) => true
    case Ping => s.owing > 0
    case WakeBegin(_) => true
    case WakeQueue(job) => job in s.waking
    case WakeFail(job) => job in s.waking
    case ConsumeOne => (s.emitter.Waiting? || s.emitter.Draining?) && s.pings > 0
    case ConsumeEnd => s.emitter.Draining? && s.pings == 0
    case Swap => s.emitter.Drained?
    case RunOne => s.emitter.Running? && s.emitter.list != []
    case RunEnd => s.emitter == Running([])
  }

  function Advance(s: State, step: Step): State
    requires Legal(s, step)
  {
    match step
    case Queue(id) => Enqueue(s, Call(id))
    case Ping => s.(owing := s.owing - 1, pings := s.pings + 1)
    case WakeBegin(job) => s.(pending := s.pending + multiset{job}, waking := s.waking + multiset{job})
    case WakeQueue(job) => Enqueue(s, Wake(job)).(waking := s.waking - multiset{job})
    case WakeFail(job) => s.(pending := s.pending - multiset{job}, waking := s.waking - multiset{job})
    case ConsumeOne => s.(pings := s.pings - 1, emitter := Draining)
    case ConsumeEnd => s.(emitter := Drained)
    case Swap => s.(queue := [], emitter := Running(s.queue))
    case RunOne =>
      var f := s.emitter.list[0];
      s.(emitter := Running(s.emitter.list[1..]), ran := s.ran + [f],
         pending := if f.Wake? then s.pending - multiset{f.job} else s.pending)
    case RunEnd => s.(emitter := Waiting)
  }

  /** The functions taken and not yet run. */
  function Taken(s: State): seq<Func> {
    if s.emitter.Running? then s.emitter.list else []
  }

  function Wakes(fs: seq<Func>): multiset<nat> {
    if fs == [] then multiset{}
    else Wakes(fs[1..]) + if fs[0].Wake? then multiset{fs[0].job} else multiset{}
  }

  /** A non-empty list will be noticed. */
  predicate Noticed(s: State) {
    s.queue != [] ==> s.pings > 0 || s.owing > 0 || s.emitter.Draining? || s.emitter.Drained?
  }

  /** What was queued has run, been taken, or is in the list, in that order. */
  predicate InOrder(s: State) {
    s.queued == s.ran + (Taken(s) + s.queue)
  }

  /** A wakeup that counts as pending is about to be queued, in the list, or taken. */
  predicate WakesCounted(s: State) {
    s.pending == s.waking + Wakes(Taken(s) + s.queue)
  }

  predicate Inv(s: State) {
    Noticed(s) && InOrder(s) && WakesCounted(s)
  }

  const INITIAL := State([], 0, 0, Waiting, multiset{}, multiset{}, [], [])

  lemma {:induction false} WakesJoin(a: seq<Func>, b: seq<Func>)
    ensures Wakes(a + b) == Wakes(a) + Wakes(b)
  {
    if a == [] {
      assert a + b == b;
    } else {
      WakesJoin(a[1..], b);
      assert (a + b)[1..] == a[1..] + b;
    }
  }

  lemma NoticedKept(s: State, step: Step)
    requires Noticed(s) && Legal(s, step)
    ensures Noticed(Advance(s, step))
  {
  }

  lemma InOrderKept(s: State, step: Step)
    requires InOrder(s) && Legal(s, step)
    ensures InOrder(Advance(s, step))
  {
    var rest := Taken(s) + s.queue;
    match step {
      case Queue(id) => Longer(s.ran, Taken(s), s.queue, Call(id));
      case WakeQueue(job) => Longer(s.ran, Taken(s), s.queue, Wake(job));
      case Swap => assert [] + s.queue == s.queue + [];
      case RunOne => Shift(s.ran, s.emitter.list, s.queue);
      case _ =>
    }
  }

  lemma Longer(ran: seq<Func>, taken: seq<Func>, queue: seq<Func>, f: Func)
    ensures ran + (taken + queue) + [f] == ran + (taken + (queue + [f]))
  {
  }

  lemma Shift(ran: seq<Func>, list: seq<Func>, queue: seq<Func>)
    requires list != []
    ensures ran + (list + queue) == ran + [list[0]] + (list[1..] + queue)
    ensures list + queue == [list[0]] + (list[1..] + queue)
  {
    assert list == [list[0]] + list[1..];
  }

  function WakeOf(f: Func): multiset<nat> {
    if f.Wake? then multiset{f.job} else multiset{}
  }

  lemma WakesMore(taken: seq<Func>, queue: seq<Func>, f: Func)
    ensures Wakes(taken + (queue + [f])) == Wakes(taken + queue) + WakeOf(f)
  {
    WakesJoin(taken + queue, [f]);
    assert taken + queue + [f] == taken + (queue + [f]);
    assert Wakes([f]) == WakeOf(f) by { assert [f][1..] == []; }
  }

  lemma WakesFewer(list: seq<Func>, queue: seq<Func>)
    requires list != []
    ensures Wakes(list + queue) == Wakes(list[1..] + queue) + WakeOf(list[0])
  {
    assert (list + queue)[1..] == list[1..] + queue;
  }

  lemma WakesCountedKept(s: State, step: Step)
    requires WakesCounted(s) && Legal(s, step)
    ensures WakesCounted(Advance(s, step))
  {
    hide Wakes;
    match step {
      case Queue(id) => WakesMore(Taken(s), s.queue, Call(id));
      case WakeQueue(job) =>
        WakesMore(Taken(s), s.queue, Wake(job));
        Move(s.waking, Wakes(Taken(s) + s.queue), job);
      case WakeFail(job) => Cancel(s.waking, Wakes(Taken(s) + s.queue), multiset{job});
      case Swap => assert [] + s.queue == s.queue + [];
      case RunOne =>
        var list := s.emitter.list;
        WakesFewer(list, s.queue);
        Cancel(WakeOf(list[0]), s.waking + Wakes(list[1..] + s.queue), WakeOf(list[0]));
        assert s.pending == WakeOf(list[0]) + (s.waking + Wakes(list[1..] + s.queue));
      case WakeBegin(job) =>
      case _ =>
    }
  }

  lemma Move(a: multiset<nat>, b: multiset<nat>, x: nat)
    requires x in a
    ensures a + b == a - multiset{x} + (b + multiset{x})
  {
  }

  lemma Cancel(a: multiset<nat>, b: multiset<nat>, c: multiset<nat>)
    requires c <= a
    ensures a + b - c == a - c + b
  {
  }

  /** No step of any producer or of the emitter breaks the protocol. */
  lemma AdvanceKeeps(s: State, step: Step)
    requires Inv(s) && Legal(s, step)
    ensures Inv(Advance(s, step))
  {
    hide Noticed, InOrder, WakesCounted, Advance;
    NoticedKept(s, step);
    InOrderKept(s, step);
    WakesCountedKept(s, step);
  }

  ghost predicate StepAt(states: seq<State>, steps: seq<Step>, i: nat) {
    i + 1 < |states| && i < |steps| && Legal(states[i], steps[i]) && states[i + 1] == Advance(states[i], steps[i])
  }

  ghost predicate Run(states: seq<State>, steps: seq<Step>) {
    |states| == |steps| + 1 && states[0] == INITIAL && forall i :: 0 <= i < |steps| ==> StepAt(states, steps, i)
  }

  /** What the steps queued, in the order of the locked sections. */
  function QueuedBy(steps: seq<Step>): seq<Func> {
    if steps == [] then []
    else
      QueuedBy(steps[..|steps| - 1]) +
      match steps[|steps| - 1]
      case Queue(id) => [Call(id)]
      case WakeQueue(job) => [Wake(job)]
      case _ => []
  }

  /** In every interleaving: no wakeup is lost, functions run in the order they were queued and
      none twice, and every counted wakeup is about to be queued, queued, or taken. */
  lemma {:induction false} RunKeeps(states: seq<State>, steps: seq<Step>, i: nat)
    requires Run(states, steps) && i < |states|
    ensures Inv(states[i]) && states[i].queued == QueuedBy(steps[..i]) && states[i].ran <= QueuedBy(steps[..i])
  {
    hide Advance, Wakes, Noticed, WakesCounted;
    if i > 0 {
      RunKeeps(states, steps, i - 1);
      assert StepAt(states, steps, i - 1);
      AdvanceKeeps(states[i - 1], steps[i - 1]);
      AdvanceQueues(states[i - 1], steps[i - 1]);
      assert steps[..i][..i - 1] == steps[..i - 1];
    } else {
      InitialHolds();
    }
  }

  lemma InitialHolds()
    ensures Inv(INITIAL)
  {
  }

  lemma AdvanceQueues(s: State, step: Step)
    requires Legal(s, step)
    ensures Advance(s, step).queued == s.queued + QueuedBy([step])
  {
    assert QueuedBy([step][..0]) == [];
  }

  /** The emitter sleeps with nothing on the way only when everything queued has run. */
  lemma RestIsDone(states: seq<State>, steps: seq<Step>, i: nat)
    requires Run(states, steps) && i < |states|
    requires states[i].emitter == Waiting && states[i].pings == 0 && states[i].owing == 0
    ensures states[i].ran == QueuedBy(steps[..i]) && states[i].pending == states[i].waking
  {
    RunKeeps(states, steps, i);
    assert states[i].ran + ([] + []) == states[i].ran;
  }

  // ----- progress

  /** A step by which queued functions get nearer to being run. */
  predicate Serves(step: Step) {
    step.Ping? || step.ConsumeOne? || step.ConsumeEnd? || step.Swap? || step.RunOne? || step.RunEnd?
  }

  function Rank(s: State): nat {
    7 * s.owing + 5 * s.pings + |Taken(s)| + |s.queue|
    + match s.emitter
      case Waiting => 0
      case Running(_) => 1
      case Drained => 2
      case Draining => 3
  }

  /** While something queued has not run, the emitter or a producer that owes a ping can move,
      and each such move brings the end nearer. */
  lemma Progress(s: State)
    requires Inv(s)
    ensures s.ran != s.queued ==> exists step :: Serves(step) && Legal(s, step)
    ensures forall step :: Serves(step) && Legal(s, step) ==> Rank(Advance(s, step)) < Rank(s)
  {
    if s.ran != s.queued {
      assert s.ran + ([] + []) == s.ran;
      match s.emitter {
        case Waiting =>
          if s.pings > 0 {
            assert Legal(s, ConsumeOne) && Serves(ConsumeOne);
          } else {
            assert Legal(s, Ping) && Serves(Ping);
          }
        case Draining =>
          if s.pings > 0 {
            assert Legal(s, ConsumeOne) && Serves(ConsumeOne);
          } else {
            assert Legal(s, ConsumeEnd) && Serves(ConsumeEnd);
          }
        case Drained => assert Legal(s, Swap) && Serves(Swap);
        case Running(list) =>
          if list != [] {
            assert Legal(s, RunOne) && Serves(RunOne);
          } else {
            assert Legal(s, RunEnd) && Serves(RunEnd);
          }
      }
    }
  }

  // ----- the code of the two sides

  class AffineQueue {
    var affineJobs: seq<Func>
    var pings: nat
    var ran: seq<Func>

    /** `ph_nbio_queue_affine_func`: the locked section and the ping. */
    method QueueFunc(f: Func, memory: bool) returns (ok: bool)
      modifies this
      ensures ok == memory && ran == old(ran)
      ensures ok ==> affineJobs == old(affineJobs) + [f]
      ensures ok ==> pings == if old(affineJobs) == [] then old(pings) + 1 else old(pings)
      ensures !ok ==> affineJobs == old(affineJobs) && pings == old(pings)
      ensures old(affineJobs != [] ==> pings > 0) ==> affineJobs != [] ==> pings > 0
    {
      if !memory {
        return false;
      }
      var needPing := affineJobs == [];
      affineJobs := affineJobs + [f];
      if needPing {
        pings := pings + 1;
      }
      ok := true;
    }

    /** `ph_pingfd_consume_all` */
    method ConsumeAll() returns (n: nat)
      modifies this`pings
      ensures pings == 0 && n == old(pings)
    {
      n := 0;
      while pings > 0
        invariant n + pings == old(pings)
      {
        pings := pings - 1;
        n := n + 1;
      }
    }

    /** `ph_nbio_process_affine_jobs` */
    method Process()
      modifies this
      ensures old(pings) > 0 ==> ran == old(ran) + old(affineJobs) && affineJobs == []
      ensures old(pings) == 0 ==> ran == old(ran) && affineJobs == old(affineJobs)
      ensures pings == 0
      ensures old(affineJobs != [] ==> pings > 0) ==> ran == old(ran + affineJobs)
    {
      var n := ConsumeAll();
      if n > 0 {
        var list := affineJobs;
        affineJobs := [];
        ghost var all := list;
        while list != []
          invariant ran + list == old(ran) + all && pings == 0 && affineJobs == []
          decreases |list|
        {
          assert list == [list[0]] + list[1..];
          ran := ran + [list[0]];
          list := list[1..];
        }
      }
      assert old(affineJobs) == [] ==> old(ran) + old(affineJobs) == old(ran);
    }
  }
}

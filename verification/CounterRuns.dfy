/** Per-thread counter blocks with a sequence lock: one writer per block, a reader that adds the
    blocks up, every interleaving of their memory accesses. */
module CounterRuns {

  /** `seqno` is a uint32_t; the model counts without wrapping and compares modulo this. */
  const WRAP := 0x1_0000_0000

  /** Where a writer is: between calls, after the store of `ph_counter_block_add`, or in
      `ph_counter_block_bulk_add` with these additions left. */
  datatype Writer = Idle | Stored | Bulk(left: seq<(nat, int)>)

  datatype Block = Block(slots: seq<int>, seqno: nat, writer: Writer)

  /** Where the reader is: not reading, about to read block j, or copying it. */
  datatype Reader =
    | Resting
    | Scanning(j: nat, sum: seq<int>)
    | Copying(j: nat, sum: seq<int>, vers: nat, got: map<nat, int>)
    | Viewed(sum: seq<int>)

  datatype State = State(width: nat, blocks: seq<Block>, reader: Reader)

  datatype Step =
    | Store(t: nat, slot: nat, value: int)
    | Record(t: nat)
    | BulkBegin(t: nat, adds: seq<(nat, int)>)
    | BulkStore(t: nat)
    | BulkEnd(t: nat)
    | ViewBegin
    | ReadBegin
    | CopySlot(i: nat)
    | ReadEnd

  function Zeros(n: nat): (z: seq<int>)
    ensures |z| == n && forall i :: 0 <= i < n ==> z[i] == 0
  {
    if n == 0 then [] else Zeros(n - 1) + [0]
  }

  function Plus(a: seq<int>, b: seq<int>): (c: seq<int>)
    requires |a| == |b|
    ensures |c| == |a| && forall i :: 0 <= i < |a| ==> c[i] == a[i] + b[i]
  {
    if a == [] then [] else Plus(a[..|a| - 1], b[..|a| - 1]) + [a[|a| - 1] + b[|a| - 1]]
  }

  ghost predicate Whole(got: map<nat, int>, n: nat) {
    forall i: nat :: i in got <==> i < n
  }

  function Vector(got: map<nat, int>, n: nat): (v: seq<int>)
    requires forall i: nat :: i < n ==> i in got
    ensures |v| == n && forall i :: 0 <= i < n ==> v[i] == got[i]
  {
    if n == 0 then [] else Vector(got, n - 1) + [got[n - 1]]
  }

  /** The block after a step of its writer. */
  function Write(b: Block, step: Step): Block {
    match step
    case Store(_, slot, value) =>
      if slot < |b.slots| then b.(slots := b.slots[slot := b.slots[slot] + value], writer := Stored) else b
    case Record(_) => b.(seqno := b.seqno + 2, writer := Idle)
    case BulkBegin(_, adds) => b.(seqno := b.seqno + 1, writer := Bulk(adds))
    case BulkStore(_) =>
      if b.writer.Bulk? && b.writer.left != [] && b.writer.left[0].0 < |b.slots| then
        var (slot, value) := b.writer.left[0];
        b.(slots := b.slots[slot := b.slots[slot] + value], writer := Bulk(b.writer.left[1..]))
      else b
    case BulkEnd(_) => b.(seqno := b.seqno + 1, writer := Idle)
    case _ => b
  }

  predicate IsWrite(step: Step) {
    step.Store? || step.Record? || step.BulkBegin? || step.BulkStore? || step.BulkEnd?
  }

  predicate MayWrite(b: Block, step: Step)
    requires IsWrite(step)
  {
    match step
    case Store(_, slot, _) => b.writer == Idle && slot < |b.slots|
    case Record(_) => b.writer == Stored
    case BulkBegin(_, adds) => b.writer == Idle && forall i :: 0 <= i < |adds| ==> adds[i].0 < |b.slots|
    case BulkStore(_) => b.writer.Bulk? && b.writer.left != []
    case BulkEnd(_) => b.writer == Bulk([])
  }

  ghost predicate Legal(s: State, step: Step) {
    if IsWrite(step) then step.t < |s.blocks| && MayWrite(s.blocks[step.t], step)
    else match step
      case ViewBegin => s.reader.Resting? || s.reader.Viewed?
      case ReadBegin => s.reader.Scanning? && s.reader.j < |s.blocks|
      case CopySlot(i) => s.reader.Copying? && i < s.width && i !in s.reader.got
      case ReadEnd => s.reader.Copying? && Whole(s.reader.got, s.width)
      case _ => false
  }

  ghost function Advance(s: State, step: Step): State
    requires Sane(s) && Legal(s, step)
  {
    if IsWrite(step) then s.(blocks := s.blocks[step.t := Write(s.blocks[step.t], step)])
    else match step
      case ViewBegin => s.(reader := if s.blocks == [] then Viewed(Zeros(s.width)) else Scanning(0, Zeros(s.width)))
      case ReadBegin =>
        var b := s.blocks[s.reader.j];
        if b.seqno % 2 == 0 then s.(reader := Copying(s.reader.j, s.reader.sum, b.seqno % WRAP, map[])) else s
      case CopySlot(i) => s.(reader := s.reader.(got := s.reader.got[i := s.blocks[s.reader.j].slots[i]]))
      case ReadEnd =>
        var r := s.reader;
        if s.blocks[r.j].seqno % WRAP != r.vers then s.(reader := Scanning(r.j, r.sum))
        else
          var sum := Plus(r.sum, Vector(r.got, s.width));
          s.(reader := if r.j + 1 < |s.blocks| then Scanning(r.j + 1, sum) else Viewed(sum))
      case _ => s
  }

  // ----- what every step keeps

  /** Blocks have `width` slots; the sequence number is odd exactly during a bulk addition. */
  predicate SaneBlock(b: Block, width: nat) {
    && |b.slots| == width
    && (b.writer.Bulk? <==> b.seqno % 2 == 1)
    && (b.writer.Bulk? ==> forall i :: 0 <= i < |b.writer.left| ==> b.writer.left[i].0 < width)
  }

  ghost predicate Sane(s: State) {
    && (forall t :: 0 <= t < |s.blocks| ==> SaneBlock(s.blocks[t], s.width))
    && match s.reader
       case Resting => true
       case Scanning(j, sum) => j < |s.blocks| && |sum| == s.width
       case Copying(j, sum, _, got) => j < |s.blocks| && |sum| == s.width && forall i: nat :: i in got ==> i < s.width
       case Viewed(sum) => |sum| == s.width
  }

  lemma WriteKeeps(b: Block, step: Step, width: nat)
    requires SaneBlock(b, width) && IsWrite(step) && MayWrite(b, step)
    ensures SaneBlock(Write(b, step), width) && Write(b, step).seqno >= b.seqno
  {
  }

  lemma AdvanceKeeps(s: State, step: Step)
    requires Sane(s) && Legal(s, step)
    ensures Sane(Advance(s, step)) && |Advance(s, step).blocks| == |s.blocks| && Advance(s, step).width == s.width
    ensures forall t :: 0 <= t < |s.blocks| ==> s.blocks[t].seqno <= Advance(s, step).blocks[t].seqno
  {
    if IsWrite(step) {
      WriteKeeps(s.blocks[step.t], step, s.width);
    }
  }

  ghost predicate StepAt(states: seq<State>, steps: seq<Step>, i: nat) {
    && i + 1 < |states| && i < |steps|
    && Sane(states[i]) && Legal(states[i], steps[i]) && states[i + 1] == Advance(states[i], steps[i])
  }

  ghost predicate Run(states: seq<State>, steps: seq<Step>) {
    && |states| == |steps| + 1
    && Sane(states[0])
    && forall i :: 0 <= i < |steps| ==> StepAt(states, steps, i)
  }

  lemma {:induction false} RunSane(states: seq<State>, steps: seq<Step>, i: nat)
    requires Run(states, steps) && i < |states|
    ensures Sane(states[i]) && |states[i].blocks| == |states[0].blocks| && states[i].width == states[0].width
  {
    if i > 0 {
      RunSane(states, steps, i - 1);
      assert StepAt(states, steps, i - 1);
      AdvanceKeeps(states[i - 1], steps[i - 1]);
    }
  }

  // ----- one read

  /** While the sequence number has not moved since the read began, at most one store happened,
      and everything copied is from before or after it. */
  ghost predicate Steady(b0: Block, b: Block, got: map<nat, int>) {
    || (&& b == b0
        && forall i: nat :: i in got && i < |b0.slots| ==> got[i] == b0.slots[i])
    || (&& b0.writer == Idle && b.writer == Stored && |b.slots| == |b0.slots|
        && exists k: nat :: OneStore(b0, b, got, k))
  }

  ghost predicate OneStore(b0: Block, b: Block, got: map<nat, int>, k: nat)
    requires |b.slots| == |b0.slots|
  {
    && k < |b0.slots|
    && (forall i: nat :: i < |b0.slots| && i != k ==> b.slots[i] == b0.slots[i])
    && (forall i: nat :: i in got && i < |b0.slots| ==> got[i] == b0.slots[i] || (i == k && got[i] == b.slots[i]))
  }

  /** Since the read of block j began in s0, up to s. */
  ghost predicate Reading(s0: State, s: State, j: nat)
    requires j < |s0.blocks| && j < |s.blocks|
  {
    && s0.reader.Copying? && s.reader.Copying? && s.reader.j == j
    && s0.blocks[j].seqno % 2 == 0
    && s.reader.vers == s0.blocks[j].seqno % WRAP
    && s0.blocks[j].seqno <= s.blocks[j].seqno
    && (s.blocks[j].seqno == s0.blocks[j].seqno ==> Steady(s0.blocks[j], s.blocks[j], s.reader.got))
  }

  lemma WriteSteady(b0: Block, b: Block, got: map<nat, int>, step: Step)
    requires SaneBlock(b0, |b0.slots|) && SaneBlock(b, |b0.slots|) && b0.seqno % 2 == 0
    requires IsWrite(step) && MayWrite(b, step) && Steady(b0, b, got) && b.seqno == b0.seqno
    ensures Write(b, step).seqno == b0.seqno ==> Steady(b0, Write(b, step), got)
  {
    if step.Store? && b == b0 {
      assert OneStore(b0, Write(b, step), got, step.slot);
    }
  }

  lemma CopySteady(b0: Block, b: Block, got: map<nat, int>, i: nat)
    requires Steady(b0, b, got) && |b.slots| == |b0.slots| && i < |b.slots|
    ensures Steady(b0, b, got[i := b.slots[i]])
  {
    if b != b0 {
      var k: nat :| OneStore(b0, b, got, k);
      assert OneStore(b0, b, got[i := b.slots[i]], k);
    }
  }

  lemma ReadingKept(s0: State, s: State, j: nat, step: Step)
    requires Sane(s0) && Sane(s) && Legal(s, step) && j < |s0.blocks| && j < |s.blocks| && s0.width == s.width
    requires Reading(s0, s, j) && !step.ReadEnd?
    ensures Advance(s, step).reader.Copying? && j < |Advance(s, step).blocks| && Reading(s0, Advance(s, step), j)
  {
    hide Steady;
    if IsWrite(step) {
      if step.t == j {
        WriteKeeps(s.blocks[j], step, s.width);
        if s.blocks[j].seqno == s0.blocks[j].seqno {
          WriteSteady(s0.blocks[j], s.blocks[j], s.reader.got, step);
        }
      }
    } else if step.CopySlot? {
      if s.blocks[j].seqno == s0.blocks[j].seqno {
        CopySteady(s0.blocks[j], s.blocks[j], s.reader.got, step.i);
      }
    }
  }

  /** The read that began in state a is still under way in state b. */
  ghost predicate Window(states: seq<State>, steps: seq<Step>, a: nat, b: nat, j: nat) {
    && Run(states, steps) && 0 < a <= b < |states|
    && steps[a - 1] == ReadBegin
    && states[a].reader.Copying? && states[a].reader.j == j
    && forall i :: a <= i < b ==> steps[i] != ReadEnd
  }

  lemma {:induction false} WindowReading(states: seq<State>, steps: seq<Step>, a: nat, b: nat, j: nat)
    requires Window(states, steps, a, b, j)
    ensures j < |states[a].blocks| && j < |states[b].blocks| && Reading(states[a], states[b], j)
    decreases b
  {
    RunSane(states, steps, a);
    RunSane(states, steps, b);
    assert StepAt(states, steps, a - 1);
    if b > a {
      WindowReading(states, steps, a, b - 1, j);
      RunSane(states, steps, b - 1);
      assert StepAt(states, steps, b - 1);
      ReadingKept(states[a], states[b - 1], j, steps[b - 1]);
    }
  }

  /** What was copied is what the block held in state t, outside any bulk addition. */
  ghost predicate SnapshotAt(got: map<nat, int>, s: State, j: nat) {
    j < |s.blocks| && |s.blocks[j].slots| == s.width && !s.blocks[j].writer.Bulk?
    && forall i: nat :: i in got && i < s.width ==> got[i] == s.blocks[j].slots[i]
  }

  lemma SteadySnapshot(s0: State, s: State, j: nat)
    requires Sane(s0) && Sane(s) && s0.width == s.width && j < |s0.blocks| && j < |s.blocks|
    requires Reading(s0, s, j) && s.blocks[j].seqno == s0.blocks[j].seqno
    ensures SnapshotAt(s.reader.got, s0, j) || SnapshotAt(s.reader.got, s, j)
  {
    var b0, b, got := s0.blocks[j], s.blocks[j], s.reader.got;
    if b != b0 {
      var k: nat :| OneStore(b0, b, got, k);
      if k in got && got[k] == b.slots[k] {
        assert SnapshotAt(got, s, j);
      } else {
        assert SnapshotAt(got, s0, j);
      }
    }
  }

  /** A copy that is accepted equals the block at one instant of the read, and never shows part
      of a bulk addition, provided fewer than 2^32 were counted meanwhile. */
  lemma AcceptedIsSnapshot(states: seq<State>, steps: seq<Step>, a: nat, b: nat, j: nat)
    requires Window(states, steps, a, b, j) && b < |steps| && steps[b] == ReadEnd
    requires j < |states[a].blocks| && j < |states[b].blocks|
    requires states[b].blocks[j].seqno - states[a].blocks[j].seqno < WRAP
    requires states[b].reader.Copying? && states[b].blocks[j].seqno % WRAP == states[b].reader.vers
    ensures Whole(states[b].reader.got, states[b].width)
    ensures exists t :: a <= t <= b && SnapshotAt(states[b].reader.got, states[t], j)
  {
    WindowReading(states, steps, a, b, j);
    RunSane(states, steps, a);
    RunSane(states, steps, b);
    assert StepAt(states, steps, b);
    SteadySnapshot(states[a], states[b], j);
  }

  // ----- nothing is lost

  /** What the additions in a list come to for slot i. */
  function AddedTo(adds: seq<(nat, int)>, i: nat): int {
    if adds == [] then 0 else (if adds[0].0 == i then adds[0].1 else 0) + AddedTo(adds[1..], i)
  }

  /** What a step asks to be added to slot i of block t. */
  function Asked(step: Step, t: nat, i: nat): int {
    match step
    case Store(t', slot, value) => if t' == t && slot == i then value else 0
    case BulkBegin(t', adds) => if t' == t then AddedTo(adds, i) else 0
    case _ => 0
  }

  function AskedIn(steps: seq<Step>, t: nat, i: nat): int {
    if steps == [] then 0 else AskedIn(steps[..|steps| - 1], t, i) + Asked(steps[|steps| - 1], t, i)
  }

  /** What block t holds for slot i, with what a bulk addition under way has left to add. */
  function Owed(b: Block, i: nat): int
    requires i < |b.slots|
  {
    b.slots[i] + if b.writer.Bulk? then AddedTo(b.writer.left, i) else 0
  }

  lemma WriteOwed(b: Block, step: Step, i: nat)
    requires IsWrite(step) && MayWrite(b, step) && SaneBlock(b, |b.slots|) && i < |b.slots|
    ensures |Write(b, step).slots| == |b.slots| && Owed(Write(b, step), i) == Owed(b, i) + Asked(step, step.t, i)
  {
  }

  /** Every addition asked for is in the block, or still to be made by the bulk addition under way. */
  lemma {:induction false} AddsAreConserved(states: seq<State>, steps: seq<Step>, n: nat, t: nat, i: nat)
    requires Run(states, steps) && n < |states| && t < |states[0].blocks| && i < states[0].width
    requires |states[n].blocks| == |states[0].blocks| && Sane(states[n]) && states[n].width == states[0].width
    ensures Owed(states[n].blocks[t], i) == Owed(states[0].blocks[t], i) + AskedIn(steps[..n], t, i)
  {
    if n > 0 {
      RunSane(states, steps, n - 1);
      AddsAreConserved(states, steps, n - 1, t, i);
      assert StepAt(states, steps, n - 1);
      assert steps[..n][..n - 1] == steps[..n - 1];
      var step := steps[n - 1];
      if IsWrite(step) {
        if step.t == t {
          WriteOwed(states[n - 1].blocks[t], step, i);
        }
      }
    }
  }

  // ----- a view of counters at rest

  /** Slot i summed over the blocks. */
  function SumSlot(blocks: seq<Block>, i: nat): int
    requires forall t :: 0 <= t < |blocks| ==> i < |blocks[t].slots|
  {
    if blocks == [] then 0 else SumSlot(blocks[..|blocks| - 1], i) + blocks[|blocks| - 1].slots[i]
  }

  /** The reader's sum covers the first n blocks. */
  ghost predicate Covers(sum: seq<int>, blocks: seq<Block>, n: nat, width: nat) {
    && n <= |blocks| && |sum| == width
    && (forall t :: 0 <= t < |blocks| ==> |blocks[t].slots| == width)
    && forall i: nat :: i < width ==> sum[i] == SumSlot(blocks[..n], i)
  }

  ghost predicate AddingUp(s: State, blocks: seq<Block>) {
    && s.blocks == blocks
    && match s.reader
       case Resting => true
       case Scanning(j, sum) => Covers(sum, blocks, j, s.width)
       case Copying(j, sum, _, got) =>
         && Covers(sum, blocks, j, s.width) && j < |blocks|
         && forall i: nat :: i in got && i < s.width ==> got[i] == blocks[j].slots[i]
       case Viewed(sum) => Covers(sum, blocks, |blocks|, s.width)
  }

  lemma CoversNext(sum: seq<int>, blocks: seq<Block>, j: nat, width: nat, v: seq<int>)
    requires Covers(sum, blocks, j, width) && j < |blocks| && v == blocks[j].slots
    ensures Covers(Plus(sum, v), blocks, j + 1, width)
  {
    assert blocks[..j + 1][..j] == blocks[..j];
  }

  lemma CopyCounts(s: State, blocks: seq<Block>)
    requires Sane(s) && s.reader.Copying? && Whole(s.reader.got, s.width) && AddingUp(s, blocks)
    ensures Covers(Plus(s.reader.sum, Vector(s.reader.got, s.width)), blocks, s.reader.j + 1, s.width)
  {
    hide SumSlot, Vector, Plus;
    var v := Vector(s.reader.got, s.width);
    assert v == blocks[s.reader.j].slots;
    CoversNext(s.reader.sum, blocks, s.reader.j, s.width, v);
  }

  lemma NothingCounted(blocks: seq<Block>, width: nat)
    requires forall t :: 0 <= t < |blocks| ==> |blocks[t].slots| == width
    ensures Covers(Zeros(width), blocks, 0, width)
  {
    assert blocks[..0] == [];
  }

  lemma AddingUpKept(s: State, step: Step, blocks: seq<Block>)
    requires Sane(s) && Legal(s, step) && !IsWrite(step) && AddingUp(s, blocks)
    ensures AddingUp(Advance(s, step), blocks)
  {
    hide Covers, Vector, Plus, Zeros;
    if step.ReadEnd? {
      CopyCounts(s, blocks);
    } else if step.ViewBegin? {
      NothingCounted(blocks, s.width);
    }
  }

  /** With no writer at work since the view began, what is being read adds up to the blocks. */
  lemma {:induction false} ViewAddsUp(states: seq<State>, steps: seq<Step>, a: nat, b: nat)
    requires Run(states, steps) && a < b < |states| && steps[a] == ViewBegin
    requires forall i :: a <= i < b ==> !IsWrite(steps[i])
    ensures AddingUp(states[b], states[a].blocks)
    decreases b
  {
    RunSane(states, steps, a);
    RunSane(states, steps, b - 1);
    assert StepAt(states, steps, b - 1);
    if b == a + 1 {
      assert states[a].blocks[..0] == [];
    } else {
      ViewAddsUp(states, steps, a, b - 1);
      AddingUpKept(states[b - 1], steps[b - 1], states[a].blocks);
    }
  }

  /** Additions asked for over all threads. */
  function AskedByAll(steps: seq<Step>, threads: nat, i: nat): int {
    if threads == 0 then 0 else AskedByAll(steps, threads - 1, i) + AskedIn(steps, threads - 1, i)
  }

  ghost predicate StartsAtZero(s: State) {
    forall t :: 0 <= t < |s.blocks| ==> s.blocks[t].writer == Idle && forall i :: 0 <= i < |s.blocks[t].slots| ==> s.blocks[t].slots[i] == 0
  }

  lemma {:induction false} RestingSum(states: seq<State>, steps: seq<Step>, a: nat, n: nat, i: nat)
    requires Run(states, steps) && StartsAtZero(states[0]) && a < |states| && i < states[0].width
    requires Sane(states[a]) && |states[a].blocks| == |states[0].blocks| && states[a].width == states[0].width
    requires n <= |states[a].blocks| && forall t :: 0 <= t < |states[a].blocks| ==> !states[a].blocks[t].writer.Bulk?
    ensures SumSlot(states[a].blocks[..n], i) == AskedByAll(steps[..a], n, i)
  {
    if n > 0 {
      var blocks := states[a].blocks;
      RestingSum(states, steps, a, n - 1, i);
      AddsAreConserved(states, steps, a, n - 1, i);
      assert blocks[..n][..n - 1] == blocks[..n - 1];
    }
  }

  /** A view taken while no writer is at work is the sum of all additions by all threads. */
  lemma QuiescentView(states: seq<State>, steps: seq<Step>, a: nat, b: nat, i: nat)
    requires Run(states, steps) && StartsAtZero(states[0]) && a < b < |states| && steps[a] == ViewBegin
    requires forall k :: a <= k < b ==> !IsWrite(steps[k])
    requires forall t :: 0 <= t < |states[a].blocks| ==> !states[a].blocks[t].writer.Bulk?
    requires states[b].reader.Viewed? && i < states[0].width
    ensures i < |states[b].reader.sum|
    ensures states[b].reader.sum[i] == AskedByAll(steps[..a], |states[0].blocks|, i)
  {
    RunSane(states, steps, a);
    RunSane(states, steps, b);
    ViewAddsUp(states, steps, a, b);
    var blocks := states[a].blocks;
    assert blocks[..|blocks|] == blocks;
    RestingSum(states, steps, a, |blocks|, i);
  }
}

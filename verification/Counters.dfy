/** Counter blocks as threads update them, and the sum a reader takes of blocks at rest. */
module Counters {
  import opened CounterRuns

  class CounterBlock {
    var slots: array<int>
    var seqno: nat

    constructor (n: nat)
      ensures slots.Length == n && Abstract() == Block(Zeros(n), 0, Idle) && fresh(slots)
    {
      slots := new int[n](i => 0);
      seqno := 0;
      new;
      assert slots[..] == Zeros(n);
    }

    /** The block between calls of its writer. */
    ghost function Abstract(): Block
      reads this, slots
    {
      Block(slots[..], seqno, Idle)
    }

    /** `ph_counter_block_record_write` */
    method RecordWrite()
      modifies this`seqno
      ensures seqno == old(seqno) + 2
    {
      seqno := seqno + 2;
    }

    /** `ph_counter_block_add`: the two steps of a writer. */
    method Add(offset: nat, value: int)
      requires offset < slots.Length
      modifies this`seqno, slots
      ensures Abstract() == Write(Write(old(Abstract()), Store(0, offset, value)), Record(0))
      ensures seqno == old(seqno) + 2
      ensures forall k :: 0 <= k < slots.Length ==> slots[k] == old(slots[k]) + if k == offset then value else 0
    {
      slots[offset] := slots[offset] + value;
      RecordWrite();
    }

    /** `ph_counter_block_bulk_add`: as many stores as there are values, within two counts. */
    method BulkAdd(offsets: seq<nat>, values: seq<int>)
      requires |offsets| == |values| && forall i :: 0 <= i < |offsets| ==> offsets[i] < slots.Length
      modifies this`seqno, slots
      ensures seqno == old(seqno) + 2
      ensures forall k :: 0 <= k < slots.Length ==> slots[k] == old(slots[k]) + AddedTo(Pairs(offsets, values), k)
    {
      seqno := seqno + 1;
      var i := 0;
      assert offsets[0..] == offsets && values[0..] == values;
      while i < |offsets|
        invariant 0 <= i <= |offsets|
        invariant forall k :: 0 <= k < slots.Length ==>
                    slots[k] + AddedTo(Pairs(offsets[i..], values[i..]), k) == old(slots[k]) + AddedTo(Pairs(offsets, values), k)
        modifies slots
      {
        PairsStep(offsets, values, i);
        slots[offsets[i]] := slots[offsets[i]] + values[i];
        i := i + 1;
      }
      seqno := seqno + 1;
    }
  }

  function Pairs(offsets: seq<nat>, values: seq<int>): (p: seq<(nat, int)>)
    requires |offsets| == |values|
    ensures |p| == |offsets|
  {
    if offsets == [] then [] else [(offsets[0], values[0])] + Pairs(offsets[1..], values[1..])
  }

  lemma PairsStep(offsets: seq<nat>, values: seq<int>, i: nat)
    requires |offsets| == |values| && i < |offsets|
    ensures forall k: nat :: AddedTo(Pairs(offsets[i..], values[i..]), k) ==
                             (if offsets[i] == k then values[i] else 0) + AddedTo(Pairs(offsets[i + 1..], values[i + 1..]), k)
  {
    assert offsets[i..][1..] == offsets[i + 1..] && values[i..][1..] == values[i + 1..];
  }

  ghost function Abstracts(blocks: seq<CounterBlock>): (bs: seq<Block>)
    reads set b | b in blocks, set b | b in blocks :: b.slots
    ensures |bs| == |blocks| && forall t :: 0 <= t < |bs| ==> bs[t] == blocks[t].Abstract()
  {
    if blocks == [] then [] else Abstracts(blocks[..|blocks| - 1]) + [blocks[|blocks| - 1].Abstract()]
  }

  /** `ph_counter_scope_get_view` when no writer is at work: slot by slot, the sum over the blocks. */
  method GetView(blocks: seq<CounterBlock>, width: nat) returns (view: array<int>)
    requires forall t :: 0 <= t < |blocks| ==> blocks[t].slots.Length == width && blocks[t].seqno % 2 == 0
    ensures fresh(view) && view.Length == width
    ensures forall i :: 0 <= i < width ==> view[i] == SumSlot(Abstracts(blocks), i)
  {
    hide Abstracts, SumSlot;
    view := new int[width](i => 0);
    ghost var bs := Abstracts(blocks);
    NoSum(bs);
    var t := 0;
    while t < |blocks|
      invariant 0 <= t <= |blocks| && Abstracts(blocks) == bs
      invariant forall i :: 0 <= i < width ==> view[i] == SumSlot(bs[..t], i)
      modifies view
    {
      SumNext(bs, t, width);
      var local := CopySlots(blocks[t]);
      AddInto(view, local);
      t := t + 1;
    }
    assert bs[..|bs|] == bs;
  }

  /** A read that is never disturbed: `read_begin`, the copy, `read_retry`. */
  method CopySlots(block: CounterBlock) returns (local: seq<int>)
    requires block.seqno % 2 == 0
    ensures local == block.slots[..]
  {
    var vers := block.seqno;
    local := block.slots[..];
    assert block.seqno == vers;
  }

  method AddInto(view: array<int>, local: seq<int>)
    requires |local| == view.Length
    modifies view
    ensures forall i :: 0 <= i < view.Length ==> view[i] == old(view[i]) + local[i]
  {
    var i := 0;
    while i < view.Length
      invariant 0 <= i <= view.Length
      invariant forall k :: 0 <= k < view.Length ==> view[k] == old(view[k]) + if k < i then local[k] else 0
    {
      view[i] := view[i] + local[i];
      i := i + 1;
    }
  }

  lemma NoSum(bs: seq<Block>)
    ensures forall i: nat :: SumSlot(bs[..0], i) == 0
  {
  }

  lemma SumNext(bs: seq<Block>, t: nat, width: nat)
    requires t < |bs| && forall k :: 0 <= k < |bs| ==> |bs[k].slots| == width
    ensures forall i: nat :: i < width ==> SumSlot(bs[..t + 1], i) == SumSlot(bs[..t], i) + bs[t].slots[i]
  {
    assert bs[..t + 1][..t] == bs[..t];
  }
}

/** Iterating over the hash table, and whole histories of operations on it. */
module HashIteration {
  import opened Options
  import opened HashSpec
  import opened HashTable

  // ----- physical order

  /** The entries in physical order. */
  function Listed<K, V>(t: seq<Slot<K, V>>): seq<(K, V)> {
    if t == [] then []
    else Listed(t[..|t| - 1]) + if t[|t| - 1].Taken? then [(t[|t| - 1].key, t[|t| - 1].value)] else []
  }

  ghost predicate KeysDiffer<K(!new), V(!new)>(s: seq<(K, V)>) {
    forall i, j :: 0 <= i < j < |s| ==> s[i].0 != s[j].0
  }

  /** s lists every entry of m once. */
  ghost predicate Lists<K(!new), V(!new)>(s: seq<(K, V)>, m: map<K, V>) {
    && KeysDiffer(s)
    && |s| == |m|
    && (forall i :: 0 <= i < |s| ==> s[i].0 in m && m[s[i].0] == s[i].1)
    && (forall k :: k in m ==> (k, m[k]) in s)
  }

  lemma {:induction false} ListedIsMap<K(!new), V(!new)>(t: seq<Slot<K, V>>)
    requires Distinct(t)
    ensures Lists(Listed(t), Entries(t))
  {
    if t != [] {
      var n := |t| - 1;
      ListedIsMap(t[..n]);
      if t[n].Taken? {
        EntriesHold(t[..n], t[n].key);
        var s, m := Listed(t[..n]), Entries(t[..n]);
        assert forall i :: 0 <= i < |s| ==> s[i].0 != t[n].key;
        assert Listed(t)[|s|] == (t[n].key, t[n].value);
        forall k | k in Entries(t) ensures (k, Entries(t)[k]) in Listed(t) {
          if k != t[n].key {
            assert (k, m[k]) in s;
          }
        }
      }
    }
  }

  lemma ListedStep<K, V>(t: seq<Slot<K, V>>, i: nat)
    requires i < |t|
    ensures Listed(t[..i + 1]) == Listed(t[..i]) + if t[i].Taken? then [(t[i].key, t[i].value)] else []
  {
    assert t[..i + 1][..i] == t[..i];
  }

  /** `ph_ht_iter_t` */
  class Iter {
    var slot: nat
    var size: nat

    constructor ()
      ensures slot == 0 && size == 0
    {
      slot, size := 0, 0;
    }

    /** `ph_ht_iter_next`: the next entry in physical order; none if the table was resized. */
    method Next<K(==, !new), V(!new)>(ht: HashTable<K, V>) returns (r: Option<(K, V)>)
      requires ht.Valid()
      modifies this
      ensures size == old(size)
      ensures size != ht.table.Length ==> r == None && slot == old(slot)
      ensures size == ht.table.Length && old(slot) <= size ==>
                && old(slot) <= slot <= size
                && Listed(ht.table[..slot]) == Listed(ht.table[..old(slot)]) + (if r.Some? then [r.value] else [])
                && (r.Some? ==> old(slot) < slot)
                && (r.None? ==> slot == size)
    {
      if size != ht.table.Length {
        return None;
      }
      ghost var t := ht.table[..];
      while slot < ht.table.Length
        invariant old(slot) <= slot && size == old(size)
        invariant old(slot) <= size ==>
                    slot <= size && Listed(t[..slot]) == Listed(t[..old(slot)])
      {
        ghost var i := slot;
        ListedStep(t, i);
        var elem := ht.table[slot];
        slot := slot + 1;
        if elem.Taken? {
          return Some((elem.key, elem.value));
        }
      }
      r := None;
    }

    /** `ph_ht_iter_first` */
    method First<K(==, !new), V(!new)>(ht: HashTable<K, V>) returns (r: Option<(K, V)>)
      requires ht.Valid()
      modifies this
      ensures size == ht.table.Length && slot <= size
      ensures Listed(ht.table[..slot]) == if r.Some? then [r.value] else []
      ensures r.None? ==> slot == size
    {
      slot := 0;
      size := ht.table.Length;
      r := Next(ht);
    }
  }

  /** The loop callers write around the iterator sees every entry of the map once. */
  method IterateAll<K(==, !new), V(!new)>(ht: HashTable<K, V>) returns (s: seq<(K, V)>)
    requires ht.Valid()
    ensures Lists(s, ht.Map())
  {
    hide Listed, Lists, Distinct, Reachable, Entries, Live;
    var iter := new Iter();
    s := [];
    ghost var t := ht.table[..];
    var r := iter.First(ht);
    assert ht.table[..iter.slot] == t[..iter.slot];
    while r.Some?
      invariant iter.size == ht.table.Length && iter.slot <= iter.size && fresh(iter) && ht.table[..] == t
      invariant Listed(t[..iter.slot]) == s + if r.Some? then [r.value] else []
      invariant r.None? ==> iter.slot == iter.size
      decreases iter.size - iter.slot, r.Some?
    {
      assert ht.table[..iter.slot] == t[..iter.slot];
      s := s + [r.value];
      r := iter.Next(ht);
      assert ht.table[..iter.slot] == t[..iter.slot];
    }
    assert t[..|t|] == t && s + [] == s;
    ListedIsMap(t);
  }

  // ----- key order

  /** `key_compare` orders the keys. */
  ghost predicate Orders<K(!new)>(less: (K, K) -> bool) {
    && (forall a, b :: a == b || less(a, b) || less(b, a))
    && (forall a, b :: less(a, b) ==> !less(b, a))
    && (forall a, b, c :: less(a, b) && less(b, c) ==> less(a, c))
  }

  function InsertKey<K>(k: K, s: seq<K>, less: (K, K) -> bool): seq<K> {
    if s == [] || less(k, s[0]) then [k] + s else [s[0]] + InsertKey(k, s[1..], less)
  }

  /** What `qsort` leaves. */
  function SortKeys<K>(s: seq<K>, less: (K, K) -> bool): seq<K> {
    if s == [] then [] else InsertKey(s[0], SortKeys(s[1..], less), less)
  }

  ghost predicate Increasing<K(!new)>(s: seq<K>, less: (K, K) -> bool) {
    forall i, j :: 0 <= i < j < |s| ==> less(s[i], s[j])
  }

  lemma {:induction false} InsertKeyIs<K(!new)>(k: K, s: seq<K>, less: (K, K) -> bool)
    requires Orders(less) && Increasing(s, less) && k !in s
    ensures Increasing(InsertKey(k, s, less), less)
    ensures |InsertKey(k, s, less)| == |s| + 1
    ensures forall x :: x in InsertKey(k, s, less) <==> x == k || x in s
  {
    if s != [] {
      assert s[0] in s;
      if less(k, s[0]) {
        assert forall i :: 0 < i < |s| ==> less(s[0], s[i]);
      } else {
        InsertKeyIs(k, s[1..], less);
        var r := InsertKey(k, s[1..], less);
        forall i | 0 <= i < |r| ensures less(s[0], r[i]) {
          assert r[i] in r;
          if r[i] != k {
            var j :| 0 <= j < |s[1..]| && s[1..][j] == r[i];
            assert less(s[0], s[j + 1]);
          }
        }
        assert s == [s[0]] + s[1..];
      }
    }
  }

  ghost predicate NoRepeats<K(!new)>(s: seq<K>) {
    forall i, j :: 0 <= i < j < |s| ==> s[i] != s[j]
  }

  lemma {:induction false} SortKeysIs<K(!new)>(s: seq<K>, less: (K, K) -> bool)
    requires Orders(less) && NoRepeats(s)
    ensures Increasing(SortKeys(s, less), less) && |SortKeys(s, less)| == |s|
    ensures forall x :: x in SortKeys(s, less) <==> x in s
  {
    if s != [] {
      SortKeysIs(s[1..], less);
      assert s == [s[0]] + s[1..];
      assert s[0] !in s[1..];
      InsertKeyIs(s[0], SortKeys(s[1..], less), less);
    }
  }

  /** `ph_ht_ordered_iter_t` */
  class OrderedIter<K(==, !new)> {
    var slot: nat
    var slots: seq<K>

    constructor ()
      ensures slot == 1 && slots == []
    {
      slot, slots := 1, [];
    }

    /** Collect the keys in physical order. */
    method Collect<V(!new)>(ht: HashTable<K, V>) returns (keys: seq<K>)
      requires ht.Valid()
      ensures NoRepeats(keys) && |keys| == |ht.Map()| && forall k :: k in keys <==> k in ht.Map()
    {
      keys := [];
      ghost var t := ht.table[..];
      var i := 0;
      while i < ht.table.Length
        invariant 0 <= i <= |t| && |keys| == |Listed(t[..i])|
        invariant forall j :: 0 <= j < |keys| ==> keys[j] == Listed(t[..i])[j].0
      {
        ListedStep(t, i);
        if ht.table[i].Taken? {
          keys := keys + [ht.table[i].key];
        }
        i := i + 1;
      }
      assert t[..|t|] == t;
      ListedIsMap(t);
      ghost var s := Listed(t);
      forall k ensures k in keys <==> k in ht.Map() {
        if k in ht.Map() {
          assert (k, ht.Map()[k]) in s;
          var j :| 0 <= j < |s| && s[j] == (k, ht.Map()[k]);
          assert keys[j] == k;
        }
      }
    }

    /** `ph_ht_ordered_iter_first`: the search for a collected key cannot miss. */
    method First<V(!new)>(ht: HashTable<K, V>, less: (K, K) -> bool, memory: bool) returns (r: Option<(K, V)>)
      requires ht.Valid() && Orders(less)
      modifies this
      ensures slot == 1
      ensures memory || ht.Map() == map[] ==>
                && Increasing(slots, less) && |slots| == |ht.Map()| && (forall k :: k in slots <==> k in ht.Map())
                && r == if slots == [] then None else Some((slots[0], ht.Map()[slots[0]]))
      ensures !memory ==> r == None && slots == []
    {
      slot := 1;
      slots := [];
      LiveIsSize(ht.table[..]);
      if ht.nelems == 0 || !memory {
        return None;
      }
      var keys := Collect(ht);
      SortKeysIs(keys, less);
      slots := SortKeys(keys, less);
      assert slots[0] in slots;
      var elem := ht.FindSlot(slots[0]);
      if elem.None? || !ht.table[elem.value].Taken? {
        assert false;
      }
      r := Some((ht.table[elem.value].key, ht.table[elem.value].value));
    }

    /** `ph_ht_ordered_iter_next`: stops at a key that has been deleted since. */
    method Next<V(!new)>(ht: HashTable<K, V>) returns (r: Option<(K, V)>)
      requires ht.Valid()
      modifies this`slot
      ensures r.Some? <==> old(slot) < |slots| && slots[old(slot)] in ht.Map()
      ensures r.Some? ==> r.value == (slots[old(slot)], ht.Map()[slots[old(slot)]]) && slot == old(slot) + 1
      ensures r.None? ==> slot == old(slot)
    {
      if slot >= |slots| {
        return None;
      }
      var elem := ht.FindSlot(slots[slot]);
      if elem.None? || !ht.table[elem.value].Taken? {
        return None;
      }
      r := Some((ht.table[elem.value].key, ht.table[elem.value].value));
      slot := slot + 1;
    }
  }

  /** The loop callers write around the ordered iterator sees every entry once, in key order. */
  method IterateInOrder<K(==, !new), V(!new)>(ht: HashTable<K, V>, less: (K, K) -> bool) returns (s: seq<(K, V)>)
    requires ht.Valid() && Orders(less)
    ensures |s| == |ht.Map()| && forall i, j :: 0 <= i < j < |s| ==> less(s[i].0, s[j].0)
    ensures forall i :: 0 <= i < |s| ==> s[i].0 in ht.Map() && s[i].1 == ht.Map()[s[i].0]
    ensures forall k :: k in ht.Map() ==> (k, ht.Map()[k]) in s
  {
    hide Orders, Distinct, Reachable, Entries, Live, Increasing;
    var iter := new OrderedIter<K>();
    s := [];
    ghost var m := ht.Map();
    var r := iter.First(ht, less, true);
    ghost var keys := iter.slots;
    assert forall i :: 0 <= i < |keys| ==> keys[i] in m;
    while r.Some?
      invariant fresh(iter) && iter.slots == keys && ht.Valid() && ht.Map() == m
      invariant (r.Some? ==> iter.slot == |s| + 1) && (r.Some? <==> |s| < |keys|)
      invariant |s| <= |keys|
      invariant r.Some? ==> r.value == (keys[|s|], m[keys[|s|]])
      invariant forall i :: 0 <= i < |s| ==> s[i] == (keys[i], m[keys[i]])
      decreases |keys| - |s|
    {
      s := s + [r.value];
      r := iter.Next(ht);
    }
    InOrder(s, keys, m, less);
  }

  lemma InOrder<K(!new), V(!new)>(s: seq<(K, V)>, keys: seq<K>, m: map<K, V>, less: (K, K) -> bool)
    requires |s| == |keys| && Increasing(keys, less) && forall k :: k in keys <==> k in m
    requires forall i :: 0 <= i < |s| ==> keys[i] in m && s[i] == (keys[i], m[keys[i]])
    ensures forall i, j :: 0 <= i < j < |s| ==> less(s[i].0, s[j].0)
    ensures forall i :: 0 <= i < |s| ==> s[i].0 in m && s[i].1 == m[s[i].0]
    ensures forall k :: k in m ==> (k, m[k]) in s
  {
    forall k | k in m ensures (k, m[k]) in s {
      var i :| 0 <= i < |keys| && keys[i] == k;
      assert s[i] == (k, m[k]);
    }
  }

  // ----- deleting while iterating in order

  /** The first position from `slot` on whose key is gone from the map. */
  function FirstGone<K(==), V>(slots: seq<K>, slot: nat, m: map<K, V>): (e: nat)
    ensures slot <= e && (slot <= |slots| ==> e <= |slots|)
    ensures forall i :: slot <= i < e ==> i < |slots| && slots[i] in m
    ensures e < |slots| ==> slots[e] !in m
    decreases |slots| - slot
  {
    if slot < |slots| && slots[slot] in m then FirstGone(slots, slot + 1, m) else slot
  }

  /** From any position, what the iterator still yields: the keys up to the first one that is
      gone, and no further. */
  method YieldRest<K(==, !new), V(!new)>(iter: OrderedIter<K>, ht: HashTable<K, V>) returns (s: seq<(K, V)>)
    requires ht.Valid()
    modifies iter`slot
    ensures var e := FirstGone(iter.slots, old(iter.slot), ht.Map());
            && iter.slot == e && |s| == e - old(iter.slot)
            && forall i :: 0 <= i < |s| ==>
                 s[i] == (iter.slots[old(iter.slot) + i], ht.Map()[iter.slots[old(iter.slot) + i]])
  {
    s := [];
    ghost var start, m := iter.slot, ht.Map();
    while true
      invariant ht.Valid() && ht.Map() == m && iter.slot == start + |s|
      invariant FirstGone(iter.slots, iter.slot, m) == FirstGone(iter.slots, start, m)
      invariant iter.slot <= FirstGone(iter.slots, start, m)
      invariant forall i :: 0 <= i < |s| ==> s[i] == (iter.slots[start + i], m[iter.slots[start + i]])
      decreases FirstGone(iter.slots, start, m) - iter.slot
    {
      var r := iter.Next(ht);
      if r.None? {
        return;
      }
      s := s + [r.value];
    }
  }

  /** Every key still in the map is yielded exactly if no deleted key comes before one. */
  lemma YieldsAllIff<K(!new), V(!new)>(slots: seq<K>, slot: nat, m: map<K, V>)
    ensures (forall i :: slot <= i < |slots| && slots[i] in m ==> i < FirstGone(slots, slot, m)) <==>
            (forall i, j :: slot <= i < j < |slots| && slots[j] in m ==> slots[i] in m)
  {
    var e := FirstGone(slots, slot, m);
    if forall i :: slot <= i < |slots| && slots[i] in m ==> i < e {
      forall i, j | slot <= i < j < |slots| && slots[j] in m ensures slots[i] in m {
        assert j < e;
      }
    }
    if forall i, j :: slot <= i < j < |slots| && slots[j] in m ==> slots[i] in m {
      if e < |slots| {
        forall i | e < i < |slots| ensures slots[i] !in m {
        }
      }
    }
  }

  /** Deleting the second of three keys during the iteration loses the third. */
  method LaterKeyLost() returns (ht: HashTable<nat, nat>, iter: OrderedIter<nat>, r: Option<(nat, nat)>)
    ensures fresh(ht) && ht.Valid() && ht.Map() == map[1 := 10, 3 := 30]
    ensures iter.slots == [1, 2, 3] && iter.slot == 1 && r == None
  {
    hide Orders, Increasing, Distinct, Reachable, Entries, Live, PowerOfTwo;
    ht := ThreeKeys();
    iter := new OrderedIter<nat>();
    SmallerOrders();
    r := iter.First(ht, Smaller, true);
    OneTwoThree(iter.slots, map[1 := 10, 2 := 20, 3 := 30]);
    var done := ht.Delete(2);
    TwoGone(map[1 := 10, 2 := 20, 3 := 30]);
    r := iter.Next(ht);
  }

  method ThreeKeys() returns (ht: HashTable<nat, nat>)
    ensures fresh(ht) && fresh(ht.table) && ht.Valid() && ht.Map() == map[1 := 10, 2 := 20, 3 := 30]
  {
    hide Distinct, Reachable, Entries, Live, PowerOfTwo;
    ht := new HashTable<nat, nat>(4, (k: nat) => k);
    var done := ht.Insert(1, 10, false, true, true, true);
    done := ht.Insert(2, 20, false, true, true, true);
    done := ht.Insert(3, 30, false, true, true, true);
  }

  lemma TwoGone(m: map<nat, nat>)
    requires m == map[1 := 10, 2 := 20, 3 := 30]
    ensures m - {2} == map[1 := 10, 3 := 30]
  {
  }

  predicate Smaller(a: nat, b: nat) {
    a < b
  }

  lemma SmallerOrders()
    ensures Orders(Smaller)
  {
  }

  lemma OneTwoThree(s: seq<nat>, m: map<nat, nat>)
    requires m == map[1 := 10, 2 := 20, 3 := 30]
    requires |s| == |m| && Increasing(s, Smaller) && forall k :: k in s <==> k in m
    ensures s == [1, 2, 3]
  {
    assert m.Keys == {1, 2, 3};
    assert s[0] in s && s[1] in s && s[2] in s;
  }

  // ----- histories

  datatype Op<K, V> =
    | Insert(key: K, value: V, replace: bool, keyCopied: bool, valueCopied: bool, memory: bool)
    | Delete(key: K)
    | Grow(n: nat, memory: bool)
    | Clear

  /** A table that holds m may answer the operation with r, and then holds m'. */
  predicate Allows<K(==), V(==)>(m: map<K, V>, op: Op<K, V>, r: Result, m': map<K, V>) {
    match op
    case Insert(key, value, replace, keyCopied, valueCopied, memory) =>
      if key in m then
        if !replace then r == Exists && m' == m
        else if valueCopied then r == Done && m' == m[key := value]
        else r == Err && m' == m - {key}
      else if !memory && r == NoMem then m' == m
      else if keyCopied && valueCopied then r == Done && m' == m[key := value]
      else r == Err && m' == m
    case Delete(key) => (r == if key in m then Done else NoEnt) && m' == m - {key}
    case Grow(_, memory) => (r == Done || (!memory && r == NoMem)) && m' == m
    case Clear => r == Done && m' == map[]
  }

  predicate MemoryGranted<K, V>(op: Op<K, V>) {
    (op.Insert? ==> op.memory) && (op.Grow? ==> op.memory)
  }

  method Perform<K(==, !new), V(==, !new)>(ht: HashTable<K, V>, op: Op<K, V>) returns (r: Result)
    requires ht.Valid()
    modifies ht, ht.table
    ensures ht.Valid() && (ht.table == old(ht.table) || fresh(ht.table))
    ensures Allows(old(ht.Map()), op, r, ht.Map())
    ensures old(ht.HalfFull()) && MemoryGranted(op) ==> ht.HalfFull()
  {
    match op {
      case Insert(key, value, replace, k, v, memory) => r := ht.Insert(key, value, replace, k, v, memory);
      case Delete(key) => r := ht.Delete(key);
      case Grow(n, memory) =>
        var ok := ht.Grow(n, memory);
        r := if ok then Done else NoMem;
      case Clear =>
        ht.Clear();
        r := Done;
    }
  }

  /** The maps a table held, from the empty one on, with what was done to it and answered. */
  ghost predicate History<K(!new), V(!new)>(ops: seq<Op<K, V>>, rs: seq<Result>, maps: seq<map<K, V>>) {
    && |rs| == |ops| && |maps| == |ops| + 1 && maps[0] == map[]
    && forall i :: 0 <= i < |ops| ==> Allows(maps[i], ops[i], rs[i], maps[i + 1])
  }

  /** Every history of operations, with any failures of copying and allocation, is one of a
      finite map; if memory is always granted the table is never more than half full. */
  method Replay<K(==, !new), V(==, !new)>(sizeHint: nat, hash: K -> nat, ops: seq<Op<K, V>>)
    returns (ht: HashTable<K, V>, rs: seq<Result>, ghost maps: seq<map<K, V>>)
    ensures fresh(ht) && ht.Valid() && History(ops, rs, maps) && ht.Map() == maps[|ops|]
    ensures (forall i :: 0 <= i < |ops| ==> MemoryGranted(ops[i])) ==> ht.HalfFull()
  {
    hide Allows, MemoryGranted, Distinct, Reachable, Entries, Live;
    ht := new HashTable<K, V>(sizeHint, hash);
    rs, maps := [], [ht.Map()];
    var i := 0;
    while i < |ops|
      invariant 0 <= i <= |ops| && fresh(ht) && fresh(ht.table) && ht.Valid()
      invariant History(ops[..i], rs, maps) && ht.Map() == maps[i]
      invariant (forall j :: 0 <= j < i ==> MemoryGranted(ops[j])) ==> ht.HalfFull()
    {
      var r := Perform(ht, ops[i]);
      HistoryStep(ops[..i], rs, maps, ops[i], r, ht.Map());
      assert ops[..i] + [ops[i]] == ops[..i + 1];
      rs, maps := rs + [r], maps + [ht.Map()];
      i := i + 1;
    }
    assert ops[..|ops|] == ops;
  }

  lemma HistoryStep<K(!new), V(!new)>(
    ops: seq<Op<K, V>>, rs: seq<Result>, maps: seq<map<K, V>>, op: Op<K, V>, r: Result, m: map<K, V>)
    requires History(ops, rs, maps) && Allows(maps[|ops|], op, r, m)
    ensures History(ops + [op], rs + [r], maps + [m])
  {
    hide Allows;
  }

  /** The operation stored v under the key. */
  predicate Stores<K(==), V(==)>(op: Op<K, V>, r: Result, key: K, v: V) {
    op.Insert? && op.key == key && op.value == v && r == Done
  }

  /** The operation may have changed what is stored under the key. */
  predicate Touches<K(==), V>(op: Op<K, V>, r: Result, key: K) {
    (op.Insert? && op.key == key && (r == Done || r == Err)) || op == Delete(key) || op == Clear
  }

  /** Operation j stored v under the key, and nothing before step n has changed that. */
  ghost predicate LastStored<K(!new), V(!new)>(
    ops: seq<Op<K, V>>, rs: seq<Result>, key: K, v: V, j: nat, n: nat)
    requires j < n <= |ops| == |rs|
  {
    Stores(ops[j], rs[j], key, v) && forall i :: j < i < n ==> !Touches(ops[i], rs[i], key)
  }

  /** At any point of a history the table holds v under a key exactly if v is what was last
      stored there. */
  lemma {:induction false} HoldsLastStored<K(!new), V(!new)>(
    ops: seq<Op<K, V>>, rs: seq<Result>, maps: seq<map<K, V>>, key: K, v: V, n: nat)
    requires History(ops, rs, maps) && n <= |ops|
    ensures key in maps[n] && maps[n][key] == v <==> exists j :: 0 <= j < n && LastStored(ops, rs, key, v, j, n)
  {
    if n > 0 {
      HoldsLastStored(ops, rs, maps, key, v, n - 1);
      assert Allows(maps[n - 1], ops[n - 1], rs[n - 1], maps[n]);
      if Touches(ops[n - 1], rs[n - 1], key) {
        assert forall j :: 0 <= j < n - 1 ==> !LastStored(ops, rs, key, v, j, n);
        if Stores(ops[n - 1], rs[n - 1], key, v) {
          assert LastStored(ops, rs, key, v, n - 1, n);
        }
      } else {
        assert key in maps[n] && maps[n][key] == v <==> key in maps[n - 1] && maps[n - 1][key] == v;
        if j: nat :| j < n && LastStored(ops, rs, key, v, j, n) {
          assert j < n - 1 && LastStored(ops, rs, key, v, j, n - 1);
        }
        var p := n - 1;
        if j: nat :| j < p && LastStored(ops, rs, key, v, j, p) {
          assert LastStored(ops, rs, key, v, j, n);
        }
      }
    }
  }

  /** The caller asks to replace, delete or clear what is stored under the key. */
  predicate GivesUp<K(==), V>(op: Op<K, V>, key: K) {
    (op.Insert? && op.key == key && op.replace) || op == Delete(key) || op == Clear
  }

  /** What is stored stays until it is replaced, deleted or cleared, and until then every
      insertion without replacing is refused. */
  lemma {:induction false} StoredStays<K(!new), V(!new)>(
    ops: seq<Op<K, V>>, rs: seq<Result>, maps: seq<map<K, V>>, key: K, i: nat, n: nat)
    requires History(ops, rs, maps) && i <= n <= |ops| && key in maps[i]
    requires forall k :: i <= k < n ==> !GivesUp(ops[k], key)
    ensures key in maps[n] && maps[n][key] == maps[i][key]
    ensures forall k :: i <= k < n && ops[k].Insert? && ops[k].key == key ==> rs[k] == Exists
    decreases n
  {
    if i < n {
      StoredStays(ops, rs, maps, key, i, n - 1);
      assert Allows(maps[n - 1], ops[n - 1], rs[n - 1], maps[n]);
      assert !GivesUp(ops[n - 1], key);
    }
  }
}

/** The hash table: open addressing in an array that is rebuilt as it fills. */
module HashTable {
  import opened Options
  import opened HashSpec

  datatype Result = Done | Exists | NoEnt | NoMem | Err

  /** `ph_power_2`: the power of two above n. */
  function PowerAbove(n: nat): (p: nat)
    ensures PowerOfTwo(p) && n < p && (n > 0 ==> p <= 2 * n)
  {
    if n == 0 then 1 else 2 * PowerAbove(n / 2)
  }

  ghost predicate HasRoom<K, V>(t: seq<Slot<K, V>>) {
    exists e :: 0 <= e < |t| && t[e].Empty?
  }

  /** What a search for a key finds in a table: its slot, or a slot it may be put into, or
      nothing because no slot was ever left empty. */
  ghost predicate Found<K(!new), V(!new)>(t: seq<Slot<K, V>>, hash: K -> nat, key: K, r: Option<nat>)
    requires t != []
  {
    match r
    case None => key !in Entries(t) && !HasRoom(t)
    case Some(i) =>
      && i < |t|
      && (key in Entries(t) <==> t[i].Taken?)
      && (t[i].Taken? ==> t[i].key == key && Entries(t)[key] == t[i].value)
      && (!t[i].Taken? ==> Clear(t, Home(t, hash, key), i) && HasRoom(t))
  }

  class HashTable<K(==, !new), V(!new)> {
    const hash: K -> nat
    var table: array<Slot<K, V>>
    var mask: nat
    var nelems: nat

    ghost predicate Valid()
      reads this, table
    {
      && PowerOfTwo(table.Length) && mask == table.Length - 1
      && Distinct(table[..]) && Reachable(table[..], hash) && nelems == Live(table[..])
    }

    ghost function Map(): map<K, V>
      reads this, table
    {
      Entries(table[..])
    }

    /** `ph_ht_init` */
    constructor (sizeHint: nat, h: K -> nat)
      ensures Valid() && Map() == map[] && nelems == 0 && fresh(table) && hash == h && table.Length == PowerAbove(sizeHint * 2)
    {
      hash := h;
      nelems := 0;
      var size := PowerAbove(sizeHint * 2);
      mask := size - 1;
      table := new Slot<K, V>[size](_ => Empty);
      new;
      AllEmpty(table[..]);
    }

    /** `find_elem_slot` */
    method FindSlot(key: K) returns (r: Option<nat>)
      requires Valid()
      ensures Found(table[..], hash, key, r)
    {
      hide And, PowerOfTwo;
      var n := table.Length;
      ghost var t := table[..];
      MaskIsMod(hash(key), n);
      var pos := And(hash(key), mask);
      ghost var start := pos;
      var attempts := 0;
      var tomb: Option<nat> := None;
      while attempts < n
        invariant 0 <= attempts <= n && pos == start + attempts
        invariant forall j :: 0 <= j < attempts ==>
                    t[Probe(start, j, n)] != Empty && !Holds(t, Probe(start, j, n), key)
        invariant tomb.Some? ==> tomb.value < n && t[tomb.value].Tombstone? && HashSpec.Clear(t, start, tomb.value)
      {
        ProbeIsMod(start, attempts, n);
        MaskIsMod(pos, n);
        var i := And(pos, mask);
        assert Steps(start, i, n) == attempts;
        if table[i].Tombstone? {
          if tomb.None? {
            tomb := Some(i);
          }
        } else if table[i].Empty? {
          NotFound(t, hash, key, attempts);
          assert t[i].Empty?;
          return if tomb.Some? then tomb else Some(i);
        } else if table[i].key == key {
          EntriesHold(t, key);
          assert Holds(t, i, key);
          return Some(i);
        }
        pos := pos + 1;
        attempts := attempts + 1;
      }
      NotFound(t, hash, key, n);
      AllProbed(t, start);
      r := None;
    }

    /** `find_new_slot`, in a table without tombstones that has room. */
    static method FindNewSlot(table: array<Slot<K, V>>, mask: nat, hash: K -> nat, key: K) returns (i: nat)
      requires PowerOfTwo(table.Length) && mask == table.Length - 1 && exists e :: 0 <= e < table.Length && table[e].Empty?
      ensures i < table.Length && table[i].Empty? && HashSpec.Clear(table[..], Home(table[..], hash, key), i)
    {
      hide And, PowerOfTwo;
      var n := table.Length;
      MaskIsMod(hash(key), n);
      var pos := And(hash(key), mask);
      ghost var start := pos;
      ghost var e :| 0 <= e < n && table[e].Empty?;
      ghost var last := Steps(start, e, n);
      while true
        invariant start <= pos <= start + last
        invariant forall j :: 0 <= j < pos - start ==> table[Probe(start, j, n)] != Empty
        decreases start + last - pos
      {
        ProbeIsMod(start, pos - start, n);
        MaskIsMod(pos, n);
        i := And(pos, mask);
        assert Steps(start, i, n) == pos - start;
        if table[i].Empty? {
          return;
        }
        pos := pos + 1;
      }
    }

    /** `rebuild_table` to a larger size; allocation may fail. */
    method Rebuild(size: nat, memory: bool) returns (ok: bool)
      requires Valid() && size > nelems && PowerOfTwo(size)
      modifies this
      ensures Valid() && Map() == old(Map()) && nelems == old(nelems) && ok == memory
      ensures ok ==> fresh(table) && table.Length == size && forall i :: 0 <= i < size ==> !table[i].Tombstone?
      ensures !ok ==> table == old(table)
    {
      if !memory {
        return false;
      }
      var target := new Slot<K, V>[size](_ => Empty);
      ghost var t := table[..];
      AllEmpty(target[..]);
      var i, done := 0, 0;
      while done < nelems && i < table.Length
        invariant 0 <= i <= |t| && table[..] == t && done == Live(t[..i]) == Live(target[..])
        invariant Distinct(target[..]) && Reachable(target[..], hash) && Entries(target[..]) == Entries(t[..i])
        invariant forall j :: 0 <= j < size ==> !target[j].Tombstone?
        modifies target
      {
        DistinctPrefix(t, i);
        if table[i].Taken? {
          CopyEntry(target, size - 1, hash, table[i].key, table[i].value);
          done := done + 1;
        }
        i := i + 1;
      }
      LiveMonotone(t, i);
      assert t[..|t|] == t;
      table := target;
      mask := size - 1;
      ok := true;
    }

    /** Copy one entry into the table being built. */
    static method CopyEntry(table: array<Slot<K, V>>, mask: nat, hash: K -> nat, key: K, value: V)
      requires PowerOfTwo(table.Length) && mask == table.Length - 1
      requires Distinct(table[..]) && Reachable(table[..], hash) && key !in Entries(table[..])
      requires Live(table[..]) < table.Length && forall j :: 0 <= j < table.Length ==> !table[j].Tombstone?
      modifies table
      ensures Distinct(table[..]) && Reachable(table[..], hash)
      ensures Entries(table[..]) == old(Entries(table[..]))[key := value] && Live(table[..]) == old(Live(table[..])) + 1
      ensures forall j :: 0 <= j < table.Length ==> !table[j].Tombstone?
    {
      ghost var t := table[..];
      HasEmpty(t);
      var i := FindNewSlot(table, mask, hash, key);
      Filled(t, i, key, value);
      LiveUpdate(t, i, Taken(key, value));
      ReachKept(t, hash, i, Taken(key, value));
      table[i] := Taken(key, value);
      assert table[..] == t[i := Taken(key, value)];
    }

    /** `ph_ht_grow` */
    method Grow(n: nat, memory: bool) returns (ok: bool)
      requires Valid()
      modifies this
      ensures Valid() && Map() == old(Map()) && nelems == old(nelems)
      ensures ok <==> memory || PowerAbove(n * 2) <= old(table.Length)
      ensures ok ==> n <= table.Length / 2
      ensures table == old(table) || fresh(table)
      ensures old(table.Length) <= table.Length
    {
      var size := PowerAbove(n * 2);
      if size <= table.Length {
        return true;
      }
      ok := Rebuild(size, memory);
    }

    /** At most half full. */
    ghost predicate HalfFull()
      reads this, table
    {
      nelems <= table.Length / 2
    }

    /** The slot for a key, after making room for it if need be. */
    method SlotFor(key: K, memory: bool) returns (r: Option<nat>)
      requires Valid()
      modifies this
      ensures Valid() && Map() == old(Map()) && nelems == old(nelems) && Found(table[..], hash, key, r)
      ensures table == old(table) || fresh(table)
      ensures r.None? <==> !memory && key !in old(Map()) && !old(HasRoom(table[..]))
      ensures key in old(Map()) ==> table == old(table)
      ensures memory && key !in Map() ==> nelems + 1 <= table.Length / 2 || table.Length == 2 * old(table.Length)
    {
      r := FindSlot(key);
      if r.None? || (!table[r.value].Taken? && nelems + 1 > table.Length / 2) {
        var rebuilt := Rebuild(table.Length * 2, memory);
        if rebuilt {
          r := FindSlot(key);
          HasEmpty(table[..]);
        }
      }
    }

    /** `ph_ht_insert`. The outcome of copying the key and the value, and of allocation, is
        given by the last three arguments.  A value that cannot be copied over an old one takes
        the old one with it. */
    method Insert(key: K, value: V, replace: bool, keyCopied: bool, valueCopied: bool, memory: bool)
      returns (r: Result)
      requires Valid()
      modifies this, table
      ensures Valid() && (table == old(table) || fresh(table))
      ensures key in old(Map()) && !replace ==> r == Exists && Map() == old(Map())
      ensures key in old(Map()) && replace && valueCopied ==> r == Done && Map() == old(Map())[key := value]
      ensures key in old(Map()) && replace && !valueCopied ==> r == Err && Map() == old(Map()) - {key}
      ensures key !in old(Map()) && !old(HasRoom(table[..])) && !memory ==> r == NoMem && Map() == old(Map())
      ensures key !in old(Map()) && (old(HasRoom(table[..])) || memory) ==>
                if keyCopied && valueCopied then r == Done && Map() == old(Map())[key := value]
                else r == Err && Map() == old(Map())
      ensures old(HalfFull()) && memory ==> HalfFull()
    {
      hide PowerOfTwo;
      var slot := SlotFor(key, memory);
      if slot.None? {
        return NoMem;
      }
      var i := slot.value;
      ghost var t := table[..];
      if table[i].Taken? {
        if !replace {
          return Exists;
        }
        if !valueCopied {
          Bury(i);
          return Err;
        }
        Replaced(t, i, value);
        LiveUpdate(t, i, Taken(key, value));
        KeyReaches(t, hash, i);
        ReachKept(t, hash, i, Taken(key, value));
        table[i] := Taken(key, value);
        assert table[..] == t[i := Taken(key, value)];
        return Done;
      }
      if !keyCopied || !valueCopied {
        return Err;
      }
      Filled(t, i, key, value);
      LiveUpdate(t, i, Taken(key, value));
      ReachKept(t, hash, i, Taken(key, value));
      table[i] := Taken(key, value);
      nelems := nelems + 1;
      assert table[..] == t[i := Taken(key, value)];
      r := Done;
    }

    /** Turn an entry into a tombstone. */
    method Bury(i: nat)
      requires Valid() && i < table.Length && table[i].Taken?
      modifies this`nelems, table
      ensures Valid() && Map() == old(Map()) - {old(table[i].key)} && nelems == old(nelems) - 1
    {
      ghost var t := table[..];
      Removed(t, i);
      LiveUpdate(t, i, Tombstone);
      ReachKept(t, hash, i, Tombstone);
      table[i] := Tombstone;
      nelems := nelems - 1;
      assert table[..] == t[i := Tombstone];
    }

    /** `ph_ht_get` */
    method Get(key: K) returns (r: Option<V>)
      requires Valid()
      ensures r == if key in Map() then Some(Map()[key]) else None
    {
      var slot := FindSlot(key);
      if slot.None? || !table[slot.value].Taken? {
        return None;
      }
      r := Some(table[slot.value].value);
    }

    /** `ph_ht_lookup`; copying the value may fail. */
    method Lookup(key: K, copied: bool) returns (r: Result, value: Option<V>)
      requires Valid()
      ensures r == if key !in Map() then NoEnt else if copied then Done else Err
      ensures value == if r == Done then Some(Map()[key]) else None
    {
      var slot := FindSlot(key);
      if slot.None? || !table[slot.value].Taken? {
        return NoEnt, None;
      }
      if !copied {
        return Err, None;
      }
      return Done, Some(table[slot.value].value);
    }

    /** `ph_ht_del` */
    method Delete(key: K) returns (r: Result)
      requires Valid()
      modifies this`nelems, table
      ensures Valid() && Map() == old(Map()) - {key}
      ensures r == if key in old(Map()) then Done else NoEnt
      ensures old(HalfFull()) ==> HalfFull()
    {
      var slot := FindSlot(key);
      if slot.None? || !table[slot.value].Taken? {
        assert Map() - {key} == Map();
        return NoEnt;
      }
      Bury(slot.value);
      r := Done;
    }

    /** `ph_ht_free_entries` */
    method Clear()
      requires Valid()
      modifies this`nelems, table
      ensures Valid() && Map() == map[] && HalfFull()
      ensures HasRoom(table[..])
    {
      var i := 0;
      while i < table.Length
        invariant 0 <= i <= table.Length
        invariant forall j :: 0 <= j < i ==> table[j].Empty?
        modifies table
      {
        if table[i].Empty? {
        } else if table[i].Tombstone? {
          table[i] := Empty;
        } else {
          table[i] := Empty;
        }
        i := i + 1;
      }
      AllEmpty(table[..]);
      nelems := 0;
      assert table[..][0].Empty?;
    }

    /** `ph_ht_size` */
    method Size() returns (n: nat)
      requires Valid()
      ensures n == |Map()|
    {
      LiveIsSize(table[..]);
      n := nelems;
    }
  }

  /** `ph_ht_init`, whose allocation may fail. */
  method Create<K(==, !new), V(!new)>(sizeHint: nat, h: K -> nat, memory: bool) returns (r: Option<HashTable<K, V>>)
    ensures r.Some? <==> memory
    ensures r.Some? ==> fresh(r.value) && fresh(r.value.table) && r.value.hash == h
    ensures r.Some? ==> r.value.Valid() && r.value.Map() == map[] && sizeHint * 2 < r.value.table.Length
  {
    hide PowerOfTwo, Distinct, Reachable, Entries;
    if !memory {
      return None;
    }
    var ht := new HashTable<K, V>(sizeHint, h);
    r := Some(ht);
  }

  lemma KeyReaches<K(!new), V(!new)>(t: seq<Slot<K, V>>, hash: K -> nat, i: nat)
    requires t != [] && Reachable(t, hash) && i < |t| && t[i].Taken?
    ensures HashSpec.Clear(t, Home(t, hash, t[i].key), i)
  {
  }

  lemma {:induction false} AllEmpty<K(!new), V(!new)>(t: seq<Slot<K, V>>)
    requires forall i :: 0 <= i < |t| ==> t[i].Empty?
    ensures Entries(t) == map[] && Live(t) == 0
  {
    if t != [] {
      AllEmpty(t[..|t| - 1]);
    }
  }
}

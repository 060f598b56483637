/** Open addressing with tombstones: the table as a sequence of slots, the finite map it holds
    and the probe order. */
module HashSpec {
  import opened Arith

  datatype Slot<K, V> = Empty | Tombstone | Taken(key: K, value: V)

  // ----- probing

  /** The slot probed after j steps from `start`. */
  function Probe(start: nat, j: nat, n: nat): (i: nat)
    requires start < n && j < n
    ensures i < n
  {
    if start + j < n then start + j else start + j - n
  }

  /** After how many steps slot i is probed. */
  function Steps(start: nat, i: nat, n: nat): (j: nat)
    requires start < n && i < n
    ensures j < n && Probe(start, j, n) == i
  {
    if start <= i then i - start else i - start + n
  }

  /** x & y */
  function And(x: nat, y: nat): nat {
    if x == 0 || y == 0 then 0 else 2 * And(x / 2, y / 2) + if x % 2 == 1 && y % 2 == 1 then 1 else 0
  }

  predicate PowerOfTwo(n: nat) {
    n == 1 || (n > 1 && n % 2 == 0 && PowerOfTwo(n / 2))
  }

  lemma ModDouble(x: nat, m: nat)
    requires m > 0
    ensures x % (2 * m) == 2 * (x / 2 % m) + x % 2
  {
    var q, r := x / 2 / m, x / 2 % m;
    assert x / 2 == q * m + r;
    assert q * (2 * m) == 2 * (q * m);
    DivNonneg(x / 2, m);
    DivUnique(x, 2 * m, q, 2 * r + x % 2);
  }

  /** Masking with size - 1 is the remainder, for the sizes the table has. */
  lemma {:induction false} MaskIsMod(x: nat, n: nat)
    requires PowerOfTwo(n)
    ensures And(x, n - 1) == x % n
    decreases n
  {
    if n > 1 {
      var m := n / 2;
      MaskIsMod(x / 2, m);
      ModDouble(x, m);
      assert (n - 1) / 2 == m - 1 && (n - 1) % 2 == 1;
    }
  }

  /** Taking the remainder of the position is what `Probe` does. */
  lemma ProbeIsMod(start: nat, j: nat, n: nat)
    requires start < n && j < n
    ensures (start + j) % n == Probe(start, j, n)
  {
    DivUnique(start + j, n, if start + j < n then 0 else 1, Probe(start, j, n));
  }

  /** No empty slot is probed on the way from `start` to slot i. */
  ghost predicate Clear<K(!new), V(!new)>(t: seq<Slot<K, V>>, start: nat, i: nat)
    requires start < |t| && i < |t|
  {
    forall j :: 0 <= j < Steps(start, i, |t|) ==> t[Probe(start, j, |t|)] != Empty
  }

  function Home<K, V>(t: seq<Slot<K, V>>, hash: K -> nat, key: K): (i: nat)
    requires t != []
    ensures i < |t|
  {
    hash(key) % |t|
  }

  /** Every entry can be reached from where its key hashes to. */
  ghost predicate Reachable<K(!new), V(!new)>(t: seq<Slot<K, V>>, hash: K -> nat)
    requires t != []
  {
    forall i :: 0 <= i < |t| && t[i].Taken? ==> Clear(t, Home(t, hash, t[i].key), i)
  }

  ghost predicate Distinct<K(!new), V(!new)>(t: seq<Slot<K, V>>) {
    forall i, j :: 0 <= i < j < |t| && t[i].Taken? && t[j].Taken? ==> t[i].key != t[j].key
  }

  // ----- the map

  function Entries<K, V>(t: seq<Slot<K, V>>): map<K, V> {
    if t == [] then map[]
    else
      var rest := Entries(t[..|t| - 1]);
      var last := t[|t| - 1];
      if last.Taken? then rest[last.key := last.value] else rest
  }

  function Live<K, V>(t: seq<Slot<K, V>>): (n: nat)
    ensures n <= |t|
  {
    if t == [] then 0 else Live(t[..|t| - 1]) + if t[|t| - 1].Taken? then 1 else 0
  }

  ghost predicate Holds<K, V>(t: seq<Slot<K, V>>, i: int, key: K) {
    0 <= i < |t| && t[i].Taken? && t[i].key == key
  }

  /** The map has an entry exactly for the slots that are taken. */
  lemma {:induction false} EntriesHold<K(!new), V(!new)>(t: seq<Slot<K, V>>, key: K)
    requires Distinct(t)
    ensures key in Entries(t) <==> exists i :: Holds(t, i, key)
    ensures forall i :: Holds(t, i, key) ==> key in Entries(t) && Entries(t)[key] == t[i].value
  {
    if t != [] {
      var n := |t| - 1;
      EntriesHold(t[..n], key);
      assert forall i :: 0 <= i < n ==> (Holds(t[..n], i, key) <==> Holds(t, i, key));
      if key in Entries(t[..n]) {
        var i :| Holds(t[..n], i, key);
        assert Holds(t, i, key);
      }
      if t[n].Taken? && t[n].key == key {
        assert Holds(t, n, key);
      }
    }
  }

  lemma {:induction false} LiveIsSize<K(!new), V(!new)>(t: seq<Slot<K, V>>)
    requires Distinct(t)
    ensures |Entries(t)| == Live(t)
  {
    if t != [] {
      var n := |t| - 1;
      LiveIsSize(t[..n]);
      if t[n].Taken? {
        EntriesHold(t[..n], t[n].key);
      }
    }
  }

  lemma {:induction false} LiveUpdate<K, V>(t: seq<Slot<K, V>>, i: nat, s: Slot<K, V>)
    requires i < |t|
    ensures Live(t[i := s]) == Live(t) - (if t[i].Taken? then 1 else 0) + (if s.Taken? then 1 else 0)
  {
    var n := |t| - 1;
    if i == n {
      assert t[i := s][..n] == t[..n];
    } else {
      LiveUpdate(t[..n], i, s);
      assert t[i := s][..n] == t[..n][i := s];
    }
  }

  /** Maps are equal when they answer alike for every key. */
  lemma SameMap<K(!new), V(!new)>(a: map<K, V>, b: map<K, V>)
    requires forall k :: k in a <==> k in b
    requires forall k :: k in a ==> a[k] == b[k]
    ensures a == b
  {
  }

  lemma UpdateHolds<K(!new), V(!new)>(t: seq<Slot<K, V>>, i: nat, s: Slot<K, V>, key: K)
    requires i < |t|
    ensures forall j :: j != i ==> (Holds(t[i := s], j, key) <==> Holds(t, j, key))
    ensures Holds(t[i := s], i, key) <==> s.Taken? && s.key == key
  {
  }

  /** Putting a new key into a free slot adds one entry. */
  lemma Filled<K(!new), V(!new)>(t: seq<Slot<K, V>>, i: nat, key: K, value: V)
    requires Distinct(t) && i < |t| && !t[i].Taken? && key !in Entries(t)
    ensures Distinct(t[i := Taken(key, value)])
    ensures Entries(t[i := Taken(key, value)]) == Entries(t)[key := value]
  {
    var u := t[i := Taken(key, value)];
    EntriesHold(t, key);
    assert forall j :: 0 <= j < |t| && t[j].Taken? ==> !Holds(t, j, key);
    assert Distinct(u);
    forall k
      ensures k in Entries(u) <==> k in Entries(t)[key := value]
      ensures k in Entries(u) ==> Entries(u)[k] == Entries(t)[key := value][k]
    {
      AnswersAlike(t, u, i, k);
    }
    SameMap(Entries(u), Entries(t)[key := value]);
  }

  /** Changing slot i matters only to the keys it held and holds. */
  lemma AnswersAlike<K(!new), V(!new)>(t: seq<Slot<K, V>>, u: seq<Slot<K, V>>, i: nat, k: K)
    requires Distinct(t) && Distinct(u) && i < |t| == |u| && u == t[i := u[i]]
    ensures Holds(u, i, k) ==> k in Entries(u) && Entries(u)[k] == u[i].value
    ensures Holds(t, i, k) && !Holds(u, i, k) ==> k !in Entries(u)
    ensures !Holds(t, i, k) && !Holds(u, i, k) ==>
              (k in Entries(u) <==> k in Entries(t)) && (k in Entries(u) ==> Entries(u)[k] == Entries(t)[k])
  {
    EntriesHold(t, k);
    EntriesHold(u, k);
    UpdateHolds(t, i, u[i], k);
    if !Holds(t, i, k) && !Holds(u, i, k) {
      if k in Entries(u) {
        var j :| Holds(u, j, k);
        assert Holds(t, j, k);
      }
      if k in Entries(t) {
        var j :| Holds(t, j, k);
        assert Holds(u, j, k);
      }
    }
  }

  /** A new value for the key of a taken slot. */
  lemma Replaced<K(!new), V(!new)>(t: seq<Slot<K, V>>, i: nat, value: V)
    requires Distinct(t) && i < |t| && t[i].Taken?
    ensures var u := t[i := Taken(t[i].key, value)];
            Distinct(u) && Entries(u) == Entries(t)[t[i].key := value]
  {
    var u := t[i := Taken(t[i].key, value)];
    forall k
      ensures k in Entries(u) <==> k in Entries(t)[t[i].key := value]
      ensures k in Entries(u) ==> Entries(u)[k] == Entries(t)[t[i].key := value][k]
    {
      AnswersAlike(t, u, i, k);
    }
    SameMap(Entries(u), Entries(t)[t[i].key := value]);
  }

  /** A tombstone removes one entry. */
  lemma Removed<K(!new), V(!new)>(t: seq<Slot<K, V>>, i: nat)
    requires Distinct(t) && i < |t| && t[i].Taken?
    ensures var u := t[i := Tombstone];
            Distinct(u) && Entries(u) == Entries(t) - {t[i].key}
  {
    var u := t[i := Tombstone];
    forall k
      ensures k in Entries(u) <==> k in Entries(t) - {t[i].key}
      ensures k in Entries(u) ==> Entries(u)[k] == (Entries(t) - {t[i].key})[k]
    {
      AnswersAlike(t, u, i, k);
    }
    SameMap(Entries(u), Entries(t) - {t[i].key});
  }

  /** Entries stay reachable when a slot is filled on its key's own path, or becomes a tombstone. */
  lemma ReachKept<K(!new), V(!new)>(t: seq<Slot<K, V>>, hash: K -> nat, i: nat, s: Slot<K, V>)
    requires t != [] && Reachable(t, hash) && i < |t| && s != Empty
    requires s.Taken? ==> Clear(t, Home(t, hash, s.key), i)
    ensures Reachable(t[i := s], hash)
  {
    var u := t[i := s];
    forall k | 0 <= k < |u| && u[k].Taken? ensures Clear(u, Home(u, hash, u[k].key), k) {
      assert Clear(t, Home(t, hash, u[k].key), k);
    }
  }

  // ----- what a search establishes

  /** A probe that has seen every slot without meeting the key: it is absent. */
  lemma NotFound<K(!new), V(!new)>(t: seq<Slot<K, V>>, hash: K -> nat, key: K, e: nat)
    requires t != [] && Distinct(t) && Reachable(t, hash) && e <= |t|
    requires forall j :: 0 <= j < e ==> !Holds(t, Probe(Home(t, hash, key), j, |t|), key)
    requires e == |t| || t[Probe(Home(t, hash, key), e, |t|)].Empty?
    ensures key !in Entries(t)
  {
    EntriesHold(t, key);
    var start := Home(t, hash, key);
    forall i | 0 <= i < |t| ensures !Holds(t, i, key) {
      var d := Steps(start, i, |t|);
      if d < e {
        assert !Holds(t, Probe(start, d, |t|), key);
      } else if e < d {
        assert !Clear(t, start, i);
      }
    }
  }

  /** All slots have been probed. */
  lemma AllProbed<K(!new), V(!new)>(t: seq<Slot<K, V>>, start: nat)
    requires start < |t|
    requires forall j :: 0 <= j < |t| ==> t[Probe(start, j, |t|)] != Empty
    ensures forall i :: 0 <= i < |t| ==> t[i] != Empty
  {
    forall i | 0 <= i < |t| ensures t[i] != Empty {
      assert t[Probe(start, Steps(start, i, |t|), |t|)] != Empty;
    }
  }

  // ----- rebuilding

  lemma {:induction false} HasEmpty<K, V>(t: seq<Slot<K, V>>)
    requires Live(t) < |t| && forall i :: 0 <= i < |t| ==> !t[i].Tombstone?
    ensures exists i :: 0 <= i < |t| && t[i].Empty?
  {
    var n := |t| - 1;
    if !t[n].Empty? {
      HasEmpty(t[..n]);
      var i :| 0 <= i < n && t[..n][i].Empty?;
      assert t[i].Empty?;
    }
  }

  lemma {:induction false} LiveMonotone<K, V>(t: seq<Slot<K, V>>, i: nat)
    requires i <= |t|
    ensures Live(t[..i]) <= Live(t)
    ensures Live(t[..i]) == Live(t) ==> Entries(t[..i]) == Entries(t)
  {
    if i < |t| {
      var n := |t| - 1;
      LiveMonotone(t[..n], i);
      assert t[..n][..i] == t[..i];
    } else {
      assert t[..i] == t;
    }
  }

  lemma DistinctPrefix<K(!new), V(!new)>(t: seq<Slot<K, V>>, i: nat)
    requires Distinct(t) && i < |t|
    ensures Distinct(t[..i])
    ensures t[i].Taken? ==> t[i].key !in Entries(t[..i])
    ensures Entries(t[..i + 1]) == if t[i].Taken? then Entries(t[..i])[t[i].key := t[i].value] else Entries(t[..i])
    ensures Live(t[..i + 1]) == Live(t[..i]) + if t[i].Taken? then 1 else 0
  {
    assert t[..i + 1][..i] == t[..i];
    if t[i].Taken? {
      EntriesHold(t[..i], t[i].key);
    }
  }
}

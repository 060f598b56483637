/** Variants as JSON values, their equality, and the order of object keys. */
module JsonValue {
  import opened Options
  import opened Utf8

  /** An object lists its members in the order its hash table yields them. */
  datatype Json =
    | Null
    | True
    | False
    | Integer(i: int)
    | String(s: seq<Byte>)
    | Array(elems: seq<Json>)
    | Object(fields: seq<Field>)

  datatype Field = Field(key: seq<Byte>, value: Json)

  ghost predicate DistinctKeys(fs: seq<Field>) {
    forall i, j :: 0 <= i < j < |fs| ==> fs[i].key != fs[j].key
  }

  /** Object keys are distinct, integers fit int64_t: what a variant can be. */
  ghost predicate Proper(v: Json) {
    match v
    case Integer(i) => -0x8000_0000_0000_0000 <= i <= 0x7fff_ffff_ffff_ffff
    case Array(es) => forall i :: 0 <= i < |es| ==> Proper(es[i])
    case Object(fs) => DistinctKeys(fs) && forall i :: 0 <= i < |fs| ==> Proper(fs[i].value)
    case _ => true
  }

  // ----- lookup

  /** `ph_var_object_get` */
  function Get(fs: seq<Field>, key: seq<Byte>): Option<Json> {
    if fs == [] then None
    else if fs[0].key == key then Some(fs[0].value)
    else Get(fs[1..], key)
  }

  function Keys(fs: seq<Field>): set<seq<Byte>> {
    set i | 0 <= i < |fs| :: fs[i].key
  }

  lemma {:induction false} GetIsMember(fs: seq<Field>, key: seq<Byte>)
    ensures Get(fs, key).Some? <==> key in Keys(fs)
    ensures Get(fs, key).Some? ==> exists i :: 0 <= i < |fs| && fs[i] == Field(key, Get(fs, key).value)
  {
    if fs != [] {
      GetIsMember(fs[1..], key);
      assert forall i :: 0 <= i < |fs| - 1 ==> fs[1..][i] == fs[i + 1];
      assert fs[0].key in Keys(fs);
      if key in Keys(fs[1..]) {
        var i :| 0 <= i < |fs[1..]| && fs[1..][i].key == key;
        assert fs[i + 1].key == key;
      }
      if key in Keys(fs) && fs[0].key != key {
        var i :| 0 <= i < |fs| && fs[i].key == key;
        assert fs[1..][i - 1].key == key;
      }
      if fs[0].key == key {
        assert fs[0] == Field(key, fs[0].value);
      }
    }
  }

  lemma GetAt(fs: seq<Field>, i: nat)
    requires DistinctKeys(fs) && i < |fs|
    ensures Get(fs, fs[i].key) == Some(fs[i].value)
  {
    assert fs[i].key in Keys(fs);
    GetIsMember(fs, fs[i].key);
  }

  lemma {:induction false} KeyCount(fs: seq<Field>)
    requires DistinctKeys(fs)
    ensures |Keys(fs)| == |fs|
  {
    if fs != [] {
      var n := |fs| - 1;
      KeyCount(fs[..n]);
      assert Keys(fs) == Keys(fs[..n]) + {fs[n].key};
      assert fs[n].key !in Keys(fs[..n]);
    }
  }

  // ----- equality

  /** `ph_var_equal`: objects are compared by size and by looking up the members of the first
      in the second. */
  predicate VarEqual(a: Json, b: Json)
    decreases a
  {
    match (a, b)
    case (Array(xs), Array(ys)) => |xs| == |ys| && forall i :: 0 <= i < |xs| ==> VarEqual(xs[i], ys[i])
    case (Object(fs), Object(gs)) =>
      |fs| == |gs| &&
      forall i :: 0 <= i < |fs| ==> Get(gs, fs[i].key).Some? && VarEqual(fs[i].value, Get(gs, fs[i].key).value)
    case _ => a == b
  }

  /** Structural equality: objects are equal as finite maps. */
  ghost predicate Same(a: Json, b: Json)
    decreases a
  {
    match (a, b)
    case (Array(xs), Array(ys)) => |xs| == |ys| && forall i :: 0 <= i < |xs| ==> Same(xs[i], ys[i])
    case (Object(fs), Object(gs)) =>
      && Keys(fs) == Keys(gs)
      && forall i :: 0 <= i < |fs| ==> Get(gs, fs[i].key).Some? && Same(fs[i].value, Get(gs, fs[i].key).value)
    case _ => a == b
  }

  /** A subset of the same size is the whole set. */
  lemma SubsetSameSize<T>(a: set<T>, b: set<T>)
    requires a <= b && |a| == |b|
    ensures a == b
  {
    assert b == a + (b - a);
    assert |b| == |a| + |b - a|;
  }

  /** Looking up only the members of the first object decides equality as maps. */
  lemma {:induction false} EqualIsSame(a: Json, b: Json)
    requires Proper(a) && Proper(b)
    ensures VarEqual(a, b) <==> Same(a, b)
    decreases a
  {
    match (a, b) {
      case (Array(xs), Array(ys)) =>
        if |xs| == |ys| {
          forall i | 0 <= i < |xs| ensures VarEqual(xs[i], ys[i]) <==> Same(xs[i], ys[i]) {
            EqualIsSame(xs[i], ys[i]);
          }
        }
      case (Object(fs), Object(gs)) =>
        ObjectEqualIsSame(fs, gs);
      case _ =>
    }
  }

  lemma {:induction false} ObjectEqualIsSame(fs: seq<Field>, gs: seq<Field>)
    requires Proper(Object(fs)) && Proper(Object(gs))
    ensures VarEqual(Object(fs), Object(gs)) <==> Same(Object(fs), Object(gs))
    decreases fs
  {
    KeyCount(fs);
    KeyCount(gs);
    forall i | 0 <= i < |fs| && Get(gs, fs[i].key).Some?
      ensures fs[i].key in Keys(gs)
      ensures VarEqual(fs[i].value, Get(gs, fs[i].key).value) <==> Same(fs[i].value, Get(gs, fs[i].key).value)
    {
      GetIsMember(gs, fs[i].key);
      EqualIsSame(fs[i].value, Get(gs, fs[i].key).value);
    }
    if VarEqual(Object(fs), Object(gs)) {
      assert Keys(fs) <= Keys(gs);
      SubsetSameSize(Keys(fs), Keys(gs));
    }
  }

  lemma {:induction false} SameSymmetric(a: Json, b: Json)
    requires Proper(a) && Proper(b) && Same(a, b)
    ensures Same(b, a)
    decreases a
  {
    match (a, b) {
      case (Array(xs), Array(ys)) =>
        forall i | 0 <= i < |xs| ensures Same(ys[i], xs[i]) {
          SameSymmetric(xs[i], ys[i]);
        }
      case (Object(fs), Object(gs)) =>
        forall j | 0 <= j < |gs| ensures Get(fs, gs[j].key).Some? && Same(gs[j].value, Get(fs, gs[j].key).value) {
          assert gs[j].key in Keys(gs);
          GetIsMember(fs, gs[j].key);
          var i :| 0 <= i < |fs| && fs[i] == Field(gs[j].key, Get(fs, gs[j].key).value);
          GetAt(gs, j);
          SameSymmetric(fs[i].value, gs[j].value);
        }
      case _ =>
    }
  }

  /** `ph_var_equal` is symmetric although it looks up only the first object's members. */
  lemma VarEqualSymmetric(a: Json, b: Json)
    requires Proper(a) && Proper(b)
    ensures VarEqual(a, b) <==> VarEqual(b, a)
  {
    EqualIsSame(a, b);
    EqualIsSame(b, a);
    if Same(a, b) {
      SameSymmetric(a, b);
    }
    if Same(b, a) {
      SameSymmetric(b, a);
    }
  }

  lemma {:induction false} VarEqualReflexive(a: Json)
    requires Proper(a)
    ensures VarEqual(a, a)
  {
    match a {
      case Array(xs) =>
        forall i | 0 <= i < |xs| ensures VarEqual(xs[i], xs[i]) {
          VarEqualReflexive(xs[i]);
        }
      case Object(fs) =>
        forall i | 0 <= i < |fs| ensures Get(fs, fs[i].key).Some? && VarEqual(fs[i].value, Get(fs, fs[i].key).value) {
          GetAt(fs, i);
          VarEqualReflexive(fs[i].value);
        }
      case _ =>
    }
  }

  // ----- the order of keys

  /** `ph_string_compare` < 0: bytewise, a proper prefix first. */
  predicate Less(a: seq<Byte>, b: seq<Byte>) {
    if b == [] then false
    else if a == [] then true
    else if a[0] != b[0] then a[0] < b[0]
    else Less(a[1..], b[1..])
  }

  lemma {:induction false} LessTotal(a: seq<Byte>, b: seq<Byte>)
    ensures a == b || Less(a, b) || Less(b, a)
    ensures !(Less(a, b) && Less(b, a)) && !Less(a, a)
  {
    if a != [] && b != [] && a[0] == b[0] {
      LessTotal(a[1..], b[1..]);
      assert a == [a[0]] + a[1..] && b == [b[0]] + b[1..];
    }
    if a != [] {
      LessTotal(a[1..], a[1..]);
    }
  }

  lemma {:induction false} LessTransitive(a: seq<Byte>, b: seq<Byte>, c: seq<Byte>)
    requires Less(a, b) && Less(b, c)
    ensures Less(a, c)
  {
    if a != [] && b != [] && c != [] && a[0] == b[0] == c[0] {
      LessTransitive(a[1..], b[1..], c[1..]);
    }
  }

  /** a and b agree on n bytes, and then a ends or has the lesser byte. */
  predicate FirstDifference(a: seq<Byte>, b: seq<Byte>, n: nat) {
    n <= |a| && n < |b| && a[..n] == b[..n] && (n == |a| || a[n] < b[n])
  }

  /** It is the lexicographic order. */
  lemma {:induction false} LessIsLexicographic(a: seq<Byte>, b: seq<Byte>)
    ensures Less(a, b) <==> exists n: nat :: FirstDifference(a, b, n)
  {
    if a == [] || b == [] || a[0] != b[0] {
      if Less(a, b) {
        assert FirstDifference(a, b, 0);
      }
      if n: nat :| FirstDifference(a, b, n) {
        assert n > 0 ==> a[..n][0] == b[..n][0];
      }
    } else {
      var a', b' := a[1..], b[1..];
      LessIsLexicographic(a', b');
      if n: nat :| FirstDifference(a', b', n) {
        assert a[..n + 1] == [a[0]] + a'[..n] && b[..n + 1] == [b[0]] + b'[..n];
        assert FirstDifference(a, b, n + 1);
      }
      if n: nat :| FirstDifference(a, b, n) {
        assert a'[..n - 1] == a[..n][1..] && b'[..n - 1] == b[..n][1..];
        assert FirstDifference(a', b', n - 1);
      }
    }
  }

  /** Of two code points the first group of six bits in which they differ decides. */
  lemma GroupsOrder(a: nat, b: nat, c: nat, d: nat, a': nat, b': nat, c': nat, d': nat)
    requires b < 64 && c < 64 && d < 64 && b' < 64 && c' < 64 && d' < 64
    requires Join(a, b, c, d) < Join(a', b', c', d')
    ensures a < a' || (a == a' && (b < b' || (b == b' && (c < c' || (c == c' && d < d')))))
  {
  }

  /** The bytes of a code point from its groups. */
  lemma EncodeGroups(cp: nat, a: nat, b: nat, c: nat, d: nat)
    requires cp <= 0x10FFFF && a < 8 && b < 64 && c < 64 && d < 64 && cp == Join(a, b, c, d)
    ensures Encode(cp) ==
            if cp < 0x80 then [cp]
            else if cp < 0x800 then [0xC0 + c, 0x80 + d]
            else if cp < 0x10000 then [0xE0 + b, 0x80 + c, 0x80 + d]
            else [0xF0 + a, 0x80 + b, 0x80 + c, 0x80 + d]
    ensures cp < 0x800 ==> a == 0 && b == 0 && c < 32
    ensures cp < 0x10000 ==> a == 0 && b < 16
  {
    hide Bits;
    Groups(a, b, c, d);
  }

  /** Section 1 of RFC 3629: the order of the bytes is the order of the code points.  Since
      decoding is one to one between the grammar and the scalar values, there is no other way
      to number the characters in their order. */
  lemma EncodeKeepsOrder(x: nat, y: nat)
    requires IsScalar(x) && IsScalar(y) && x < y
    ensures Less(Encode(x), Encode(y))
  {
    hide Encode, Join, Less;
    var a, b, c, d := Split(x);
    var a', b', c', d' := Split(y);
    EncodeGroups(x, a, b, c, d);
    EncodeGroups(y, a', b', c', d');
    GroupsOrder(a, b, c, d, a', b', c', d');
    var s, t := Encode(x), Encode(y);
    LessIsLexicographic(s, t);
    var n: nat := if s[0] != t[0] then 0 else if s[1] != t[1] then 1 else if s[2] != t[2] then 2 else 3;
    assert FirstDifference(s, t, n);
  }

  /** The order in which the ordered iterator visits members: by key. */
  function InsertField(f: Field, fs: seq<Field>): seq<Field> {
    if fs == [] || Less(f.key, fs[0].key) then [f] + fs else [fs[0]] + InsertField(f, fs[1..])
  }

  function SortFields(fs: seq<Field>): seq<Field> {
    if fs == [] then [] else InsertField(fs[0], SortFields(fs[1..]))
  }

  ghost predicate SortedKeys(fs: seq<Field>) {
    forall i, j :: 0 <= i < j < |fs| ==> Less(fs[i].key, fs[j].key)
  }

  lemma {:induction false} InsertMembers(f: Field, fs: seq<Field>)
    ensures multiset(InsertField(f, fs)) == multiset(fs) + multiset{f}
  {
    if !(fs == [] || Less(f.key, fs[0].key)) {
      InsertMembers(f, fs[1..]);
      assert fs == [fs[0]] + fs[1..];
    }
  }

  lemma {:induction false} SortMembers(fs: seq<Field>)
    ensures multiset(SortFields(fs)) == multiset(fs)
  {
    if fs != [] {
      SortMembers(fs[1..]);
      InsertMembers(fs[0], SortFields(fs[1..]));
      assert fs == [fs[0]] + fs[1..];
    }
  }

  lemma {:induction false} InsertSorted(f: Field, fs: seq<Field>)
    requires SortedKeys(fs) && forall i :: 0 <= i < |fs| ==> fs[i].key != f.key
    ensures SortedKeys(InsertField(f, fs))
  {
    if fs != [] {
      LessTotal(f.key, fs[0].key);
      if Less(f.key, fs[0].key) {
        forall i | 0 <= i < |fs| ensures Less(f.key, fs[i].key) {
          if i > 0 {
            LessTransitive(f.key, fs[0].key, fs[i].key);
          }
        }
      } else {
        var rest := fs[1..];
        InsertSorted(f, rest);
        InsertMembers(f, rest);
        var r := InsertField(f, rest);
        forall i | 0 <= i < |r| ensures Less(fs[0].key, r[i].key) {
          assert r[i] in multiset(r);
          if r[i] != f {
            assert r[i] in multiset(rest);
            var j :| 0 <= j < |rest| && rest[j] == r[i];
            assert fs[j + 1] == r[i];
          }
        }
      }
    }
  }

  /** Sorting by distinct keys yields the members in strictly increasing key order. */
  lemma {:induction false} SortSorts(fs: seq<Field>)
    requires DistinctKeys(fs)
    ensures SortedKeys(SortFields(fs)) && multiset(SortFields(fs)) == multiset(fs)
  {
    SortMembers(fs);
    if fs != [] {
      var rest := fs[1..];
      SortSorts(rest);
      var r := SortFields(rest);
      forall i | 0 <= i < |r| ensures r[i].key != fs[0].key {
        assert r[i] in multiset(r);
        var j :| 0 <= j < |rest| && rest[j] == r[i];
        assert fs[j + 1] == r[i];
      }
      InsertSorted(fs[0], r);
    }
  }
}

/** Searching for a delimiter in bytes that are spread over several buffers. */
module BufSearch {

  import Utf8

  type Byte = Utf8.Byte

  function Concat(cs: seq<seq<Byte>>): seq<Byte> {
    if cs == [] then [] else cs[0] + Concat(cs[1..])
  }

  // ----- a plain search

  /** The end of the first occurrence of d in s, or 0. */
  function FindEnd(s: seq<Byte>, d: seq<Byte>): (e: nat)
    ensures e <= |s|
  {
    if |s| < |d| then 0
    else if s[..|d|] == d then |d|
    else if s == [] then 0
    else After(1, FindEnd(s[1..], d))
  }

  function After(n: nat, e: nat): nat {
    if e == 0 then 0 else n + e
  }

  /** An occurrence of d ends at e. */
  predicate EndsAt(s: seq<Byte>, d: seq<Byte>, e: nat) {
    |d| <= e <= |s| && s[e - |d|..e] == d
  }

  lemma EndsAtShift(s: seq<Byte>, d: seq<Byte>, e: nat)
    requires |s| >= |d| > 0
    ensures EndsAt(s, d, |d|) <==> s[..|d|] == d
    ensures e > |d| ==> (EndsAt(s, d, e) <==> EndsAt(s[1..], d, e - 1))
  {
    assert s[|d| - |d|..|d|] == s[..|d|];
    if |d| < e <= |s| {
      var a, b := s[e - |d|..e], s[1..][e - 1 - |d|..e - 1];
      forall i | 0 <= i < |a| ensures a[i] == b[i] {
        assert a[i] == s[e - |d| + i] == b[i];
      }
      assert a == b;
    }
  }

  /** The search finds the first occurrence, and 0 means there is none. */
  lemma {:induction false} FindEndIsFirst(s: seq<Byte>, d: seq<Byte>)
    requires d != []
    ensures FindEnd(s, d) > 0 ==> EndsAt(s, d, FindEnd(s, d))
    ensures forall e: nat {:trigger EndsAt(s, d, e)} :: EndsAt(s, d, e) ==> 0 < FindEnd(s, d) <= e
  {
    hide EndsAt;
    if |s| < |d| {
      forall e: nat ensures !EndsAt(s, d, e) {
        TooShort(s, d, e);
      }
    } else {
      FindEndIsFirst(s[1..], d);
      forall e: nat ensures EndsAt(s, d, e) ==> 0 < FindEnd(s, d) <= e {
        EndsAtShift(s, d, e);
        BeforeStart(s, d, e);
        if e > |d| && EndsAt(s, d, e) {
          assert EndsAt(s[1..], d, e - 1);
        }
      }
      BeforeStart(s[1..], d, FindEnd(s[1..], d));
      EndsAtShift(s, d, FindEnd(s, d));
    }
  }

  lemma TooShort(s: seq<Byte>, d: seq<Byte>, e: nat)
    requires |s| < |d|
    ensures !EndsAt(s, d, e) && FindEnd(s, d) == 0
  {
  }

  lemma BeforeStart(s: seq<Byte>, d: seq<Byte>, e: nat)
    ensures EndsAt(s, d, e) ==> |d| <= e
  {
  }

  /** The delimiter is split between a and b. */
  predicate Straddles(a: seq<Byte>, b: seq<Byte>, d: seq<Byte>) {
    |d| == 2 && a != [] && b != [] && a[|a| - 1] == d[0] && b[0] == d[1]
  }

  /** Where the first occurrence in a + b is, for short delimiters. */
  lemma {:induction false} FindEndSplit(a: seq<Byte>, b: seq<Byte>, d: seq<Byte>)
    requires 1 <= |d| <= 2
    ensures FindEnd(a + b, d) ==
            if FindEnd(a, d) > 0 then FindEnd(a, d)
            else if Straddles(a, b, d) then |a| + 1
            else After(|a|, FindEnd(b, d))
  {
    if a == [] {
      assert a + b == b;
    } else {
      assert (a + b)[1..] == a[1..] + b;
      FindEndSplit(a[1..], b, d);
      if |a| >= |d| {
        assert (a + b)[..|d|] == a[..|d|];
      } else if b != [] {
        assert (a + b)[..2] == [a[0], b[0]];
        assert d == [d[0], d[1]];
        assert a[1..] == [];
      } else {
        assert a + b == a;
      }
    }
  }

  // ----- the search over buffers

  /** `partial_match`: how many bytes of d are missing after the longest of its beginnings, of
      at most k bytes, that ends the buffer; 0 if none does. */
  function Missing(c: seq<Byte>, d: seq<Byte>, k: nat): (n: nat)
    requires k < |d|
    ensures n <= |d|
  {
    if k == 0 then 0
    else if k <= |c| && c[|c| - k..] == d[..k] then |d| - k
    else Missing(c, d, k - 1)
  }

  /** The straddle test found the rest of d at the start of the next buffer. */
  predicate Continues(c: seq<Byte>, next: seq<Byte>, d: seq<Byte>)
    requires d != []
  {
    var n := Missing(c, d, |d| - 1);
    0 < n <= |next| && next[..n] == d[|d| - n..]
  }

  /** The straddle test gives up. */
  predicate GivesUp(c: seq<Byte>, d: seq<Byte>)
    requires d != []
  {
    |c| < Missing(c, d, |d| - 1)
  }

  /** `find_record` from the first of the given buffers: the length up to the end of the record, or 0. */
  function Search(cs: seq<seq<Byte>>, d: seq<Byte>): nat
    requires d != []
  {
    if cs == [] then 0
    else if FindEnd(cs[0], d) > 0 then FindEnd(cs[0], d)
    else if |cs| == 1 || GivesUp(cs[0], d) then 0
    else if Continues(cs[0], cs[1], d) then |cs[0]| + Missing(cs[0], d, |d| - 1)
    else After(|cs[0]|, Search(cs[1..], d))
  }

  /** Only the first buffer may be empty. */
  ghost predicate Packed(cs: seq<seq<Byte>>) {
    forall j :: 0 < j < |cs| ==> cs[j] != []
  }

  /** For short delimiters the straddle test is exact. */
  lemma ShortStraddle(c: seq<Byte>, next: seq<Byte>, d: seq<Byte>)
    requires 1 <= |d| <= 2
    ensures !GivesUp(c, d) && (Continues(c, next, d) <==> Straddles(c, next, d))
    ensures Continues(c, next, d) ==> Missing(c, d, |d| - 1) == 1
  {
    assert Missing(c, d, 0) == 0;
    if |d| == 2 {
      assert d[..1] == [d[0]] && d[1..] == [d[1]];
      if c != [] {
        assert c[|c| - 1..] == [c[|c| - 1]];
      }
      assert Missing(c, d, 1) == if c != [] && c[|c| - 1] == d[0] then 1 else 0;
      if next != [] {
        assert next[..1] == [next[0]];
      }
    }
  }

  /** With a delimiter of one or two bytes, searching buffer by buffer is searching the bytes. */
  lemma {:induction false} SearchIsFindEnd(cs: seq<seq<Byte>>, d: seq<Byte>)
    requires 1 <= |d| <= 2 && Packed(cs)
    ensures Search(cs, d) == FindEnd(Concat(cs), d)
  {
    if cs != [] {
      SearchIsFindEnd(cs[1..], d);
      FindEndSplit(cs[0], Concat(cs[1..]), d);
      if |cs| > 1 {
        ShortStraddle(cs[0], cs[1], d);
        assert Concat(cs[1..])[0] == cs[1][0];
      }
    }
  }

  /** With a longer delimiter it is not: one that is split after its first byte is missed. */
  lemma LongDelimiterMissed(d: seq<Byte>)
    requires |d| >= 3
    ensures var cs := [d[..1], d[1..]];
            Packed(cs) && Search(cs, d) == 0 && FindEnd(Concat(cs), d) == |d|
  {
    hide Missing, Concat, FindEnd;
    MissingAfterFirst(d, |d| - 1);
    ConcatTwo(d[..1], d[1..]);
    assert d[..1] + d[1..] == d;
    WholeText(d);
    TooShort(d[..1], d, 0);
  }

  lemma WholeText(d: seq<Byte>)
    ensures FindEnd(d, d) == |d|
  {
    assert d[..|d|] == d;
  }

  lemma ConcatTwo(a: seq<Byte>, b: seq<Byte>)
    ensures Concat([a, b]) == a + b
  {
    assert [a, b][1..] == [b] && [b][1..] == [];
    assert Concat([b]) == b + [];
  }

  lemma {:induction false} MissingAfterFirst(d: seq<Byte>, k: nat)
    requires 1 <= k < |d|
    ensures Missing(d[..1], d, k) == |d| - 1
  {
    if k > 1 {
      MissingAfterFirst(d, k - 1);
    }
  }

  /** Exactly the delimiters of at most two bytes are found however the bytes are split. */
  lemma FramingIff(d: seq<Byte>)
    requires d != []
    ensures |d| <= 2 <==> forall cs {:trigger Search(cs, d)} :: Packed(cs) ==> Search(cs, d) == FindEnd(Concat(cs), d)
  {
    if |d| <= 2 {
      forall cs | Packed(cs) ensures Search(cs, d) == FindEnd(Concat(cs), d) {
        SearchIsFindEnd(cs, d);
      }
    } else {
      LongDelimiterMissed(d);
    }
  }

  // ----- resuming

  /** The search passes over the first p buffers. */
  ghost predicate Quiet(cs: seq<seq<Byte>>, d: seq<Byte>, p: nat)
    requires d != []
  {
    p < |cs| && forall j :: 0 <= j < p ==> FindEnd(cs[j], d) == 0 && !GivesUp(cs[j], d) && !Continues(cs[j], cs[j + 1], d)
  }

  /** Resuming at buffer p gives what starting over gives. */
  lemma {:induction false} ResumeIsSearch(cs: seq<seq<Byte>>, d: seq<Byte>, p: nat)
    requires d != [] && Quiet(cs, d, p)
    ensures Search(cs, d) == After(|Concat(cs[..p])|, Search(cs[p..], d))
    decreases p
  {
    if p == 0 {
      assert cs[0..] == cs && cs[..0] == [];
    } else {
      ResumeIsSearch(cs[1..], d, p - 1);
      assert cs[1..][p - 1..] == cs[p..];
      assert cs[..p][1..] == cs[1..][..p - 1];
    }
  }

  /** Growth of the last buffer and new buffers after it leave the first p passed over. */
  lemma QuietKept(cs: seq<seq<Byte>>, cs': seq<seq<Byte>>, d: seq<Byte>, p: nat)
    requires 1 <= |d| <= 2 && Quiet(cs, d, p) && Packed(cs) && p < |cs'|
    requires cs'[..p] == cs[..p] && cs[p] <= cs'[p]
    ensures Quiet(cs', d, p)
  {
    forall j | 0 <= j < p
      ensures FindEnd(cs'[j], d) == 0 && !GivesUp(cs'[j], d) && !Continues(cs'[j], cs'[j + 1], d)
    {
      assert cs'[j] == cs'[..p][j] == cs[..p][j] == cs[j];
      ShortStraddle(cs[j], cs[j + 1], d);
      ShortStraddle(cs'[j], cs'[j + 1], d);
      if j + 1 < p {
        assert cs'[j + 1] == cs'[..p][j + 1] == cs[..p][j + 1] == cs[j + 1];
      } else {
        assert cs[p][0] == cs'[p][0];
      }
    }
  }

  // ----- framing

  /** Cutting s into records ends with the first place no delimiter is found. */
  function Records(s: seq<Byte>, d: seq<Byte>): seq<seq<Byte>>
    requires d != []
  {
    var e := FindEnd(s, d);
    if e == 0 then [] else [s[..e]] + Records(s[e..], d)
  }

  function Remainder(s: seq<Byte>, d: seq<Byte>): seq<Byte>
    requires d != []
  {
    var e := FindEnd(s, d);
    if e == 0 then s else Remainder(s[e..], d)
  }

  lemma RecordsUnfold(s: seq<Byte>, d: seq<Byte>)
    requires d != []
    ensures var e := FindEnd(s, d);
            && Records(s, d) == (if e == 0 then [] else [s[..e]] + Records(s[e..], d))
            && Remainder(s, d) == (if e == 0 then s else Remainder(s[e..], d))
  {
    hide FindEnd;
  }

  /** Records and remainder are the bytes. */
  lemma {:induction false} RecordsConserve(s: seq<Byte>, d: seq<Byte>)
    requires d != []
    ensures Concat(Records(s, d)) + Remainder(s, d) == s
  {
    hide FindEnd;
    var e := FindEnd(s, d);
    if e > 0 {
      RecordsConserve(s[e..], d);
      assert Records(s, d)[1..] == Records(s[e..], d);
      assert s == s[..e] + s[e..];
    }
  }

  lemma {:induction false} FindEndExtends(s: seq<Byte>, t: seq<Byte>, d: seq<Byte>)
    requires d != [] && FindEnd(s, d) > 0
    ensures FindEnd(s + t, d) == FindEnd(s, d)
  {
    assert (s + t)[..|d|] == s[..|d|];
    if s[..|d|] != d {
      FindEndExtends(s[1..], t, d);
      assert (s + t)[1..] == s[1..] + t;
    }
  }

  /** More bytes continue where the remainder ended. */
  lemma {:induction false} RecordsContinue(s: seq<Byte>, t: seq<Byte>, d: seq<Byte>)
    requires d != []
    ensures Records(s + t, d) == Records(s, d) + Records(Remainder(s, d) + t, d)
    ensures Remainder(s + t, d) == Remainder(Remainder(s, d) + t, d)
  {
    hide FindEnd, Records, Remainder;
    var e := FindEnd(s, d);
    RecordsUnfold(s, d);
    if e > 0 {
      FindEndExtends(s, t, d);
      RecordsContinue(s[e..], t, d);
      RecordsUnfold(s + t, d);
      assert (s + t)[..e] == s[..e] && (s + t)[e..] == s[e..] + t;
      assert [s[..e]] + (Records(s[e..], d) + Records(Remainder(s[e..], d) + t, d)) ==
             [s[..e]] + Records(s[e..], d) + Records(Remainder(s[e..], d) + t, d);
    } else {
      assert [] + Records(s + t, d) == Records(s + t, d);
    }
  }
}

/** The buffer queue: bytes appended at one end are read as records at the other. */
module BufQueue {
  import opened Options
  import opened BufSearch

  /** A buffer of `size` bytes; `data` are those written so far, the first rpos of them read. */
  datatype Ent = Ent(data: seq<Byte>, size: nat, rpos: nat)

  predicate Sound(e: Ent) {
    e.rpos <= |e.data| <= e.size
  }

  function Unread(e: Ent): seq<Byte> {
    if e.rpos <= |e.data| then e.data[e.rpos..] else []
  }

  function Chunks(fifo: seq<Ent>): (cs: seq<seq<Byte>>)
    ensures |cs| == |fifo| && forall i :: 0 <= i < |cs| ==> cs[i] == Unread(fifo[i])
  {
    if fifo == [] then [] else [Unread(fifo[0])] + Chunks(fifo[1..])
  }

  function Last(fifo: seq<Ent>): Ent
    requires fifo != []
  {
    fifo[|fifo| - 1]
  }

  function ToppedOff(fifo: seq<Ent>, data: seq<Byte>): seq<Ent>
    requires fifo != []
  {
    fifo[|fifo| - 1 := Last(fifo).(data := Last(fifo).data + data)]
  }

  /** There is no buffer with room at the end. */
  predicate Full(fifo: seq<Ent>) {
    fifo == [] || |Last(fifo).data| == Last(fifo).size
  }

  /** Room in the last buffer. */
  function Space(fifo: seq<Ent>): nat {
    if fifo == [] || Last(fifo).size <= |Last(fifo).data| then 0 else Last(fifo).size - |Last(fifo).data|
  }

  /** The first len unread bytes are a buffer as a whole, which can be handed out as it is. */
  predicate Whole(fifo: seq<Ent>, len: nat) {
    |fifo| == 1 && fifo[0].rpos == 0 && len == fifo[0].size
  }

  /** The longest delimiter a search can be resumed for. */
  const DELIM_MAX := 16

  // ----- sequences of buffers

  lemma {:induction false} ConcatJoin(a: seq<seq<Byte>>, b: seq<seq<Byte>>)
    ensures Concat(a + b) == Concat(a) + Concat(b)
  {
    if a == [] {
      assert a + b == b;
    } else {
      ConcatJoin(a[1..], b);
      assert (a + b)[1..] == a[1..] + b;
    }
  }

  lemma ConcatOne(c: seq<Byte>)
    ensures Concat([c]) == c
  {
    assert Concat([c][1..]) == [];
  }

  lemma ConcatStep(cs: seq<seq<Byte>>, i: nat)
    requires i < |cs|
    ensures Concat(cs[..i + 1]) == Concat(cs[..i]) + cs[i]
    ensures Concat(cs[i..]) == cs[i] + Concat(cs[i + 1..])
    ensures Concat(cs) == Concat(cs[..i]) + Concat(cs[i..])
  {
    hide Concat;
    ConcatJoin(cs[..i], [cs[i]]);
    ConcatJoin([cs[i]], cs[i + 1..]);
    ConcatOne(cs[i]);
    assert cs[..i] + [cs[i]] == cs[..i + 1];
    assert [cs[i]] + cs[i + 1..] == cs[i..];
    ConcatJoin(cs[..i], cs[i..]);
    assert cs[..i] + cs[i..] == cs;
  }

  /** The search for d stands at buffer p of cs, `index` bytes from the start; for short
      delimiters nothing is to be found before. */
  ghost predicate StandsAt(cs: seq<seq<Byte>>, d: seq<Byte>, p: nat, index: nat) {
    d != [] && p < |cs| && index == |Concat(cs[..p])| && (|d| <= 2 ==> Quiet(cs, d, p))
  }

  /** cs' is cs after an append. */
  ghost predicate Grew(cs: seq<seq<Byte>>, cs': seq<seq<Byte>>) {
    cs != [] ==> |cs| <= |cs'| && cs'[..|cs| - 1] == cs[..|cs| - 1] && cs[|cs| - 1] <= cs'[|cs| - 1]
  }

  /** Appending keeps what is remembered of a search. */
  lemma StillStands(cs: seq<seq<Byte>>, cs': seq<seq<Byte>>, d: seq<Byte>, p: nat, index: nat)
    requires StandsAt(cs, d, p, index) && Packed(cs) && Grew(cs, cs')
    ensures StandsAt(cs', d, p, index)
  {
    hide Quiet, Concat;
    var n := |cs| - 1;
    assert cs'[..n][..p] == cs'[..p] && cs[..n][..p] == cs[..p];
    if p < n {
      assert cs'[p] == cs'[..n][p] && cs[p] == cs[..n][p];
    }
    if |d| <= 2 {
      QuietKept(cs, cs', d, p);
    }
  }

  /** The last buffer has grown. */
  lemma LastGrew(cs: seq<seq<Byte>>, cs': seq<seq<Byte>>, data: seq<Byte>)
    requires cs != [] && cs' == cs[|cs| - 1 := cs[|cs| - 1] + data]
    ensures Grew(cs, cs') && Concat(cs') == Concat(cs) + data
  {
    hide Concat;
    var n := |cs| - 1;
    assert cs'[..n] == cs[..n];
    ConcatStep(cs, n);
    ConcatStep(cs', n);
    assert cs[n + 1..] == [] && cs'[n + 1..] == [];
    NoBuffers();
  }

  lemma LastTopped(fifo: seq<Ent>, data: seq<Byte>)
    requires fifo != [] && Sound(fifo[|fifo| - 1])
    ensures var n := |fifo| - 1;
            var last := fifo[n];
            Chunks(fifo[n := last.(data := last.data + data)]) == Chunks(fifo)[n := Chunks(fifo)[n] + data]
  {
    hide Chunks;
    var last := fifo[|fifo| - 1];
    assert (last.data + data)[last.rpos..] == last.data[last.rpos..] + data;
  }

  lemma OneMore(fifo: seq<Ent>, data: seq<Byte>)
    ensures Chunks(fifo + [Ent(data, |data|, 0)]) == Chunks(fifo) + [data]
  {
    hide Chunks;
    assert Unread(Ent(data, |data|, 0)) == data;
  }

  lemma NoBuffers()
    ensures Concat([]) == []
  {
  }

  lemma StandsAtStart(cs: seq<seq<Byte>>, d: seq<Byte>)
    requires d != [] && cs != []
    ensures StandsAt(cs, d, 0, 0)
  {
    assert cs[..0] == [];
  }

  lemma StandsWithin(cs: seq<seq<Byte>>, d: seq<Byte>, p: nat, index: nat)
    requires StandsAt(cs, d, p, index)
    ensures p < |cs|
  {
  }

  /** One buffer further. */
  lemma StandsNext(cs: seq<seq<Byte>>, d: seq<Byte>, p: nat, index: nat)
    requires StandsAt(cs, d, p, index) && p + 1 < |cs|
    requires FindEnd(cs[p], d) == 0 && !GivesUp(cs[p], d) && !Continues(cs[p], cs[p + 1], d)
    ensures StandsAt(cs, d, p + 1, index + |cs[p]|)
  {
    hide FindEnd, Missing, Concat;
    ConcatStep(cs, p);
  }

  /** What the search finds from here is what it finds from the start. */
  lemma StandsFor(cs: seq<seq<Byte>>, d: seq<Byte>, p: nat, index: nat)
    requires StandsAt(cs, d, p, index) && Packed(cs)
    ensures |Concat(cs)| == index + |Concat(cs[p..])|
    ensures |d| <= 2 ==> FindEnd(Concat(cs), d) == After(index, Search(cs[p..], d))
  {
    hide FindEnd, Missing, Concat, Search;
    ConcatStep(cs, p);
    if |d| <= 2 {
      SearchIsFindEnd(cs, d);
      ResumeIsSearch(cs, d, p);
    }
  }

  /** The search passes over a buffer. */
  lemma SearchNext(cs: seq<seq<Byte>>, d: seq<Byte>, p: nat)
    requires d != [] && p + 1 < |cs|
    requires FindEnd(cs[p], d) == 0 && !GivesUp(cs[p], d) && !Continues(cs[p], cs[p + 1], d)
    ensures Search(cs[p..], d) == After(|cs[p]|, Search(cs[p + 1..], d))
  {
    hide FindEnd, GivesUp, Continues, Missing;
    assert cs[p..][1..] == cs[p + 1..];
  }

  /** What the search makes of one buffer. */
  datatype Verdict = Found(n: nat) | AtEnd | GaveUp | Pass

  /** The body of the loop of `find_record`, at the first of the given buffers. */
  method Examine(cs: seq<seq<Byte>>, d: seq<Byte>) returns (v: Verdict)
    requires d != [] && cs != []
    ensures v.Found? ==> v.n > 0 && Search(cs, d) == v.n <= |Concat(cs)|
    ensures v.AtEnd? ==> |cs| == 1 && Search(cs, d) == 0
    ensures v.GaveUp? ==> Search(cs, d) == 0
    ensures v.Pass? ==> |cs| > 1 && FindEnd(cs[0], d) == 0 && !GivesUp(cs[0], d) && !Continues(cs[0], cs[1], d)
  {
    hide FindEnd, Missing;
    var unread := cs[0];
    var found := FindEnd(unread, d);
    if found > 0 {
      return Found(found);
    }
    if |cs| == 1 {
      return AtEnd;
    }
    assert |Concat(cs[1..])| >= |cs[1]|;
    var slen := PartialMatch(unread, d);
    if slen > 0 {
      if |unread| < slen {
        return GaveUp;
      }
      var next := cs[1];
      if slen <= |next| && next[..slen] == d[|d| - slen..] {
        return Found(|unread| + slen);
      }
    }
    v := Pass;
  }

  /** `partial_match` */
  method PartialMatch(c: seq<Byte>, d: seq<Byte>) returns (n: nat)
    requires d != []
    ensures n == Missing(c, d, |d| - 1)
  {
    var slen := |d| - 1;
    while slen > 0
      invariant 0 <= slen < |d| && Missing(c, d, |d| - 1) == Missing(c, d, slen)
    {
      if slen <= |c| && c[|c| - slen..] == d[..slen] {
        return |d| - slen;
      }
      slen := slen - 1;
    }
    n := 0;
  }

  class BufQueue {
    var fifo: seq<Ent>
    var lastIndex: nat
    var lastPosition: nat
    var lastDelim: seq<Byte>

    ghost predicate Valid()
      reads this
    {
      && AllSound()
      && Packed(Chunks(fifo))
      && CacheValid()
    }

    /** A remembered search is still good. */
    ghost predicate CacheValid()
      reads this
    {
      lastDelim != [] ==> StandsAt(Chunks(fifo), lastDelim, lastPosition, lastIndex)
    }

    /** The bytes appended and not yet consumed. */
    ghost function Bytes(): seq<Byte>
      reads this
    {
      Concat(Chunks(fifo))
    }

    /** `ph_bufq_new` */
    constructor ()
      ensures Valid() && Bytes() == [] && lastDelim == [] && fifo == [Ent([], 8192, 0)]
    {
      fifo := [Ent([], 8192, 0)];
      lastIndex, lastPosition, lastDelim := 0, 0, [];
      new;
      ConcatOne([]);
      assert Chunks(fifo) == [[]];
    }

    /** `ph_bufq_append`: how much was added, and whether it failed. */
    method Append(buf: seq<Byte>, memory: bool) returns (ok: bool, added: nat)
      requires Valid()
      modifies this`fifo
      ensures Valid() && added <= |buf| && Bytes() == old(Bytes()) + buf[..added]
      ensures added == if memory || |buf| <= Space(old(fifo)) then |buf| else Space(old(fifo))
      ensures ok <==> added > 0 || buf == []
      ensures buf != [] && memory && Full(old(fifo)) ==> fifo == old(fifo) + [Ent(buf, |buf|, 0)]
      ensures buf != [] && old(fifo) != [] && |Last(old(fifo)).data| + |buf| <= Last(old(fifo)).size ==>
                fifo == ToppedOff(old(fifo), buf)
    {
      added := 0;
      if fifo != [] {
        var last := fifo[|fifo| - 1];
        var avail := if last.size - |last.data| < |buf| then last.size - |last.data| else |buf|;
        if avail > 0 {
          TopOff(buf[..avail]);
          added := avail;
        }
      }
      assert buf[..|buf|] == buf;
      if added == |buf| {
        return true, added;
      }
      if !memory {
        return added > 0, added;
      }
      AddBuffer(buf[added..]);
      assert buf[..added] + buf[added..] == buf && buf[..|buf|] == buf;
      return true, |buf|;
    }

    /** Fill up the last buffer. */
    method TopOff(data: seq<Byte>)
      requires Valid() && data != [] && fifo != []
      requires |fifo[|fifo| - 1].data| + |data| <= fifo[|fifo| - 1].size
      modifies this`fifo
      ensures Valid() && Bytes() == old(Bytes()) + data
      ensures fifo == ToppedOff(old(fifo), data)
    {
      hide StandsAt, Concat, Chunks, Unread;
      var n := |fifo| - 1;
      ghost var cs := Chunks(fifo);
      LastTopped(fifo, data);
      var last := fifo[n];
      fifo := fifo[n := last.(data := last.data + data)];
      LastGrew(cs, Chunks(fifo), data);
      if lastDelim != [] {
        StillStands(cs, Chunks(fifo), lastDelim, lastPosition, lastIndex);
      }
    }

    /** Add a buffer that holds just this data. */
    method AddBuffer(data: seq<Byte>)
      requires Valid() && data != []
      modifies this`fifo
      ensures Valid() && Bytes() == old(Bytes()) + data && fifo == old(fifo) + [Ent(data, |data|, 0)]
    {
      hide StandsAt, Concat, Chunks, Unread;
      ghost var cs := Chunks(fifo);
      OneMore(fifo, data);
      fifo := fifo + [Ent(data, |data|, 0)];
      ConcatJoin(cs, [data]);
      ConcatOne(data);
      if lastDelim != [] {
        assert Grew(cs, cs + [data]);
        StillStands(cs, Chunks(fifo), lastDelim, lastPosition, lastIndex);
      }
    }

    /** `clear_searchstate` */
    method ClearSearch()
      modifies this`lastIndex, this`lastPosition, this`lastDelim
      ensures lastDelim == []
    {
      lastIndex, lastPosition, lastDelim := 0, 0, [];
    }

    /** `set_searchstate` */
    method SetSearch(searched: nat, position: nat, delim: seq<Byte>)
      requires delim != []
      modifies this`lastIndex, this`lastPosition, this`lastDelim
      ensures lastDelim == if |delim| > DELIM_MAX then [] else delim
      ensures lastDelim != [] ==> lastIndex == searched && lastPosition == position
    {
      if |delim| > DELIM_MAX {
        ClearSearch();
        return;
      }
      lastIndex, lastPosition, lastDelim := searched, position, delim;
    }

    /** Where the search ends: resumed where a search for the same delimiter stopped, or else
        from the first buffer. */
    ghost function Sought(delim: seq<Byte>): nat
      reads this
      requires Valid() && delim != []
    {
      if delim == lastDelim && |delim| <= DELIM_MAX
      then After(lastIndex, Search(Chunks(fifo)[lastPosition..], delim))
      else Search(Chunks(fifo), delim)
    }

    /** For short delimiters that is what a search of all the bytes would find. */
    lemma SoughtIsFound(delim: seq<Byte>)
      requires Valid() && 1 <= |delim| <= 2
      ensures Sought(delim) == FindEnd(Bytes(), delim)
    {
      hide FindEnd, Concat, Missing, Search, Chunks;
      if delim == lastDelim {
        StandsFor(Chunks(fifo), delim, lastPosition, lastIndex);
      } else {
        SearchIsFindEnd(Chunks(fifo), delim);
      }
    }

    /** `find_record`, without a record limit. */
    method FindRecord(delim: seq<Byte>) returns (r: nat)
      requires Valid() && delim != []
      modifies this`lastIndex, this`lastPosition, this`lastDelim
      ensures Valid() && r <= |Bytes()| && (r > 0 ==> lastDelim == [])
      ensures r == old(Sought(delim))
      ensures |delim| <= 2 ==> r == FindEnd(Bytes(), delim)
    {
      hide FindEnd, Concat, Missing, StandsAt, Packed, Search, Chunks, Unread, Quiet;
      ghost var cs := Chunks(fifo);
      if |delim| <= 2 {
        SoughtIsFound(delim);
      }
      var i, searched := 0, 0;
      if delim == lastDelim && |delim| <= DELIM_MAX {
        i, searched := lastPosition, lastIndex;
        StandsWithin(cs, delim, i, searched);
      } else {
        ClearSearch();
        assert cs[0..] == cs;
      }
      if fifo == [] {
        ClearSearch();
        NothingToSearch(delim);
        assert cs == [];
        return 0;
      }
      StandsAtStart(cs, delim);
      while true
        invariant StandsAt(cs, delim, i, searched) && i < |fifo| && CacheValid()
        invariant old(Sought(delim)) == After(searched, Search(cs[i..], delim))
        decreases |fifo| - i
      {
        StandsFor(cs, delim, i, searched);
        ChunksFrom(fifo, i);
        var v := Examine(Chunks(fifo[i..]), delim);
        match v {
          case Found(n) =>
            ClearSearch();
            return searched + n;
          case AtEnd =>
            SetSearch(searched, i, delim);
            return 0;
          case GaveUp =>
            return 0;
          case Pass =>
            StandsNext(cs, delim, i, searched);
            SearchNext(cs, delim, i);
            searched := searched + |Unread(fifo[i])|;
            i := i + 1;
        }
      }
    }

    /** `gc_bufq`: drop consumed buffers from the front, but keep a last one with room. */
    method Collect()
      requires AllSound()
      requires ReadInOrder(Chunks(fifo)) && lastDelim == []
      modifies this`fifo
      ensures Valid() && Bytes() == old(Bytes())
    {
      hide Concat, Unread;
      ghost var bytes := Bytes();
      while true
        invariant AllSound()
        invariant ReadInOrder(Chunks(fifo)) && Bytes() == bytes
        decreases |fifo|
      {
        if fifo == [] {
          break;
        }
        var ent := fifo[0];
        FirstUnread(fifo);
        if ent.rpos != |ent.data| {
          break;
        }
        if |fifo| == 1 && |ent.data| < ent.size {
          break;
        }
        fifo := fifo[1..];
      }
    }

    /** `slice_bufq`: the first len bytes, if there are that many. */
    method Slice(len: nat, consume: bool, memory: bool) returns (r: Option<seq<Byte>>)
      requires Valid() && (consume ==> lastDelim == [])
      modifies this`fifo
      ensures Valid()
      ensures r.Some? <==> 0 < len <= |old(Bytes())| && (memory || Whole(old(fifo), len))
      ensures r.Some? ==> r.value == old(Bytes())[..len]
      ensures Bytes() == if r.Some? && consume then old(Bytes())[len..] else old(Bytes())
    {
      var available := Available();
      if len == 0 || len > available {
        return None;
      }
      if |fifo| == 1 {
        var ent := fifo[0];
        ConcatOne(Unread(ent));
        assert Chunks(fifo) == [Unread(ent)];
        if !memory && !(ent.rpos == 0 && len == ent.size) {
          return None;
        }
        r := Some(ent.data[ent.rpos..ent.rpos + len]);
        assert r.value == Unread(ent)[..len];
        if consume {
          fifo := [ent.(rpos := ent.rpos + len)];
          ConcatOne(Unread(fifo[0]));
          assert Chunks(fifo) == [Unread(ent)[len..]];
          Collect();
        }
        return;
      }
      if !memory {
        return None;
      }
      var out := CopyOut(len, consume);
      r := Some(out);
      if consume {
        Collect();
      }
    }

    /** `bufq_len` */
    method Available() returns (n: nat)
      requires Valid()
      ensures n == |Bytes()|
    {
      n := 0;
      ghost var cs := Chunks(fifo);
      var i := 0;
      assert cs[..0] == [];
      while i < |fifo|
        invariant 0 <= i <= |fifo| && n == |Concat(cs[..i])|
      {
        ConcatStep(cs, i);
        n := n + (|fifo[i].data| - fifo[i].rpos);
        i := i + 1;
      }
      assert cs[..|cs|] == cs;
    }

    /** Gather bytes from several buffers, marking them read if they are consumed. */
    method CopyOut(len: nat, consume: bool) returns (out: seq<Byte>)
      requires Valid() && 0 < len <= |Bytes()|
      modifies this`fifo
      ensures out == old(Bytes())[..len]
      ensures !consume ==> fifo == old(fifo)
      ensures consume ==> Bytes() == old(Bytes())[len..] && ReadInOrder(Chunks(fifo))
      ensures AllSound()
    {
      hide Concat, Packed, Chunks, Unread;
      ghost var cs := Chunks(fifo);
      out := [];
      var i, next := 0, 0;
      NoBuffers();
      assert cs[..0] == [] && cs[..|cs|] == cs;
      while true
        invariant AllSound() && 0 <= i <= |fifo| == |cs| && next == |out| < len && out == Concat(cs[..i])
        invariant forall j :: i <= j < |cs| ==> Chunks(fifo)[j] == cs[j]
        invariant forall j :: 0 <= j < i && consume ==> Chunks(fifo)[j] == []
        invariant !consume ==> fifo == old(fifo)
        decreases |fifo| - i
      {
        assert i != |cs|;
        ConcatStep(cs, i);
        var piece := TakeFrom(i, len - next, consume);
        out := out + piece;
        next := next + |piece|;
        if next == len {
          if consume {
            TakenOut(cs, Chunks(fifo), i, |piece|);
          } else {
            TakenPrefix(cs, i, |piece|);
          }
          return;
        }
        assert cs[i][..|piece|] == cs[i] && cs[i][|piece|..] == [];
        i := i + 1;
      }
    }

    /** Up to `want` bytes of buffer i. */
    method TakeFrom(i: nat, want: nat, consume: bool) returns (piece: seq<Byte>)
      requires AllSound() && i < |fifo|
      modifies this`fifo
      ensures AllSound() && |fifo| == |old(fifo)|
      ensures var c := Chunks(old(fifo))[i];
              && |piece| == (if |c| < want then |c| else want)
              && piece == c[..|piece|]
              && Chunks(fifo) == if consume then Chunks(old(fifo))[i := c[|piece|..]] else Chunks(old(fifo))
      ensures !consume ==> fifo == old(fifo)
    {
      hide Chunks;
      var ent := fifo[i];
      var unread := |ent.data| - ent.rpos;
      var copyLen := if unread < want then unread else want;
      piece := ent.data[ent.rpos..ent.rpos + copyLen];
      if consume {
        fifo := fifo[i := ent.(rpos := ent.rpos + copyLen)];
        assert Unread(fifo[i]) == Unread(ent)[copyLen..];
      }
    }

    /** `ph_bufq_consume_record`: the bytes up to and including the first delimiter. */
    method ConsumeRecord(delim: seq<Byte>, memory: bool) returns (r: Option<seq<Byte>>)
      requires Valid() && delim != []
      modifies this
      ensures Valid() && (if r.Some? then r.value else []) + Bytes() == old(Bytes())
      ensures r.Some? <==> old(Sought(delim)) > 0 && (memory || Whole(old(fifo), old(Sought(delim))))
      ensures r.Some? ==> |r.value| == old(Sought(delim))
      ensures |delim| <= 2 ==> old(Sought(delim)) == FindEnd(old(Bytes()), delim)
    {
      hide FindEnd, Concat;
      var len := FindRecord(delim);
      r := None;
      if len > 0 {
        r := Slice(len, true, memory);
      }
    }

    /** `ph_bufq_peek_record` */
    method PeekRecord(delim: seq<Byte>, memory: bool) returns (r: Option<seq<Byte>>)
      requires Valid() && delim != []
      modifies this
      ensures Valid() && Bytes() == old(Bytes()) && (r.Some? ==> r.value <= Bytes())
      ensures r.Some? <==> old(Sought(delim)) > 0 && (memory || Whole(old(fifo), old(Sought(delim))))
      ensures r.Some? ==> |r.value| == old(Sought(delim))
      ensures |delim| <= 2 ==> old(Sought(delim)) == FindEnd(Bytes(), delim)
    {
      hide FindEnd, Concat;
      var len := FindRecord(delim);
      r := None;
      if len > 0 {
        r := Slice(len, false, memory);
      }
    }

    ghost predicate AllSound()
      reads this
    {
      forall i :: 0 <= i < |fifo| ==> Sound(fifo[i])
    }
  }

  /** The first i buffers and k bytes of the next are the beginning of the bytes. */
  lemma TakenPrefix(cs: seq<seq<Byte>>, i: nat, k: nat)
    requires i < |cs| && k <= |cs[i]|
    ensures var n := |Concat(cs[..i])| + k;
            && n <= |Concat(cs)|
            && Concat(cs)[..n] == Concat(cs[..i]) + cs[i][..k]
            && Concat(cs)[n..] == cs[i][k..] + Concat(cs[i + 1..])
  {
    hide Concat;
    ConcatStep(cs, i);
    var a, b := Concat(cs[..i]), Concat(cs[i + 1..]);
    assert Concat(cs) == a + (cs[i] + b);
    assert cs[i] == cs[i][..k] + cs[i][k..];
    assert (a + (cs[i] + b))[..|a| + k] == a + cs[i][..k];
    assert (a + (cs[i] + b))[|a| + k..] == cs[i][k..] + b;
  }

  lemma {:induction false} EmptiesVanish(cs: seq<seq<Byte>>, i: nat)
    requires i <= |cs| && forall j :: 0 <= j < i ==> cs[j] == []
    ensures Concat(cs) == Concat(cs[i..])
    decreases i
  {
    if i == 0 {
      assert cs[0..] == cs;
    } else {
      EmptiesVanish(cs[1..], i - 1);
      assert cs[1..][i - 1..] == cs[i..];
    }
  }

  /** What is left when the first i buffers and k bytes of the next have been read. */
  lemma TakenOut(cs: seq<seq<Byte>>, cs': seq<seq<Byte>>, i: nat, k: nat)
    requires Packed(cs) && |cs'| == |cs| && i < |cs| && k <= |cs[i]|
    requires forall j :: 0 <= j < i ==> cs'[j] == []
    requires cs'[i] == cs[i][k..] && forall j :: i < j < |cs| ==> cs'[j] == cs[j]
    ensures var n := |Concat(cs[..i])| + k;
            && n <= |Concat(cs)|
            && Concat(cs)[..n] == Concat(cs[..i]) + cs[i][..k]
            && Concat(cs') == Concat(cs)[n..]
    ensures ReadInOrder(cs')
  {
    hide Concat;
    TakenPrefix(cs, i, k);
    EmptiesVanish(cs', i);
    ConcatStep(cs', i);
    assert cs'[i + 1..] == cs[i + 1..];
  }

  lemma NothingToSearch(d: seq<Byte>)
    requires d != []
    ensures Search([], d) == 0
  {
  }

  lemma ChunksFrom(fifo: seq<Ent>, i: nat)
    requires i <= |fifo|
    ensures Chunks(fifo[i..]) == Chunks(fifo)[i..]
  {
  }

  /** Buffers are consumed front to back. */
  ghost predicate ReadInOrder(cs: seq<seq<Byte>>) {
    forall i, j :: 0 <= i < j < |cs| && cs[i] != [] ==> cs[j] != []
  }

  lemma FirstUnread(fifo: seq<Ent>)
    requires fifo != [] && Sound(fifo[0])
    ensures Chunks(fifo)[0] == [] <==> fifo[0].rpos == |fifo[0].data|
    ensures Chunks(fifo[1..]) == Chunks(fifo)[1..]
    ensures Concat(Chunks(fifo)) == Chunks(fifo)[0] + Concat(Chunks(fifo[1..]))
  {
  }

  /** Read all the records there are. */
  method Drain(q: BufQueue, delim: seq<Byte>) returns (records: seq<seq<Byte>>)
    requires q.Valid() && 1 <= |delim| <= 2
    modifies q
    ensures q.Valid() && records == Records(old(q.Bytes()), delim) && q.Bytes() == Remainder(old(q.Bytes()), delim)
  {
    hide FindEnd, Concat, Records, Remainder;
    ghost var bytes := q.Bytes();
    records := [];
    assert [] + Records(bytes, delim) == Records(bytes, delim);
    while true
      invariant q.Valid() && Remainder(q.Bytes(), delim) == Remainder(bytes, delim)
      invariant records + Records(q.Bytes(), delim) == Records(bytes, delim)
      decreases |q.Bytes()|
    {
      ghost var s := q.Bytes();
      RecordsUnfold(s, delim);
      var r := q.ConsumeRecord(delim, true);
      if r.None? {
        assert [] + s == s && records + [] == records;
        return;
      }
      assert s[..|r.value|] == r.value && s[|r.value|..] == q.Bytes();
      assert records + ([r.value] + Records(q.Bytes(), delim)) == records + [r.value] + Records(q.Bytes(), delim);
      records := records + [r.value];
    }
  }

  /** However the bytes are cut up on arrival, and with the search resumed after each piece,
      the records read are those of the whole, and records and remainder are all the bytes. */
  method Frame(pieces: seq<seq<Byte>>, delim: seq<Byte>) returns (q: BufQueue, records: seq<seq<Byte>>)
    requires 1 <= |delim| <= 2
    ensures fresh(q) && q.Valid()
    ensures records == Records(Concat(pieces), delim) && q.Bytes() == Remainder(Concat(pieces), delim)
    ensures Concat(records) + q.Bytes() == Concat(pieces)
  {
    hide FindEnd, Concat, Records, Remainder;
    q := new BufQueue();
    records := [];
    var i := 0;
    NoBuffers();
    NoRecords(delim);
    assert pieces[..0] == [];
    while i < |pieces|
      invariant 0 <= i <= |pieces| && fresh(q) && q.Valid()
      invariant records == Records(Concat(pieces[..i]), delim) && q.Bytes() == Remainder(Concat(pieces[..i]), delim)
    {
      ConcatStep(pieces, i);
      RecordsContinue(Concat(pieces[..i]), pieces[i], delim);
      var ok, added := q.Append(pieces[i], true);
      assert pieces[i][..|pieces[i]|] == pieces[i];
      var more := Drain(q, delim);
      records := records + more;
      i := i + 1;
    }
    assert pieces[..|pieces|] == pieces;
    RecordsConserve(Concat(pieces), delim);
  }

  lemma NoRecords(d: seq<Byte>)
    requires d != []
    ensures Records([], d) == [] && Remainder([], d) == []
  {
  }

  // ----- whole histories

  datatype Op =
    | Append(data: seq<Byte>, memory: bool)
    | Consume(delim: seq<Byte>, memory: bool)
    | Peek(delim: seq<Byte>, memory: bool)

  datatype Reply = Added(n: nat) | Got(record: Option<seq<Byte>>)

  predicate ShortDelimiter(op: Op) {
    op.Append? || 1 <= |op.delim| <= 2
  }

  /** What an operation may reply when s is unread: a read gives the bytes up to the first
      delimiter in s, exactly if there is one and memory is granted. */
  predicate Replies(s: seq<Byte>, op: Op, r: Reply) {
    match op
    case Append(data, memory) => r.Added? && r.n <= |data| && (memory ==> r.n == |data|)
    case _ =>
      && r.Got?
      && (r.record.Some? ==> FindEnd(s, op.delim) > 0 && r.record.value == s[..FindEnd(s, op.delim)])
      && (r.record.None? ==> FindEnd(s, op.delim) == 0 || !op.memory)
  }

  /** What is unread afterwards. */
  function Effect(s: seq<Byte>, op: Op, r: Reply): seq<Byte>
    requires Replies(s, op, r)
  {
    match op
    case Append(data, _) => s + data[..r.n]
    case Consume(_, _) => if r.record.Some? then s[|r.record.value|..] else s
    case Peek(_, _) => s
  }

  /** Every reply is allowed by what the operations before it left unread, and `left` is what
      all of them leave. */
  ghost predicate Explained(ops: seq<Op>, rs: seq<Reply>, left: seq<Byte>) {
    |rs| == |ops| &&
    if ops == [] then left == []
    else
      var n := |ops| - 1;
      exists s :: Explained(ops[..n], rs[..n], s) && Replies(s, ops[n], rs[n]) && left == Effect(s, ops[n], rs[n])
  }

  /** The bytes an operation put in, and those it took out as a record. */
  function PutIn(op: Op, r: Reply): seq<Byte> {
    if op.Append? && r.Added? && r.n <= |op.data| then op.data[..r.n] else []
  }

  function TookOut(op: Op, r: Reply): seq<Byte> {
    if op.Consume? && r.Got? && r.record.Some? then r.record.value else []
  }

  function Appended(ops: seq<Op>, rs: seq<Reply>): seq<Byte>
    requires |rs| == |ops|
  {
    if ops == [] then []
    else Appended(ops[..|ops| - 1], rs[..|ops| - 1]) + PutIn(ops[|ops| - 1], rs[|ops| - 1])
  }

  function Consumed(ops: seq<Op>, rs: seq<Reply>): seq<Byte>
    requires |rs| == |ops|
  {
    if ops == [] then []
    else Consumed(ops[..|ops| - 1], rs[..|ops| - 1]) + TookOut(ops[|ops| - 1], rs[|ops| - 1])
  }

  lemma EffectConserves(c: seq<Byte>, s: seq<Byte>, op: Op, r: Reply)
    requires Replies(s, op, r)
    ensures c + TookOut(op, r) + Effect(s, op, r) == c + s + PutIn(op, r)
  {
    hide FindEnd;
    if op.Append? {
      assert c + [] == c;
      assert c + (s + op.data[..r.n]) == c + s + op.data[..r.n];
    } else {
      var v := TookOut(op, r);
      assert v + Effect(s, op, r) == s;
      assert c + v + Effect(s, op, r) == c + (v + Effect(s, op, r));
    }
  }

  /** In every history the records consumed and what is left are the bytes appended, in order. */
  lemma {:induction false} HistoryConserves(ops: seq<Op>, rs: seq<Reply>, left: seq<Byte>)
    requires |rs| == |ops| && Explained(ops, rs, left)
    ensures Consumed(ops, rs) + left == Appended(ops, rs)
  {
    hide Replies, Effect, PutIn, TookOut;
    if ops != [] {
      var n := |ops| - 1;
      var s :| Explained(ops[..n], rs[..n], s) && Replies(s, ops[n], rs[n]) && left == Effect(s, ops[n], rs[n]);
      HistoryConserves(ops[..n], rs[..n], s);
      EffectConserves(Consumed(ops[..n], rs[..n]), s, ops[n], rs[n]);
    }
  }

  lemma ExplainedMore(ops: seq<Op>, rs: seq<Reply>, s: seq<Byte>, op: Op, r: Reply)
    requires Explained(ops, rs, s) && Replies(s, op, r)
    ensures Explained(ops + [op], rs + [r], Effect(s, op, r))
  {
    hide Replies, Effect;
    assert (ops + [op])[..|ops|] == ops && (rs + [r])[..|rs|] == rs;
  }

  method Perform(q: BufQueue, op: Op) returns (r: Reply)
    requires q.Valid() && ShortDelimiter(op)
    modifies q
    ensures q.Valid() && Replies(old(q.Bytes()), op, r) && q.Bytes() == Effect(old(q.Bytes()), op, r)
  {
    hide FindEnd, Concat;
    ghost var s := q.Bytes();
    match op {
      case Append(data, memory) =>
        var ok, n := q.Append(data, memory);
        r := Added(n);
      case Consume(delim, memory) =>
        var record := q.ConsumeRecord(delim, memory);
        r := Got(record);
        TakenOff(s, record, q.Bytes());
      case Peek(delim, memory) =>
        var record := q.PeekRecord(delim, memory);
        r := Got(record);
    }
  }

  lemma TakenOff(s: seq<Byte>, record: Option<seq<Byte>>, rest: seq<Byte>)
    requires (if record.Some? then record.value else []) + rest == s
    ensures record.Some? ==> |record.value| <= |s| && s[..|record.value|] == record.value && s[|record.value|..] == rest
    ensures record.None? ==> rest == s
  {
  }

  /** Any sequence of appends, record reads and peeks, with delimiters of one or two bytes that
      may change from call to call and with allocation failing at any time: each read answers
      for the unread bytes as a whole, however they arrived and wherever earlier searches
      stopped, and nothing is lost or reordered. */
  method Replay(ops: seq<Op>) returns (q: BufQueue, rs: seq<Reply>)
    requires forall i :: 0 <= i < |ops| ==> ShortDelimiter(ops[i])
    ensures fresh(q) && q.Valid() && |rs| == |ops| && Explained(ops, rs, q.Bytes())
    ensures Consumed(ops, rs) + q.Bytes() == Appended(ops, rs)
  {
    hide FindEnd, Concat, Replies, Effect, Explained, Consumed, Appended;
    q := new BufQueue();
    rs := [];
    var i := 0;
    NothingYet(ops[..0]);
    while i < |ops|
      invariant 0 <= i <= |ops| && fresh(q) && q.Valid() && Explained(ops[..i], rs, q.Bytes())
    {
      ghost var s := q.Bytes();
      var r := Perform(q, ops[i]);
      ExplainedMore(ops[..i], rs, s, ops[i], r);
      assert ops[..i] + [ops[i]] == ops[..i + 1];
      rs := rs + [r];
      i := i + 1;
    }
    assert ops[..|ops|] == ops;
    ExplainedLength(ops, rs, q.Bytes());
    HistoryConserves(ops, rs, q.Bytes());
  }

  lemma NothingYet(ops: seq<Op>)
    requires ops == []
    ensures Explained(ops, [], [])
  {
  }

  lemma ExplainedLength(ops: seq<Op>, rs: seq<Reply>, left: seq<Byte>)
    requires Explained(ops, rs, left)
    ensures |rs| == |ops|
  {
  }

  /** Appends alone can hide a delimiter of three or more bytes: it is in the queue, but the
      search for it fails. */
  method SplitDelimiterLost(filler: seq<Byte>, delim: seq<Byte>) returns (q: BufQueue, r: nat)
    requires |delim| >= 3 && |filler| == 8192 && delim[0] !in filler
    ensures fresh(q) && q.Valid() && q.Bytes() == filler + delim && r == 0
  {
    hide FindEnd, Concat, Search, Missing, Chunks, Unread, StandsAt, Packed;
    q := new BufQueue();
    var ok, n := q.Append(filler, true);
    assert q.fifo == [Ent(filler, 8192, 0)] by { assert [] + filler == filler && ToppedOff([Ent([], 8192, 0)], filler) == [Ent(filler, 8192, 0)]; }
    ok, n := q.Append(delim[..1], true);
    ok, n := q.Append(delim[1..], true);
    assert filler + delim[..1] + delim[1..] == filler + delim;
    r := q.FindRecord(delim);
    ThreeChunks(filler, delim[..1], delim[1..]);
    SplitMissed(filler, delim);
  }

  lemma ThreeChunks(a: seq<Byte>, b: seq<Byte>, c: seq<Byte>)
    ensures Chunks([Ent(a, |a|, 0)] + [Ent(b, |b|, 0)] + [Ent(c, |c|, 0)]) == [a, b, c]
  {
    hide Chunks;
    assert a[0..] == a && b[0..] == b && c[0..] == c;
  }

  lemma SplitMissed(filler: seq<Byte>, d: seq<Byte>)
    requires |d| >= 3 && d[0] !in filler
    ensures Search([filler, d[..1], d[1..]], d) == 0
  {
    hide FindEnd, Missing;
    var cs := [filler, d[..1], d[1..]];
    assert cs[1..] == [d[..1], d[1..]];
    LongDelimiterMissed(d);
    NoStart(filler, d);
    NoMissing(filler, d, |d| - 1);
  }

  lemma {:induction false} NoStart(s: seq<Byte>, d: seq<Byte>)
    requires d != [] && d[0] !in s
    ensures FindEnd(s, d) == 0
  {
    if |s| >= |d| {
      assert s[..|d|][0] == s[0];
      NoStart(s[1..], d);
    }
  }

  lemma {:induction false} NoMissing(s: seq<Byte>, d: seq<Byte>, k: nat)
    requires k < |d| && d[0] !in s
    ensures Missing(s, d, k) == 0
  {
    if k > 0 {
      if k <= |s| {
        assert s[|s| - k..][0] == s[|s| - k];
      }
      NoMissing(s, d, k - 1);
    }
  }
}

/** Buffered streams over a sink or source that moves as many bytes at a time as it likes. */
module Streams {
  import Utf8

  type Byte = Utf8.Byte

  /** Store data into a at offset off. */
  method CopyIn(a: array<Byte>, off: nat, data: seq<Byte>)
    requires off + |data| <= a.Length
    modifies a
    ensures a[off..off + |data|] == data
    ensures forall i :: 0 <= i < a.Length && !(off <= i < off + |data|) ==> a[i] == old(a[i])
  {
    var i := 0;
    while i < |data|
      invariant 0 <= i <= |data|
      invariant forall j :: 0 <= j < i ==> a[off + j] == data[j]
      invariant forall k :: 0 <= k < a.Length && !(off <= k < off + i) ==> a[k] == old(a[k])
    {
      a[off + i] := data[i];
      i := i + 1;
    }
  }

  function Least(a: nat, b: nat): nat {
    if a < b then a else b
  }

  /** How many bytes the other end moves before it first fails. */
  function Willing(schedule: seq<nat>): nat {
    if schedule == [] || schedule[0] == 0 then 0 else schedule[0] + Willing(schedule[1..])
  }

  // ----- writing

  /** The other end of an output stream. Call by call, the schedule says how many bytes it is
      willing to take; 0 is a failure, and so is the end of the schedule. */
  class Sink {
    var taken: seq<Byte>
    var schedule: seq<nat>

    constructor (s: seq<nat>)
      ensures taken == [] && schedule == s
    {
      taken := [];
      schedule := s;
    }

    /** writev of two vectors. */
    method Writev(first: seq<Byte>, second: seq<Byte>) returns (ok: bool, n: nat)
      modifies this
      ensures n <= |first| + |second| && taken == old(taken) + (first + second)[..n]
      ensures ok && first + second != [] ==> n > 0
      ensures !ok ==> n == 0
      ensures ok <==> first + second == [] || Willing(old(schedule)) > 0
      ensures ok && n < |first| + |second| ==> Willing(old(schedule)) == n + Willing(schedule)
      ensures ok && n == |first| + |second| ==> n <= Willing(old(schedule))
    {
      n := 0;
      if first + second == [] {
        return true, 0;
      }
      if schedule == [] {
        return false, 0;
      }
      var most := schedule[0];
      schedule := schedule[1..];
      if most == 0 {
        return false, 0;
      }
      n := if most < |first + second| then most else |first + second|;
      taken := taken + (first + second)[..n];
      ok := true;
    }
  }

  class OutStream {
    const buf: array<Byte>
    const sink: Sink
    var wbase: nat
    var wpos: nat
    /** wend is set: the buffer is in use for writing. */
    var writing: bool

    ghost predicate Valid()
      reads this
    {
      writing ==> wbase <= wpos <= buf.Length
    }

    ghost function Buffered(): seq<Byte>
      reads this, buf
      requires Valid()
    {
      if writing then buf[wbase..wpos] else []
    }

    /** Everything written, sent or not. */
    ghost function Written(): seq<Byte>
      reads this, buf, sink
      requires Valid()
    {
      sink.taken + Buffered()
    }

    constructor (size: nat, s: Sink)
      ensures Valid() && Buffered() == [] && sink == s && fresh(buf) && buf.Length == size
    {
      buf := new Byte[size](i => 0);
      sink := s;
      wbase, wpos, writing := 0, 0, false;
    }

    /** Room for more in the buffer. */
    function Room(): int
      reads this
    {
      buf.Length - if writing then wpos else 0
    }

    /** `do_write`. When it succeeds, the sink and the buffer have gained exactly the first n
        bytes; when it fails, none of them, and what was in the buffer is sent in part or lost.
        Less than the room there is goes to the buffer; otherwise the sink is given all that is
        buffered and all the data, and takes as much as it is willing to. */
    method DoWrite(data: seq<Byte>) returns (ok: bool, n: nat)
      requires Valid()
      modifies this, buf, sink
      ensures Valid() && n <= |data|
      ensures ok ==> Written() == old(Written()) + data[..n]
      ensures ok && data != [] ==> n > 0
      ensures 0 < |data| < old(Room()) ==>
                ok && n == |data| && sink.taken == old(sink.taken) && Buffered() == old(Buffered()) + data
      ensures !(0 < |data| < old(Room())) ==>
                Buffered() == [] && Sent(old(Buffered()), data, old(sink.schedule), old(sink.taken), sink.taken, ok, n)
      ensures data == [] ==> (writing <==> ok)
    {
      if !writing {
        wpos, wbase, writing := 0, 0, true;
      }
      if data != [] && |data| < buf.Length - wpos {
        Store(data);
        Regroup(sink.taken, old(Buffered()), data);
        assert data[..|data|] == data;
        return true, |data|;
      }
      ok, n := Send(buf[wbase..wpos], data);
    }

    /** It fits in the buffer. */
    method Store(data: seq<Byte>)
      requires Valid() && writing && wpos + |data| <= buf.Length
      modifies this`wpos, buf
      ensures Valid() && Buffered() == old(Buffered()) + data
    {
      ghost var before := buf[wbase..wpos];
      CopyIn(buf, wpos, data);
      wpos := wpos + |data|;
      assert buf[wbase..wpos] == before + data;
    }

    /** Send what is buffered, then the data, over as many calls as it takes. */
    method Send(buffered: seq<Byte>, data: seq<Byte>) returns (ok: bool, n: nat)
      requires Valid() && writing && buffered == buf[wbase..wpos]
      modifies this, sink
      ensures Valid() && n <= |data| && Buffered() == []
      ensures Sent(buffered, data, old(sink.schedule), old(sink.taken), sink.taken, ok, n)
      ensures data == [] ==> (writing <==> ok)
    {
      hide Sending;
      ghost var base := sink.taken;
      var first, rest := buffered, data;
      var both := true;
      ghost var sent := 0;
      SendingStart(base, buffered, data);
      while true
        invariant Valid() && writing && sent <= |buffered| + |data|
        invariant sink.taken == base + (buffered + data)[..sent] && Sending(buffered, data, sent, first, both)
        invariant both ==> rest == data && wpos - wbase == |first|
        invariant !both ==> wpos == wbase
        invariant sent < |buffered| + |data| || sent == 0
        invariant Willing(old(sink.schedule)) == sent + Willing(sink.schedule)
        decreases |buffered| + |data| - sent
      {
        SendingNext(base, buffered, data, sent, first, both);
        var done, x := sink.Writev(first, if both then rest else []);
        if !done {
          wpos, wbase, writing := 0, 0, false;
          if both {
            return false, 0;
          }
          return true, |data| - |first|;
        }
        SendingMore(base, buffered, data, sent, first, both, x);
        sent := sent + x;
        if x == |first| + (if both then |rest| else 0) {
          wpos, wbase := 0, 0;
          return true, |data|;
        }
        if x > |first| {
          wpos, wbase := 0, 0;
          first := rest[x - |first|..];
          both := false;
        } else {
          if both {
            wbase := wbase + x;
          }
          first := first[x..];
        }
      }
    }

    /** `ph_stm_flush` */
    method Flush() returns (ok: bool)
      requires Valid()
      modifies this, buf, sink
      ensures Valid() && Buffered() == []
      ensures ok <==> |old(Buffered())| <= Willing(old(sink.schedule))
      ensures sink.taken ==
              old(sink.taken) + old(Buffered())[..Least(|old(Buffered())|, Willing(old(sink.schedule)))]
    {
      ghost var all := Buffered();
      assert all + [] == all;
      if writing && wpos > wbase {
        var done, n := DoWrite([]);
        if !writing {
          return false;
        }
      }
      ok := true;
    }

    /** `ph_stm_write` */
    method Write(data: seq<Byte>) returns (ok: bool, n: nat)
      requires Valid()
      modifies this, buf, sink
      ensures Valid() && n <= |data|
      ensures ok ==> Written() == old(Written()) + data[..n]
      ensures ok && data != [] ==> n > 0
      ensures |data| == 0 || |data| < old(Room()) ==>
                ok && n == |data| && sink.taken == old(sink.taken) && Buffered() == old(Buffered()) + data
      ensures |data| > 0 && |data| >= old(Room()) ==>
                Buffered() == [] && Sent(old(Buffered()), data, old(sink.schedule), old(sink.taken), sink.taken, ok, n)
    {
      if data == [] {
        assert Written() + [] == Written() && Buffered() + [] == Buffered();
        return true, 0;
      }
      ok, n := DoWrite(data);
    }
  }

  /** What a write through to the sink does: it takes the buffered bytes and then the data, as
      far as the schedule lets it; the call fails exactly if it stops short without taking any
      of the data, and n is how much of the data it took. */
  ghost predicate Sent(
    buffered: seq<Byte>, data: seq<Byte>, schedule: seq<nat>, before: seq<Byte>, after: seq<Byte>, ok: bool, n: nat)
  {
    var all := buffered + data;
    var most := Least(|all|, Willing(schedule));
    && after == before + all[..most]
    && (ok <==> most == |all| || most > |buffered|)
    && n == if ok then most - |buffered| else 0
  }

  /** After `sent` bytes of both vectors, `first` is what is left of the one being sent. */
  ghost predicate Sending(buffered: seq<Byte>, data: seq<Byte>, sent: nat, first: seq<Byte>, both: bool) {
    if both then sent <= |buffered| && first == buffered[sent..]
    else |buffered| < sent < |buffered| + |data| && first == data[sent - |buffered|..]
  }

  lemma SendingStart(base: seq<Byte>, buffered: seq<Byte>, data: seq<Byte>)
    ensures Sending(buffered, data, 0, buffered, true) && base + (buffered + data)[..0] == base
  {
    assert buffered[0..] == buffered;
  }

  /** What is sent next, and what a failure leaves sent. */
  lemma SendingNext(base: seq<Byte>, buffered: seq<Byte>, data: seq<Byte>, sent: nat, first: seq<Byte>, both: bool)
    requires Sending(buffered, data, sent, first, both) && sent <= |buffered| + |data|
    ensures first + (if both then data else []) == (buffered + data)[sent..]
    ensures both ==> base <= base + (buffered + data)[..sent] <= base + buffered
    ensures !both ==> |first| < |data| && first != []
    ensures !both ==> base + (buffered + data)[..sent] == base + buffered + data[..|data| - |first|]
  {
    if both {
      assert (buffered + data)[..sent] == buffered[..sent];
    } else {
      assert (buffered + data)[..sent] == buffered + data[..sent - |buffered|];
    }
  }

  lemma SendingMore(
    base: seq<Byte>, buffered: seq<Byte>, data: seq<Byte>, sent: nat, first: seq<Byte>, both: bool, x: nat)
    requires Sending(buffered, data, sent, first, both) && sent + x <= |buffered| + |data|
    requires first + (if both then data else []) == (buffered + data)[sent..]
    ensures base + (buffered + data)[..sent] + (first + (if both then data else []))[..x] ==
            base + (buffered + data)[..sent + x]
    ensures |first| + (if both then |data| else 0) == |buffered| + |data| - sent
    ensures sent + x == |buffered| + |data| ==> base + (buffered + data)[..sent + x] == base + buffered + data[..|data|]
    ensures both && |first| < x < |first| + |data| ==> Sending(buffered, data, sent + x, data[x - |first|..], false)
    ensures x <= |first| && sent + x < |buffered| + |data| ==> Sending(buffered, data, sent + x, first[x..], both)
    ensures both && x <= |first| ==> Sending(buffered, data, sent + x, first[x..], both)
  {
    var all := buffered + data;
    assert all[..sent] + all[sent..][..x] == all[..sent + x];
    if sent + x == |all| {
      assert all[..sent + x] == all && data[..|data|] == data;
    }
    if x <= |first| {
      if both {
        assert buffered[sent..][x..] == buffered[sent + x..];
      } else {
        assert data[sent - |buffered|..][x..] == data[sent + x - |buffered|..];
      }
    }
  }

  lemma Regroup(a: seq<Byte>, b: seq<Byte>, c: seq<Byte>)
    ensures a + (b + c) == a + b + c
  {
  }

  // ----- reading

  /** How many bytes a source will deliver before it ends or first fails. */
  function Yield(left: nat, schedule: seq<nat>): nat {
    Least(left, Willing(schedule))
  }

  /** The other end of an input stream; the schedule says how many bytes it delivers per call,
      0 being a failure. */
  class Source {
    var left: seq<Byte>
    var schedule: seq<nat>

    constructor (bytes: seq<Byte>, s: seq<nat>)
      ensures left == bytes && schedule == s
    {
      left := bytes;
      schedule := s;
    }

    /** readv of up to `most` bytes. */
    method Readv(most: nat) returns (ok: bool, got: seq<Byte>)
      modifies this
      ensures got + left == old(left) && |got| <= most
      ensures ok <==> old(schedule) != [] && old(schedule)[0] > 0
      ensures |got| == if ok then Least(old(schedule)[0], Least(most, |old(left)|)) else 0
      ensures schedule == if ok then old(schedule)[1..] else old(schedule)
      ensures got == [] && most > 0 ==> Yield(|old(left)|, old(schedule)) == 0
      ensures 0 < |got| < most ==> Yield(|old(left)|, old(schedule)) == |got| + Yield(|left|, schedule)
      ensures |got| == most ==> most <= Yield(|old(left)|, old(schedule)) || most == 0
    {
      got := [];
      if schedule == [] || schedule[0] == 0 {
        return false, [];
      }
      var n := schedule[0];
      schedule := schedule[1..];
      n := if n < most then n else most;
      n := if n < |left| then n else |left|;
      got, left := left[..n], left[n..];
      ok := true;
    }
  }

  class InStream {
    const buf: array<Byte>
    const source: Source
    var rpos: nat
    var rend: nat

    ghost predicate Valid()
      reads this
    {
      rpos <= rend <= buf.Length
    }

    /** Read from the source and not yet delivered. */
    ghost function Ahead(): seq<Byte>
      reads this, buf
      requires Valid()
    {
      buf[rpos..rend]
    }

    /** Everything still to be delivered. */
    ghost function ToCome(): seq<Byte>
      reads this, buf, source
      requires Valid()
    {
      Ahead() + source.left
    }

    constructor (size: nat, s: Source)
      ensures Valid() && Ahead() == [] && source == s && fresh(buf) && buf.Length == size
    {
      buf := new Byte[size](i => 0);
      source := s;
      rpos, rend := 0, 0;
    }

    /** `ph_stm_read`, in read mode: delivers the next n bytes.  These are as many as were asked
        for, unless what was read ahead and what the source will deliver before it ends or first
        fails are fewer. */
    method Read(dest: array<Byte>, count: nat) returns (ok: bool, n: nat)
      requires Valid() && count <= dest.Length && dest != buf
      modifies this, buf, source, dest
      ensures Valid() && n <= count
      ensures dest[..n] + ToCome() == old(ToCome())
      ensures forall i :: n <= i < dest.Length && i >= count ==> dest[i] == old(dest[i])
      ensures ok <==> n > 0 || count == 0
      ensures n == Least(count, |old(Ahead())| + Yield(|old(source.left)|, old(source.schedule)))
    {
      hide Yield, Willing;
      n := 0;
      if count == 0 {
        assert dest[..0] + ToCome() == ToCome();
        return true, 0;
      }
      ghost var all := ToCome();
      ghost var most := |Ahead()| + Yield(|source.left|, source.schedule);
      n := TakeAhead(dest, count);
      while n < count
        invariant Valid() && n <= count && dest[..n] + ToCome() == all && (n < count ==> Ahead() == [])
        invariant forall i :: count <= i < dest.Length ==> dest[i] == old(dest[i])
        invariant n < count ==> n + Yield(|source.left|, source.schedule) == most
        invariant n == count ==> count <= most
        decreases count - n
      {
        var got := Fill(dest, n, count, all);
        if got == 0 {
          break;
        }
        n := n + got;
      }
      ok := n > 0;
    }

    /** First consume the buffer. */
    method TakeAhead(dest: array<Byte>, count: nat) returns (x: nat)
      requires Valid() && count <= dest.Length && dest != buf
      modifies this`rpos, dest
      ensures Valid() && x == (if |old(Ahead())| < count then |old(Ahead())| else count)
      ensures dest[..x] + ToCome() == old(ToCome())
      ensures forall i :: count <= i < dest.Length ==> dest[i] == old(dest[i])
    {
      x := if rend - rpos < count then rend - rpos else count;
      CopyIn(dest, 0, buf[rpos..rpos + x]);
      assert dest[..x] == dest[0..x] == buf[rpos..rpos + x];
      assert buf[rpos..rend] == buf[rpos..rpos + x] + buf[rpos + x..rend];
      Regroup(dest[..x], buf[rpos + x..rend], source.left);
      rpos := rpos + x;
    }

    /** One turn of the loop: the last byte asked for always goes through the buffer, if there
        is one. Returns how many bytes were delivered; 0 ends the read. */
    method Fill(dest: array<Byte>, n: nat, count: nat, ghost all: seq<Byte>) returns (got: nat)
      requires Valid() && n < count <= dest.Length && dest != buf && Ahead() == [] && dest[..n] + ToCome() == all
      modifies this, buf, source, dest
      ensures Valid() && n + got <= count && dest[..n + got] + ToCome() == all
      ensures n + got < count ==> Ahead() == []
      ensures forall i :: 0 <= i < n || count <= i < dest.Length ==> dest[i] == old(dest[i])
      ensures got == 0 ==> Yield(|old(source.left)|, old(source.schedule)) == 0
      ensures 0 < got < count - n ==>
                Yield(|old(source.left)|, old(source.schedule)) == got + Yield(|source.left|, source.schedule)
      ensures got == count - n ==> count - n <= Yield(|old(source.left)|, old(source.schedule))
    {
      hide Yield, Willing;
      var want := count - n - (if buf.Length > 0 then 1 else 0);
      var ok, data := source.Readv(want + buf.Length);
      ghost var before := dest[..n];
      if !ok || data == [] {
        rpos, rend := 0, 0;
        return 0;
      }
      got := Deliver(dest, n, count, want, data);
      Regroup(before, data, source.left);
      Regroup(dest[..n + got], Ahead(), source.left);
    }

    /** The caller's part of the data goes to the caller, the rest to the buffer. */
    method Deliver(dest: array<Byte>, n: nat, count: nat, want: nat, data: seq<Byte>) returns (got: nat)
      requires Valid() && n < count <= dest.Length && dest != buf && Ahead() == []
      requires want == count - n - (if buf.Length > 0 then 1 else 0) && 0 < |data| <= want + buf.Length
      modifies this`rpos, this`rend, buf, dest
      ensures Valid() && got == Least(|data|, count - n) && (n + got < count ==> Ahead() == [])
      ensures dest[..n + got] + Ahead() == old(dest[..n]) + data
      ensures forall i :: 0 <= i < n || count <= i < dest.Length ==> dest[i] == old(dest[i])
    {
      ghost var before := dest[..n];
      if |data| > want {
        Spill(dest, n, count, data);
        got := count - n;
        assert dest[..n] == before;
        Delivered(dest[..count], before, data, want, buf[rpos..rend]);
      } else {
        CopyIn(dest, n, data);
        got := |data|;
        assert dest[..n + got] == before + data;
      }
    }

    /** More came than the caller's part: the buffer holds the excess, after the last byte
        asked for. */
    method Spill(dest: array<Byte>, n: nat, count: nat, data: seq<Byte>)
      requires n < count <= dest.Length && dest != buf && buf.Length > 0
      requires count - n - 1 < |data| <= count - n - 1 + buf.Length
      modifies this`rpos, this`rend, buf, dest
      ensures Valid() && buf[rpos..rend] == data[count - n..]
      ensures dest[n..count - 1] == data[..count - n - 1] && dest[count - 1] == data[count - n - 1]
      ensures forall i :: 0 <= i < n || count <= i < dest.Length ==> dest[i] == old(dest[i])
    {
      var want := count - n - 1;
      CopyIn(dest, n, data[..want]);
      CopyIn(buf, 0, data[want..]);
      ghost var excess := buf[0..|data| - want];
      rpos, rend := 0, |data| - want;
      dest[count - 1] := buf[rpos];
      rpos := rpos + 1;
      assert dest[n..count - 1] == data[..want];
      assert excess[0] == data[want];
      assert buf[1..rend] == excess[1..] == data[want..][1..] == data[count - n..];
    }

    /** `ph_stm_readahead`: fills the buffer, delivers and loses nothing. */
    method ReadAhead(count: nat) returns (ok: bool)
      requires Valid()
      modifies this, buf, source
      ensures Valid() && ToCome() == old(ToCome()) && |old(Ahead())| <= |Ahead()|
      ensures |old(Ahead())| >= count || buf.Length == 0 || old(rend) == buf.Length ==> ok && Ahead() == old(Ahead())
      ensures |old(Ahead())| < count && buf.Length > 0 && old(rend) < buf.Length ==>
                && (ok <==> old(source.schedule) != [] && old(source.schedule)[0] > 0)
                && |Ahead()| == |old(Ahead())| +
                   if ok then Least(old(source.schedule)[0], Least(buf.Length - old(rend), |old(source.left)|)) else 0
    {
      hide Yield, Willing;
      if buf.Length == 0 || rend - rpos >= count {
        return true;
      }
      if rend == buf.Length {
        return true;
      }
      ghost var ahead := Ahead();
      ghost var end := rend;
      var data;
      ok, data := source.Readv(buf.Length - rend);
      CopyIn(buf, rend, data);
      rend := rend + |data|;
      assert forall i :: rpos <= i < end ==> buf[i] == ahead[i - rpos];
      assert buf[rpos..end] == ahead && buf[end..rend] == data;
      assert buf[rpos..rend] == buf[rpos..end] + buf[end..rend];
      Regroup(ahead, data, source.left);
    }
  }

  /** The caller's bytes, the byte through the buffer and the rest of the buffer are the data. */
  lemma Delivered(out: seq<Byte>, before: seq<Byte>, data: seq<Byte>, want: nat, ahead: seq<Byte>)
    requires want < |data| && |out| == |before| + want + 1
    requires out[..|before|] == before && out[|before|..|before| + want] == data[..want]
    requires out[|before| + want] == data[want] && ahead == data[want + 1..]
    ensures out + ahead == before + data
  {
    var k := |before|;
    assert out == out[..k] + out[k..k + want] + [out[k + want]];
    assert data == data[..want] + [data[want]] + data[want + 1..];
  }
}

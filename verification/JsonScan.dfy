/** The loader's two passes over a string, and why they read what the grammar reads. */
module JsonScan {
  import opened Options
  import opened Utf8
  import opened JsonValue
  import opened JsonText
  import opened JsonGrammar

  function Plus(n: nat, r: Option<nat>): Option<nat> {
    if r.None? then None else Some(n + r.value)
  }

  /** First pass of `lex_scan_string`: the number of bytes before the closing quote, if the
      contents are well-formed; the first `ready` bytes are known to end a valid character. */
  function Extent(s: seq<Byte>, ready: nat): Option<nat>
    requires ready <= |s|
    decreases |s|
  {
    if ready > 0 && s[0] >= 0x80 then Plus(1, Extent(s[1..], ready - 1))
    else if s == [] then None
    else if s[0] == QUOTE then Some(0)
    else if s[0] == BACKSLASH then
      if |s| >= 2 && Unescaped(s[1]).Some? then Plus(2, Extent(s[2..], 0))
      else if HexEscapeAt(s) then Plus(6, Extent(s[6..], 0))
      else None
    else
      DecodeKinds(s);
      match Decode(s)
      case Ok(cp, n) => if cp < 0x20 then None else Plus(1, Extent(s[1..], n - 1))
      case _ => None
  }

  /** Second pass: the contents up to the quote, unescaped. */
  function Contents(s: seq<Byte>): Option<seq<Byte>> {
    if s == [] then None
    else if s[0] == QUOTE then Some([])
    else if s[0] == BACKSLASH then
      if |s| >= 2 && Unescaped(s[1]).Some? then Attach([Unescaped(s[1]).value], Contents(s[2..]))
      else if HexEscapeAt(s) && EscapedCodePoint(s).0 != 0 then
        Attach(Encode(EscapedCodePoint(s).0), Contents(s[EscapedCodePoint(s).1..]))
      else None
    else Attach([s[0]], Contents(s[1..]))
  }

  function Attach(a: seq<Byte>, r: Option<seq<Byte>>): Option<seq<Byte>> {
    if r.None? then None else Some(a + r.value)
  }

  /** What the two passes make of a string. */
  function TwoPasses(s: seq<Byte>): Chars {
    if Extent(s, 0).None? || Contents(s).None? then Bad
    else if Extent(s, 0).value < |s| then Chars(Contents(s).value, s[Extent(s, 0).value + 1..])
    else Bad
  }

  /** The extent ends at a quote. */
  lemma {:induction false} ExtentEnds(s: seq<Byte>, ready: nat)
    requires ready <= |s|
    ensures Extent(s, ready).Some? ==> Extent(s, ready).value < |s| && s[Extent(s, ready).value] == QUOTE
    decreases |s|
  {
    hide Decode, HexEscapeAt;
    if ready > 0 && s[0] >= 0x80 {
      ExtentEnds(s[1..], ready - 1);
    } else if s != [] && s[0] == BACKSLASH {
      if |s| >= 2 && Unescaped(s[1]).Some? {
        ExtentEnds(s[2..], 0);
      } else if HexEscapeAt(s) {
        HexLength(s);
        ExtentEnds(s[6..], 0);
      }
    } else if s != [] && s[0] != QUOTE {
      DecodeKinds(s);
      if Decode(s).Ok? {
        ExtentEnds(s[1..], Decode(s).len - 1);
      }
    }
  }

  lemma HexLength(s: seq<Byte>)
    requires HexEscapeAt(s)
    ensures |s| >= 6
  {
  }

  /** Bytes after the first of a character are continuation bytes. */
  lemma TailsAreHigh(s: seq<Byte>, i: nat)
    requires Decode(s).Ok? && 1 <= i < Decode(s).len
    ensures i < |s| && s[i] >= 0x80
  {
    DecodeIsGrammar(s, Decode(s).len);
  }

  /** The first pass runs over the rest of a character one byte at a time. */
  lemma {:induction false} ExtentSkips(s: seq<Byte>, k: nat)
    requires k <= |s| && forall i :: 0 <= i < k ==> s[i] >= 0x80
    ensures Extent(s, k) == Plus(k, Extent(s[k..], 0))
    decreases k
  {
    if k == 0 {
      assert s[0..] == s;
    } else {
      ExtentSkips(s[1..], k - 1);
      assert s[1..][k - 1..] == s[k..];
    }
  }

  lemma {:induction false} ContentsSkips(s: seq<Byte>, k: nat)
    requires k <= |s| && forall i :: 0 <= i < k ==> s[i] >= 0x80
    ensures Contents(s) == Attach(s[..k], Contents(s[k..]))
    decreases k
  {
    if k == 0 {
      assert s[0..] == s;
      assert Contents(s).Some? ==> [] + Contents(s).value == Contents(s).value;
    } else {
      ContentsSkips(s[1..], k - 1);
      assert s[1..][k - 1..] == s[k..];
      assert [s[0]] + s[1..][..k - 1] == s[..k];
      if Contents(s[k..]).Some? {
        assert [s[0]] + (s[1..][..k - 1] + Contents(s[k..]).value) == s[..k] + Contents(s[k..]).value;
      }
    }
  }

  predicate Plain(s: seq<Byte>) {
    s != [] && s[0] != QUOTE && s[0] != BACKSLASH && Decode(s).Ok? && Decode(s).cp >= 0x20 && Decode(s).len <= |s|
  }

  lemma PlainTail(s: seq<Byte>)
    requires Plain(s)
    ensures 1 <= Decode(s).len && forall i :: 0 <= i < Decode(s).len - 1 ==> s[1..][i] >= 0x80
    ensures s[1..][Decode(s).len - 1..] == s[Decode(s).len..]
  {
    hide Decode;
    DecodeKinds(s);
    forall i | 0 <= i < Decode(s).len - 1 ensures s[1..][i] >= 0x80 {
      TailsAreHigh(s, i + 1);
    }
  }

  /** An unescaped character, in the first pass. */
  lemma PlainExtent(s: seq<Byte>)
    requires Plain(s)
    ensures Extent(s, 0) == Plus(Decode(s).len, Extent(s[Decode(s).len..], 0))
  {
    hide Decode;
    PlainTail(s);
    ExtentSkips(s[1..], Decode(s).len - 1);
    PlainOnce(s);
  }

  lemma PlainOnce(s: seq<Byte>)
    requires Plain(s) && 1 <= Decode(s).len
    ensures Extent(s, 0) == Plus(1, Extent(s[1..], Decode(s).len - 1))
  {
    hide Decode;
  }

  /** An unescaped character, in the second pass. */
  lemma PlainContents(s: seq<Byte>)
    requires Plain(s)
    ensures Contents(s) == Attach(s[..Decode(s).len], Contents(s[Decode(s).len..]))
  {
    hide Decode;
    PlainTail(s);
    var n := Decode(s).len;
    ContentsSkips(s[1..], n - 1);
    if Contents(s[n..]).Some? {
      assert [s[0]] + (s[1..][..n - 1] + Contents(s[n..]).value) == s[..n] + Contents(s[n..]).value;
    }
  }

  /** A pair of escapes is one character to the second pass and two to the first. */
  lemma PairStep(s: seq<Byte>)
    requires HexEscapeAt(s) && EscapedCodePoint(s).0 != 0 && EscapedCodePoint(s).1 == 12
    ensures Extent(s, 0) == Plus(12, Extent(s[12..], 0))
  {
    hide HexEscapeValue;
    assert HexEscapeAt(s[6..]);
    assert s[6..][6..] == s[12..];
    EscapeExtent(s);
    EscapeExtent(s[6..]);
  }

  lemma EscapeExtent(s: seq<Byte>)
    requires HexEscapeAt(s)
    ensures Extent(s, 0) == Plus(6, Extent(s[6..], 0))
  {
  }

  lemma Shift(s: seq<Byte>, k: nat, a: seq<Byte>)
    requires k <= |s|
    requires Extent(s, 0) == Plus(k, Extent(s[k..], 0)) && Contents(s) == Attach(a, Contents(s[k..]))
    ensures TwoPasses(s) == Prepend(a, TwoPasses(s[k..]))
  {
    hide Extent, Contents;
    if Extent(s[k..], 0).Some? && Extent(s[k..], 0).value < |s[k..]| {
      var e := Extent(s[k..], 0).value;
      assert s[k..][e + 1..] == s[k + e + 1..];
    }
  }

  /** Scanning to the quote and then unescaping reads exactly what the grammar reads. */
  lemma {:induction false} TwoPassesAreOne(s: seq<Byte>)
    ensures TwoPasses(s) == StringBody(s)
  {
    hide Decode, Encode, HexEscapeAt, EscapedCodePoint;
    ExtentEnds(s, 0);
    if s == [] || s[0] == QUOTE {
    } else if s[0] == BACKSLASH {
      if |s| >= 2 && Unescaped(s[1]).Some? {
        TwoPassesAreOne(s[2..]);
        Shift(s, 2, [Unescaped(s[1]).value]);
      } else if HexEscapeAt(s) && EscapedCodePoint(s).0 != 0 {
        var e := EscapedCodePoint(s);
        TwoPassesAreOne(s[e.1..]);
        EscapeLength(s);
        if e.1 == 12 {
          PairStep(s);
        } else {
          EscapeExtent(s);
        }
        Shift(s, e.1, Encode(e.0));
      }
    } else {
      DecodeKinds(s);
      if Decode(s).Ok? && Decode(s).cp >= 0x20 {
        PlainExtent(s);
        PlainContents(s);
        TwoPassesAreOne(s[Decode(s).len..]);
        Shift(s, Decode(s).len, s[..Decode(s).len]);
      }
    }
  }

  lemma EscapeLength(s: seq<Byte>)
    requires HexEscapeAt(s) && EscapedCodePoint(s).0 != 0
    ensures EscapedCodePoint(s).1 == 6 || EscapedCodePoint(s).1 == 12
  {
  }

  // ----- reading byte by byte

  /** A character whose bytes are all at hand is read like one still to be decoded. */
  lemma ExtentReady(s: seq<Byte>)
    requires Decode(s).Ok? && Decode(s).len <= |s|
    ensures Extent(s, Decode(s).len) == Extent(s, 0)
  {
    hide Decode;
    DecodeKinds(s);
    if s[0] >= 0x80 {
      DecodeHigh(s);
      PlainOnce(s);
    } else {
      DecodeAscii(s);
    }
  }

  lemma DecodeHigh(s: seq<Byte>)
    requires Decode(s).Ok? && s[0] >= 0x80
    ensures Decode(s).cp >= 0x80
  {
    hide Decode;
    DecodeKinds(s);
    assert s[..Decode(s).len][0] == s[0];
    EncodeDecoded(s);
  }

  /** What the second pass may rely on: every escape is complete and a quote ends the text. */
  predicate Escaped(s: seq<Byte>) {
    s != [] &&
    if s[0] == QUOTE then true
    else if s[0] == BACKSLASH then
      if |s| >= 2 && Unescaped(s[1]).Some? then Escaped(s[2..]) else HexEscapeAt(s) && Escaped(s[6..])
    else Escaped(s[1..])
  }

  /** The text saved by the first pass is fit for the second, which reads no further. */
  lemma {:induction false} SavedText(s: seq<Byte>, ready: nat)
    requires ready <= |s| && Extent(s, ready).Some? && Extent(s, ready).value < |s|
    ensures Escaped(s[..Extent(s, ready).value + 1])
    ensures Contents(s[..Extent(s, ready).value + 1]) == Contents(s)
    decreases |s|
  {
    hide Decode, Encode, HexEscapeAt, EscapedCodePoint;
    var n := Extent(s, ready).value;
    var t := s[..n + 1];
    if ready > 0 && s[0] >= 0x80 {
      SavedText(s[1..], ready - 1);
      assert t[1..] == s[1..][..n];
    } else if s[0] == QUOTE {
    } else if s[0] == BACKSLASH {
      if |s| >= 2 && Unescaped(s[1]).Some? {
        SavedText(s[2..], 0);
        assert t[2..] == s[2..][..n - 1];
      } else {
        SavedHex(s, t);
      }
    } else {
      DecodeKinds(s);
      SavedText(s[1..], Decode(s).len - 1);
      assert t[1..] == s[1..][..n];
    }
  }

  lemma {:induction false} SavedHex(s: seq<Byte>, t: seq<Byte>)
    requires HexEscapeAt(s) && Extent(s, 0).Some? && Extent(s, 0).value < |s| && t == s[..Extent(s, 0).value + 1]
    ensures HexEscapeAt(t) && Escaped(t) && Contents(t) == Contents(s)
    decreases |s|, 0
  {
    hide Encode, HexEscapeValue, IsHex;
    var n := Extent(s, 0).value;
    EscapeExtent(s);
    SavedText(s[6..], 0);
    assert t[6..] == s[6..][..n - 5];
    if HexEscapeAt(s[6..]) {
      EscapeExtent(s[6..]);
    }
    HexPrefix(s, t);
    HexPrefix(s[6..], t[6..]);
    if EscapedCodePoint(s).0 != 0 && EscapedCodePoint(s).1 == 12 {
      SavedText(s[12..], 0);
      assert s[6..][6..] == s[12..];
      assert t[12..] == s[12..][..n - 11];
    }
    assert EscapedCodePoint(t) == EscapedCodePoint(s);
  }

  lemma HexPrefix(s: seq<Byte>, t: seq<Byte>)
    requires t <= s && (HexEscapeAt(s) ==> |t| >= 6)
    ensures HexEscapeAt(t) <==> HexEscapeAt(s)
    ensures HexEscapeAt(s) ==> HexEscapeValue(t) == HexEscapeValue(s)
  {
  }
}

/** The JSON loader: a byte stream with a one-character look-ahead buffer, the lexer on top of
    it and the recursive-descent parser, with the source's own state. */
module JsonLoader {
  import opened Options
  import opened Utf8
  import opened JsonValue
  import opened JsonText
  import opened JsonGrammar
  import opened JsonScan

  const END_OF_INPUT := -1
  const DECODE_ERROR := -2

  datatype StreamState = Good | AtEnd | Broken

  /** c is what reading at the start of s gives. */
  predicate Reads(c: int, s: seq<Byte>) {
    && (c == END_OF_INPUT <==> s == [])
    && (c == DECODE_ERROR ==> s != [] && s[0] >= 0x80 && Decode(s).Err?)
    && (c != END_OF_INPUT && c != DECODE_ERROR ==> 0 <= c < 256 && s != [] && s[0] == c)
  }

  /** What a parsing method made: a value, nothing, or it met a real number. */
  datatype Outcome = Nothing | RealMet | Made(value: Json)

  /** The bytes from position i up to the buffer's terminating NUL. */
  function Cached(b: seq<Byte>, i: nat): (r: seq<Byte>)
    ensures i <= |b| ==> i + |r| <= |b|
    decreases |b| - i
  {
    if i < |b| && b[i] != 0 then [b[i]] + Cached(b, i + 1) else []
  }

  function Chunk(c: int): seq<Byte> {
    if 0 <= c < 256 then [c] else []
  }

  lemma CachedStep(b: seq<Byte>, i: nat)
    ensures i < |b| && b[i] != 0 ==> Cached(b, i) == [b[i]] + Cached(b, i + 1)
    ensures i < |b| && b[i] == 0 ==> Cached(b, i) == []
  {
  }

  lemma {:induction false} CachedIs(b: seq<Byte>, i: nat, n: nat)
    requires i <= n < |b| && b[n] == 0 && forall j :: i <= j < n ==> b[j] != 0
    ensures Cached(b, i) == b[i..n]
    decreases n - i
  {
    if i < n {
      CachedIs(b, i + 1, n);
    }
  }

  lemma HighTail(c: Byte, q: seq<Byte>, rest: seq<Byte>)
    requires Decode([c] + (q + rest)).Ok? && Decode([c] + (q + rest)).len == 1 + |q| && (c < 0x80 ==> q == [])
    ensures q != [] ==> forall i :: 0 <= i < |[c] + q| ==> ([c] + q)[i] >= 0x80
  {
    hide Decode;
    var s := [c] + (q + rest);
    forall i | 0 <= i < |q| ensures q[i] >= 0x80 {
      assert s[i + 1] == q[i];
      TailsAreHigh(s, i + 1);
    }
  }

  lemma BrokenStart(s: seq<Byte>)
    ensures s != [] && Decode(s).Err? ==> s[0] >= 0x80
  {
    hide Decode;
    if s != [] && s[0] < 0x80 {
      DecodeAscii(s);
    }
  }

  lemma PutBackView(c: Byte, q: seq<Byte>, rest: seq<Byte>)
    requires c == 0 ==> q == []
    ensures PutBack([c] + (q + rest)) == if c == 0 then [] + rest else [c] + q + rest
  {
    if c == 0 {
      assert ([c] + (q + rest))[1..] == [] + rest;
    } else {
      assert [c] + (q + rest) == [c] + q + rest;
    }
  }

  predicate Hex4(s: seq<Byte>) {
    |s| >= 4 && IsHex(s[0]) && IsHex(s[1]) && IsHex(s[2]) && IsHex(s[3])
  }

  /** The length of the escape whose backslash precedes s; 0 if there is none. */
  function EscapeLetters(s: seq<Byte>): (n: nat)
    ensures n <= |s|
  {
    if s != [] && Unescaped(s[0]).Some? then 1
    else if s != [] && s[0] == LOWER_U && Hex4(s[1..]) then 5
    else 0
  }

  lemma NoLead(s: seq<Byte>)
    requires s != [] && SeqLen(s[0]) == 0
    ensures Decode(s).Err?
  {
  }

  /** The first pass at a byte that ends it without a quote. */
  lemma ExtentStops(c: int, s: seq<Byte>, ready: nat)
    requires Reads(c, s) && ready <= |s| && (c < 0 ==> ready == 0) && c <= 0x1F
    ensures Extent(s, ready) == None
  {
    hide Decode;
    if c >= 0 {
      DecodeAscii(s);
    }
  }

  /** The first pass at a backslash. */
  lemma ExtentEscape(s: seq<Byte>, ready: nat)
    requires s != [] && s[0] == BACKSLASH && ready <= |s|
    ensures var n := EscapeLetters(s[1..]);
            Extent(s, ready) == if n > 0 then Plus(1 + n, Extent(s[1 + n..], 0)) else None
  {
    hide Decode;
    var t := s[1..];
    assert HexEscapeAt(s) <==> t != [] && t[0] == LOWER_U && Hex4(t[1..]);
  }

  /** The first pass at any other byte. */
  lemma ExtentPlain(s: seq<Byte>, ready: nat)
    requires s != [] && 0 < ready <= |s| && s[0] > 0x1F && s[0] != QUOTE && s[0] != BACKSLASH
    requires s[0] < 0x80 ==> ready == 1
    ensures Extent(s, ready) == Plus(1, Extent(s[1..], ready - 1))
  {
    hide Decode;
    if s[0] < 0x80 {
      DecodeAscii(s);
    }
  }

  /** Continuation bytes all pass; a byte that is none fails the check. */
  lemma {:induction false} ContinueNeedsTails(cp: nat, s: seq<Byte>, k: nat, i: nat)
    requires i < k <= |s| && !Tail(s[i])
    ensures !Continue(cp, s, k).Ok?
    decreases k
  {
    if i > 0 && Tail(s[0]) {
      ContinueNeedsTails(cp * 64 + TailBits(s[0]), s[1..], k - 1, i - 1);
    }
  }

  /** `utf8_check_full` */
  method CheckSequence(buffer: seq<Byte>, size: nat) returns (ok: bool)
    requires buffer != [] && size <= |buffer|
    ensures ok <==> CheckFull(buffer, size)
  {
    var value: nat;
    if size == 2 {
      value := buffer[0] % 0x20;
    } else if size == 3 {
      value := buffer[0] % 0x10;
    } else if size == 4 {
      value := buffer[0] % 8;
    } else {
      return false;
    }
    var i := 1;
    while i < size
      invariant 1 <= i <= size
      invariant Continue(LeadBits(buffer[0], size), buffer[1..size], size - 1) ==
                Continue(value, buffer[i..size], size - i)
    {
      if !Tail(buffer[i]) {
        return false;
      }
      assert buffer[i..size][1..] == buffer[i + 1..size];
      value := value * 64 + TailBits(buffer[i]);
      i := i + 1;
    }
    ok := InRange(value, size);
  }

  lemma HexLetters(saved: seq<Byte>, s: seq<Byte>, chunk: seq<Byte>)
    requires s != [] && |s[1..]| >= 4
    ensures saved + [s[0]] + s[1..][..4] + chunk == saved + s[..5] + chunk && s[1..][4..] == s[5..]
  {
    assert [s[0]] + s[1..][..4] == s[..5];
  }

  /** Saved text grows with what was read. */
  lemma SavedStep(saved: seq<Byte>, s: seq<Byte>, m: nat, k: nat, chunk: seq<Byte>)
    requires 1 <= k && m + k <= |s|
    ensures saved + s[..m] + [s[m..][0]] + s[m..][1..k] + chunk == saved + s[..m + k] + chunk
    ensures saved + s[..m] + [s[m..][0]] == saved + s[..m + 1]
    ensures s[m..][k..] == s[m + k..]
  {
    assert s[..m] + [s[m..][0]] + s[m..][1..k] == s[..m + k];
    assert s[..m] + [s[m..][0]] == s[..m + 1];
  }

  lemma ExtentQuote(s: seq<Byte>, ready: nat)
    requires s != [] && s[0] == QUOTE && ready <= |s|
    ensures Extent(s, ready) == Some(0)
  {
  }

  function Sign(negative: bool): seq<Byte> {
    if negative then [MINUS] else []
  }

  function Signed(negative: bool, n: nat): int {
    if negative then -(n as int) else n
  }

  lemma RunOfOne(s: seq<Byte>)
    ensures DigitRun(s) > 0 <==> s != [] && IsDigit(s[0])
    ensures s != [] && IsDigit(s[0]) ==> (DigitRun(s) > 1 <==> |s| > 1 && IsDigit(s[1]))
    ensures s != [] ==> s[..1] == [s[0]]
  {
  }

  lemma AlphaStep(s: seq<Byte>, m: nat)
    requires m <= |s|
    ensures s[0..] == s && s[..0] == []
    ensures s[m..] != [] && IsAlpha(s[m]) ==> AlphaRun(s[m..]) == 1 + AlphaRun(s[m + 1..])
  {
    assert s[m..] != [] ==> s[m..][1..] == s[m + 1..];
  }

  lemma AlphaEnd(s: seq<Byte>)
    requires s == [] || !IsAlpha(s[0])
    ensures AlphaRun(s) == 0
  {
  }

  lemma RunStep(s: seq<Byte>, m: nat)
    requires m <= |s|
    ensures s[0..] == s
    ensures s[m..] != [] && IsDigit(s[m]) ==> DigitRun(s[m..]) == 1 + DigitRun(s[m + 1..])
  {
    assert s[m..] != [] ==> s[m..][1..] == s[m + 1..];
  }

  lemma RunEnd(s: seq<Byte>)
    requires s == [] || !IsDigit(s[0])
    ensures DigitRun(s) == 0
  {
  }

  /** `decode_unicode_escape`, p at the letter u. */
  method DecodeEscape(text: seq<Byte>, p: nat) returns (value: nat)
    requires 0 < p < |text| && HexEscapeAt(text[p - 1..])
    ensures value == HexEscapeValue(text[p - 1..])
  {
    ghost var s := text[p - 1..];
    assert text[p + 1] == s[2] && text[p + 2] == s[3] && text[p + 3] == s[4] && text[p + 4] == s[5];
    value := 0;
    var i := 1;
    while i <= 4
      invariant 1 <= i <= 5
      invariant value == HexPrefixValue(s, i - 1)
    {
      value := value * 16 + HexDigitValue(text[p + i]);
      i := i + 1;
    }
    HexPrefixFull(s);
  }

  lemma HexPrefixFull(s: seq<Byte>)
    requires HexEscapeAt(s)
    ensures HexPrefixValue(s, 4) == HexEscapeValue(s)
  {
    hide HexDigitValue;
    assert HexPrefixValue(s, 1) == HexDigitValue(s[2]);
    assert HexPrefixValue(s, 2) == HexDigitValue(s[2]) * 16 + HexDigitValue(s[3]);
  }

  function HexPrefixValue(s: seq<Byte>, i: nat): nat
    requires HexEscapeAt(s) && i <= 4
  {
    if i == 0 then 0 else HexPrefixValue(s, i - 1) * 16 + HexDigitValue(s[i + 1])
  }

  /** The second pass of `lex_scan_string`. */
  method Unescape(text: seq<Byte>) returns (ok: bool, t: seq<Byte>)
    requires Escaped(text)
    ensures ok <==> Contents(text).Some?
    ensures ok ==> t == Contents(text).value
  {
    hide Encode, HexEscapeAt, EscapedCodePoint, Contents, Escaped;
    t := [];
    var p := 0;
    assert text[0..] == text;
    ContentsStart(text);
    while text[p] != QUOTE
      invariant p < |text| && Escaped(text[p..]) && Contents(text) == Attach(t, Contents(text[p..]))
      decreases |text| - p
    {
      var k, piece;
      ok, k, piece := UnescapeTurn(text, p);
      if !ok {
        return;
      }
      AttachTwice(t, piece, Contents(text[p + k..]));
      t, p := t + piece, p + k;
    }
    ContentsQuote(text[p..]);
    ok := true;
  }

  /** One turn of the second pass: k bytes become `piece`. */
  method UnescapeTurn(text: seq<Byte>, p: nat) returns (ok: bool, k: nat, piece: seq<Byte>)
    requires p < |text| && Escaped(text[p..]) && text[p] != QUOTE
    ensures ok ==> 1 <= k && p + k < |text| && Escaped(text[p + k..])
    ensures ok ==> Contents(text[p..]) == Attach(piece, Contents(text[p + k..]))
    ensures !ok ==> Contents(text[p..]) == None
  {
    hide Encode, HexEscapeAt, EscapedCodePoint, Contents, Escaped, HexEscapeValue;
    ghost var s := text[p..];
    EscapedTurn(s);
    if text[p] == BACKSLASH {
      if text[p + 1] == LOWER_U {
        assert s[6..] == text[p + 6..];
        var value := DecodeEscape(text, p + 1);
        if 0xD800 <= value <= 0xDBFF {
          EscapedTurn(s[6..]);
          if text[p + 6] == BACKSLASH && text[p + 7] == LOWER_U {
            assert s[12..] == text[p + 12..];
            var value2 := DecodeEscape(text, p + 7);
            if 0xDC00 <= value2 <= 0xDFFF {
              ok, k, piece := true, 12, Encode(Pair(value, value2));
            } else {
              ok, k, piece := false, 0, [];
            }
          } else {
            ok, k, piece := false, 0, [];
          }
        } else if 0xDC00 <= value <= 0xDFFF || value == 0 {
          ok, k, piece := false, 0, [];
        } else {
          ok, k, piece := true, 6, Encode(value);
        }
        ContentsHex(s);
      } else {
        ok, k := true, 2;
        var c := text[p + 1];
        assert s[2..] == text[p + 2..];
        piece := [if c == 0x62 then 0x08 else if c == 0x66 then 0x0C else if c == 0x6E then 0x0A
                  else if c == 0x72 then 0x0D else if c == 0x74 then 0x09 else c];
      }
    } else {
      ok, k, piece := true, 1, [text[p]];
      assert s[1..] == text[p + 1..];
    }
  }

  /** What the second pass finds at the start of escaped text. */
  lemma EscapedTurn(s: seq<Byte>)
    requires Escaped(s)
    ensures s != []
    ensures s[0] == BACKSLASH ==> |s| >= 2 && (s[1] != LOWER_U ==> Unescaped(s[1]).Some? && Escaped(s[2..]))
    ensures s[0] == BACKSLASH && s[1] == LOWER_U ==> HexEscapeAt(s) && |s| >= 6 && Escaped(s[6..])
    ensures s[0] != BACKSLASH && s[0] != QUOTE ==> Escaped(s[1..]) && Contents(s) == Attach([s[0]], Contents(s[1..]))
    ensures s[0] == BACKSLASH && s[1] != LOWER_U ==>
              Contents(s) == Attach([Unescaped(s[1]).value], Contents(s[2..]))
    ensures HexEscapeAt(s) ==> s[0] == BACKSLASH && |s| >= 2 && s[1] == LOWER_U
  {
  }

  lemma ContentsHex(s: seq<Byte>)
    requires HexEscapeAt(s)
    ensures |s| >= 6
    ensures var v := HexEscapeValue(s);
            Contents(s) ==
            if 0xD800 <= v <= 0xDBFF then
              if HexEscapeAt(s[6..]) && 0xDC00 <= HexEscapeValue(s[6..]) <= 0xDFFF
              then Attach(Encode(Pair(v, HexEscapeValue(s[6..]))), Contents(s[12..]))
              else None
            else if 0xDC00 <= v <= 0xDFFF || v == 0 then None
            else Attach(Encode(v), Contents(s[6..]))
  {
    hide Encode, HexEscapeValue, IsHex;
  }

  lemma AttachTwice(a: seq<Byte>, b: seq<Byte>, r: Option<seq<Byte>>)
    ensures Attach(a, Attach(b, r)) == Attach(a + b, r)
  {
    if r.Some? {
      assert a + (b + r.value) == a + b + r.value;
    }
  }

  lemma ContentsStart(s: seq<Byte>)
    requires Escaped(s)
    ensures s != [] && Contents(s) == Attach([], Contents(s))
  {
    if Contents(s).Some? {
      assert [] + Contents(s).value == Contents(s).value;
    }
  }

  lemma ContentsQuote(s: seq<Byte>)
    requires s != [] && s[0] == QUOTE
    ensures Contents(s) == Some([])
  {
  }

  /** Where parsing ends with the token, what follows it does not matter. */
  lemma BadToken(t: Token, s: seq<Byte>, s': seq<Byte>, reject: bool)
    ensures t.Invalid? || t.Real? ==>
              && Value(t, s, reject) == Value(t, s', reject)
              && (forall done :: Elements(t, s, done, reject) == Elements(t, s', done, reject))
              && (forall done :: Members(t, s, done, reject) == Members(t, s', done, reject))
  {
  }

  lemma ArrayStart(s: seq<Byte>, reject: bool)
    ensures Value(Punct(LBRACKET), s, reject) ==
            if Lex(s).token == Punct(RBRACKET) then Parsed(Array([]), Lex(s).rest)
            else Elements(Lex(s).token, Lex(s).rest, [], reject)
    ensures |Lex(s).rest| + Weight(Lex(s).token) <= |s|
  {
    hide Lex, Elements, Members;
  }

  lemma ElementsStep(t: Token, s: seq<Byte>, done: seq<Json>, reject: bool)
    requires t != Eof
    ensures var e := Value(t, s, reject);
            Elements(t, s, done, reject) ==
            if !e.Parsed? then e
            else
              var l := Lex(e.rest);
              if l.token == Punct(COMMA) then
                Elements(Lex(l.rest).token, Lex(l.rest).rest, done + [e.value], reject)
              else if l.token == Punct(RBRACKET) then Parsed(Array(done + [e.value]), l.rest)
              else Failed
    ensures t.Invalid? || t.Real? ==> !Value(t, s, reject).Parsed?
  {
    hide Lex;
  }

  lemma ElementsEof(s: seq<Byte>, done: seq<Json>, reject: bool)
    ensures Elements(Eof, s, done, reject) == Failed
  {
  }

  lemma ObjectStart(s: seq<Byte>, reject: bool)
    ensures Value(Punct(LBRACE), s, reject) ==
            if Lex(s).token == Punct(RBRACE) then Parsed(Object([]), Lex(s).rest)
            else Members(Lex(s).token, Lex(s).rest, [], reject)
    ensures |Lex(s).rest| + Weight(Lex(s).token) <= |s|
  {
    hide Lex, Elements, Members;
  }

  /** The value of the member whose key is the token t. */
  function MemberValue(t: Token, s: seq<Byte>, done: seq<Field>, reject: bool): Parsed {
    if !t.Str? || (reject && Get(done, t.s).Some?) || Lex(s).token != Punct(COLON) then Failed
    else Value(Lex(Lex(s).rest).token, Lex(Lex(s).rest).rest, reject)
  }

  lemma MembersStep(t: Token, s: seq<Byte>, done: seq<Field>, reject: bool)
    ensures var e := MemberValue(t, s, done, reject);
            Members(t, s, done, reject) ==
            if !e.Parsed? then e
            else
              var l := Lex(e.rest);
              var fs := SetField(done, t.s, e.value);
              if l.token == Punct(COMMA) then Members(Lex(l.rest).token, Lex(l.rest).rest, fs, reject)
              else if l.token == Punct(RBRACE) then Parsed(Object(fs), l.rest)
              else Failed
    ensures MemberValue(t, s, done, reject).Parsed? ==> |MemberValue(t, s, done, reject).rest| < |s|
  {
    hide Lex, Value, SetField;
  }

  class Lexer {
    // the stream
    const input: seq<Byte>
    var next: nat
    const buffer: array<Byte>
    var bufferPos: nat
    var state: StreamState
    // the lexer
    var savedText: seq<Byte>
    var token: Token
    // the bytes that did not decode
    ghost var undecoded: seq<Byte>

    ghost predicate Valid()
      reads this`next, this`bufferPos, this`state, this`undecoded, buffer
    {
      && buffer.Length == 5
      && next <= |input|
      && (state.Good? ==>
            var p := Cached(buffer[..], bufferPos);
            && bufferPos + |p| < 5
            && (|p| > 1 ==> forall i :: 0 <= i < |p| ==> p[i] >= 0x80))
      && (state.AtEnd? ==> next == |input|)
      && (state.Broken? ==> undecoded != [] && Decode(undecoded).Err?)
    }

    /** How many bytes of the current character are still in the buffer. */
    ghost function Ready(): nat
      reads this`bufferPos, this`state, buffer
    {
      if state.Good? then |Cached(buffer[..], bufferPos)| else 0
    }

    /** The bytes still to be read. */
    ghost function Rest(): seq<Byte>
      reads this`next, this`bufferPos, this`state, this`undecoded, buffer
      requires Valid()
      ensures Ready() <= |Rest()|
    {
      match state
      case Good => Cached(buffer[..], bufferPos) + input[next..]
      case AtEnd => []
      case Broken => undecoded
    }

    /** Between two characters. */
    ghost predicate AtCharacter()
      reads this`next, this`bufferPos, this`state, this`undecoded, buffer
      requires Valid()
    {
      Ready() == 0 || (Decode(Rest()).Ok? && Decode(Rest()).len == Ready())
    }

    /** The bytes still to be read once c is put back. */
    ghost function View(c: int): seq<Byte>
      reads this`next, this`bufferPos, this`state, this`undecoded, buffer
      requires Valid()
    {
      if 0 <= c < 256 then [c] + Rest() else Rest()
    }

    /** c is what the last call of Get returned. */
    ghost predicate Gave(c: int)
      reads this`next, this`bufferPos, this`state, this`undecoded, buffer
      requires Valid()
    {
      && (c == END_OF_INPUT ==> Rest() == [] && Ready() == 0)
      && (c == DECODE_ERROR ==> Rest() != [] && Decode(Rest()).Err? && Ready() == 0)
      && (c != END_OF_INPUT && c != DECODE_ERROR ==>
            && 0 <= c < 256
            && state.Good? && 0 < bufferPos && buffer[bufferPos - 1] == c
            && (c < 0x80 ==> Ready() == 0))
    }

    lemma AsciiEnds(c: int)
      requires Valid() && GaveFirst(c)
      ensures c < 0x80 ==> AtCharacter()
    {
    }

    /** c is the first byte of a character. */
    ghost predicate GaveFirst(c: int)
      reads this`next, this`bufferPos, this`state, this`undecoded, buffer
      requires Valid()
    {
      Gave(c) && (c >= 0 ==> Decode(View(c)).Ok? && Decode(View(c)).len == 1 + Ready())
    }

    /** How many bytes of the current character are at hand, c included. */
    ghost function ReadyAt(c: int): nat
      reads this`bufferPos, this`state, buffer
    {
      if c >= 0 then 1 + Ready() else 0
    }

    /** `stream_init`, `lex_init` */
    constructor (text: seq<Byte>)
      ensures Valid() && Rest() == text && AtCharacter() && fresh(buffer) && token == Invalid
    {
      input := text;
      next := 0;
      buffer := new Byte[5](i => 0);
      bufferPos := 0;
      state := Good;
      savedText := [];
      token := Invalid;
      undecoded := [];
    }

    /** `stream_getc` */
    method GetByte() returns (c: int)
      requires next <= |input|
      modifies this`next, this`state
      ensures old(next) < |input| ==> c == input[old(next)] && next == old(next) + 1 && state == old(state)
      ensures old(next) == |input| ==> c == END_OF_INPUT && next == old(next) && state == AtEnd
    {
      if next == |input| {
        state := AtEnd;
        return END_OF_INPUT;
      }
      c := input[next];
      next := next + 1;
    }

    /** Fill the buffer with the next character. */
    method Refill() returns (ok: bool, c: int)
      requires Valid() && state.Good? && Ready() == 0
      modifies this`next, this`state, this`bufferPos, this`undecoded, buffer
      ensures Valid()
      ensures !ok && c == END_OF_INPUT ==> old(Rest()) == [] && Rest() == [] && state == AtEnd
      ensures !ok && c == DECODE_ERROR ==> Rest() == old(Rest()) != [] && Decode(Rest()).Err? && state == Broken
      ensures !ok ==> c == END_OF_INPUT || c == DECODE_ERROR
      ensures ok ==>
                && Decode(old(Rest())).Ok? && state.Good? && bufferPos == 0
                && (old(Rest())[0] != 0 ==> Rest() == old(Rest()) && Ready() == Decode(Rest()).len)
                && (old(Rest())[0] == 0 ==> Rest() == old(Rest())[1..] && Ready() == 0)
                && buffer[0] == old(Rest())[0] && (buffer[0] == 0 ==> buffer[1] == 0)
    {
      hide Decode, Cached;
      ghost var s := Rest();
      assert s == input[next..];
      DecodeKinds(s);
      c := GetByte();
      if c == END_OF_INPUT {
        return false, c;
      }
      buffer[0] := c;
      bufferPos := 0;
      var count := SeqLen(c);
      if count > 1 {
        ok := FillSequence(s, count);
        if !ok {
          c := DECODE_ERROR;
        }
      } else if count == 0 {
        NoLead(s);
        state := Broken;
        undecoded := s;
        ok, c := false, DECODE_ERROR;
      } else {
        buffer[1] := 0;
        DecodeAscii(s);
        ok := true;
        CachedIs(buffer[..], 0, if buffer[0] == 0 then 0 else 1);
        assert input[next..] == s[1..];
      }
    }

    /** The rest of a multi-byte character. */
    method FillSequence(ghost s: seq<Byte>, count: nat) returns (ok: bool)
      requires buffer.Length == 5 && 0 < next <= |input| && state.Good?
      requires s == input[next - 1..] && buffer[0] == s[0] && count == SeqLen(s[0]) && 2 <= count <= 4 && bufferPos == 0
      modifies this`next, this`state, this`undecoded, buffer
      ensures Valid() && ok == Decode(s).Ok?
      ensures ok ==> Rest() == s && state.Good? && Ready() == count == Decode(s).len && buffer[0] == s[0]
      ensures !ok ==> state == Broken && undecoded == s
    {
      hide Decode, CheckFull;
      ghost var start := next - 1;
      var i := 1;
      while i < count
        invariant 1 <= i <= count
        invariant next == if start + i <= |input| then start + i else |input|
        invariant state.Good? <==> start + i <= |input|
        invariant buffer[0] == s[0]
        invariant forall j :: 0 <= j < i && j < |s| ==> buffer[j] == s[j]
        invariant forall j :: |s| <= j < i ==> buffer[j] == 0xFF
        modifies this`next, this`state, buffer
      {
        var c := GetByte();
        buffer[i] := if c < 0 then 0xFF else c;
        i := i + 1;
      }
      ok := CheckSequence(buffer[..], count);
      CheckIsDecode(buffer[..], s, count);
      if ok {
        buffer[count] := 0;
        TakenWhole(s, count);
      } else {
        state := Broken;
        undecoded := s;
      }
    }

    lemma CheckIsDecode(b: seq<Byte>, s: seq<Byte>, count: nat)
      requires |b| == 5 && s != [] && count == SeqLen(s[0]) && 2 <= count <= 4
      requires forall j :: 0 <= j < count && j < |s| ==> b[j] == s[j]
      requires forall j :: |s| <= j < count ==> b[j] == 0xFF
      ensures CheckFull(b, count) <==> Decode(s).Ok?
      ensures Decode(s).Ok? ==> count <= |s|
      ensures Decode(s).Ok? || Decode(s).Err?
    {
      CheckAgrees(s);
      if count <= |s| {
        assert b[1..count] == s[1..count];
      } else {
        ContinueNeedsTails(LeadBits(b[0], count), b[1..count], count - 1, |s| - 1);
      }
    }

    lemma TakenWhole(s: seq<Byte>, count: nat)
      requires buffer.Length == 5 && 0 < next <= |input| && Decode(s).Ok? && 2 <= count <= 4 && SeqLen(s[0]) == count
      requires |s| >= count && forall j :: 0 <= j < count ==> buffer[j] == s[j]
      requires buffer[count] == 0
      ensures Cached(buffer[..], 0) == s[..count] && Decode(s).len == count
      ensures forall i :: 0 <= i < count ==> s[i] >= 0x80
    {
      hide Decode;
      DecodeByLength(s);
      forall i | 0 <= i < count ensures s[i] >= 0x80 {
        if i > 0 {
          TailsAreHigh(s, i);
        }
      }
      CachedIs(buffer[..], 0, count);
    }

    /** `stream_get` */
    method Get() returns (c: int)
      requires Valid()
      modifies this`next, this`state, this`bufferPos, this`undecoded, buffer
      ensures Valid() && Gave(c) && View(c) == old(Rest())
      ensures Reads(c, old(Rest())) && (0 <= c < 0x80 ==> Ready() == 0 && AtCharacter())
      ensures old(Ready()) > 0 ==> c >= 0 && 1 + Ready() == old(Ready())
      ensures old(AtCharacter()) ==> GaveFirst(c)
    {
      hide Cached, Decode;
      CachedStep(buffer[..], bufferPos);
      BrokenStart(Rest());
      if state == AtEnd {
        c := END_OF_INPUT;
      } else if state == Broken {
        c := DECODE_ERROR;
      } else if buffer[bufferPos] == 0 {
        c := GetFresh();
      } else {
        c := Deliver();
      }
    }

    /** The first byte of a character that is not in the buffer. */
    method GetFresh() returns (c: int)
      requires Valid() && state.Good? && Ready() == 0
      modifies this`next, this`state, this`bufferPos, this`undecoded, buffer
      ensures Valid() && GaveFirst(c) && View(c) == old(Rest()) && Reads(c, old(Rest()))
    {
      hide Cached, Decode;
      ghost var s := Rest();
      DecodeKinds(s);
      BrokenStart(s);
      if s != [] && s[0] < 0x80 {
        DecodeAscii(s);
      }
      var ok;
      ok, c := Refill();
      if ok {
        assert s[0] == 0 ==> [0] + s[1..] == s;
        c := Deliver();
      }
    }

    /** Hand out the next byte of the buffer. */
    method Deliver() returns (c: int)
      requires Valid() && state.Good?
      requires Ready() > 0 || (bufferPos == 0 && buffer[0] == 0 && buffer[1] == 0)
      modifies this`bufferPos
      ensures Valid() && Gave(c) && bufferPos == old(bufferPos) + 1
      ensures old(Ready()) > 0 ==> View(c) == old(Rest()) && 1 + Ready() == old(Ready())
      ensures old(Ready()) == 0 ==> c == 0 && Rest() == old(Rest()) && Ready() == 0
    {
      hide Cached, Decode;
      CachedStep(buffer[..], bufferPos);
      CachedStep(buffer[..], bufferPos + 1);
      ghost var p := Cached(buffer[..], bufferPos);
      c := buffer[bufferPos];
      bufferPos := bufferPos + 1;
      if p != [] {
        ghost var q := Cached(buffer[..], bufferPos);
        assert p == [c] + q;
        assert forall i :: 0 <= i < |q| ==> q[i] == p[i + 1];
        assert p[0] == c;
        assert [c] + (q + input[next..]) == p + input[next..];
      }
    }

    /** `stream_unget`: a NUL put back ends the buffer, and is not seen again. */
    method Unget(c: int)
      requires Valid() && GaveFirst(c)
      modifies this`bufferPos
      ensures Valid() && Rest() == PutBack(old(View(c))) && AtCharacter()
    {
      hide Cached, Decode;
      if c == END_OF_INPUT || c == DECODE_ERROR {
        BrokenStart(Rest());
        return;
      }
      StepBack(c);
    }

    method StepBack(c: Byte)
      requires Valid() && GaveFirst(c)
      modifies this`bufferPos
      ensures Valid() && Rest() == PutBack(old(View(c))) && AtCharacter()
    {
      hide Cached, Decode;
      ghost var q := Cached(buffer[..], bufferPos);
      ghost var rest := input[next..];
      HighTail(c, q, rest);
      PutBackView(c, q, rest);
      bufferPos := bufferPos - 1;
      CachedStep(buffer[..], bufferPos);
      assert Cached(buffer[..], bufferPos) == if c == 0 then [] else [c] + q;
    }

    /** `lex_get_save` */
    method GetSave() returns (c: int)
      requires Valid()
      modifies this`next, this`state, this`bufferPos, this`undecoded, this`savedText, buffer
      ensures Valid() && Gave(c) && View(c) == old(Rest()) && savedText == old(savedText) + Chunk(c)
      ensures Reads(c, old(Rest())) && (0 <= c < 0x80 ==> Ready() == 0 && AtCharacter())
      ensures old(Ready()) > 0 ==> c >= 0 && 1 + Ready() == old(Ready())
      ensures old(AtCharacter()) ==> GaveFirst(c)
    {
      hide Decode, Valid, Rest, Ready, AtCharacter, Gave, GaveFirst;
      c := Get();
      if c != END_OF_INPUT && c != DECODE_ERROR {
        savedText := savedText + [c];
      }
    }

    /** `lex_unget_unsave` */
    method UngetUnsave(c: int)
      requires Valid() && GaveFirst(c) && |savedText| >= |Chunk(c)|
      modifies this`bufferPos, this`savedText
      ensures Valid() && Rest() == PutBack(old(View(c))) && AtCharacter()
      ensures savedText == old(savedText[..|savedText| - |Chunk(c)|])
    {
      hide Cached, Decode;
      if c != END_OF_INPUT && c != DECODE_ERROR {
        savedText := savedText[..|savedText| - 1];
        Unget(c);
      } else {
        Unget(c);
      }
    }

    // ----- strings

    lemma ReadyIsFresh(c: int)
      requires Valid() && GaveFirst(c)
      ensures ReadyAt(c) <= |View(c)| && Extent(View(c), ReadyAt(c)) == Extent(View(c), 0)
    {
      hide Cached, Decode, Extent;
      if c >= 0 {
        ExtentReady(View(c));
      }
    }

    /** The four digits of a \uXXXX escape, then the next byte. */
    method ScanHex() returns (ok: bool, d: int)
      requires Valid() && AtCharacter()
      modifies this`next, this`state, this`bufferPos, this`undecoded, this`savedText, buffer
      ensures Valid()
      ensures ok <==> Hex4(old(Rest()))
      ensures ok ==> GaveFirst(d) && View(d) == old(Rest())[4..] && Reads(d, View(d))
      ensures ok ==> savedText == old(savedText) + old(Rest())[..4] + Chunk(d)
    {
      hide Decode, Valid, Rest, Ready, AtCharacter, Gave, GaveFirst;
      ghost var s := Rest();
      ghost var saved := savedText;
      d := GetSave();
      var i := 0;
      while i < 4
        invariant 0 <= i <= 4 && Valid() && GaveFirst(d)
        invariant i <= |s| && View(d) == s[i..] && Reads(d, s[i..])
        invariant 0 <= d < 0x80 ==> AtCharacter()
        invariant forall j :: 0 <= j < i ==> IsHex(s[j])
        invariant savedText == saved + s[..i] + Chunk(d)
      {
        if d < 0 || !IsHex(d) {
          assert s[i..] != [] ==> s[i..][0] == s[i];
          return false, d;
        }
        assert s[i..][1..] == s[i + 1..] && s[..i] + [d] == s[..i + 1];
        d := GetSave();
        i := i + 1;
      }
      ok := true;
    }

    /** What follows a backslash, then the next byte. */
    method ScanEscape() returns (ok: bool, d: int)
      requires Valid() && AtCharacter()
      modifies this`next, this`state, this`bufferPos, this`undecoded, this`savedText, buffer
      ensures Valid()
      ensures var s := old(Rest());
              var n := EscapeLetters(s);
              && (ok <==> n > 0)
              && (ok ==> GaveFirst(d) && View(d) == s[n..] && Reads(d, View(d)) && savedText == old(savedText) + s[..n] + Chunk(d))
    {
      hide Decode, Valid, Rest, Ready, AtCharacter, Gave, GaveFirst;
      ghost var s := Rest();
      ghost var saved := savedText;
      var c := GetSave();
      if c == LOWER_U {
        ok, d := ScanHex();
        if ok {
          HexLetters(saved, s, Chunk(d));
        }
      } else if c == QUOTE || c == BACKSLASH || c == SLASH || c == 0x62 || c == 0x66 || c == 0x6E || c == 0x72 || c == 0x74 {
        d := GetSave();
        ok := true;
      } else {
        ok, d := false, c;
      }
    }

    /** One turn of the first pass, and the number of bytes it covers. */
    method ScanTurn(c: int) returns (ok: bool, d: int, ghost k: nat)
      requires Valid() && Gave(c) && Reads(c, View(c)) && c != QUOTE && ReadyAt(c) <= |View(c)|
      modifies this`next, this`state, this`bufferPos, this`undecoded, this`savedText, buffer
      ensures Valid()
      ensures ok ==> c >= 0 && Gave(d) && Reads(d, View(d)) && ReadyAt(d) <= |View(d)|
      ensures ok ==> 1 <= k <= old(|View(c)|) && View(d) == old(View(c))[k..]
      ensures ok ==> savedText == old(savedText) + old(View(c))[1..k] + Chunk(d)
      ensures Extent(old(View(c)), old(ReadyAt(c))) == if ok then Plus(k, Extent(View(d), ReadyAt(d))) else None
    {
      hide Decode, Extent, Valid, Rest, Ready;
      ghost var s := View(c);
      ghost var ready := ReadyAt(c);
      if c == DECODE_ERROR || c == END_OF_INPUT || 0 <= c <= 0x1F {
        ExtentStops(c, s, ready);
        return false, c, 1;
      } else if c == BACKSLASH {
        ExtentEscape(s, ready);
        assert s[1..] == Rest();
        ok, d := ScanEscape();
        k := 1 + EscapeLetters(s[1..]);
        if ok {
          ReadyIsFresh(d);
          assert s[1..][..k - 1] == s[1..k] && s[1..][k - 1..] == s[k..];
        }
      } else {
        ExtentPlain(s, ready);
        assert s[1..] == Rest();
        ghost var rest := Ready();
        d := GetSave();
        if rest == 0 {
          ReadyIsFresh(d);
        }
        ok, k := true, 1;
      }
    }

    /** The first pass has reached c at position m of s and saved what precedes it. */
    ghost predicate Reached(c: int, s: seq<Byte>, m: nat, saved: seq<Byte>)
      reads this, buffer
    {
      && Valid() && Gave(c) && Reads(c, View(c)) && ReadyAt(c) <= |View(c)|
      && m <= |s| && View(c) == s[m..] && savedText == saved + s[..m] + Chunk(c)
      && Extent(s, 0) == Plus(m, Extent(View(c), ReadyAt(c)))
    }

    method Advance(c: int, ghost s: seq<Byte>, ghost m: nat, ghost saved: seq<Byte>)
      returns (ok: bool, d: int, ghost n: nat)
      requires Reached(c, s, m, saved) && c != QUOTE
      modifies this`next, this`state, this`bufferPos, this`undecoded, this`savedText, buffer
      ensures Valid()
      ensures if ok then m < n && Reached(d, s, n, saved) else Extent(s, 0).None?
    {
      hide Decode, Extent, Valid, Rest, Ready, Gave, View;
      ghost var k;
      ok, d, k := ScanTurn(c);
      n := m + k;
      if ok {
        SavedStep(saved, s, m, k, Chunk(d));
      }
    }

    /** The first pass of `lex_scan_string`. */
    method ScanExtent() returns (ok: bool)
      requires Valid() && AtCharacter()
      modifies this`next, this`state, this`bufferPos, this`undecoded, this`savedText, buffer
      ensures Valid()
      ensures var s := old(Rest());
              && (ok <==> Extent(s, 0).Some?)
              && (ok ==>
                    var n := Extent(s, 0).value;
                    n < |s| && savedText == old(savedText) + s[..n + 1] && Rest() == s[n + 1..] && AtCharacter())
    {
      hide Decode, Extent, Valid, Rest, Ready, Gave, View, Reached;
      ghost var s := Rest();
      ghost var saved := savedText;
      var c := GetSave();
      ReachedStart(c, s, saved);
      ghost var m := 0;
      while c != QUOTE
        invariant Reached(c, s, m, saved)
        decreases |s| - m
      {
        ok, c, m := Advance(c, s, m, saved);
        if !ok {
          return;
        }
        ReachedBound(c, s, m, saved);
      }
      ReachedQuote(s, m, saved);
      ok := true;
    }

    lemma ReachedStart(c: int, s: seq<Byte>, saved: seq<Byte>)
      requires Valid() && GaveFirst(c) && View(c) == s && Reads(c, s) && savedText == saved + Chunk(c)
      ensures Reached(c, s, 0, saved)
    {
      hide Decode, Extent, Valid, Rest, Ready, Gave, View;
      ReadyIsFresh(c);
      assert s[0..] == s;
    }

    lemma ReachedBound(c: int, s: seq<Byte>, m: nat, saved: seq<Byte>)
      requires Reached(c, s, m, saved)
      ensures m <= |s|
    {
    }

    lemma ReachedQuote(s: seq<Byte>, m: nat, saved: seq<Byte>)
      requires Reached(QUOTE, s, m, saved)
      ensures Valid() && AtCharacter() && m < |s|
      ensures Extent(s, 0) == Some(m) && savedText == saved + s[..m + 1] && Rest() == s[m + 1..]
    {
      hide Decode, Extent, Rest, Valid;
      ExtentQuote(View(QUOTE), ReadyAt(QUOTE));
      SavedStep(saved, s, m, 1, []);
    }

    /** `lex_scan_string`, after the opening quote. */
    method ScanString()
      requires Valid() && AtCharacter() && savedText == [QUOTE]
      modifies this`next, this`state, this`bufferPos, this`undecoded, this`savedText, this`token, buffer
      ensures Valid()
      ensures var r := StringBody(old(Rest()));
              if r.Bad? then token == Invalid else token == Str(r.s) && Rest() == r.rest && AtCharacter()
    {
      hide Decode, Extent, Contents, Escaped, StringBody, Valid, Rest, Ready, AtCharacter;
      ghost var s := Rest();
      TwoPassesAreOne(s);
      token := Invalid;
      var ok := ScanExtent();
      if ok {
        SavedText(s, 0);
        var text := savedText[1..];
        assert text == s[..Extent(s, 0).value + 1];
        var t;
        ok, t := Unescape(text);
        if ok {
          token := Str(t);
        }
      }
    }

    // ----- numbers and words

    /** Read on while there are digits. */
    method ScanDigits(c: int, ghost saved: seq<Byte>) returns (d: int)
      requires Valid() && GaveFirst(c) && Reads(c, View(c)) && savedText == saved + Chunk(c)
      modifies this`next, this`state, this`bufferPos, this`undecoded, this`savedText, buffer
      ensures Valid() && GaveFirst(d) && Reads(d, View(d))
      ensures var s := old(View(c));
              View(d) == s[DigitRun(s)..] && savedText == saved + s[..DigitRun(s)] + Chunk(d)
    {
      hide Decode, DigitRun, Valid, Rest, Ready, AtCharacter, Gave, GaveFirst;
      ghost var s := View(c);
      d := c;
      ghost var m := 0;
      RunStep(s, 0);
      assert saved + s[..0] == saved;
      AsciiEnds(c);
      while d >= 0 && IsDigit(d)
        invariant Valid() && GaveFirst(d) && Reads(d, View(d)) && (0 <= d < 0x80 ==> AtCharacter())
        invariant m <= |s| && View(d) == s[m..] && DigitRun(s) == m + DigitRun(s[m..])
        invariant savedText == saved + s[..m] + Chunk(d)
        decreases |s| - m
      {
        RunStep(s, m);
        SavedStep(saved, s, m, 1, []);
        d := GetSave();
        m := m + 1;
      }
      RunEnd(s[m..]);
    }

    /** `lex_scan_number`, after an optional sign. */
    method ScanInteger(negative: bool, c: int)
      requires Valid() && GaveFirst(c) && Reads(c, View(c)) && savedText == Sign(negative) + Chunk(c)
      modifies this`next, this`state, this`bufferPos, this`undecoded, this`savedText, this`token, buffer
      ensures Valid() && token == LexDigits(negative, old(View(c))).token
      ensures token.Int? || token.Real? || token.Invalid?
      ensures token.Int? ==> Rest() == LexDigits(negative, old(View(c))).rest && AtCharacter()
    {
      hide Decode, DigitRun, Valid, Rest, Ready, AtCharacter, Gave, GaveFirst, NatValue, PutBack;
      ghost var s := View(c);
      token := Invalid;
      RunOfOne(s);
      var d;
      if c == 0x30 {
        AsciiEnds(c);
        d := GetSave();
        if d >= 0 && IsDigit(d) {
          return;
        }
      } else if c >= 0 && IsDigit(c) {
        d := ScanDigits(c, Sign(negative));
      } else {
        return;
      }
      if d == 0x2E || d == 0x45 || d == 0x65 {
        token := Real;
      } else {
        Convert(negative, d, s);
      }
    }

    /** The conversion of the saved digits, after putting back what follows them. */
    method Convert(negative: bool, d: int, ghost s: seq<Byte>)
      requires Valid() && GaveFirst(d) && 0 < DigitRun(s) && View(d) == s[DigitRun(s)..]
      requires savedText == Sign(negative) + s[..DigitRun(s)] + Chunk(d)
      modifies this`bufferPos, this`savedText, this`token
      ensures Valid() && Rest() == PutBack(s[DigitRun(s)..]) && AtCharacter()
      ensures forall i :: 0 <= i < DigitRun(s) ==> IsDigit(s[i])
      ensures var v := Signed(negative, NatValue(s[..DigitRun(s)]));
              token == if InInt64(v) then Int(v) else Invalid
    {
      hide Decode, DigitRun, Valid, Rest, Ready, AtCharacter, Gave, GaveFirst, NatValue, PutBack, View;
      ghost var digits := s[..DigitRun(s)];
      DigitRunDigits(s);
      UngetUnsave(d);
      assert savedText == Sign(negative) + digits;
      var text := if negative then savedText[1..] else savedText;
      assert text == digits;
      var v := Signed(negative, NatValue(text));
      token := if InInt64(v) then Int(v) else Invalid;
    }

    /** `lex_scan_number` */
    method ScanNumber(c: Byte)
      requires Valid() && GaveFirst(c) && Reads(c, View(c)) && savedText == [c] && (c == MINUS || IsDigit(c))
      modifies this`next, this`state, this`bufferPos, this`undecoded, this`savedText, this`token, buffer
      ensures Valid() && token == LexAt(old(View(c))).token && (token.Int? || token.Real? || token.Invalid?)
      ensures token.Int? ==> Rest() == LexAt(old(View(c))).rest && AtCharacter()
    {
      hide Decode, Valid, Rest, Ready, AtCharacter, Gave, GaveFirst, LexDigits;
      if c == MINUS {
        AsciiEnds(c);
        var d := GetSave();
        ScanInteger(true, d);
      } else {
        ScanInteger(false, c);
      }
    }

    /** The rest of an identifier. */
    method ScanWord(c: Byte)
      requires Valid() && GaveFirst(c) && Reads(c, View(c)) && savedText == [c] && IsAlpha(c)
      modifies this`next, this`state, this`bufferPos, this`undecoded, this`savedText, this`token, buffer
      ensures Valid() && AtCharacter()
      ensures Lexed(token, Rest()) == LexAt(old(View(c)))
    {
      hide Decode, AlphaRun, Valid, Rest, Ready, AtCharacter, Gave, GaveFirst, PutBack;
      ghost var s := View(c);
      AlphaStep(s, 0);
      var d: int := c;
      ghost var m := 0;
      while d >= 0 && IsAlpha(d)
        invariant Valid() && GaveFirst(d) && Reads(d, View(d))
        invariant m <= |s| && View(d) == s[m..] && AlphaRun(s) == m + AlphaRun(s[m..])
        invariant savedText == s[..m] + Chunk(d)
        decreases |s| - m
      {
        AlphaStep(s, m);
        SavedStep([], s, m, 1, []);
        AsciiEnds(d);
        d := GetSave();
        m := m + 1;
      }
      AlphaEnd(s[m..]);
      UngetUnsave(d);
      assert savedText == s[..m];
      token := Word(savedText);
    }

    // ----- tokens

    method SkipSpaces() returns (c: int)
      requires Valid() && AtCharacter()
      modifies this`next, this`state, this`bufferPos, this`undecoded, buffer
      ensures Valid() && GaveFirst(c) && View(c) == SkipSpace(old(Rest())) && Reads(c, View(c))
    {
      hide Decode, Valid, Rest, Ready, AtCharacter, Gave, GaveFirst;
      ghost var s := Rest();
      c := Get();
      while c >= 0 && IsSpace(c)
        invariant Valid() && GaveFirst(c) && Reads(c, View(c)) && SkipSpace(View(c)) == SkipSpace(s)
        decreases |View(c)|
      {
        AsciiEnds(c);
        c := Get();
      }
    }

    /** `lex_scan` */
    method Scan()
      requires Valid() && AtCharacter()
      modifies this`next, this`state, this`bufferPos, this`undecoded, this`savedText, this`token, buffer
      ensures Valid() && token == Lex(old(Rest())).token
      ensures !token.Invalid? && !token.Real? ==> Rest() == Lex(old(Rest())).rest && AtCharacter()
    {
      hide Decode, Valid, Rest, Ready, AtCharacter, Gave, GaveFirst, StringBody, LexDigits, AlphaRun;
      var c := SkipSpaces();
      AsciiEnds(c);
      savedText := [];
      if c == END_OF_INPUT {
        token := Eof;
      } else if c == DECODE_ERROR {
        token := Invalid;
      } else {
        savedText := [c];
        if c == LBRACE || c == RBRACE || c == LBRACKET || c == RBRACKET || c == COLON || c == COMMA {
          token := Punct(c);
        } else if c == QUOTE {
          ScanString();
        } else if IsDigit(c) || c == MINUS {
          ScanNumber(c);
        } else if IsAlpha(c) {
          ScanWord(c);
        } else {
          token := Invalid;
        }
      }
    }

    // ----- the parser

    /** A token has been read and, unless parsing ends with it, what follows it is next. */
    ghost predicate Positioned()
      reads this, buffer
    {
      Valid() && (!token.Invalid? && !token.Real? ==> AtCharacter())
    }

    /** How much is left to parse. */
    ghost function Left(): nat
      reads this, buffer
      requires Valid()
    {
      if token.Invalid? || token.Real? then 0 else |Rest()| + Weight(token)
    }

    /** The outcome and the position agree with the grammar. */
    ghost predicate Agrees(r: Outcome, p: Parsed)
      reads this, buffer
    {
      && Valid()
      && match p
         case Failed => r == Nothing
         case HasReal => r == RealMet
         case Parsed(v, rest) => r == Made(v) && Rest() == rest && AtCharacter()
    }

    /** `parse_value` */
    method ParseValue(reject: bool) returns (r: Outcome)
      requires Positioned()
      modifies this`next, this`state, this`bufferPos, this`undecoded, this`savedText, this`token, buffer
      ensures Agrees(r, Value(old(token), old(Rest()), reject))
      decreases Left(), 2
    {
      hide Lex, Valid, Rest, Ready, AtCharacter, Elements, Members;
      match token {
        case Str(s) => r := Made(String(s));
        case Int(i) => r := Made(Integer(i));
        case Real => r := RealMet;
        case TrueWord => r := Made(True);
        case FalseWord => r := Made(False);
        case NullWord => r := Made(Null);
        case Punct(c) =>
          if c == LBRACE {
            r := ParseObject(reject);
          } else if c == LBRACKET {
            r := ParseArray(reject);
          } else {
            r := Nothing;
          }
        case _ => r := Nothing;
      }
    }

    /** `parse_array` */
    method ParseArray(reject: bool) returns (r: Outcome)
      requires Positioned() && token == Punct(LBRACKET)
      modifies this`next, this`state, this`bufferPos, this`undecoded, this`savedText, this`token, buffer
      ensures Agrees(r, Value(Punct(LBRACKET), old(Rest()), reject))
      decreases Left(), 1
    {
      hide Lex, Valid, Rest, Ready, AtCharacter, Value, Elements, Members;
      ghost var s := Rest();
      ghost var goal := Value(token, s, reject);
      ArrayStart(s, reject);
      Scan();
      if token == Punct(RBRACKET) {
        return Made(Array([]));
      }
      BadToken(token, Lex(s).rest, Rest(), reject);
      var done := [];
      while token != Eof
        invariant Positioned() && Elements(token, Rest(), done, reject) == goal
        invariant Left() <= |s|
        decreases Left()
      {
        ElementsStep(token, Rest(), done, reject);
        r := ParseValue(reject);
        if !r.Made? {
          return;
        }
        done := done + [r.value];
        Scan();
        if token != Punct(COMMA) {
          break;
        }
        ghost var rest := Rest();
        Scan();
        BadToken(token, Lex(rest).rest, Rest(), reject);
      }
      ElementsEof(Rest(), done, reject);
      if token != Punct(RBRACKET) {
        return Nothing;
      }
      return Made(Array(done));
    }

    /** `parse_object` */
    method ParseObject(reject: bool) returns (r: Outcome)
      requires Positioned() && token == Punct(LBRACE)
      modifies this`next, this`state, this`bufferPos, this`undecoded, this`savedText, this`token, buffer
      ensures Agrees(r, Value(Punct(LBRACE), old(Rest()), reject))
      decreases Left(), 1
    {
      hide Lex, Valid, Rest, Ready, AtCharacter, Value, Elements, Members, SetField;
      ghost var s := Rest();
      ghost var goal := Value(token, s, reject);
      ObjectStart(s, reject);
      Scan();
      if token == Punct(RBRACE) {
        return Made(Object([]));
      }
      BadToken(token, Lex(s).rest, Rest(), reject);
      var done := [];
      while true
        invariant Positioned() && Members(token, Rest(), done, reject) == goal
        invariant Left() <= |s|
        decreases Left()
      {
        MembersStep(token, Rest(), done, reject);
        var key;
        key, r := ParseMember(done, reject);
        if !r.Made? {
          return;
        }
        done := SetField(done, key, r.value);
        Scan();
        if token != Punct(COMMA) {
          break;
        }
        ghost var rest := Rest();
        Scan();
        BadToken(token, Lex(rest).rest, Rest(), reject);
      }
      if token != Punct(RBRACE) {
        return Nothing;
      }
      return Made(Object(done));
    }

    /** A key, a colon and a value. */
    method ParseMember(done: seq<Field>, reject: bool) returns (key: seq<Byte>, r: Outcome)
      requires Positioned()
      modifies this`next, this`state, this`bufferPos, this`undecoded, this`savedText, this`token, buffer
      ensures Agrees(r, MemberValue(old(token), old(Rest()), done, reject))
      ensures r.Made? ==> old(token) == Str(key)
      decreases Left(), 3
    {
      hide Lex, Valid, Rest, Ready, AtCharacter, Value, Elements, Members;
      ghost var s := Rest();
      if !token.Str? {
        return [], Nothing;
      }
      key := token.s;
      if reject && JsonValue.Get(done, key).Some? {
        return key, Nothing;
      }
      Scan();
      if token != Punct(COLON) {
        return key, Nothing;
      }
      ghost var rest := Rest();
      Scan();
      BadToken(token, Lex(rest).rest, Rest(), reject);
      r := ParseValue(reject);
    }

    /** `parse_json` */
    method ParseDocument(f: LoadFlags) returns (r: Outcome)
      requires Valid() && AtCharacter()
      modifies this`next, this`state, this`bufferPos, this`undecoded, this`savedText, this`token, buffer
      ensures match Load(old(Rest()), f)
              case Failed => r == Nothing
              case HasReal => r == RealMet
              case Parsed(v, _) => r == Made(v)
    {
      hide Lex, Valid, Rest, Ready, AtCharacter, Value;
      ghost var s := Rest();
      Scan();
      BadToken(token, Lex(s).rest, Rest(), f.rejectDuplicates);
      if !f.decodeAny {
        if token != Punct(LBRACKET) && token != Punct(LBRACE) {
          return Nothing;
        }
      }
      r := ParseValue(f.rejectDuplicates);
      if !r.Made? {
        return;
      }
      if !f.disableEofCheck {
        Scan();
        if token != Eof {
          r := Nothing;
        }
      }
    }
  }

  /** `ph_json_load_string`: loading is what the grammar says it is. */
  method LoadString(text: seq<Byte>, f: LoadFlags) returns (r: Outcome)
    ensures match Load(text, f)
            case Failed => r == Nothing
            case HasReal => r == RealMet
            case Parsed(v, _) => r == Made(v)
  {
    var lexer := new Lexer(text);
    r := lexer.ParseDocument(f);
  }
}

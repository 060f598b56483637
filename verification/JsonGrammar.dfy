/** How the loader reads JSON text, as functions on the bytes still to be read. */
module JsonGrammar {
  import opened Options
  import opened Utf8
  import opened JsonValue
  import opened JsonText

  datatype Token =
    | Eof
    | Invalid
    | Punct(c: Byte)
    | Str(s: seq<Byte>)
    | Int(i: int)
    | Real
    | TrueWord
    | FalseWord
    | NullWord

  /** A token and the bytes after it. */
  datatype Lexed = Lexed(token: Token, rest: seq<Byte>)

  // ----- strings

  /** The outcome of reading string contents up to the closing quote. */
  datatype Chars = Bad | Chars(s: seq<Byte>, rest: seq<Byte>)

  function Prepend(s: seq<Byte>, r: Chars): Chars {
    if r.Bad? then Bad else Chars(s + r.s, r.rest)
  }

  /** What a two-character escape stands for. */
  function Unescaped(c: Byte): Option<Byte> {
    if c == QUOTE || c == BACKSLASH || c == SLASH then Some(c)
    else if c == 0x62 then Some(0x08)
    else if c == 0x66 then Some(0x0C)
    else if c == 0x6E then Some(0x0A)
    else if c == 0x72 then Some(0x0D)
    else if c == 0x74 then Some(0x09)
    else None
  }

  function HexDigitValue(c: Byte): (d: nat)
    requires IsHex(c)
    ensures d < 16
  {
    if IsDigit(c) then c - 0x30 else if c >= 0x61 then c - 0x61 + 10 else c - 0x41 + 10
  }

  /** \uXXXX at the start of s. */
  predicate HexEscapeAt(s: seq<Byte>) {
    |s| >= 6 && s[0] == BACKSLASH && s[1] == LOWER_U && IsHex(s[2]) && IsHex(s[3]) && IsHex(s[4]) && IsHex(s[5])
  }

  /** `decode_unicode_escape` */
  function HexEscapeValue(s: seq<Byte>): (v: nat)
    requires HexEscapeAt(s)
    ensures v < 0x10000
  {
    ((HexDigitValue(s[2]) * 16 + HexDigitValue(s[3])) * 16 + HexDigitValue(s[4])) * 16 + HexDigitValue(s[5])
  }

  function Pair(high: nat, low: nat): (cp: nat)
    requires 0xD800 <= high <= 0xDBFF && 0xDC00 <= low <= 0xDFFF
    ensures 0x10000 <= cp <= 0x10FFFF
  {
    (high - 0xD800) * 1024 + (low - 0xDC00) + 0x10000
  }

  /** The code point of the escape(s) at the start of s and their length; 0 for an unpaired
      surrogate, and for \u0000, which is refused. */
  function EscapedCodePoint(s: seq<Byte>): (r: (nat, nat))
    requires HexEscapeAt(s)
    ensures r.0 != 0 ==> IsScalar(r.0) && 0 < r.1 <= |s|
  {
    var v := HexEscapeValue(s);
    if 0xD800 <= v <= 0xDBFF then
      if HexEscapeAt(s[6..]) && 0xDC00 <= HexEscapeValue(s[6..]) <= 0xDFFF
      then (Pair(v, HexEscapeValue(s[6..])), 12)
      else (0, 0)
    else if 0xDC00 <= v <= 0xDFFF then (0, 0)
    else (v, 6)
  }

  /** String contents from the start of s to the closing quote, unescaped. */
  function StringBody(s: seq<Byte>): (r: Chars)
    ensures r.Chars? ==> |r.rest| < |s|
  {
    if s == [] then Bad
    else if s[0] == QUOTE then Chars([], s[1..])
    else if s[0] == BACKSLASH then
      if |s| >= 2 && Unescaped(s[1]).Some? then Prepend([Unescaped(s[1]).value], StringBody(s[2..]))
      else if HexEscapeAt(s) && EscapedCodePoint(s).0 != 0 then
        Prepend(Encode(EscapedCodePoint(s).0), StringBody(s[EscapedCodePoint(s).1..]))
      else Bad
    else
      DecodeKinds(s);
      match Decode(s)
      case Ok(cp, n) => if cp < 0x20 then Bad else Prepend(s[..n], StringBody(s[n..]))
      case _ => Bad
  }

  // ----- numbers and words

  /** The number of leading digits. */
  function DigitRun(s: seq<Byte>): (n: nat)
    ensures n <= |s|
  {
    if s != [] && IsDigit(s[0]) then 1 + DigitRun(s[1..]) else 0
  }

  function AlphaRun(s: seq<Byte>): (n: nat)
    ensures n <= |s|
  {
    if s != [] && IsAlpha(s[0]) then 1 + AlphaRun(s[1..]) else 0
  }

  function DigitValue(c: Byte): (d: nat)
    requires IsDigit(c)
    ensures d < 10
  {
    c - 0x30
  }

  /** The value of a run of decimal digits. */
  function NatValue(s: seq<Byte>): nat
    requires forall i :: 0 <= i < |s| ==> IsDigit(s[i])
  {
    if s == [] then 0 else NatValue(s[..|s| - 1]) * 10 + DigitValue(s[|s| - 1])
  }

  lemma {:induction false} DigitRunDigits(s: seq<Byte>)
    ensures forall i :: 0 <= i < DigitRun(s) ==> IsDigit(s[i])
  {
    if s != [] && IsDigit(s[0]) {
      DigitRunDigits(s[1..]);
      assert forall i :: 0 < i < DigitRun(s) ==> s[i] == s[1..][i - 1];
    }
  }

  /** The character after a number or a word is put back, unless it is a NUL: the loader's
      one-character buffer ends at a NUL, so that one is lost. */
  function PutBack(s: seq<Byte>): (r: seq<Byte>)
    ensures |r| <= |s|
  {
    if s != [] && s[0] == 0 then s[1..] else s
  }

  /** `lex_scan_number` on digits with an optional sign already taken. */
  function LexDigits(negative: bool, s: seq<Byte>): (r: Lexed)
    ensures |r.rest| <= |s| && (r.token !in {Eof, Invalid} ==> |r.rest| < |s|)
  {
    var n := DigitRun(s);
    if n == 0 || (s[0] == 0x30 && n > 1) then Lexed(Invalid, s)
    else if n < |s| && s[n] in [0x2E, 0x65, 0x45] then Lexed(Real, s[n..])
    else
      DigitRunDigits(s);
      var v: int := if negative then -(NatValue(s[..n]) as int) else NatValue(s[..n]);
      if InInt64(v) then Lexed(Int(v), PutBack(s[n..])) else Lexed(Invalid, s)
  }

  predicate InInt64(v: int) {
    -0x8000_0000_0000_0000 <= v <= 0x7fff_ffff_ffff_ffff
  }

  function Word(s: seq<Byte>): Token {
    if s == TRUE_TEXT then TrueWord else if s == FALSE_TEXT then FalseWord else if s == NULL_TEXT then NullWord
    else Invalid
  }

  // ----- tokens

  function SkipSpace(s: seq<Byte>): (r: seq<Byte>)
    ensures |r| <= |s| && (r == [] || !IsSpace(r[0]))
  {
    if s != [] && IsSpace(s[0]) then SkipSpace(s[1..]) else s
  }

  predicate IsPunct(c: Byte) {
    c == LBRACE || c == RBRACE || c == LBRACKET || c == RBRACKET || c == COLON || c == COMMA
  }

  function LexAt(s: seq<Byte>): (r: Lexed)
    ensures |r.rest| <= |s| && (r.token !in {Eof, Invalid} ==> |r.rest| < |s|)
    ensures r.token.Punct? ==> IsPunct(r.token.c)
  {
    if s == [] then Lexed(Eof, [])
    else if IsPunct(s[0]) then Lexed(Punct(s[0]), s[1..])
    else if s[0] == QUOTE then
      var r := StringBody(s[1..]);
      if r.Bad? then Lexed(Invalid, s) else Lexed(Str(r.s), r.rest)
    else if s[0] == MINUS then LexDigits(true, s[1..])
    else if IsDigit(s[0]) then LexDigits(false, s)
    else if IsAlpha(s[0]) then
      var n := AlphaRun(s);
      Lexed(Word(s[..n]), PutBack(s[n..]))
    else Lexed(Invalid, s)
  }

  /** `lex_scan` */
  function Lex(s: seq<Byte>): (r: Lexed)
    ensures |r.rest| <= |s| && (r.token !in {Eof, Invalid} ==> |r.rest| < |s|)
    ensures r.token.Punct? ==> IsPunct(r.token.c)
  {
    LexAt(SkipSpace(s))
  }

  // ----- values

  datatype LoadFlags = LoadFlags(rejectDuplicates: bool, disableEofCheck: bool, decodeAny: bool)

  /** Failed, or met a number with a fraction or an exponent, or a value and the bytes after it. */
  datatype Parsed = Failed | HasReal | Parsed(value: Json, rest: seq<Byte>)

  function Weight(t: Token): nat {
    if t.Eof? || t.Invalid? then 0 else 1
  }

  /** `ph_var_object_set_claim_kv`: replace the value of a present key, or add a member. */
  function SetField(fs: seq<Field>, key: seq<Byte>, value: Json): seq<Field> {
    if fs == [] then [Field(key, value)]
    else if fs[0].key == key then [Field(key, value)] + fs[1..]
    else [fs[0]] + SetField(fs[1..], key, value)
  }

  /** `parse_value`, when t is the token last read and s the bytes after it. */
  function Value(t: Token, s: seq<Byte>, reject: bool): (r: Parsed)
    ensures r.Parsed? ==> |r.rest| <= |s|
    decreases |s| + Weight(t), 0
  {
    match t
    case Str(x) => Parsed(String(x), s)
    case Int(i) => Parsed(Integer(i), s)
    case Real => HasReal
    case TrueWord => Parsed(True, s)
    case FalseWord => Parsed(False, s)
    case NullWord => Parsed(Null, s)
    case Punct(c) =>
      var l := Lex(s);
      if c == LBRACE then
        if l.token == Punct(RBRACE) then Parsed(Object([]), l.rest) else Members(l.token, l.rest, [], reject)
      else if c == LBRACKET then
        if l.token == Punct(RBRACKET) then Parsed(Array([]), l.rest) else Elements(l.token, l.rest, [], reject)
      else Failed
    case _ => Failed
  }

  /** The loop of `parse_array`, with the elements read so far. */
  function Elements(t: Token, s: seq<Byte>, done: seq<Json>, reject: bool): (r: Parsed)
    ensures r.Parsed? ==> |r.rest| <= |s|
    decreases |s| + Weight(t), 1
  {
    if t == Eof then Failed
    else
      var e := Value(t, s, reject);
      if !e.Parsed? then e
      else
        var l := Lex(e.rest);
        if l.token == Punct(COMMA) then
          var m := Lex(l.rest);
          Elements(m.token, m.rest, done + [e.value], reject)
        else if l.token == Punct(RBRACKET) then Parsed(Array(done + [e.value]), l.rest)
        else Failed
  }

  /** The loop of `parse_object`, with the members read so far. */
  function Members(t: Token, s: seq<Byte>, done: seq<Field>, reject: bool): (r: Parsed)
    ensures r.Parsed? ==> |r.rest| <= |s|
    decreases |s| + Weight(t), 1
  {
    if !t.Str? || (reject && Get(done, t.s).Some?) then Failed
    else
      var colon := Lex(s);
      if colon.token != Punct(COLON) then Failed
      else
        var first := Lex(colon.rest);
        var e := Value(first.token, first.rest, reject);
        if !e.Parsed? then e
        else
          var l := Lex(e.rest);
          var fs := SetField(done, t.s, e.value);
          if l.token == Punct(COMMA) then
            var m := Lex(l.rest);
            Members(m.token, m.rest, fs, reject)
          else if l.token == Punct(RBRACE) then Parsed(Object(fs), l.rest)
          else Failed
  }

  /** `parse_json` */
  function Load(text: seq<Byte>, f: LoadFlags): Parsed {
    var l := Lex(text);
    if !f.decodeAny && l.token != Punct(LBRACKET) && l.token != Punct(LBRACE) then Failed
    else
      var r := Value(l.token, l.rest, f.rejectDuplicates);
      if r.Parsed? && !f.disableEofCheck && Lex(r.rest).token != Eof then Failed else r
  }
}

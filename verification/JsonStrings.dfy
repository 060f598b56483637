/** Strings, numbers and separators: what the printer writes, the lexer reads back. */
module JsonStrings {
  import opened Arith
  import opened Options
  import opened Utf8
  import opened JsonText
  import opened JsonGrammar

  // ----- escapes

  lemma HexDigitBack(d: nat)
    requires d < 16
    ensures IsHex(HexDigit(d)) && HexDigitValue(HexDigit(d)) == d
  {
  }

  lemma NibblesJoin(v: nat)
    requires v < 0x10000
    ensures v / 4096 < 16
    ensures ((v / 4096 * 16 + v / 256 % 16) * 16 + v / 16 % 16) * 16 + v % 16 == v
  {
    var a := v / 16;
    var b := a / 16;
    var c := b / 16;
    assert b == v / 256;
    assert c == v / 4096;
  }

  /** A hexadecimal escape is read back as the unit it was printed from. */
  lemma HexEscapeBack(v: nat, tail: seq<Byte>)
    requires v < 0x10000
    ensures HexEscapeAt(HexEscape(v) + tail) && HexEscapeValue(HexEscape(v) + tail) == v
    ensures (HexEscape(v) + tail)[6..] == tail
  {
    hide HexDigit, HexDigitValue, IsHex;
    NibblesJoin(v);
    HexDigitBack(v / 4096);
    HexDigitBack(v / 256 % 16);
    HexDigitBack(v / 16 % 16);
    HexDigitBack(v % 16);
  }

  lemma PairBack(cp: nat)
    requires 0x10000 <= cp <= 0x10FFFF
    ensures Pair(HighHalf(cp), LowHalf(cp)) == cp
  {
  }

  lemma ShortEscapeBack(cp: nat)
    requires ShortEscape(cp).Some?
    ensures cp < 0x80 && cp != 0 && Unescaped(ShortEscape(cp).value) == Some(cp)
  {
  }

  /** A UTF-8 sequence holds a NUL only if it is the NUL character. */
  lemma ZeroByte(cp: nat)
    requires IsScalar(cp)
    ensures 0 in Encode(cp) <==> cp == 0
  {
  }

  lemma PlainCharBack(cp: nat, f: DumpFlags, tail: seq<Byte>)
    requires IsScalar(cp) && !MustEscape(cp, f)
    ensures StringBody(Encode(cp) + tail) == Prepend(Encode(cp), StringBody(tail))
  {
    hide Decode, Encode;
    var s := Encode(cp) + tail;
    DecodeEncoded(cp, tail);
    if s[0] < 0x80 {
      DecodeAscii(s);
    }
    assert s[..|Encode(cp)|] == Encode(cp) && s[|Encode(cp)|..] == tail;
  }

  lemma LongCharBack(cp: nat, tail: seq<Byte>)
    requires 0x10000 <= cp <= 0x10FFFF
    ensures StringBody(HexEscape(HighHalf(cp)) + HexEscape(LowHalf(cp)) + tail) == Prepend(Encode(cp), StringBody(tail))
  {
    hide HexEscape, Decode, Encode, Pair, HighHalf, LowHalf, HexEscapeValue;
    var low := HexEscape(LowHalf(cp)) + tail;
    var s := HexEscape(HighHalf(cp)) + low;
    assert s == HexEscape(HighHalf(cp)) + HexEscape(LowHalf(cp)) + tail;
    HexEscapeBack(HighHalf(cp), low);
    HexEscapeBack(LowHalf(cp), tail);
    PairBack(cp);
    assert s[12..] == s[6..][6..];
  }

  lemma UnitCharBack(cp: nat, tail: seq<Byte>)
    requires cp < 0x10000 && IsScalar(cp)
    ensures StringBody(HexEscape(cp) + tail) == if cp == 0 then Bad else Prepend(Encode(cp), StringBody(tail))
  {
    hide HexEscape, Decode, Encode, HexEscapeValue;
    HexEscapeBack(cp, tail);
  }

  /** Each printed character is read back, except NUL, which is refused. */
  lemma CharBack(cp: nat, f: DumpFlags, tail: seq<Byte>)
    requires IsScalar(cp)
    ensures StringBody(CharText(cp, Encode(cp), f) + tail) ==
            if cp == 0 then Bad else Prepend(Encode(cp), StringBody(tail))
  {
    hide HexEscape, Decode, StringBody;
    if !MustEscape(cp, f) {
      PlainCharBack(cp, f, tail);
    } else if ShortEscape(cp).Some? {
      ShortEscapeBack(cp);
      ShortCharBack(cp, ShortEscape(cp).value, tail);
    } else if cp < 0x10000 {
      UnitCharBack(cp, tail);
    } else {
      LongCharBack(cp, tail);
    }
  }

  lemma ShortCharBack(cp: Byte, c: Byte, tail: seq<Byte>)
    requires cp < 0x80 && Unescaped(c) == Some(cp)
    ensures StringBody([BACKSLASH, c] + tail) == Prepend(Encode(cp), StringBody(tail))
  {
    var s := [BACKSLASH, c] + tail;
    assert s[2..] == tail;
  }

  /** A printed string is read back whole, unless it holds a NUL. */
  lemma {:induction false} StringBack(s: seq<Byte>, f: DumpFlags, tail: seq<Byte>)
    requires IsValid(s)
    ensures StringBody(CharsText(s, f) + [QUOTE] + tail) == if 0 in s then Bad else Chars(s, tail)
  {
    hide Decode, Encode, CharText;
    DecodeKinds(s);
    if s == [] {
      assert (CharsText(s, f) + [QUOTE] + tail)[1..] == tail;
    } else {
      DecodeIsGrammar(s, 0);
      EncodeDecoded(s);
      var cp, n := Decode(s).cp, Decode(s).len;
      ZeroByte(cp);
      assert s == s[..n] + s[n..];
      StringBack(s[n..], f, tail);
      CharBack(cp, f, CharsText(s[n..], f) + [QUOTE] + tail);
      StringStep(s, f, tail, n);
    }
  }

  lemma StringStep(s: seq<Byte>, f: DumpFlags, tail: seq<Byte>, n: nat)
    requires IsValid(s) && s != [] && Decode(s).Ok? && n == Decode(s).len && 1 <= n <= |s|
    requires IsScalar(Decode(s).cp) && IsValid(s[n..])
    ensures CharsText(s, f) + [QUOTE] + tail ==
            CharText(Decode(s).cp, s[..n], f) + (CharsText(s[n..], f) + [QUOTE] + tail)
  {
    hide Decode, CharText;
  }

  /** Strings the lexer delivers are valid UTF-8 without NULs. */
  lemma {:induction false} BodyIsText(s: seq<Byte>)
    requires StringBody(s).Chars?
    ensures IsValid(StringBody(s).s) && 0 !in StringBody(s).s
  {
    hide Decode, Encode, EscapedCodePoint;
    DecodeKinds([]);
    if s[0] == QUOTE {
    } else if s[0] == BACKSLASH {
      if |s| >= 2 && Unescaped(s[1]).Some? {
        BodyIsText(s[2..]);
        var c := Unescaped(s[1]).value;
        EncodeAscii(c);
        ExtendText(c, StringBody(s[2..]).s);
      } else {
        var e := EscapedCodePoint(s);
        BodyIsText(s[e.1..]);
        ExtendText(e.0, StringBody(s[e.1..]).s);
      }
    } else {
      DecodeKinds(s);
      EncodeDecoded(s);
      var n := Decode(s).len;
      DecodeIsGrammar(s, n);
      BodyIsText(s[n..]);
      ExtendText(Decode(s).cp, StringBody(s[n..]).s);
    }
  }

  lemma EncodeAscii(c: Byte)
    requires c < 0x80
    ensures Encode(c) == [c]
  {
  }

  lemma ExtendText(cp: nat, s: seq<Byte>)
    requires IsScalar(cp) && cp != 0 && IsValid(s) && 0 !in s
    ensures IsValid(Encode(cp) + s) && 0 !in Encode(cp) + s
  {
    hide Decode, Encode;
    DecodeEncoded(cp, s);
    ZeroByte(cp);
    assert (Encode(cp) + s)[|Encode(cp)|..] == s;
  }

  // ----- numbers

  lemma {:induction false} NatTextDigits(n: nat)
    ensures NatText(n) != [] && forall i :: 0 <= i < |NatText(n)| ==> IsDigit(NatText(n)[i])
    ensures NatText(n)[0] == 0x30 ==> n == 0
    ensures n < 10 ==> |NatText(n)| == 1
  {
    if n >= 10 {
      NatTextDigits(n / 10);
    }
  }

  /** Printing in decimal and reading back is the identity. */
  lemma {:induction false} NatTextBack(n: nat)
    requires forall i :: 0 <= i < |NatText(n)| ==> IsDigit(NatText(n)[i])
    ensures NatValue(NatText(n)) == n
  {
    if n < 10 {
      assert [0x30 + n][..0] == [];
    } else {
      var t := NatText(n);
      NatTextDigits(n / 10);
      NatTextBack(n / 10);
      assert t[..|t| - 1] == NatText(n / 10);
    }
  }

  /** A value may be followed by a separator, a closing bracket or the end of the text. */
  predicate Follows(tail: seq<Byte>) {
    tail == [] || tail[0] == COMMA || tail[0] == RBRACKET || tail[0] == RBRACE || tail[0] == NEWLINE
  }

  lemma {:induction false} DigitRunIs(s: seq<Byte>, tail: seq<Byte>)
    requires forall i :: 0 <= i < |s| ==> IsDigit(s[i])
    requires tail == [] || !IsDigit(tail[0])
    ensures DigitRun(s + tail) == |s|
  {
    if s == [] {
      assert s + tail == tail;
    } else {
      DigitRunIs(s[1..], tail);
      assert (s + tail)[1..] == s[1..] + tail;
    }
  }

  /** No digit, point or exponent follows. */
  predicate EndsNumber(tail: seq<Byte>) {
    tail == [] || (!IsDigit(tail[0]) && tail[0] !in [0x2E, 0x65, 0x45])
  }

  lemma LexDigitsBack(negative: bool, n: nat, tail: seq<Byte>)
    requires InInt64(if negative then -(n as int) else n) && EndsNumber(tail)
    ensures LexDigits(negative, NatText(n) + tail) == Lexed(Int(if negative then -(n as int) else n), PutBack(tail))
  {
    hide NatText, NatValue, DigitRun;
    var t := NatText(n);
    NatTextDigits(n);
    NatTextBack(n);
    DigitRunIs(t, tail);
    DigitRunDigits(t + tail);
    assert (t + tail)[..|t|] == t && (t + tail)[|t|..] == tail;
  }

  /** Every 64-bit integer is read back. */
  lemma IntegerBack(i: int, tail: seq<Byte>)
    requires InInt64(i) && EndsNumber(tail)
    ensures Lex(IntText(i) + tail) == Lexed(Int(i), PutBack(tail))
  {
    hide NatText, LexDigits;
    var n: nat := if i < 0 then -i else i;
    LexDigitsBack(i < 0, n, tail);
    NatTextDigits(n);
    var s := IntText(i) + tail;
    if i < 0 {
      assert s[1..] == NatText(n) + tail;
    }
    assert SkipSpace(s) == s;
  }

  // ----- words

  lemma {:induction false} AlphaRunIs(s: seq<Byte>, tail: seq<Byte>)
    requires forall i :: 0 <= i < |s| ==> IsAlpha(s[i])
    requires tail == [] || !IsAlpha(tail[0])
    ensures AlphaRun(s + tail) == |s|
  {
    if s == [] {
      assert s + tail == tail;
    } else {
      AlphaRunIs(s[1..], tail);
      assert (s + tail)[1..] == s[1..] + tail;
    }
  }

  lemma WordBack(w: seq<Byte>, tail: seq<Byte>)
    requires w == NULL_TEXT || w == TRUE_TEXT || w == FALSE_TEXT
    requires tail == [] || !IsAlpha(tail[0])
    ensures Lex(w + tail) == Lexed(Word(w), PutBack(tail))
  {
    hide AlphaRun;
    AlphaRunIs(w, tail);
    var s := w + tail;
    assert SkipSpace(s) == s;
    assert s[..|w|] == w && s[|w|..] == tail;
  }

  // ----- punctuation and white space

  lemma PunctBack(c: Byte, tail: seq<Byte>)
    requires IsPunct(c)
    ensures Lex([c] + tail) == Lexed(Punct(c), tail)
  {
    var s := [c] + tail;
    assert SkipSpace(s) == s;
    assert s[1..] == tail;
  }

  lemma {:induction false} SpacesSkipped(n: nat, tail: seq<Byte>)
    ensures SkipSpace(Spaces(n) + tail) == SkipSpace(tail)
  {
    if n == 0 {
      assert Spaces(n) + tail == tail;
    } else {
      SpacesSkipped(n - 1, tail);
      assert (Spaces(n) + tail)[1..] == Spaces(n - 1) + tail;
    }
  }

  /** Indentation is invisible to the lexer. */
  lemma IndentSkipped(f: DumpFlags, depth: nat, space: bool, tail: seq<Byte>)
    ensures Lex(Indent(f, depth, space) + tail) == Lex(tail)
  {
    hide LexAt, Spaces;
    var s := Indent(f, depth, space) + tail;
    if f.indent > 0 {
      MulNonneg(depth, f.indent);
      SpacesSkipped(depth * f.indent, tail);
      assert s[1..] == Spaces(depth * f.indent) + tail;
    } else if space && !f.compact {
      assert s[1..] == tail;
    } else {
      assert s == tail;
    }
  }

  // ----- a character the lexer loses

  /** A NUL right after a number or a word disappears, where a NUL before a token is refused. */
  lemma NulIsSwallowed(i: int, w: seq<Byte>, tail: seq<Byte>)
    requires InInt64(i) && (w == NULL_TEXT || w == TRUE_TEXT || w == FALSE_TEXT)
    ensures Lex(IntText(i) + [0] + tail) == Lexed(Int(i), tail)
    ensures Lex(w + [0] + tail) == Lexed(Word(w), tail)
    ensures Lex([0] + tail).token == Invalid
  {
    hide IntText, Lex;
    IntegerBack(i, [0] + tail);
    WordBack(w, [0] + tail);
    assert ([0] + tail)[1..] == tail;
    assert IntText(i) + [0] + tail == IntText(i) + ([0] + tail);
    assert w + [0] + tail == w + ([0] + tail);
    NulIsInvalid(tail);
  }

  lemma NulIsInvalid(tail: seq<Byte>)
    ensures Lex([0] + tail).token == Invalid
  {
    assert SkipSpace([0] + tail) == [0] + tail;
  }

  /** r is what follows the first k bytes of s, and none of those is a NUL. */
  ghost predicate Passed(s: seq<Byte>, k: nat, r: seq<Byte>) {
    k <= |s| && r == s[k..] && 0 !in s[..k]
  }

  lemma PassedMore(s: seq<Byte>, j: nat, k: nat, r: seq<Byte>)
    requires j <= |s| && 0 !in s[..j] && Passed(s[j..], k, r)
    ensures Passed(s, j + k, r)
  {
    assert s[j..][k..] == s[j + k..];
    assert s[..j + k] == s[..j] + s[j..][..k];
  }

  lemma {:induction false} SpacePassed(s: seq<Byte>) returns (k: nat)
    ensures Passed(s, k, SkipSpace(s))
  {
    k := 0;
    if s != [] && IsSpace(s[0]) {
      k := SpacePassed(s[1..]);
      assert s[..1] == [s[0]];
      PassedMore(s, 1, k, SkipSpace(s));
      k := k + 1;
    }
  }

  lemma EscapePassed(s: seq<Byte>)
    requires HexEscapeAt(s) && EscapedCodePoint(s).0 != 0
    ensures EscapedCodePoint(s).1 <= |s| && 0 !in s[..EscapedCodePoint(s).1]
  {
    hide HexEscapeValue;
    HexNonzero(s);
    if EscapedCodePoint(s).1 == 12 {
      HexNonzero(s[6..]);
      assert s[..12] == s[..6] + s[6..][..6];
    }
  }

  lemma HexNonzero(s: seq<Byte>)
    requires HexEscapeAt(s)
    ensures 0 !in s[..6]
  {
    assert s[..6] == [s[0], s[1], s[2], s[3], s[4], s[5]];
  }

  /** No NUL is passed over within a string. */
  lemma {:induction false} BodyPassed(s: seq<Byte>) returns (k: nat)
    requires StringBody(s).Chars?
    ensures Passed(s, k, StringBody(s).rest)
  {
    hide Decode, Encode, EscapedCodePoint, HexEscapeAt;
    if s[0] == QUOTE {
      assert s[..1] == [s[0]];
      return 1;
    }
    var n;
    if s[0] == BACKSLASH {
      if |s| >= 2 && Unescaped(s[1]).Some? {
        n := 2;
        assert s[..2] == [s[0], s[1]];
      } else {
        n := EscapedCodePoint(s).1;
        EscapePassed(s);
      }
    } else {
      DecodeKinds(s);
      EncodeDecoded(s);
      n := Decode(s).len;
      DecodeIsGrammar(s, n);
      ZeroByte(Decode(s).cp);
    }
    k := BodyPassed(s[n..]);
    PassedMore(s, n, k, StringBody(s).rest);
    k := n + k;
  }

  lemma {:induction false} AlphaRunAlpha(s: seq<Byte>)
    ensures forall i :: 0 <= i < AlphaRun(s) ==> IsAlpha(s[i])
  {
    if s != [] && IsAlpha(s[0]) {
      AlphaRunAlpha(s[1..]);
      assert forall i :: 0 < i < AlphaRun(s) ==> s[i] == s[1..][i - 1];
    }
  }

  predicate IsNumberOrWord(t: Token) {
    t.Int? || t.TrueWord? || t.FalseWord? || t.NullWord?
  }

  /** A token of s takes n bytes, of which only the last can be a NUL, after a number or word. */
  ghost predicate Takes(s: seq<Byte>, n: nat, l: Lexed) {
    && 0 < n <= |s| && l.rest == s[n..] && 0 !in s[..n - 1]
    && (s[n - 1] == 0 ==> IsNumberOrWord(l.token))
  }

  lemma TakesPut(s: seq<Byte>, m: nat, l: Lexed) returns (n: nat)
    requires 0 < m <= |s| && 0 !in s[..m] && l.rest == PutBack(s[m..]) && IsNumberOrWord(l.token)
    ensures Takes(s, n, l)
  {
    n := m;
    if m < |s| && s[m] == 0 {
      n := m + 1;
      assert s[m..][1..] == s[m + 1..];
    }
  }

  lemma TakesPassed(s: seq<Byte>, n: nat, l: Lexed)
    requires 0 < n && Passed(s, n, l.rest)
    ensures Takes(s, n, l)
  {
    assert s[n - 1] in s[..n];
    assert forall i :: 0 <= i < n - 1 ==> s[..n - 1][i] == s[..n][i];
  }

  lemma DigitsTaken(negative: bool, s: seq<Byte>) returns (n: nat)
    requires LexDigits(negative, s).token.Int?
    ensures Takes(s, n, LexDigits(negative, s))
  {
    hide NatValue;
    DigitRunDigits(s);
    n := TakesPut(s, DigitRun(s), LexDigits(negative, s));
  }

  lemma WordTaken(s: seq<Byte>) returns (n: nat)
    requires s != [] && IsAlpha(s[0]) && IsNumberOrWord(Word(s[..AlphaRun(s)]))
    ensures Takes(s, n, Lexed(Word(s[..AlphaRun(s)]), PutBack(s[AlphaRun(s)..])))
  {
    AlphaRunAlpha(s);
    n := TakesPut(s, AlphaRun(s), Lexed(Word(s[..AlphaRun(s)]), PutBack(s[AlphaRun(s)..])));
  }

  lemma TokenTaken(s: seq<Byte>) returns (n: nat)
    requires !LexAt(s).token.Eof? && !LexAt(s).token.Invalid? && !LexAt(s).token.Real?
    ensures Takes(s, n, LexAt(s))
  {
    hide StringBody, LexDigits, AlphaRun, Takes;
    if IsPunct(s[0]) {
      assert s[..1] == [s[0]];
      TakesPassed(s, 1, LexAt(s));
      n := 1;
    } else if s[0] == QUOTE {
      n := BodyPassed(s[1..]);
      assert s[..1] == [s[0]];
      PassedMore(s, 1, n, LexAt(s).rest);
      n := n + 1;
      TakesPassed(s, n, LexAt(s));
    } else if s[0] == MINUS {
      DigitsKinds(true, s[1..]);
      n := DigitsTaken(true, s[1..]);
      assert s[..1] == [s[0]];
      TakesMore(s, 1, n, LexAt(s));
      n := n + 1;
    } else if IsDigit(s[0]) {
      DigitsKinds(false, s);
      n := DigitsTaken(false, s);
    } else {
      n := WordTaken(s);
    }
  }

  lemma DigitsKinds(negative: bool, s: seq<Byte>)
    ensures var t := LexDigits(negative, s).token; t.Invalid? || t.Real? || t.Int?
  {
  }

  lemma TakesMore(s: seq<Byte>, j: nat, n: nat, l: Lexed)
    requires j <= |s| && 0 !in s[..j] && Takes(s[j..], n, l)
    ensures Takes(s, j + n, l)
  {
    assert s[j..][n..] == s[j + n..];
    assert s[..j + n - 1] == s[..j] + s[j..][..n - 1];
  }

  /** Exactly when the lexer loses a NUL: of the bytes a token uses up, one is a NUL if and
      only if the token is a number or a word and the NUL is the last of them. */
  lemma NulLostIff(s: seq<Byte>)
    requires !Lex(s).token.Eof? && !Lex(s).token.Invalid? && !Lex(s).token.Real?
    ensures var l := Lex(s);
            var n := |s| - |l.rest|;
            && 0 < n && l.rest == s[n..]
            && (0 in s[..n] <==> IsNumberOrWord(l.token) && s[n - 1] == 0)
            && 0 !in s[..n - 1]
  {
    hide LexAt, SkipSpace;
    var k := SpacePassed(s);
    var n := TokenTaken(SkipSpace(s));
    TakesMore(s, k, n, Lex(s));
    assert s[..k + n] == s[..k + n - 1] + [s[k + n - 1]];
  }
}

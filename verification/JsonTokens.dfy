/** Tokens of RFC 8259: the lexer reads each as written, and whatever it delivers was so written. */
module JsonTokens {
  import opened Options
  import opened Utf8
  import opened JsonValue
  import JsonText
  import G = JsonGrammar
  import JsonStrings
  import opened JsonSyntax

  // ----- escapes

  lemma HexCharRead(h: Hex)
    requires h.value < 16
    ensures JsonText.IsHex(HexChar(h)) && G.HexDigitValue(HexChar(h)) == h.value
  {
  }

  /** The digit a character was written for. */
  lemma HexCharWritten(c: Byte) returns (h: Hex)
    requires JsonText.IsHex(c)
    ensures h.value < 16 && HexChar(h) == c && h.value == G.HexDigitValue(c)
  {
    h := Hex(G.HexDigitValue(c), 0x41 <= c <= 0x46);
  }

  /** An escape reads as the base-16 number of its four digits. */
  lemma UnitRead(u: Unit, tail: seq<Byte>)
    requires u.Valid()
    ensures G.HexEscapeAt(u.Text() + tail) && G.HexEscapeValue(u.Text() + tail) == u.Value()
    ensures (u.Text() + tail)[6..] == tail
  {
    hide HexChar, G.HexDigitValue, JsonText.IsHex;
    HexCharRead(u.a);
    HexCharRead(u.b);
    HexCharRead(u.c);
    HexCharRead(u.d);
  }

  lemma UnitWritten(s: seq<Byte>) returns (u: Unit)
    requires G.HexEscapeAt(s)
    ensures u.Valid() && s == u.Text() + s[6..] && u.Value() == G.HexEscapeValue(s)
  {
    hide HexChar, G.HexDigitValue, JsonText.IsHex;
    var a := HexCharWritten(s[2]);
    var b := HexCharWritten(s[3]);
    var c := HexCharWritten(s[4]);
    var d := HexCharWritten(s[5]);
    u := Unit(a, b, c, d);
    assert s[..6] == u.Text();
    assert s == s[..6] + s[6..];
  }

  lemma ShortRead(letter: Byte, cp: nat)
    requires (letter, cp) in SHORT
    ensures cp < 0x80 && G.Unescaped(letter) == Some(cp)
  {
  }

  lemma ShortWritten(letter: Byte)
    requires G.Unescaped(letter).Some?
    ensures (letter, G.Unescaped(letter).value as nat) in SHORT && G.Unescaped(letter).value < 0x80
  {
    var i := if letter == 0x22 then 0 else if letter == 0x5C then 1 else if letter == 0x2F then 2
             else if letter == 0x62 then 3 else if letter == 0x66 then 4 else if letter == 0x6E then 5
             else if letter == 0x72 then 6 else 7;
    assert SHORT[i] == (letter, G.Unescaped(letter).value as nat);
  }

  // ----- strings

  lemma EscapeRead(u: Unit, tail: seq<Byte>)
    requires ItemOk(Escape(u))
    ensures G.StringBody(u.Text() + tail) == G.Prepend(Encode(u.Value()), G.StringBody(tail))
  {
    hide Encode, Decode, G.HexEscapeValue, Unit.Value, HexChar;
    UnitRead(u, tail);
  }

  lemma SurrogatesRead(high: Unit, low: Unit, tail: seq<Byte>)
    requires ItemOk(Surrogates(high, low))
    ensures G.StringBody(high.Text() + low.Text() + tail) ==
            G.Prepend(Encode(CodePoint(Surrogates(high, low))), G.StringBody(tail))
  {
    hide Encode, Decode, G.HexEscapeValue, Unit.Value, HexChar;
    var s := high.Text() + (low.Text() + tail);
    assert s == high.Text() + low.Text() + tail;
    UnitRead(high, low.Text() + tail);
    UnitRead(low, tail);
    assert s[12..] == s[6..][6..];
  }

  lemma ItemRead(x: Item, tail: seq<Byte>)
    requires ItemOk(x)
    ensures G.StringBody(ItemText(x) + tail) == G.Prepend(Encode(CodePoint(x)), G.StringBody(tail))
  {
    hide Encode, Decode, G.StringBody, Unit.Value, HexChar;
    match x {
      case Plain(cp) => JsonStrings.PlainCharBack(cp, JsonText.DumpFlags(0, false, false, false, false), tail);
      case Short(letter, cp) =>
        ShortRead(letter, cp);
        JsonStrings.ShortCharBack(cp, letter, tail);
      case Escape(u) => EscapeRead(u, tail);
      case Surrogates(high, low) => SurrogatesRead(high, low, tail);
    }
  }

  /** The contents of a string are read as the string they denote. */
  lemma {:induction false} ItemsRead(items: seq<Item>, tail: seq<Byte>)
    requires ItemsOk(items)
    ensures G.StringBody(ItemsText(items, [0x22] + tail)) == G.Chars(ItemsBytes(items), tail)
  {
    hide Encode, Decode, ItemText, CodePoint;
    if items == [] {
      assert ([0x22] + tail)[1..] == tail;
    } else {
      ItemsRead(items[1..], tail);
      ItemRead(items[0], ItemsText(items[1..], [0x22] + tail));
    }
  }

  /** The first character of a string that is read, as it was written. */
  lemma ItemWritten(s: seq<Byte>) returns (x: Item, n: nat)
    requires G.StringBody(s).Chars? && s[0] != 0x22
    ensures ItemOk(x) && 0 < n <= |s| && s == ItemText(x) + s[n..]
    ensures G.StringBody(s) == G.Prepend(Encode(CodePoint(x)), G.StringBody(s[n..]))
  {
    hide Encode, Decode, G.HexEscapeValue, Unit.Value, Unit.Text, HexChar;
    if s[0] == 0x5C {
      if |s| >= 2 && G.Unescaped(s[1]).Some? {
        ShortWritten(s[1]);
        x, n := Short(s[1], G.Unescaped(s[1]).value), 2;
        JsonStrings.EncodeAscii(G.Unescaped(s[1]).value);
        assert s[..2] == ItemText(x);
        assert s == s[..2] + s[2..];
      } else {
        var u := UnitWritten(s);
        if G.EscapedCodePoint(s).1 == 12 {
          var low := UnitWritten(s[6..]);
          x, n := Surrogates(u, low), 12;
          assert s[6..][6..] == s[12..];
          assert s == u.Text() + low.Text() + s[12..];
        } else {
          x, n := Escape(u), 6;
        }
      }
    } else {
      DecodeKinds(s);
      EncodeDecoded(s);
      n := Decode(s).len;
      DecodeIsGrammar(s, n);
      x := Plain(Decode(s).cp);
      assert s == s[..n] + s[n..];
      if s[0] < 0x80 {
        DecodeAscii(s);
      } else {
        NotAscii(s);
      }
    }
  }

  lemma NotAscii(s: seq<Byte>)
    requires s != [] && s[0] >= 0x80 && Decode(s).Ok?
    ensures Decode(s).cp >= 0x80
  {
    hide Decode, Encode;
    EncodeDecoded(s);
    DecodeKinds(s);
    if Decode(s).cp < 0x80 {
      JsonStrings.EncodeAscii(Decode(s).cp);
    }
  }

  /** What is read as a string was written as one. */
  lemma {:induction false} ItemsWritten(s: seq<Byte>) returns (items: seq<Item>)
    requires G.StringBody(s).Chars?
    ensures ItemsOk(items) && s == ItemsText(items, [0x22] + G.StringBody(s).rest)
    ensures ItemsBytes(items) == G.StringBody(s).s
  {
    hide Encode, Decode, ItemText, CodePoint;
    if s[0] == 0x22 {
      items := [];
      assert s == [0x22] + s[1..];
    } else {
      var x, n := ItemWritten(s);
      var more := ItemsWritten(s[n..]);
      items := [x] + more;
      assert items[1..] == more;
    }
  }

  // ----- white space

  lemma {:induction false} WsRead(ws: seq<Byte>, tail: seq<Byte>)
    requires Ws(ws)
    ensures G.SkipSpace(ws + tail) == G.SkipSpace(tail) && G.Lex(ws + tail) == G.Lex(tail)
  {
    hide G.LexAt;
    if ws == [] {
      assert ws + tail == tail;
    } else {
      WsRead(ws[1..], tail);
      assert (ws + tail)[1..] == ws[1..] + tail;
    }
  }

  lemma {:induction false} WsWritten(s: seq<Byte>) returns (ws: seq<Byte>)
    ensures Ws(ws) && s == ws + G.SkipSpace(s)
  {
    ws := [];
    if s != [] && JsonText.IsSpace(s[0]) {
      ws := WsWritten(s[1..]);
      ws := [s[0]] + ws;
    }
  }

  // ----- numbers

  lemma {:induction false} DecimalRead(ds: seq<nat>)
    requires forall i :: 0 <= i < |ds| ==> ds[i] < 10
    requires forall i :: 0 <= i < |DigitsText(ds)| ==> JsonText.IsDigit(DigitsText(ds)[i])
    ensures G.NatValue(DigitsText(ds)) == Decimal(ds)
  {
    if ds != [] {
      var n := |ds| - 1;
      assert DigitsText(ds)[..n] == DigitsText(ds[..n]);
      DecimalRead(ds[..n]);
    }
  }

  lemma NulPutBack(nul: bool, tail: seq<Byte>)
    requires !nul ==> tail == [] || tail[0] != 0
    ensures G.PutBack(Nul(nul, tail)) == tail
  {
    assert ([0] + tail)[1..] == tail;
  }

  lemma DigitsRead(negative: bool, ds: seq<nat>, nul: bool, tail: seq<Byte>)
    requires DigitsOk(ds) && G.InInt64(Signed(negative, Decimal(ds))) && (!nul ==> EndsInteger(tail))
    ensures G.LexDigits(negative, DigitsText(ds) + Nul(nul, tail)) ==
            G.Lexed(G.Int(Signed(negative, Decimal(ds))), tail)
  {
    hide G.NatValue, G.DigitRun, Decimal, G.PutBack;
    var t := DigitsText(ds);
    var s := t + Nul(nul, tail);
    JsonStrings.DigitRunIs(t, Nul(nul, tail));
    G.DigitRunDigits(s);
    assert s[..|t|] == t && s[|t|..] == Nul(nul, tail);
    DecimalRead(ds);
    NulPutBack(nul, tail);
  }

  lemma NumRead(negative: bool, ds: seq<nat>, nul: bool, tail: seq<Byte>)
    requires TreeOk(Num(negative, ds, nul), false) && (!nul ==> EndsInteger(tail))
    ensures G.Lex(TreeText(Num(negative, ds, nul), tail)) == G.Lexed(G.Int(Signed(negative, Decimal(ds))), tail)
  {
    hide G.LexDigits, Decimal;
    DigitsRead(negative, ds, nul, tail);
    var t := DigitsText(ds) + Nul(nul, tail);
    var s := TreeText(Num(negative, ds, nul), tail);
    if negative {
      assert s[1..] == t;
    } else {
      assert s == t;
    }
    assert G.SkipSpace(s) == s;
  }

  lemma DigitsWritten(negative: bool, s: seq<Byte>) returns (ds: seq<nat>, nul: bool)
    requires G.LexDigits(negative, s).token.Int?
    ensures DigitsOk(ds) && G.LexDigits(negative, s).token == G.Int(Signed(negative, Decimal(ds)))
    ensures s == DigitsText(ds) + Nul(nul, G.LexDigits(negative, s).rest)
    ensures !nul ==> EndsInteger(G.LexDigits(negative, s).rest)
    ensures G.InInt64(Signed(negative, Decimal(ds)))
  {
    hide G.NatValue, Decimal;
    var n := G.DigitRun(s);
    G.DigitRunDigits(s);
    RunEnds(s);
    ds := seq(n, i requires 0 <= i < n => s[i] - 0x30);
    assert DigitsText(ds) == s[..n];
    DecimalRead(ds);
    nul := n < |s| && s[n] == 0;
    assert s == s[..n] + s[n..];
    if nul {
      assert s[n..] == [0] + s[n..][1..];
    }
  }

  lemma {:induction false} RunEnds(s: seq<Byte>)
    ensures G.DigitRun(s) < |s| ==> !JsonText.IsDigit(s[G.DigitRun(s)])
    ensures G.AlphaRun(s) < |s| ==> !JsonText.IsAlpha(s[G.AlphaRun(s)])
  {
    if s != [] {
      RunEnds(s[1..]);
    }
  }

  // ----- literals

  function Denoted(l: Literal): G.Token {
    match l
    case LNull => G.NullWord
    case LTrue => G.TrueWord
    case LFalse => G.FalseWord
  }

  lemma WordRead(l: Literal, nul: bool, tail: seq<Byte>)
    requires !nul ==> EndsWord(tail)
    ensures G.Lex(TreeText(Word(l, nul), tail)) == G.Lexed(Denoted(l), tail)
  {
    hide G.Lex, G.PutBack;
    NulPutBack(nul, tail);
    JsonStrings.WordBack(LiteralText(l), Nul(nul, tail));
  }

  lemma WordWritten(s: seq<Byte>) returns (l: Literal, nul: bool)
    requires s != [] && JsonText.IsAlpha(s[0]) && !G.Word(s[..G.AlphaRun(s)]).Invalid?
    ensures G.Word(s[..G.AlphaRun(s)]) == Denoted(l)
    ensures var rest := G.PutBack(s[G.AlphaRun(s)..]);
            s == LiteralText(l) + Nul(nul, rest) && (!nul ==> EndsWord(rest))
  {
    var n := G.AlphaRun(s);
    RunEnds(s);
    l := if G.Word(s[..n]).NullWord? then LNull else if G.Word(s[..n]).TrueWord? then LTrue else LFalse;
    nul := n < |s| && s[n] == 0;
    assert s == s[..n] + s[n..];
    if nul {
      assert s[n..] == [0] + s[n..][1..];
    }
  }

  // ----- tokens

  lemma PunctRead(c: Byte, tail: seq<Byte>)
    requires c == 0x7B || c == 0x7D || c == 0x5B || c == 0x5D || c == 0x3A || c == 0x2C
    ensures G.Lex([c] + tail) == G.Lexed(G.Punct(c), tail)
  {
    JsonStrings.PunctBack(c, tail);
  }

  lemma StringRead(items: seq<Item>, tail: seq<Byte>)
    requires ItemsOk(items)
    ensures G.Lex([0x22] + ItemsText(items, [0x22] + tail)) == G.Lexed(G.Str(ItemsBytes(items)), tail)
  {
    hide ItemsText, G.StringBody;
    ItemsRead(items, tail);
    var s := [0x22] + ItemsText(items, [0x22] + tail);
    assert G.SkipSpace(s) == s;
    assert s[1..] == ItemsText(items, [0x22] + tail);
  }

  /** What a token other than punctuation was written as. */
  lemma LeafWritten(s: seq<Byte>) returns (ws: seq<Byte>, t: Tree)
    requires var k := G.Lex(s).token; k.Str? || k.Int? || k.TrueWord? || k.FalseWord? || k.NullWord?
    ensures Ws(ws) && TreeOk(t, false) && !t.List? && !t.Dict? && Ends(t, G.Lex(s).rest)
    ensures s == ws + TreeText(t, G.Lex(s).rest)
    ensures match t
            case Word(l, _) => G.Lex(s).token == Denoted(l)
            case Num(negative, ds, _) => G.Lex(s).token == G.Int(Signed(negative, Decimal(ds)))
            case Quoted(items) => G.Lex(s).token == G.Str(ItemsBytes(items))
            case _ => false
  {
    hide G.SkipSpace, G.StringBody, G.LexDigits, G.AlphaRun, G.Word, G.PutBack, DigitsOk, ItemsText;
    hide Decimal, ItemsBytes;
    ws := WsWritten(s);
    var r := G.SkipSpace(s);
    if r[0] == 0x22 {
      var items := ItemsWritten(r[1..]);
      t := Quoted(items);
      assert r == [0x22] + r[1..];
    } else if r[0] == 0x2D {
      JsonStrings.DigitsKinds(true, r[1..]);
      var ds, nul := DigitsWritten(true, r[1..]);
      t := Num(true, ds, nul);
      assert r == [0x2D] + r[1..];
    } else if JsonText.IsDigit(r[0]) {
      JsonStrings.DigitsKinds(false, r);
      var ds, nul := DigitsWritten(false, r);
      t := Num(false, ds, nul);
      assert r == [] + r;
    } else {
      var l, nul := WordWritten(r);
      t := Word(l, nul);
    }
  }

  lemma PunctWritten(s: seq<Byte>) returns (ws: seq<Byte>)
    requires G.Lex(s).token.Punct?
    ensures Ws(ws) && s == ws + ([G.Lex(s).token.c] + G.Lex(s).rest)
    ensures G.IsPunct(G.Lex(s).token.c)
  {
    hide G.SkipSpace, G.StringBody, G.AlphaRun;
    ws := WsWritten(s);
    var r := G.SkipSpace(s);
    TokenOfDigits(true, if r != [] then r[1..] else []);
    TokenOfDigits(false, r);
    assert r == [r[0]] + r[1..];
  }

  lemma TokenOfDigits(negative: bool, s: seq<Byte>)
    ensures !G.LexDigits(negative, s).token.Punct?
  {
  }
}

/** What the ASCII flag of the printer promises. */
module JsonAscii {
  import opened Arith
  import opened Options
  import opened Utf8
  import opened JsonValue
  import opened JsonText

  predicate Ascii(s: seq<Byte>) {
    forall i :: 0 <= i < |s| ==> s[i] < 0x80
  }

  lemma {:induction false} SpacesAscii(n: nat)
    ensures Ascii(Spaces(n))
  {
    if n > 0 {
      SpacesAscii(n - 1);
    }
  }

  lemma IndentAscii(f: DumpFlags, depth: nat, space: bool)
    ensures Ascii(Indent(f, depth, space))
  {
    if f.indent > 0 {
      MulNonneg(depth, f.indent);
      SpacesAscii(depth * f.indent);
    }
  }

  lemma {:induction false} NatAscii(n: nat)
    ensures Ascii(NatText(n))
  {
    if n >= 10 {
      NatAscii(n / 10);
    }
  }

  lemma HexAscii(v: nat)
    requires v < 0x10000
    ensures Ascii(HexEscape(v))
  {
  }

  lemma CharAscii(cp: nat, f: DumpFlags)
    requires IsScalar(cp) && f.ensureAscii
    ensures Ascii(CharText(cp, Encode(cp), f))
  {
    hide HexEscape;
    if MustEscape(cp, f) && ShortEscape(cp).None? {
      if cp < 0x10000 {
        HexAscii(cp);
      } else {
        HexAscii(HighHalf(cp));
        HexAscii(LowHalf(cp));
      }
    }
  }

  lemma {:induction false} CharsAscii(s: seq<Byte>, f: DumpFlags)
    requires IsValid(s) && f.ensureAscii
    ensures Ascii(CharsText(s, f))
  {
    hide Decode, Encode, CharText;
    DecodeKinds(s);
    if s != [] {
      var n := Decode(s).len;
      DecodeIsGrammar(s, n);
      EncodeDecoded(s);
      CharAscii(Decode(s).cp, f);
      CharsAscii(s[n..], f);
    }
  }

  /** With the flag set, every byte printed is ASCII, whatever the strings hold. */
  lemma {:induction false} TextAscii(v: Json, f: DumpFlags, depth: nat)
    requires Printable(v) && f.ensureAscii
    ensures Ascii(Text(v, f, depth))
    decreases Size(v), 0
  {
    hide CharsText, Indent, ElemsText, FieldsText, NatText, PrintOrder;
    match v {
      case String(s) => CharsAscii(s, f);
      case Integer(i) => NatAscii(if i < 0 then -i else i);
      case Array(es) =>
        IndentAscii(f, depth + 1, false);
        ElemsAscii(es, f, depth);
      case Object(fs) =>
        IndentAscii(f, depth + 1, false);
        OrderKeepsSize(fs, f);
        FieldsAscii(PrintOrder(fs, f), f, depth + 1);
      case _ =>
    }
  }

  lemma {:induction false} ElemsAscii(es: seq<Json>, f: DumpFlags, depth: nat)
    requires f.ensureAscii && forall i :: 0 <= i < |es| ==> Printable(es[i])
    ensures Ascii(ElemsText(es, f, depth))
    decreases ElemsSize(es), 1
  {
    hide Text, Indent;
    if es != [] {
      TextAscii(es[0], f, depth + 1);
      IndentAscii(f, depth + 1, true);
      IndentAscii(f, depth, false);
      ElemsAscii(es[1..], f, depth);
    }
  }

  lemma {:induction false} FieldsAscii(fs: seq<Field>, f: DumpFlags, depth: nat)
    requires f.ensureAscii && forall i :: 0 <= i < |fs| ==> IsValid(fs[i].key) && Printable(fs[i].value)
    ensures Ascii(FieldsText(fs, f, depth))
    decreases FieldsSize(fs), 1
  {
    hide Text, Indent, CharsText;
    if fs != [] {
      CharsAscii(fs[0].key, f);
      TextAscii(fs[0].value, f, depth + 1);
      IndentAscii(f, depth + 1, true);
      IndentAscii(f, depth, false);
      FieldsAscii(fs[1..], f, depth);
    }
  }
}

/** What the layout flags of the printer promise: one line, or lines indented by nesting. */
module JsonLayout {
  import opened Arith
  import opened Options
  import opened Utf8
  import opened JsonValue
  import opened JsonText

  // ----- the layout the header describes

  /** A new line, indented for the nesting depth. */
  function Line(indent: nat, depth: nat): (s: seq<Byte>)
    ensures |s| == 1 + depth * indent
  {
    MulNonneg(depth, indent);
    [0x0A] + seq(depth * indent, i => 0x20)
  }

  /** After an opening bracket and before a closing one. */
  function Edge(f: DumpFlags, depth: nat): seq<Byte> {
    if f.indent > 0 then Line(f.indent, depth) else []
  }

  /** Between elements or members. */
  function Between(f: DumpFlags, depth: nat): seq<Byte> {
    [0x2C] + if f.indent > 0 then Line(f.indent, depth) else if f.compact then [] else [0x20]
  }

  /** Between a key and its value. */
  function AfterKey(f: DumpFlags): seq<Byte> {
    if f.compact then [0x3A] else [0x3A, 0x20]
  }

  /** A value, its brackets at nesting depth `depth` and what is in them one deeper. */
  function Layout(v: Json, f: DumpFlags, depth: nat): seq<Byte>
    requires Printable(v)
    decreases Size(v), 0
  {
    match v
    case Null => NULL_TEXT
    case True => TRUE_TEXT
    case False => FALSE_TEXT
    case Integer(i) => IntText(i)
    case String(s) => StringText(s, f)
    case Array(es) =>
      if es == [] then [0x5B, 0x5D]
      else [0x5B] + Edge(f, depth + 1) + ElemsLayout(es, f, depth + 1) + Edge(f, depth) + [0x5D]
    case Object(fs) =>
      if fs == [] then [0x7B, 0x7D]
      else
        OrderKeepsSize(fs, f);
        [0x7B] + Edge(f, depth + 1) + FieldsLayout(PrintOrder(fs, f), f, depth + 1) + Edge(f, depth) + [0x7D]
  }

  function ElemsLayout(es: seq<Json>, f: DumpFlags, depth: nat): seq<Byte>
    requires es != [] && forall i :: 0 <= i < |es| ==> Printable(es[i])
    decreases ElemsSize(es), 1
  {
    Layout(es[0], f, depth) + if |es| == 1 then [] else Between(f, depth) + ElemsLayout(es[1..], f, depth)
  }

  function FieldsLayout(fs: seq<Field>, f: DumpFlags, depth: nat): seq<Byte>
    requires fs != [] && forall i :: 0 <= i < |fs| ==> IsValid(fs[i].key) && Printable(fs[i].value)
    decreases FieldsSize(fs), 1
  {
    StringText(fs[0].key, f) + AfterKey(f) + Layout(fs[0].value, f, depth)
    + if |fs| == 1 then [] else Between(f, depth) + FieldsLayout(fs[1..], f, depth)
  }

  /** No object in the value has members. */
  predicate NoMembers(v: Json) {
    match v
    case Array(es) => forall i :: 0 <= i < |es| ==> NoMembers(es[i])
    case Object(fs) => fs == []
    case _ => true
  }

  // ----- pieces

  lemma {:induction false} SpacesAre(n: nat)
    ensures Spaces(n) == seq(n, i => 0x20)
  {
    if n > 0 {
      SpacesAre(n - 1);
    }
  }

  lemma IndentIs(f: DumpFlags, depth: nat)
    ensures Indent(f, depth, false) == Edge(f, depth) && [COMMA] + Indent(f, depth, true) == Between(f, depth)
  {
    if f.indent > 0 {
      MulNonneg(depth, f.indent);
      SpacesAre(depth * f.indent);
    }
  }

  /** Deeper lines are longer. */
  lemma Deeper(f: DumpFlags, d: nat, e: nat)
    requires f.indent > 0 && e <= d
    ensures |Edge(f, e)| <= |Edge(f, d)| && |Between(f, e)| <= |Between(f, d)|
    ensures e < d ==> |Edge(f, e)| < |Edge(f, d)|
  {
    MulMonotone(e, d, f.indent);
    if e < d {
      MulMonotone(e + 1, d, f.indent);
      assert (e + 1) * f.indent == e * f.indent + f.indent;
    }
  }

  // ----- where the printer agrees

  /** On one line, at any depth; indented, if no object has members. */
  lemma {:induction false} Agrees(v: Json, f: DumpFlags, d: nat, e: nat)
    requires Printable(v) && (f.indent == 0 || (d == e && NoMembers(v)))
    ensures Text(v, f, d) == Layout(v, f, e)
    decreases Size(v), 0
  {
    hide Edge, Between, ElemsText, FieldsText, Indent, ElemsLayout, FieldsLayout, PrintOrder, StringText, IntText;
    hide IsValid, Size, ElemsSize, FieldsSize;
    if v.Array? && v.elems != [] {
      IndentIs(f, d + 1);
      SameEdges(f, d, e);
      ArraySmaller(v);
      ElemsAgree(v.elems, f, d, e);
      Associate(Edge(f, e + 1), ElemsLayout(v.elems, f, e + 1), Edge(f, e));
    } else if v.Object? && v.fields != [] {
      var gs := PrintOrder(v.fields, f);
      OrderKeepsSize(v.fields, f);
      IndentIs(f, d + 1);
      SameEdges(f, d, e);
      ObjectSmaller(v);
      FieldsAgree(gs, f, d + 1, e);
      Associate([0x7B] + Edge(f, e + 1), FieldsLayout(gs, f, e + 1), Edge(f, e));
    }
  }

  lemma SameEdges(f: DumpFlags, d: nat, e: nat)
    requires f.indent == 0 || d == e
    ensures Edge(f, d) == Edge(f, e) && Between(f, d) == Between(f, e)
    ensures Edge(f, d + 1) == Edge(f, e + 1) && Between(f, d + 1) == Between(f, e + 1)
  {
  }

  lemma {:induction false} ElemsAgree(es: seq<Json>, f: DumpFlags, d: nat, e: nat)
    requires es != [] && (forall i :: 0 <= i < |es| ==> Printable(es[i]))
    requires f.indent == 0 || (d == e && forall i :: 0 <= i < |es| ==> NoMembers(es[i]))
    ensures ElemsText(es, f, d) == ElemsLayout(es, f, e + 1) + Edge(f, e)
    decreases ElemsSize(es), 1
  {
    hide Edge, Between, Text, Layout, Indent;
    Agrees(es[0], f, d + 1, e + 1);
    IndentIs(f, d + 1);
    IndentIs(f, d);
    SameEdges(f, d, e);
    if |es| > 1 {
      ElemsAgree(es[1..], f, d, e);
      Associate(Layout(es[0], f, e + 1), Between(f, e + 1) + ElemsLayout(es[1..], f, e + 1), Edge(f, e));
      Associate(Between(f, e + 1), ElemsLayout(es[1..], f, e + 1), Edge(f, e));
      Associate(
        Layout(es[0], f, e + 1), Between(f, e + 1), ElemsLayout(es[1..], f, e + 1) + Edge(f, e));
    } else {
      assert ElemsText(es[1..], f, d) == [];
    }
  }

  lemma {:induction false} FieldsAgree(fs: seq<Field>, f: DumpFlags, d: nat, e: nat)
    requires fs != [] && (forall i :: 0 <= i < |fs| ==> IsValid(fs[i].key) && Printable(fs[i].value))
    requires f.indent == 0
    ensures FieldsText(fs, f, d) == FieldsLayout(fs, f, e + 1) + Edge(f, e)
    decreases FieldsSize(fs), 1
  {
    hide Edge, Between, Text, Layout, Indent, StringText;
    Agrees(fs[0].value, f, d + 1, e + 1);
    IndentIs(f, d + 1);
    IndentIs(f, d);
    SameEdges(f, d, e);
    var start := StringText(fs[0].key, f) + AfterKey(f) + Layout(fs[0].value, f, e + 1);
    if |fs| > 1 {
      FieldsAgree(fs[1..], f, d, e);
      Associate(start, Between(f, e + 1) + FieldsLayout(fs[1..], f, e + 1), Edge(f, e));
      Associate(Between(f, e + 1), FieldsLayout(fs[1..], f, e + 1), Edge(f, e));
      Associate(start, Between(f, e + 1), FieldsLayout(fs[1..], f, e + 1) + Edge(f, e));
    } else {
      assert FieldsText(fs[1..], f, d) == [];
    }
  }

  // ----- where it does not

  /** Members and the closing brace of an object are indented too far. */
  lemma {:induction false} Longer(v: Json, f: DumpFlags, d: nat, e: nat)
    requires Printable(v) && f.indent > 0 && e <= d
    ensures |Text(v, f, d)| >= |Layout(v, f, e)|
    ensures !NoMembers(v) ==> |Text(v, f, d)| > |Layout(v, f, e)|
    decreases Size(v), 0
  {
    hide Edge, Between, ElemsText, FieldsText, Indent, ElemsLayout, FieldsLayout, PrintOrder, StringText, IntText;
    hide IsValid, Size, ElemsSize, FieldsSize;
    if v.Array? && v.elems != [] {
      IndentIs(f, d + 1);
      Deeper(f, d + 1, e + 1);
      ArraySmaller(v);
      ElemsLonger(v.elems, f, d, e);
    } else if v.Object? && v.fields != [] {
      OrderKeepsSize(v.fields, f);
      IndentIs(f, d + 1);
      Deeper(f, d + 1, e + 1);
      ObjectSmaller(v);
      FieldsLonger(PrintOrder(v.fields, f), f, d + 1, e);
    }
  }

  lemma ArraySmaller(v: Json)
    requires v.Array?
    ensures ElemsSize(v.elems) < Size(v)
  {
  }

  lemma ObjectSmaller(v: Json)
    requires v.Object?
    ensures FieldsSize(v.fields) < Size(v)
  {
  }

  lemma {:induction false} ElemsLonger(es: seq<Json>, f: DumpFlags, d: nat, e: nat)
    requires es != [] && f.indent > 0 && e <= d && forall i :: 0 <= i < |es| ==> Printable(es[i])
    ensures |ElemsText(es, f, d)| >= |ElemsLayout(es, f, e + 1)| + |Edge(f, e)|
    ensures (exists i :: 0 <= i < |es| && !NoMembers(es[i])) ==>
              |ElemsText(es, f, d)| > |ElemsLayout(es, f, e + 1)| + |Edge(f, e)|
    decreases ElemsSize(es), 1
  {
    hide Edge, Between, Text, Layout, Indent, NoMembers;
    Longer(es[0], f, d + 1, e + 1);
    IndentIs(f, d + 1);
    IndentIs(f, d);
    Deeper(f, d, e);
    Deeper(f, d + 1, e + 1);
    if |es| > 1 {
      ElemsLonger(es[1..], f, d, e);
      assert forall i :: 0 < i < |es| ==> es[i] == es[1..][i - 1];
    }
  }

  lemma {:induction false} FieldsLonger(fs: seq<Field>, f: DumpFlags, d: nat, e: nat)
    requires fs != [] && f.indent > 0 && e < d
    requires forall i :: 0 <= i < |fs| ==> IsValid(fs[i].key) && Printable(fs[i].value)
    ensures |FieldsText(fs, f, d)| > |FieldsLayout(fs, f, e + 1)| + |Edge(f, e)|
    decreases FieldsSize(fs), 1
  {
    hide Edge, Between, Text, Layout, Indent, StringText;
    Longer(fs[0].value, f, d + 1, e + 1);
    IndentIs(f, d + 1);
    IndentIs(f, d);
    Deeper(f, d, e);
    Deeper(f, d + 1, e + 1);
    if |fs| > 1 {
      FieldsLonger(fs[1..], f, d, e);
    }
  }

  /** The printer lays a value out as described exactly if all is on one line or no object in
      it has members. */
  lemma LayoutIff(v: Json, f: DumpFlags)
    requires Printable(v)
    ensures Text(v, f, 0) == Layout(v, f, 0) <==> f.indent == 0 || NoMembers(v)
  {
    hide Text, Layout, NoMembers;
    if f.indent == 0 || NoMembers(v) {
      Agrees(v, f, 0, 0);
    } else {
      Longer(v, f, 0, 0);
    }
  }

  /** Two members, indented by one space: the second is printed two spaces in, and the closing
      brace one. */
  lemma TwoMembers(f: DumpFlags)
    requires f == DumpFlags(1, false, false, false, false)
    ensures var v := Object([Field([0x61], Null), Field([0x62], True)]);
            && Printable(v)
            && Text(v, f, 0) ==
               [0x7B, 0x0A, 0x20] + [0x22, 0x61, 0x22, 0x3A, 0x20] + NULL_TEXT +
               [0x2C, 0x0A, 0x20, 0x20] + ([0x22, 0x62, 0x22, 0x3A, 0x20] + TRUE_TEXT + [0x0A, 0x20]) + [0x7D]
  {
    hide Decode, IsValid, StringText, Indent, FieldsText;
    var fs := [Field([0x61], Null), Field([0x62], True)];
    OneLetter(0x61, f);
    OneLetter(0x62, f);
    FirstLines(f);
    FirstField(fs, f);
    LastField(fs[1..], f);
    var body := FieldsText(fs, f, 1);
    assert [LBRACE] + Indent(f, 1, false) + body + [RBRACE] == [0x7B, 0x0A, 0x20] + body + [0x7D];
  }

  lemma FirstLines(f: DumpFlags)
    requires f.indent == 1
    ensures Indent(f, 1, false) == [0x0A, 0x20] && [COMMA] + Indent(f, 2, true) == [0x2C, 0x0A, 0x20, 0x20]
  {
    assert Spaces(1) == [SPACE] + Spaces(0) == [SPACE];
    assert Spaces(2) == [SPACE] + Spaces(1) == [SPACE, SPACE];
  }

  lemma FirstField(fs: seq<Field>, f: DumpFlags)
    requires |fs| == 2 && fs[0] == Field([0x61], Null) && f.indent == 1 && !f.compact
    requires IsValid([0x61]) && StringText([0x61], f) == [0x22, 0x61, 0x22]
    requires IsValid(fs[1].key) && Printable(fs[1].value)
    ensures FieldsText(fs, f, 1) ==
            [0x22, 0x61, 0x22, 0x3A, 0x20] + NULL_TEXT + [0x2C, 0x0A, 0x20, 0x20] + FieldsText(fs[1..], f, 1)
  {
    hide Decode, IsValid, StringText, Indent, Printable;
    FirstLines(f);
    assert [0x22, 0x61, 0x22] + [COLON, SPACE] == [0x22, 0x61, 0x22, 0x3A, 0x20];
  }

  lemma LastField(fs: seq<Field>, f: DumpFlags)
    requires fs == [Field([0x62], True)] && f.indent == 1 && !f.compact
    requires IsValid([0x62]) && StringText([0x62], f) == [0x22, 0x62, 0x22]
    ensures FieldsText(fs, f, 1) == [0x22, 0x62, 0x22, 0x3A, 0x20] + TRUE_TEXT + [0x0A, 0x20]
  {
    hide Decode, IsValid, StringText, Indent;
    FirstLines(f);
    assert FieldsText(fs[1..], f, 1) == [];
    assert [0x22, 0x62, 0x22] + [COLON, SPACE] == [0x22, 0x62, 0x22, 0x3A, 0x20];
  }

  lemma OneLetter(c: Byte, f: DumpFlags)
    requires 0x61 <= c <= 0x7A && !f.ensureAscii && !f.escapeSlash
    ensures IsValid([c]) && StringText([c], f) == [0x22, c, 0x22]
  {
    hide Decode;
    DecodeAscii([c]);
    DecodeKinds([]);
    assert [c][1..] == [] && [c][..1] == [c];
    assert CharsText([], f) == [];
  }

  // ----- order and escapes

  /** With the flag set members are printed in key order, without it in the order they come. */
  lemma OrderIs(fs: seq<Field>, f: DumpFlags)
    requires DistinctKeys(fs)
    ensures multiset(PrintOrder(fs, f)) == multiset(fs)
    ensures if f.sortKeys then SortedKeys(PrintOrder(fs, f)) else PrintOrder(fs, f) == fs
  {
    SortSorts(fs);
  }

  /** A character is printed as it is unless JSON or a flag wants it escaped. */
  lemma PrintedPlainIff(cp: nat, f: DumpFlags)
    requires IsScalar(cp)
    ensures CharText(cp, Encode(cp), f) == Encode(cp) <==>
            cp >= 0x20 && cp != 0x22 && cp != 0x5C && (f.escapeSlash ==> cp != 0x2F) && (f.ensureAscii ==> cp < 0x80)
  {
    hide HexDigit, HighHalf, LowHalf;
    assert Encode(cp) != [] && (Encode(cp)[0] == 0x5C ==> |Encode(cp)| == 1) by { LeadByte(cp); }
  }

  lemma LeadByte(cp: nat)
    requires IsScalar(cp)
    ensures Encode(cp) != [] && (Encode(cp)[0] == 0x5C ==> |Encode(cp)| == 1)
  {
  }

  // ----- slashes

  /** Every slash follows a backslash. */
  predicate Slashed(s: seq<Byte>) {
    forall i :: 0 <= i < |s| && s[i] == 0x2F ==> i > 0 && s[i - 1] == 0x5C
  }

  lemma SlashedJoin(a: seq<Byte>, b: seq<Byte>)
    requires Slashed(a) && Slashed(b)
    ensures Slashed(a + b)
  {
    var s := a + b;
    forall i | 0 <= i < |s| && s[i] == 0x2F ensures i > 0 && s[i - 1] == 0x5C {
      if i >= |a| {
        assert b[i - |a|] == 0x2F;
        assert s[i - 1] == b[i - 1 - |a|];
      }
    }
  }

  lemma NoSlash(s: seq<Byte>)
    requires 0x2F !in s
    ensures Slashed(s)
  {
    assert forall i :: 0 <= i < |s| ==> s[i] in s;
  }

  lemma CharSlashed(cp: nat, f: DumpFlags)
    requires IsScalar(cp) && f.escapeSlash
    ensures Slashed(CharText(cp, Encode(cp), f))
  {
    hide HexDigit;
    if MustEscape(cp, f) && ShortEscape(cp).None? {
      if cp < 0x10000 {
        HexSlashed(cp);
      } else {
        HexSlashed(HighHalf(cp));
        HexSlashed(LowHalf(cp));
        SlashedJoin(HexEscape(HighHalf(cp)), HexEscape(LowHalf(cp)));
      }
    }
  }

  lemma HexSlashed(v: nat)
    requires v < 0x10000
    ensures Slashed(HexEscape(v))
  {
  }

  lemma {:induction false} CharsSlashed(s: seq<Byte>, f: DumpFlags)
    requires IsValid(s) && f.escapeSlash
    ensures Slashed(CharsText(s, f))
  {
    hide Decode, Encode, CharText;
    DecodeKinds(s);
    if s != [] {
      var n := Decode(s).len;
      DecodeIsGrammar(s, n);
      EncodeDecoded(s);
      CharSlashed(Decode(s).cp, f);
      CharsSlashed(s[n..], f);
      SlashedJoin(CharText(Decode(s).cp, s[..n], f), CharsText(s[n..], f));
    }
  }

  lemma StringSlashed(s: seq<Byte>, f: DumpFlags)
    requires IsValid(s) && f.escapeSlash
    ensures Slashed(StringText(s, f))
  {
    hide CharsText;
    CharsSlashed(s, f);
    SlashedJoin([QUOTE], CharsText(s, f));
    SlashedJoin([QUOTE] + CharsText(s, f), [QUOTE]);
  }

  lemma {:induction false} NumberSlashed(n: nat)
    ensures Slashed(NatText(n)) && 0x2F !in NatText(n)
  {
    if n >= 10 {
      NumberSlashed(n / 10);
    }
    NoSlash(NatText(n));
  }

  lemma IndentSlashed(f: DumpFlags, depth: nat, space: bool)
    ensures Slashed(Indent(f, depth, space)) && Slashed([COMMA] + Indent(f, depth, space))
  {
    if f.indent > 0 {
      MulNonneg(depth, f.indent);
      SpacesAre(depth * f.indent);
    }
  }

  /** With the flag set, every slash in the text is escaped. */
  lemma {:induction false} TextSlashed(v: Json, f: DumpFlags, depth: nat)
    requires Printable(v) && f.escapeSlash
    ensures Slashed(Text(v, f, depth))
    decreases Size(v), 0
  {
    hide Slashed, StringText, Indent, ElemsText, FieldsText, NatText, PrintOrder;
    PunctSlashed();
    match v {
      case String(s) => StringSlashed(s, f);
      case Integer(i) =>
        NumberSlashed(if i < 0 then -i else i);
        if i < 0 {
          SlashedJoin([MINUS], NatText(-i));
        }
      case Array(es) =>
        if es != [] {
          IndentSlashed(f, depth + 1, false);
          ElemsSlashed(es, f, depth);
          Bracketed(LBRACKET, Indent(f, depth + 1, false), ElemsText(es, f, depth), RBRACKET);
        } else {
          assert [LBRACKET] + [] + [RBRACKET] == [LBRACKET, RBRACKET];
        }
      case Object(fs) =>
        if fs != [] {
          IndentSlashed(f, depth + 1, false);
          OrderKeepsSize(fs, f);
          FieldsSlashed(PrintOrder(fs, f), f, depth + 1);
          Bracketed(LBRACE, Indent(f, depth + 1, false), FieldsText(PrintOrder(fs, f), f, depth + 1), RBRACE);
        }
      case _ =>
    }
  }

  lemma PunctSlashed()
    ensures Slashed([MINUS]) && Slashed([COLON]) && Slashed([COLON, SPACE]) && Slashed([])
    ensures Slashed([LBRACKET, RBRACKET]) && Slashed([LBRACE, RBRACE])
    ensures Slashed(NULL_TEXT) && Slashed(TRUE_TEXT) && Slashed(FALSE_TEXT)
  {
  }

  lemma Bracketed(open: Byte, edge: seq<Byte>, body: seq<Byte>, close: Byte)
    requires Slashed(edge) && Slashed(body) && open != 0x2F && close != 0x2F
    ensures Slashed([open] + (edge + body) + [close]) && Slashed([open] + edge + body + [close])
  {
    SlashedJoin(edge, body);
    SlashedJoin([open], edge + body);
    SlashedJoin([open] + (edge + body), [close]);
    assert [open] + edge + body == [open] + (edge + body);
  }

  lemma {:induction false} ElemsSlashed(es: seq<Json>, f: DumpFlags, depth: nat)
    requires f.escapeSlash && forall i :: 0 <= i < |es| ==> Printable(es[i])
    ensures Slashed(ElemsText(es, f, depth))
    decreases ElemsSize(es), 1
  {
    hide Slashed, Text, Indent;
    PunctSlashed();
    if es != [] {
      TextSlashed(es[0], f, depth + 1);
      IndentSlashed(f, depth + 1, true);
      IndentSlashed(f, depth, false);
      ElemsSlashed(es[1..], f, depth);
      var sep := if |es| > 1 then [COMMA] + Indent(f, depth + 1, true) else Indent(f, depth, false);
      SlashedJoin(Text(es[0], f, depth + 1), sep);
      SlashedJoin(Text(es[0], f, depth + 1) + sep, ElemsText(es[1..], f, depth));
    }
  }

  lemma {:induction false} FieldsSlashed(fs: seq<Field>, f: DumpFlags, depth: nat)
    requires f.escapeSlash && forall i :: 0 <= i < |fs| ==> IsValid(fs[i].key) && Printable(fs[i].value)
    ensures Slashed(FieldsText(fs, f, depth))
    decreases FieldsSize(fs), 1
  {
    hide Slashed, Text, Indent, StringText;
    PunctSlashed();
    if fs != [] {
      StringSlashed(fs[0].key, f);
      TextSlashed(fs[0].value, f, depth + 1);
      IndentSlashed(f, depth + 1, true);
      IndentSlashed(f, depth, false);
      FieldsSlashed(fs[1..], f, depth);
      var key, value := StringText(fs[0].key, f), Text(fs[0].value, f, depth + 1);
      var colon := if f.compact then [COLON] else [COLON, SPACE];
      var sep := if |fs| > 1 then [COMMA] + Indent(f, depth + 1, true) else Indent(f, depth, false);
      SlashedJoin(key, colon);
      SlashedJoin(key + colon, value);
      SlashedJoin(key + colon + value, sep);
      SlashedJoin(key + colon + value + sep, FieldsText(fs[1..], f, depth));
    }
  }
}

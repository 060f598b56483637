/** The JSON printer, writing to a string stream. */
module JsonDumper {
  import opened Arith
  import opened Options
  import opened Utf8
  import opened JsonValue
  import opened JsonText

  /** `ph_string_iterate_utf8_as_utf16` at offset off: the outcome and the next offset. */
  method Iterate(s: seq<Byte>, off: nat) returns (r: Step)
    requires off <= |s|
    ensures r == Decode(s[off..])
  {
    ghost var t := s[off..];
    if off == |s| {
      return Done;
    }
    var first := s[off];
    var n := SeqLen(first);
    if n == 0 || n > |s| - off {
      return Err;
    }
    var cp: nat := LeadBits(first, n);
    var i := 1;
    assert t[1..n] == s[off + 1..off + n];
    while i < n
      invariant 1 <= i <= n
      invariant Continue(LeadBits(first, n), t[1..n], n - 1) == Continue(cp, s[off + i..off + n], n - i)
    {
      if !Tail(s[off + i]) {
        return Err;
      }
      assert s[off + i..off + n][1..] == s[off + i + 1..off + n];
      cp := cp * 64 + TailBits(s[off + i]);
      i := i + 1;
    }
    if InRange(cp, n) {
      return Ok(cp, n);
    }
    return Err;
  }

  /** `ph_string_is_valid_utf8` */
  method CheckValid(s: seq<Byte>) returns (ok: bool)
    ensures ok <==> WellFormed(s)
  {
    hide Decode;
    var off := 0;
    assert s[0..] == s;
    ValidIsWellFormed(s);
    while true
      invariant off <= |s| && (IsValid(s) <==> IsValid(s[off..]))
      decreases |s| - off
    {
      DecodeKinds(s[off..]);
      var r := Iterate(s, off);
      if r.Done? {
        return true;
      } else if r.Err? {
        return false;
      }
      assert s[off..][r.len..] == s[off + r.len..];
      off := off + r.len;
    }
  }

  class Printer {
    const flags: DumpFlags
    var out: seq<Byte>

    constructor (f: DumpFlags)
      ensures flags == f && out == []
    {
      flags := f;
      out := [];
    }

    method Write(b: seq<Byte>)
      modifies this
      ensures out == old(out) + b
    {
      out := out + b;
    }

    /** `dump_indent` */
    method WriteIndent(depth: nat, space: bool)
      modifies this
      ensures out == old(out) + Indent(flags, depth, space)
    {
      if flags.indent > 0 {
        Write([NEWLINE]);
        var i := 0;
        ghost var base := out;
        assert base + Spaces(0) == base;
        while i < depth
          invariant 0 <= i <= depth && out == base + Spaces(Columns(i, flags.indent))
        {
          Write(Spaces(flags.indent));
          ColumnsStep(i, flags.indent);
          SpacesSplit(Columns(i, flags.indent), flags.indent);
          i := i + 1;
        }
        assert old(out) + [NEWLINE] + Spaces(Columns(depth, flags.indent)) ==
               old(out) + ([NEWLINE] + Spaces(Columns(depth, flags.indent)));
      } else if space && !flags.compact {
        Write([SPACE]);
      }
    }

    /** One character of a string. */
    method WriteChar(cp: nat, bytes: seq<Byte>)
      requires IsScalar(cp)
      modifies this
      ensures out == old(out) + CharText(cp, bytes, flags)
    {
      var escape := false;
      if cp == 0x5C || cp == 0x22 || cp < 0x20 {
        escape := true;
      }
      if flags.escapeSlash && cp == 0x2F {
        escape := true;
      }
      if flags.ensureAscii && cp > 0x7F {
        escape := true;
      }
      if !escape {
        Write(bytes);
        return;
      }
      var short := ShortEscape(cp);
      if short.Some? {
        Write([BACKSLASH, short.value]);
      } else if cp < 0x10000 {
        Write(HexEscape(cp));
      } else {
        Write(HexEscape(HighHalf(cp)) + HexEscape(LowHalf(cp)));
      }
    }

    /** `dump_string`: fails exactly on text that is not UTF-8. */
    method WriteString(s: seq<Byte>) returns (ok: bool)
      modifies this
      ensures ok <==> IsValid(s)
      ensures ok ==> out == old(out) + StringText(s, flags)
    {
      hide Decode, CharText, IsValid, CharsText;
      Write([QUOTE]);
      var off, pos := 0, 0;
      ghost var base := out;
      assert s[0..] == s;
      while true
        invariant pos == off <= |s| && (IsValid(s) <==> IsValid(s[off..]))
        invariant IsValid(s) ==> out + CharsText(s[off..], flags) == base + CharsText(s, flags)
        decreases |s| - off
      {
        CharsStep(s, off, flags);
        var r := Iterate(s, off);
        if r.Done? {
          break;
        } else if r.Err? {
          return false;
        }
        off := off + r.len;
        ghost var before := out;
        WriteChar(r.cp, s[pos..off]);
        if IsValid(s) {
          Associate(before, CharText(r.cp, s[pos..off], flags), CharsText(s[off..], flags));
        }
        pos := off;
      }
      assert out + [] == out;
      Write([QUOTE]);
      Associate(old(out), [QUOTE], CharsText(s, flags));
      Associate(old(out), [QUOTE] + CharsText(s, flags), [QUOTE]);
      ok := true;
    }

    /** `do_dump` */
    method WriteValue(v: Json, depth: nat) returns (ok: bool)
      modifies this
      ensures ok <==> Printable(v)
      ensures ok ==> out == old(out) + Text(v, flags, depth)
      decreases Size(v), 2
    {
      hide StringText, IntText, ElemsText, FieldsText;
      ok := true;
      match v {
        case Null => Write(NULL_TEXT);
        case True => Write(TRUE_TEXT);
        case False => Write(FALSE_TEXT);
        case Integer(i) => Write(IntText(i));
        case String(s) => ok := WriteString(s);
        case Array(es) => ok := WriteArray(es, depth);
        case Object(fs) => ok := WriteObject(fs, depth);
      }
    }

    /** `dump_array` */
    method WriteArray(es: seq<Json>, depth: nat) returns (ok: bool)
      modifies this
      ensures ok <==> Printable(Array(es))
      ensures ok ==> out == old(out) + Text(Array(es), flags, depth)
      decreases Size(Array(es)), 1
    {
      hide Text, ElemsText, Indent;
      Write([LBRACKET]);
      ArrayText(es, flags, depth);
      if es == [] {
        Write([RBRACKET]);
        Associate(old(out), [LBRACKET], [RBRACKET]);
        return true;
      }
      WriteIndent(depth + 1, false);
      ghost var base := out;
      var i := 0;
      assert es[0..] == es;
      while i < |es|
        invariant 0 <= i <= |es|
        invariant forall j :: 0 <= j < i ==> Printable(es[j])
        invariant AllPrintable(es) ==>
                    AllPrintable(es[i..]) && out + ElemsText(es[i..], flags, depth) == base + ElemsText(es, flags, depth)
      {
        ElemsStep(es, i, flags, depth);
        ghost var before := out;
        ok := WriteValue(es[i], depth + 1);
        if !ok {
          return;
        }
        ghost var middle := out;
        if i < |es| - 1 {
          Write([COMMA]);
          WriteIndent(depth + 1, true);
          Associate(middle, [COMMA], Indent(flags, depth + 1, true));
        } else {
          WriteIndent(depth, false);
        }
        if AllPrintable(es) {
          Chain(before, Text(es[i], flags, depth + 1), ElemEnd(es, i, flags, depth), ElemsText(es[i + 1..], flags, depth));
        }
        i := i + 1;
      }
      assert es[|es|..] == [];
      NoElems(flags, depth);
      assert out + [] == out;
      Write([RBRACKET]);
      Bracketed(old(out), [LBRACKET], Indent(flags, depth + 1, false), ElemsText(es, flags, depth), [RBRACKET]);
      ok := true;
    }

    /** `dump_obj` */
    method WriteObject(fs: seq<Field>, depth: nat) returns (ok: bool)
      modifies this
      ensures ok <==> Printable(Object(fs))
      ensures ok ==> out == old(out) + Text(Object(fs), flags, depth)
      decreases Size(Object(fs)), 1
    {
      hide Text, FieldsText, Indent, PrintOrder;
      ObjectText(fs, flags, depth);
      if fs == [] {
        Write([LBRACE, RBRACE]);
        return true;
      }
      Write([LBRACE]);
      WriteIndent(depth + 1, false);
      var gs := PrintOrder(fs, flags);
      OrderKeepsSize(fs, flags);
      ok := WriteMembers(gs, depth + 1);
      if !ok {
        return;
      }
      Write([RBRACE]);
      Bracketed(old(out), [LBRACE], Indent(flags, depth + 1, false), FieldsText(gs, flags, depth + 1), [RBRACE]);
    }

    /** The loop of `dump_obj`. */
    method WriteMembers(gs: seq<Field>, depth: nat) returns (ok: bool)
      modifies this
      ensures ok <==> FieldsPrintable(gs)
      ensures ok ==> out == old(out) + FieldsText(gs, flags, depth)
      decreases FieldsSize(gs), 4
    {
      hide Text, FieldsText, FieldText, Indent;
      ghost var base := out;
      var i := 0;
      assert gs[0..] == gs;
      while i < |gs|
        invariant 0 <= i <= |gs|
        invariant forall j :: 0 <= j < i ==> FieldPrintable(gs[j])
        invariant FieldsPrintable(gs) ==>
                    && FieldsPrintable(gs[i..])
                    && out + FieldsText(gs[i..], flags, depth) == base + FieldsText(gs, flags, depth)
      {
        FieldsStep(gs, i, flags, depth);
        ghost var before := out;
        ok := WriteMember(gs[i], depth, i + 1 >= |gs|);
        if !ok {
          return;
        }
        if FieldsPrintable(gs) {
          Associate(before, FieldText(gs[i], flags, depth, i + 1 >= |gs|), FieldsText(gs[i + 1..], flags, depth));
        }
        i := i + 1;
      }
      assert gs[|gs|..] == [];
      NoFields(flags, depth);
      assert out + [] == out;
      ok := true;
    }

    /** `dump_obj_elem` */
    method WriteMember(x: Field, depth: nat, last: bool) returns (ok: bool)
      modifies this
      ensures ok <==> FieldPrintable(x)
      ensures ok ==> out == old(out) + FieldText(x, flags, depth, last)
      decreases Size(x.value), 3
    {
      hide StringText, Text, Indent;
      ok := WriteString(x.key);
      if !ok {
        return;
      }
      var separator := if flags.compact then [COLON] else [COLON, SPACE];
      Write(separator);
      ok := WriteValue(x.value, depth + 1);
      if !ok {
        return;
      }
      ghost var middle := out;
      if last {
        WriteIndent(depth, false);
      } else {
        Write([COMMA]);
        WriteIndent(depth + 1, true);
        Associate(middle, [COMMA], Indent(flags, depth + 1, true));
      }
      MemberChain(old(out), StringText(x.key, flags), separator, Text(x.value, flags, depth + 1),
                  if last then Indent(flags, depth, false) else [COMMA] + Indent(flags, depth + 1, true));
    }
  }

  /** `ph_json_dump_string`: the whole text, or failure exactly when some string is not UTF-8. */
  method DumpString(v: Json, f: DumpFlags) returns (ok: bool, text: seq<Byte>)
    ensures ok <==> Printable(v)
    ensures ok ==> text == Text(v, f, 0)
  {
    var printer := new Printer(f);
    ok := printer.WriteValue(v, 0);
    text := printer.out;
    assert ok ==> [] + Text(v, f, 0) == Text(v, f, 0);
  }

  predicate FieldPrintable(x: Field) {
    IsValid(x.key) && Printable(x.value)
  }

  ghost predicate FieldsPrintable(fs: seq<Field>) {
    forall j :: 0 <= j < |fs| ==> FieldPrintable(fs[j])
  }

  /** A member and what follows it. */
  function FieldText(x: Field, f: DumpFlags, depth: nat, last: bool): seq<Byte>
    requires FieldPrintable(x)
  {
    StringText(x.key, f)
    + (if f.compact then [COLON] else [COLON, SPACE])
    + Text(x.value, f, depth + 1)
    + (if last then Indent(f, depth, false) else [COMMA] + Indent(f, depth + 1, true))
  }

  lemma MemberChain(a: seq<Byte>, b: seq<Byte>, c: seq<Byte>, d: seq<Byte>, e: seq<Byte>)
    ensures a + b + c + d + e == a + (b + c + d + e)
  {
  }

  lemma FieldsStep(fs: seq<Field>, i: nat, f: DumpFlags, depth: nat)
    requires i < |fs|
    ensures Size(fs[i].value) < FieldsSize(fs)
    ensures FieldsPrintable(fs) ==>
              && FieldsPrintable(fs[i..]) && FieldsPrintable(fs[i + 1..]) && FieldPrintable(fs[i])
              && FieldsText(fs[i..], f, depth) ==
                 FieldText(fs[i], f, depth, i + 1 >= |fs|) + FieldsText(fs[i + 1..], f, depth)
  {
    hide Text, StringText, Indent;
    FieldSmaller(fs, i);
    assert fs[i..][1..] == fs[i + 1..] && fs[i..][0] == fs[i];
  }

  lemma {:induction false} FieldSmaller(fs: seq<Field>, i: nat)
    requires i < |fs|
    ensures Size(fs[i].value) < FieldsSize(fs)
    decreases i
  {
    if i > 0 {
      FieldSmaller(fs[1..], i - 1);
    }
  }

  lemma NoFields(f: DumpFlags, depth: nat)
    ensures FieldsText([], f, depth) == []
  {
  }

  lemma ObjectText(fs: seq<Field>, f: DumpFlags, depth: nat)
    ensures Printable(Object(fs)) <==> FieldsPrintable(PrintOrder(fs, f))
    ensures fs == [] ==> Printable(Object(fs)) && Text(Object(fs), f, depth) == [LBRACE, RBRACE]
    ensures fs != [] && Printable(Object(fs)) ==>
              Text(Object(fs), f, depth) ==
              [LBRACE] + Indent(f, depth + 1, false) + FieldsText(PrintOrder(fs, f), f, depth + 1) + [RBRACE]
  {
    hide FieldsText, Indent, PrintOrder;
    OrderPrintable(fs, f);
  }

  lemma AllFields(fs: seq<Field>)
    ensures FieldsPrintable(fs) <==> forall x :: x in fs ==> FieldPrintable(x)
    ensures FieldsPrintable(fs) <==> Printable(Object(fs))
  {
    assert forall j :: 0 <= j < |fs| ==> fs[j] in fs;
    assert FieldsPrintable(fs) <==> forall j :: 0 <= j < |fs| ==> IsValid(fs[j].key) && Printable(fs[j].value);
  }

  lemma OrderPrintable(fs: seq<Field>, f: DumpFlags)
    ensures FieldsPrintable(PrintOrder(fs, f)) <==> Printable(Object(fs))
  {
    hide FieldPrintable, Printable;
    AllFields(fs);
    AllFields(PrintOrder(fs, f));
    if f.sortKeys {
      SortMembers(fs);
      forall x ensures x in fs <==> x in SortFields(fs) {
        assert x in multiset(fs) <==> x in multiset(SortFields(fs));
      }
    }
  }

  ghost predicate AllPrintable(es: seq<Json>) {
    forall j :: 0 <= j < |es| ==> Printable(es[j])
  }

  lemma Chain(a: seq<Byte>, b: seq<Byte>, c: seq<Byte>, d: seq<Byte>)
    ensures a + b + c + d == a + (b + c + d)
  {
  }

  lemma Bracketed(a: seq<Byte>, b: seq<Byte>, c: seq<Byte>, d: seq<Byte>, e: seq<Byte>)
    ensures a + b + c + d + e == a + (b + (c + d) + e)
    ensures a + b + c + d + e == a + (b + c + d + e)
  {
  }

  /** One character further along a string. */
  lemma CharsStep(s: seq<Byte>, off: nat, f: DumpFlags)
    requires off <= |s|
    ensures var t := s[off..];
            match Decode(t)
            case Done => off == |s| && IsValid(t) && CharsText(t, f) == []
            case Err => !IsValid(t)
            case Ok(cp, n) =>
              && 1 <= n && off + n <= |s| && IsScalar(cp) && (IsValid(t) <==> IsValid(s[off + n..]))
              && (IsValid(t) ==> CharsText(t, f) == CharText(cp, s[off..off + n], f) + CharsText(s[off + n..], f))
  {
    hide Decode, CharText;
    var t := s[off..];
    DecodeKinds(t);
    DecodeIsGrammar(t, 0);
    if Decode(t).Ok? {
      var n := Decode(t).len;
      assert t[n..] == s[off + n..] && t[..n] == s[off..off + n];
    }
  }

  lemma ArrayText(es: seq<Json>, f: DumpFlags, depth: nat)
    ensures Printable(Array(es)) <==> AllPrintable(es)
    ensures AllPrintable(es) ==>
              Text(Array(es), f, depth) ==
              if es == [] then [LBRACKET] + [RBRACKET]
              else [LBRACKET] + (Indent(f, depth + 1, false) + ElemsText(es, f, depth)) + [RBRACKET]
  {
    hide ElemsText, Indent;
  }

  /** What follows element i. */
  function ElemEnd(es: seq<Json>, i: nat, f: DumpFlags, depth: nat): seq<Byte>
    requires i < |es|
  {
    if i < |es| - 1 then [COMMA] + Indent(f, depth + 1, true) else Indent(f, depth, false)
  }

  lemma ElemsStep(es: seq<Json>, i: nat, f: DumpFlags, depth: nat)
    requires i < |es|
    ensures Size(es[i]) < Size(Array(es))
    ensures AllPrintable(es) ==>
              && AllPrintable(es[i..]) && AllPrintable(es[i + 1..]) && Printable(es[i])
              && ElemsText(es[i..], f, depth) ==
                 Text(es[i], f, depth + 1) + ElemEnd(es, i, f, depth) + ElemsText(es[i + 1..], f, depth)
  {
    hide Text, Indent;
    ElemSmaller(es, i);
    assert es[i..][1..] == es[i + 1..] && es[i..][0] == es[i];
  }

  lemma {:induction false} ElemSmaller(es: seq<Json>, i: nat)
    requires i < |es|
    ensures Size(es[i]) < ElemsSize(es)
    decreases i
  {
    if i > 0 {
      ElemSmaller(es[1..], i - 1);
    }
  }

  lemma NoElems(f: DumpFlags, depth: nat)
    ensures ElemsText([], f, depth) == []
  {
  }

  /** The width of the indentation at a depth. */
  function Columns(depth: nat, indent: nat): nat {
    MulNonneg(depth, indent);
    depth * indent
  }

  lemma ColumnsStep(depth: nat, indent: nat)
    ensures Columns(depth + 1, indent) == Columns(depth, indent) + indent
  {
  }

  lemma {:induction false} SpacesSplit(a: nat, b: nat)
    ensures Spaces(a + b) == Spaces(a) + Spaces(b)
  {
    if a > 0 {
      SpacesSplit(a - 1, b);
    }
  }
}

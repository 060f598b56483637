/** Loading what was printed, and printing what was loaded. */
module JsonRoundTrip {
  import opened Options
  import opened Utf8
  import opened JsonValue
  import opened JsonText
  import opened JsonGrammar
  import opened JsonStrings

  /** No string or key holds a NUL. */
  predicate NulFree(v: Json) {
    match v
    case String(s) => 0 !in s
    case Array(es) => forall i :: 0 <= i < |es| ==> NulFree(es[i])
    case Object(fs) => forall i :: 0 <= i < |fs| ==> 0 !in fs[i].key && NulFree(fs[i].value)
    case _ => true
  }

  predicate FieldNulFree(f: Field) {
    0 !in f.key && NulFree(f.value)
  }

  /** The value with the members of its objects in the order they are printed. */
  function Printed(v: Json, f: DumpFlags): Json
    decreases Size(v), 0
  {
    match v
    case Array(es) => Array(PrintedElems(es, f))
    case Object(fs) =>
      OrderKeepsSize(fs, f);
      Object(PrintedFields(PrintOrder(fs, f), f))
    case _ => v
  }

  function PrintedElems(es: seq<Json>, f: DumpFlags): seq<Json>
    decreases ElemsSize(es), 1
  {
    if es == [] then [] else [Printed(es[0], f)] + PrintedElems(es[1..], f)
  }

  function PrintedFields(fs: seq<Field>, f: DumpFlags): seq<Field>
    decreases FieldsSize(fs), 1
  {
    if fs == [] then [] else [Field(fs[0].key, Printed(fs[0].value, f))] + PrintedFields(fs[1..], f)
  }

  lemma {:induction false} PrintedElemsAt(es: seq<Json>, f: DumpFlags)
    ensures |PrintedElems(es, f)| == |es|
    ensures forall i :: 0 <= i < |es| ==> PrintedElems(es, f)[i] == Printed(es[i], f)
  {
    hide Printed;
    if es != [] {
      PrintedElemsAt(es[1..], f);
    }
  }

  lemma {:induction false} PrintedFieldsAt(fs: seq<Field>, f: DumpFlags)
    ensures |PrintedFields(fs, f)| == |fs|
    ensures forall i :: 0 <= i < |fs| ==> PrintedFields(fs, f)[i] == Field(fs[i].key, Printed(fs[i].value, f))
  {
    hide Printed;
    if fs != [] {
      PrintedFieldsAt(fs[1..], f);
    }
  }

  // ----- the printing order is a permutation

  /** What the printing order keeps. */
  lemma OrderKeeps(fs: seq<Field>, f: DumpFlags)
    requires DistinctKeys(fs)
    ensures DistinctKeys(PrintOrder(fs, f)) && |PrintOrder(fs, f)| == |fs|
    ensures multiset(PrintOrder(fs, f)) == multiset(fs)
  {
    OrderKeepsSize(fs, f);
    if f.sortKeys {
      SortSorts(fs);
      var r := SortFields(fs);
      forall i, j | 0 <= i < j < |r| ensures r[i].key != r[j].key {
        LessTotal(r[i].key, r[j].key);
      }
    }
  }

  lemma OrderAll(fs: seq<Field>, f: DumpFlags)
    requires DistinctKeys(fs)
    ensures forall x :: x in PrintOrder(fs, f) <==> x in fs
  {
    OrderKeeps(fs, f);
    forall x ensures x in PrintOrder(fs, f) <==> x in fs {
      assert x in multiset(PrintOrder(fs, f)) <==> x in multiset(fs);
    }
  }

  /** Printing order does not matter to `ph_var_equal`. */
  lemma {:induction false} PrintedEqual(v: Json, f: DumpFlags)
    requires Proper(v)
    ensures VarEqual(Printed(v, f), v)
    decreases v
  {
    match v {
      case Array(es) =>
        PrintedElemsAt(es, f);
        forall i | 0 <= i < |es| ensures VarEqual(PrintedElems(es, f)[i], es[i]) {
          PrintedEqual(es[i], f);
        }
      case Object(fs) =>
        var gs := PrintOrder(fs, f);
        OrderKeeps(fs, f);
        OrderAll(fs, f);
        PrintedFieldsAt(gs, f);
        var ps := PrintedFields(gs, f);
        forall i | 0 <= i < |ps|
          ensures Get(fs, ps[i].key).Some? && VarEqual(ps[i].value, Get(fs, ps[i].key).value)
        {
          assert gs[i] in fs;
          var j :| 0 <= j < |fs| && fs[j] == gs[i];
          GetAt(fs, j);
          PrintedEqual(fs[j].value, f);
        }
      case _ =>
    }
  }

  // ----- reading back, value by value

  /** What reading the text of v should give. */
  function ReadBack(v: Json, f: DumpFlags, tail: seq<Byte>): Parsed {
    if NulFree(v) then Parsed(Printed(v, f), tail) else Failed
  }

  /** No value starts with one of these. */
  predicate Starts(t: Token) {
    t != Eof && t != Punct(RBRACKET) && t != Punct(RBRACE)
  }

  /** The token the text of v starts with, and the parse from there. */
  ghost predicate ReadsBack(text: seq<Byte>, reject: bool, r: Parsed) {
    var l := Lex(text);
    Starts(l.token) && Value(l.token, l.rest, reject) == r
  }

  lemma StringReadsBack(s: seq<Byte>, f: DumpFlags, tail: seq<Byte>)
    requires IsValid(s)
    ensures Lex(StringText(s, f) + tail).token == if 0 in s then Invalid else Str(s)
    ensures 0 !in s ==> Lex(StringText(s, f) + tail).rest == tail
  {
    hide StringBody, CharsText;
    StringBack(s, f, tail);
    var t := StringText(s, f) + tail;
    assert SkipSpace(t) == t;
    assert t[1..] == CharsText(s, f) + [QUOTE] + tail;
  }

  lemma LeafReadsBack(v: Json, f: DumpFlags, depth: nat, tail: seq<Byte>, reject: bool)
    requires Proper(v) && Printable(v) && Follows(tail) && !v.Array? && !v.Object?
    ensures ReadsBack(Text(v, f, depth) + tail, reject, ReadBack(v, f, tail))
  {
    hide Lex, StringText, IntText;
    match v {
      case String(s) => StringReadsBack(s, f, tail);
      case Integer(i) => IntegerBack(i, tail);
      case Null => WordBack(NULL_TEXT, tail);
      case True => WordBack(TRUE_TEXT, tail);
      case False => WordBack(FALSE_TEXT, tail);
      case _ =>
    }
  }

  /** Loading the text of a value gives the value back, or fails if it holds a NUL. */
  lemma {:induction false} ValueReadsBack(v: Json, f: DumpFlags, depth: nat, tail: seq<Byte>, reject: bool)
    requires Proper(v) && Printable(v) && Follows(tail)
    ensures ReadsBack(Text(v, f, depth) + tail, reject, ReadBack(v, f, tail))
    decreases Size(v), 0
  {
    if !v.Array? && !v.Object? {
      LeafReadsBack(v, f, depth, tail, reject);
    } else if v.Array? {
      ArrayReadsBack(v.elems, f, depth, tail, reject);
    } else {
      ObjectReadsBack(v.fields, f, depth, tail, reject);
    }
  }

  lemma {:induction false} ArrayReadsBack(es: seq<Json>, f: DumpFlags, depth: nat, tail: seq<Byte>, reject: bool)
    requires Proper(Array(es)) && Printable(Array(es)) && Follows(tail)
    ensures ReadsBack(Text(Array(es), f, depth) + tail, reject, ReadBack(Array(es), f, tail))
    decreases ElemsSize(es), 3
  {
    hide Lex, ElemsText, Indent, Elements;
    var s := Text(Array(es), f, depth) + tail;
    if es == [] {
      assert s == [LBRACKET] + ([RBRACKET] + tail);
      PunctBack(LBRACKET, [RBRACKET] + tail);
      PunctBack(RBRACKET, tail);
    } else {
      var body := ElemsText(es, f, depth) + [RBRACKET] + tail;
      var rest := Indent(f, depth + 1, false) + body;
      assert s == [LBRACKET] + rest;
      PunctBack(LBRACKET, rest);
      IndentSkipped(f, depth + 1, false, body);
      ElemsReadBack(es, f, depth, [], tail, reject);
      assert [] + PrintedElems(es, f) == PrintedElems(es, f);
    }
  }

  lemma {:induction false} ElemsReadBack(
    es: seq<Json>, f: DumpFlags, depth: nat, done: seq<Json>, tail: seq<Byte>, reject: bool)
    requires es != [] && Proper(Array(es)) && Printable(Array(es)) && Follows(tail)
    ensures var l := Lex(ElemsText(es, f, depth) + [RBRACKET] + tail);
            && Starts(l.token)
            && Elements(l.token, l.rest, done, reject) ==
               (if NulFree(Array(es)) then Parsed(Array(done + PrintedElems(es, f)), tail) else Failed)
    decreases ElemsSize(es), 2
  {
    hide Lex, Text, Indent, Value, Printed;
    var more := if |es| > 1 then ElemsText(es[1..], f, depth) + [RBRACKET] + tail else [RBRACKET] + tail;
    var sep := if |es| > 1 then [COMMA] + (Indent(f, depth + 1, true) + more) else Indent(f, depth, false) + more;
    assert ElemsText(es, f, depth) + [RBRACKET] + tail == Text(es[0], f, depth + 1) + sep;
    SeparatorFollows(f, depth, more, |es| > 1, sep);
    ValueReadsBack(es[0], f, depth + 1, sep, reject);
    ArrayNulFree(es);
    if |es| > 1 {
      PunctBack(COMMA, Indent(f, depth + 1, true) + more);
      IndentSkipped(f, depth + 1, true, more);
      ElemsReadBack(es[1..], f, depth, done + [Printed(es[0], f)], tail, reject);
      assert done + [Printed(es[0], f)] + PrintedElems(es[1..], f) == done + PrintedElems(es, f);
    } else {
      IndentSkipped(f, depth, false, more);
      PunctBack(RBRACKET, tail);
      assert PrintedElems(es, f) == [Printed(es[0], f)];
    }
  }

  lemma ArrayNulFree(es: seq<Json>)
    requires es != []
    ensures NulFree(Array(es)) <==> NulFree(es[0]) && NulFree(Array(es[1..]))
  {
    assert es == [es[0]] + es[1..];
  }

  lemma SeparatorFollows(f: DumpFlags, depth: nat, more: seq<Byte>, comma: bool, sep: seq<Byte>)
    requires comma ==> sep == [COMMA] + (Indent(f, depth + 1, true) + more)
    requires !comma ==> sep == Indent(f, depth, false) + more && Follows(more)
    ensures Follows(sep)
  {
  }

  lemma {:induction false} ObjectReadsBack(fs: seq<Field>, f: DumpFlags, depth: nat, tail: seq<Byte>, reject: bool)
    requires Proper(Object(fs)) && Printable(Object(fs)) && Follows(tail)
    ensures ReadsBack(Text(Object(fs), f, depth) + tail, reject, ReadBack(Object(fs), f, tail))
    decreases FieldsSize(fs), 3
  {
    hide Lex, FieldsText, Indent, Members, PrintOrder, NulFree;
    var gs := PrintOrder(fs, f);
    OrderKeepsSize(fs, f);
    OrderKeeps(fs, f);
    OrderNulFree(fs, f);
    if fs == [] {
      EmptyNulFree();
      var s := Text(Object(fs), f, depth) + tail;
      assert s == [LBRACE] + ([RBRACE] + tail);
      PunctBack(LBRACE, [RBRACE] + tail);
      PunctBack(RBRACE, tail);
    } else {
      assert [] + gs == gs;
      FieldsReadBack(gs, f, depth + 1, [], tail, reject);
      assert [] + PrintedFields(gs, f) == PrintedFields(gs, f);
      BracedReadsBack(FieldsText(gs, f, depth + 1), f, depth, tail, reject);
      assert Text(Object(fs), f, depth) ==
             [LBRACE] + Indent(f, depth + 1, false) + FieldsText(gs, f, depth + 1) + [RBRACE];
    }
  }

  lemma BracedReadsBack(fields: seq<Byte>, f: DumpFlags, depth: nat, tail: seq<Byte>, reject: bool)
    requires Starts(Lex(fields + [RBRACE] + tail).token)
    ensures var body := Lex(fields + [RBRACE] + tail);
            ReadsBack([LBRACE] + Indent(f, depth + 1, false) + fields + [RBRACE] + tail, reject,
                      Members(body.token, body.rest, [], reject))
  {
    hide Lex, Indent, Members;
    var body := fields + [RBRACE] + tail;
    var rest := Indent(f, depth + 1, false) + body;
    assert [LBRACE] + Indent(f, depth + 1, false) + fields + [RBRACE] + tail == [LBRACE] + rest;
    PunctBack(LBRACE, rest);
    IndentSkipped(f, depth + 1, false, body);
  }

  lemma AllNulFree(fs: seq<Field>)
    ensures NulFree(Object(fs)) <==> forall x :: x in fs ==> FieldNulFree(x)
  {
    if NulFree(Object(fs)) {
      forall x | x in fs ensures FieldNulFree(x) {
        var i :| 0 <= i < |fs| && fs[i] == x;
      }
    }
    if forall x :: x in fs ==> FieldNulFree(x) {
      forall i | 0 <= i < |fs| ensures 0 !in fs[i].key && NulFree(fs[i].value) {
        assert FieldNulFree(fs[i]);
      }
    }
  }

  lemma OrderNulFree(fs: seq<Field>, f: DumpFlags)
    requires DistinctKeys(fs)
    ensures NulFree(Object(PrintOrder(fs, f))) <==> NulFree(Object(fs))
  {
    hide PrintOrder, NulFree, FieldNulFree;
    OrderAll(fs, f);
    AllNulFree(fs);
    AllNulFree(PrintOrder(fs, f));
  }

  lemma {:induction false} FieldsReadBack(
    fs: seq<Field>, f: DumpFlags, depth: nat, done: seq<Field>, tail: seq<Byte>, reject: bool)
    requires fs != [] && Printable(Object(fs)) && Follows(tail)
    requires forall i :: 0 <= i < |fs| ==> Proper(fs[i].value)
    requires DistinctKeys(done + fs)
    ensures var l := Lex(FieldsText(fs, f, depth) + [RBRACE] + tail);
            && Starts(l.token)
            && Members(l.token, l.rest, done, reject) ==
               (if NulFree(Object(fs)) then Parsed(Object(done + PrintedFields(fs, f)), tail) else Failed)
    decreases FieldsSize(fs), 2
  {
    hide Lex, StringText, Text, Indent, Value, Printed, Members, NulFree, DistinctKeys;
    var more := if |fs| > 1 then FieldsText(fs[1..], f, depth) + [RBRACE] + tail else [RBRACE] + tail;
    var sep := if |fs| > 1 then [COMMA] + (Indent(f, depth + 1, true) + more) else Indent(f, depth, false) + more;
    SeparatorFollows(f, depth, more, |fs| > 1, sep);
    ValueReadsBack(fs[0].value, f, depth + 1, sep, reject);
    ObjectNulFree(fs);
    var next := done + [Field(fs[0].key, Printed(fs[0].value, f))];
    if |fs| > 1 {
      NextDistinct(fs, done, Printed(fs[0].value, f));
      FieldsReadBack(fs[1..], f, depth, next, tail, reject);
      IndentSkipped(f, depth + 1, true, more);
      PunctBack(COMMA, Indent(f, depth + 1, true) + more);
      assert next + PrintedFields(fs[1..], f) == done + PrintedFields(fs, f);
    } else {
      IndentSkipped(f, depth, false, more);
      PunctBack(RBRACE, tail);
      assert next == done + PrintedFields(fs, f) by { assert PrintedFields([], f) == []; }
      assert NulFree(Object(fs[1..])) by { EmptyNulFree(); }
    }
    FieldText(fs, f, depth, tail, sep);
    MemberReadsBack(fs[0], f, depth, done, sep, reject, fs);
  }

  lemma EmptyNulFree()
    ensures NulFree(Object([]))
  {
  }

  lemma FieldText(fs: seq<Field>, f: DumpFlags, depth: nat, tail: seq<Byte>, sep: seq<Byte>)
    requires fs != [] && Printable(Object(fs))
    requires |fs| > 1 ==>
               sep == [COMMA] + (Indent(f, depth + 1, true) + (FieldsText(fs[1..], f, depth) + [RBRACE] + tail))
    requires |fs| == 1 ==> sep == Indent(f, depth, false) + ([RBRACE] + tail)
    ensures FieldsText(fs, f, depth) + [RBRACE] + tail ==
            StringText(fs[0].key, f) + ([COLON] + (Gap(f) + (Text(fs[0].value, f, depth + 1) + sep)))
  {
    hide StringText, Text, Indent, FieldsText, Gap;
    var key, value := StringText(fs[0].key, f), Text(fs[0].value, f, depth + 1);
    FieldsUnfold(fs, f, depth);
    Associate(FieldsText(fs, f, depth), [RBRACE], tail);
    if |fs| > 1 {
      Associate(FieldsText(fs[1..], f, depth), [RBRACE], tail);
      Regroup(key, Gap(f), value, [COMMA], Indent(f, depth + 1, true), FieldsText(fs[1..], f, depth), [RBRACE] + tail);
    } else {
      Regroup(key, Gap(f), value, [], Indent(f, depth, false), [], [RBRACE] + tail);
      assert [] + sep == sep && [] + ([RBRACE] + tail) == [RBRACE] + tail;
    }
  }

  lemma FieldsUnfold(fs: seq<Field>, f: DumpFlags, depth: nat)
    requires fs != [] && Printable(Object(fs))
    ensures FieldsText(fs, f, depth) ==
            StringText(fs[0].key, f) + ([COLON] + Gap(f)) + Text(fs[0].value, f, depth + 1)
            + (if |fs| > 1 then [COMMA] + Indent(f, depth + 1, true) + FieldsText(fs[1..], f, depth)
               else [] + Indent(f, depth, false) + [])
  {
    hide StringText, Text, Indent;
    assert [COLON] + Gap(f) == if f.compact then [COLON] else [COLON, SPACE];
    var start := StringText(fs[0].key, f) + ([COLON] + Gap(f)) + Text(fs[0].value, f, depth + 1);
    if |fs| > 1 {
      Associate(start, [COMMA] + Indent(f, depth + 1, true), FieldsText(fs[1..], f, depth));
    } else {
      Associate(start, Indent(f, depth, false), []);
      assert [] + Indent(f, depth, false) == Indent(f, depth, false);
    }
  }

  lemma Regroup(
    key: seq<Byte>, gap: seq<Byte>, value: seq<Byte>, comma: seq<Byte>, indent: seq<Byte>, more: seq<Byte>,
    end: seq<Byte>)
    ensures key + ([COLON] + gap) + value + (comma + indent + more) + end ==
            key + ([COLON] + (gap + (value + (comma + (indent + (more + end))))))
  {
  }

  function Gap(f: DumpFlags): seq<Byte> {
    if f.compact then [] else [SPACE]
  }

  lemma GapSkipped(f: DumpFlags, tail: seq<Byte>)
    ensures Lex(Gap(f) + tail) == Lex(tail)
  {
    hide LexAt;
    assert !f.compact ==> (Gap(f) + tail)[1..] == tail;
    assert f.compact ==> Gap(f) + tail == tail;
  }

  /** One turn of the loop of `parse_object`. */
  lemma MemberReadsBack(
    x: Field, f: DumpFlags, depth: nat, done: seq<Field>, sep: seq<Byte>, reject: bool, fs: seq<Field>)
    requires IsValid(x.key) && Printable(x.value)
    requires fs != [] && fs[0] == x && DistinctKeys(done + fs)
    requires ReadsBack(Text(x.value, f, depth + 1) + sep, reject, ReadBack(x.value, f, sep))
    ensures var l := Lex(StringText(x.key, f) + ([COLON] + (Gap(f) + (Text(x.value, f, depth + 1) + sep))));
            var c := Lex(sep);
            var next := done + [Field(x.key, Printed(x.value, f))];
            && Starts(l.token)
            && Members(l.token, l.rest, done, reject) ==
               if !FieldNulFree(x) then Failed
               else if c.token == Punct(COMMA) then Members(Lex(c.rest).token, Lex(c.rest).rest, next, reject)
               else if c.token == Punct(RBRACE) then Parsed(Object(next), c.rest)
               else Failed
  {
    hide Lex, StringText, Text, Value, Printed, Gap;
    var value := Text(x.value, f, depth + 1) + sep;
    StringReadsBack(x.key, f, [COLON] + (Gap(f) + value));
    PunctBack(COLON, Gap(f) + value);
    GapSkipped(f, value);
    SetNew(done, fs, Printed(x.value, f));
  }

  lemma ObjectNulFree(fs: seq<Field>)
    requires fs != []
    ensures NulFree(Object(fs)) <==> FieldNulFree(fs[0]) && NulFree(Object(fs[1..]))
  {
    assert fs == [fs[0]] + fs[1..];
  }

  lemma NextDistinct(fs: seq<Field>, done: seq<Field>, value: Json)
    requires fs != [] && DistinctKeys(done + fs)
    ensures DistinctKeys(done + [Field(fs[0].key, value)] + fs[1..])
  {
    var a := done + [Field(fs[0].key, value)] + fs[1..];
    assert forall i :: 0 <= i < |a| ==> a[i].key == (done + fs)[i].key;
  }

  /** A key that is new is added at the end and is no duplicate. */
  lemma SetNew(done: seq<Field>, fs: seq<Field>, value: Json)
    requires fs != [] && DistinctKeys(done + fs)
    ensures SetField(done, fs[0].key, value) == done + [Field(fs[0].key, value)]
    ensures Get(done, fs[0].key) == None
  {
    var n := |done|;
    assert (done + fs)[n] == fs[0];
    forall i | 0 <= i < n ensures done[i].key != fs[0].key {
      assert (done + fs)[i] == done[i];
    }
    SetAbsent(done, fs[0].key, value);
  }

  lemma {:induction false} SetAbsent(fs: seq<Field>, key: seq<Byte>, value: Json)
    requires forall i :: 0 <= i < |fs| ==> fs[i].key != key
    ensures SetField(fs, key, value) == fs + [Field(key, value)] && Get(fs, key) == None
  {
    if fs != [] {
      SetAbsent(fs[1..], key, value);
    }
  }

  // ----- whole documents

  predicate Accepted(v: Json, g: LoadFlags) {
    g.decodeAny || v.Array? || v.Object?
  }

  lemma FirstToken(v: Json, f: DumpFlags, tail: seq<Byte>)
    requires Printable(v) && Proper(v) && Follows(tail)
    ensures var t := Lex(Text(v, f, 0) + tail).token;
            t == Punct(LBRACKET) || t == Punct(LBRACE) <==> v.Array? || v.Object?
  {
    hide Lex, ElemsText, FieldsText, Indent, StringText, IntText, PrintOrder;
    var s := Text(v, f, 0) + tail;
    match v {
      case Array(es) =>
        assert s == [LBRACKET] + s[1..];
        PunctBack(LBRACKET, s[1..]);
      case Object(fs) =>
        assert s == [LBRACE] + s[1..];
        PunctBack(LBRACE, s[1..]);
      case String(x) => StringReadsBack(x, f, tail);
      case Integer(i) => IntegerBack(i, tail);
      case Null => WordBack(NULL_TEXT, tail);
      case True => WordBack(TRUE_TEXT, tail);
      case False => WordBack(FALSE_TEXT, tail);
    }
  }

  /** Loading printed text, for every combination of printing and loading flags: it succeeds
      exactly when a top-level value of that kind is allowed and no string holds a NUL, and
      then gives a value equal to the one printed, using up the whole text. */
  lemma RoundTrip(v: Json, f: DumpFlags, g: LoadFlags)
    requires Proper(v) && Printable(v)
    ensures Load(Text(v, f, 0), g).Parsed? <==> Accepted(v, g) && NulFree(v)
    ensures Load(Text(v, f, 0), g).Parsed? ==>
              Load(Text(v, f, 0), g) == Parsed(Printed(v, f), []) && VarEqual(Printed(v, f), v)
    ensures !Load(Text(v, f, 0), g).Parsed? ==> Load(Text(v, f, 0), g) == Failed
  {
    hide Text, Lex, Value, Printed, NulFree, Proper, Printable;
    var s := Text(v, f, 0);
    assert s + [] == s;
    FirstToken(v, f, []);
    ValueReadsBack(v, f, 0, [], g.rejectDuplicates);
    PrintedEqual(v, f);
    EndOfText();
  }

  lemma EndOfText()
    ensures Lex([]).token == Eof
  {
  }

  // ----- what loading can produce

  lemma KeysOfRest(f: Field, fs: seq<Field>)
    ensures Keys([f] + fs) == {f.key} + Keys(fs)
  {
    var gs := [f] + fs;
    assert forall i :: 0 <= i < |fs| ==> gs[i + 1] == fs[i];
    forall k ensures k in Keys(gs) <==> k in {f.key} + Keys(fs) {
      if k in Keys(fs) {
        var i :| 0 <= i < |fs| && fs[i].key == k;
        assert gs[i + 1].key == k;
      }
      if k == f.key {
        assert gs[0].key == k;
      }
    }
  }

  lemma DistinctRest(f: Field, fs: seq<Field>)
    ensures DistinctKeys([f] + fs) <==> DistinctKeys(fs) && f.key !in Keys(fs)
  {
    var gs := [f] + fs;
    if DistinctKeys(gs) {
      forall i, j | 0 <= i < j < |fs| ensures fs[i].key != fs[j].key {
        assert gs[i + 1] == fs[i] && gs[j + 1] == fs[j];
      }
      forall i | 0 <= i < |fs| ensures fs[i].key != f.key {
        assert gs[i + 1] == fs[i] && gs[0] == f;
      }
    }
    if DistinctKeys(fs) && f.key !in Keys(fs) {
      assert forall i :: 0 < i < |gs| ==> gs[i] == fs[i - 1] && gs[i].key in Keys(fs);
    }
  }

  /** Setting a member keeps keys distinct and adds at most that key. */
  lemma {:induction false} SetKeeps(fs: seq<Field>, key: seq<Byte>, value: Json)
    requires DistinctKeys(fs)
    ensures DistinctKeys(SetField(fs, key, value))
    ensures forall x :: x in SetField(fs, key, value) ==> x in fs || x == Field(key, value)
    ensures Keys(SetField(fs, key, value)) == Keys(fs) + {key}
  {
    hide DistinctKeys, Keys;
    if fs == [] {
      KeysOfRest(Field(key, value), []);
      DistinctRest(Field(key, value), []);
      assert [Field(key, value)] + [] == [Field(key, value)];
      NoKeys();
    } else {
      assert fs == [fs[0]] + fs[1..];
      KeysOfRest(fs[0], fs[1..]);
      DistinctRest(fs[0], fs[1..]);
      if fs[0].key == key {
        KeysOfRest(Field(key, value), fs[1..]);
        DistinctRest(Field(key, value), fs[1..]);
      } else {
        SetKeeps(fs[1..], key, value);
        KeysOfRest(fs[0], SetField(fs[1..], key, value));
        DistinctRest(fs[0], SetField(fs[1..], key, value));
      }
    }
  }

  lemma NoKeys()
    ensures Keys([]) == {} && DistinctKeys([])
  {
  }

  /** A value that can be printed and loaded again. */
  ghost predicate Clean(v: Json) {
    Proper(v) && Printable(v) && NulFree(v)
  }

  ghost predicate CleanElems(es: seq<Json>) {
    forall i :: 0 <= i < |es| ==> Clean(es[i])
  }

  ghost predicate CleanFields(fs: seq<Field>) {
    DistinctKeys(fs) && forall x :: x in fs ==> IsValid(x.key) && 0 !in x.key && Clean(x.value)
  }

  lemma ArrayIsClean(es: seq<Json>)
    requires CleanElems(es)
    ensures Clean(Array(es))
  {
  }

  lemma ObjectIsClean(fs: seq<Field>)
    requires CleanFields(fs)
    ensures Clean(Object(fs))
  {
    assert forall i :: 0 <= i < |fs| ==> fs[i] in fs;
  }

  /** A token carries valid text and a 64-bit integer. */
  predicate CleanToken(t: Token) {
    (t.Str? ==> IsValid(t.s) && 0 !in t.s) && (t.Int? ==> InInt64(t.i))
  }

  lemma LexIsClean(s: seq<Byte>)
    ensures CleanToken(Lex(s).token)
  {
    hide StringBody;
    var t := SkipSpace(s);
    if t != [] && t[0] == QUOTE && StringBody(t[1..]).Chars? {
      BodyIsText(t[1..]);
    }
  }

  lemma {:induction false} ValueIsClean(t: Token, s: seq<Byte>, reject: bool)
    requires CleanToken(t) && Value(t, s, reject).Parsed?
    ensures Clean(Value(t, s, reject).value)
    decreases |s| + Weight(t), 0
  {
    hide Lex, Elements, Members;
    if t.Punct? {
      var l := Lex(s);
      LexIsClean(s);
      if t.c == LBRACE && l.token != Punct(RBRACE) {
        MembersAreClean(l.token, l.rest, [], reject);
      } else if t.c == LBRACKET && l.token != Punct(RBRACKET) {
        ElementsAreClean(l.token, l.rest, [], reject);
      }
    }
  }

  lemma {:induction false} ElementsAreClean(t: Token, s: seq<Byte>, done: seq<Json>, reject: bool)
    requires CleanToken(t) && Elements(t, s, done, reject).Parsed? && CleanElems(done)
    ensures Clean(Elements(t, s, done, reject).value)
    decreases |s| + Weight(t), 1
  {
    hide Lex, Value, Clean;
    ValueIsClean(t, s, reject);
    var e := Value(t, s, reject);
    var l := Lex(e.rest);
    ArrayIsClean(done + [e.value]);
    if l.token == Punct(COMMA) {
      LexIsClean(l.rest);
      ElementsAreClean(Lex(l.rest).token, Lex(l.rest).rest, done + [e.value], reject);
    }
  }

  lemma {:induction false} MembersAreClean(t: Token, s: seq<Byte>, done: seq<Field>, reject: bool)
    requires CleanToken(t) && Members(t, s, done, reject).Parsed? && CleanFields(done)
    ensures Clean(Members(t, s, done, reject).value)
    decreases |s| + Weight(t), 1
  {
    hide Lex, Value, Clean, SetField, IsValid;
    var first := Lex(Lex(s).rest);
    LexIsClean(Lex(s).rest);
    ValueIsClean(first.token, first.rest, reject);
    var e := Value(first.token, first.rest, reject);
    var l := Lex(e.rest);
    SetKeeps(done, t.s, e.value);
    var fs := SetField(done, t.s, e.value);
    assert CleanFields(fs);
    ObjectIsClean(fs);
    if l.token == Punct(COMMA) {
      LexIsClean(l.rest);
      MembersAreClean(Lex(l.rest).token, Lex(l.rest).rest, fs, reject);
    }
  }

  /** Whatever was loaded prints, in any layout, to text that loads to an equal value. */
  lemma LoadedRoundTrip(text: seq<Byte>, g: LoadFlags, f: DumpFlags, h: LoadFlags)
    requires Load(text, g).Parsed?
    ensures var v := Load(text, g).value;
            && Proper(v) && Printable(v)
            && (Accepted(v, h) ==>
                  var r := Load(Text(v, f, 0), h);
                  r.Parsed? && r.rest == [] && VarEqual(r.value, v))
  {
    hide Text, Lex, Value, Load;
    LoadIsClean(text, g);
    RoundTrip(Load(text, g).value, f, h);
  }

  lemma LoadIsClean(text: seq<Byte>, g: LoadFlags)
    requires Load(text, g).Parsed?
    ensures Clean(Load(text, g).value)
  {
    hide Lex, Value, Clean;
    var l := Lex(text);
    LexIsClean(text);
    ValueIsClean(l.token, l.rest, g.rejectDuplicates);
  }
}

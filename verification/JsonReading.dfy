/** Loading is right on every text: it succeeds exactly on the texts of the grammar, up to the
    NUL bytes it passes over, and yields the value the grammar gives. */
module JsonReading {
  import opened Options
  import opened Utf8
  import opened JsonValue
  import G = JsonGrammar
  import JsonStrings
  import opened JsonSyntax
  import opened JsonTokens

  // ----- members of an object

  /** Setting a field stores the value under its key and changes no other. */
  lemma {:induction false} SetFieldGets(fs: seq<Field>, key: seq<Byte>, value: Json, k: seq<Byte>)
    ensures Get(G.SetField(fs, key, value), k) == if k == key then Some(value) else Get(fs, k)
  {
    if fs != [] && fs[0].key != key {
      SetFieldGets(fs[1..], key, value, k);
    }
  }

  /** It does so in place, or at the end. */
  lemma {:induction false} SetFieldBinds(fs: seq<Field>, key: seq<Byte>, value: Json)
    ensures G.SetField(fs, key, value) == Bind(fs, key, value)
  {
    if fs != [] && fs[0].key != key {
      SetFieldBinds(fs[1..], key, value);
    }
  }

  /** The value of the last member with this key. */
  function LastValue(ms: seq<Member>, key: seq<Byte>): Option<Json> {
    if ms == [] then None
    else if ItemsBytes(ms[|ms| - 1].key) == key then Some(Meaning(ms[|ms| - 1].value))
    else LastValue(ms[..|ms| - 1], key)
  }

  lemma {:induction false} BindingsSnoc(fs: seq<Field>, ms: seq<Member>, m: Member)
    ensures Bindings(fs, ms + [m]) == Bind(Bindings(fs, ms), ItemsBytes(m.key), Meaning(m.value))
    decreases ms
  {
    if ms == [] {
      assert (ms + [m])[1..] == [];
    } else {
      BindingsSnoc(Bind(fs, ItemsBytes(ms[0].key), Meaning(ms[0].value)), ms[1..], m);
      assert (ms + [m])[1..] == ms[1..] + [m];
    }
  }

  /** An object holds, under each key, the value of the last member with that key. */
  lemma {:induction false} LastWins(ms: seq<Member>, key: seq<Byte>)
    ensures Get(Bindings([], ms), key) == LastValue(ms, key)
  {
    hide Meaning, ItemsBytes, Bind;
    if ms != [] {
      var n := |ms| - 1;
      assert ms == ms[..n] + [ms[n]];
      LastWins(ms[..n], key);
      BindingsSnoc([], ms[..n], ms[n]);
      var fs := Bindings([], ms[..n]);
      SetFieldBinds(fs, ItemsBytes(ms[n].key), Meaning(ms[n].value));
      SetFieldGets(fs, ItemsBytes(ms[n].key), Meaning(ms[n].value), key);
    }
  }

  /** None of the keys is among the fields, and they differ from each other. */
  ghost predicate NewKeys(done: seq<Field>, ms: seq<Member>) {
    && (forall i :: 0 <= i < |ms| ==> Get(done, ItemsBytes(ms[i].key)) == None)
    && (forall i, j :: 0 <= i < j < |ms| ==> ItemsBytes(ms[i].key) != ItemsBytes(ms[j].key))
  }

  /** Checking key by key is checking them all. */
  lemma NewKeysStep(done: seq<Field>, ms: seq<Member>, value: Json)
    requires ms != []
    ensures var key := ItemsBytes(ms[0].key);
            NewKeys(done, ms) <==> Get(done, key) == None && NewKeys(G.SetField(done, key, value), ms[1..])
  {
    hide ItemsBytes, Get;
    var key := ItemsBytes(ms[0].key);
    var next := G.SetField(done, key, value);
    var rest := ms[1..];
    forall k ensures Get(next, k) == if k == key then Some(value) else Get(done, k) {
      SetFieldGets(done, key, value, k);
    }
    if Get(done, key) == None && NewKeys(next, rest) {
      forall i | 0 <= i < |ms| ensures Get(done, ItemsBytes(ms[i].key)) == None {
        assert i > 0 ==> ms[i] == rest[i - 1];
      }
      forall i, j | 0 <= i < j < |ms| ensures ItemsBytes(ms[i].key) != ItemsBytes(ms[j].key) {
        assert ms[j] == rest[j - 1];
        assert i > 0 ==> ms[i] == rest[i - 1];
      }
    }
    if NewKeys(done, ms) {
      forall i | 0 <= i < |rest| ensures Get(next, ItemsBytes(rest[i].key)) == None {
        assert rest[i] == ms[i + 1];
      }
      forall i, j | 0 <= i < j < |rest| ensures ItemsBytes(rest[i].key) != ItemsBytes(rest[j].key) {
        assert rest[i] == ms[i + 1] && rest[j] == ms[j + 1];
      }
    }
  }

  // ----- every text of the grammar is read

  predicate Starts(k: G.Token) {
    k != G.Eof && k != G.Punct(0x5D) && k != G.Punct(0x7D)
  }

  /** White space, a separator or a closing bracket follows. */
  ghost predicate Delimited(tail: seq<Byte>) {
    tail != [] && tail[0] in {0x20, 0x09, 0x0A, 0x0D, 0x2C, 0x5D, 0x7D}
  }

  lemma DelimitedEnds(t: Tree, ws: seq<Byte>, tail: seq<Byte>)
    requires Ws(ws) && Delimited(tail)
    ensures Ends(t, ws + tail)
  {
  }

  lemma LeafRead(t: Tree, tail: seq<Byte>, reject: bool)
    requires TreeOk(t, false) && Ends(t, tail) && !t.List? && !t.Dict?
    ensures var l := G.Lex(TreeText(t, tail));
            Starts(l.token) && G.Value(l.token, l.rest, reject) == G.Parsed(Meaning(t), tail)
  {
    hide G.Lex, ItemsText, ItemsBytes, Decimal;
    match t {
      case Word(l, nul) => WordRead(l, nul, tail);
      case Num(negative, ds, nul) => NumRead(negative, ds, nul, tail);
      case Quoted(items) => StringRead(items, tail);
    }
  }

  /** A tree of the grammar is read as the value it denotes. */
  lemma {:induction false} TreeRead(t: Tree, tail: seq<Byte>, reject: bool)
    requires TreeOk(t, reject) && Ends(t, tail)
    ensures TreeOk(t, false)
    ensures var l := G.Lex(TreeText(t, tail));
            Starts(l.token) && G.Value(l.token, l.rest, reject) == G.Parsed(Meaning(t), tail)
    decreases TreeSize(t), 0
  {
    Unrejected(t, reject);
    match t {
      case List(ws, es) => ListRead(ws, es, tail, reject);
      case Dict(ws, ms) => DictRead(ws, ms, tail, reject);
      case _ => LeafRead(t, tail, reject);
    }
  }

  lemma {:induction false} ListRead(ws: seq<Byte>, es: seq<Elem>, tail: seq<Byte>, reject: bool)
    requires TreeOk(List(ws, es), reject) && TreeOk(List(ws, es), false)
    ensures var l := G.Lex(TreeText(List(ws, es), tail));
            Starts(l.token) && G.Value(l.token, l.rest, reject) == G.Parsed(Array(Meanings(es)), tail)
    decreases ElemsSize(es), 3
  {
    hide G.Lex, G.Elements, ElemsText, Meanings;
    if es == [] {
      PunctRead(0x5B, ws + ([0x5D] + tail));
      WsRead(ws, [0x5D] + tail);
      PunctRead(0x5D, tail);
      NoMeanings(es);
    } else {
      PunctRead(0x5B, ElemsText(es, [0x5D] + tail));
      ElemsRead(es, [], tail, reject);
      assert [] + Meanings(es) == Meanings(es);
    }
  }

  lemma NoMeanings(es: seq<Elem>)
    requires es == []
    ensures Meanings(es) == []
  {
  }

  lemma {:induction false} ElemsRead(es: seq<Elem>, done: seq<Json>, tail: seq<Byte>, reject: bool)
    requires es != [] && ElemsOk(es, reject) && ElemsOk(es, false)
    ensures var l := G.Lex(ElemsText(es, [0x5D] + tail));
            && Starts(l.token)
            && G.Elements(l.token, l.rest, done, reject) == G.Parsed(Array(done + Meanings(es)), tail)
    decreases ElemsSize(es), 2
  {
    hide G.Lex, G.Value, TreeText, Meaning, Ends;
    var e, v := es[0], Meaning(es[0].value);
    assert ElemOk(e, reject) && ElemOk(e, false);
    if |es| == 1 {
      var more := [0x5D] + tail;
      DelimitedEnds(e.value, e.after, more);
      TreeRead(e.value, e.after + more, reject);
      WsRead(e.before, TreeText(e.value, e.after + more));
      WsRead(e.after, more);
      PunctRead(0x5D, tail);
      NoMeanings(es[1..]);
      assert Meanings(es) == [v] + [] == [v];
    } else {
      var rest := ElemsText(es[1..], [0x5D] + tail);
      var more := [0x2C] + rest;
      DelimitedEnds(e.value, e.after, more);
      TreeRead(e.value, e.after + more, reject);
      WsRead(e.before, TreeText(e.value, e.after + more));
      WsRead(e.after, more);
      PunctRead(0x2C, rest);
      ElemsRead(es[1..], done + [v], tail, reject);
      assert done + [v] + Meanings(es[1..]) == done + Meanings(es);
    }
  }

  lemma {:induction false} DictRead(ws: seq<Byte>, ms: seq<Member>, tail: seq<Byte>, reject: bool)
    requires TreeOk(Dict(ws, ms), reject) && TreeOk(Dict(ws, ms), false)
    ensures var l := G.Lex(TreeText(Dict(ws, ms), tail));
            Starts(l.token) && G.Value(l.token, l.rest, reject) == G.Parsed(Object(Bindings([], ms)), tail)
    decreases MembersSize(ms), 3
  {
    hide G.Lex, G.Members, MembersText;
    if ms == [] {
      PunctRead(0x7B, ws + ([0x7D] + tail));
      WsRead(ws, [0x7D] + tail);
      PunctRead(0x7D, tail);
    } else {
      PunctRead(0x7B, MembersText(ms, [0x7D] + tail));
      MembersRead(ms, [], tail, reject);
    }
  }

  lemma {:induction false} MembersRead(ms: seq<Member>, done: seq<Field>, tail: seq<Byte>, reject: bool)
    requires ms != [] && MembersOk(ms, reject) && MembersOk(ms, false) && (reject ==> NewKeys(done, ms))
    ensures var l := G.Lex(MembersText(ms, [0x7D] + tail));
            && Starts(l.token)
            && G.Members(l.token, l.rest, done, reject) == G.Parsed(Object(Bindings(done, ms)), tail)
    decreases MembersSize(ms), 2
  {
    hide G.Lex, G.Value, TreeText, Meaning, Ends, G.SetField, Bind, ItemsText, ItemsBytes, NewKeys;
    var m, key, v := ms[0], ItemsBytes(ms[0].key), Meaning(ms[0].value);
    assert MemberOk(m, reject) && MemberOk(m, false);
    var next := G.SetField(done, key, v);
    SetFieldBinds(done, key, v);
    NewKeysStep(done, ms, v);
    var more;
    if |ms| == 1 {
      more := [0x7D] + tail;
      PunctRead(0x7D, tail);
      NoBindings(next, ms[1..]);
    } else {
      more := [0x2C] + MembersText(ms[1..], [0x7D] + tail);
      PunctRead(0x2C, MembersText(ms[1..], [0x7D] + tail));
      MembersRead(ms[1..], next, tail, reject);
    }
    DelimitedEnds(m.value, m.after, more);
    TreeRead(m.value, m.after + more, reject);
    MemberRead(m, more);
  }

  lemma NoBindings(fs: seq<Field>, ms: seq<Member>)
    requires ms == []
    ensures Bindings(fs, ms) == fs
  {
  }

  /** The tokens of one member. */
  lemma MemberRead(m: Member, more: seq<Byte>)
    requires MemberOk(m, false)
    ensures var value := TreeText(m.value, m.after + more);
            var colon := m.colon + ([0x3A] + (m.space + value));
            && G.Lex(m.before + ([0x22] + ItemsText(m.key, [0x22] + colon))) == G.Lexed(G.Str(ItemsBytes(m.key)), colon)
            && G.Lex(colon) == G.Lexed(G.Punct(0x3A), m.space + value)
            && G.Lex(m.space + value) == G.Lex(value) && G.Lex(m.after + more) == G.Lex(more)
  {
    hide G.Lex, TreeText, ItemsText, ItemsBytes;
    var value := TreeText(m.value, m.after + more);
    var colon := m.colon + ([0x3A] + (m.space + value));
    WsRead(m.before, [0x22] + ItemsText(m.key, [0x22] + colon));
    StringRead(m.key, colon);
    WsRead(m.colon, [0x3A] + (m.space + value));
    PunctRead(0x3A, m.space + value);
    WsRead(m.space, value);
    WsRead(m.after, more);
  }

  // ----- every text that is read is one of the grammar

  /** What was read as a value was written as a tree. */
  lemma {:induction false} ValueWritten(s: seq<Byte>, reject: bool) returns (ws: seq<Byte>, t: Tree)
    requires var l := G.Lex(s); G.Value(l.token, l.rest, reject).Parsed?
    ensures var l := G.Lex(s);
            var r := G.Value(l.token, l.rest, reject);
            && Ws(ws) && TreeOk(t, reject) && TreeOk(t, false) && Ends(t, r.rest)
            && s == ws + TreeText(t, r.rest) && Meaning(t) == r.value
            && (t.List? || t.Dict? <==> l.token == G.Punct(0x5B) || l.token == G.Punct(0x7B))
    decreases |s|, 0
  {
    hide G.Lex, G.Elements, G.Members;
    var l := G.Lex(s);
    if l.token.Punct? {
      ws := PunctWritten(s);
      if l.token.c == 0x5B {
        t := ListWritten(l.rest, reject);
      } else {
        t := DictWritten(l.rest, reject);
      }
    } else {
      ws, t := LeafWritten(s);
    }
  }

  lemma {:induction false} ListWritten(s: seq<Byte>, reject: bool) returns (t: Tree)
    requires G.Value(G.Punct(0x5B), s, reject).Parsed?
    ensures var r := G.Value(G.Punct(0x5B), s, reject);
            && t.List? && TreeOk(t, reject) && TreeOk(t, false)
            && [0x5B] + s == TreeText(t, r.rest) && Meaning(t) == r.value
    decreases |s|, 2
  {
    hide G.Lex, G.Elements, ElemsText;
    var l := G.Lex(s);
    if l.token == G.Punct(0x5D) {
      var ws := PunctWritten(s);
      t := List(ws, []);
    } else {
      var es := ElemsWritten(s, [], reject);
      t := List([], es);
      assert [] + Meanings(es) == Meanings(es);
    }
  }

  lemma {:induction false} ElemsWritten(s: seq<Byte>, done: seq<Json>, reject: bool) returns (es: seq<Elem>)
    requires var l := G.Lex(s); G.Elements(l.token, l.rest, done, reject).Parsed?
    ensures var l := G.Lex(s);
            var r := G.Elements(l.token, l.rest, done, reject);
            && es != [] && ElemsOk(es, reject) && ElemsOk(es, false)
            && s == ElemsText(es, [0x5D] + r.rest) && r.value == Array(done + Meanings(es))
    decreases |s|, 1
  {
    hide G.Lex, G.Value, TreeText, Meaning, Ends;
    var l := G.Lex(s);
    var ws, t := ValueWritten(s, reject);
    var v := G.Value(l.token, l.rest, reject);
    var m := G.Lex(v.rest);
    var after := PunctWritten(v.rest);
    var e := Elem(ws, t, after);
    assert ElemOk(e, reject) && ElemOk(e, false);
    if m.token == G.Punct(0x2C) {
      var more := ElemsWritten(m.rest, done + [v.value], reject);
      es := [e] + more;
      assert es[1..] == more;
      assert done + [v.value] + Meanings(more) == done + Meanings(es);
    } else {
      es := [e];
      NoMeanings(es[1..]);
      assert Meanings(es) == [v.value] + [] == [v.value];
    }
  }

  lemma {:induction false} DictWritten(s: seq<Byte>, reject: bool) returns (t: Tree)
    requires G.Value(G.Punct(0x7B), s, reject).Parsed?
    ensures var r := G.Value(G.Punct(0x7B), s, reject);
            && t.Dict? && TreeOk(t, reject) && TreeOk(t, false)
            && [0x7B] + s == TreeText(t, r.rest) && Meaning(t) == r.value
    decreases |s|, 2
  {
    hide G.Lex, G.Members, MembersText;
    var l := G.Lex(s);
    if l.token == G.Punct(0x7D) {
      var ws := PunctWritten(s);
      t := Dict(ws, []);
    } else {
      var ms := MembersWritten(s, [], reject);
      t := Dict([], ms);
    }
  }

  lemma {:induction false} MembersWritten(s: seq<Byte>, done: seq<Field>, reject: bool) returns (ms: seq<Member>)
    requires var l := G.Lex(s); G.Members(l.token, l.rest, done, reject).Parsed?
    ensures var l := G.Lex(s);
            var r := G.Members(l.token, l.rest, done, reject);
            && ms != [] && MembersOk(ms, reject) && MembersOk(ms, false) && (reject ==> NewKeys(done, ms))
            && s == MembersText(ms, [0x7D] + r.rest) && r.value == Object(Bindings(done, ms))
    decreases |s|, 1
  {
    hide G.Lex, G.Value, TreeText, Meaning, Ends, G.SetField, Bind, ItemsText, ItemsBytes, NewKeys, Get;
    var m, k := MemberWritten(s, reject);
    var l := G.Lex(s);
    var first := G.Lex(G.Lex(l.rest).rest);
    var v := G.Value(first.token, first.rest, reject);
    var n := G.Lex(v.rest);
    var key := ItemsBytes(m.key);
    var next := G.SetField(done, key, v.value);
    SetFieldBinds(done, key, v.value);
    if n.token == G.Punct(0x2C) {
      var more := MembersWritten(n.rest, next, reject);
      ms := [m] + more;
      assert ms[1..] == more;
    } else {
      ms := [m];
      NoBindings(next, ms[1..]);
      NoNewKeys(next, ms[1..]);
    }
    NewKeysStep(done, ms, v.value);
  }

  lemma NoNewKeys(fs: seq<Field>, ms: seq<Member>)
    requires ms == []
    ensures NewKeys(fs, ms)
  {
  }

  /** One member as it was written, up to the separator k after it. */
  lemma {:induction false} MemberWritten(s: seq<Byte>, reject: bool) returns (m: Member, k: Byte)
    requires var l := G.Lex(s);
             var colon := G.Lex(l.rest);
             var first := G.Lex(colon.rest);
             var v := G.Value(first.token, first.rest, reject);
             l.token.Str? && colon.token == G.Punct(0x3A) && v.Parsed? && G.Lex(v.rest).token.Punct?
    ensures var l := G.Lex(s);
            var colon := G.Lex(l.rest);
            var first := G.Lex(colon.rest);
            var v := G.Value(first.token, first.rest, reject);
            var n := G.Lex(v.rest);
            && MemberOk(m, reject) && MemberOk(m, false) && k == n.token.c
            && l.token.s == ItemsBytes(m.key) && Meaning(m.value) == v.value && |n.rest| < |s|
            && s == m.before + ([0x22] + ItemsText(m.key, [0x22] + (m.colon + ([0x3A] +
                      (m.space + TreeText(m.value, m.after + ([k] + n.rest)))))))
    decreases |s|, 0
  {
    hide G.Lex, G.Value, Meaning, Ends, ItemsText, ItemsBytes;
    var l := G.Lex(s);
    var before, key := LeafWritten(s);
    var beforeColon := PunctWritten(l.rest);
    var colon := G.Lex(l.rest);
    var space, t := ValueWritten(colon.rest, reject);
    var first := G.Lex(colon.rest);
    var v := G.Value(first.token, first.rest, reject);
    var after := PunctWritten(v.rest);
    k := G.Lex(v.rest).token.c;
    m := Member(before, key.items, beforeColon, space, t, after);
    QuotedText(key, l.rest);
  }

  lemma QuotedText(t: Tree, tail: seq<Byte>)
    requires t.Quoted? && TreeOk(t, false)
    ensures TreeText(t, tail) == [0x22] + ItemsText(t.items, [0x22] + tail)
  {
  }

  // ----- whole texts

  /** The text is white space, the tree t, and `rest`; t is of a kind allowed at the top, and
      unless the check for the end is disabled only white space is left. */
  ghost predicate Document(text: seq<Byte>, f: G.LoadFlags, rest: seq<Byte>, lead: seq<Byte>, t: Tree) {
    && Ws(lead) && TreeOk(t, f.rejectDuplicates) && TreeOk(t, false) && Ends(t, rest)
    && (f.decodeAny || t.List? || t.Dict?) && (f.disableEofCheck || Ws(rest))
    && text == lead + TreeText(t, rest)
  }

  lemma AtEnd(rest: seq<Byte>)
    ensures G.Lex(rest).token == G.Eof <==> Ws(rest)
  {
    hide G.LexAt;
    var ws := WsWritten(rest);
    if Ws(rest) {
      WsRead(rest, []);
      assert rest + [] == rest;
    }
    EofIsEmpty(G.SkipSpace(rest));
    assert ws + [] == ws;
  }

  lemma EofIsEmpty(s: seq<Byte>)
    ensures G.LexAt(s).token == G.Eof <==> s == []
  {
    hide G.StringBody, G.AlphaRun;
    if s != [] {
      JsonStrings.DigitsKinds(true, s[1..]);
      JsonStrings.DigitsKinds(false, s);
    }
  }

  /** The token a value starts with tells whether it is an array or an object. */
  lemma FirstToken(t: Tree, tail: seq<Byte>)
    requires TreeOk(t, false) && Ends(t, tail)
    ensures var k := G.Lex(TreeText(t, tail)).token;
            t.List? || t.Dict? <==> k == G.Punct(0x5B) || k == G.Punct(0x7B)
  {
    hide G.Lex, ItemsText, ItemsBytes, Decimal, ElemsText, MembersText;
    var s := TreeText(t, tail);
    match t {
      case Word(l, nul) => WordRead(l, nul, tail);
      case Num(negative, ds, nul) => NumRead(negative, ds, nul, tail);
      case Quoted(items) => StringRead(items, tail);
      case List(_, _) =>
        assert s == [0x5B] + s[1..];
        PunctRead(0x5B, s[1..]);
      case Dict(_, _) =>
        assert s == [0x7B] + s[1..];
        PunctRead(0x7B, s[1..]);
    }
  }

  lemma DocumentRead(text: seq<Byte>, f: G.LoadFlags, rest: seq<Byte>, lead: seq<Byte>, t: Tree)
    requires Document(text, f, rest, lead, t)
    ensures G.Load(text, f) == G.Parsed(Meaning(t), rest)
  {
    hide G.Lex, G.Value, TreeText, Meaning, Ends, TreeOk;
    TreeRead(t, rest, f.rejectDuplicates);
    WsRead(lead, TreeText(t, rest));
    FirstToken(t, rest);
    AtEnd(rest);
  }

  lemma DocumentWritten(text: seq<Byte>, f: G.LoadFlags) returns (lead: seq<Byte>, t: Tree)
    requires G.Load(text, f).Parsed?
    ensures Document(text, f, G.Load(text, f).rest, lead, t) && Meaning(t) == G.Load(text, f).value
  {
    hide G.Lex, G.Value, TreeText, Meaning, Ends, TreeOk;
    lead, t := ValueWritten(text, f.rejectDuplicates);
    AtEnd(G.Load(text, f).rest);
  }

  /** For every text and all flags: loading yields v and leaves `rest` exactly if the text is a
      tree that denotes v, followed by `rest`. */
  lemma LoadIff(text: seq<Byte>, f: G.LoadFlags, v: Json, rest: seq<Byte>)
    ensures G.Load(text, f) == G.Parsed(v, rest) <==>
            exists lead, t :: Document(text, f, rest, lead, t) && Meaning(t) == v
  {
    hide G.Load, Document, Meaning;
    if G.Load(text, f) == G.Parsed(v, rest) {
      var lead, t := DocumentWritten(text, f);
    }
    if lead, t :| Document(text, f, rest, lead, t) && Meaning(t) == v {
      DocumentRead(text, f, rest, lead, t);
    }
  }

  // ----- bytes that no grammar has

  lemma UnitNulFree(u: Unit)
    requires u.Valid()
    ensures 0 !in u.Text()
  {
  }

  lemma ItemNulFree(x: Item)
    requires ItemOk(x)
    ensures 0 !in ItemText(x)
  {
    hide Encode, HexChar;
    match x {
      case Plain(cp) => JsonStrings.ZeroByte(cp);
      case Short(letter, cp) =>
        assert forall i :: 0 <= i < |SHORT| ==> SHORT[i].0 != 0;
      case Escape(u) => UnitNulFree(u);
      case Surrogates(high, low) =>
        UnitNulFree(high);
        UnitNulFree(low);
    }
  }

  lemma {:induction false} ItemsNulFree(items: seq<Item>, tail: seq<Byte>)
    requires ItemsOk(items)
    ensures 0 in ItemsText(items, tail) <==> 0 in tail
  {
    hide ItemText;
    if items != [] {
      ItemNulFree(items[0]);
      ItemsNulFree(items[1..], tail);
    }
  }

  lemma WsNulFree(ws: seq<Byte>)
    requires Ws(ws)
    ensures 0 !in ws
  {
  }

  /** The text of a tree holds a NUL exactly if one was passed over. */
  lemma {:induction false} NulIff(t: Tree, tail: seq<Byte>)
    requires TreeOk(t, false)
    ensures 0 in TreeText(t, tail) <==> !NoNul(t) || 0 in tail
    decreases TreeSize(t), 0
  {
    hide ItemsText, Decimal;
    match t {
      case Word(l, nul) =>
      case Num(negative, ds, nul) => assert 0 !in DigitsText(ds);
      case Quoted(items) => ItemsNulFree(items, [0x22] + tail);
      case List(ws, es) =>
        WsNulFree(ws);
        if es != [] {
          ElemsNulIff(es, [0x5D] + tail);
        }
      case Dict(ws, ms) =>
        WsNulFree(ws);
        if ms != [] {
          MembersNulIff(ms, [0x7D] + tail);
        }
    }
  }

  lemma {:induction false} ElemsNulIff(es: seq<Elem>, tail: seq<Byte>)
    requires es != [] && ElemsOk(es, false)
    ensures 0 in ElemsText(es, tail) <==> (exists i :: 0 <= i < |es| && !NoNul(es[i].value)) || 0 in tail
    decreases ElemsSize(es), 1
  {
    hide TreeText, NoNul;
    var e := es[0];
    assert ElemOk(e, false);
    WsNulFree(e.before);
    WsNulFree(e.after);
    var more := if |es| == 1 then tail else [0x2C] + ElemsText(es[1..], tail);
    NulIff(e.value, e.after + more);
    if |es| > 1 {
      ElemsNulIff(es[1..], tail);
      assert forall i :: 0 < i < |es| ==> es[i] == es[1..][i - 1];
      assert forall i :: 0 <= i < |es| - 1 ==> es[1..][i] == es[i + 1];
    }
  }

  lemma {:induction false} MembersNulIff(ms: seq<Member>, tail: seq<Byte>)
    requires ms != [] && MembersOk(ms, false)
    ensures 0 in MembersText(ms, tail) <==> (exists i :: 0 <= i < |ms| && !NoNul(ms[i].value)) || 0 in tail
    decreases MembersSize(ms), 1
  {
    hide TreeText, NoNul, ItemsText;
    var m := ms[0];
    assert MemberOk(m, false);
    WsNulFree(m.before);
    WsNulFree(m.colon);
    WsNulFree(m.space);
    WsNulFree(m.after);
    var rest := m.after + if |ms| == 1 then tail else [0x2C] + MembersText(ms[1..], tail);
    var value := m.colon + ([0x3A] + (m.space + TreeText(m.value, rest)));
    ItemsNulFree(m.key, [0x22] + value);
    NulIff(m.value, rest);
    if |ms| > 1 {
      MembersNulIff(ms[1..], tail);
      assert forall i :: 0 < i < |ms| ==> ms[i] == ms[1..][i - 1];
      assert forall i :: 0 <= i < |ms| - 1 ==> ms[1..][i] == ms[i + 1];
    }
  }

  /** On a text without NUL bytes the loader is a parser of RFC 8259 for values without
      fractions and exponents: it yields v exactly if the text is one of the grammar for v. */
  lemma LoadIsGrammar(text: seq<Byte>, f: G.LoadFlags, v: Json, rest: seq<Byte>)
    requires 0 !in text
    ensures G.Load(text, f) == G.Parsed(v, rest) <==>
            exists lead, t :: Document(text, f, rest, lead, t) && NoNul(t) && Meaning(t) == v
  {
    hide G.Load, Meaning, TreeOk, TreeText, Ends;
    LoadIff(text, f, v, rest);
    if lead, t :| Document(text, f, rest, lead, t) && Meaning(t) == v {
      NulIff(t, rest);
    }
  }
}

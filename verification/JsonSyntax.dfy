/** JSON texts as RFC 8259 describes them: concrete syntax trees, the bytes each one is written
    with, and the value it denotes. */
module JsonSyntax {
  import opened Utf8
  import opened JsonValue

  // ----- white space (section 2)

  ghost predicate Ws(s: seq<Byte>) {
    forall i :: 0 <= i < |s| ==> s[i] == 0x20 || s[i] == 0x09 || s[i] == 0x0A || s[i] == 0x0D
  }

  // ----- strings (section 7)

  /** A hexadecimal digit, in small or in capital letters. */
  datatype Hex = Hex(value: nat, capital: bool)

  const SMALL: seq<Byte> :=
    [0x30, 0x31, 0x32, 0x33, 0x34, 0x35, 0x36, 0x37, 0x38, 0x39, 0x61, 0x62, 0x63, 0x64, 0x65, 0x66]
  const CAPITAL: seq<Byte> :=
    [0x30, 0x31, 0x32, 0x33, 0x34, 0x35, 0x36, 0x37, 0x38, 0x39, 0x41, 0x42, 0x43, 0x44, 0x45, 0x46]

  function HexChar(h: Hex): Byte
    requires h.value < 16
  {
    if h.capital then CAPITAL[h.value] else SMALL[h.value]
  }

  /** \uXXXX: one unit of UTF-16. */
  datatype Unit = Unit(a: Hex, b: Hex, c: Hex, d: Hex) {
    predicate Valid() {
      a.value < 16 && b.value < 16 && c.value < 16 && d.value < 16
    }

    function Text(): seq<Byte>
      requires Valid()
    {
      [0x5C, 0x75, HexChar(a), HexChar(b), HexChar(c), HexChar(d)]
    }

    function Value(): nat {
      a.value * 4096 + b.value * 256 + c.value * 16 + d.value
    }
  }

  /** A character of a string: as it is, or as one of the three kinds of escapes. */
  datatype Item =
    | Plain(cp: nat)
    | Short(letter: Byte, cp: nat)
    | Escape(u: Unit)
    | Surrogates(high: Unit, low: Unit)

  /** The escapes of two characters, and what they stand for. */
  const SHORT: seq<(Byte, nat)> :=
    [(0x22, 0x22), (0x5C, 0x5C), (0x2F, 0x2F), (0x62, 0x08), (0x66, 0x0C), (0x6E, 0x0A), (0x72, 0x0D), (0x74, 0x09)]

  /** Of the grammar, without the escape of NUL and without surrogates that are not a pair,
      both of which the loader refuses. */
  predicate ItemOk(x: Item) {
    match x
    case Plain(cp) => IsScalar(cp) && cp >= 0x20 && cp != 0x22 && cp != 0x5C
    case Short(letter, cp) => (letter, cp) in SHORT
    case Escape(u) => u.Valid() && u.Value() != 0 && !(0xD800 <= u.Value() <= 0xDFFF)
    case Surrogates(high, low) =>
      high.Valid() && low.Valid() && 0xD800 <= high.Value() <= 0xDBFF && 0xDC00 <= low.Value() <= 0xDFFF
  }

  ghost predicate ItemsOk(items: seq<Item>) {
    forall i :: 0 <= i < |items| ==> ItemOk(items[i])
  }

  function ItemText(x: Item): seq<Byte>
    requires ItemOk(x)
  {
    match x
    case Plain(cp) => Encode(cp)
    case Short(letter, _) => [0x5C, letter]
    case Escape(u) => u.Text()
    case Surrogates(high, low) => high.Text() + low.Text()
  }

  function CodePoint(x: Item): int {
    match x
    case Plain(cp) => cp
    case Short(_, cp) => cp
    case Escape(u) => u.Value()
    case Surrogates(high, low) => 0x10000 + (high.Value() - 0xD800) * 0x400 + (low.Value() - 0xDC00)
  }

  /** The characters of a string, followed by `tail`. */
  ghost function ItemsText(items: seq<Item>, tail: seq<Byte>): seq<Byte>
    requires ItemsOk(items)
  {
    if items == [] then tail else ItemText(items[0]) + ItemsText(items[1..], tail)
  }

  /** The string they denote, in UTF-8. */
  function ItemsBytes(items: seq<Item>): seq<Byte> {
    if items == [] then [] else Encode(CodePoint(items[0])) + ItemsBytes(items[1..])
  }

  // ----- numbers (section 6), integers only

  ghost predicate DigitsOk(ds: seq<nat>) {
    ds != [] && (forall i :: 0 <= i < |ds| ==> ds[i] < 10) && (ds[0] == 0 ==> |ds| == 1)
  }

  ghost function DigitsText(ds: seq<nat>): seq<Byte>
    requires forall i :: 0 <= i < |ds| ==> ds[i] < 10
  {
    seq(|ds|, i requires 0 <= i < |ds| => 0x30 + ds[i])
  }

  /** The number the digits denote. */
  function Decimal(ds: seq<nat>): nat {
    if ds == [] then 0 else 10 * Decimal(ds[..|ds| - 1]) + ds[|ds| - 1]
  }

  function Signed(negative: bool, n: nat): int {
    if negative then -(n as int) else n
  }

  // ----- values (sections 3 to 5)

  datatype Literal = LNull | LTrue | LFalse

  function LiteralText(l: Literal): seq<Byte> {
    match l
    case LNull => [0x6E, 0x75, 0x6C, 0x6C]
    case LTrue => [0x74, 0x72, 0x75, 0x65]
    case LFalse => [0x66, 0x61, 0x6C, 0x73, 0x65]
  }

  /** `nul` is set if a NUL byte follows, which no grammar has and the loader passes over. */
  datatype Tree =
    | Word(l: Literal, nul: bool)
    | Num(negative: bool, digits: seq<nat>, nul: bool)
    | Quoted(items: seq<Item>)
    | List(ws: seq<Byte>, elems: seq<Elem>)
    | Dict(ws: seq<Byte>, members: seq<Member>)

  /** An element with the white space around it. */
  datatype Elem = Elem(before: seq<Byte>, value: Tree, after: seq<Byte>)

  /** A member with the white space around its parts. */
  datatype Member =
    Member(before: seq<Byte>, key: seq<Item>, colon: seq<Byte>, space: seq<Byte>, value: Tree, after: seq<Byte>)

  /** The tree is one of the grammar whose integers fit 64 bits; if `reject`, with all keys of
      an object different. */
  ghost predicate TreeOk(t: Tree, reject: bool) {
    match t
    case Word(_, _) => true
    case Num(negative, ds, _) =>
      DigitsOk(ds) && -0x8000_0000_0000_0000 <= Signed(negative, Decimal(ds)) <= 0x7FFF_FFFF_FFFF_FFFF
    case Quoted(items) => ItemsOk(items)
    case List(ws, es) => Ws(ws) && forall i :: 0 <= i < |es| ==> ElemOk(es[i], reject)
    case Dict(ws, ms) =>
      && Ws(ws) && (forall i :: 0 <= i < |ms| ==> MemberOk(ms[i], reject))
      && (reject ==> forall i, j :: 0 <= i < j < |ms| ==> ItemsBytes(ms[i].key) != ItemsBytes(ms[j].key))
  }

  ghost predicate ElemOk(e: Elem, reject: bool) {
    Ws(e.before) && Ws(e.after) && TreeOk(e.value, reject)
  }

  ghost predicate MemberOk(m: Member, reject: bool) {
    && Ws(m.before) && Ws(m.colon) && Ws(m.space) && Ws(m.after)
    && ItemsOk(m.key) && TreeOk(m.value, reject)
  }

  /** No NUL was passed over: the tree is one of RFC 8259. */
  predicate NoNul(t: Tree) {
    match t
    case Word(_, nul) => !nul
    case Num(_, _, nul) => !nul
    case Quoted(_) => true
    case List(_, es) => forall i :: 0 <= i < |es| ==> NoNul(es[i].value)
    case Dict(_, ms) => forall i :: 0 <= i < |ms| ==> NoNul(ms[i].value)
  }

  ghost predicate ElemsOk(es: seq<Elem>, reject: bool) {
    forall i :: 0 <= i < |es| ==> ElemOk(es[i], reject)
  }

  ghost predicate MembersOk(ms: seq<Member>, reject: bool) {
    forall i :: 0 <= i < |ms| ==> MemberOk(ms[i], reject)
  }

  // ----- what may follow a tree that stands at the end

  /** After an integer: no digit, point, exponent or NUL. */
  predicate EndsInteger(tail: seq<Byte>) {
    tail == [] || (!(0x30 <= tail[0] <= 0x39) && tail[0] !in [0x2E, 0x65, 0x45, 0x00])
  }

  /** After a literal: no letter or NUL. */
  predicate EndsWord(tail: seq<Byte>) {
    tail == [] || (!(0x41 <= tail[0] <= 0x5A) && !(0x61 <= tail[0] <= 0x7A) && tail[0] != 0x00)
  }

  predicate Ends(t: Tree, tail: seq<Byte>) {
    match t
    case Word(_, nul) => nul || EndsWord(tail)
    case Num(_, _, nul) => nul || EndsInteger(tail)
    case _ => true
  }

  // ----- the text of a tree, followed by `tail`

  ghost function TreeText(t: Tree, tail: seq<Byte>): seq<Byte>
    requires TreeOk(t, false)
    decreases TreeSize(t), 0
  {
    match t
    case Word(l, nul) => LiteralText(l) + Nul(nul, tail)
    case Num(negative, ds, nul) => (if negative then [0x2D] else []) + (DigitsText(ds) + Nul(nul, tail))
    case Quoted(items) => [0x22] + ItemsText(items, [0x22] + tail)
    case List(ws, es) => [0x5B] + (if es == [] then ws + ([0x5D] + tail) else ElemsText(es, [0x5D] + tail))
    case Dict(ws, ms) => [0x7B] + (if ms == [] then ws + ([0x7D] + tail) else MembersText(ms, [0x7D] + tail))
  }

  function Nul(nul: bool, tail: seq<Byte>): seq<Byte> {
    if nul then [0] + tail else tail
  }

  ghost function ElemsText(es: seq<Elem>, tail: seq<Byte>): seq<Byte>
    requires es != [] && ElemsOk(es, false)
    decreases ElemsSize(es), 1
  {
    var e := es[0];
    e.before + TreeText(e.value, e.after + if |es| == 1 then tail else [0x2C] + ElemsText(es[1..], tail))
  }

  ghost function MembersText(ms: seq<Member>, tail: seq<Byte>): seq<Byte>
    requires ms != [] && MembersOk(ms, false)
    decreases MembersSize(ms), 1
  {
    var m := ms[0];
    var rest := m.after + if |ms| == 1 then tail else [0x2C] + MembersText(ms[1..], tail);
    m.before + ([0x22] + ItemsText(m.key, [0x22] + (m.colon + ([0x3A] + (m.space + TreeText(m.value, rest))))))
  }

  // ----- the value of a tree

  function Meaning(t: Tree): Json
    decreases TreeSize(t), 0
  {
    match t
    case Word(l, _) => if l == LNull then Null else if l == LTrue then True else False
    case Num(negative, ds, _) => Integer(Signed(negative, Decimal(ds)))
    case Quoted(items) => String(ItemsBytes(items))
    case List(_, es) => Array(Meanings(es))
    case Dict(_, ms) => Object(Bindings([], ms))
  }

  function Meanings(es: seq<Elem>): seq<Json>
    decreases ElemsSize(es), 1
  {
    if es == [] then [] else [Meaning(es[0].value)] + Meanings(es[1..])
  }

  /** Where a key is among the fields, or their number. */
  function IndexOf(fs: seq<Field>, key: seq<Byte>): (i: nat)
    ensures i <= |fs| && (i < |fs| ==> fs[i].key == key)
    ensures forall j :: 0 <= j < i ==> fs[j].key != key
  {
    if fs == [] || fs[0].key == key then 0 else 1 + IndexOf(fs[1..], key)
  }

  /** A later member with the same key takes the place of an earlier one. */
  function Bind(fs: seq<Field>, key: seq<Byte>, value: Json): seq<Field> {
    var i := IndexOf(fs, key);
    if i < |fs| then fs[i := Field(key, value)] else fs + [Field(key, value)]
  }

  function Bindings(fs: seq<Field>, ms: seq<Member>): seq<Field>
    decreases MembersSize(ms), 1
  {
    if ms == [] then fs
    else Bindings(Bind(fs, ItemsBytes(ms[0].key), Meaning(ms[0].value)), ms[1..])
  }

  // ----- sizes, for termination

  function TreeSize(t: Tree): nat
    decreases t
  {
    match t
    case List(_, es) => 1 + ElemsSize(es)
    case Dict(_, ms) => 1 + MembersSize(ms)
    case _ => 0
  }

  function ElemsSize(es: seq<Elem>): nat
    decreases es
  {
    if es == [] then 0 else 1 + TreeSize(es[0].value) + ElemsSize(es[1..])
  }

  function MembersSize(ms: seq<Member>): nat
    decreases ms
  {
    if ms == [] then 0 else 1 + TreeSize(ms[0].value) + MembersSize(ms[1..])
  }

  lemma {:induction false} Unrejected(t: Tree, reject: bool)
    requires TreeOk(t, reject)
    ensures TreeOk(t, false)
  {
    match t
    case List(_, es) =>
      forall i | 0 <= i < |es| ensures ElemOk(es[i], false) {
        assert ElemOk(es[i], reject);
        Unrejected(es[i].value, reject);
      }
    case Dict(_, ms) =>
      forall i | 0 <= i < |ms| ensures MemberOk(ms[i], false) {
        assert MemberOk(ms[i], reject);
        Unrejected(ms[i].value, reject);
      }
    case _ =>
  }
}

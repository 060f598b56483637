/** JSON text: what the printer writes and how the loader reads it, as functions on bytes. */
module JsonText {
  import opened Arith
  import opened Options
  import opened Utf8
  import opened JsonValue

  const QUOTE: Byte := 0x22
  const BACKSLASH: Byte := 0x5C
  const SLASH: Byte := 0x2F
  const COMMA: Byte := 0x2C
  const COLON: Byte := 0x3A
  const LBRACKET: Byte := 0x5B
  const RBRACKET: Byte := 0x5D
  const LBRACE: Byte := 0x7B
  const RBRACE: Byte := 0x7D
  const MINUS: Byte := 0x2D
  const SPACE: Byte := 0x20
  const NEWLINE: Byte := 0x0A
  const LOWER_U: Byte := 0x75

  const NULL_TEXT: seq<Byte> := [0x6E, 0x75, 0x6C, 0x6C]
  const TRUE_TEXT: seq<Byte> := [0x74, 0x72, 0x75, 0x65]
  const FALSE_TEXT: seq<Byte> := [0x66, 0x61, 0x6C, 0x73, 0x65]

  predicate IsDigit(c: Byte) {
    0x30 <= c <= 0x39
  }

  predicate IsAlpha(c: Byte) {
    0x41 <= c <= 0x5A || 0x61 <= c <= 0x7A
  }

  predicate IsHex(c: Byte) {
    IsDigit(c) || 0x41 <= c <= 0x46 || 0x61 <= c <= 0x66
  }

  predicate IsSpace(c: Byte) {
    c == SPACE || c == 0x09 || c == NEWLINE || c == 0x0D
  }

  // ----- printing

  datatype DumpFlags = DumpFlags(indent: nat, compact: bool, ensureAscii: bool, sortKeys: bool, escapeSlash: bool)

  function Spaces(n: nat): seq<Byte> {
    if n == 0 then [] else [SPACE] + Spaces(n - 1)
  }

  /** `dump_indent` */
  function Indent(f: DumpFlags, depth: nat, space: bool): seq<Byte> {
    if f.indent > 0 then MulNonneg(depth, f.indent); [NEWLINE] + Spaces(depth * f.indent)
    else if space && !f.compact then [SPACE]
    else []
  }

  function HexDigit(d: nat): Byte
    requires d < 16
  {
    if d < 10 then 0x30 + d else 0x61 + d - 10
  }

  /** "\\u%04x" */
  function HexEscape(v: nat): seq<Byte>
    requires v < 0x10000
  {
    [BACKSLASH, LOWER_U, HexDigit(v / 4096), HexDigit(v / 256 % 16), HexDigit(v / 16 % 16), HexDigit(v % 16)]
  }

  /** The letter of a two-character escape, if the code point has one. */
  function ShortEscape(cp: nat): Option<Byte> {
    if cp == 0x5C then Some(BACKSLASH)
    else if cp == 0x22 then Some(QUOTE)
    else if cp == 0x08 then Some(0x62)
    else if cp == 0x0C then Some(0x66)
    else if cp == 0x0A then Some(0x6E)
    else if cp == 0x0D then Some(0x72)
    else if cp == 0x09 then Some(0x74)
    else if cp == 0x2F then Some(SLASH)
    else None
  }

  predicate MustEscape(cp: nat, f: DumpFlags) {
    cp == 0x5C || cp == 0x22 || cp < 0x20 || (f.escapeSlash && cp == 0x2F) || (f.ensureAscii && cp > 0x7F)
  }

  /** The surrogate halves of a code point outside the basic plane. */
  function HighHalf(cp: nat): (h: nat)
    requires 0x10000 <= cp <= 0x10FFFF
    ensures 0xD800 <= h <= 0xDBFF
  {
    0xD800 + (cp - 0x10000) / 1024
  }

  function LowHalf(cp: nat): (h: nat)
    requires 0x10000 <= cp <= 0x10FFFF
    ensures 0xDC00 <= h <= 0xDFFF
  {
    0xDC00 + (cp - 0x10000) % 1024
  }

  /** What `dump_string` writes for one character, given its code point and its bytes. */
  function CharText(cp: nat, bytes: seq<Byte>, f: DumpFlags): seq<Byte>
    requires IsScalar(cp)
  {
    if !MustEscape(cp, f) then bytes
    else if ShortEscape(cp).Some? then [BACKSLASH, ShortEscape(cp).value]
    else if cp < 0x10000 then HexEscape(cp)
    else HexEscape(HighHalf(cp)) + HexEscape(LowHalf(cp))
  }

  /** The characters of a string, escaped. */
  function CharsText(s: seq<Byte>, f: DumpFlags): seq<Byte>
    requires IsValid(s)
  {
    if s == [] then []
    else
      DecodeKinds(s);
      DecodeIsGrammar(s, 0);
      var n := Decode(s).len;
      CharText(Decode(s).cp, s[..n], f) + CharsText(s[n..], f)
  }

  function StringText(s: seq<Byte>, f: DumpFlags): seq<Byte>
    requires IsValid(s)
  {
    [QUOTE] + CharsText(s, f) + [QUOTE]
  }

  /** Decimal digits, no leading zeros. */
  function NatText(n: nat): seq<Byte> {
    if n < 10 then [0x30 + n] else NatText(n / 10) + [0x30 + n % 10]
  }

  /** "%PRIi64" */
  function IntText(i: int): seq<Byte> {
    if i < 0 then [MINUS] + NatText(-i) else NatText(i)
  }

  /** Every string in the value is valid UTF-8: the printer accepts it. */
  predicate Printable(v: Json) {
    match v
    case String(s) => IsValid(s)
    case Array(es) => forall i :: 0 <= i < |es| ==> Printable(es[i])
    case Object(fs) => forall i :: 0 <= i < |fs| ==> IsValid(fs[i].key) && Printable(fs[i].value)
    case _ => true
  }

  /** The members in the order they are printed. */
  function PrintOrder(fs: seq<Field>, f: DumpFlags): seq<Field> {
    if f.sortKeys then SortFields(fs) else fs
  }

  /** `do_dump` */
  function Text(v: Json, f: DumpFlags, depth: nat): seq<Byte>
    requires Printable(v)
    decreases Size(v), 0
  {
    match v
    case Null => NULL_TEXT
    case True => TRUE_TEXT
    case False => FALSE_TEXT
    case Integer(i) => IntText(i)
    case String(s) => StringText(s, f)
    case Array(es) =>
      [LBRACKET] + (if es == [] then [] else Indent(f, depth + 1, false) + ElemsText(es, f, depth)) + [RBRACKET]
    case Object(fs) =>
      if fs == [] then [LBRACE, RBRACE]
      else
        OrderKeepsSize(fs, f);
        [LBRACE] + Indent(f, depth + 1, false) + FieldsText(PrintOrder(fs, f), f, depth + 1) + [RBRACE]
  }

  /** The loop of `dump_array`. */
  function ElemsText(es: seq<Json>, f: DumpFlags, depth: nat): seq<Byte>
    requires forall i :: 0 <= i < |es| ==> Printable(es[i])
    decreases ElemsSize(es), 1
  {
    if es == [] then []
    else
      Text(es[0], f, depth + 1)
      + (if |es| > 1 then [COMMA] + Indent(f, depth + 1, true) else Indent(f, depth, false))
      + ElemsText(es[1..], f, depth)
  }

  /** The loop of `dump_obj`, whose element function is passed an increased depth. */
  function FieldsText(fs: seq<Field>, f: DumpFlags, depth: nat): seq<Byte>
    requires forall i :: 0 <= i < |fs| ==> IsValid(fs[i].key) && Printable(fs[i].value)
    decreases FieldsSize(fs), 1
  {
    if fs == [] then []
    else
      StringText(fs[0].key, f)
      + (if f.compact then [COLON] else [COLON, SPACE])
      + Text(fs[0].value, f, depth + 1)
      + (if |fs| > 1 then [COMMA] + Indent(f, depth + 1, true) else Indent(f, depth, false))
      + FieldsText(fs[1..], f, depth)
  }

  lemma Associate(a: seq<Byte>, b: seq<Byte>, c: seq<Byte>)
    ensures a + b + c == a + (b + c)
  {
  }

  // ----- sizes, for termination

  function Size(v: Json): nat
    decreases v
  {
    match v
    case Array(es) => 1 + ElemsSize(es)
    case Object(fs) => 1 + FieldsSize(fs)
    case _ => 0
  }

  function ElemsSize(es: seq<Json>): nat
    decreases es
  {
    if es == [] then 0 else 1 + Size(es[0]) + ElemsSize(es[1..])
  }

  function FieldsSize(fs: seq<Field>): nat
    decreases fs
  {
    if fs == [] then 0 else 1 + Size(fs[0].value) + FieldsSize(fs[1..])
  }

  lemma {:induction false} InsertKeepsSize(f: Field, fs: seq<Field>)
    ensures FieldsSize(InsertField(f, fs)) == 1 + Size(f.value) + FieldsSize(fs)
  {
    if fs == [] || Less(f.key, fs[0].key) {
      assert ([f] + fs)[1..] == fs;
    } else {
      InsertKeepsSize(f, fs[1..]);
      assert ([fs[0]] + InsertField(f, fs[1..]))[1..] == InsertField(f, fs[1..]);
    }
  }

  lemma {:induction false} OrderKeepsSize(fs: seq<Field>, f: DumpFlags)
    ensures FieldsSize(PrintOrder(fs, f)) == FieldsSize(fs)
    ensures forall i :: 0 <= i < |PrintOrder(fs, f)| ==> PrintOrder(fs, f)[i] in fs
    ensures |PrintOrder(fs, f)| == |fs|
  {
    if f.sortKeys {
      SortKeepsSize(fs);
      SortMembers(fs);
      forall i | 0 <= i < |SortFields(fs)| ensures SortFields(fs)[i] in fs {
        assert SortFields(fs)[i] in multiset(SortFields(fs));
      }
      assert |multiset(SortFields(fs))| == |multiset(fs)|;
    }
  }

  lemma {:induction false} SortKeepsSize(fs: seq<Field>)
    ensures FieldsSize(SortFields(fs)) == FieldsSize(fs)
  {
    if fs != [] {
      SortKeepsSize(fs[1..]);
      InsertKeepsSize(fs[0], SortFields(fs[1..]));
    }
  }
}

/** UTF-8: the codec of the string library, the checker and encoder of the JSON loader, and
    the grammar of section 4 of RFC 3629 that they all implement. */
module Utf8 {
  import opened Arith

  type Byte = b: nat | b < 256

  /** The outcome of decoding at the start of a byte string. */
  datatype Step = Done | Err | Ok(cp: nat, len: nat)

  predicate Tail(b: Byte) {
    0x80 <= b <= 0xBF
  }

  // ----- the grammar

  predicate IsScalar(cp: nat) {
    cp < 0xD800 || 0xE000 <= cp <= 0x10FFFF
  }

  /** The bytes at the start of s form one UTF8-char of RFC 3629 of n bytes. */
  predicate CharOf(s: seq<Byte>, n: nat) {
    || (n == 1 && |s| >= 1 && s[0] <= 0x7F)
    || (n == 2 && |s| >= 2 && 0xC2 <= s[0] <= 0xDF && Tail(s[1]))
    || (n == 3 && |s| >= 3 && Tail(s[2]) &&
        (|| (s[0] == 0xE0 && 0xA0 <= s[1] <= 0xBF)
         || (0xE1 <= s[0] <= 0xEC && Tail(s[1]))
         || (s[0] == 0xED && 0x80 <= s[1] <= 0x9F)
         || (0xEE <= s[0] <= 0xEF && Tail(s[1]))))
    || (n == 4 && |s| >= 4 && Tail(s[2]) && Tail(s[3]) &&
        (|| (s[0] == 0xF0 && 0x90 <= s[1] <= 0xBF)
         || (0xF1 <= s[0] <= 0xF3 && Tail(s[1]))
         || (s[0] == 0xF4 && 0x80 <= s[1] <= 0x8F)))
  }

  /** *( UTF8-char ) */
  ghost predicate WellFormed(s: seq<Byte>) {
    s == [] || exists n :: 1 <= n <= |s| && CharOf(s, n) && WellFormed(s[n..])
  }

  // ----- the codec

  /** `ph_utf8_seq_len`, also the first test of the iterator. */
  function SeqLen(first: Byte): nat {
    if first < 0x80 then 1
    else if first <= 0xC1 then 0
    else if first <= 0xDF then 2
    else if first <= 0xEF then 3
    else if first <= 0xF4 then 4
    else 0
  }

  /** The payload bits of a continuation byte. */
  function TailBits(b: Byte): nat {
    b % 64
  }

  /** The payload bits of a lead byte of a sequence of n bytes. */
  function LeadBits(first: Byte, n: nat): nat {
    if n == 2 then first % 0x20 else if n == 3 then first % 0x10 else if n == 4 then first % 8 else first
  }

  /** The continuation loop: fold in the next k bytes, or fail. */
  function Continue(cp: nat, s: seq<Byte>, k: nat): Step
    requires k <= |s|
    decreases k
  {
    if k == 0 then Ok(cp, 0)
    else if !Tail(s[0]) then Err
    else Continue(cp * 64 + TailBits(s[0]), s[1..], k - 1)
  }

  /** Range, surrogate and shortest-form tests on a decoded sequence of n bytes. */
  predicate InRange(cp: nat, n: nat) {
    && cp <= 0x10FFFF
    && !(0xD800 <= cp <= 0xDFFF)
    && !((n == 2 && cp < 0x80) || (n == 3 && cp < 0x800) || (n == 4 && cp < 0x10000))
  }

  /** `ph_string_iterate_utf8_as_utf16` at the start of s. */
  function Decode(s: seq<Byte>): Step {
    if s == [] then Done
    else
      var n := SeqLen(s[0]);
      if n == 0 || n > |s| then Err
      else
        var r := Continue(LeadBits(s[0], n), s[1..n], n - 1);
        if r.Ok? && InRange(r.cp, n) then Ok(r.cp, n) else Err
  }

  /** The encoder of `ph_string_append_utf16_as_utf8`, and of the JSON loader: the bytes of
      one code point, or none if it is out of range. */
  function Encode(cp: int): seq<Byte> {
    if cp < 0 then []
    else if cp < 0x80 then [cp]
    else if cp < 0x800 then [0xC0 + Bits(cp, 6, 32), 0x80 + Bits(cp, 0, 64)]
    else if cp < 0x10000 then [0xE0 + Bits(cp, 12, 16), 0x80 + Bits(cp, 6, 64), 0x80 + Bits(cp, 0, 64)]
    else if cp <= 0x10FFFF then
      [0xF0 + Bits(cp, 18, 8), 0x80 + Bits(cp, 12, 64), 0x80 + Bits(cp, 6, 64), 0x80 + Bits(cp, 0, 64)]
    else []
  }

  /** (cp >> shift) & (m - 1), for the shifts and masks the encoder uses. */
  function Bits(cp: nat, shift: nat, m: nat): (r: nat)
    requires m > 0
    ensures r < m
  {
    (if shift == 0 then cp else if shift == 6 then cp / 64 else if shift == 12 then cp / 4096 else cp / 262144) % m
  }

  // ----- bit arithmetic

  lemma TailValue(b: Byte)
    requires Tail(b)
    ensures TailBits(b) == b - 0x80 && TailBits(b) < 64
  {
  }

  lemma LeadValue(first: Byte)
    ensures SeqLen(first) == 2 ==> LeadBits(first, 2) == first - 0xC0
    ensures SeqLen(first) == 3 ==> LeadBits(first, 3) == first - 0xE0
    ensures SeqLen(first) == 4 ==> LeadBits(first, 4) == first - 0xF0
  {
  }

  function Join(a: nat, b: nat, c: nat, d: nat): nat {
    ((a * 64 + b) * 64 + c) * 64 + d
  }

  /** The four six-bit groups of a code point. */
  lemma Groups(a: nat, b: nat, c: nat, d: nat)
    requires a < 8 && b < 64 && c < 64 && d < 64
    ensures var cp := Join(a, b, c, d);
            && Bits(cp, 18, 8) == a && Bits(cp, 12, 64) == b && Bits(cp, 6, 64) == c && Bits(cp, 0, 64) == d
            && (a == 0 && b < 16 ==> Bits(cp, 12, 16) == b)
            && (a == 0 && b == 0 && c < 32 ==> Bits(cp, 6, 32) == c)
  {
    var cp := Join(a, b, c, d);
    DivUnique(cp, 64, (a * 64 + b) * 64 + c, d);
    DivUnique(cp, 4096, a * 64 + b, c * 64 + d);
    DivUnique(cp, 262144, a, (b * 64 + c) * 64 + d);
    DivUnique((a * 64 + b) * 64 + c, 64, a * 64 + b, c);
    DivUnique(a * 64 + b, 64, a, b);
    DivUnique(a, 8, 0, a);
    if a == 0 && b < 16 {
      DivUnique(b, 16, 0, b);
    }
    if a == 0 && b == 0 && c < 32 {
      DivUnique(c, 32, 0, c);
    }
  }

  /** Every code point splits into such groups. */
  lemma Split(cp: nat) returns (a: nat, b: nat, c: nat, d: nat)
    requires cp <= 0x10FFFF
    ensures a < 8 && b < 64 && c < 64 && d < 64 && cp == Join(a, b, c, d)
  {
    var x := cp / 64;
    var y := x / 64;
    a, b, c, d := y / 64, y % 64, x % 64, cp % 64;
  }

  // ----- the decoder, length by length

  lemma Continue1(cp: nat, s: seq<Byte>)
    requires |s| == 1
    ensures Continue(cp, s, 1) == if Tail(s[0]) then Ok(cp * 64 + TailBits(s[0]), 0) else Err
  {
  }

  lemma Continue2(cp: nat, s: seq<Byte>)
    requires |s| == 2
    ensures Continue(cp, s, 2) ==
            if Tail(s[0]) && Tail(s[1]) then Ok((cp * 64 + TailBits(s[0])) * 64 + TailBits(s[1]), 0) else Err
  {
    hide TailBits;
    if Tail(s[0]) {
      Continue1(cp * 64 + TailBits(s[0]), s[1..]);
    }
  }

  lemma Continue3(cp: nat, s: seq<Byte>)
    requires |s| == 3
    ensures Continue(cp, s, 3) ==
            if Tail(s[0]) && Tail(s[1]) && Tail(s[2])
            then Ok(((cp * 64 + TailBits(s[0])) * 64 + TailBits(s[1])) * 64 + TailBits(s[2]), 0) else Err
  {
    hide TailBits;
    if Tail(s[0]) {
      Continue2(cp * 64 + TailBits(s[0]), s[1..]);
    }
  }

  lemma Decode2(s: seq<Byte>)
    requires |s| >= 2 && SeqLen(s[0]) == 2
    ensures !Tail(s[1]) ==> Decode(s) == Err
    ensures Tail(s[1]) ==> Decode(s) == Ok(Join(0, 0, s[0] - 0xC0, s[1] - 0x80), 2)
  {
    hide TailBits, LeadBits;
    LeadValue(s[0]);
    Continue1(LeadBits(s[0], 2), s[1..2]);
    if Tail(s[1]) { TailValue(s[1]); }
  }

  lemma Decode3(s: seq<Byte>)
    requires |s| >= 3 && SeqLen(s[0]) == 3
    ensures !(Tail(s[1]) && Tail(s[2])) ==> Decode(s) == Err
    ensures Tail(s[1]) && Tail(s[2]) ==>
              var cp := Join(0, s[0] - 0xE0, s[1] - 0x80, s[2] - 0x80);
              Decode(s) == if InRange(cp, 3) then Ok(cp, 3) else Err
  {
    hide TailBits, LeadBits;
    LeadValue(s[0]);
    Continue2(LeadBits(s[0], 3), s[1..3]);
    if Tail(s[1]) && Tail(s[2]) {
      TailValue(s[1]);
      TailValue(s[2]);
    }
  }

  lemma Decode4(s: seq<Byte>)
    requires |s| >= 4 && SeqLen(s[0]) == 4
    ensures !(Tail(s[1]) && Tail(s[2]) && Tail(s[3])) ==> Decode(s) == Err
    ensures Tail(s[1]) && Tail(s[2]) && Tail(s[3]) ==>
              var cp := Join(s[0] - 0xF0, s[1] - 0x80, s[2] - 0x80, s[3] - 0x80);
              Decode(s) == if InRange(cp, 4) then Ok(cp, 4) else Err
  {
    hide TailBits, LeadBits;
    LeadValue(s[0]);
    Continue3(LeadBits(s[0], 4), s[1..4]);
    if Tail(s[1]) && Tail(s[2]) && Tail(s[3]) {
      TailValue(s[1]);
      TailValue(s[2]);
      TailValue(s[3]);
    }
  }

  lemma DecodeByLength(s: seq<Byte>)
    requires s != [] && 1 <= SeqLen(s[0]) <= |s|
    ensures Decode(s).Ok? ==> Decode(s).len == SeqLen(s[0])
    ensures Decode(s).Ok? <==> CharOf(s, SeqLen(s[0]))
    ensures Decode(s).Ok? ==> IsScalar(Decode(s).cp)
  {
    hide Continue, LeadBits;
    if SeqLen(s[0]) == 2 { Decode2(s); }
    if SeqLen(s[0]) == 3 { Decode3(s); }
    if SeqLen(s[0]) == 4 { Decode4(s); }
    if SeqLen(s[0]) == 1 { DecodeAscii(s); }
  }

  lemma DecodeAscii(s: seq<Byte>)
    requires s != [] && s[0] < 0x80
    ensures Decode(s) == Ok(s[0], 1)
  {
    assert s[1..1] == [];
  }

  /** Decoding succeeds exactly on the characters of the grammar, and yields scalar values. */
  lemma DecodeIsGrammar(s: seq<Byte>, n: nat)
    ensures Decode(s).Ok? && Decode(s).len == n <==> CharOf(s, n)
    ensures Decode(s).Ok? ==> 1 <= Decode(s).len <= 4 && Decode(s).len <= |s| && IsScalar(Decode(s).cp)
  {
    hide Continue, LeadBits, InRange;
    if s != [] && 1 <= SeqLen(s[0]) <= |s| {
      DecodeByLength(s);
    }
  }

  /** Encoding what was decoded gives back the bytes. */
  lemma EncodeDecoded(s: seq<Byte>)
    requires Decode(s).Ok?
    ensures 1 <= Decode(s).len <= |s| && Encode(Decode(s).cp) == s[..Decode(s).len]
  {
    hide Continue, LeadBits, Bits;
    DecodeByLength(s);
    if SeqLen(s[0]) == 1 {
      DecodeAscii(s);
    } else if SeqLen(s[0]) == 2 {
      Decode2(s);
      Groups(0, 0, s[0] - 0xC0, s[1] - 0x80);
    } else if SeqLen(s[0]) == 3 {
      Decode3(s);
      Groups(0, s[0] - 0xE0, s[1] - 0x80, s[2] - 0x80);
    } else {
      Decode4(s);
      Groups(s[0] - 0xF0, s[1] - 0x80, s[2] - 0x80, s[3] - 0x80);
    }
  }

  /** Decoding what was encoded gives back the code point, whatever follows. */
  lemma DecodeEncoded(cp: nat, rest: seq<Byte>)
    requires IsScalar(cp)
    ensures Decode(Encode(cp) + rest) == Ok(cp, |Encode(cp)|) && 1 <= |Encode(cp)| <= 4
  {
    hide Continue, LeadBits, Bits;
    var a, b, c, d := Split(cp);
    Groups(a, b, c, d);
    var s := Encode(cp) + rest;
    if cp < 0x80 {
      DecodeAscii(s);
    } else if cp < 0x800 {
      Decode2(s);
    } else if cp < 0x10000 {
      Decode3(s);
    } else {
      Decode4(s);
    }
  }

  // ----- whole strings

  /** `ph_string_is_valid_utf8` */
  predicate IsValid(s: seq<Byte>) {
    match Decode(s)
    case Done => true
    case Err => false
    case Ok(_, n) => if 1 <= n <= |s| then IsValid(s[n..]) else false
  }

  /** The validator accepts exactly the strings of the grammar. */
  lemma {:induction false} ValidIsWellFormed(s: seq<Byte>)
    ensures IsValid(s) <==> WellFormed(s)
  {
    hide Decode;
    DecodeKinds(s);
    if s != [] {
      forall n | CharOf(s, n) ensures Decode(s).Ok? && Decode(s).len == n {
        DecodeIsGrammar(s, n);
      }
      match Decode(s)
      case Ok(_, n) =>
        DecodeIsGrammar(s, n);
        ValidIsWellFormed(s[n..]);
      case Err =>
    }
  }

  lemma DecodeKinds(s: seq<Byte>)
    ensures Decode(s).Done? <==> s == []
    ensures Decode(s).Ok? ==> 1 <= Decode(s).len <= |s|
  {
    DecodeIsGrammar(s, if Decode(s).Ok? then Decode(s).len else 0);
  }

  /** The code points of a valid string. */
  function CodePoints(s: seq<Byte>): seq<nat>
    requires IsValid(s)
  {
    if s == [] then [] else [Decode(s).cp] + CodePoints(s[Decode(s).len..])
  }

  /** Appending code points one after the other. */
  function EncodeAll(cps: seq<nat>): seq<Byte> {
    if cps == [] then [] else Encode(cps[0]) + EncodeAll(cps[1..])
  }

  /** Decode, then encode: the identity on valid strings. */
  lemma {:induction false} EncodeOfCodePoints(s: seq<Byte>)
    requires IsValid(s)
    ensures EncodeAll(CodePoints(s)) == s
  {
    hide Decode, Encode;
    DecodeKinds(s);
    if s != [] {
      var n := Decode(s).len;
      EncodeDecoded(s);
      EncodeOfCodePoints(s[n..]);
      assert CodePoints(s)[1..] == CodePoints(s[n..]);
      assert s == s[..n] + s[n..];
    }
  }

  lemma {:induction false} CodePointsAreScalar(s: seq<Byte>, i: nat)
    requires IsValid(s) && i < |CodePoints(s)|
    ensures IsScalar(CodePoints(s)[i])
  {
    hide Decode;
    DecodeKinds(s);
    if i > 0 {
      CodePointsAreScalar(s[Decode(s).len..], i - 1);
    } else if s != [] {
      DecodeIsGrammar(s, 0);
    }
  }

  /** Encode, then decode: the identity on sequences of scalar values. */
  lemma {:induction false} CodePointsOfEncode(cps: seq<nat>)
    requires forall i :: 0 <= i < |cps| ==> IsScalar(cps[i])
    ensures IsValid(EncodeAll(cps)) && CodePoints(EncodeAll(cps)) == cps
  {
    hide Decode, Encode;
    DecodeKinds([]);
    if cps != [] {
      CodePointsOfEncode(cps[1..]);
      var rest := EncodeAll(cps[1..]);
      DecodeEncoded(cps[0], rest);
      assert (Encode(cps[0]) + rest)[|Encode(cps[0])|..] == rest;
    }
  }

  // ----- the JSON loader's checker

  /** `utf8_check_full` on a sequence of `size` bytes. */
  predicate CheckFull(buffer: seq<Byte>, size: nat)
    requires size <= |buffer| && buffer != []
  {
    if size < 2 || size > 4 then false
    else
      var r := Continue(LeadBits(buffer[0], size), buffer[1..size], size - 1);
      r.Ok? && InRange(r.cp, size)
  }

  /** Reading one character as the loader does, by its lead byte and then this check, accepts
      what the string library's iterator accepts. */
  lemma CheckAgrees(s: seq<Byte>)
    requires s != []
    ensures var n := SeqLen(s[0]);
            Decode(s).Ok? <==> 1 <= n <= |s| && (n == 1 || CheckFull(s, n))
  {
    if SeqLen(s[0]) == 1 {
      DecodeAscii(s);
    }
  }
}

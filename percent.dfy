/** Percent-encoding as `encodeURIComponent` / `decodeURIComponent` perform it:
    a character outside the component-safe set is written as the UTF-8 bytes of
    its code point, each as a "%" HEXDIG HEXDIG triplet (section 2.1 of RFC 3986,
    upper-case digits). Decoding accepts either case and fails, as the
    JavaScript function throws, on a malformed triplet or an invalid UTF-8
    sequence (overlong forms, surrogates, code points beyond U+10FFFF). */
module Percent {
  import opened Wrappers
  import Text

  type Byte = b: int | 0 <= b < 256

  /** What `encodeURIComponent` leaves unescaped: RFC 3986's unreserved
      characters plus `! * ' ( )`. */
  predicate Unescaped(c: char) {
    || ('A' <= c <= 'Z') || ('a' <= c <= 'z') || ('0' <= c <= '9')
    || c == '-' || c == '_' || c == '.' || c == '!' || c == '~'
    || c == '*' || c == '\'' || c == '(' || c == ')'
  }

  predicate IsUpperHex(c: char) {
    ('0' <= c <= '9') || ('A' <= c <= 'F')
  }

  function HexDigit(n: nat): (c: char)
    requires n < 16
    ensures IsUpperHex(c)
  {
    if n < 10 then (48 + n) as char else (55 + n) as char
  }

  function HexValue(c: char): Option<nat> {
    if '0' <= c <= '9' then Some(c as int - 48)
    else if 'A' <= c <= 'F' then Some(c as int - 55)
    else if 'a' <= c <= 'f' then Some(c as int - 87)
    else None
  }

  /** The triplet for one octet. */
  function Escape(b: Byte): string {
    ['%', HexDigit(b / 16), HexDigit(b % 16)]
  }

  function EscapeAll(bs: seq<Byte>): (r: string)
    ensures |r| == 3 * |bs|
  {
    if bs == [] then [] else Escape(bs[0]) + EscapeAll(bs[1..])
  }

  /** The UTF-8 octets of a code point. */
  function Utf8(c: char): seq<Byte> {
    var cp := c as int;
    if cp < 0x80 then [cp]
    else if cp < 0x800 then [0xC0 + cp / 64, 0x80 + cp % 64]
    else if cp < 0x10000 then [0xE0 + cp / 4096, 0x80 + cp / 64 % 64, 0x80 + cp % 64]
    else [0xF0 + cp / 262144, 0x80 + cp / 4096 % 64, 0x80 + cp / 64 % 64, 0x80 + cp % 64]
  }

  function EncodeChar(c: char): string {
    if Unescaped(c) then [c] else EscapeAll(Utf8(c))
  }

  /** `encodeURIComponent`. */
  function Encode(s: string): string {
    if s == [] then [] else EncodeChar(s[0]) + Encode(s[1..])
  }

  /** The octet written as a triplet at position `i`, if there is one. */
  function OctetAt(s: string, i: nat): Option<Byte> {
    if i + 3 <= |s| && s[i] == '%' then
      match (HexValue(s[i + 1]), HexValue(s[i + 2]))
      case (Some(hi), Some(lo)) => Some(hi * 16 + lo)
      case _ => None
    else None
  }

  /** The payload bits of a continuation octet (10xxxxxx) at position `i`. */
  function ContinuationAt(s: string, i: nat): Option<nat> {
    match OctetAt(s, i)
    case Some(b) => if 0x80 <= b < 0xC0 then Some(b - 0x80) else None
    case None => None
  }

  /** The character encoded by the triplets at the front of `s`, and how many
      characters of `s` they take up. */
  function DecodeEscape(s: string): (r: Option<(char, nat)>)
    ensures r.Some? ==> 3 <= r.value.1 <= |s|
  {
    match OctetAt(s, 0)
    case None => None
    case Some(b0) =>
      if b0 < 0x80 then Some((b0 as char, 3))
      else if 0xC0 <= b0 < 0xE0 then
        match ContinuationAt(s, 3)
        case None => None
        case Some(c1) =>
          var cp := (b0 - 0xC0) * 64 + c1;
          if cp < 0x80 then None else Some((cp as char, 6))
      else if 0xE0 <= b0 < 0xF0 then
        match (ContinuationAt(s, 3), ContinuationAt(s, 6))
        case (Some(c1), Some(c2)) =>
          var cp := (b0 - 0xE0) * 4096 + c1 * 64 + c2;
          if cp < 0x800 || (0xD800 <= cp < 0xE000) then None else Some((cp as char, 9))
        case _ => None
      else if 0xF0 <= b0 < 0xF8 then
        match (ContinuationAt(s, 3), ContinuationAt(s, 6), ContinuationAt(s, 9))
        case (Some(c1), Some(c2), Some(c3)) =>
          var cp := (b0 - 0xF0) * 262144 + c1 * 4096 + c2 * 64 + c3;
          if cp < 0x10000 || cp >= 0x110000 then None else Some((cp as char, 12))
        case _ => None
      else None
  }

  /** `decodeURIComponent`; `None` where it throws a URIError. */
  function Decode(s: string): (r: Option<string>)
    ensures r.Some? ==> (r.value == [] <==> s == [])
    decreases |s|
  {
    if s == [] then Some([])
    else if s[0] != '%' then
      match Decode(s[1..])
      case Some(t) => Some([s[0]] + t)
      case None => None
    else
      match DecodeEscape(s)
      case None => None
      case Some((c, n)) =>
        match Decode(s[n..])
        case Some(t) => Some([c] + t)
        case None => None
  }

  // ---------------------------------------------------------------------------
  // Round trip

  lemma {:induction false} EscapeAllAt(bs: seq<Byte>, k: nat, rest: string)
    requires k < |bs|
    ensures (EscapeAll(bs) + rest)[3 * k..3 * k + 3] == Escape(bs[k])
    decreases |bs|
  {
    var e := EscapeAll(bs) + rest;
    if k == 0 {
      assert e == Escape(bs[0]) + (EscapeAll(bs[1..]) + rest);
    } else {
      EscapeAllAt(bs[1..], k - 1, rest);
      assert e == Escape(bs[0]) + (EscapeAll(bs[1..]) + rest);
      assert e[3 * k..3 * k + 3] == (EscapeAll(bs[1..]) + rest)[3 * (k - 1)..3 * (k - 1) + 3];
    }
  }

  lemma HexRoundTrip(n: nat)
    requires n < 16
    ensures HexValue(HexDigit(n)) == Some(n)
  {
  }

  /** The octet a triplet stands for, read back from any text holding it. */
  lemma OctetOfTriplet(e: string, i: nat, b: Byte)
    requires i + 3 <= |e| && e[i..i + 3] == Escape(b)
    ensures OctetAt(e, i) == Some(b)
  {
    var t := e[i..i + 3];
    assert e[i] == t[0] && e[i + 1] == t[1] && e[i + 2] == t[2];
    HexRoundTrip(b / 16);
    HexRoundTrip(b % 16);
  }

  lemma OctetOfEscape(bs: seq<Byte>, k: nat, rest: string)
    requires k < |bs|
    ensures OctetAt(EscapeAll(bs) + rest, 3 * k) == Some(bs[k])
  {
    EscapeAllAt(bs, k, rest);
    OctetOfTriplet(EscapeAll(bs) + rest, 3 * k, bs[k]);
  }

  lemma DivDiv64(x: nat)
    ensures x / 4096 == x / 64 / 64 && x / 262144 == x / 4096 / 64
  {
    var q := x / 64;
    var r := x % 64;
    assert x == q * 64 + r;
    var q2 := q / 64;
    assert q == q2 * 64 + q % 64;
    assert x == q2 * 4096 + (q % 64) * 64 + r;
    assert 0 <= (q % 64) * 64 + r < 4096;
    var q3 := q2 / 64;
    assert q2 == q3 * 64 + q2 % 64;
    assert x == q3 * 262144 + (q2 % 64) * 4096 + (q % 64) * 64 + r;
    assert 0 <= (q2 % 64) * 4096 + (q % 64) * 64 + r < 262144;
  }

  lemma Recompose(x: nat)
    ensures (x / 64) * 64 + x % 64 == x
    ensures (x / 4096) * 4096 + (x / 64 % 64) * 64 + x % 64 == x
    ensures (x / 262144) * 262144 + (x / 4096 % 64) * 4096 + (x / 64 % 64) * 64 + x % 64 == x
  {
    DivDiv64(x);
    var q := x / 64;
    assert (q / 64) * 64 + q % 64 == q;
    var q2 := x / 4096;
    assert (q2 / 64) * 64 + q2 % 64 == q2;
  }

  lemma DecodeEscapeOfTwo(c: char, rest: string)
    requires !Unescaped(c) && 0x80 <= c as int < 0x800
    ensures DecodeEscape(EncodeChar(c) + rest) == Some((c, 6))
  {
    var bs := Utf8(c);
    var s := EncodeChar(c) + rest;
    var cp := c as int;
    OctetOfEscape(bs, 0, rest);
    OctetOfEscape(bs, 1, rest);
    assert ContinuationAt(s, 3) == Some(cp % 64);
    assert (cp / 64) * 64 + cp % 64 == cp;
  }

  lemma DecodeEscapeOfThree(c: char, rest: string)
    requires !Unescaped(c) && 0x800 <= c as int < 0x10000
    ensures DecodeEscape(EncodeChar(c) + rest) == Some((c, 9))
  {
    var bs := Utf8(c);
    var s := EncodeChar(c) + rest;
    var cp := c as int;
    OctetOfEscape(bs, 0, rest);
    OctetOfEscape(bs, 1, rest);
    OctetOfEscape(bs, 2, rest);
    assert ContinuationAt(s, 3) == Some(cp / 64 % 64);
    assert ContinuationAt(s, 6) == Some(cp % 64);
    Recompose(cp);
    assert OctetAt(s, 0) == Some(0xE0 + cp / 4096);
  }

  lemma DecodeEscapeOfFour(c: char, rest: string)
    requires !Unescaped(c) && 0x10000 <= c as int
    ensures DecodeEscape(EncodeChar(c) + rest) == Some((c, 12))
  {
    var bs := Utf8(c);
    var s := EncodeChar(c) + rest;
    var cp := c as int;
    var b0, c1, c2, c3 := 0xF0 + cp / 262144, cp / 4096 % 64, cp / 64 % 64, cp % 64;
    assert bs == [b0, 0x80 + c1, 0x80 + c2, 0x80 + c3];
    assert s == EscapeAll(bs) + rest;
    OctetOfEscape(bs, 0, rest);
    OctetOfEscape(bs, 1, rest);
    OctetOfEscape(bs, 2, rest);
    OctetOfEscape(bs, 3, rest);
    ContinuationOf(s, 3, c1);
    ContinuationOf(s, 6, c2);
    ContinuationOf(s, 9, c3);
    Recompose(cp);
    DecodeFourOctets(s, b0, c1, c2, c3);
  }

  /** The four-octet branch of `DecodeEscape`. */
  lemma DecodeFourOctets(s: string, b0: nat, c1: nat, c2: nat, c3: nat)
    requires OctetAt(s, 0) == Some(b0) && 0xF0 <= b0 < 0xF8
    requires ContinuationAt(s, 3) == Some(c1) && ContinuationAt(s, 6) == Some(c2) && ContinuationAt(s, 9) == Some(c3)
    requires 0x10000 <= (b0 - 0xF0) * 262144 + c1 * 4096 + c2 * 64 + c3 < 0x110000
    ensures DecodeEscape(s) == Some((((b0 - 0xF0) * 262144 + c1 * 4096 + c2 * 64 + c3) as char, 12))
  {
  }

  /** A continuation octet read back as its payload bits. */
  lemma ContinuationOf(s: string, i: nat, payload: nat)
    requires payload < 64 && OctetAt(s, i) == Some(0x80 + payload)
    ensures ContinuationAt(s, i) == Some(payload)
  {
  }

  lemma DecodeEscapeOfChar(c: char, rest: string)
    requires !Unescaped(c)
    ensures DecodeEscape(EncodeChar(c) + rest) == Some((c, |EncodeChar(c)|))
  {
    var cp := c as int;
    if cp < 0x80 {
      OctetOfEscape(Utf8(c), 0, rest);
    } else if cp < 0x800 {
      DecodeEscapeOfTwo(c, rest);
    } else if cp < 0x10000 {
      DecodeEscapeOfThree(c, rest);
    } else {
      DecodeEscapeOfFour(c, rest);
    }
  }

  lemma DecodeEncodeChar(c: char, rest: string, t: string)
    requires Decode(rest) == Some(t)
    ensures Decode(EncodeChar(c) + rest) == Some([c] + t)
  {
    var s := EncodeChar(c) + rest;
    if Unescaped(c) {
      assert s[1..] == rest;
    } else {
      DecodeEscapeOfChar(c, rest);
      assert s[|EncodeChar(c)|..] == rest;
    }
  }

  /** `decodeURIComponent(encodeURIComponent(s)) === s`. */
  lemma {:induction false} DecodeEncode(s: string)
    ensures Decode(Encode(s)) == Some(s)
  {
    if s != [] {
      DecodeEncode(s[1..]);
      DecodeEncodeChar(s[0], Encode(s[1..]), s[1..]);
      assert [s[0]] + s[1..] == s;
    }
  }

  // ---------------------------------------------------------------------------
  // What an encoded text is made of

  /** The characters an encoded text can hold. */
  predicate EncodedChar(c: char) {
    Unescaped(c) || c == '%' || IsUpperHex(c)
  }

  lemma {:induction false} EscapeAllAlphabet(bs: seq<Byte>)
    ensures forall i :: 0 <= i < |EscapeAll(bs)| ==> EncodedChar(EscapeAll(bs)[i])
  {
    if bs != [] {
      EscapeAllAlphabet(bs[1..]);
      var e := EscapeAll(bs);
      assert e == Escape(bs[0]) + EscapeAll(bs[1..]);
    }
  }

  lemma {:induction false} EncodeAlphabet(s: string)
    ensures forall i :: 0 <= i < |Encode(s)| ==> EncodedChar(Encode(s)[i])
  {
    if s != [] {
      EncodeAlphabet(s[1..]);
      if !Unescaped(s[0]) {
        EscapeAllAlphabet(Utf8(s[0]));
      }
    }
  }

  /** An encoded value never holds the cookie delimiters `;` and `=`, nor any
      character `trim` would remove, and is empty only for the empty string. */
  lemma EncodeSafeForCookie(s: string)
    ensures ';' !in Encode(s) && '=' !in Encode(s)
    ensures forall i :: 0 <= i < |Encode(s)| ==> !Text.IsWhitespace(Encode(s)[i])
    ensures Encode(s) == [] <==> s == []
  {
    var e := Encode(s);
    EncodeAlphabet(s);
    forall i | 0 <= i < |e| ensures e[i] != ';' && e[i] != '=' && !Text.IsWhitespace(e[i]) {
      EncodedCharSafe(e[i]);
    }
    if s != [] {
      assert |EncodeChar(s[0])| > 0;
    }
  }

  /** No character of the encoded alphabet is a cookie delimiter or
      whitespace. */
  lemma EncodedCharSafe(c: char)
    requires EncodedChar(c)
    ensures c != ';' && c != '=' && !Text.IsWhitespace(c)
  {
  }
}

/** The browser's cookie store as the generated scripts see it through
    `document.cookie`, following RFC 6265: reading yields the Cookie header
    (section 5.4: `name=value` pairs joined by "; "), and assigning a string
    runs the Set-Cookie algorithm (section 5.2, with the Max-Age attribute of
    section 5.2.2 and the Path attribute of section 5.2.4, stored as section
    5.3 says). Domain matching, path matching and the header's path-length
    ordering are not modelled: the jar holds the cookies visible to the page,
    in the order the header lists them. */
module Cookies {
  import opened Wrappers
  import Text
  import Percent

  datatype Expiry = Session | Earliest | At(time: int)

  datatype Cookie = Cookie(name: string, value: string, path: string, expiry: Expiry)

  type Jar = seq<Cookie>

  // ---------------------------------------------------------------------------
  // Reading: the Cookie header

  function PairText(c: Cookie): string {
    c.name + "=" + c.value
  }

  function HeaderTail(jar: Jar): string {
    if jar == [] then "" else "; " + PairText(jar[0]) + HeaderTail(jar[1..])
  }

  /** What `document.cookie` returns. */
  function Header(jar: Jar): string {
    if jar == [] then "" else PairText(jar[0]) + HeaderTail(jar[1..])
  }

  /** A cookie name the header can carry unambiguously (a token in the sense of
      RFC 6265 section 4.1.1: no separators and no whitespace). */
  predicate NameToken(n: string) {
    n != [] && ';' !in n && '=' !in n && forall i :: 0 <= i < |n| ==> !Text.IsWhitespace(n[i])
  }

  /** A cookie value without `;` and without whitespace (cookie-octets). */
  predicate ValueOctets(v: string) {
    ';' !in v && forall i :: 0 <= i < |v| ==> !Text.IsWhitespace(v[i])
  }

  predicate WellFormed(jar: Jar) {
    forall i :: 0 <= i < |jar| ==> NameToken(jar[i].name) && ValueOctets(jar[i].value)
  }

  function SpacedPieces(jar: Jar): seq<string> {
    if jar == [] then [] else [" " + PairText(jar[0])] + SpacedPieces(jar[1..])
  }

  /** The pieces `document.cookie.split(';')` yields. */
  function HeaderPieces(jar: Jar): seq<string> {
    if jar == [] then [""] else [PairText(jar[0])] + SpacedPieces(jar[1..])
  }

  lemma {:induction false} SplitHeaderTail(x: string, jar: Jar)
    requires ';' !in x && WellFormed(jar)
    ensures Text.Split(x + HeaderTail(jar), ';') == [x] + SpacedPieces(jar)
    decreases |jar|
  {
    if jar == [] {
      assert x + HeaderTail(jar) == x;
      Text.SplitNoSeparator(x, ';');
    } else {
      var y := " " + PairText(jar[0]);
      assert x + HeaderTail(jar) == x + [';'] + (y + HeaderTail(jar[1..]));
      Text.SplitAround(x, ';', y + HeaderTail(jar[1..]));
      Text.SplitNoSeparator(x, ';');
      assert WellFormed(jar[1..]) by {
        forall i | 0 <= i < |jar[1..]| ensures NameToken(jar[1..][i].name) && ValueOctets(jar[1..][i].value) {
          assert jar[1..][i] == jar[i + 1];
        }
      }
      assert NameToken(jar[0].name) && ValueOctets(jar[0].value);
      SplitHeaderTail(y, jar[1..]);
    }
  }

  /** Splitting the header on `;` gives back one piece per cookie. */
  lemma SplitHeader(jar: Jar)
    requires WellFormed(jar)
    ensures Text.Split(Header(jar), ';') == HeaderPieces(jar)
  {
    if jar != [] {
      assert NameToken(jar[0].name) && ValueOctets(jar[0].value);
      assert WellFormed(jar[1..]) by {
        forall i | 0 <= i < |jar[1..]| ensures NameToken(jar[1..][i].name) && ValueOctets(jar[1..][i].value) {
          assert jar[1..][i] == jar[i + 1];
        }
      }
      SplitHeaderTail(PairText(jar[0]), jar[1..]);
    }
  }

  lemma {:induction false} SpacedPiecesAt(jar: Jar, i: nat)
    requires i < |jar|
    ensures |SpacedPieces(jar)| == |jar| && SpacedPieces(jar)[i] == " " + PairText(jar[i])
    decreases |jar|
  {
    if i > 0 {
      SpacedPiecesAt(jar[1..], i - 1);
    } else if |jar| > 1 {
      SpacedPiecesAt(jar[1..], 0);
    } else {
      assert SpacedPieces(jar[1..]) == [];
    }
  }

  /** A well-formed cookie's `name=value` is trimmed, with or without the
      space in front of it. */
  lemma PairTrimmed(c: Cookie)
    requires NameToken(c.name) && ValueOctets(c.value)
    ensures Text.Trim(PairText(c)) == PairText(c) && Text.Trim(" " + PairText(c)) == PairText(c)
  {
    var p := PairText(c);
    assert p[0] == c.name[0];
    if c.value == [] {
      assert p[|p| - 1] == '=';
    } else {
      assert p[|p| - 1] == c.value[|c.value| - 1];
    }
    assert Text.Trimmed(p);
    Text.TrimmedFixpoint(p);
    Text.TrimAfterWhitespace(" ", p);
  }

  /** Every piece of a non-empty header trims to its cookie's `name=value`. */
  lemma HeaderPieceTrim(jar: Jar, i: nat)
    requires WellFormed(jar) && i < |jar|
    ensures |HeaderPieces(jar)| == |jar|
    ensures Text.Trim(HeaderPieces(jar)[i]) == PairText(jar[i])
  {
    assert NameToken(jar[i].name) && ValueOctets(jar[i].value);
    PairTrimmed(jar[i]);
    if |jar| > 1 {
      SpacedPiecesAt(jar[1..], 0);
    } else {
      assert SpacedPieces(jar[1..]) == [];
    }
    if i > 0 {
      SpacedPiecesAt(jar[1..], i - 1);
      assert jar[1..][i - 1] == jar[i];
    }
  }

  // ---------------------------------------------------------------------------
  // Writing: the Set-Cookie algorithm

  datatype Attribute = ExpiryAttribute(expiry: Expiry) | PathAttribute(path: string)

  datatype SetCookie = SetCookie(name: string, value: string, attributes: seq<Attribute>)

  /** WSP: space and horizontal tab. */
  predicate IsWsp(c: char) {
    c == ' ' || c == '\t'
  }

  function StripWsp(s: string): (r: string)
    ensures (forall i :: 0 <= i < |s| ==> !IsWsp(s[i])) ==> r == s
    decreases |s|
  {
    if s != [] && IsWsp(s[0]) then StripWsp(s[1..])
    else if s != [] && IsWsp(s[|s| - 1]) then StripWsp(s[..|s| - 1])
    else s
  }

  function AsciiLower(c: char): char {
    if 'A' <= c <= 'Z' then (c as int + 32) as char else c
  }

  /** ASCII case-insensitive equality, as attribute names are compared. */
  predicate SameIgnoringCase(a: string, b: string) {
    |a| == |b| && forall i :: 0 <= i < |a| ==> AsciiLower(a[i]) == AsciiLower(b[i])
  }

  predicate IsDigit(c: char) {
    '0' <= c <= '9'
  }

  function DigitsValue(s: string): nat
    requires forall i :: 0 <= i < |s| ==> IsDigit(s[i])
  {
    if s == [] then 0
    else
      assert IsDigit(s[|s| - 1]);
      DigitsValue(s[..|s| - 1]) * 10 + (s[|s| - 1] as int - 48)
  }

  /** RFC 6265 section 5.2.2: a Max-Age value is an optional "-" and digits; a positive
      number of seconds expires that long after `now`, any other number at
      once; anything else is ignored. */
  function MaxAge(value: string, now: int): seq<Attribute> {
    if value == [] || !(IsDigit(value[0]) || value[0] == '-') then []
    else if !(forall i :: 1 <= i < |value| ==> IsDigit(value[i])) then []
    else if value[0] == '-' then
      (if |value| == 1 then [] else [ExpiryAttribute(Earliest)])
    else
      var delta := DigitsValue(value);
      [ExpiryAttribute(if delta <= 0 then Earliest else At(now + delta))]
  }

  /** RFC 6265 section 5.2.4: a Path value that is empty or does not start with "/"
      stands for the default path. */
  function PathValue(value: string, defaultPath: string): seq<Attribute> {
    if value == [] || value[0] != '/' then [PathAttribute(defaultPath)] else [PathAttribute(value)]
  }

  /** One `;`-separated attribute; attributes the model does not know are ignored. */
  function ParseAttribute(av: string, now: int, defaultPath: string): seq<Attribute> {
    var nameValue := match Text.SplitFirst(av, '=') case None => (av, "") case Some(p) => p;
    var name := StripWsp(nameValue.0);
    var value := StripWsp(nameValue.1);
    if SameIgnoringCase(name, "max-age") then MaxAge(value, now)
    else if SameIgnoringCase(name, "path") then PathValue(value, defaultPath)
    else []
  }

  function ParseAttributes(avs: seq<string>, now: int, defaultPath: string): seq<Attribute> {
    if avs == [] then [] else ParseAttribute(avs[0], now, defaultPath) + ParseAttributes(avs[1..], now, defaultPath)
  }

  /** RFC 6265 section 5.2: the name-value pair up to the first `;`, split at its first
      `=`; a pair without `=` or with an empty name is ignored. */
  function ParseSetCookie(s: string, now: int, defaultPath: string): Option<SetCookie> {
    var parts := Text.Split(s, ';');
    match Text.SplitFirst(parts[0], '=')
    case None => None
    case Some((n, v)) =>
      var name := StripWsp(n);
      if name == [] then None
      else Some(SetCookie(name, StripWsp(v), ParseAttributes(parts[1..], now, defaultPath)))
  }

  /** RFC 6265 section 5.3 steps 3 and 7: the last Max-Age decides the expiry (none: a
      session cookie), the last Path the path (none: the default path). */
  function LastExpiry(attrs: seq<Attribute>): Expiry {
    if attrs == [] then Session
    else if attrs[|attrs| - 1].ExpiryAttribute? then attrs[|attrs| - 1].expiry
    else LastExpiry(attrs[..|attrs| - 1])
  }

  function LastPath(attrs: seq<Attribute>, defaultPath: string): string {
    if attrs == [] then defaultPath
    else if attrs[|attrs| - 1].PathAttribute? then attrs[|attrs| - 1].path
    else LastPath(attrs[..|attrs| - 1], defaultPath)
  }

  predicate Expired(e: Expiry, now: int) {
    e.Earliest? || (e.At? && e.time <= now)
  }

  predicate SameSlot(a: Cookie, b: Cookie) {
    a.name == b.name && a.path == b.path
  }

  /** A store holds at most one cookie per name and path. */
  predicate Keyed(jar: Jar) {
    forall i, j :: 0 <= i < j < |jar| ==> !SameSlot(jar[i], jar[j])
  }

  /** RFC 6265 section 5.3 step 11: a cookie replaces the one with the same name and path
      and keeps its place (its creation time), or is added last. */
  function Put(jar: Jar, c: Cookie): (r: Jar)
    ensures |r| == |jar| || r == jar + [c]
    ensures c in r
    ensures forall x :: x in r ==> x == c || x in jar
  {
    if jar == [] then [c]
    else if SameSlot(jar[0], c) then [c] + jar[1..]
    else [jar[0]] + Put(jar[1..], c)
  }

  /** In a keyed store, `Put` leaves exactly the new cookie and the cookies
      of every other slot, and the store stays keyed. */
  lemma {:induction false} PutKeyed(jar: Jar, c: Cookie)
    requires Keyed(jar)
    ensures Keyed(Put(jar, c))
    ensures forall x :: x in Put(jar, c) <==> x == c || (x in jar && !SameSlot(x, c))
    decreases |jar|
  {
    if jar != [] {
      assert jar == [jar[0]] + jar[1..];
      if SameSlot(jar[0], c) {
        forall x | x in jar[1..] ensures !SameSlot(x, c) {
          var j :| 0 <= j < |jar[1..]| && jar[1..][j] == x;
          assert !SameSlot(jar[0], jar[j + 1]);
        }
      } else {
        PutKeyed(jar[1..], c);
        var r := Put(jar[1..], c);
        forall i, j | 0 <= i < j < |[jar[0]] + r| ensures !SameSlot(([jar[0]] + r)[i], ([jar[0]] + r)[j]) {
          if i == 0 {
            var y := r[j - 1];
            assert y in r;
            if y != c {
              var k :| 0 <= k < |jar[1..]| && jar[1..][k] == y;
              assert !SameSlot(jar[0], jar[k + 1]);
            }
          }
        }
      }
    }
  }

  /** `Put` keeps a store well formed when the new cookie is. */
  lemma PutWellFormed(jar: Jar, c: Cookie)
    requires WellFormed(jar) && NameToken(c.name) && ValueOctets(c.value)
    ensures WellFormed(Put(jar, c))
  {
    var r := Put(jar, c);
    forall i | 0 <= i < |r| ensures NameToken(r[i].name) && ValueOctets(r[i].value) {
      assert r[i] in r;
      if r[i] != c {
        var j :| 0 <= j < |jar| && jar[j] == r[i];
      }
    }
  }

  /** Eviction of the cookie with that name and path. */
  function Evict(jar: Jar, c: Cookie): (r: Jar)
    ensures forall x :: x in r <==> x in jar && !SameSlot(x, c)
  {
    if jar == [] then []
    else if SameSlot(jar[0], c) then Evict(jar[1..], c)
    else [jar[0]] + Evict(jar[1..], c)
  }

  function Store(jar: Jar, sc: SetCookie, now: int, defaultPath: string): Jar {
    var c := Cookie(sc.name, sc.value, LastPath(sc.attributes, defaultPath), LastExpiry(sc.attributes));
    if Expired(c.expiry, now) then Evict(jar, c) else Put(jar, c)
  }

  /** `document.cookie = s`. */
  function Assign(jar: Jar, s: string, now: int, defaultPath: string): Jar {
    match ParseSetCookie(s, now, defaultPath)
    case None => jar
    case Some(sc) => Store(jar, sc, now, defaultPath)
  }

  // ---------------------------------------------------------------------------
  // The injector's write

  /** Seconds an injected cookie lives. */
  const InjectedMaxAge: nat := 86400

  /** What code B assigns for a captured cookie `k` with value `v`. */
  function InjectorAssignment(k: string, v: string): string {
    k + "=" + Percent.Encode(v) + ";" + PathText + ";" + MaxAgeText
  }

  const PathText := " path=/"
  const MaxAgeText := " max-age=86400"

  /** The attribute text `av` is `name=value` with surrounding WSP. */
  lemma ParseKnownAttribute(av: string, rawName: string, name: string, value: string, now: int, defaultPath: string)
    requires av == rawName + ['='] + value && '=' !in rawName
    requires StripWsp(rawName) == name && StripWsp(value) == value
    ensures ParseAttribute(av, now, defaultPath)
         == if SameIgnoringCase(name, "max-age") then MaxAge(value, now)
            else if SameIgnoringCase(name, "path") then PathValue(value, defaultPath)
            else []
  {
    Text.SplitFirstAt(rawName, '=', value);
  }

  lemma StripPathName()
    ensures StripWsp(" path") == "path" && StripWsp("/") == "/"
  {
    assert " path"[1..] == "path";
  }

  lemma ParsePathAttribute(now: int, defaultPath: string)
    ensures ParseAttribute(" path=/", now, defaultPath) == [PathAttribute("/")]
  {
    StripPathName();
    assert '=' !in " path";
    ParseKnownAttribute(" path=/", " path", "path", "/", now, defaultPath);
    assert !SameIgnoringCase("path", "max-age");
    assert SameIgnoringCase("path", "path");
  }

  lemma MaxAgeOfDigits(value: string, now: int)
    requires value != [] && forall i :: 0 <= i < |value| ==> IsDigit(value[i])
    requires DigitsValue(value) > 0
    ensures MaxAge(value, now) == [ExpiryAttribute(At(now + DigitsValue(value)))]
  {
  }

  lemma DigitsOfMaxAge()
    ensures forall i :: 0 <= i < |"86400"| ==> IsDigit("86400"[i])
    ensures DigitsValue("86400") == 86400
  {
    var s := "86400";
    forall i | 0 <= i < |s| ensures IsDigit(s[i]) {
      if i == 0 {} else if i == 1 {} else if i == 2 {} else if i == 3 {} else {}
    }
    assert s[..4] == "8640" && "8640"[..3] == "864" && "864"[..2] == "86" && "86"[..1] == "8" && "8"[..0] == "";
    assert DigitsValue("8") == 8;
    assert DigitsValue("86") == 86;
    assert DigitsValue("864") == 864;
    assert DigitsValue("8640") == 8640;
  }

  lemma StripMaxAgeName()
    ensures StripWsp(" max-age") == "max-age" && StripWsp("86400") == "86400"
  {
    assert " max-age"[1..] == "max-age";
  }

  lemma ParseMaxAgeAttribute(now: int, defaultPath: string)
    ensures ParseAttribute(" max-age=86400", now, defaultPath) == [ExpiryAttribute(At(now + 86400))]
  {
    StripMaxAgeName();
    assert '=' !in " max-age";
    ParseKnownAttribute(" max-age=86400", " max-age", "max-age", "86400", now, defaultPath);
    assert SameIgnoringCase("max-age", "max-age");
    DigitsOfMaxAge();
    MaxAgeOfDigits("86400", now);
  }

  lemma ParseAttributesConcat(a: seq<string>, b: seq<string>, now: int, defaultPath: string)
    ensures ParseAttributes(a + b, now, defaultPath) == ParseAttributes(a, now, defaultPath) + ParseAttributes(b, now, defaultPath)
  {
    if a != [] {
      assert (a + b)[1..] == a[1..] + b;
      ParseAttributesConcat(a[1..], b, now, defaultPath);
    } else {
      assert a + b == b;
    }
  }

  lemma ParseTwoAttributes(a: string, b: string, now: int, defaultPath: string)
    ensures ParseAttributes([a, b], now, defaultPath) == ParseAttribute(a, now, defaultPath) + ParseAttribute(b, now, defaultPath)
  {
    var pa := ParseAttribute(a, now, defaultPath);
    var pb := ParseAttribute(b, now, defaultPath);
    assert [a, b][0] == a && [a, b][1..] == [b];
    assert [b][0] == b && [b][1..] == [];
    assert ParseAttributes([b], now, defaultPath) == pb + ParseAttributes([], now, defaultPath);
    assert ParseAttributes([a, b], now, defaultPath) == pa + ParseAttributes([b], now, defaultPath);
    assert pb + [] == pb;
  }

  lemma ParseInjectedAttributes(now: int, defaultPath: string)
    ensures ParseAttributes([PathText, MaxAgeText], now, defaultPath)
         == [PathAttribute("/"), ExpiryAttribute(At(now + InjectedMaxAge))]
  {
    ParseTwoAttributes(PathText, MaxAgeText, now, defaultPath);
    ParsePathAttribute(now, defaultPath);
    ParseMaxAgeAttribute(now, defaultPath);
  }

  lemma SplitAttributeTexts()
    ensures Text.Split(PathText, ';') == [PathText] && Text.Split(MaxAgeText, ';') == [MaxAgeText]
  {
    assert ';' !in PathText && ';' !in MaxAgeText;
    Text.SplitNoSeparator(PathText, ';');
    Text.SplitNoSeparator(MaxAgeText, ';');
  }

  lemma SplitInjectorAssignment(k: string, e: string)
    requires ';' !in k + "=" + e
    ensures Text.Split(k + "=" + e + ";" + PathText + ";" + MaxAgeText, ';') == [k + "=" + e, PathText, MaxAgeText]
  {
    var pair := k + "=" + e;
    var tail := PathText + [';'] + MaxAgeText;
    assert pair + ";" + PathText + ";" + MaxAgeText == pair + [';'] + tail;
    Text.SplitAround(pair, ';', tail);
    Text.SplitAround(PathText, ';', MaxAgeText);
    Text.SplitNoSeparator(pair, ';');
    SplitAttributeTexts();
  }

  lemma ParseSetCookieOfPair(s: string, name: string, value: string, rest: seq<string>, now: int, defaultPath: string)
    requires Text.Split(s, ';') == [name + "=" + value] + rest
    requires '=' !in name && name != []
    requires forall i :: 0 <= i < |name| ==> !IsWsp(name[i])
    requires forall i :: 0 <= i < |value| ==> !IsWsp(value[i])
    ensures ParseSetCookie(s, now, defaultPath) == Some(SetCookie(name, value, ParseAttributes(rest, now, defaultPath)))
  {
    Text.SplitFirstAt(name, '=', value);
    assert name + "=" + value == name + ['='] + value;
    assert ([name + "=" + value] + rest)[1..] == rest;
  }

  /** The injector's assignment is read, per sections 5.2, 5.2.2 and 5.2.4, as
      the cookie `k` with the percent-encoded value, path "/" and an expiry
      86400 seconds away. */
  lemma InjectorAssignmentParsed(k: string, v: string, now: int, defaultPath: string)
    requires NameToken(k)
    ensures ParseSetCookie(InjectorAssignment(k, v), now, defaultPath)
         == Some(SetCookie(k, Percent.Encode(v), [PathAttribute("/"), ExpiryAttribute(At(now + InjectedMaxAge))]))
  {
    var e := Percent.Encode(v);
    Percent.EncodeSafeForCookie(v);
    assert ';' !in k + "=" + e;
    SplitInjectorAssignment(k, e);
    ParseSetCookieOfPair(InjectorAssignment(k, v), k, e, [PathText, MaxAgeText], now, defaultPath);
    ParseInjectedAttributes(now, defaultPath);
  }

  /** So the assignment stores (or refreshes in place) the session cookie as a
      persistent cookie under path "/" and touches no other cookie. */
  lemma InjectorAssignmentStored(jar: Jar, k: string, v: string, now: int, defaultPath: string)
    requires NameToken(k)
    ensures Assign(jar, InjectorAssignment(k, v), now, defaultPath)
         == Put(jar, Cookie(k, Percent.Encode(v), "/", At(now + InjectedMaxAge)))
  {
    InjectorAssignmentParsed(k, v, now, defaultPath);
    var attrs := [PathAttribute("/"), ExpiryAttribute(At(now + InjectedMaxAge))];
    assert attrs[..1] == [PathAttribute("/")];
    assert LastPath(attrs, defaultPath) == "/";
  }
}

/** The transfer the tool exists for: what code A captures in one page,
    code B writes into another, where code A would capture it again. */
module RoundTrip {
  import opened Wrappers
  import opened Text
  import Percent
  import Cookies
  import opened Types
  import opened Extractor
  import opened Injector

  // ---------------------------------------------------------------------------
  // Reading a well-formed cookie header

  /** `name=value` starts with `key=` exactly when the name is the key. */
  lemma PairStartsWith(name: string, value: string, key: string)
    requires '=' !in name && '=' !in key
    ensures StartsWith(name + "=" + value, key + "=") <==> name == key
  {
    var s := name + "=" + value;
    if StartsWith(s, key + "=") {
      assert s[|key|] == (key + "=")[|key|] == '=';
      forall j | 0 <= j < |name| ensures s[j] != '=' {
        assert s[j] == name[j] && name[j] in name;
      }
      assert s[|name|] == '=';
      forall j | 0 <= j < |key| ensures s[j] != '=' {
        assert s[j] == key[j] && key[j] in key;
      }
      assert |key| == |name|;
      assert s[..|key|] == name;
    }
  }

  /** The piece of the i-th cookie, trimmed and cut at its first `=`, is its
      name and value; `p[0]` and `p[1]` are its name and its value cut at the
      value's own first `=`. */
  lemma PieceFields(jar: Cookies.Jar, i: nat)
    requires Cookies.WellFormed(jar) && i < |jar|
    ensures |Cookies.HeaderPieces(jar)| == |jar|
    ensures Fields(Cookies.HeaderPieces(jar)[i]) == Some((jar[i].name, jar[i].value))
    ensures FieldsAsWritten(Cookies.HeaderPieces(jar)[i]) == Some((jar[i].name, CutValue(jar[i].value)))
  {
    Cookies.HeaderPieceTrim(jar, i);
    PairFields(jar[i]);
  }

  /** A cookie's `name=value` read both ways. */
  lemma PairFields(x: Cookies.Cookie)
    requires Cookies.NameToken(x.name) && Cookies.ValueOctets(x.value)
    ensures Fields(Cookies.PairText(x)) == Some((x.name, x.value))
    ensures FieldsAsWritten(Cookies.PairText(x)) == Some((x.name, CutValue(x.value)))
  {
    assert Cookies.PairText(x) == x.name + ['='] + x.value;
    Cookies.PairTrimmed(x);
    SplitFirstAt(x.name, '=', x.value);
    SecondFieldOfPair(x.name, x.value);
  }



  /** The `find` test accepts the i-th piece exactly when the i-th cookie
      has the key for its name. */
  lemma PieceNames(jar: Cookies.Jar, i: nat, key: string)
    requires Cookies.WellFormed(jar) && i < |jar| && '=' !in key
    ensures |Cookies.HeaderPieces(jar)| == |jar|
    ensures Names(Cookies.HeaderPieces(jar)[i], key) <==> jar[i].name == key
  {
    Cookies.HeaderPieceTrim(jar, i);
    PairStartsWith(jar[i].name, jar[i].value, key);
  }

  /** The value of the i-th piece is the i-th cookie's value. */
  lemma PieceValue(jar: Cookies.Jar, i: nat)
    requires Cookies.WellFormed(jar) && i < |jar|
    ensures |Cookies.HeaderPieces(jar)| == |jar|
    ensures '=' in Cookies.HeaderPieces(jar)[i]
    ensures ValueField(Cookies.HeaderPieces(jar)[i]) == jar[i].value
    ensures SecondField(Cookies.HeaderPieces(jar)[i]) == CutValue(jar[i].value)
  {
    var x := jar[i];
    if |jar| > 1 {
      Cookies.SpacedPiecesAt(jar[1..], 0);
    }
    var head := x.name;
    if i > 0 {
      Cookies.SpacedPiecesAt(jar[1..], i - 1);
      assert jar[1..][i - 1] == x;
      head := " " + x.name;
    }
    assert Cookies.NameToken(x.name);
    assert '=' !in head;
    var piece := Cookies.HeaderPieces(jar)[i];
    assert piece == head + ['='] + x.value;
    assert piece[|head|] == '=';
    SplitFirstAt(head, '=', x.value);
    SecondFieldOfPair(head, x.value);
  }

  /** Code A reads the first cookie named `key` and decodes its value, cut
      at the value's own first `=`; the intended read decodes all of it. */
  lemma ReadFirstNamed(page: Page, key: string, i: nat)
    requires page.cookiesAccessible && Cookies.WellFormed(page.jar) && '=' !in key
    requires i < |page.jar| && page.jar[i].name == key
    requires forall j :: 0 <= j < i ==> page.jar[j].name != key
    ensures ReadCookie(CookiePieces(page), key) == match Percent.Decode(CutValue(page.jar[i].value))
      case None => None
      case Some(v) => Some(Some(v))
    ensures IntendedReadCookie(CookiePieces(page), key) == match Percent.Decode(page.jar[i].value)
      case None => None
      case Some(v) => Some(Some(v))
  {
    FirstNamedFound(page.jar, key, i);
    PieceValue(page.jar, i);
  }

  /** `find` stops at the piece of the first cookie named `key`. */
  lemma FirstNamedFound(jar: Cookies.Jar, key: string, i: nat)
    requires Cookies.WellFormed(jar) && '=' !in key
    requires i < |jar| && jar[i].name == key
    requires forall j :: 0 <= j < i ==> jar[j].name != key
    ensures Split(Cookies.Header(jar), ';') == Cookies.HeaderPieces(jar)
    ensures FindPiece(Cookies.HeaderPieces(jar), key) == Some(i)
  {
    Cookies.SplitHeader(jar);
    var pieces := Cookies.HeaderPieces(jar);
    PieceNames(jar, i, key);
    forall j | 0 <= j < i ensures !Names(pieces[j], key) {
      PieceNames(jar, j, key);
    }
    FindFirst(pieces, key, i);
  }

  /** `find` returns the first index whose piece names `key`. */
  lemma FindFirst(pieces: seq<string>, key: string, i: nat)
    requires i < |pieces| && Names(pieces[i], key)
    requires forall j :: 0 <= j < i ==> !Names(pieces[j], key)
    ensures FindPiece(pieces, key) == Some(i)
  {
  }

  // ---------------------------------------------------------------------------
  // Single key

  /** A value code A captured from localStorage is stored by code B under
      the same key, where code A finds it again; code B then goes to the
      captured address. */
  lemma SingleStorageRoundTrip(a: Page, b: Page, key: string)
    requires ExtractSingle(a, LocalStorage, key).Captured? && b.storageAccessible
    ensures var v := ExtractSingle(a, LocalStorage, key).value;
      var landing := InjectSingle(b, LocalStorage, key, v, a.url);
      landing.navigateTo == a.url &&
      landing.page.jar == b.jar &&
      ExtractSingle(landing.page, LocalStorage, key) == Captured(b.url, v)
  {
  }

  /** Putting a cookie at path "/" into a keyed jar whose cookies of that
      name all sit at "/" leaves exactly one cookie of that name: the new
      one. */
  lemma OnlyNamed(jar: Cookies.Jar, c: Cookies.Cookie) returns (i: nat)
    requires Cookies.Keyed(jar) && c.path == "/"
    requires forall x :: x in jar && x.name == c.name ==> x.path == "/"
    ensures i < |Cookies.Put(jar, c)| && Cookies.Put(jar, c)[i] == c
    ensures forall j :: 0 <= j < |Cookies.Put(jar, c)| && j != i ==> Cookies.Put(jar, c)[j].name != c.name
  {
    Cookies.PutKeyed(jar, c);
    var r := Cookies.Put(jar, c);
    i :| 0 <= i < |r| && r[i] == c;
    forall j | 0 <= j < |r| && j != i ensures r[j].name != c.name {
      assert r[j] in r;
      assert !Cookies.SameSlot(r[i], r[j]);
    }
  }

  /** A value code A captured from the cookies is written by code B as the
      cookie (key, "/"), where code A finds it again, provided the key is a
      cookie name and the target has no cookie of that name on another
      path that the header would list first. */
  lemma SingleCookieRoundTrip(a: Page, b: Page, source: Source, key: string)
    requires source != LocalStorage && ExtractSingle(a, source, key).Captured?
    requires Cookies.NameToken(key)
    requires b.cookiesAccessible && Cookies.WellFormed(b.jar) && Cookies.Keyed(b.jar)
    requires forall x :: x in b.jar && x.name == key ==> x.path == "/"
    ensures var v := ExtractSingle(a, source, key).value;
      var landing := InjectSingle(b, source, key, v, a.url);
      landing.navigateTo == a.url &&
      landing.page.storage == b.storage &&
      ExtractSingle(landing.page, source, key) == Captured(b.url, v)
  {
    var v := ExtractSingle(a, source, key).value;
    var c := Injected(key, v, b.now);
    var landing := InjectSingle(b, source, key, v, a.url);
    var jar := landing.page.jar;
    assert jar == Cookies.Put(b.jar, c);
    Cookies.PutWellFormed(b.jar, c);
    var i := OnlyNamed(b.jar, c);
    ReadFirstNamed(landing.page, key, i);
    Percent.EncodeSafeForCookie(v);
    assert CutValue(c.value) == c.value;
    Percent.DecodeEncode(v);
  }

  // ---------------------------------------------------------------------------
  // Everything

  /** A cookie whose value, cut at its own first `=`, is non-empty and can
      be decoded. */
  predicate DecodableCookie(x: Cookies.Cookie) {
    CutValue(x.value) != "" && Percent.Decode(CutValue(x.value)).Some?
  }

  /** Every cookie of the jar is decodable. */
  predicate Decodable(jar: Cookies.Jar) {
    forall i :: 0 <= i < |jar| ==> DecodableCookie(jar[i])
  }

  /** `acc` with a decodable cookie written in: its cut value decoded under
      its name, unless the name is `__proto__`. */
  function OverlayOne(acc: map<string, string>, x: Cookies.Cookie): map<string, string>
    requires DecodableCookie(x)
  {
    if x.name == ProtoKey then acc else acc[x.name := Percent.Decode(CutValue(x.value)).value]
  }

  /** `acc` with each cookie written in, in header order. */
  function Overlay(acc: map<string, string>, jar: Cookies.Jar): map<string, string>
    requires Decodable(jar)
    decreases |jar|
  {
    if jar == [] then acc
    else Overlay(OverlayOne(acc, jar[0]), jar[1..])
  }

  /** An empty jar reads as the single piece "", which captures nothing. */
  lemma CaptureOfEmptyHeader(acc: map<string, string>)
    ensures CaptureFrom(acc, [""]) == acc
  {
    var pieces := [""];
    assert pieces[0] == "" && pieces[1..] == [];
    EmptyPieceStep(acc);
    assert CaptureFrom(acc, pieces) == CaptureFrom(acc, []);
  }

  /** The piece "" has no `=`, so its turn changes nothing. */
  lemma EmptyPieceStep(acc: map<string, string>)
    ensures CaptureStep(acc, "") == Some(acc)
  {
    assert TrimStart("") == "";
    assert Trim("") == "";
    assert FieldsAsWritten("").None?;
  }

  /** Over pieces that trim to the cookies' pairs, the `forEach` writes each
      decoded cookie into `d.c` in turn. */
  lemma {:induction false} CaptureOfPieces(acc: map<string, string>, jar: Cookies.Jar, pieces: seq<string>)
    requires Cookies.WellFormed(jar) && Decodable(jar)
    requires |pieces| == |jar| && forall i :: 0 <= i < |jar| ==> Trim(pieces[i]) == Cookies.PairText(jar[i])
    ensures CaptureFrom(acc, pieces) == Overlay(acc, jar)
    decreases |jar|
  {
    if jar != [] {
      var x := jar[0];
      FirstPieceFields(jar, pieces);
      assert DecodableCookie(x);
      assert CaptureStep(acc, pieces[0]) == Some(OverlayOne(acc, x));
      TailPieces(jar, pieces);
      DecodableTail(jar);
      CaptureOfPieces(OverlayOne(acc, x), jar[1..], pieces[1..]);
    }
  }

  /** The first piece splits into the first cookie's name and value, cut at
      the value's own first `=`. */
  lemma FirstPieceFields(jar: Cookies.Jar, pieces: seq<string>)
    requires Cookies.WellFormed(jar) && jar != []
    requires |pieces| == |jar| && forall i :: 0 <= i < |jar| ==> Trim(pieces[i]) == Cookies.PairText(jar[i])
    ensures FieldsAsWritten(pieces[0]) == Some((jar[0].name, CutValue(jar[0].value))) && Cookies.NameToken(jar[0].name)
  {
    var x := jar[0];
    assert Trim(pieces[0]) == Cookies.PairText(x);
    PairFields(x);
    Cookies.PairTrimmed(x);
  }

  /** The remaining pieces still trim to the remaining cookies' pairs. */
  lemma TailPieces(jar: Cookies.Jar, pieces: seq<string>)
    requires Cookies.WellFormed(jar) && jar != []
    requires |pieces| == |jar| && forall i :: 0 <= i < |jar| ==> Trim(pieces[i]) == Cookies.PairText(jar[i])
    ensures Cookies.WellFormed(jar[1..]) && |pieces[1..]| == |jar[1..]|
    ensures forall i :: 0 <= i < |jar[1..]| ==> Trim(pieces[1..][i]) == Cookies.PairText(jar[1..][i])
  {
    forall i | 0 <= i < |jar[1..]|
      ensures Trim(pieces[1..][i]) == Cookies.PairText(jar[1..][i])
      ensures Cookies.NameToken(jar[1..][i].name) && Cookies.ValueOctets(jar[1..][i].value)
    {
      assert jar[1..][i] == jar[i + 1];
    }
  }

  /** `d.c` of a page with a well-formed, decodable jar. */
  lemma CaptureOfJar(page: Page)
    requires page.cookiesAccessible && Cookies.WellFormed(page.jar) && Decodable(page.jar)
    ensures CookieCapture(page) == Overlay(map[], page.jar)
  {
    Cookies.SplitHeader(page.jar);
    var pieces := CookiePieces(page);
    if page.jar == [] {
      CaptureOfEmptyHeader(map[]);
    } else {
      Cookies.HeaderPieceTrim(page.jar, 0);
      forall i | 0 <= i < |page.jar| ensures Trim(pieces[i]) == Cookies.PairText(page.jar[i]) {
        Cookies.HeaderPieceTrim(page.jar, i);
      }
      CaptureOfPieces(map[], page.jar, pieces);
    }
  }

  /** A map `d.c` can hold after reading a well-formed jar: cookie names
      other than `__proto__` for keys, non-empty values. */
  predicate CookieKeys(m: map<string, string>) {
    forall k :: k in m ==> Cookies.NameToken(k) && k != ProtoKey && m[k] != ""
  }

  /** Over a well-formed jar, every key the `forEach` adds is a cookie name
      other than `__proto__` and every value it stores is non-empty. */
  lemma {:induction false} CaptureKeys(acc: map<string, string>, jar: Cookies.Jar, pieces: seq<string>)
    requires Cookies.WellFormed(jar)
    requires |pieces| == |jar| && forall i :: 0 <= i < |jar| ==> Trim(pieces[i]) == Cookies.PairText(jar[i])
    requires CookieKeys(acc)
    ensures CookieKeys(CaptureFrom(acc, pieces))
    decreases |jar|
  {
    if jar != [] {
      FirstStepKeys(acc, jar, pieces);
      match CaptureStep(acc, pieces[0])
      case None =>
      case Some(next) =>
        TailPieces(jar, pieces);
        CaptureKeys(next, jar[1..], pieces[1..]);
    }
  }

  /** The turn for the first piece of a well-formed jar keeps the keys
      cookie names other than `__proto__` and the values non-empty. */
  lemma FirstStepKeys(acc: map<string, string>, jar: Cookies.Jar, pieces: seq<string>)
    requires Cookies.WellFormed(jar) && jar != []
    requires |pieces| == |jar| && forall i :: 0 <= i < |jar| ==> Trim(pieces[i]) == Cookies.PairText(jar[i])
    requires CookieKeys(acc)
    ensures CaptureStep(acc, pieces[0]).Some? ==> CookieKeys(CaptureStep(acc, pieces[0]).value)
  {
    FirstPieceFields(jar, pieces);
    if CaptureStep(acc, pieces[0]).Some? {
      StepKeys(acc, pieces[0], jar[0].name, CutValue(jar[0].value));
    }
  }

  /** One turn of the `forEach` on a piece naming a cookie keeps the keys
      cookie names other than `__proto__` and the values non-empty. */
  lemma StepKeys(acc: map<string, string>, piece: string, name: string, value: string)
    requires FieldsAsWritten(piece) == Some((name, value)) && Cookies.NameToken(name)
    requires CookieKeys(acc)
    requires CaptureStep(acc, piece).Some?
    ensures CookieKeys(CaptureStep(acc, piece).value)
  {
    if value != "" && name != ProtoKey {
      var v := Percent.Decode(value).value;
      assert CaptureStep(acc, piece).value == acc[name := v];
    }
  }

  /** `d.c` of a page with a well-formed jar has cookie names other than
      `__proto__` for keys and non-empty values. */
  lemma CapturedNames(page: Page)
    requires page.cookiesAccessible ==> Cookies.WellFormed(page.jar)
    ensures CookieKeys(CookieCapture(page))
  {
    if page.cookiesAccessible {
      Cookies.SplitHeader(page.jar);
      var pieces := CookiePieces(page);
      if page.jar == [] {
        CaptureOfEmptyHeader(map[]);
      } else {
        Cookies.HeaderPieceTrim(page.jar, 0);
        forall i | 0 <= i < |page.jar| ensures Trim(pieces[i]) == Cookies.PairText(page.jar[i]) {
          Cookies.HeaderPieceTrim(page.jar, i);
        }
        CaptureKeys(map[], page.jar, pieces);
      }
    }
  }

  lemma DecodableTail(jar: Cookies.Jar)
    requires Decodable(jar) && jar != []
    ensures Decodable(jar[1..])
  {
    forall i | 0 <= i < |jar[1..]| ensures DecodableCookie(jar[1..][i]) {
      assert jar[1..][i] == jar[i + 1];
    }
  }

  /** The overlay holds a key exactly when `acc` does or some cookie other
      than `__proto__` has it for its name. */
  lemma {:induction false} OverlayKey(acc: map<string, string>, jar: Cookies.Jar, k: string)
    requires Decodable(jar)
    ensures k in Overlay(acc, jar) <==> k in acc || (k != ProtoKey && exists i :: 0 <= i < |jar| && jar[i].name == k)
    decreases |jar|
  {
    if jar != [] {
      var next := OverlayOne(acc, jar[0]);
      var rest := jar[1..];
      DecodableTail(jar);
      OverlayKey(next, rest, k);
      assert Overlay(acc, jar) == Overlay(next, rest);
      if exists i :: 0 <= i < |rest| && rest[i].name == k {
        var i :| 0 <= i < |rest| && rest[i].name == k;
        assert jar[i + 1].name == k;
      }
      if exists i :: 0 <= i < |jar| && jar[i].name == k {
        var i :| 0 <= i < |jar| && jar[i].name == k;
        if i > 0 {
          assert rest[i - 1].name == k;
        }
      }
    }
  }

  /** A key no cookie names keeps its value from `acc`. */
  lemma {:induction false} OverlayKeeps(acc: map<string, string>, jar: Cookies.Jar, k: string)
    requires Decodable(jar) && k in acc
    requires forall i :: 0 <= i < |jar| ==> jar[i].name != k
    ensures k in Overlay(acc, jar) && Overlay(acc, jar)[k] == acc[k]
    decreases |jar|
  {
    if jar != [] {
      var next := OverlayOne(acc, jar[0]);
      var rest := jar[1..];
      DecodableTail(jar);
      assert jar[0].name != k;
      forall i | 0 <= i < |rest| ensures rest[i].name != k {
        assert rest[i] == jar[i + 1];
      }
      OverlayKeeps(next, rest, k);
      assert Overlay(acc, jar) == Overlay(next, rest);
    }
  }

  /** With distinct names, each cookie not named `__proto__` has its name
      mapped to its decoded cut value. */
  lemma {:induction false} OverlayValue(acc: map<string, string>, jar: Cookies.Jar, i: nat)
    requires Decodable(jar) && i < |jar| && jar[i].name != ProtoKey
    requires forall a, b :: 0 <= a < b < |jar| ==> jar[a].name != jar[b].name
    ensures jar[i].name in Overlay(acc, jar)
    ensures Overlay(acc, jar)[jar[i].name] == Percent.Decode(CutValue(jar[i].value)).value
    decreases |jar|
  {
    var next := OverlayOne(acc, jar[0]);
    var rest := jar[1..];
    DecodableTail(jar);
    DistinctTail(jar);
    assert Overlay(acc, jar) == Overlay(next, rest);
    if i == 0 {
      OverlayKeeps(next, rest, jar[0].name);
    } else {
      assert rest[i - 1] == jar[i];
      OverlayValue(next, rest, i - 1);
    }
  }

  /** The tail of a jar with distinct names has distinct names, none of them
      the first cookie's. */
  lemma DistinctTail(jar: Cookies.Jar)
    requires jar != [] && forall i, j :: 0 <= i < j < |jar| ==> jar[i].name != jar[j].name
    ensures forall i, j :: 0 <= i < j < |jar[1..]| ==> jar[1..][i].name != jar[1..][j].name
    ensures forall i :: 0 <= i < |jar[1..]| ==> jar[1..][i].name != jar[0].name
  {
    forall i, j | 0 <= i < j < |jar[1..]| ensures jar[1..][i].name != jar[1..][j].name {
      assert jar[1..][i] == jar[i + 1] && jar[1..][j] == jar[j + 1];
    }
    forall i | 0 <= i < |jar[1..]| ensures jar[1..][i].name != jar[0].name {
      assert jar[1..][i] == jar[i + 1];
    }
  }

  /** The cookies of a jar made of injected cookies decode to what was
      injected: an encoded value holds no `=`, so the cut keeps all of it. */
  lemma InjectedDecodable(jar: Cookies.Jar, c: map<string, string>, now: int)
    requires forall x :: x in jar ==> x.name in c && x == Injected(x.name, c[x.name], now)
    requires forall k :: k in c ==> c[k] != ""
    ensures Decodable(jar)
    ensures forall i :: 0 <= i < |jar| ==> jar[i].name in c && Percent.Decode(CutValue(jar[i].value)) == Some(c[jar[i].name])
  {
    forall i | 0 <= i < |jar|
      ensures DecodableCookie(jar[i]) && jar[i].name in c && Percent.Decode(CutValue(jar[i].value)) == Some(c[jar[i].name])
    {
      assert jar[i] in jar;
      var v := c[jar[i].name];
      Percent.EncodeSafeForCookie(v);
      assert CutValue(jar[i].value) == Percent.Encode(v);
      Percent.DecodeEncode(v);
    }
  }

  /** In a keyed jar whose cookies all sit at "/", no name repeats. */
  lemma RootNamesDistinct(jar: Cookies.Jar)
    requires Cookies.Keyed(jar) && forall x :: x in jar ==> x.path == "/"
    ensures forall i, j :: 0 <= i < j < |jar| ==> jar[i].name != jar[j].name
  {
    forall i, j | 0 <= i < j < |jar| ensures jar[i].name != jar[j].name {
      assert jar[i] in jar && jar[j] in jar;
      assert !Cookies.SameSlot(jar[i], jar[j]);
    }
  }

  /** A jar made of exactly the injected cookies of `c` reads back as `c`. */
  lemma InjectedJarReadsBack(jar: Cookies.Jar, c: map<string, string>, now: int)
    requires Cookies.Keyed(jar) && ProtoKey !in c
    requires forall x :: x in jar <==> x.name in c && x == Injected(x.name, c[x.name], now)
    requires forall k :: k in c ==> c[k] != ""
    ensures Decodable(jar) && Overlay(map[], jar) == c
  {
    InjectedDecodable(jar, c, now);
    RootNamesDistinct(jar);
    assert forall k :: k in c ==> exists i :: 0 <= i < |jar| && jar[i].name == k by {
      forall k | k in c ensures exists i :: 0 <= i < |jar| && jar[i].name == k {
        var x := Injected(k, c[k], now);
        assert x in jar;
      }
    }
    OverlayOfCovering(jar, c);
  }

  /** The overlay of a jar with distinct names that decode to `c`'s values
      and cover `c`'s keys is `c`. */
  lemma OverlayOfCovering(jar: Cookies.Jar, c: map<string, string>)
    requires Decodable(jar)
    requires forall i, j :: 0 <= i < j < |jar| ==> jar[i].name != jar[j].name
    requires forall i :: 0 <= i < |jar| ==> jar[i].name in c && Percent.Decode(CutValue(jar[i].value)) == Some(c[jar[i].name])
    requires forall k :: k in c ==> exists i :: 0 <= i < |jar| && jar[i].name == k
    requires ProtoKey !in c
    ensures Overlay(map[], jar) == c
  {
    var empty: map<string, string> := map[];
    var m := Overlay(empty, jar);
    forall k | k in c ensures k in m && m[k] == c[k] {
      var i :| 0 <= i < |jar| && jar[i].name == k;
      OverlayValue(empty, jar, i);
    }
    forall k | k in m ensures exists i :: 0 <= i < |jar| && jar[i].name == k {
      OverlayKey(empty, jar, k);
    }
    CoveredKeys(jar, c, m);
  }

  /** A map whose keys are the jar's names holds no key outside `c`. */
  lemma CoveredKeys(jar: Cookies.Jar, c: map<string, string>, m: map<string, string>)
    requires forall i :: 0 <= i < |jar| ==> jar[i].name in c
    requires forall k :: k in m ==> exists i :: 0 <= i < |jar| && jar[i].name == k
    requires forall k :: k in c ==> k in m && m[k] == c[k]
    ensures m == c
  {
    forall k | k in m ensures k in c {
      var i :| 0 <= i < |jar| && jar[i].name == k;
    }
    assert m.Keys == c.Keys;
  }

  /** A store that holds neither "" nor `__proto__` is read back whole. */
  lemma StorageReadsBack(page: Page)
    requires page.storageAccessible && "" !in page.storage && ProtoKey !in page.storage
    ensures StorageCapture(page) == page.storage
  {
  }

  /** A jar into which code B wrote the cookies `c` from nothing reads back
      as `c`. */
  lemma CookiesReadBack(page: Page, c: map<string, string>, now: int)
    requires CookieKeys(c)
    requires page.cookiesAccessible && Cookies.Keyed(page.jar) && WrittenFrom(page.jar, [], c, c.Keys, now)
    ensures CookieCapture(page) == c
  {
    InjectedJarReadsBack(page.jar, c, now);
    CaptureOfJar(page);
  }

  /** A page into which code B wrote the capture `d`, starting from empty
      stores, reads back as the storage entries written and the cookies. */
  lemma LandingReadsBack(page: Page, d: Capture, keys: seq<string>, room: nat, now: int)
    requires "" !in d.local && ProtoKey !in d.local && CookieKeys(d.cookies)
    requires forall k :: k in d.local <==> k in keys
    requires page.storageAccessible && page.storage == map[] + WrittenBefore(d.local, keys, room)
    requires page.cookiesAccessible && Cookies.Keyed(page.jar) && WrittenFrom(page.jar, [], d.cookies, d.cookies.Keys, now)
    ensures StorageCapture(page) == WrittenBefore(d.local, keys, room)
    ensures CookieCapture(page) == d.cookies
  {
    var written := WrittenBefore(d.local, keys, room);
    assert map[] + written == written;
    StorageReadsBack(page);
    CookiesReadBack(page, d.cookies, now);
  }

  /** Capture everything in page `a`, inject it into a page `b` whose stores
      are empty, and capture again: the same cookies come back, the storage
      entries written before the first failing write come back (all of them
      when no write fails), and code B goes to `a`'s address. `keys` is the
      order in which code B walks the captured storage and `room` the index
      of its first failing write. Cookies of `a` must be well formed for
      their names to survive being written. */
  method AllRoundTrip(a: Page, b: Page, keys: seq<string>, room: nat) returns (first: Capture, landing: Landing, second: Capture)
    requires a.cookiesAccessible ==> Cookies.WellFormed(a.jar)
    requires forall k :: k in StorageCapture(a) <==> k in keys
    requires b.storageAccessible && b.storage == map[]
    requires b.cookiesAccessible && b.jar == []
    ensures first == Capture(StorageCapture(a), CookieCapture(a), a.url)
    ensures landing.navigateTo == a.url
    ensures second.cookies == first.cookies
    ensures second.local == WrittenBefore(first.local, keys, room)
    ensures room >= |keys| ==> second.local == first.local
  {
    first := ExtractAll(a);
    landing := InjectAll(b, first, keys, room);
    CapturedNames(a);
    LandingReadsBack(landing.page, first, keys, room, b.now);
    second := ExtractAll(landing.page);
  }
}

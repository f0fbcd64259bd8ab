/** What the generated code A does in the page the user is logged in to
    (src/hooks/useCodeGenerator.ts:31-35 and the equivalent templates of
    src/utils/codeGenerator.ts:11-18): it reads localStorage and
    `document.cookie` and hands code B the data it found, or stops.

    The page is a value; the loops of the "all" capture are methods proved
    against the functions that say what they collect. */
module Extractor {
  import opened Wrappers
  import opened Text
  import Percent
  import Cookies
  import opened Types

  /** The browser page a generated script runs in: its address, its
      localStorage entries, its cookies, and whether each store can be used
      at all (access throws in a sandboxed or storage-blocked context). `now`
      and `defaultPath` are what a cookie assignment needs. */
  datatype Page = Page(
    url: string,
    storage: map<string, string>,
    storageAccessible: bool,
    jar: Cookies.Jar,
    cookiesAccessible: bool,
    now: int,
    defaultPath: string)

  /** The one key an assignment `o[k] = v` to a plain object ignores when `v`
      is a string: it names the inherited prototype setter, which does
      nothing for a value that is not an object. */
  const ProtoKey: string := "__proto__"

  /** `document.cookie.split(';')`. */
  function CookiePieces(page: Page): seq<string> {
    Split(Cookies.Header(page.jar), ';')
  }

  // ---------------------------------------------------------------------------
  // Reading one cookie

  /** The `find` test: the trimmed piece starts with `key=`. */
  predicate Names(piece: string, key: string) {
    StartsWith(Trim(piece), key + "=")
  }

  /** `pieces.find(x => x.trim().startsWith(key + "="))`, as an index. */
  function FindPiece(pieces: seq<string>, key: string): (r: Option<nat>)
    ensures r.Some? ==> r.value < |pieces| && Names(pieces[r.value], key)
    ensures r.Some? ==> forall j :: 0 <= j < r.value ==> !Names(pieces[j], key)
    ensures r.None? ==> forall j :: 0 <= j < |pieces| ==> !Names(pieces[j], key)
  {
    FindPieceFrom(pieces, key, 0)
  }

  /** The search from index `i` on. */
  function FindPieceFrom(pieces: seq<string>, key: string, i: nat): (r: Option<nat>)
    requires i <= |pieces|
    requires forall j :: 0 <= j < i ==> !Names(pieces[j], key)
    ensures r.Some? ==> r.value < |pieces| && Names(pieces[r.value], key)
    ensures r.Some? ==> forall j :: 0 <= j < r.value ==> !Names(pieces[j], key)
    ensures r.None? ==> forall j :: 0 <= j < |pieces| ==> !Names(pieces[j], key)
    decreases |pieces| - i
  {
    if i == |pieces| then None
    else if Names(pieces[i], key) then Some(i)
    else
      assert forall j :: 0 <= j < i + 1 ==> !Names(pieces[j], key) by {
        forall j | 0 <= j < i + 1 ensures !Names(pieces[j], key) {
          if j == i {
          }
        }
      }
      FindPieceFrom(pieces, key, i + 1)
  }

  /** A piece the `find` accepts holds an `=`. */
  lemma NamedPieceHasEquals(piece: string, key: string)
    requires Names(piece, key)
    ensures '=' in piece
  {
    var t := Trim(piece);
    assert t[|key|] == (key + "=")[|key|] == '=';
    TrimKeeps(piece, '=');
  }

  /** `c.split('=')[1]`, the value as the extractor takes it: the text after
      the first `=` up to the next `=`, so that a value holding `=` is cut
      short (see `ValueField` for the value itself). */
  function SecondField(piece: string): (r: string)
    requires '=' in piece
    ensures '=' !in r
    ensures StartsWith(ValueField(piece), r)
    ensures |r| == |ValueField(piece)| || ValueField(piece)[|r|] == '='
  {
    SplitAtLeastTwo(piece, '=');
    var (a, rest) := SplitFirst(piece, '=').value;
    SplitAfterHead(a, '=', rest);
    SplitHead(rest, '=');
    Split(piece, '=')[1]
  }

  /** What `split('=')[1]` takes of a cookie value: the text before the
      value's own first `=`. */
  function CutValue(value: string): (r: string)
    ensures '=' !in r && StartsWith(value, r)
    ensures '=' !in value ==> r == value
  {
    SplitHead(value, '=');
    if '=' in value then Split(value, '=')[0]
    else
      SplitNoSeparator(value, '=');
      Split(value, '=')[0]
  }

  /** After a name without `=`, `split('=')[1]` is the value cut at its own
      first `=`. */
  lemma SecondFieldOfPair(name: string, value: string)
    requires '=' !in name
    ensures SecondField(name + "=" + value) == CutValue(value)
  {
    assert name + "=" + value == name + ['='] + value;
    SplitAfterHead(name, '=', value);
  }

  /** The cookie value of a piece: everything after its first `=`. */
  function ValueField(piece: string): (r: string)
    requires '=' in piece
    ensures exists name :: piece == name + "=" + r && '=' !in name
  {
    var (name, value) := SplitFirst(piece, '=').value;
    assert piece == name + "=" + value;
    value
  }

  /** As long as the value holds no `=`, cutting at the second `=` changes
      nothing. */
  lemma SecondFieldOfPlainValue(piece: string)
    requires '=' in piece && '=' !in ValueField(piece)
    ensures SecondField(piece) == ValueField(piece)
  {
  }

  /** A cookie whose value ends in `=` (a padded base64 token, say): the
      extractor's `split('=')[1]` loses the padding. */
  lemma SecondFieldCutsPadding(name: string, value: string)
    requires '=' !in name && '=' !in value
    ensures SecondField(name + "=" + value + "=") == value
    ensures ValueField(name + "=" + value + "=") == value + "="
  {
    var piece := name + "=" + value + "=";
    assert piece == name + ['='] + (value + "=");
    SplitFirstAt(name, '=', value + "=");
    SplitAfterHead(name, '=', value + "=");
    assert value + "=" == value + ['='] + [];
    SplitAfterHead(value, '=', []);
  }

  /** What code A does in single mode. */
  datatype Outcome =
    | Captured(url: string, value: string)  // code B is built and delivered
    | NotFound                              // "❌未找到数据": nothing delivered
    | ReadFailed                            // "数据访问失败": nothing delivered

  /** `c ? decodeURIComponent(c.split('=')[1]) : null`: the first cookie
      piece named `key`, cut at its second `=` and decoded; `None` when
      decoding throws, `Some(None)` when no piece is named `key`. */
  function ReadCookie(pieces: seq<string>, key: string): (r: Option<Option<string>>)
    ensures FindPiece(pieces, key).None? <==> r == Some(None)
    ensures FindPiece(pieces, key).Some? ==>
      var piece := pieces[FindPiece(pieces, key).value];
      '=' in piece && (r.None? <==> Percent.Decode(SecondField(piece)).None?) &&
      (r.Some? ==> r.value == Percent.Decode(SecondField(piece)))
  {
    match FindPiece(pieces, key)
    case None => Some(None)
    case Some(i) =>
      NamedPieceHasEquals(pieces[i], key);
      match Percent.Decode(SecondField(pieces[i]))
      case None => None
      case Some(v) => Some(Some(v))
  }

  /** The read as intended: the whole value after the first `=`, decoded. */
  function IntendedReadCookie(pieces: seq<string>, key: string): (r: Option<Option<string>>)
    ensures FindPiece(pieces, key).None? <==> r == Some(None)
    ensures FindPiece(pieces, key).Some? ==>
      var piece := pieces[FindPiece(pieces, key).value];
      '=' in piece && (r.None? <==> Percent.Decode(ValueField(piece)).None?) &&
      (r.Some? ==> r.value == Percent.Decode(ValueField(piece)))
  {
    match FindPiece(pieces, key)
    case None => Some(None)
    case Some(i) =>
      NamedPieceHasEquals(pieces[i], key);
      match Percent.Decode(ValueField(pieces[i]))
      case None => None
      case Some(v) => Some(Some(v))
  }

  /** The two reads differ only on a value that holds a `=` of its own. */
  lemma ReadsAgree(pieces: seq<string>, key: string)
    requires FindPiece(pieces, key).Some? ==>
      '=' in pieces[FindPiece(pieces, key).value] && '=' !in ValueField(pieces[FindPiece(pieces, key).value])
    ensures ReadCookie(pieces, key) == IntendedReadCookie(pieces, key)
  {
    if FindPiece(pieces, key).Some? {
      SecondFieldOfPlainValue(pieces[FindPiece(pieces, key).value]);
    }
  }

  /** Code A for a single key (src/hooks/useCodeGenerator.ts:34): read `v`
      from localStorage when the source's name is "localStorage" and from the
      cookies otherwise; a read that throws, a missing value and an empty
      value all stop the script before code B is built. */
  function ExtractSingle(page: Page, source: Source, key: string): (r: Outcome)
    ensures r.Captured? ==> r.url == page.url && r.value != ""
    ensures source == LocalStorage ==>
      (r.Captured? <==> page.storageAccessible && key in page.storage && page.storage[key] != "")
    ensures source == LocalStorage && r.Captured? ==> r.value == page.storage[key]
    ensures r.ReadFailed? <==>
      if source == LocalStorage then !page.storageAccessible
      else !page.cookiesAccessible || ReadCookie(CookiePieces(page), key).None?
    ensures source != LocalStorage && page.cookiesAccessible && ReadCookie(CookiePieces(page), key).Some? ==>
      (r.Captured? <==>
        ReadCookie(CookiePieces(page), key).value.Some? && ReadCookie(CookiePieces(page), key).value.value != "")
    ensures source != LocalStorage && r.Captured? ==> ReadCookie(CookiePieces(page), key) == Some(Some(r.value))
  {
    var read: Option<Option<string>> :=
      if source.Name() == "localStorage" then
        if !page.storageAccessible then None
        else if key in page.storage then Some(Some(page.storage[key]))
        else Some(None)
      else if !page.cookiesAccessible then None
      else ReadCookie(CookiePieces(page), key);
    match read
    case None => ReadFailed
    case Some(None) => NotFound
    case Some(Some(v)) => if v == "" then NotFound else Captured(page.url, v)
  }

  // ---------------------------------------------------------------------------
  // Capturing everything

  /** `d.l`: every localStorage entry with a non-empty key other than
      `__proto__`, or nothing when localStorage cannot be read. */
  function StorageCapture(page: Page): (r: map<string, string>)
    ensures "" !in r && ProtoKey !in r
    ensures page.storageAccessible ==>
      forall k :: k != "" && k != ProtoKey ==> (k in r <==> k in page.storage) && (k in r ==> r[k] == page.storage[k])
    ensures !page.storageAccessible ==> r == map[]
  {
    if page.storageAccessible then map k | k in page.storage && k != "" && k != ProtoKey :: page.storage[k]
    else map[]
  }

  /** The loop `for (i < localStorage.length) { k = localStorage.key(i);
      if (k) d.l[k] = localStorage.getItem(k) }`, over the keys in any order;
      the assignment to `d.l.__proto__` is ignored. */
  method CaptureStorage(page: Page) returns (l: map<string, string>)
    ensures l == StorageCapture(page)
  {
    l := map[];
    if !page.storageAccessible {
      return;
    }
    var remaining := page.storage.Keys;
    while remaining != {}
      invariant remaining <= page.storage.Keys
      invariant l == map k | k in page.storage && k !in remaining && k != "" && k != ProtoKey :: page.storage[k]
      decreases remaining
    {
      var k :| k in remaining;
      if k != "" && k != ProtoKey {
        l := l[k := page.storage[k]];
      }
      remaining := remaining - {k};
    }
  }

  /** `p = c.trim().split('=')` read as a name and a value, cutting at the
      first `=`: `None` when there is no `=` at all. */
  function Fields(piece: string): (r: Option<(string, string)>)
    ensures r.Some? ==> Trim(piece) == r.value.0 + "=" + r.value.1 && '=' !in r.value.0
    ensures r.None? <==> '=' !in Trim(piece)
  {
    SplitFirst(Trim(piece), '=')
  }

  /** `p[0]` and `p[1]` as the extractor takes them: the value cut at its
      next `=` (see `SecondField`). */
  function FieldsAsWritten(piece: string): (r: Option<(string, string)>)
    ensures r.None? <==> Fields(piece).None?
    ensures r.Some? ==> r.value.0 == Fields(piece).value.0
    ensures r.Some? ==> r.value.1 == SecondField(Trim(piece))
  {
    var p := Split(Trim(piece), '=');
    if '=' in Trim(piece) then
      SplitAtLeastTwo(Trim(piece), '=');
      var (a, rest) := SplitFirst(Trim(piece), '=').value;
      SplitAfterHead(a, '=', rest);
      Some((p[0], p[1]))
    else
      None
  }

  /** The turn for `piece` writes the key `k`: `p[0]` is `k`, neither `p[0]`
      nor `p[1]` is empty, and `k` is not `__proto__`. */
  predicate StoresUnder(piece: string, k: string) {
    match FieldsAsWritten(piece)
    case None => false
    case Some((name, value)) => name == k && name != "" && value != "" && name != ProtoKey
  }

  /** One turn of the `forEach`: for a piece with a non-empty `p[0]` and
      `p[1]`, `p[1]` is decoded and stored in `d.c` under `p[0]` (a later
      piece with the same name overwrites an earlier one, and the name
      `__proto__` is ignored); `None` when `decodeURIComponent` throws. */
  function CaptureStep(acc: map<string, string>, piece: string): (r: Option<map<string, string>>)
    ensures r.None? <==> match FieldsAsWritten(piece)
      case None => false
      case Some((name, value)) => name != "" && value != "" && Percent.Decode(value).None?
    ensures r.Some? ==> forall k :: k in r.value <==> k in acc || StoresUnder(piece, k)
    ensures r.Some? ==> forall k :: k in r.value ==>
      r.value[k] == if StoresUnder(piece, k) then Percent.Decode(FieldsAsWritten(piece).value.1).value else acc[k]
  {
    match FieldsAsWritten(piece)
    case None => Some(acc)
    case Some((name, value)) =>
      if name == "" || value == "" then Some(acc)
      else
        match Percent.Decode(value)
        case None => None
        case Some(v) => Some(if name == ProtoKey then acc else acc[name := v])
  }

  /** The intended turn for `piece` writes the key `k`: the name before the
      first `=` is `k`, neither it nor the whole value after it is empty, and
      `k` is not `__proto__`. */
  predicate IntendedStoresUnder(piece: string, k: string) {
    match Fields(piece)
    case None => false
    case Some((name, value)) => name == k && name != "" && value != "" && name != ProtoKey
  }

  /** The turn as intended: the whole value after the first `=`. */
  function IntendedCaptureStep(acc: map<string, string>, piece: string): (r: Option<map<string, string>>)
    ensures r.None? <==> match Fields(piece)
      case None => false
      case Some((name, value)) => name != "" && value != "" && Percent.Decode(value).None?
    ensures r.Some? ==> forall k :: k in r.value <==> k in acc || IntendedStoresUnder(piece, k)
    ensures r.Some? ==> forall k :: k in r.value ==>
      r.value[k] == if IntendedStoresUnder(piece, k) then Percent.Decode(Fields(piece).value.1).value else acc[k]
  {
    match Fields(piece)
    case None => Some(acc)
    case Some((name, value)) =>
      if name == "" || value == "" then Some(acc)
      else
        match Percent.Decode(value)
        case None => None
        case Some(v) => Some(if name == ProtoKey then acc else acc[name := v])
  }

  /** The two turns differ only on a value that holds a `=` of its own. */
  lemma CaptureStepsAgree(acc: map<string, string>, piece: string)
    requires Fields(piece).Some? ==> '=' !in Fields(piece).value.1
    ensures CaptureStep(acc, piece) == IntendedCaptureStep(acc, piece)
  {
    if Fields(piece).Some? {
      var (name, value) := Fields(piece).value;
      assert Trim(piece) == name + "=" + value;
      SecondFieldOfPair(name, value);
    }
  }

  /** The rest of the `forEach` from `acc` on: a throw ends it, and what was
      captured before the throw is kept. */
  function CaptureFrom(acc: map<string, string>, pieces: seq<string>): map<string, string>
    decreases |pieces|
  {
    if pieces == [] then acc
    else
      match CaptureStep(acc, pieces[0])
      case None => acc
      case Some(next) => CaptureFrom(next, pieces[1..])
  }

  /** `d.c`: the decoded cookies, or nothing when the cookies cannot be read. */
  function CookieCapture(page: Page): map<string, string> {
    if page.cookiesAccessible then CaptureFrom(map[], CookiePieces(page)) else map[]
  }

  /** The `forEach` over `document.cookie.split(';')` as a loop. */
  method CaptureCookies(page: Page) returns (c: map<string, string>)
    ensures c == CookieCapture(page)
  {
    c := map[];
    if !page.cookiesAccessible {
      return;
    }
    var pieces := CookiePieces(page);
    var i := 0;
    while i < |pieces|
      invariant 0 <= i <= |pieces|
      invariant CaptureFrom(c, pieces[i..]) == CaptureFrom(map[], pieces)
    {
      assert pieces[i..][1..] == pieces[i + 1..];
      var step := CaptureStep(c, pieces[i]);
      if step.None? {
        return;
      }
      c := step.value;
      i := i + 1;
    }
  }

  /** `d` in "all" mode: the captured entries and the page's address. */
  datatype Capture = Capture(local: map<string, string>, cookies: map<string, string>, url: string)

  /** Code A in "all" mode (src/hooks/useCodeGenerator.ts:32): it never
      stops; whatever could be read goes to code B. */
  method ExtractAll(page: Page) returns (d: Capture)
    ensures d == Capture(StorageCapture(page), CookieCapture(page), page.url)
  {
    var l := CaptureStorage(page);
    var c := CaptureCookies(page);
    d := Capture(l, c, page.url);
  }
}

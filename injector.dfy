/** What the generated code B does in the page the user wants to be logged
    in to (the `b` string of src/hooks/useCodeGenerator.ts:32 and :34): it
    writes the captured data into localStorage or the cookies, then goes to
    the captured address. In single mode a write that throws is reported and
    skipped. In "all" mode each store's writes sit in one `try`: a write that
    throws is reported and ends the writes to that store, and the writes
    already made stay. The navigation happens regardless. */
module Injector {
  import opened Wrappers
  import Percent
  import Cookies
  import opened Types
  import opened Extractor

  /** The cookie code B stores for `k` and `v`: the value percent-encoded,
      path "/", expiring a day after `now`. */
  function Injected(k: string, v: string, now: int): (r: Cookies.Cookie)
    ensures Cookies.NameToken(k) ==> Cookies.NameToken(r.name) && Cookies.ValueOctets(r.value)
    ensures r.value == [] <==> v == []
  {
    Percent.EncodeSafeForCookie(v);
    Cookies.Cookie(k, Percent.Encode(v), "/", Cookies.At(now + Cookies.InjectedMaxAge))
  }

  /** `document.cookie = k + "=" + encodeURIComponent(v) + "; path=/;
      max-age=86400"`. Only the cookies change. */
  function WriteCookie(page: Page, k: string, v: string): (r: Page)
    ensures r.(jar := page.jar) == page
  {
    page.(jar := Cookies.Assign(page.jar, Cookies.InjectorAssignment(k, v), page.now, page.defaultPath))
  }

  /** For a key that is a cookie name, the write replaces or adds the cookie
      in the slot (k, "/"). */
  lemma WriteCookieStores(page: Page, k: string, v: string)
    requires Cookies.NameToken(k)
    ensures WriteCookie(page, k, v).jar == Cookies.Put(page.jar, Injected(k, v, page.now))
  {
    var jar := Cookies.Assign(page.jar, Cookies.InjectorAssignment(k, v), page.now, page.defaultPath);
    assert WriteCookie(page, k, v).jar == jar;
    var c := Cookies.Cookie(k, Percent.Encode(v), "/", Cookies.At(page.now + Cookies.InjectedMaxAge));
    assert Injected(k, v, page.now) == c;
    Cookies.InjectorAssignmentStored(page.jar, k, v, page.now, page.defaultPath);
  }

  /** The page code B leaves behind, and the address it then goes to. */
  datatype Landing = Landing(page: Page, navigateTo: string)

  /** Code B for a single key (src/hooks/useCodeGenerator.ts:34): the
      source's name decides the store, as in code A. */
  function InjectSingle(page: Page, source: Source, key: string, value: string, url: string): (r: Landing)
    ensures r.navigateTo == url
    ensures source == LocalStorage ==>
      r.page == if page.storageAccessible then page.(storage := page.storage[key := value]) else page
    ensures source != LocalStorage && !page.cookiesAccessible ==> r.page == page
    ensures source != LocalStorage && page.cookiesAccessible && Cookies.NameToken(key) ==>
      r.page == page.(jar := Cookies.Put(page.jar, Injected(key, value, page.now)))
  {
    var written :=
      if source.Name() == "localStorage" then
        if page.storageAccessible then page.(storage := page.storage[key := value]) else page
      else if page.cookiesAccessible then WriteCookie(page, key, value)
      else page;
    if source != LocalStorage && page.cookiesAccessible && Cookies.NameToken(key) then
      WriteCookieStores(page, key, value);
      Landing(written, url)
    else
      Landing(written, url)
  }

  /** The entries of `l` whose keys come first in `keys`, before index
      `room`: the writes `setItem` makes before the one that throws. */
  function WrittenBefore(l: map<string, string>, keys: seq<string>, room: nat): (r: map<string, string>)
    requires forall k :: k in keys ==> k in l
    ensures forall k :: k in r <==> exists i :: 0 <= i < |keys| && i < room && keys[i] == k
    ensures forall k :: k in r ==> r[k] == l[k]
    ensures room >= |keys| && (forall k :: k in l ==> k in keys) ==> r == l
  {
    var done := if room < |keys| then keys[..room] else keys;
    map k | k in done :: l[k]
  }

  /** `try { Object.keys(d.l).forEach(k => localStorage.setItem(k, d.l[k]))
      } catch ...`, where `keys` is the order of `Object.keys(d.l)` and the
      write at index `room` is the first that throws (none does when `room`
      is at least the number of keys, and the first does when localStorage
      cannot be used). */
  method WriteStorage(page: Page, l: map<string, string>, keys: seq<string>, room: nat) returns (r: Page)
    requires forall k :: k in l <==> k in keys
    ensures r == if page.storageAccessible then page.(storage := page.storage + WrittenBefore(l, keys, room)) else page
  {
    r := page;
    if !page.storageAccessible {
      return;
    }
    var i := 0;
    while i < |keys|
      invariant 0 <= i <= |keys| && i <= room
      invariant r == page.(storage := page.storage + WrittenBefore(l, keys, i))
    {
      if i == room {
        return;
      }
      WriteOneMore(page.storage, l, keys, i);
      r := r.(storage := r.storage[keys[i] := l[keys[i]]]);
      i := i + 1;
    }
  }

  /** One more `setItem` extends the writes by the next key. */
  lemma WriteOneMore(storage: map<string, string>, l: map<string, string>, keys: seq<string>, i: nat)
    requires i < |keys| && forall k :: k in keys ==> k in l
    ensures (storage + WrittenBefore(l, keys, i))[keys[i] := l[keys[i]]] == storage + WrittenBefore(l, keys, i + 1)
  {
    var before, after := WrittenBefore(l, keys, i), WrittenBefore(l, keys, i + 1);
    assert after == before[keys[i] := l[keys[i]]] by {
      forall k ensures k in after <==> k in before || k == keys[i] {
        if k in after {
          var j :| 0 <= j < |keys| && j < i + 1 && keys[j] == k;
          if j < i {
            assert k in before;
          }
        }
      }
    }
  }

  /** After writing the keys in `done`: every cookie of an untouched slot is
      still there, and each written key holds its injected cookie at "/". */
  ghost predicate WrittenFrom(jar: Cookies.Jar, before: Cookies.Jar, c: map<string, string>, done: set<string>, now: int)
    requires done <= c.Keys
  {
    forall x :: x in jar <==>
      (x in before && !(x.path == "/" && x.name in done)) || (x.name in done && x == Injected(x.name, c[x.name], now))
  }

  /** `Object.keys(d.c).forEach(k => document.cookie = ...)`: with cookie
      names for keys, each captured cookie lands in the slot (k, "/") and
      every other cookie stays. */
  method WriteCookies(page: Page, c: map<string, string>) returns (r: Page)
    ensures r.(jar := page.jar) == page
    ensures !page.cookiesAccessible ==> r == page
    ensures page.cookiesAccessible && Cookies.Keyed(page.jar) && (forall k :: k in c ==> Cookies.NameToken(k)) ==>
      Cookies.Keyed(r.jar) && WrittenFrom(r.jar, page.jar, c, c.Keys, page.now)
    ensures page.cookiesAccessible && Cookies.WellFormed(page.jar) && (forall k :: k in c ==> Cookies.NameToken(k)) ==>
      Cookies.WellFormed(r.jar)
  {
    r := page;
    if !page.cookiesAccessible {
      return;
    }
    var names := forall k :: k in c ==> Cookies.NameToken(k);
    var remaining := c.Keys;
    while remaining != {}
      invariant remaining <= c.Keys
      invariant r.(jar := page.jar) == page
      invariant names && Cookies.Keyed(page.jar) ==>
        Cookies.Keyed(r.jar) && WrittenFrom(r.jar, page.jar, c, c.Keys - remaining, page.now)
      invariant names && Cookies.WellFormed(page.jar) ==> Cookies.WellFormed(r.jar)
      decreases remaining
    {
      var k :| k in remaining;
      var next := WriteCookie(r, k, c[k]);
      if names {
        var cookie := Injected(k, c[k], page.now);
        WriteCookieStores(r, k, c[k]);
        if Cookies.Keyed(page.jar) {
          Cookies.PutKeyed(r.jar, cookie);
        }
        if Cookies.WellFormed(page.jar) {
          Cookies.PutWellFormed(r.jar, cookie);
        }
      }
      r := next;
      remaining := remaining - {k};
    }
  }

  /** Code B in "all" mode (src/hooks/useCodeGenerator.ts:32): the storage
      writes up to the first that throws, then the cookie writes, then the
      captured address. `keys` and `room` are as for `WriteStorage`. */
  method InjectAll(page: Page, d: Capture, keys: seq<string>, room: nat) returns (r: Landing)
    requires forall k :: k in d.local <==> k in keys
    ensures r.navigateTo == d.url
    ensures r.page.storage == if page.storageAccessible then page.storage + WrittenBefore(d.local, keys, room) else page.storage
    ensures page.storageAccessible && room >= |keys| ==> r.page.storage == page.storage + d.local
    ensures r.page.(jar := page.jar, storage := page.storage) == page
    ensures !page.cookiesAccessible ==> r.page.jar == page.jar
    ensures page.cookiesAccessible && Cookies.Keyed(page.jar) && (forall k :: k in d.cookies ==> Cookies.NameToken(k)) ==>
      Cookies.Keyed(r.page.jar) && WrittenFrom(r.page.jar, page.jar, d.cookies, d.cookies.Keys, page.now)
    ensures page.cookiesAccessible && Cookies.WellFormed(page.jar) && (forall k :: k in d.cookies ==> Cookies.NameToken(k)) ==>
      Cookies.WellFormed(r.page.jar)
  {
    var p := WriteStorage(page, d.local, keys, room);
    p := WriteCookies(p, d.cookies);
    r := Landing(p, d.url);
  }
}

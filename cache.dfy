/**
 * The response cache of utils/cache.js: a key builder and `get`, `set` and
 * `clear` over the extension's local key-value storage.
 *
 * The storage is the `store` field of a `Cache` object, the "cache enabled"
 * setting is its `enabled` field, and `Date.now()` is the `now` parameter.
 * `CacheGet`, `CacheSet` and `CacheClear` say what each operation does to a
 * store value; the lemmas below relate them.
 */
module ResponseCache {
  import opened Wrappers
  import opened JsString
  import opened PopcornConfig

  // ---------------------------------------------------------------------
  // Keys
  // ---------------------------------------------------------------------

  /** A character that a JavaScript string holds as two UTF-16 code units (a surrogate pair). */
  predicate IsAstral(c: char) {
    c as int > 0xFFFF
  }

  /**
   * `t` as JavaScript indexes it, as far as the key can tell: `replace`
   * scans UTF-16 code units, so a surrogate pair stands here as two U+FFFD,
   * which, like each surrogate, is neither an ASCII letter nor a digit.
   */
  function CodeUnits(t: string): (u: string)
    ensures |u| >= |t|
    ensures forall i :: 0 <= i < |u| ==> !IsAstral(u[i])
  {
    if t == [] then []
    else (if IsAstral(t[0]) then "\U{FFFD}\U{FFFD}" else [t[0]]) + CodeUnits(t[1..])
  }

  /** A title inside the Basic Multilingual Plane has one code unit per character. */
  lemma {:induction false} CodeUnitsOfBmp(t: string)
    requires forall i :: 0 <= i < |t| ==> !IsAstral(t[i])
    ensures CodeUnits(t) == t
  {
    if t != [] {
      CodeUnitsOfBmp(t[1..]);
      assert [t[0]] + t[1..] == t;
    }
  }

  /** `title.replace(/[^a-z0-9]/gi, '_')`: each code unit outside `[A-Za-z0-9]` becomes one `_`. */
  function ReplaceNonAlnum(title: string): (r: string)
    ensures |r| == |CodeUnits(title)|
    ensures forall i :: 0 <= i < |r| ==> (r[i] == '_' <==> !IsAsciiAlnum(CodeUnits(title)[i]))
    ensures forall i :: 0 <= i < |r| && IsAsciiAlnum(CodeUnits(title)[i]) ==> r[i] == CodeUnits(title)[i]
  {
    var u := CodeUnits(title);
    seq(|u|, i requires 0 <= i < |u| => if IsAsciiAlnum(u[i]) then u[i] else '_')
  }

  /** The characters a title can contribute to a key. */
  predicate IsKeyChar(c: char) {
    ('a' <= c <= 'z') || IsDigit(c) || c == '_'
  }

  /** The title part of a key: non-alphanumerics replaced, then lower-cased. */
  function SafeTitle(title: string): (r: string)
    ensures |r| == |CodeUnits(title)|
    ensures forall i :: 0 <= i < |r| ==> IsKeyChar(r[i])
    // every non-alphanumeric code unit gives exactly one `_`: runs are not collapsed
    ensures forall i :: 0 <= i < |r| ==> (r[i] == '_' <==> !IsAsciiAlnum(CodeUnits(title)[i]))
    // every letter and digit is kept, lower-cased
    ensures forall i :: 0 <= i < |r| && IsAsciiAlnum(CodeUnits(title)[i]) ==> r[i] == LowerAscii(CodeUnits(title)[i])
  {
    LowerAsciiString(ReplaceNonAlnum(title))
  }

  /** `(language || 'en-US').toLowerCase()` */
  function SafeLanguage(language: string): string {
    LowerAsciiString(if language == "" then "en-US" else language)
  }

  /** `year || 'na'` */
  function YearPart(year: string): string {
    if year == "" then "na" else year
  }

  /** `_getKey(title, year, language)` */
  function Key(title: string, year: string, language: string): (k: string)
    ensures StartsWith(k, CACHE_PREFIX)
  {
    var k := CACHE_PREFIX + SafeTitle(title) + "_" + YearPart(year) + "_" + SafeLanguage(language);
    assert k[..|CACHE_PREFIX|] == CACHE_PREFIX;
    k
  }

  /** Two characters a key cannot tell apart. */
  predicate SameKeyChar(a: char, b: char) {
    if IsAsciiAlnum(a) then IsAsciiAlnum(b) && LowerAscii(a) == LowerAscii(b) else !IsAsciiAlnum(b)
  }

  /**
   * Two titles give the same title part exactly when they have as many code
   * units and agree unit by unit up to ASCII case, with any two
   * non-alphanumeric units counting as equal.
   */
  lemma SafeTitleCollides(t1: string, t2: string)
    ensures var u1, u2 := CodeUnits(t1), CodeUnits(t2);
            SafeTitle(t1) == SafeTitle(t2) <==>
              |u1| == |u2| && forall i :: 0 <= i < |u1| ==> SameKeyChar(u1[i], u2[i])
  {
    var u1, u2 := CodeUnits(t1), CodeUnits(t2);
    var r1, r2 := SafeTitle(t1), SafeTitle(t2);
    if r1 == r2 {
      forall i | 0 <= i < |u1| ensures SameKeyChar(u1[i], u2[i]) {
        assert r1[i] == r2[i];
      }
    }
    if |u1| == |u2| && forall i :: 0 <= i < |u1| ==> SameKeyChar(u1[i], u2[i]) {
      forall i | 0 <= i < |u1| ensures r1[i] == r2[i] {
        assert SameKeyChar(u1[i], u2[i]);
      }
    }
  }

  /** Titles equal up to ASCII case have code units equal up to what the key can tell. */
  lemma {:induction false} CodeUnitsIgnoreCase(t1: string, t2: string)
    requires LowerAsciiString(t1) == LowerAsciiString(t2)
    ensures var u1, u2 := CodeUnits(t1), CodeUnits(t2);
            |u1| == |u2| && forall i :: 0 <= i < |u1| ==> SameKeyChar(u1[i], u2[i])
  {
    assert |t1| == |t2|;
    if t1 != [] {
      assert LowerAscii(t1[0]) == LowerAsciiString(t1)[0] == LowerAsciiString(t2)[0] == LowerAscii(t2[0]);
      assert LowerAsciiString(t1[1..]) == LowerAsciiString(t1)[1..];
      assert LowerAsciiString(t2[1..]) == LowerAsciiString(t2)[1..];
      CodeUnitsIgnoreCase(t1[1..], t2[1..]);
      assert IsAstral(t1[0]) <==> IsAstral(t2[0]);
    }
  }

  /** A character outside the Basic Multilingual Plane counts as two characters in the key. */
  lemma AstralTitleExample()
    ensures SafeTitle("a\U{1F600}") == SafeTitle("a__") != SafeTitle("a_")
  {
    assert CodeUnits("a\U{1F600}") == "a\U{FFFD}\U{FFFD}" by {
      assert "a\U{1F600}"[1..] == "\U{1F600}";
    }
    CodeUnitsOfBmp("a__");
    CodeUnitsOfBmp("a_");
  }

  /** Keys ignore ASCII case in the title and in the language. */
  lemma KeyIgnoresCase(t1: string, t2: string, year: string, l1: string, l2: string)
    requires LowerAsciiString(t1) == LowerAsciiString(t2)
    requires LowerAsciiString(l1) == LowerAsciiString(l2)
    ensures Key(t1, year, l1) == Key(t2, year, l2)
  {
    CodeUnitsIgnoreCase(t1, t2);
    SafeTitleCollides(t1, t2);
    assert |l1| == |l2|;
    if l1 != [] {
      assert SafeLanguage(l1) == LowerAsciiString(l1);
    }
  }

  /** `_getKey("The Matrix", "1999", "en-US")` and `_getKey("the matrix", "1999", "EN-us")` coincide. */
  lemma KeyExample()
    ensures Key("The Matrix", "1999", "en-US") == Key("the matrix", "1999", "EN-us")
  {
    assert LowerAsciiString("The Matrix") == LowerAsciiString("the matrix") by {
      assert LowerAscii('T') == 't' && LowerAscii('M') == 'm';
    }
    assert LowerAsciiString("en-US") == LowerAsciiString("EN-us") by {
      assert LowerAscii('E') == 'e' && LowerAscii('N') == 'n' && LowerAscii('U') == 'u' && LowerAscii('S') == 's';
    }
    KeyIgnoresCase("The Matrix", "the matrix", "1999", "en-US", "EN-us");
  }

  // ---------------------------------------------------------------------
  // The store
  // ---------------------------------------------------------------------

  /** `{timestamp, data}`, the item `set` writes. */
  datatype Entry<T> = Entry(timestamp: int, data: T)

  /** `Date.now() - item.timestamp > DEFAULT_EXPIRY` */
  predicate Expired<T>(e: Entry<T>, now: int) {
    now - e.timestamp > CACHE_TTL
  }

  /** What `get` resolves to, for an enabled cache. */
  function CacheGet<T>(store: map<string, Entry<T>>, key: string, now: int): Option<T> {
    if key !in store || Expired(store[key], now) then None else Some(store[key].data)
  }

  /** The store after `get`: an expired entry is removed. */
  function AfterGet<T>(store: map<string, Entry<T>>, key: string, now: int): map<string, Entry<T>> {
    if key in store && Expired(store[key], now) then store - {key} else store
  }

  /** The store after `set`, for an enabled cache. */
  function CacheSet<T>(store: map<string, Entry<T>>, key: string, now: int, data: T): map<string, Entry<T>> {
    store[key := Entry(now, data)]
  }

  /** The keys `clear` removes. */
  function CacheKeys<T>(store: map<string, Entry<T>>): set<string> {
    set k | k in store && StartsWith(k, CACHE_PREFIX)
  }

  /** The store after `clear`. */
  function CacheClear<T>(store: map<string, Entry<T>>): map<string, Entry<T>> {
    map k | k in store && !StartsWith(k, CACHE_PREFIX) :: store[k]
  }

  /** The `Cache` object together with the storage it works on. */
  class Cache<T> {
    var store: map<string, Entry<T>>
    var enabled: bool

    constructor(enabled: bool)
      ensures this.store == map[] && this.enabled == enabled
    {
      this.store := map[];
      this.enabled := enabled;
    }

    /** `get(title, year, language)` */
    method Get(title: string, year: string, language: string, now: int) returns (r: Option<T>)
      modifies this
      ensures enabled == old(enabled)
      ensures !enabled ==> r == None && store == old(store)
      ensures enabled ==> r == CacheGet(old(store), Key(title, year, language), now)
      ensures enabled ==> store == AfterGet(old(store), Key(title, year, language), now)
    {
      if !enabled {
        return None;
      }
      var key := Key(title, year, language);
      if key !in store {
        return None;
      }
      var item := store[key];
      if now - item.timestamp > CACHE_TTL {
        store := store - {key};
        return None;
      }
      return Some(item.data);
    }

    /** `set(title, year, language, data)` */
    method Set(title: string, year: string, language: string, data: T, now: int)
      modifies this
      ensures enabled == old(enabled)
      ensures !enabled ==> store == old(store)
      ensures enabled ==> store == CacheSet(old(store), Key(title, year, language), now, data)
    {
      if !enabled {
        return;
      }
      var key := Key(title, year, language);
      store := store[key := Entry(now, data)];
    }

    /** `clear()`: resolves to the number of keys removed; the setting is not consulted. */
    method Clear() returns (count: nat)
      modifies this
      ensures enabled == old(enabled)
      ensures store == CacheClear(old(store))
      ensures count == |CacheKeys(old(store))|
    {
      var keysToRemove := CacheKeys(store);
      if |keysToRemove| > 0 {
        store := CacheClear(store);
        return |keysToRemove|;
      }
      ClearWithoutCacheKeys(store);
      return 0;
    }
  }

  // ---------------------------------------------------------------------
  // Properties
  // ---------------------------------------------------------------------

  /** `get` answers exactly for an entry that is present and at most `CACHE_TTL` old. */
  lemma GetFresh<T>(store: map<string, Entry<T>>, key: string, now: int, data: T)
    ensures CacheGet(store, key, now) == Some(data) <==>
              key in store && store[key].data == data && now - store[key].timestamp <= CACHE_TTL
    ensures CacheGet(store, key, now) == None <==>
              key !in store || now - store[key].timestamp > CACHE_TTL
  {
  }

  /** `get` removes an expired entry and nothing else; otherwise it leaves the store alone. */
  lemma GetRemovesOnlyExpired<T>(store: map<string, Entry<T>>, key: string, now: int)
    ensures forall k :: k != key ==> (k in AfterGet(store, key, now) <==> k in store)
    ensures forall k :: k != key && k in store ==> AfterGet(store, key, now)[k] == store[k]
    ensures key in AfterGet(store, key, now) <==> key in store && !Expired(store[key], now)
    ensures CacheGet(store, key, now).Some? ==> AfterGet(store, key, now) == store
  {
  }

  /** Asking again at the same time gives the same answer. */
  lemma GetRepeatable<T>(store: map<string, Entry<T>>, key: string, now: int)
    ensures CacheGet(AfterGet(store, key, now), key, now) == CacheGet(store, key, now)
  {
  }

  /**
   * What `set` writes is what `get` returns up to `CACHE_TTL` milliseconds
   * later (an entry exactly `CACHE_TTL` old is still fresh), and is gone
   * after that.
   */
  lemma SetThenGet<T>(store: map<string, Entry<T>>, key: string, now: int, data: T, later: int)
    requires now <= later
    ensures later <= now + CACHE_TTL ==> CacheGet(CacheSet(store, key, now, data), key, later) == Some(data)
    ensures later > now + CACHE_TTL ==> CacheGet(CacheSet(store, key, now, data), key, later) == None
    ensures later > now + CACHE_TTL ==> AfterGet(CacheSet(store, key, now, data), key, later) == store - {key}
  {
  }

  /** A second `set` under the same key replaces the first. */
  lemma SetOverrides<T>(store: map<string, Entry<T>>, key: string, t1: int, d1: T, t2: int, d2: T)
    ensures CacheSet(CacheSet(store, key, t1, d1), key, t2, d2) == CacheSet(store, key, t2, d2)
  {
  }

  /** `set` touches no other key. */
  lemma SetKeepsOthers<T>(store: map<string, Entry<T>>, key: string, now: int, data: T, other: string, later: int)
    requires other != key
    ensures CacheGet(CacheSet(store, key, now, data), other, later) == CacheGet(store, other, later)
    ensures other in CacheSet(store, key, now, data) <==> other in store
  {
  }

  /** `clear` removes exactly the keys starting with the prefix and keeps every other entry. */
  lemma ClearRemovesExactlyCacheKeys<T>(store: map<string, Entry<T>>)
    ensures forall k :: k in CacheClear(store) <==> k in store && k !in CacheKeys(store)
    ensures forall k :: k in CacheClear(store) ==> CacheClear(store)[k] == store[k]
    ensures CacheKeys(CacheClear(store)) == {}
  {
  }

  /** The count `clear` returns is the number of entries that disappear. */
  lemma ClearCount<T>(store: map<string, Entry<T>>)
    ensures |CacheKeys(store)| + |CacheClear(store).Keys| == |store.Keys|
  {
    assert CacheClear(store).Keys == store.Keys - CacheKeys(store);
  }

  /** With no cache key in the store, `clear` changes nothing, so a second `clear` returns 0. */
  lemma ClearWithoutCacheKeys<T>(store: map<string, Entry<T>>)
    requires |CacheKeys(store)| == 0
    ensures CacheClear(store) == store
  {
    assert CacheKeys(store) == {};
    forall k | k in store ensures k in CacheClear(store) {
      assert k !in CacheKeys(store);
    }
  }

  /** After `clear`, no title, year and language finds anything. */
  lemma ClearForgetsEverything<T>(store: map<string, Entry<T>>, title: string, year: string, language: string, now: int)
    ensures CacheGet(CacheClear(store), Key(title, year, language), now) == None
  {
  }
}

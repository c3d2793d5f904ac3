/**
 * The translation cache: a map from the string `version|from|to|text` to the
 * translation last stored under it.
 */
module TranslationCache {
  import opened Wrappers
  import opened Types

  datatype CacheKey = CacheKey(text: string, from: string, to: string, version: Version)

  /**
   * A stored translation. The version is absent when the first backend
   * translated a single line, which reports none.
   */
  datatype CacheEntry = CacheEntry(text: seq<string>, fromLang: string, toLang: string, version: Option<Version>)

  /** `buildKey`: the four fields joined by `|`, version first. */
  function BuildKey(key: CacheKey): (s: string)
    ensures |s| == |key.version.Name()| + |key.from| + |key.to| + |key.text| + 3
  {
    key.version.Name() + "|" + key.from + "|" + key.to + "|" + key.text
  }

  /**
   * Keys whose language fields hold no `|` share a string only when they are
   * equal; the text may hold `|` freely, being last.
   */
  lemma BuildKeyInjective(a: CacheKey, b: CacheKey)
    requires '|' !in a.from && '|' !in a.to && '|' !in b.from && '|' !in b.to
    requires BuildKey(a) == BuildKey(b)
    ensures a == b
  {
    var sa, sb := BuildKey(a), BuildKey(b);
    assert sa[2] == '|' && sb[2] == '|';
    assert a.version == b.version by {
      assert sa[1] == sb[1];
    }
    var ta, tb := a.to + "|" + a.text, b.to + "|" + b.text;
    var ra, rb := a.from + "|" + ta, b.from + "|" + tb;
    assert sa == a.version.Name() + "|" + ra;
    assert sb == b.version.Name() + "|" + rb;
    assert ra == sa[3..] == rb;
    FieldPrefix(a.from, ta, b.from, tb);
    FieldPrefix(a.to, a.text, b.to, b.text);
  }

  /** Two `|`-free fields each followed by `|` split a string the same way. */
  lemma FieldPrefix(x: string, xs: string, y: string, ys: string)
    requires '|' !in x && '|' !in y
    requires x + "|" + xs == y + "|" + ys
    ensures x == y && xs == ys
  {
    var s := x + "|" + xs;
    assert s[|x|] == '|' && s[|y|] == '|';
    assert forall i :: 0 <= i < |x| ==> s[i] == x[i] != '|';
    assert forall i :: 0 <= i < |y| ==> s[i] == y[i] != '|';
    assert x == s[..|x|] == y;
    assert xs == s[|x| + 1..] == ys;
  }

  /** A `|` inside a language field lets two different keys share one entry. */
  lemma BuildKeyCollision()
    ensures CacheKey("t", "a|b", "c", V1) != CacheKey("t", "a", "b|c", V1)
    ensures BuildKey(CacheKey("t", "a|b", "c", V1)) == BuildKey(CacheKey("t", "a", "b|c", V1))
  {
  }

  /** The cache object: its store, keyed by the built strings. */
  class Cache {
    var store: map<string, CacheEntry>

    /** `createTranslationCache`: an empty store. */
    constructor()
      ensures store == map[]
    {
      store := map[];
    }

    /** `get`: the entry stored under the key's string, if any. */
    method Get(key: CacheKey) returns (r: Option<CacheEntry>)
      ensures BuildKey(key) in store ==> r == Some(store[BuildKey(key)])
      ensures BuildKey(key) !in store ==> r == None
    {
      var k := BuildKey(key);
      if k in store {
        r := Some(store[k]);
      } else {
        r := None;
      }
    }

    /**
     * `set`: the value stored under the key's string, every other string's
     * entry kept; the size grows by one exactly when the string is new.
     */
    method Set(key: CacheKey, value: CacheEntry)
      modifies this
      ensures store == old(store)[BuildKey(key) := value]
      ensures BuildKey(key) in store && store[BuildKey(key)] == value
      ensures forall k :: k != BuildKey(key) ==> (k in store <==> k in old(store))
      ensures forall k :: k != BuildKey(key) && k in store ==> store[k] == old(store)[k]
      ensures |store| == if BuildKey(key) in old(store) then |old(store)| else |old(store)| + 1
    {
      store := store[BuildKey(key) := value];
    }

    /** `clear`: nothing stored. */
    method Clear()
      modifies this
      ensures store == map[] && |store| == 0
    {
      store := map[];
    }

    /** `size`: how many distinct key strings are stored. */
    method Size() returns (n: nat)
      ensures n == |store|
    {
      n := |store|;
    }
  }
}

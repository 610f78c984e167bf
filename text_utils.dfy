/** Model of text_utils.py: the Cyrillic character rule and `is_russian`, a classifier
    memoised in a process-wide dictionary keyed by a digest of the text. */
module TextUtils {

  /** The character class `[а-яА-ЯёЁ]`: U+0430..U+044F, U+0410..U+042F, U+0451 and U+0401. */
  predicate IsCyrillic(ch: char) {
    || ('\U{0430}' <= ch <= '\U{044F}')
    || ('\U{0410}' <= ch <= '\U{042F}')
    || ch == '\U{0451}'
    || ch == '\U{0401}'
  }

  /** A regex search for the class: true exactly when some character of `text` is in it. */
  function ContainsCyrillic(text: string): (found: bool)
    ensures found <==> exists i :: 0 <= i < |text| && IsCyrillic(text[i])
  {
    if text == [] then false
    else if IsCyrillic(text[0]) then true
    else
      var rest := ContainsCyrillic(text[1..]);
      assert forall i :: 1 <= i < |text| ==> text[i] == text[1..][i - 1];
      rest
  }

  /** A digest function that maps different texts to different keys. */
  ghost predicate Injective(key: string -> string) {
    forall a, b :: key(a) == key(b) ==> a == b
  }

  /** Every non-empty text whose digest is cached has the rule's verdict stored for it. */
  ghost predicate Sound(cache: map<string, bool>, key: string -> string) {
    forall text :: text != [] && key(text) in cache ==> cache[key(text)] == ContainsCyrillic(text)
  }

  /** `after` keeps every entry of `before`, with the same value. */
  ghost predicate Extends(before: map<string, bool>, after: map<string, bool>) {
    forall k :: k in before ==> k in after && after[k] == before[k]
  }

  /** The cache holds a positive verdict for `text`, which is what `is_russian` answered for it. */
  ghost predicate Accepts(cache: map<string, bool>, key: string -> string, text: string) {
    text != [] && key(text) in cache && cache[key(text)]
  }

  /** One call of `is_russian(text)` against the memo `cache`: its answer and the memo afterwards. */
  function Classify(cache: map<string, bool>, key: string -> string, text: string): (r: (bool, map<string, bool>))
    ensures text == [] ==> r == (false, cache)
    ensures text != [] ==> key(text) in r.1 && r.1[key(text)] == r.0
    ensures key(text) !in cache ==> r.0 == (text != [] && ContainsCyrillic(text))
  {
    if text == [] then (false, cache)
    else if key(text) in cache then (cache[key(text)], cache)
    else
      var verdict := ContainsCyrillic(text);
      (verdict, cache[key(text) := verdict])
  }

  /** The memo only grows: no call removes or overwrites an entry, and the answer is
      stored for every non-empty text. */
  lemma ClassifyGrows(cache: map<string, bool>, key: string -> string, text: string)
    ensures Extends(cache, Classify(cache, key, text).1)
    ensures Classify(cache, key, text).1.Keys == if text == [] then cache.Keys else cache.Keys + {key(text)}
    ensures Classify(cache, key, text).0 <==> Accepts(Classify(cache, key, text).1, key, text)
  {
  }

  /** Asking twice gives the same answer, and the second call leaves the memo as it is. */
  lemma ClassifyRepeat(cache: map<string, bool>, key: string -> string, text: string)
    ensures var (verdict, cache') := Classify(cache, key, text);
      Classify(cache', key, text) == (verdict, cache')
  {
  }

  /** With an injective digest, a sound memo gives the rule's own verdict and stays sound. */
  lemma ClassifyAgrees(cache: map<string, bool>, key: string -> string, text: string)
    requires Injective(key) && Sound(cache, key)
    ensures Classify(cache, key, text).0 == (text != [] && ContainsCyrillic(text))
    ensures Sound(Classify(cache, key, text).1, key)
  {
  }

  /** `_lang_cache` together with the digest function it is keyed by. */
  class LanguageFilter {
    /** The digest of a text (an md5 hex digest in `is_russian`). */
    const key: string -> string
    /** digest -> verdict */
    var cache: map<string, bool>
    /** For each cached digest, the text whose verdict was stored under it. */
    ghost var origin: map<string, string>

    /** Every entry is the rule applied to the text it was computed from. */
    ghost predicate Valid()
      reads this
    {
      && origin.Keys == cache.Keys
      && forall k :: k in cache ==>
           origin[k] != [] && key(origin[k]) == k && cache[k] == ContainsCyrillic(origin[k])
    }

    constructor (key: string -> string)
      ensures Valid() && this.key == key && cache == map[] && origin == map[]
    {
      this.key := key;
      cache := map[];
      origin := map[];
    }

    /** `is_russian`: empty text is rejected without touching the memo; a cached digest
        returns its stored verdict; otherwise the rule is applied and its verdict stored. */
    method IsRussian(text: string) returns (verdict: bool)
      requires Valid()
      modifies this
      ensures Valid()
      ensures (verdict, cache) == Classify(old(cache), key, text)
      ensures text == [] ==> !verdict && cache == old(cache) && origin == old(origin)
      ensures text != [] && key(text) in old(cache) ==>
                verdict == old(cache)[key(text)] && cache == old(cache) && origin == old(origin)
      ensures text != [] && key(text) !in old(cache) ==>
                && verdict == ContainsCyrillic(text)
                && cache == old(cache)[key(text) := verdict]
                && origin == old(origin)[key(text) := text]
      ensures text != [] ==>
                key(text) in origin && key(origin[key(text)]) == key(text) && verdict == ContainsCyrillic(origin[key(text)])
    {
      if text == [] {
        return false;
      }
      var k := key(text);
      if k in cache {
        return cache[k];
      }
      verdict := ContainsCyrillic(text);
      cache := cache[k := verdict];
      origin := origin[k := text];
    }
  }

  /** With an injective digest, every entry of a valid memo is the rule's verdict on
      the very text being looked up, so `is_russian` matches the character rule exactly. */
  lemma ValidIsSound(filter: LanguageFilter)
    requires filter.Valid() && Injective(filter.key)
    ensures Sound(filter.cache, filter.key)
  {
    forall text | text != [] && filter.key(text) in filter.cache
      ensures filter.cache[filter.key(text)] == ContainsCyrillic(text)
    {
      var k := filter.key(text);
      assert filter.key(filter.origin[k]) == filter.key(text);
    }
  }
}

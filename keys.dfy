/** Keys and values of the search index: a key is the language byte followed by
    the code points of a normalized token (FeatureNameInserter::AddToken); a value
    is the feature's index (FeatureIndexValue). Pairs are ordered the way
    `std::sort` orders `pair<strings::UniString, FeatureIndexValue>`. */
module Keys {

  /** `signed char`, the type of a language code. */
  type Lang = l: int | -128 <= l < 128

  /** `uint8_t`. */
  type Byte = b: int | 0 <= b < 256

  /** `strings::UniChar`, a 32-bit code point. */
  type UniChar = c: int | 0 <= c < 0x1_0000_0000

  /** `strings::UniString`. */
  type UniString = seq<UniChar>

  /** A trie key: the language byte, then the token. */
  type Key = UniString

  /** `search::kCategoriesLang`, the language byte of category pseudo-tokens. */
  const CATEGORIES_LANG: Byte := 128

  /** `static_cast<uint8_t>` of a `signed char`: two's complement reinterpretation. */
  function ToUint8(l: Lang): Byte {
    l % 256
  }

  /** The `uint8_t` to `signed char` conversion of the platforms the indexer runs on. */
  function ToSignedChar(b: Byte): Lang {
    if b < 128 then b else b - 256
  }

  lemma ByteConversionsRoundTrip(l: Lang, b: Byte)
    ensures ToSignedChar(ToUint8(l)) == l
    ensures ToUint8(ToSignedChar(b)) == b
  {
  }

  /** The key AddToken builds for token `s` in language `lang`. */
  function MakeKey(lang: Lang, s: UniString): Key {
    [ToUint8(lang) as UniChar] + s
  }

  /** The language a key was built for. */
  function KeyLang(k: Key): Lang
    requires k != [] && k[0] < 256
  {
    ToSignedChar(k[0])
  }

  /** The token a key was built from. */
  function KeyText(k: Key): UniString
    requires k != []
  {
    k[1..]
  }

  /** A key is one code point longer than its token, and both its language and its
      token can be read back from it. */
  lemma KeyRoundTrip(lang: Lang, s: UniString)
    ensures |MakeKey(lang, s)| == |s| + 1
    ensures MakeKey(lang, s)[0] == ToUint8(lang)
    ensures KeyLang(MakeKey(lang, s)) == lang && KeyText(MakeKey(lang, s)) == s
  {
    ByteConversionsRoundTrip(lang, 0);
  }

  /** Distinct (language, token) pairs never share a key. */
  lemma KeyInjective(l1: Lang, s1: UniString, l2: Lang, s2: UniString)
    requires MakeKey(l1, s1) == MakeKey(l2, s2)
    ensures l1 == l2 && s1 == s2
  {
    KeyRoundTrip(l1, s1);
    KeyRoundTrip(l2, s2);
  }

  /** A category pseudo-token key starts with byte 128 even though AddToken receives
      the language as a `signed char` (-128). */
  lemma CategoryKeyByte(s: UniString)
    ensures ToSignedChar(CATEGORIES_LANG) == -128
    ensures MakeKey(ToSignedChar(CATEGORIES_LANG), s)[0] == CATEGORIES_LANG as UniChar
  {
  }

  /** FeatureIndexValue: only the feature's index. */
  datatype FeatureIndexValue = FeatureIndexValue(featureId: nat)

  /** One (key, value) entry of the pair vector. */
  type Pair = (Key, FeatureIndexValue)

  /** `std::lexicographical_compare` on code points. */
  predicate LexLess(a: UniString, b: UniString)
    decreases |a|
  {
    if a == [] then b != []
    else if b == [] then false
    else a[0] < b[0] || (a[0] == b[0] && LexLess(a[1..], b[1..]))
  }

  /** `operator<` of `std::pair`: key first, then the feature index. */
  predicate PairLess(p: Pair, q: Pair) {
    LexLess(p.0, q.0) || (p.0 == q.0 && p.1.featureId < q.1.featureId)
  }

  predicate PairLe(p: Pair, q: Pair) {
    PairLess(p, q) || p == q
  }

  lemma {:induction false} LexIrreflexive(a: UniString)
    ensures !LexLess(a, a)
  {
    if a != [] {
      LexIrreflexive(a[1..]);
    }
  }

  /** Two different strings are lexicographically comparable one way round. */
  lemma {:induction false} LexTotal(a: UniString, b: UniString)
    ensures a == b || LexLess(a, b) || LexLess(b, a)
  {
    if a != [] && b != [] && a[0] == b[0] {
      LexTotal(a[1..], b[1..]);
      if a[1..] == b[1..] {
        assert a == [a[0]] + a[1..] && b == [b[0]] + b[1..];
      }
    }
  }

  lemma {:induction false} LexAntisymmetric(a: UniString, b: UniString)
    ensures !(LexLess(a, b) && LexLess(b, a))
  {
    if a != [] && b != [] && a[0] == b[0] {
      LexAntisymmetric(a[1..], b[1..]);
    }
  }

  lemma {:induction false} LexTransitive(a: UniString, b: UniString, c: UniString)
    requires LexLess(a, b) && LexLess(b, c)
    ensures LexLess(a, c)
  {
    if a != [] && a[0] == b[0] && b[0] == c[0] {
      LexTransitive(a[1..], b[1..], c[1..]);
    }
  }

  /** PairLe is a total order: what `std::sort` needs of `operator<`. */
  lemma PairLeTotal(p: Pair, q: Pair)
    ensures PairLe(p, q) || PairLe(q, p)
    ensures !PairLess(p, q) ==> PairLe(q, p)
  {
    LexTotal(p.0, q.0);
  }

  lemma PairLeAntisymmetric(p: Pair, q: Pair)
    requires PairLe(p, q) && PairLe(q, p)
    ensures p == q
  {
    LexAntisymmetric(p.0, q.0);
    LexIrreflexive(p.0);
  }

  lemma PairLeTransitive(p: Pair, q: Pair, r: Pair)
    requires PairLe(p, q) && PairLe(q, r)
    ensures PairLe(p, r)
  {
    if LexLess(p.0, q.0) && LexLess(q.0, r.0) {
      LexTransitive(p.0, q.0, r.0);
    }
  }

  /** Ordered pairs have ordered keys. */
  lemma PairLeKeys(p: Pair, q: Pair)
    requires PairLe(p, q)
    ensures p.0 == q.0 || LexLess(p.0, q.0)
  {
  }
}

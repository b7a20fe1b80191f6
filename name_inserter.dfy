/** FeatureNameInserter (indexer/search_index_builder.cpp): turns one name of a
    feature into index pairs, one pair per token, appended to the pair vector the
    whole build shares. */
module NameInserter {
  import opened Outcomes
  import opened Keys
  import opened Synonyms

  type Positive = n: nat | 0 < n witness 1

  /** The search library's text calls, which the index builder does not define:
      `search::NormalizeAndSimplifyString`, `SplitUniString` with
      `search::Delimiters()`, and the constant `search::MAX_TOKENS`. */
  datatype TextOps = TextOps(
    normalize: string -> UniString,
    split: UniString -> seq<UniString>,
    maxTokens: Positive)

  /** The `vector<pair<TKey, TValue>>` every inserter of a build appends to. */
  class PairVector {
    var pairs: seq<Pair>

    constructor ()
      ensures pairs == []
    {
      pairs := [];
    }
  }

  /** The synonyms a holder offers, or `None` for the null holder. */
  function SynonymsOf(holder: SynonymsHolder?): Option<seq<Entry>>
    reads holder
  {
    if holder == null then None else Some(holder.entries)
  }

  /** Each text normalized, in order (what PushSynonyms pushes). */
  function Normalized(ops: TextOps, texts: seq<string>): seq<UniString> {
    seq(|texts|, i requires 0 <= i < |texts| => ops.normalize(texts[i]))
  }

  /** The synonyms of the raw `name`, normalized but not split. */
  function SynonymTokens(ops: TextOps, synonyms: Option<seq<Entry>>, name: string): seq<UniString> {
    match synonyms
    case None => []
    case Some(entries) => Normalized(ops, ValuesOf(entries, name))
  }

  /** The leading `cap` tokens, or all of them when there are no more than `cap`. */
  function Capped(tokens: seq<UniString>, cap: nat): seq<UniString> {
    if |tokens| > cap then tokens[..cap] else tokens
  }

  /** The tokens one name yields: the split normalized name, then its synonyms,
      and at most MAX_TOKENS - 1 of them. */
  function NameTokens(ops: TextOps, synonyms: Option<seq<Entry>>, name: string): seq<UniString> {
    Capped(ops.split(ops.normalize(name)) + SynonymTokens(ops, synonyms, name), ops.maxTokens - 1)
  }

  /** One pair per token, each with the key for `lang` and the value `val`. */
  function TokenPairs(lang: Lang, tokens: seq<UniString>, val: FeatureIndexValue): seq<Pair> {
    seq(|tokens|, i requires 0 <= i < |tokens| => (MakeKey(lang, tokens[i]), val))
  }

  /** The pairs FeatureNameInserter appends for one name. */
  function NamePairs(ops: TextOps, synonyms: Option<seq<Entry>>, lang: Lang, name: string,
                     val: FeatureIndexValue): seq<Pair> {
    TokenPairs(lang, NameTokens(ops, synonyms, name), val)
  }

  /** One name yields min(|tokens| + |synonyms|, MAX_TOKENS - 1) pairs, all in the
      name's language and with the inserter's value: first the tokens of the
      normalized name, then the normalized synonyms of the raw name, so that the
      cap drops trailing entries. */
  lemma NamePairsShape(ops: TextOps, synonyms: Option<seq<Entry>>, lang: Lang, name: string,
                       val: FeatureIndexValue)
    ensures var split, syns := ops.split(ops.normalize(name)), SynonymTokens(ops, synonyms, name);
            var pairs := NamePairs(ops, synonyms, lang, name, val);
            && |pairs| == (if |split| + |syns| < ops.maxTokens - 1 then |split| + |syns| else ops.maxTokens - 1)
            && (forall i :: 0 <= i < |pairs| ==>
                  |pairs[i].0| >= 1 && pairs[i].0[0] < 256 && KeyLang(pairs[i].0) == lang && pairs[i].1 == val)
            && (forall i :: 0 <= i < |pairs| && i < |split| ==> KeyText(pairs[i].0) == split[i])
            && (forall i :: |split| <= i < |pairs| ==> KeyText(pairs[i].0) == syns[i - |split|])
  {
    var split, syns := ops.split(ops.normalize(name)), SynonymTokens(ops, synonyms, name);
    var tokens := NameTokens(ops, synonyms, name);
    var pairs := NamePairs(ops, synonyms, lang, name, val);
    forall i | 0 <= i < |pairs|
      ensures |pairs[i].0| >= 1 && pairs[i].0[0] < 256 && KeyLang(pairs[i].0) == lang
      ensures KeyText(pairs[i].0) == (split + syns)[i]
    {
      KeyRoundTrip(lang, tokens[i]);
    }
  }

  /** Synonyms are found by the raw name: under `Some(entries)` the name gets the
      normalized form of every synonym filed under exactly its raw text. */
  lemma SynonymsByRawName(ops: TextOps, entries: seq<Entry>, name: string)
    ensures |SynonymTokens(ops, Some(entries), name)| == |ValuesOf(entries, name)|
    ensures forall i :: 0 <= i < |ValuesOf(entries, name)| ==>
              SynonymTokens(ops, Some(entries), name)[i] == ops.normalize(ValuesOf(entries, name)[i])
    ensures (forall i :: 0 <= i < |entries| ==> entries[i].0 != name) ==>
              NameTokens(ops, Some(entries), name) == NameTokens(ops, None, name)
  {
    if forall i :: 0 <= i < |entries| ==> entries[i].0 != name {
      UnknownKeyHasNoValues(entries, name);
      assert ops.split(ops.normalize(name)) + [] == ops.split(ops.normalize(name));
    }
  }

  lemma NormalizedSnoc(ops: TextOps, texts: seq<string>, i: nat)
    requires i < |texts|
    ensures Normalized(ops, texts[..i + 1]) == Normalized(ops, texts[..i]) + [ops.normalize(texts[i])]
  {
  }

  lemma TokenPairsSnoc(lang: Lang, tokens: seq<UniString>, i: nat, val: FeatureIndexValue)
    requires i < |tokens|
    ensures TokenPairs(lang, tokens[..i + 1], val) == TokenPairs(lang, tokens[..i], val) + [(MakeKey(lang, tokens[i]), val)]
  {
  }

  /** FeatureNameInserter: the synonyms holder (null when synonyms are not
      consulted), the shared pair vector and the value of the current feature. */
  class FeatureNameInserter {
    const synonyms: SynonymsHolder?
    const keyValuePairs: PairVector
    var val: FeatureIndexValue

    constructor (synonyms: SynonymsHolder?, keyValuePairs: PairVector)
      ensures this.synonyms == synonyms && this.keyValuePairs == keyValuePairs
      ensures val == FeatureIndexValue(0)
    {
      this.synonyms := synonyms;
      this.keyValuePairs := keyValuePairs;
      val := FeatureIndexValue(0);
    }

    /** Appends exactly one pair: the key `[uint8(lang)] + s` and the current value. */
    method AddToken(lang: Lang, s: UniString)
      modifies keyValuePairs
      ensures keyValuePairs.pairs == old(keyValuePairs.pairs) + [(MakeKey(lang, s), val)]
    {
      var key := [ToUint8(lang) as UniChar];
      key := key + s;
      keyValuePairs.pairs := keyValuePairs.pairs + [(key, val)];
    }

    /** The tokens of one name: its own words, then its synonyms' normalized forms, capped. */
    method CollectTokens(ops: TextOps, name: string) returns (tokens: seq<UniString>)
      ensures tokens == NameTokens(ops, SynonymsOf(synonyms), name)
    {
      var uniName := ops.normalize(name);
      tokens := ops.split(uniName);
      if synonyms != null {
        var visited := synonyms.ForEach(name);
        for i := 0 to |visited|
          invariant tokens == ops.split(uniName) + Normalized(ops, visited[..i])
        {
          NormalizedSnoc(ops, visited, i);
          tokens := tokens + [ops.normalize(visited[i])];
        }
        assert visited[..|visited|] == visited;
      } else {
        assert tokens + [] == tokens;
      }
      var maxTokensCount := ops.maxTokens - 1;
      if |tokens| > maxTokensCount {
        tokens := tokens[..maxTokensCount];
      }
    }

    /** `operator()(lang, name)`: appends the pairs of one name and asks for the
        next name. */
    method Insert(ops: TextOps, lang: Lang, name: string) returns (more: bool)
      modifies keyValuePairs
      ensures more
      ensures keyValuePairs.pairs == old(keyValuePairs.pairs) + NamePairs(ops, SynonymsOf(synonyms), lang, name, val)
    {
      var tokens := CollectTokens(ops, name);
      assert TokenPairs(lang, tokens[..0], val) == [];
      assert keyValuePairs.pairs == old(keyValuePairs.pairs) + [];
      for i := 0 to |tokens|
        invariant keyValuePairs.pairs == old(keyValuePairs.pairs) + TokenPairs(lang, tokens[..i], val)
      {
        TokenPairsSnoc(lang, tokens, i, val);
        AddToken(lang, tokens[i]);
      }
      assert tokens[..|tokens|] == tokens;
      more := true;
    }
  }
}

// The search trie, abstractly: each key with the multiset of the values stored
// under it.  The byte layout written by `trie::Build` is not modelled; what is
// modelled is how it consumes the sorted pair vector, one run of equal keys at
// a time.
module Trie {
  import opened Keys
  import opened PairSort

  type TrieMap = map<Key, multiset<FeatureIndexValue>>

  /** The values stored under `k` (none if `k` is absent). */
  function ValuesAt(t: TrieMap, k: Key): multiset<FeatureIndexValue> {
    if k in t then t[k] else multiset{}
  }

  /** The trie holding exactly the pairs of `s`. */
  function Group(s: seq<Pair>): TrieMap {
    GroupPrefix(s, |s|)
  }

  /** The trie holding exactly the first `n` pairs of `s`. */
  function GroupPrefix(s: seq<Pair>, n: nat): TrieMap
    requires n <= |s|
    decreases n
  {
    if n == 0 then map[]
    else
      var g := GroupPrefix(s, n - 1);
      g[s[n - 1].0 := ValuesAt(g, s[n - 1].0) + multiset{s[n - 1].1}]
  }

  /** The trie stores each value under a key exactly as often as the pair occurs. */
  lemma {:induction false} GroupPrefixCounts(s: seq<Pair>, n: nat, k: Key, v: FeatureIndexValue)
    requires n <= |s|
    ensures ValuesAt(GroupPrefix(s, n), k)[v] == multiset(s[..n])[(k, v)]
    decreases n
  {
    if n > 0 {
      assert s[..n] == s[..n - 1] + [s[n - 1]];
      GroupPrefixCounts(s, n - 1, k, v);
    }
  }

  lemma GroupCounts(s: seq<Pair>, k: Key, v: FeatureIndexValue)
    ensures ValuesAt(Group(s), k)[v] == multiset(s)[(k, v)]
  {
    GroupPrefixCounts(s, |s|, k, v);
    assert s[..|s|] == s;
  }

  /** Only keys that carry at least one value are present. */
  lemma {:induction false} GroupKeysCarryValues(s: seq<Pair>, n: nat, k: Key)
    requires n <= |s|
    ensures k in GroupPrefix(s, n) <==> ValuesAt(GroupPrefix(s, n), k) != multiset{}
    decreases n
  {
    if n > 0 {
      GroupKeysCarryValues(s, n - 1, k);
    }
  }

  /** A key that none of the first `n` pairs carries is absent. */
  lemma {:induction false} KeyAbsent(s: seq<Pair>, n: nat, k: Key)
    requires n <= |s|
    requires forall m :: 0 <= m < n ==> s[m].0 != k
    ensures k !in GroupPrefix(s, n)
    decreases n
  {
    if n > 0 {
      KeyAbsent(s, n - 1, k);
    }
  }

  /** Every collected pair can be found: its key is present and holds its value. */
  lemma PairFound(s: seq<Pair>, i: nat)
    requires i < |s|
    ensures s[i].0 in Group(s) && s[i].1 in Group(s)[s[i].0]
  {
    GroupCounts(s, s[i].0, s[i].1);
    assert s[i] in multiset(s);
    GroupKeysCarryValues(s, |s|, s[i].0);
  }

  /** The trie depends only on which pairs were collected, not on their order. */
  lemma GroupPermutation(s: seq<Pair>, t: seq<Pair>)
    requires multiset(s) == multiset(t)
    ensures Group(s) == Group(t)
  {
    var gs, gt := Group(s), Group(t);
    forall k ensures ValuesAt(gs, k) == ValuesAt(gt, k) {
      forall v ensures ValuesAt(gs, k)[v] == ValuesAt(gt, k)[v] {
        GroupCounts(s, k, v);
        GroupCounts(t, k, v);
      }
    }
    forall k ensures k in gs <==> k in gt {
      GroupKeysCarryValues(s, |s|, k);
      GroupKeysCarryValues(t, |t|, k);
    }
    forall k | k in gs ensures gs[k] == gt[k] {
      assert gs[k] == ValuesAt(gs, k) && gt[k] == ValuesAt(gt, k);
    }
  }

  /** In an ordered vector, the key that starts a new run has not been seen before. */
  lemma RunKeyIsNew(s: seq<Pair>, i: nat)
    requires Sorted(s)
    requires 0 < i < |s| && s[i - 1].0 != s[i].0
    ensures s[i].0 !in GroupPrefix(s, i)
  {
    PairLeKeys(s[i - 1], s[i]);
    forall m | 0 <= m < i ensures s[m].0 != s[i].0 {
      PairLeKeys(s[m], s[i - 1]);
      if s[m].0 != s[i - 1].0 {
        LexTransitive(s[m].0, s[i - 1].0, s[i].0);
      }
      LexIrreflexive(s[i].0);
    }
    KeyAbsent(s, i, s[i].0);
  }

  /** Builds the trie from the sorted vector, one pair at a time: a pair whose key
      differs from its predecessor's opens a new entry, which sortedness makes
      safe because that key cannot have been seen before; any other pair adds its
      value to the entry just opened. */
  method Build(pairs: seq<Pair>) returns (trie: TrieMap)
    requires Sorted(pairs)
    ensures trie == Group(pairs)
  {
    trie := map[];
    for i := 0 to |pairs|
      invariant trie == GroupPrefix(pairs, i)
    {
      var key, value := pairs[i].0, pairs[i].1;
      ghost var before := trie;
      if i > 0 && pairs[i - 1].0 == key {
        assert key in trie && trie[key] == ValuesAt(before, key);
        trie := trie[key := trie[key] + multiset{value}];
      } else {
        if i > 0 {
          RunKeyIsNew(pairs, i);
        }
        assert ValuesAt(before, key) + multiset{value} == multiset{value};
        trie := trie[key := multiset{value}];
      }
      assert trie == before[key := ValuesAt(before, key) + multiset{value}];
    }
  }
}

// The in-place sort of the collected key/value pairs before the trie is built:
// `std::sort` with `operator<` of `std::pair<UniString, FeatureIndexValue>`.
module PairSort {
  import opened Keys

  /** Every pair is at most every later pair. */
  ghost predicate Sorted(s: seq<Pair>) {
    forall i, j :: 0 <= i < j < |s| ==> PairLe(s[i], s[j])
  }

  /** Every pair is at most its successor. */
  ghost predicate SortedAdjacent(s: seq<Pair>) {
    forall k :: 0 < k < |s| ==> PairLe(s[k - 1], s[k])
  }

  /** Ordered neighbours make an ordered sequence, because PairLe is transitive. */
  lemma {:induction false} AdjacentToSorted(s: seq<Pair>)
    requires SortedAdjacent(s)
    ensures Sorted(s)
    decreases |s|
  {
    if |s| > 1 {
      var init := s[..|s| - 1];
      assert SortedAdjacent(init) by {
        forall k | 0 < k < |init| ensures PairLe(init[k - 1], init[k]) {
          assert init[k - 1] == s[k - 1] && init[k] == s[k];
        }
      }
      AdjacentToSorted(init);
      forall i, j | 0 <= i < j < |s| ensures PairLe(s[i], s[j]) {
        if j < |s| - 1 {
          assert s[i] == init[i] && s[j] == init[j];
        } else if i < j - 1 {
          assert s[i] == init[i] && s[j - 1] == init[j - 1];
          PairLeTransitive(s[i], s[j - 1], s[j]);
        }
      }
    }
  }

  /** Exchanging two places keeps the multiset of the elements. */
  lemma SwapKeepsElements(s: seq<Pair>, i: nat, j: nat)
    requires i < |s| && j < |s|
    ensures multiset(s[i := s[j]][j := s[i]]) == multiset(s)
  {
  }

  lemma HeadAndTail(s: seq<Pair>)
    requires s != []
    ensures multiset(s) == multiset{s[0]} + multiset(s[1..])
    ensures multiset(s[1..]) == multiset(s) - multiset{s[0]}
  {
    assert s == [s[0]] + s[1..];
  }

  /** In an ordered sequence, pairs with one key sit next to each other: whatever
      lies between two pairs with key `k` has key `k` too. */
  lemma EqualKeysContiguous(s: seq<Pair>, i: nat, m: nat, j: nat)
    requires Sorted(s)
    requires i <= m <= j < |s|
    requires s[i].0 == s[j].0
    ensures s[m].0 == s[i].0
  {
    PairLeKeys(s[i], s[m]);
    PairLeKeys(s[m], s[j]);
    if s[m].0 != s[i].0 {
      LexAntisymmetric(s[i].0, s[m].0);
    }
  }

  /** Two ordered arrangements of the same pairs are the same sequence: the sorted
      vector depends only on which pairs were collected, not on their order. */
  lemma {:induction false} SortedUnique(s: seq<Pair>, t: seq<Pair>)
    requires Sorted(s) && Sorted(t)
    requires multiset(s) == multiset(t)
    ensures s == t
    decreases |s|
  {
    assert |s| == |multiset(s)| == |t|;
    if s != [] {
      SameLeast(s, t);
      HeadAndTail(s);
      HeadAndTail(t);
      SortedTail(s);
      SortedTail(t);
      SortedUnique(s[1..], t[1..]);
      assert s == [s[0]] + s[1..] && t == [t[0]] + t[1..];
    }
  }

  /** Two ordered arrangements of the same pairs start with the same pair. */
  lemma SameLeast(s: seq<Pair>, t: seq<Pair>)
    requires Sorted(s) && Sorted(t) && s != []
    requires multiset(s) == multiset(t)
    ensures t != [] && s[0] == t[0]
  {
    assert s[0] in multiset(t);
    var j :| 0 <= j < |t| && t[j] == s[0];
    assert t[0] in multiset(s);
    var i :| 0 <= i < |s| && s[i] == t[0];
    assert PairLe(s[0], t[0]) by { if i > 0 { assert PairLe(s[0], s[i]); } }
    assert PairLe(t[0], s[0]) by { if j > 0 { assert PairLe(t[0], t[j]); } }
    PairLeAntisymmetric(s[0], t[0]);
  }

  lemma SortedTail(s: seq<Pair>)
    requires Sorted(s) && s != []
    ensures Sorted(s[1..])
  {
    forall a, b | 0 <= a < b < |s[1..]| ensures PairLe(s[1..][a], s[1..][b]) {
      assert s[1..][a] == s[a + 1] && s[1..][b] == s[b + 1];
    }
  }

  /** Sorts the pairs in place (insertion sort by adjacent exchanges). */
  method SortPairs(a: array<Pair>)
    modifies a
    ensures Sorted(a[..])
    ensures multiset(a[..]) == multiset(old(a[..]))
  {
    for i := 0 to a.Length
      invariant forall k :: 0 < k < i ==> PairLe(a[k - 1], a[k])
      invariant multiset(a[..]) == multiset(old(a[..]))
    {
      SinkLast(a, i);
    }
    AdjacentToSorted(a[..]);
  }

  /** Moves `a[i]` down into the ordered prefix `a[..i]`, so that `a[..i + 1]` is ordered. */
  method SinkLast(a: array<Pair>, i: nat)
    requires i < a.Length
    requires forall k :: 0 < k < i ==> PairLe(a[k - 1], a[k])
    modifies a
    ensures forall k :: 0 < k <= i ==> PairLe(a[k - 1], a[k])
    ensures multiset(a[..]) == multiset(old(a[..]))
  {
    var j := i;
    while j > 0 && PairLess(a[j], a[j - 1])
      invariant 0 <= j <= i
      invariant forall k :: 0 < k <= i && k != j ==> PairLe(a[k - 1], a[k])
      invariant 0 < j < i ==> PairLe(a[j - 1], a[j + 1])
      invariant multiset(a[..]) == multiset(old(a[..]))
    {
      Exchange(a, j);
      j := j - 1;
    }
    if j > 0 {
      PairLeTotal(a[j], a[j - 1]);
    }
  }

  /** Exchanges `a[j - 1]` and `a[j]`. */
  method Exchange(a: array<Pair>, j: nat)
    requires 0 < j < a.Length
    modifies a
    ensures a[j - 1] == old(a[j]) && a[j] == old(a[j - 1])
    ensures forall m :: 0 <= m < a.Length && m != j - 1 && m != j ==> a[m] == old(a[m])
    ensures multiset(a[..]) == multiset(old(a[..]))
  {
    ghost var before := a[..];
    SwapKeepsElements(before, j - 1, j);
    a[j - 1], a[j] := a[j], a[j - 1];
    assert a[..] == before[j - 1 := before[j]][j := before[j - 1]];
  }
}

// `AddFeatureNameIndexPairs` (the pair-collection part) and `BuildSearchIndex`:
// collect the pairs of every feature of a map, sort them, build the trie.
module SearchIndexBuilder {
  import opened Outcomes
  import opened Keys
  import opened Synonyms
  import opened NameInserter
  import opened FeatureInserter
  import opened PairSort
  import opened Trie

  /** `feature::DataHeader::MapType`. */
  datatype MapType = World | WorldCoasts | Country

  /** The parts of the data header the index builder reads. */
  datatype DataHeader = DataHeader(mapType: MapType, scales: ScaleRange)

  /** A map file's features, in the order `FeaturesVector::ForEach` visits them. */
  datatype MwmData = MwmData(header: DataHeader, features: seq<Feature>)

  /** The synonyms a build consults: the synonyms file's entries for the world map,
      none for any other map. */
  function BuildSynonyms(header: DataHeader, synonymLines: seq<string>): Option<seq<Entry>> {
    if header.mapType == World then Some(ParseLines(synonymLines)) else None
  }

  /** The pairs of all features, feature after feature, each feature's value being
      its position; `Failure(u)` for the first feature whose CHECK fails. */
  function CollectedPairs(ops: TextOps, cls: Classifier, synonyms: Option<seq<Entry>>, scales: ScaleRange,
                          features: seq<Feature>): Result<seq<Pair>, TypeCode>
    decreases |features|
  {
    if features == [] then Success([])
    else
      match CollectedPairs(ops, cls, synonyms, scales, features[..|features| - 1])
      case Failure(u) => Failure(u)
      case Success(before) =>
        match FeaturePairs(ops, cls, synonyms, scales, features[|features| - 1], |features| - 1)
        case Failure(u) => Failure(u)
        case Success(added) => Success(before + added)
  }

  /** The pairs of a map file, with the synonyms its header calls for. */
  function MapPairs(ops: TextOps, cls: Classifier, data: MwmData, synonymLines: seq<string>): Result<seq<Pair>, TypeCode> {
    CollectedPairs(ops, cls, BuildSynonyms(data.header, synonymLines), data.header.scales, data.features)
  }

  lemma CollectedPairsSnoc(ops: TextOps, cls: Classifier, synonyms: Option<seq<Entry>>, scales: ScaleRange,
                           features: seq<Feature>, i: nat)
    requires i < |features|
    ensures var before := CollectedPairs(ops, cls, synonyms, scales, features[..i]);
            var added := FeaturePairs(ops, cls, synonyms, scales, features[i], i);
            CollectedPairs(ops, cls, synonyms, scales, features[..i + 1])
              == if before.Failure? then before
                 else if added.Failure? then Failure(added.error)
                 else Success(before.value + added.value)
  {
    assert features[..i + 1][..i] == features[..i];
  }

  /** Every pair refers to one of the first `n` features, and the pairs come in
      the order of their features. */
  ghost predicate InFeatureOrder(pairs: seq<Pair>, n: nat) {
    (forall i :: 0 <= i < |pairs| ==> pairs[i].1.featureId < n) &&
    (forall i, j :: 0 <= i < j < |pairs| ==> pairs[i].1.featureId <= pairs[j].1.featureId)
  }

  /** The collected pairs refer to the map's features, in feature order. */
  lemma {:induction false} CollectedPairsInFeatureOrder(ops: TextOps, cls: Classifier, synonyms: Option<seq<Entry>>,
                                                        scales: ScaleRange, features: seq<Feature>)
    requires CollectedPairs(ops, cls, synonyms, scales, features).Success?
    ensures InFeatureOrder(CollectedPairs(ops, cls, synonyms, scales, features).value, |features|)
    decreases |features|
  {
    if features != [] {
      var n := |features| - 1;
      var init := features[..n];
      CollectedPairsSnoc(ops, cls, synonyms, scales, features, n);
      assert features[..n + 1] == features;
      var r := CollectedPairs(ops, cls, synonyms, scales, init);
      var added := FeaturePairs(ops, cls, synonyms, scales, features[n], n);
      CollectedPairsInFeatureOrder(ops, cls, synonyms, scales, init);
      FeaturePairsValue(ops, cls, synonyms, scales, features[n], n);
      AppendedInOrder(r.value, added.value, n);
    }
  }

  /** Pairs of earlier features followed by pairs of feature `n` are in feature order. */
  lemma AppendedInOrder(before: seq<Pair>, added: seq<Pair>, n: nat)
    requires InFeatureOrder(before, n)
    requires forall i :: 0 <= i < |added| ==> added[i].1.featureId == n
    ensures InFeatureOrder(before + added, n + 1)
  {
  }

  /** The collection stops at the first feature whose CHECK fails. */
  lemma {:induction false} CollectedFailurePersists(ops: TextOps, cls: Classifier, synonyms: Option<seq<Entry>>,
                                                    scales: ScaleRange, features: seq<Feature>, n: nat)
    requires n <= |features|
    requires CollectedPairs(ops, cls, synonyms, scales, features[..n]).Failure?
    ensures CollectedPairs(ops, cls, synonyms, scales, features).Failure?
    decreases |features| - n
  {
    if n < |features| {
      CollectedPairsSnoc(ops, cls, synonyms, scales, features, n);
      CollectedFailurePersists(ops, cls, synonyms, scales, features, n + 1);
    } else {
      assert features[..n] == features;
    }
  }

  /** The collection fails exactly when the CHECK fails on some feature: the build
      is never aborted without cause, and never runs past a failing feature. */
  lemma CollectedFailsIffSomeFeatureFails(ops: TextOps, cls: Classifier, synonyms: Option<seq<Entry>>,
                                          scales: ScaleRange, features: seq<Feature>)
    ensures CollectedPairs(ops, cls, synonyms, scales, features).Failure? <==>
              exists i :: 0 <= i < |features| && FeaturePairs(ops, cls, synonyms, scales, features[i], i).Failure?
  {
    if CollectedPairs(ops, cls, synonyms, scales, features).Failure? {
      var i := FailingFeature(ops, cls, synonyms, scales, features);
    }
    if exists i :: 0 <= i < |features| && FeaturePairs(ops, cls, synonyms, scales, features[i], i).Failure? {
      var i :| 0 <= i < |features| && FeaturePairs(ops, cls, synonyms, scales, features[i], i).Failure?;
      CollectedPairsSnoc(ops, cls, synonyms, scales, features, i);
      CollectedFailurePersists(ops, cls, synonyms, scales, features, i + 1);
    }
  }

  /** A failed collection names a feature whose CHECK fails. */
  lemma {:induction false} FailingFeature(ops: TextOps, cls: Classifier, synonyms: Option<seq<Entry>>,
                                          scales: ScaleRange, features: seq<Feature>) returns (i: nat)
    requires CollectedPairs(ops, cls, synonyms, scales, features).Failure?
    ensures i < |features| && FeaturePairs(ops, cls, synonyms, scales, features[i], i).Failure?
    decreases |features|
  {
    var n := |features| - 1;
    var init := features[..n];
    CollectedPairsSnoc(ops, cls, synonyms, scales, features, n);
    assert features[..n + 1] == features;
    if CollectedPairs(ops, cls, synonyms, scales, init).Failure? {
      i := FailingFeature(ops, cls, synonyms, scales, init);
      assert init[i] == features[i];
    } else {
      i := n;
    }
  }

  /** Outside the world map the synonyms file has no effect on the collected pairs. */
  lemma SynonymsOnlyForWorld(ops: TextOps, cls: Classifier, data: MwmData, lines1: seq<string>, lines2: seq<string>)
    requires data.header.mapType != World
    ensures MapPairs(ops, cls, data, lines1) == MapPairs(ops, cls, data, lines2)
  {
  }

  /** `AddFeatureNameIndexPairs`, lines that fill the pair vector: a synonyms holder
      for the world map only, then one `FeatureInserter` call per feature with the
      feature's position as its index.  Returns false when a CHECK aborts the build. */
  method AddFeatureNameIndexPairs(ops: TextOps, cls: Classifier, data: MwmData, synonymLines: seq<string>,
                                  keyValuePairs: PairVector) returns (ok: bool)
    modifies keyValuePairs
    ensures ok == MapPairs(ops, cls, data, synonymLines).Success?
    ensures ok ==> keyValuePairs.pairs == old(keyValuePairs.pairs) + MapPairs(ops, cls, data, synonymLines).value
  {
    var synonyms: SynonymsHolder? := null;
    if data.header.mapType == World {
      synonyms := new SynonymsHolder(synonymLines);
    }
    var inserter := new FeatureInserter(synonyms, keyValuePairs, cls, data.header.scales);
    assert SynonymsOf(synonyms) == BuildSynonyms(data.header, synonymLines);
    ghost var syn := BuildSynonyms(data.header, synonymLines);
    var features := data.features;
    for i := 0 to |features|
      invariant SynonymsOf(inserter.synonyms) == syn
      invariant CollectedPairs(ops, cls, syn, data.header.scales, features[..i]).Success?
      invariant keyValuePairs.pairs
                  == old(keyValuePairs.pairs) + CollectedPairs(ops, cls, syn, data.header.scales, features[..i]).value
    {
      CollectedPairsSnoc(ops, cls, syn, data.header.scales, features, i);
      ghost var before := CollectedPairs(ops, cls, syn, data.header.scales, features[..i]).value;
      var fine := inserter.Apply(ops, features[i], i);
      if !fine {
        CollectedFailurePersists(ops, cls, syn, data.header.scales, features, i + 1);
        return false;
      }
      AppendStep(old(keyValuePairs.pairs), before, FeaturePairs(ops, cls, syn, data.header.scales, features[i], i).value,
                 CollectedPairs(ops, cls, syn, data.header.scales, features[..i + 1]).value);
    }
    assert features[..|features|] == features;
    return true;
  }

  /** `BuildSearchIndex`: collect, sort in place, build the trie.  `None` when a CHECK
      aborts the build. */
  method BuildSearchIndex(ops: TextOps, cls: Classifier, data: MwmData, synonymLines: seq<string>)
    returns (trie: Option<TrieMap>)
    ensures trie.None? <==> MapPairs(ops, cls, data, synonymLines).Failure?
    ensures trie.Some? ==> trie.value == Group(MapPairs(ops, cls, data, synonymLines).value)
  {
    var keyValuePairs := new PairVector();
    var ok := AddFeatureNameIndexPairs(ops, cls, data, synonymLines, keyValuePairs);
    if !ok {
      return None;
    }
    var collected := keyValuePairs.pairs;
    assert collected == MapPairs(ops, cls, data, synonymLines).value;
    var sorted := new Pair[|collected|](i requires 0 <= i < |collected| => collected[i]);
    assert sorted[..] == collected;
    SortPairs(sorted);
    assert multiset(sorted[..]) == multiset(collected);
    GroupPermutation(sorted[..], collected);
    var built := Build(sorted[..]);
    return Some(built);
  }

  /** Every pair a map contributes can be found in its trie. */
  lemma EveryPairInTrie(ops: TextOps, cls: Classifier, data: MwmData, synonymLines: seq<string>, i: nat)
    requires MapPairs(ops, cls, data, synonymLines).Success?
    requires i < |MapPairs(ops, cls, data, synonymLines).value|
    ensures var pairs := MapPairs(ops, cls, data, synonymLines).value;
            pairs[i].0 in Group(pairs) && pairs[i].1 in Group(pairs)[pairs[i].0]
  {
    PairFound(MapPairs(ops, cls, data, synonymLines).value, i);
  }

  /** Every value the trie stores refers to a feature of the map. */
  lemma TrieValuesReferToFeatures(ops: TextOps, cls: Classifier, data: MwmData, synonymLines: seq<string>,
                                  k: Key, v: FeatureIndexValue)
    requires MapPairs(ops, cls, data, synonymLines).Success?
    requires v in ValuesAt(Group(MapPairs(ops, cls, data, synonymLines).value), k)
    ensures v.featureId < |data.features|
  {
    var pairs := MapPairs(ops, cls, data, synonymLines).value;
    GroupCounts(pairs, k, v);
    assert (k, v) in multiset(pairs);
    var i :| 0 <= i < |pairs| && pairs[i] == (k, v);
    CollectedPairsInFeatureOrder(ops, cls, BuildSynonyms(data.header, synonymLines), data.header.scales, data.features);
    assert pairs[i].1.featureId < |data.features|;
  }

  /** The collection contains every pair of every feature. */
  lemma {:induction false} CollectedContainsFeature(ops: TextOps, cls: Classifier, synonyms: Option<seq<Entry>>,
                                                    scales: ScaleRange, features: seq<Feature>, i: nat)
    requires i < |features|
    requires CollectedPairs(ops, cls, synonyms, scales, features).Success?
    ensures FeaturePairs(ops, cls, synonyms, scales, features[i], i).Success?
    ensures forall p :: p in FeaturePairs(ops, cls, synonyms, scales, features[i], i).value ==>
              p in CollectedPairs(ops, cls, synonyms, scales, features).value
    decreases |features|
  {
    var n := |features| - 1;
    CollectedPairsSnoc(ops, cls, synonyms, scales, features, n);
    assert features[..n + 1] == features;
    var before := CollectedPairs(ops, cls, synonyms, scales, features[..n]).value;
    var added := FeaturePairs(ops, cls, synonyms, scales, features[n], n).value;
    assert CollectedPairs(ops, cls, synonyms, scales, features).value == before + added;
    if i < n {
      assert features[..n][i] == features[i];
      CollectedContainsFeature(ops, cls, synonyms, scales, features[..n], i);
    }
  }

  /** Every key a feature contributes leads, in the finished trie, to a value list
      holding that feature. */
  lemma FeatureFoundUnderItsKeys(ops: TextOps, cls: Classifier, data: MwmData, synonymLines: seq<string>,
                                 i: nat, p: Pair)
    requires i < |data.features|
    requires MapPairs(ops, cls, data, synonymLines).Success?
    requires FeaturePairs(ops, cls, BuildSynonyms(data.header, synonymLines), data.header.scales,
                          data.features[i], i).Success?
    requires p in FeaturePairs(ops, cls, BuildSynonyms(data.header, synonymLines), data.header.scales,
                               data.features[i], i).value
    ensures var trie := Group(MapPairs(ops, cls, data, synonymLines).value);
            p.0 in trie && MakeValue(i) in trie[p.0]
  {
    var syn := BuildSynonyms(data.header, synonymLines);
    CollectedContainsFeature(ops, cls, syn, data.header.scales, data.features, i);
    FeaturePairsValue(ops, cls, syn, data.header.scales, data.features[i], i);
    var pairs := MapPairs(ops, cls, data, synonymLines).value;
    var j :| 0 <= j < |pairs| && pairs[j] == p;
    PairFound(pairs, j);
  }
}

/** FeatureInserter (indexer/search_index_builder.cpp): the per-feature rule that
    filters a feature's types, inserts its names and injects one category
    pseudo-token per cataloged, visible type. */
module FeatureInserter {
  import opened Outcomes
  import opened Keys
  import opened Synonyms
  import opened NameInserter

  /** A classificator type code (`uint32_t`). */
  type TypeCode = t: int | 0 <= t < 0x1_0000_0000

  /** An inclusive scale range, `pair<int, int>`. */
  datatype ScaleRange = ScaleRange(first: int, second: int)

  /** What the feature inserter asks of code outside the index builder:
      - `skipType`: `TypesSkipper::SkipTypes` removes the type;
      - `skipIfUnnamed`: `TypesSkipper::SkipEmptyNameTypes` removes the type;
      - `isCountryOrState`: `TypesSkipper::IsCountryOrState` of the remaining types;
      - `truncTo2`: `ftype::TruncValue(t, 2)`;
      - `isTypeExist`: `CategoriesHolder::IsTypeExist`;
      - `drawableScaleRange`: `feature::GetDrawableScaleRange`;
      - `categoryToken`: `search::FeatureTypeToString(c.GetIndexForType(t))`. */
  datatype Classifier = Classifier(
    skipType: TypeCode -> bool,
    skipIfUnnamed: TypeCode -> bool,
    isCountryOrState: seq<TypeCode> -> bool,
    truncTo2: TypeCode -> TypeCode,
    isTypeExist: TypeCode -> bool,
    drawableScaleRange: TypeCode -> ScaleRange,
    categoryToken: TypeCode -> UniString)

  /** One name of a feature: its language code and raw text. */
  datatype Name = Name(lang: Lang, text: string)

  /** What the inserter reads of a FeatureType: its types and its names, the names
      in the order `ForEachNameRef` enumerates them. */
  datatype Feature = Feature(types: seq<TypeCode>, names: seq<Name>)

  /** `TypesHolder::RemoveIf`: the types the test does not remove, in order. */
  function RemoveIf(types: seq<TypeCode>, remove: TypeCode -> bool): (kept: seq<TypeCode>)
    ensures |kept| <= |types|
    ensures forall t :: t in kept <==> t in types && !remove(t)
    decreases |types|
  {
    if types == [] then []
    else
      var init := RemoveIf(types[..|types| - 1], remove);
      var t := types[|types| - 1];
      assert types == types[..|types| - 1] + [t];
      if remove(t) then init else init + [t]
  }

  /** Removing every type leaves no type. */
  lemma {:induction false} RemoveIfAll(types: seq<TypeCode>, remove: TypeCode -> bool)
    requires forall i :: 0 <= i < |types| ==> remove(types[i])
    ensures RemoveIf(types, remove) == []
    decreases |types|
  {
    if types != [] {
      var init := types[..|types| - 1];
      assert forall i :: 0 <= i < |init| ==> init[i] == types[i];
      RemoveIfAll(init, remove);
    }
  }

  /** `ValueBuilder<FeatureIndexValue>::MakeValue`: the value carries the feature's index. */
  function MakeValue(index: nat): FeatureIndexValue {
    FeatureIndexValue(index)
  }

  /** The CHECK on a drawable scale range: ordered, and not the undefined scale -1. */
  predicate RangeValid(r: ScaleRange) {
    r.first <= r.second && r.first != -1
  }

  /** The test that a type's drawable range meets the header's scale range. */
  predicate Intersects(r: ScaleRange, scales: ScaleRange) {
    r.second >= scales.first && r.first <= scales.second
  }

  predicate InRange(z: int, r: ScaleRange) {
    r.first <= z <= r.second
  }

  /** For non-empty ranges the test says exactly that some scale lies in both. */
  lemma IntersectsIffCommonScale(r: ScaleRange, scales: ScaleRange)
    requires r.first <= r.second && scales.first <= scales.second
    ensures Intersects(r, scales) <==> exists z :: InRange(z, r) && InRange(z, scales)
  {
    if Intersects(r, scales) {
      var z := if r.first < scales.first then scales.first else r.first;
      assert InRange(z, r) && InRange(z, scales);
    }
  }

  /** The pair of the category pseudo-token for the truncated type `t`. */
  function CategoryPair(cls: Classifier, t: TypeCode, val: FeatureIndexValue): Pair {
    (MakeKey(ToSignedChar(CATEGORIES_LANG), cls.categoryToken(t)), val)
  }

  /** A type whose truncated form is cataloged but has an invalid drawable range:
      the CHECK fails on it. */
  predicate Fatal(cls: Classifier, t: TypeCode) {
    var u := cls.truncTo2(t);
    cls.isTypeExist(u) && !RangeValid(cls.drawableScaleRange(u))
  }

  /** A truncated type that gets a category token. */
  predicate Emits(cls: Classifier, scales: ScaleRange, u: TypeCode) {
    cls.isTypeExist(u) && Intersects(cls.drawableScaleRange(u), scales)
  }

  /** The category loop over `types`, in order, up to the first failed CHECK. */
  function CategoryPairs(cls: Classifier, scales: ScaleRange, types: seq<TypeCode>,
                         val: FeatureIndexValue): Result<seq<Pair>, TypeCode>
    decreases |types|
  {
    if types == [] then Success([])
    else
      match CategoryPairs(cls, scales, types[..|types| - 1], val)
      case Failure(bad) => Failure(bad)
      case Success(pairs) =>
        var u := cls.truncTo2(types[|types| - 1]);
        if !cls.isTypeExist(u) then Success(pairs)
        else
          var r := cls.drawableScaleRange(u);
          if !RangeValid(r) then Failure(u)
          else if Intersects(r, scales) then Success(pairs + [CategoryPair(cls, u, val)])
          else Success(pairs)
  }

  /** The truncated types that get a category token, in order. */
  function EmittedTypes(cls: Classifier, scales: ScaleRange, types: seq<TypeCode>): seq<TypeCode>
    decreases |types|
  {
    if types == [] then []
    else
      var u := cls.truncTo2(types[0]);
      (if Emits(cls, scales, u) then [u] else []) + EmittedTypes(cls, scales, types[1..])
  }

  lemma EmittedTypesSnoc(cls: Classifier, scales: ScaleRange, types: seq<TypeCode>, t: TypeCode)
    ensures EmittedTypes(cls, scales, types + [t])
         == EmittedTypes(cls, scales, types) + (if Emits(cls, scales, cls.truncTo2(t)) then [cls.truncTo2(t)] else [])
    decreases |types|
  {
    if types != [] {
      assert (types + [t])[1..] == types[1..] + [t];
      EmittedTypesSnoc(cls, scales, types[1..], t);
    }
  }

  /** The category pairs of a list of truncated types, in order. */
  function CategoryPairsOf(cls: Classifier, emitted: seq<TypeCode>, val: FeatureIndexValue): seq<Pair> {
    seq(|emitted|, i requires 0 <= i < |emitted| => CategoryPair(cls, emitted[i], val))
  }

  /** The category rule, abort half: the loop fails exactly when some type of the
      feature is fatal. */
  lemma {:induction false} CategoryFailureRule(cls: Classifier, scales: ScaleRange, types: seq<TypeCode>,
                                               val: FeatureIndexValue)
    ensures CategoryPairs(cls, scales, types, val).Failure? <==>
              exists i :: 0 <= i < |types| && Fatal(cls, types[i])
    decreases |types|
  {
    if types != [] {
      var init, t := types[..|types| - 1], types[|types| - 1];
      CategoryFailureRule(cls, scales, init, val);
      assert CategoryPairs(cls, scales, types, val).Failure?
         <==> CategoryPairs(cls, scales, init, val).Failure? || Fatal(cls, t);
      if exists i :: 0 <= i < |types| && Fatal(cls, types[i]) {
        var i :| 0 <= i < |types| && Fatal(cls, types[i]);
        if i < |init| {
          assert init[i] == types[i];
        }
      }
      if exists i :: 0 <= i < |init| && Fatal(cls, init[i]) {
        var i :| 0 <= i < |init| && Fatal(cls, init[i]);
        assert types[i] == init[i];
      }
    }
  }

  /** The category rule, emission half: without an abort there is exactly one pair
      per type whose truncated form is cataloged and drawable within the header's
      scales, each keyed under language byte 128 with that category's token, in
      the order of the types. */
  lemma {:induction false} CategoryEmissionRule(cls: Classifier, scales: ScaleRange, types: seq<TypeCode>,
                                                val: FeatureIndexValue)
    requires CategoryPairs(cls, scales, types, val).Success?
    ensures CategoryPairs(cls, scales, types, val).value == CategoryPairsOf(cls, EmittedTypes(cls, scales, types), val)
    decreases |types|
  {
    if types != [] {
      var init, t := types[..|types| - 1], types[|types| - 1];
      assert types == init + [t];
      CategoryPairsLast(cls, scales, types, val);
      CategoryEmissionRule(cls, scales, init, val);
      EmittedTypesSnoc(cls, scales, init, t);
      var u := cls.truncTo2(t);
      var e := EmittedTypes(cls, scales, init);
      var tail := if Emits(cls, scales, u) then [u] else [];
      CategoryPairsOfAppend(cls, e, tail, val);
    }
  }

  /** One more type on a loop that has not failed: the earlier types had not failed
      either, and the new type adds its pair exactly when it is emitted. */
  lemma CategoryPairsLast(cls: Classifier, scales: ScaleRange, types: seq<TypeCode>, val: FeatureIndexValue)
    requires types != []
    requires CategoryPairs(cls, scales, types, val).Success?
    ensures CategoryPairs(cls, scales, types[..|types| - 1], val).Success?
    ensures var u := cls.truncTo2(types[|types| - 1]);
            CategoryPairs(cls, scales, types, val).value
              == CategoryPairs(cls, scales, types[..|types| - 1], val).value
                 + (if Emits(cls, scales, u) then [CategoryPair(cls, u, val)] else [])
  {
  }

  lemma CategoryPairsOfAppend(cls: Classifier, a: seq<TypeCode>, b: seq<TypeCode>, val: FeatureIndexValue)
    ensures CategoryPairsOf(cls, a + b, val) == CategoryPairsOf(cls, a, val) + CategoryPairsOf(cls, b, val)
  {
  }

  /** Every category key starts with the category language byte 128. */
  lemma CategoryKeyStartsWith128(cls: Classifier, u: TypeCode, val: FeatureIndexValue)
    ensures CategoryPair(cls, u, val).0[0] == CATEGORIES_LANG as UniChar
    ensures KeyText(CategoryPair(cls, u, val).0) == cls.categoryToken(u)
  {
    CategoryKeyByte(cls.categoryToken(u));
    KeyRoundTrip(ToSignedChar(CATEGORIES_LANG), cls.categoryToken(u));
  }

  /** Once a CHECK has failed on a prefix of the types, the whole loop fails. */
  lemma {:induction false} CategoryFailurePersists(cls: Classifier, scales: ScaleRange, types: seq<TypeCode>,
                                                   n: nat, val: FeatureIndexValue)
    requires n <= |types|
    requires CategoryPairs(cls, scales, types[..n], val).Failure?
    ensures CategoryPairs(cls, scales, types, val).Failure?
    decreases |types| - n
  {
    if n < |types| {
      assert types[..n + 1][..n] == types[..n];
      CategoryFailurePersists(cls, scales, types, n + 1, val);
    } else {
      assert types[..n] == types;
    }
  }

  /** The pairs of all names of a feature, name after name. */
  function NamesPairs(ops: TextOps, synonyms: Option<seq<Entry>>, names: seq<Name>,
                      val: FeatureIndexValue): seq<Pair>
    decreases |names|
  {
    if names == [] then []
    else
      var last := names[|names| - 1];
      NamesPairs(ops, synonyms, names[..|names| - 1], val) + NamePairs(ops, synonyms, last.lang, last.text, val)
  }

  lemma NamesPairsSnoc(ops: TextOps, synonyms: Option<seq<Entry>>, names: seq<Name>, i: nat,
                       val: FeatureIndexValue)
    requires i < |names|
    ensures NamesPairs(ops, synonyms, names[..i + 1], val)
         == NamesPairs(ops, synonyms, names[..i], val) + NamePairs(ops, synonyms, names[i].lang, names[i].text, val)
  {
    assert names[..i + 1][..i] == names[..i];
  }

  /** One more type in the category loop. */
  lemma CategoryPairsSnoc(cls: Classifier, scales: ScaleRange, types: seq<TypeCode>, i: nat,
                          val: FeatureIndexValue)
    requires i < |types|
    requires CategoryPairs(cls, scales, types[..i], val).Success?
    ensures var pairs := CategoryPairs(cls, scales, types[..i], val).value;
            var u := cls.truncTo2(types[i]);
            CategoryPairs(cls, scales, types[..i + 1], val) ==
              if !cls.isTypeExist(u) then Success(pairs)
              else if !RangeValid(cls.drawableScaleRange(u)) then Failure(u)
              else if Intersects(cls.drawableScaleRange(u), scales) then Success(pairs + [CategoryPair(cls, u, val)])
              else Success(pairs)
  {
    assert types[..i + 1][..i] == types[..i];
  }

  /** `FeatureInserter::operator()` on feature `f` with index `index`: the pairs it
      appends, or `Failure(u)` when the CHECK fails on the truncated type `u`. */
  function FeaturePairs(ops: TextOps, cls: Classifier, synonyms: Option<seq<Entry>>, scales: ScaleRange,
                        f: Feature, index: nat): Result<seq<Pair>, TypeCode>
  {
    var types := RemoveIf(f.types, cls.skipType);
    if types == [] then Success([])
    else
      var val := MakeValue(index);
      var names := NamesPairs(ops, if cls.isCountryOrState(types) then synonyms else None, f.names, val);
      var remaining := if f.names == [] then RemoveIf(types, cls.skipIfUnnamed) else types;
      if remaining == [] then Success(names)
      else
        match CategoryPairs(cls, scales, remaining, val)
        case Failure(bad) => Failure(bad)
        case Success(categories) => Success(names + categories)
  }

  /** A feature whose types are all skipped contributes nothing, not even names. */
  lemma SkippedFeatureContributesNothing(ops: TextOps, cls: Classifier, synonyms: Option<seq<Entry>>,
                                         scales: ScaleRange, f: Feature, index: nat)
    requires forall i :: 0 <= i < |f.types| ==> cls.skipType(f.types[i])
    ensures FeaturePairs(ops, cls, synonyms, scales, f, index) == Success([])
  {
    RemoveIfAll(f.types, cls.skipType);
  }

  /** A feature without names whose types all go once the empty-name types are
      skipped contributes no pair (and in particular no category token). */
  lemma UnnamedFeatureWithoutTypesContributesNothing(ops: TextOps, cls: Classifier, synonyms: Option<seq<Entry>>,
                                                     scales: ScaleRange, f: Feature, index: nat)
    requires f.names == []
    requires RemoveIf(RemoveIf(f.types, cls.skipType), cls.skipIfUnnamed) == []
    ensures FeaturePairs(ops, cls, synonyms, scales, f, index) == Success([])
  {
  }

  /** Synonyms never matter for a feature that is not a country or a state. */
  lemma SynonymsOnlyForCountriesAndStates(ops: TextOps, cls: Classifier, syn1: Option<seq<Entry>>,
                                          syn2: Option<seq<Entry>>, scales: ScaleRange, f: Feature, index: nat)
    requires !cls.isCountryOrState(RemoveIf(f.types, cls.skipType))
    ensures FeaturePairs(ops, cls, syn1, scales, f, index) == FeaturePairs(ops, cls, syn2, scales, f, index)
  {
  }

  /** Every pair of a name carries the inserter's value. */
  lemma {:induction false} NamesPairsValue(ops: TextOps, synonyms: Option<seq<Entry>>, names: seq<Name>,
                                           val: FeatureIndexValue)
    ensures forall i :: 0 <= i < |NamesPairs(ops, synonyms, names, val)| ==> NamesPairs(ops, synonyms, names, val)[i].1 == val
    decreases |names|
  {
    if names != [] {
      NamesPairsValue(ops, synonyms, names[..|names| - 1], val);
    }
  }

  /** Every pair a feature contributes refers to that feature. */
  lemma FeaturePairsValue(ops: TextOps, cls: Classifier, synonyms: Option<seq<Entry>>, scales: ScaleRange,
                          f: Feature, index: nat)
    ensures FeaturePairs(ops, cls, synonyms, scales, f, index).Success? ==>
              var pairs := FeaturePairs(ops, cls, synonyms, scales, f, index).value;
              forall i :: 0 <= i < |pairs| ==> pairs[i].1.featureId == index
  {
    var types := RemoveIf(f.types, cls.skipType);
    if types != [] {
      var val := MakeValue(index);
      var syn := if cls.isCountryOrState(types) then synonyms else None;
      NamesPairsValue(ops, syn, f.names, val);
      var remaining := if f.names == [] then RemoveIf(types, cls.skipIfUnnamed) else types;
      if remaining != [] && CategoryPairs(cls, scales, remaining, val).Success? {
        CategoryEmissionRule(cls, scales, remaining, val);
      }
    }
  }

  /** `FeatureInserter`: the synonyms holder (built only for world maps), the
      shared pair vector, the catalog and the header's scale range. */
  class FeatureInserter {
    const synonyms: SynonymsHolder?
    const keyValuePairs: PairVector
    const categories: Classifier
    const scales: ScaleRange

    constructor (synonyms: SynonymsHolder?, keyValuePairs: PairVector, categories: Classifier, scales: ScaleRange)
      ensures this.synonyms == synonyms && this.keyValuePairs == keyValuePairs
      ensures this.categories == categories && this.scales == scales
    {
      this.synonyms := synonyms;
      this.keyValuePairs := keyValuePairs;
      this.categories := categories;
      this.scales := scales;
    }

    /** `operator()(f, index)`. Returns false when the CHECK on a drawable scale
        range fails, which aborts the process. */
    method Apply(ops: TextOps, f: Feature, index: nat) returns (ok: bool)
      modifies keyValuePairs
      ensures ok == FeaturePairs(ops, categories, SynonymsOf(synonyms), scales, f, index).Success?
      ensures ok ==> keyValuePairs.pairs
                       == old(keyValuePairs.pairs) + FeaturePairs(ops, categories, SynonymsOf(synonyms), scales, f, index).value
    {
      var types := RemoveIf(f.types, categories.skipType);
      if types == [] {
        assert keyValuePairs.pairs == old(keyValuePairs.pairs) + [];
        return true;
      }
      var administrative := categories.isCountryOrState(types);
      var inserter := new FeatureNameInserter(if administrative then synonyms else null, keyValuePairs);
      inserter.val := MakeValue(index);
      var named := ForEachNameRef(ops, f, inserter);
      if !named {
        types := RemoveIf(types, categories.skipIfUnnamed);
      }
      ghost var syn := if administrative then SynonymsOf(synonyms) else None;
      ghost var namePairs := NamesPairs(ops, syn, f.names, inserter.val);
      assert keyValuePairs.pairs == old(keyValuePairs.pairs) + namePairs;
      if types == [] {
        return true;
      }
      ghost var base := keyValuePairs.pairs;
      assert CategoryPairs(categories, scales, types[..0], inserter.val) == Success([]);
      for i := 0 to |types|
        invariant inserter.keyValuePairs == keyValuePairs && inserter.val == MakeValue(index)
        invariant CategoryPairs(categories, scales, types[..i], inserter.val).Success?
        invariant keyValuePairs.pairs == base + CategoryPairs(categories, scales, types[..i], inserter.val).value
      {
        CategoryPairsSnoc(categories, scales, types, i, inserter.val);
        var t := categories.truncTo2(types[i]);
        if categories.isTypeExist(t) {
          var r := categories.drawableScaleRange(t);
          if !RangeValid(r) {
            CategoryFailurePersists(categories, scales, types, i + 1, inserter.val);
            return false;
          }
          if Intersects(r, scales) {
            AppendStep(base, CategoryPairs(categories, scales, types[..i], inserter.val).value,
                       [CategoryPair(categories, t, inserter.val)],
                       CategoryPairs(categories, scales, types[..i + 1], inserter.val).value);
            inserter.AddToken(ToSignedChar(CATEGORIES_LANG), categories.categoryToken(t));
          }
        }
      }
      assert types[..|types|] == types;
      ghost var categoryPairs := CategoryPairs(categories, scales, types, inserter.val).value;
      assert FeaturePairs(ops, categories, SynonymsOf(synonyms), scales, f, index) == Success(namePairs + categoryPairs);
      AppendStep(old(keyValuePairs.pairs), namePairs, categoryPairs, namePairs + categoryPairs);
      return true;
    }
  }

  /** `FeatureType::ForEachNameRef(inserter)`: feeds every name to the inserter and
      reports whether the feature has names at all. */
  method ForEachNameRef(ops: TextOps, f: Feature, inserter: FeatureNameInserter) returns (named: bool)
    modifies inserter.keyValuePairs
    ensures named == (f.names != [])
    ensures inserter.keyValuePairs.pairs
              == old(inserter.keyValuePairs.pairs) + NamesPairs(ops, SynonymsOf(inserter.synonyms), f.names, inserter.val)
  {
    if f.names == [] {
      assert inserter.keyValuePairs.pairs == old(inserter.keyValuePairs.pairs) + [];
      return false;
    }
    ghost var syn := SynonymsOf(inserter.synonyms);
    assert inserter.keyValuePairs.pairs == old(inserter.keyValuePairs.pairs) + NamesPairs(ops, syn, f.names[..0], inserter.val);
    for i := 0 to |f.names|
      invariant syn == SynonymsOf(inserter.synonyms)
      invariant inserter.keyValuePairs.pairs == old(inserter.keyValuePairs.pairs) + NamesPairs(ops, syn, f.names[..i], inserter.val)
    {
      NamesPairsSnoc(ops, syn, f.names, i, inserter.val);
      AppendStep(old(inserter.keyValuePairs.pairs), NamesPairs(ops, syn, f.names[..i], inserter.val),
                 NamePairs(ops, syn, f.names[i].lang, f.names[i].text, inserter.val),
                 NamesPairs(ops, syn, f.names[..i + 1], inserter.val));
      var more := inserter.Insert(ops, f.names[i].lang, f.names[i].text);
      if !more {
        break;
      }
    }
    assert f.names[..|f.names|] == f.names;
    return true;
  }
}

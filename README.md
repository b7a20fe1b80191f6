# Search index construction of an omim map file

This project is a Dafny model of how omim builds the search index of a map
(`.mwm`) file, in `indexer/search_index_builder.cpp`:

- **`SynonymsHolder`** reads the synonyms file into a multimap from a canonical
  name to its alternates. `ForEach` enumerates the alternates filed under one
  exact name.
- **`FeatureNameInserter`** turns one name of a feature into key/value pairs.
  It normalizes and splits the name, then appends the synonyms of the raw name.
  It caps the result at `MAX_TOKENS - 1` tokens and appends one pair per token.
  The pair's key is the language byte followed by the token.
- **`FeatureInserter`** is the per-feature rule:
  - skip types, and stop if none remain;
  - consult synonyms only for countries and states;
  - insert the names;
  - for an unnamed feature, skip the empty-name types;
  - emit one category pseudo-token (language 128) per catalogued, visible
    type, and abort the build (`CHECK`) on an invalid drawable scale range.
- **`AddFeatureNameIndexPairs` / `BuildSearchIndex`** collect the pairs of
  every feature in index order. Synonyms are loaded only for the world map.
  The pairs are then sorted in place and grouped into the trie. The trie is
  modelled as a map from each key to the multiset of its values.
- **`BuildSearchIndexFromDataFile`** returns at once when the index section
  exists and no rebuild is forced. Otherwise it:
  - builds the index into a temporary file `<name>.sdx.tmp` in the writable
    directory;
  - copies the bytes, reversed, into the map's `sdx` section;
  - deletes the temporary file on every return;
  - maps reader and writer exceptions to `false`.

## How the model is organised

- **Modules.** One module per part of the source:
  - `Synonyms`, `NameInserter`, `FeatureInserter`, `SearchIndexBuilder` and
    `DataFileBuilder`;
  - `Keys` (key construction and the pair order);
  - `PairSort` (the in-place sort);
  - `Trie` (the abstract trie);
  - `Text` (the tokenizer and trimming the synonyms file reader relies on);
  - `Outcomes` (Option and Result).
- **Code that mutates state** is modelled imperatively:
  - the synonyms holder, the inserters and the shared pair vector are classes;
  - the sort works on an `array`;
  - the file system and the map container are a `Storage` object with a map
    of files and a map of sections.
- **Each method is proved against a function of its inputs.** Examples:
  - `ParseLines` for the holder;
  - `NamePairs` for one name;
  - `FeaturePairs` for one feature;
  - `MapPairs` for a whole map;
  - `Group` for the trie;
  - `ExpectedOutcome` and `RebuildEffect` for the file entry point.

  The lemmas state what the source promises about those functions.
- **Calls into code the index builder does not define** are fields of function
  type, passed in as parameters:
  - `TextOps`: `NormalizeAndSimplifyString`, `SplitUniString` with
    `Delimiters`, and `MAX_TOKENS`;
  - `Classifier`: `TypesSkipper`, `TruncValue`, `CategoriesHolder::IsTypeExist`,
    `GetDrawableScaleRange` and `FeatureTypeToString`;
  - the trie serializer (`serialize`).

  The lines of the synonyms file, the features of the map and the point where
  an I/O exception occurs (`Fault`) are parameters too.

## Model

| member | source | states |
|---|---|---|
| Synonyms.SynonymsHolder.constructor | indexer/search_index_builder.cpp:53-81 | reading the lines in order leaves exactly the entries `ParseLines` gives for them |
| Synonyms.SynonymsHolder.AddLine | indexer/search_index_builder.cpp:62-79 | one line appends exactly `ParseLine(line)` to the entries already stored, keeping them unchanged |
| Synonyms.SynonymsHolder.ForEach | indexer/search_index_builder.cpp:84-94 | the callback receives exactly the synonyms stored under exactly `key`, once per entry, in stored order |
| Synonyms.ParseFormattedLine | indexer/search_index_builder.cpp:63-79 | a line `name:s1,...,sn` yields one entry per synonym: the trimmed synonym under the trimmed name, in order |
| Synonyms.CommaLineAccepted | indexer/search_index_builder.cpp:67-77 | a comma-only line `a,b` is accepted and files `Trim(b)` under `Trim(a)` |
| Synonyms.LineWithoutSeparatorIgnored | indexer/search_index_builder.cpp:63-69 | a line with no `:` or `,` (one piece at most, or empty) adds nothing |
| Synonyms.MalformedLineSkipped | indexer/search_index_builder.cpp:60-80 | a line of fewer than two pieces leaves the entries of the lines around it as if it were absent |
| Synonyms.ParseLinesAppend | indexer/search_index_builder.cpp:60-80 | the entries of two blocks of lines are the entries of the first followed by those of the second |
| Synonyms.ValuesOfCounts | indexer/search_index_builder.cpp:84-94 | each synonym is enumerated for a key exactly as often as the (key, synonym) entry is stored |
| Synonyms.UnknownKeyHasNoValues | indexer/search_index_builder.cpp:88-93 | a key with no entry gives no callback at all |
| Text.TokensWellFormed | indexer/search_index_builder.cpp:67 | the pieces of a line are non-empty and contain neither `:` nor `,` |
| Text.TokenizeJoin | indexer/search_index_builder.cpp:67 | splitting the separator-joined non-empty pieces gives the pieces back |
| Text.TokenizeAtSeparator | indexer/search_index_builder.cpp:67 | splitting at a separator is splitting each side |
| Text.TrimShape | indexer/search_index_builder.cpp:71-74 | a trimmed piece is the middle of the piece, with only whitespace cut from either end and no whitespace left at its ends |
| Text.TrimIdempotent | indexer/search_index_builder.cpp:71-74 | trimming twice is trimming once |
| Keys.KeyRoundTrip | indexer/search_index_builder.cpp:109-117 | the key is one longer than the token, starts with `uint8(lang)`, and language and token can be read back from it |
| Keys.KeyInjective | indexer/search_index_builder.cpp:111-114 | different (language, token) pairs give different keys |
| Keys.ByteConversionsRoundTrip | indexer/search_index_builder.cpp:113 | the `signed char` to `uint8_t` cast is a bijection |
| Keys.CategoryKeyByte | indexer/search_index_builder.cpp:256-257 | the categories language 128 is the signed char -128, and its keys start with code point 128 |
| Keys.PairLeTotal | indexer/search_index_builder.cpp:391 | the pair order `sort` uses is total |
| Keys.PairLeAntisymmetric | indexer/search_index_builder.cpp:391 | the pair order is antisymmetric |
| Keys.PairLeTransitive | indexer/search_index_builder.cpp:391 | the pair order is transitive |
| NameInserter.FeatureNameInserter.AddToken | indexer/search_index_builder.cpp:109-117 | exactly one pair `(MakeKey(lang, s), val)` is appended and the earlier pairs are unchanged |
| NameInserter.FeatureNameInserter.CollectTokens | indexer/search_index_builder.cpp:137-152 | the token buffer is the split normalized name, then the normalized synonyms of the raw name, cut to its leading `MAX_TOKENS - 1` |
| NameInserter.FeatureNameInserter.Insert | indexer/search_index_builder.cpp:135-158 | returns true and appends exactly `NamePairs` for the name after the pairs already collected |
| NameInserter.NamePairsShape | indexer/search_index_builder.cpp:135-158 | one name yields as many pairs as its split tokens and synonyms together, but at most `MAX_TOKENS - 1`, all in its language with the inserter's value, split tokens first and synonyms after |
| NameInserter.SynonymsByRawName | indexer/search_index_builder.cpp:144-145 | synonyms are looked up by the raw name and normalized one by one; a name with no entry gets exactly the tokens it gets without synonyms |
| FeatureInserter.RemoveIf | indexer/search_index_builder.cpp:222 | type skipping keeps exactly the types the test does not remove, and never adds one |
| FeatureInserter.IntersectsIffCommonScale | indexer/search_index_builder.cpp:254 | the test `r.second >= scales.first && r.first <= scales.second` holds exactly when some scale lies in both ranges |
| FeatureInserter.CategoryFailureRule | indexer/search_index_builder.cpp:241-253 | the build aborts exactly when some catalogued truncated type has a range with `first > second` or `first == -1` |
| FeatureInserter.CategoryEmissionRule | indexer/search_index_builder.cpp:241-260 | otherwise one category pair per catalogued truncated type whose range meets the header's, in type order, and no other pair |
| FeatureInserter.CategoryKeyStartsWith128 | indexer/search_index_builder.cpp:256-257 | a category pair's key is code point 128 followed by the category token |
| FeatureInserter.SkippedFeatureContributesNothing | indexer/search_index_builder.cpp:222-224 | a feature whose types are all skipped contributes no pair, not even its names |
| FeatureInserter.UnnamedFeatureWithoutTypesContributesNothing | indexer/search_index_builder.cpp:232-236 | an unnamed feature left with no type once empty-name types are skipped contributes no pair |
| FeatureInserter.SynonymsOnlyForCountriesAndStates | indexer/search_index_builder.cpp:228-229 | for a feature that is not a country or state, the synonyms have no effect on its pairs |
| FeatureInserter.FeaturePairsValue | indexer/search_index_builder.cpp:185-189 | every pair a feature contributes carries that feature's index |
| FeatureInserter.FeatureInserter.Apply | indexer/search_index_builder.cpp:216-261 | fails exactly when `FeaturePairs` does (the CHECK), and otherwise appends exactly `FeaturePairs` after the pairs already collected |
| FeatureInserter.ForEachNameRef | indexer/search_index_builder.cpp:233 | reports whether the feature has names, and appends the pairs of every name in order |
| SearchIndexBuilder.SynonymsOnlyForWorld | indexer/search_index_builder.cpp:272-274 | for a map other than the world map, the collected pairs are the same whatever the synonyms file holds |
| SearchIndexBuilder.AddFeatureNameIndexPairs | indexer/search_index_builder.cpp:265-277 | succeeds exactly when `MapPairs` does, and then appends the pairs of every feature in index order after the pairs already there |
| SearchIndexBuilder.CollectedFailsIffSomeFeatureFails | indexer/search_index_builder.cpp:276-277 | collection fails exactly when the CHECK fails on some feature |
| SearchIndexBuilder.FailingFeature | indexer/search_index_builder.cpp:276-277 | a failed collection names a feature, below the feature count, whose CHECK fails |
| SearchIndexBuilder.CollectedPairsInFeatureOrder | indexer/search_index_builder.cpp:276-277 | the collected pairs run in non-decreasing feature index, each index below the number of features |
| SearchIndexBuilder.CollectedContainsFeature | indexer/search_index_builder.cpp:276-277 | when collection succeeds, every pair of every feature is among the collected pairs |
| SearchIndexBuilder.BuildSearchIndex | indexer/search_index_builder.cpp:372-398 | no trie exactly when collection fails; otherwise the trie groups exactly the collected pairs |
| SearchIndexBuilder.EveryPairInTrie | indexer/search_index_builder.cpp:388-395 | every collected pair is found in the trie under its key |
| SearchIndexBuilder.TrieValuesReferToFeatures | indexer/search_index_builder.cpp:388-395 | every value stored in the trie names a feature of the map |
| SearchIndexBuilder.FeatureFoundUnderItsKeys | indexer/search_index_builder.cpp:388-395 | each key a feature contributes leads in the trie to that feature's value |
| PairSort.SortPairs | indexer/search_index_builder.cpp:391 | the vector ends up ordered and a permutation of what it held |
| PairSort.SortedUnique | indexer/search_index_builder.cpp:391 | two ordered arrangements of the same pairs are equal, so the sorted vector depends only on which pairs were collected |
| PairSort.EqualKeysContiguous | indexer/search_index_builder.cpp:391-395 | in the sorted vector, pairs with one key are contiguous |
| PairSort.AdjacentToSorted | indexer/search_index_builder.cpp:391 | neighbours in order make the whole vector ordered |
| Trie.Build | indexer/search_index_builder.cpp:394-395 | building from the sorted vector one run of equal keys at a time gives `Group` of the pairs |
| Trie.GroupCounts | indexer/search_index_builder.cpp:394-395 | the trie stores each value under a key exactly as often as the pair occurs |
| Trie.GroupKeysCarryValues | indexer/search_index_builder.cpp:394-395 | a key is present exactly when it carries at least one value |
| Trie.PairFound | indexer/search_index_builder.cpp:394-395 | every pair's key is present and holds its value |
| Trie.GroupPermutation | indexer/search_index_builder.cpp:391-395 | the trie depends only on the multiset of pairs, so sorting does not change it |
| Trie.RunKeyIsNew | indexer/search_index_builder.cpp:391-395 | in the sorted vector a key that starts a new run has not been seen before |
| DataFileBuilder.BuildSearchIndexFromDataFile | indexer/search_index_builder.cpp:331-370 | an exception opening the map propagates and changes nothing; an existing section without a forced rebuild returns true and changes nothing; otherwise the run is `Rebuild`'s |
| DataFileBuilder.Rebuild | indexer/search_index_builder.cpp:343-369 | the outcome is `ExpectedOutcome`; the temporary file is gone after every return; the section is written only on success, and then holds the reversed serialized trie of the collected pairs |
| DataFileBuilder.IndexAndCopy | indexer/search_index_builder.cpp:349-356 | the same, once the empty temporary file exists |
| DataFileBuilder.ExpectedOutcome | indexer/search_index_builder.cpp:345-369 | true exactly when no exception occurs and no CHECK fails; process abort exactly when the features are read and a CHECK fails; never a propagated exception |
| DataFileBuilder.AfterLast | indexer/search_index_builder.cpp:340-341 | the position after the last matching character; no character after it matches |
| DataFileBuilder.NameFromFullPathShape | indexer/search_index_builder.cpp:340 | the base name is the path's end after its last `/` or `\` and contains neither |
| DataFileBuilder.NameWithoutExtShape | indexer/search_index_builder.cpp:341 | the stem is a prefix of the name; what is dropped is the last `.` and what follows it |
| DataFileBuilder.TempIndexFileIgnoresDirectoryAndExtension | indexer/search_index_builder.cpp:339-342 | the temporary file is `<writable dir><name>.sdx.tmp`, whatever the map's directory and extension |
| DataFileBuilder.ReverseAt | indexer/search_index_builder.cpp:355 | byte `i` of the section is byte `n - 1 - i` of the temporary file |
| DataFileBuilder.ReverseInvolution | indexer/search_index_builder.cpp:355 | reversing twice gives the bytes back |

## Left out

- The address and reverse-geocoder loop of `AddFeatureNameIndexPairs`
  (indexer/search_index_builder.cpp:279-323) is not modelled. Its match rate
  (floating point) is only logged and does not feed the index. But the loop
  runs inside the `try` block of `BuildSearchIndexFromDataFile`: it reads
  the `SEARCH_TOKENS_FILE_TAG` section and features, and a
  `Reader::Exception` there makes the entry point return false although the
  collection succeeded. The model has no separate fault for that path. Its
  outcome and its effect on files and sections are those of a
  `TempReadFails` run: false, temporary file removed, sections unchanged.
- `ValueBuilder<FeatureWithRankAndCenter>` (indexer/search_index_builder.cpp:164-178)
  is not modelled. `BuildSearchIndex` does not use it, and it computes
  geometry and rank in floating point.
- The trie's byte layout, `SingleValueSerializer` and the coding parameters
  are not modelled. `serialize` stands for `trie::Build`'s output as a
  function of the grouped trie. `indexer/search_trie.hpp` is not part of this
  model except for the constant 128 of the categories language.
- `strings::Tokenize` and `strings::Trim` are not part of this model. They are
  modelled concretely as assumptions:
  - `Tokenize` splits on `:` and `,` and drops empty pieces;
  - `Trim` strips white space, as `isspace` classifies it in the C locale,
    from both ends.
- Normalization, splitting, `Delimiters`, `TypesSkipper`, the classificator
  and `CategoriesHolder` are parameters. Their contents are not modelled.
- `MAX_TOKENS` is a positive parameter.
- `my::GetNameFromFullPath`, `my::GetNameWithoutExt` and `rw_ops::Reverse` are
  not part of this model. They are modelled from their documented behaviour.
  `WritablePathForFile` is modelled as prefixing the writable directory.
- The `unordered_multimap` is a sequence of entries in insertion order; the
  C++ container may enumerate equal keys in another order. Which synonyms
  survive the `MAX_TOKENS - 1` cap of a name with too many tokens
  (indexer/search_index_builder.cpp:148-151) depends on that order, so the
  model fixes one of the possible results. `ForEach`
  returns the sequence of callback arguments instead of calling a callback.
- The debug-only `ASSERT` that synonyms contain no whitespace
  (indexer/search_index_builder.cpp:76) is not modelled. It does not change
  the result in release builds.
- Logging, timers and the index-size log line are left out.
- The synonyms file is read as a sequence of lines. A missing file is no
  lines. The final-line behaviour of `getline` on the stream is not modelled.
- File and container I/O:
  - Only the abstract state is modelled: a map from file path to bytes and a
    map from section tag to bytes.
  - An I/O exception is a single fault point per run (`Fault`).
  - Only `Reader::Exception` and `Writer::Exception` inside the `try` block
    are modelled. An exception of any other type thrown there would leave
    the function, with the scope guard deleting the temporary file; the
    model has no such fault, so `ExpectedOutcome` never yields `Propagated`.
  - Partial writes on failure are not modelled.
  - The map file is read as a whole (`MwmData`) before any exception point.
- A failed `CHECK` ends the process. It is modelled as the outcome `Aborted`.
  That outcome leaves the empty temporary file behind, because no scope guard
  runs.
- The `uint32_t` feature index and the `size_t` token counts are unbounded
  integers. Maps with more than 2^32 features are out of scope.
- `FeatureInserter.ForEachNameRef`:
  - names are a sequence in the order the feature enumerates them;
  - its result is "the feature has names", as the call returns;
  - the skip of empty-name types follows the code: it happens when the feature
    has no names at all, not when its names yield no tokens.

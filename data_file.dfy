// `BuildSearchIndexFromDataFile`: build the search index of a map file into a
// temporary file, then copy it, byte-reversed, into the file's index section.
module DataFileBuilder {
  import opened Outcomes
  import opened Keys
  import opened NameInserter
  import opened FeatureInserter
  import opened Trie
  import opened SearchIndexBuilder

  /** `SEARCH_INDEX_FILE_TAG`, the name of the index section. */
  const SEARCH_INDEX_FILE_TAG: string := "sdx"

  predicate IsPathSeparator(c: char) {
    c == '/' || c == '\\'
  }

  /** The position just after the last character of `s` satisfying `p` (0 if none). */
  function AfterLast(s: string, p: char -> bool): (n: nat)
    ensures n <= |s|
    ensures n > 0 ==> p(s[n - 1])
    ensures forall i :: n <= i < |s| ==> !p(s[i])
    decreases |s|
  {
    if s == [] then 0
    else if p(s[|s| - 1]) then |s|
    else AfterLast(s[..|s| - 1], p)
  }

  /** `my::GetNameFromFullPath`: what follows the last `/` or `\`. */
  function NameFromFullPath(path: string): string {
    path[AfterLast(path, IsPathSeparator)..]
  }

  /** `my::GetNameWithoutExt`: the name without its last `.` and what follows. */
  function NameWithoutExt(name: string): string {
    var n := AfterLast(name, c => c == '.');
    if n == 0 then name else name[..n - 1]
  }

  /** The base name is the end of the path after its last separator, and has none. */
  lemma NameFromFullPathShape(path: string)
    ensures var name := NameFromFullPath(path);
            |name| <= |path| && name == path[|path| - |name|..] &&
            (forall i :: 0 <= i < |name| ==> !IsPathSeparator(name[i])) &&
            (|name| < |path| ==> IsPathSeparator(path[|path| - |name| - 1]))
  {
    var n := AfterLast(path, IsPathSeparator);
    assert forall i :: 0 <= i < |path| - n ==> path[n..][i] == path[n + i];
  }

  /** Dropping the extension keeps a prefix of the name; what it drops is a `.`
      followed by no other `.`, and a name without `.` is kept whole. */
  lemma NameWithoutExtShape(name: string)
    ensures var stem := NameWithoutExt(name);
            |stem| <= |name| && stem == name[..|stem|] &&
            (stem == name ==> forall i :: 0 <= i < |name| ==> name[i] != '.') &&
            (stem != name ==> name[|stem|] == '.' && forall i :: |stem| < i < |name| ==> name[i] != '.')
  {
  }

  /** `WritablePathForFile(mwmName + "." + SEARCH_INDEX_FILE_TAG + ".tmp")`. */
  function TempIndexFile(writableDir: string, filename: string): string {
    writableDir + (NameWithoutExt(NameFromFullPath(filename)) + "." + SEARCH_INDEX_FILE_TAG + ".tmp")
  }

  /** Two maps whose names differ only in directory and extension share one
      temporary file. */
  lemma TempIndexFileIgnoresDirectoryAndExtension(writableDir: string, dir1: string, dir2: string,
                                                  name: string, ext1: string, ext2: string)
    requires forall i :: 0 <= i < |name| ==> !IsPathSeparator(name[i]) && name[i] != '.'
    requires forall i :: 0 <= i < |ext1| ==> !IsPathSeparator(ext1[i]) && ext1[i] != '.'
    requires forall i :: 0 <= i < |ext2| ==> !IsPathSeparator(ext2[i]) && ext2[i] != '.'
    ensures TempIndexFile(writableDir, dir1 + "/" + name + "." + ext1)
         == TempIndexFile(writableDir, dir2 + "/" + name + "." + ext2)
         == writableDir + name + ".sdx.tmp"
  {
    BaseAndStem(dir1, name, ext1);
    BaseAndStem(dir2, name, ext2);
  }

  lemma BaseAndStem(dir: string, name: string, ext: string)
    requires forall i :: 0 <= i < |name| ==> !IsPathSeparator(name[i]) && name[i] != '.'
    requires forall i :: 0 <= i < |ext| ==> !IsPathSeparator(ext[i]) && ext[i] != '.'
    ensures NameWithoutExt(NameFromFullPath(dir + "/" + name + "." + ext)) == name
  {
    var path := dir + "/" + name + "." + ext;
    var tail := name + "." + ext;
    assert path == (dir + "/") + tail;
    AfterLastOfTail(dir + "/", tail, IsPathSeparator);
    assert NameFromFullPath(path) == tail;
    AfterLastOfTail(name + ".", ext, c => c == '.');
  }

  /** When the last match lies in `head` at its end and `tail` has none, the search
      stops right after `head`. */
  lemma {:induction false} AfterLastOfTail(head: string, tail: string, p: char -> bool)
    requires head != [] && p(head[|head| - 1])
    requires forall i :: 0 <= i < |tail| ==> !p(tail[i])
    ensures AfterLast(head + tail, p) == |head|
    decreases |tail|
  {
    if tail == [] {
      assert head + tail == head;
    } else {
      assert (head + tail)[..|head + tail| - 1] == head + tail[..|tail| - 1];
      AfterLastOfTail(head, tail[..|tail| - 1], p);
    }
  }

  /** `rw_ops::Reverse`: the bytes in reverse order. */
  function Reverse(s: seq<Byte>): (r: seq<Byte>)
    ensures |r| == |s|
    decreases |s|
  {
    if s == [] then [] else [s[|s| - 1]] + Reverse(s[..|s| - 1])
  }

  lemma {:induction false} ReverseAt(s: seq<Byte>, i: nat)
    requires i < |s|
    ensures Reverse(s)[i] == s[|s| - 1 - i]
    decreases |s|
  {
    if i > 0 {
      ReverseAt(s[..|s| - 1], i - 1);
    }
  }

  /** Reversing twice gives the bytes back: the reader of the section can undo the copy. */
  lemma ReverseInvolution(s: seq<Byte>)
    ensures Reverse(Reverse(s)) == s
  {
    forall i | 0 <= i < |s| ensures Reverse(Reverse(s))[i] == s[i] {
      ReverseAt(Reverse(s), i);
      ReverseAt(s, |s| - 1 - i);
    }
  }

  /** Where an I/O exception strikes in one run of the entry point, if anywhere. */
  datatype Fault =
    | NoFault
    | ContainerOpenFails   // opening the map file for reading (outside the try block)
    | TempOpenFails        // creating the temporary index file
    | FeatureReadFails     // reading the map's sections while building
    | TempReadFails        // reading the temporary file back for the copy
    | SectionWriteFails    // writing the index section of the map file

  /** How a run ends: a returned value, a CHECK that aborts the process, or an
      exception that leaves the function. */
  datatype Outcome = Returned(success: bool) | Aborted | Propagated

  /** The files of the writable directory and the sections of the map file. */
  class Storage {
    var files: map<string, seq<Byte>>
    var sections: map<string, seq<Byte>>

    constructor (files: map<string, seq<Byte>>, sections: map<string, seq<Byte>>)
      ensures this.files == files && this.sections == sections
    {
      this.files := files;
      this.sections := sections;
    }

    /** `FileWriter::DeleteFileX`. */
    method DeleteFile(path: string)
      modifies this
      ensures files == old(files) - {path} && sections == old(sections)
    {
      files := files - {path};
    }

    /** Creating (or truncating) a file, then writing `contents` to it. */
    method WriteFile(path: string, contents: seq<Byte>)
      modifies this
      ensures files == old(files)[path := contents] && sections == old(sections)
    {
      files := files[path := contents];
    }

    /** `FilesContainerW::GetWriter(tag)` and the bytes written through it. */
    method WriteSection(tag: string, contents: seq<Byte>)
      modifies this
      ensures sections == old(sections)[tag := contents] && files == old(files)
    {
      sections := sections[tag := contents];
    }
  }

  /** The bytes a successful rebuild puts into the index section. */
  function IndexSection(serialize: TrieMap -> seq<Byte>, trie: TrieMap): seq<Byte> {
    Reverse(serialize(trie))
  }

  /** Whether a run goes past the short-circuit: no index section yet, or a forced rebuild. */
  predicate Rebuilds(sections: map<string, seq<Byte>>, forceRebuild: bool) {
    SEARCH_INDEX_FILE_TAG !in sections || forceRebuild
  }

  /** `indexer::BuildSearchIndexFromDataFile(filename, forceRebuild)`.  The map's
      contents are `data`, its synonyms file `synonymLines`; `serialize` is
      `trie::Build`'s byte output and `fault` says where an I/O exception occurs. */
  method BuildSearchIndexFromDataFile(ops: TextOps, cls: Classifier, data: MwmData, synonymLines: seq<string>,
                                      serialize: TrieMap -> seq<Byte>, writableDir: string, filename: string,
                                      forceRebuild: bool, fault: Fault, storage: Storage)
    returns (outcome: Outcome)
    modifies storage
    ensures outcome == Propagated <==> fault == ContainerOpenFails
    ensures outcome == Propagated ==> storage.files == old(storage.files) && storage.sections == old(storage.sections)
    ensures fault != ContainerOpenFails && !Rebuilds(old(storage.sections), forceRebuild) ==>
              outcome == Returned(true) &&
              storage.files == old(storage.files) && storage.sections == old(storage.sections)
    ensures fault != ContainerOpenFails && Rebuilds(old(storage.sections), forceRebuild) ==>
              outcome == ExpectedOutcome(fault, MapPairs(ops, cls, data, synonymLines)) &&
              RebuildEffect(serialize, TempIndexFile(writableDir, filename), MapPairs(ops, cls, data, synonymLines),
                            outcome, old(storage.files), old(storage.sections), storage.files, storage.sections)
  {
    if fault == ContainerOpenFails {
      return Propagated;
    }
    if SEARCH_INDEX_FILE_TAG in storage.sections && !forceRebuild {
      return Returned(true);
    }
    var indexFilePath := TempIndexFile(writableDir, filename);
    outcome := Rebuild(ops, cls, data, synonymLines, serialize, indexFilePath, fault, storage);
  }

  /** How a run that goes past the short-circuit ends: an exception before the
      features are read maps to false; otherwise a failed CHECK aborts the process;
      otherwise an exception in the copy maps to false; otherwise it succeeds. */
  function ExpectedOutcome(fault: Fault, collected: Result<seq<Pair>, TypeCode>): (o: Outcome)
    requires fault != ContainerOpenFails
    ensures o == Returned(true) <==> fault == NoFault && collected.Success?
    ensures o == Aborted <==> fault != TempOpenFails && fault != FeatureReadFails && collected.Failure?
    ensures o != Propagated
  {
    if fault == TempOpenFails || fault == FeatureReadFails then Returned(false)
    else if collected.Failure? then Aborted
    else if fault == TempReadFails || fault == SectionWriteFails then Returned(false)
    else assert fault == NoFault; Returned(true)
  }

  /** The files and sections a run past the short-circuit leaves behind. */
  ghost predicate RebuildEffect(serialize: TrieMap -> seq<Byte>, indexFilePath: string,
                                collected: Result<seq<Pair>, TypeCode>, outcome: Outcome,
                                files0: map<string, seq<Byte>>, sections0: map<string, seq<Byte>>,
                                files: map<string, seq<Byte>>, sections: map<string, seq<Byte>>)
  {
    // the scope guard removes the temporary file on every return ...
    (outcome.Returned? ==> files == files0 - {indexFilePath}) &&
    // ... but not when a CHECK aborts the process, which leaves it created and empty
    (outcome == Aborted ==> files == files0[indexFilePath := []]) &&
    // the map file changes only on success, and then only in the index section
    (outcome != Returned(true) ==> sections == sections0) &&
    (outcome == Returned(true) ==>
       collected.Success? &&
       sections == sections0[SEARCH_INDEX_FILE_TAG := IndexSection(serialize, Group(collected.value))])
  }

  /** The `try` block with its two `catch` clauses, under the scope guard that deletes
      the temporary file. */
  method Rebuild(ops: TextOps, cls: Classifier, data: MwmData, synonymLines: seq<string>,
                 serialize: TrieMap -> seq<Byte>, indexFilePath: string, fault: Fault, storage: Storage)
    returns (outcome: Outcome)
    requires fault != ContainerOpenFails
    modifies storage
    ensures outcome == ExpectedOutcome(fault, MapPairs(ops, cls, data, synonymLines))
    ensures RebuildEffect(serialize, indexFilePath, MapPairs(ops, cls, data, synonymLines), outcome,
                          old(storage.files), old(storage.sections), storage.files, storage.sections)
  {
    if fault == TempOpenFails {
      storage.DeleteFile(indexFilePath);
      return Returned(false);
    }
    storage.WriteFile(indexFilePath, []);
    if fault == FeatureReadFails {
      storage.DeleteFile(indexFilePath);
      return Returned(false);
    }
    ghost var created := storage.files;
    outcome := IndexAndCopy(ops, cls, data, synonymLines, serialize, indexFilePath, fault, storage);
    assert created - {indexFilePath} == old(storage.files) - {indexFilePath};
  }

  /** The part of the `try` block after the empty temporary file exists: build the
      index, write it to the temporary file, copy it reversed into the map file. */
  method IndexAndCopy(ops: TextOps, cls: Classifier, data: MwmData, synonymLines: seq<string>,
                      serialize: TrieMap -> seq<Byte>, indexFilePath: string, fault: Fault, storage: Storage)
    returns (outcome: Outcome)
    requires fault in {NoFault, TempReadFails, SectionWriteFails}
    requires indexFilePath in storage.files && storage.files[indexFilePath] == []
    modifies storage
    ensures outcome == ExpectedOutcome(fault, MapPairs(ops, cls, data, synonymLines))
    ensures RebuildEffect(serialize, indexFilePath, MapPairs(ops, cls, data, synonymLines), outcome,
                          old(storage.files), old(storage.sections), storage.files, storage.sections)
  {
    var trie := BuildSearchIndex(ops, cls, data, synonymLines);
    if trie.None? {
      assert storage.files == old(storage.files)[indexFilePath := []];
      return Aborted;
    }
    storage.WriteFile(indexFilePath, serialize(trie.value));
    if fault == TempReadFails || fault == SectionWriteFails {
      storage.DeleteFile(indexFilePath);
      return Returned(false);
    }
    storage.WriteSection(SEARCH_INDEX_FILE_TAG, Reverse(storage.files[indexFilePath]));
    storage.DeleteFile(indexFilePath);
    return Returned(true);
  }
}

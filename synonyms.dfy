/** SynonymsHolder (indexer/search_index_builder.cpp): the synonyms file read into
    a multimap from a canonical name to its alternates, and the lookup of every
    alternate stored under one exact name. */
module Synonyms {
  import opened Text

  /** One multimap entry: (canonical name, synonym). */
  type Entry = (string, string)

  /** The entries one line of the synonyms file contributes: nothing for an empty
      line or a line with fewer than two pieces; otherwise one entry per later
      piece, each under the trimmed first piece. */
  function ParseLine(line: string): seq<Entry> {
    if line == [] then []
    else
      var tokens := Tokenize(line);
      if |tokens| > 1 then Filed(Trim(tokens[0]), tokens[1..]) else []
  }

  /** Each piece, trimmed, as a synonym of `name`. */
  function Filed(name: string, pieces: seq<string>): (r: seq<Entry>)
    ensures |r| == |pieces|
  {
    seq(|pieces|, i requires 0 <= i < |pieces| => (name, Trim(pieces[i])))
  }

  /** The multimap after reading `lines` in order. */
  function ParseLines(lines: seq<string>): seq<Entry>
    decreases |lines|
  {
    if lines == [] then []
    else ParseLines(lines[..|lines| - 1]) + ParseLine(lines[|lines| - 1])
  }

  /** The synonyms stored under exactly `key`, in insertion order. */
  function ValuesOf(entries: seq<Entry>, key: string): seq<string>
    decreases |entries|
  {
    if entries == [] then []
    else
      var last := entries[|entries| - 1];
      ValuesOf(entries[..|entries| - 1], key) + (if last.0 == key then [last.1] else [])
  }

  /** The canonical form of a synonyms line: the name, ':' and the synonyms
      separated by ','. */
  function FormatLine(name: string, synonyms: seq<string>): string {
    name + [':'] + Join(synonyms, ',')
  }

  /** Reading a line in the canonical form gives back one entry per synonym, in
      order, each trimmed and filed under the trimmed name. */
  lemma ParseFormattedLine(name: string, synonyms: seq<string>)
    requires name != [] && NoSeparator(name)
    requires synonyms != []
    requires forall i :: 0 <= i < |synonyms| ==> synonyms[i] != [] && NoSeparator(synonyms[i])
    ensures |ParseLine(FormatLine(name, synonyms))| == |synonyms|
    ensures forall i :: 0 <= i < |synonyms| ==>
              ParseLine(FormatLine(name, synonyms))[i] == (Trim(name), Trim(synonyms[i]))
  {
    var line := FormatLine(name, synonyms);
    TokenizeAtSeparator(name, ':', Join(synonyms, ','));
    TokenizeWord(name);
    TokenizeJoin(synonyms, ',');
    assert Tokenize(line) == [name] + synonyms;
  }

  /** A line with only a ',' between two names is accepted like one with ':'. */
  lemma CommaLineAccepted(name: string, synonym: string)
    requires name != [] && NoSeparator(name)
    requires synonym != [] && NoSeparator(synonym)
    ensures ParseLine(name + [','] + synonym) == [(Trim(name), Trim(synonym))]
  {
    TokenizeAtSeparator(name, ',', synonym);
    TokenizeWord(name);
    TokenizeWord(synonym);
  }

  /** A line without any separator is ignored. */
  lemma LineWithoutSeparatorIgnored(line: string)
    requires NoSeparator(line)
    ensures ParseLine(line) == []
  {
    if line != [] {
      TokenizeWord(line);
    }
  }

  /** Reading two parts of a file one after the other. */
  lemma {:induction false} ParseLinesAppend(a: seq<string>, b: seq<string>)
    ensures ParseLines(a + b) == ParseLines(a) + ParseLines(b)
    decreases |b|
  {
    if b != [] {
      var b' := b[..|b| - 1];
      assert (a + b)[..|a + b| - 1] == a + b';
      assert (a + b)[|a + b| - 1] == b[|b| - 1];
      ParseLinesAppend(a, b');
      var pa, pb, last := ParseLines(a), ParseLines(b'), ParseLine(b[|b| - 1]);
      assert ParseLines(a + b) == (pa + pb) + last;
      assert ParseLines(b) == pb + last;
      assert (pa + pb) + last == pa + (pb + last);
    } else {
      assert a + b == a;
    }
  }

  /** A malformed line, one of fewer than two pieces (an empty line, a line without
      separator, or one such as "abc:" or "::"), does not disturb the lines around it. */
  lemma MalformedLineSkipped(before: seq<string>, line: string, after: seq<string>)
    requires |Tokenize(line)| < 2
    ensures ParseLines(before + [line] + after) == ParseLines(before) + ParseLines(after)
  {
    ParseLinesAppend(before + [line], after);
    ParseLinesAppend(before, [line]);
    ParseLinesSnoc([line], 0);
    assert [line][..0] == [];
    var pb, pa := ParseLines(before), ParseLines(after);
    assert ParseLines([line]) == [];
    assert ParseLines(before + [line]) == pb + [];
    assert pb + [] == pb;
  }

  /** Reading one more line appends that line's entries. */
  lemma ParseLinesSnoc(lines: seq<string>, n: nat)
    requires n < |lines|
    ensures ParseLines(lines[..n + 1]) == ParseLines(lines[..n]) + ParseLine(lines[n])
  {
    assert lines[..n + 1][..n] == lines[..n];
  }

  lemma FiledSnoc(name: string, pieces: seq<string>, k: nat)
    requires k < |pieces|
    ensures Filed(name, pieces[..k + 1]) == Filed(name, pieces[..k]) + [(name, Trim(pieces[k]))]
  {
  }

  /** Every stored entry with exactly `key` is visited once, and no other entry. */
  lemma {:induction false} ValuesOfCounts(entries: seq<Entry>, key: string)
    ensures forall v :: multiset(ValuesOf(entries, key))[v] == multiset(entries)[(key, v)]
    decreases |entries|
  {
    if entries != [] {
      var init := entries[..|entries| - 1];
      ValuesOfCounts(init, key);
      assert entries == init + [entries[|entries| - 1]];
    }
  }

  /** A name with no entry has no synonyms. */
  lemma {:induction false} UnknownKeyHasNoValues(entries: seq<Entry>, key: string)
    requires forall i :: 0 <= i < |entries| ==> entries[i].0 != key
    ensures ValuesOf(entries, key) == []
    decreases |entries|
  {
    if entries != [] {
      var init := entries[..|entries| - 1];
      assert forall i :: 0 <= i < |init| ==> init[i] == entries[i];
      UnknownKeyHasNoValues(init, key);
    }
  }

  /** `unordered_multimap<string, string>` of canonical name to synonym. Its entries
      are kept in insertion order, one of the orders the multimap may enumerate. */
  class SynonymsHolder {
    var entries: seq<Entry>

    /** Reads the lines of the synonyms file; a missing file reads as no lines. */
    constructor (lines: seq<string>)
      ensures entries == ParseLines(lines)
    {
      entries := [];
      new;
      var n := 0;
      while n < |lines|
        invariant 0 <= n <= |lines|
        invariant entries == ParseLines(lines[..n])
      {
        ParseLinesSnoc(lines, n);
        AddLine(lines[n]);
        n := n + 1;
      }
      assert lines[..n] == lines;
    }

    /** The body of the constructor's read loop: one line of the file. */
    method AddLine(line: string)
      modifies this
      ensures entries == old(entries) + ParseLine(line)
    {
      if line == [] {
        return;
      }
      var tokens := Tokenize(line);
      if |tokens| > 1 {
        var name := Trim(tokens[0]);
        ghost var pieces := tokens[1..];
        for i := 1 to |tokens|
          invariant entries == old(entries) + Filed(name, pieces[..i - 1])
        {
          var synonym := Trim(tokens[i]);
          FiledSnoc(name, pieces, i - 1);
          entries := entries + [(name, synonym)];
        }
        assert pieces[..|tokens| - 1] == pieces;
      }
    }

    /** Enumerates the synonyms stored under exactly `key`; the result is the
        sequence of arguments the callback receives. */
    method ForEach(key: string) returns (visited: seq<string>)
      ensures visited == ValuesOf(entries, key)
    {
      visited := [];
      for i := 0 to |entries|
        invariant visited == ValuesOf(entries[..i], key)
      {
        assert entries[..i + 1][..i] == entries[..i];
        if entries[i].0 == key {
          visited := visited + [entries[i].1];
        }
      }
      assert entries[..|entries|] == entries;
    }
  }
}

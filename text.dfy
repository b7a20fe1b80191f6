/** The two string helpers of base/string_utils that the synonyms loader uses:
    `strings::Tokenize(line, ":,", ...)` and `strings::Trim`. Both are calls into
    code outside the index builder; they are modelled here by the behaviour the
    loader relies on: Tokenize splits at every ':' or ',' and never reports an
    empty piece, Trim strips white space from both ends. */
module Text {

  /** The delimiter set ":," the synonyms loader passes to the tokenizer. */
  predicate IsSeparator(c: char) {
    c == ':' || c == ','
  }

  /** White space as `isspace` classifies it in the "C" locale. */
  predicate IsSpace(c: char) {
    c == ' ' || c == '\t' || c == '\n' || c == '\r' || c == '\U{000B}' || c == '\U{000C}'
  }

  predicate NoSeparator(s: string) {
    forall i :: 0 <= i < |s| ==> !IsSeparator(s[i])
  }

  predicate AllSpace(s: string) {
    forall i :: 0 <= i < |s| ==> IsSpace(s[i])
  }

  /** Index of the first separator of `s`, or `|s|` when there is none. */
  function FirstSeparator(s: string): (k: nat)
    ensures k <= |s|
    ensures NoSeparator(s[..k])
    ensures k < |s| ==> IsSeparator(s[k])
  {
    if s == [] || IsSeparator(s[0]) then 0 else 1 + FirstSeparator(s[1..])
  }

  /** The pieces of `s` between separators, empty pieces dropped. */
  function Tokenize(s: string): (tokens: seq<string>)
    decreases |s|
  {
    var k := FirstSeparator(s);
    var head := if k == 0 then [] else [s[..k]];
    if k == |s| then head else head + Tokenize(s[k + 1..])
  }

  /** The position that has no separator before it and a separator (or the end)
      at it is the first separator. */
  lemma {:induction false} FirstSeparatorAt(s: string, k: nat)
    requires k <= |s|
    requires forall i :: 0 <= i < k ==> !IsSeparator(s[i])
    requires k < |s| ==> IsSeparator(s[k])
    ensures FirstSeparator(s) == k
  {
    if k > 0 {
      assert forall i :: 0 <= i < k - 1 ==> s[1..][i] == s[i + 1];
      FirstSeparatorAt(s[1..], k - 1);
    }
  }

  /** Every token is non-empty and holds no separator. */
  lemma {:induction false} TokensWellFormed(s: string)
    ensures forall i :: 0 <= i < |Tokenize(s)| ==> Tokenize(s)[i] != [] && NoSeparator(Tokenize(s)[i])
    decreases |s|
  {
    var k := FirstSeparator(s);
    if k < |s| {
      TokensWellFormed(s[k + 1..]);
    }
  }

  /** A separator-free, non-empty string is a single token. */
  lemma TokenizeWord(s: string)
    requires s != [] && NoSeparator(s)
    ensures Tokenize(s) == [s]
  {
    FirstSeparatorAt(s, |s|);
    assert s[..|s|] == s;
  }

  /** Tokenizing splits at a separator: the tokens of `a + [c] + b` are those of `a`
      followed by those of `b`, whatever `a` and `b` are. */
  lemma {:induction false} TokenizeAtSeparator(a: string, c: char, b: string)
    requires IsSeparator(c)
    ensures Tokenize(a + [c] + b) == Tokenize(a) + Tokenize(b)
    decreases |a|
  {
    var done, w, rest := TokenizeStep(a, c, b);
    if !done {
      TokenizeAtSeparator(rest, c, b);
      ConcatRegroup(Tokenize(a + [c] + b), Tokenize(a), Tokenize(b), Tokenize(w), Tokenize(rest), Tokenize(rest + [c] + b));
    }
  }

  lemma ConcatRegroup<T>(whole: seq<T>, left: seq<T>, right: seq<T>, w: seq<T>, rest: seq<T>, tail: seq<T>)
    requires whole == w + tail && left == w + rest && tail == rest + right
    ensures whole == left + right
  {
  }

  /** One step of the split: either `a` holds no separator, or it is a word, a
      separator and a shorter rest. */
  lemma TokenizeStep(a: string, c: char, b: string) returns (done: bool, w: string, rest: string)
    requires IsSeparator(c)
    ensures done ==> Tokenize(a + [c] + b) == Tokenize(a) + Tokenize(b)
    ensures !done ==> |rest| < |a|
    ensures !done ==> Tokenize(a + [c] + b) == Tokenize(w) + Tokenize(rest + [c] + b)
    ensures !done ==> Tokenize(a) == Tokenize(w) + Tokenize(rest)
  {
    var ka := FirstSeparator(a);
    done := ka == |a|;
    w, rest := a[..ka], if done then [] else a[ka + 1..];
    if done {
      TokenizeLastWord(a, c, b);
    } else {
      TokenizeFirstWord(a, c, b);
    }
  }

  /** The separator-free prefix of `a` stays the first word when more text follows. */
  lemma FirstSeparatorOfLonger(a: string, c: char, b: string)
    requires IsSeparator(c)
    ensures FirstSeparator(a + [c] + b) == FirstSeparator(a)
  {
    var s := a + [c] + b;
    var ka := FirstSeparator(a);
    forall i | 0 <= i < ka
      ensures !IsSeparator(s[i])
    {
      assert s[i] == a[..ka][i];
    }
    FirstSeparatorAt(s, ka);
  }

  lemma TokenizeLastWord(a: string, c: char, b: string)
    requires IsSeparator(c) && FirstSeparator(a) == |a|
    ensures Tokenize(a + [c] + b) == Tokenize(a) + Tokenize(b)
  {
    var s := a + [c] + b;
    FirstSeparatorOfLonger(a, c, b);
    assert s[..|a|] == a == a[..|a|];
    assert s[|a| + 1..] == b;
  }

  lemma TokenizeFirstWord(a: string, c: char, b: string)
    requires IsSeparator(c) && FirstSeparator(a) < |a|
    ensures Tokenize(a + [c] + b) == Tokenize(a[..FirstSeparator(a)]) + Tokenize(a[FirstSeparator(a) + 1..] + [c] + b)
    ensures Tokenize(a) == Tokenize(a[..FirstSeparator(a)]) + Tokenize(a[FirstSeparator(a) + 1..])
  {
    var s := a + [c] + b;
    var ka := FirstSeparator(a);
    FirstSeparatorOfLonger(a, c, b);
    assert s[..ka] == a[..ka];
    assert s[ka + 1..] == a[ka + 1..] + [c] + b;
    if ka > 0 {
      TokenizeWord(a[..ka]);
    }
  }

  /** `words` joined with the separator `sep` between consecutive words. */
  function Join(words: seq<string>, sep: char): string
  {
    if words == [] then []
    else if |words| == 1 then words[0]
    else words[0] + [sep] + Join(words[1..], sep)
  }

  /** Tokenize undoes Join for non-empty, separator-free words. */
  lemma {:induction false} TokenizeJoin(words: seq<string>, sep: char)
    requires IsSeparator(sep)
    requires forall i :: 0 <= i < |words| ==> words[i] != [] && NoSeparator(words[i])
    ensures Tokenize(Join(words, sep)) == words
  {
    if words == [] {
    } else if |words| == 1 {
      TokenizeWord(words[0]);
    } else {
      TokenizeWord(words[0]);
      TokenizeJoin(words[1..], sep);
      TokenizeAtSeparator(words[0], sep, Join(words[1..], sep));
      assert [words[0]] + words[1..] == words;
    }
  }

  /** `s` without its leading white space. */
  function TrimLeft(s: string): string {
    if s != [] && IsSpace(s[0]) then TrimLeft(s[1..]) else s
  }

  /** `s` without its trailing white space. */
  function TrimRight(s: string): string {
    if s != [] && IsSpace(s[|s| - 1]) then TrimRight(s[..|s| - 1]) else s
  }

  /** `strings::Trim`: white space removed from both ends. */
  function Trim(s: string): string {
    TrimRight(TrimLeft(s))
  }

  /** TrimLeft keeps a suffix of `s` and drops only white space before it. */
  lemma {:induction false} TrimLeftShape(s: string)
    ensures |TrimLeft(s)| <= |s| && TrimLeft(s) == s[|s| - |TrimLeft(s)|..]
    ensures AllSpace(s[..|s| - |TrimLeft(s)|])
    ensures TrimLeft(s) == [] || !IsSpace(TrimLeft(s)[0])
  {
    if s != [] && IsSpace(s[0]) {
      TrimLeftShape(s[1..]);
      var k := |s| - |TrimLeft(s)|;
      assert s[..k] == [s[0]] + s[1..][..k - 1];
    }
  }

  /** TrimRight keeps a prefix of `s` and drops only white space after it. */
  lemma {:induction false} TrimRightShape(s: string)
    ensures |TrimRight(s)| <= |s| && TrimRight(s) == s[..|TrimRight(s)|]
    ensures AllSpace(s[|TrimRight(s)|..])
    ensures TrimRight(s) == [] || !IsSpace(TrimRight(s)[|TrimRight(s)| - 1])
  {
    if s != [] && IsSpace(s[|s| - 1]) {
      var init := s[..|s| - 1];
      TrimRightShape(init);
      var k := |TrimRight(s)|;
      assert s[k..] == init[k..] + [s[|s| - 1]];
    }
  }

  /** Trim keeps a contiguous middle part of `s`, removes only white space around
      it, and leaves no white space at either end. */
  lemma TrimShape(s: string) returns (i: nat, j: nat)
    ensures i <= j <= |s| && Trim(s) == s[i..j]
    ensures AllSpace(s[..i]) && AllSpace(s[j..])
    ensures Trim(s) == [] || (!IsSpace(Trim(s)[0]) && !IsSpace(Trim(s)[|Trim(s)| - 1]))
  {
    var l := TrimLeft(s);
    TrimLeftShape(s);
    TrimRightShape(l);
    var r := TrimRight(l);
    i := |s| - |l|;
    j := i + |r|;
    assert r == s[i..j];
    assert s[j..] == l[|r|..];
    if r != [] {
      assert r[0] == l[0];
    }
  }

  /** Trimming twice is trimming once. */
  lemma TrimIdempotent(s: string)
    ensures Trim(Trim(s)) == Trim(s)
  {
    var t := Trim(s);
    var _, _ := TrimShape(s);
    TrimLeftShape(t);
    TrimRightShape(t);
    if t != [] {
      assert TrimLeft(t) == t;
      assert TrimRight(t) == t;
    }
  }
}

/**
 * A model of lodash's `camelCase`, the identifier rule used throughout the
 * converter. A word is a maximal run of ASCII letters and digits; every other
 * character separates words. The first word is lower-cased, every later word
 * is lower-cased with its first letter upper-cased, and the words are joined
 * with nothing between them.
 */
module Lodash {
  import opened Strings

  predicate IsLower(c: char) { 'a' <= c <= 'z' }
  predicate IsUpper(c: char) { 'A' <= c <= 'Z' }
  predicate IsDigit(c: char) { '0' <= c <= '9' }
  predicate IsAlnum(c: char) { IsLower(c) || IsUpper(c) || IsDigit(c) }

  /** Every character of `s` is a letter or a digit. */
  predicate AllAlnum(s: string) {
    forall i :: 0 <= i < |s| ==> IsAlnum(s[i])
  }

  /** A word as lodash would already have produced it: lower-case letters and digits. */
  predicate IsLowerWord(w: string) {
    w != [] && AllAlnum(w) && forall i :: 0 <= i < |w| ==> !IsUpper(w[i])
  }

  function ToLower(c: char): (r: char)
    ensures IsAlnum(c) ==> IsAlnum(r)
    ensures !IsUpper(c) ==> r == c
  {
    if IsUpper(c) then (c as int + 32) as char else c
  }

  function ToUpper(c: char): (r: char)
    ensures IsAlnum(c) ==> IsAlnum(r)
    ensures IsLower(c) ==> IsUpper(r)
  {
    if IsLower(c) then (c as int - 32) as char else c
  }

  function LowerString(s: string): (r: string)
    ensures |r| == |s|
    ensures forall i :: 0 <= i < |s| ==> r[i] == ToLower(s[i])
    ensures AllAlnum(s) ==> AllAlnum(r)
  {
    seq(|s|, i requires 0 <= i < |s| => ToLower(s[i]))
  }

  /** lodash `capitalize`: lower-case the word, then upper-case its first character. */
  function Capitalize(w: string): (r: string)
    ensures |r| == |w|
    ensures AllAlnum(w) ==> AllAlnum(r)
  {
    if w == [] then [] else [ToUpper(ToLower(w[0]))] + LowerString(w[1..])
  }

  /** Length of the run of letters and digits at the start of `s`. */
  function WordLength(s: string): (n: nat)
    ensures n <= |s|
    ensures forall i :: 0 <= i < n ==> IsAlnum(s[i])
    ensures n < |s| ==> !IsAlnum(s[n])
  {
    if s != [] && IsAlnum(s[0]) then 1 + WordLength(s[1..]) else 0
  }

  /** The words of `s`: its maximal runs of letters and digits, in order. */
  function Words(s: string): (ws: seq<string>)
    ensures forall k :: 0 <= k < |ws| ==> ws[k] != [] && AllAlnum(ws[k])
    decreases |s|
  {
    if s == [] then []
    else if !IsAlnum(s[0]) then Words(s[1..])
    else
      var n := WordLength(s);
      [s[..n]] + Words(s[n..])
  }

  /** Joins words the camelCase way; `first` says whether `ws[0]` is the leading word. */
  function CamelWords(ws: seq<string>, first: bool): (r: string)
    requires forall k :: 0 <= k < |ws| ==> AllAlnum(ws[k])
    ensures AllAlnum(r)
  {
    if ws == [] then ""
    else (if first then LowerString(ws[0]) else Capitalize(ws[0])) + CamelWords(ws[1..], false)
  }

  /** lodash `camelCase` */
  function CamelCase(s: string): (r: string)
    ensures AllAlnum(r)
  {
    CamelWords(Words(s), true)
  }

  /** The words of a word followed by a separator and more text. */
  lemma {:induction false} WordsCons(w: string, c: char, rest: string)
    requires w != [] && AllAlnum(w) && !IsAlnum(c)
    ensures Words(w + [c] + rest) == [w] + Words(rest)
  {
    var s := w + [c] + rest;
    WordLengthOf(w, [c] + rest);
    assert s[..|w|] == w;
    assert s[|w|..] == [c] + rest;
    assert ([c] + rest)[1..] == rest;
  }

  lemma {:induction false} WordLengthOf(w: string, t: string)
    requires AllAlnum(w) && (t == [] || !IsAlnum(t[0]))
    ensures WordLength(w + t) == |w|
    decreases |w|
  {
    if w != [] {
      assert (w + t)[1..] == w[1..] + t;
      WordLengthOf(w[1..], t);
    } else {
      assert w + t == t;
    }
  }

  /** A single word is its own only word. */
  lemma WordsSingle(w: string)
    requires w != [] && AllAlnum(w)
    ensures Words(w) == [w]
  {
    WordLengthOf(w, []);
    assert w + [] == w;
  }

  /** Joining words with one separator character and splitting into words again gives the words back. */
  lemma {:induction false} WordsOfJoin(ws: seq<string>, c: char)
    requires forall k :: 0 <= k < |ws| ==> ws[k] != [] && AllAlnum(ws[k])
    requires !IsAlnum(c)
    ensures Words(Join(ws, [c])) == ws
  {
    if |ws| == 1 {
      WordsSingle(ws[0]);
    } else if |ws| > 1 {
      WordsOfJoin(ws[1..], c);
      WordsCons(ws[0], c, Join(ws[1..], [c]));
      assert ws == [ws[0]] + ws[1..];
    }
  }

  /** A lower-case word is left unchanged by the case mapping. */
  lemma LowerWordFixed(w: string)
    requires IsLowerWord(w)
    ensures LowerString(w) == w
  {
  }

  /** An already lower-case word is its own camelCase. */
  lemma CamelCaseOfWord(w: string)
    requires IsLowerWord(w)
    ensures CamelCase(w) == w
  {
    WordsSingle(w);
    LowerWordFixed(w);
    assert CamelWords([w], true) == LowerString(w) + CamelWords([], false);
  }

  /** Kebab-case of lower-case words: the first stays, every later one is capitalised. */
  lemma CamelCaseOfKebab(ws: seq<string>)
    requires forall k :: 0 <= k < |ws| ==> IsLowerWord(ws[k])
    ensures forall k :: 0 <= k < |ws| ==> AllAlnum(ws[k])
    ensures CamelCase(Join(ws, "-")) == CamelWords(ws, true)
  {
    WordsOfJoin(ws, '-');
  }

  /** Only the words matter: any single separator character gives the same camelCase. */
  lemma CamelCaseSeparatorFree(ws: seq<string>, c: char, d: char)
    requires forall k :: 0 <= k < |ws| ==> ws[k] != [] && AllAlnum(ws[k])
    requires !IsAlnum(c) && !IsAlnum(d)
    ensures CamelCase(Join(ws, [c])) == CamelCase(Join(ws, [d]))
  {
    WordsOfJoin(ws, c);
    WordsOfJoin(ws, d);
  }

  /** A string with no letters or digits has an empty camelCase. */
  lemma {:induction false} CamelCaseOfSeparators(s: string)
    requires forall i :: 0 <= i < |s| ==> !IsAlnum(s[i])
    ensures CamelCase(s) == ""
  {
    NoWords(s);
  }

  lemma {:induction false} NoWords(s: string)
    requires forall i :: 0 <= i < |s| ==> !IsAlnum(s[i])
    ensures Words(s) == []
    decreases |s|
  {
    if s != [] {
      NoWords(s[1..]);
    }
  }

  /** A leading separator character has no say in the camelCase: `.form-group` gives what `form-group` gives. */
  lemma CamelCaseSkipsSeparator(c: char, s: string)
    requires !IsAlnum(c)
    ensures CamelCase([c] + s) == CamelCase(s)
  {
    assert ([c] + s)[1..] == s;
  }
}


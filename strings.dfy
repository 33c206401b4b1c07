/**
 * The JavaScript string operations the converter relies on:
 * `startsWith`, `indexOf`/`includes`, `split` with a string separator,
 * `Array.prototype.join` and `trim`.
 */
module Strings {

  /** Concatenation is associative; stated once so that proofs about folds need not rediscover it. */
  lemma {:induction false} Assoc(x: string, y: string, z: string)
    ensures (x + y) + z == x + (y + z)
  {
  }

  lemma {:induction false} PrefixOfConcat(x: string, y: string)
    ensures StartsWith(x + y, x)
  {
    assert (x + y)[..|x|] == x;
  }

  lemma {:induction false} InPair(x: string, y: string, c: char)
    ensures c in x + y <==> c in x || c in y
  {
  }

  lemma {:induction false} InConcat(x: string, y: string, z: string, c: char)
    ensures c in x + y + z <==> c in x || c in y || c in z
  {
  }

  /** `s.startsWith(p)` */
  predicate StartsWith(s: string, p: string) {
    |p| <= |s| && s[..|p|] == p
  }

  /** `sep` occurs in `s` at index `i`. */
  predicate OccursAt(s: string, sep: string, i: int) {
    0 <= i && i + |sep| <= |s| && s[i..i + |sep|] == sep
  }

  /** `s.indexOf(sep)` for a non-empty `sep`: the first occurrence, or -1. */
  function IndexOf(s: string, sep: string): (r: int)
    requires |sep| > 0
    ensures r == -1 || 0 <= r <= |s| - |sep|
    ensures r >= 0 ==> OccursAt(s, sep, r)
    decreases |s|
  {
    if |s| < |sep| then -1
    else if s[..|sep|] == sep then 0
    else
      var r := IndexOf(s[1..], sep);
      if r == -1 then -1 else r + 1
  }

  /** No occurrence comes before the one `IndexOf` finds, and -1 means there is none. */
  lemma {:induction false} IndexOfFirst(s: string, sep: string)
    requires |sep| > 0
    ensures forall i :: 0 <= i < IndexOf(s, sep) ==> !OccursAt(s, sep, i)
    ensures IndexOf(s, sep) == -1 ==> forall i :: 0 <= i <= |s| - |sep| ==> !OccursAt(s, sep, i)
    decreases |s|
  {
    if |s| >= |sep| && s[..|sep|] != sep {
      IndexOfFirst(s[1..], sep);
      OccursShifted(s, sep);
    }
  }

  lemma {:induction false} OccursShifted(s: string, sep: string)
    requires |s| > 0
    ensures forall i {:trigger OccursAt(s, sep, i)} :: 1 <= i ==> (OccursAt(s, sep, i) <==> OccursAt(s[1..], sep, i - 1))
  {
    forall i | 1 <= i
      ensures OccursAt(s, sep, i) <==> OccursAt(s[1..], sep, i - 1)
    {
      if i + |sep| <= |s| {
        assert s[1..][i - 1..i - 1 + |sep|] == s[i..i + |sep|];
      }
    }
  }

  lemma {:induction false} OccursInPrefix(s: string, sep: string, n: nat, j: int)
    requires n <= |s| && OccursAt(s[..n], sep, j)
    ensures OccursAt(s, sep, j)
  {
    assert s[..n][j..j + |sep|] == s[j..j + |sep|];
  }

  /** `s.includes(sep)` */
  predicate Contains(s: string, sep: string)
    requires |sep| > 0
  {
    IndexOf(s, sep) >= 0
  }

  lemma {:induction false} ContainsIffOccurs(s: string, sep: string)
    requires |sep| > 0
    ensures Contains(s, sep) <==> exists i :: OccursAt(s, sep, i)
  {
    IndexOfFirst(s, sep);
    if Contains(s, sep) {
      assert OccursAt(s, sep, IndexOf(s, sep));
    }
  }

  /** `y` occurs in `x + y + z` where `x` ends. */
  lemma {:induction false} ContainsMiddle(x: string, y: string, z: string)
    requires |y| > 0
    ensures Contains(x + y + z, y)
  {
    assert (x + y + z)[|x|..|x| + |y|] == y;
    assert OccursAt(x + y + z, y, |x|);
    ContainsIffOccurs(x + y + z, y);
  }

  /** Every character of a separator that occurs in `s` is a character of `s`. */
  lemma {:induction false} ContainedChars(s: string, sep: string, c: char)
    requires |sep| > 0
    ensures Contains(s, sep) && c in sep ==> c in s
  {
    if Contains(s, sep) && c in sep {
      var i := IndexOf(s, sep);
      var k :| 0 <= k < |sep| && sep[k] == c;
      assert s[i..i + |sep|][k] == c;
    }
  }

  /** A separator whose first character is absent from `s` does not occur in it. */
  lemma {:induction false} AbsentFirstChar(s: string, sep: string)
    requires |sep| > 0 && sep[0] !in s
    ensures !Contains(s, sep)
  {
  }

  /** `s.split(sep)` for a non-empty string separator. */
  function Split(s: string, sep: string): (parts: seq<string>)
    requires |sep| > 0
    ensures |parts| >= 1
    decreases |s|
  {
    var i := IndexOf(s, sep);
    if i < 0 then [s] else [s[..i]] + Split(s[i + |sep|..], sep)
  }

  /** `parts.join(sep)` */
  function Join(parts: seq<string>, sep: string): string {
    if parts == [] then ""
    else if |parts| == 1 then parts[0]
    else parts[0] + sep + Join(parts[1..], sep)
  }

  /** Splitting and joining again on the same separator gives back the string. */
  lemma {:induction false} JoinSplit(s: string, sep: string)
    requires |sep| > 0
    ensures Join(Split(s, sep), sep) == s
    decreases |s|
  {
    var i := IndexOf(s, sep);
    if i >= 0 {
      var head, rest := s[..i], s[i + |sep|..];
      var tail := Split(rest, sep);
      JoinSplit(rest, sep);
      SplitFound(s, sep, i);
      JoinCons(head, tail, sep);
      SplitAround(s, sep, i);
    }
  }

  lemma {:induction false} JoinCons(head: string, tail: seq<string>, sep: string)
    requires |tail| >= 1
    ensures Join([head] + tail, sep) == head + sep + Join(tail, sep)
  {
    assert ([head] + tail)[1..] == tail;
  }

  lemma {:induction false} SplitAround(s: string, sep: string, i: int)
    requires OccursAt(s, sep, i)
    ensures s == s[..i] + sep + s[i + |sep|..]
  {
    assert s == s[..i] + s[i..i + |sep|] + s[i + |sep|..];
  }

  /** No part of a split contains the separator. */
  lemma {:induction false} SplitPartsFree(s: string, sep: string)
    requires |sep| > 0
    ensures forall k :: 0 <= k < |Split(s, sep)| ==> !Contains(Split(s, sep)[k], sep)
    decreases |s|
  {
    var i := IndexOf(s, sep);
    if i < 0 {
    } else {
      SplitPartsFree(s[i + |sep|..], sep);
      var head := s[..i];
      IndexOfFirst(s, sep);
      if Contains(head, sep) {
        OccursInPrefix(s, sep, i, IndexOf(head, sep));
      }
    }
  }

  /** The part in front of the first occurrence of the separator. */
  function Before(s: string, sep: string): string
    requires |sep| > 0
  {
    var i := IndexOf(s, sep);
    if i < 0 then s else s[..i]
  }

  /** Everything after the first occurrence of the separator ("" when it does not occur). */
  function After(s: string, sep: string): string
    requires |sep| > 0
  {
    var i := IndexOf(s, sep);
    if i < 0 then "" else s[i + |sep|..]
  }

  /** The first two parts of a split, as JavaScript's `const [a, b] = s.split(sep)` reads them. */
  lemma {:induction false} SplitFirstTwo(s: string, sep: string)
    requires |sep| > 0
    ensures Split(s, sep)[0] == Before(s, sep)
    ensures |Split(s, sep)| >= 2 <==> Contains(s, sep)
    ensures Contains(s, sep) ==> Split(s, sep)[1] == Before(After(s, sep), sep)
  {
  }

  /** Joining the tail of a split gives everything after the first separator. */
  lemma {:induction false} JoinTail(s: string, sep: string)
    requires |sep| > 0
    ensures Join(Split(s, sep)[1..], sep) == After(s, sep)
  {
    var i := IndexOf(s, sep);
    if i >= 0 {
      JoinTailFound(s, sep, i);
    }
  }

  lemma {:induction false} JoinTailFound(s: string, sep: string, i: nat)
    requires |sep| > 0 && IndexOf(s, sep) == i
    ensures Join(Split(s, sep)[1..], sep) == s[i + |sep|..]
  {
    var rest := s[i + |sep|..];
    SplitAt(s, sep, i, s[..i], rest);
    ConsTail(s[..i], Split(rest, sep), Split(s, sep));
    JoinSplit(rest, sep);
  }

  lemma {:induction false} ConsTail(h: string, tail: seq<string>, a: seq<string>)
    requires a == [h] + tail
    ensures a[1..] == tail
  {
  }

  /** The whitespace `String.prototype.trim` removes (its ASCII part). */
  predicate IsSpace(c: char) {
    c == ' ' || c == '\t' || c == '\n' || c == '\r' || c == '\U{0B}' || c == '\U{0C}'
  }

  function TrimStart(s: string): (r: string)
    ensures |r| <= |s| && r == s[|s| - |r|..]
    ensures r != [] ==> !IsSpace(r[0])
    ensures forall i :: 0 <= i < |s| - |r| ==> IsSpace(s[i])
  {
    if s != [] && IsSpace(s[0]) then TrimStart(s[1..]) else s
  }

  function TrimEnd(s: string): (r: string)
    ensures |r| <= |s| && r == s[..|r|]
    ensures r != [] ==> !IsSpace(r[|r| - 1])
    ensures forall i :: |r| <= i < |s| ==> IsSpace(s[i])
  {
    if s != [] && IsSpace(s[|s| - 1]) then TrimEnd(s[..|s| - 1]) else s
  }

  /** `s.trim()` */
  function Trim(s: string): string {
    TrimEnd(TrimStart(s))
  }

  /** A trimmed string neither starts nor ends with whitespace, and is a slice of the input. */
  lemma {:induction false} TrimBounds(s: string)
    ensures var r := Trim(s);
      (r != [] ==> !IsSpace(r[0]) && !IsSpace(r[|r| - 1]))
      && exists i, j :: 0 <= i <= j <= |s| && r == s[i..j]
  {
    var t := TrimStart(s);
    var r := TrimEnd(t);
    assert r == s[|s| - |t|..][..|r|];
    assert r == s[|s| - |t|..|s| - |t| + |r|];
  }

  /** The first occurrence of a separator, when its first character is absent before it. */
  lemma {:induction false} IndexOfGlued(a: string, sep: string, b: string)
    requires |sep| > 0 && sep[0] !in a
    ensures IndexOf(a + sep + b, sep) == |a|
  {
    var s := a + sep + b;
    assert s[|a|..|a| + |sep|] == sep;
    forall j | 0 <= j < |a|
      ensures !OccursAt(s, sep, j)
    {
    }
    assert OccursAt(s, sep, |a|);
    IndexOfFirst(s, sep);
  }

  /** A string in which the separator does not occur splits into itself. */
  lemma {:induction false} SplitAbsent(s: string, sep: string)
    requires |sep| > 0 && !Contains(s, sep)
    ensures Split(s, sep) == [s]
  {
  }

  /** Splitting a string whose leading part is free of the separator's first character. */
  lemma {:induction false} SplitGlued(a: string, sep: string, b: string)
    requires |sep| > 0 && sep[0] !in a
    ensures Split(a + sep + b, sep) == [a] + Split(b, sep)
  {
    IndexOfGlued(a, sep, b);
    var s := a + sep + b;
    assert s[..|a|] == a;
    assert s[|a| + |sep|..] == b;
  }


  /** An occurrence inside the middle piece of a concatenation is an occurrence in the whole. */
  lemma {:induction false} ContainsInPiece(a: string, b: string, c: string, sep: string)
    requires |sep| > 0 && Contains(b, sep)
    ensures Contains(a + b + c, sep)
  {
    var s := a + b + c;
    var i := IndexOf(b, sep);
    assert s[|a| + i..|a| + i + |sep|] == b[i..i + |sep|];
    assert OccursAt(s, sep, |a| + i);
    ContainsIffOccurs(s, sep);
  }

  /** Joining parts free of the separator's first character and splitting again gives the parts back. */
  lemma {:induction false} SplitJoin(parts: seq<string>, sep: string)
    requires |sep| > 0 && |parts| >= 1
    requires forall k :: 0 <= k < |parts| ==> sep[0] !in parts[k]
    ensures Split(Join(parts, sep), sep) == parts
  {
    if |parts| == 1 {
      AbsentFirstChar(parts[0], sep);
      SplitAbsent(parts[0], sep);
    } else {
      SplitJoin(parts[1..], sep);
      SplitGlued(parts[0], sep, Join(parts[1..], sep));
    }
  }

  /** A leading character that cannot start the separator shifts every occurrence by one. */
  lemma {:induction false} IndexOfCons(c: char, s: string, sep: string)
    requires |sep| > 0 && c != sep[0]
    ensures IndexOf([c] + s, sep) == (if IndexOf(s, sep) < 0 then -1 else IndexOf(s, sep) + 1)
  {
    var t := [c] + s;
    assert t[1..] == s;
    if |t| >= |sep| {
      assert t[..|sep|][0] == c;
    }
  }

  /** Such a character stays at the front of the first part of a split. */
  lemma {:induction false} SplitCons(c: char, s: string, sep: string)
    requires |sep| > 0 && c != sep[0]
    ensures Split([c] + s, sep) == [[c] + Split(s, sep)[0]] + Split(s, sep)[1..]
  {
    IndexOfCons(c, s, sep);
    var i := IndexOf(s, sep);
    if i >= 0 {
      SplitConsFound(c, s, sep, i);
    } else {
      var t := [c] + s;
      assert Split(t, sep) == [t];
      assert Split(s, sep) == [s];
    }
  }

  lemma {:induction false} SplitConsFound(c: char, s: string, sep: string, i: nat)
    requires |sep| > 0 && IndexOf(s, sep) == i && IndexOf([c] + s, sep) == i + 1
    ensures Split([c] + s, sep) == [[c] + Split(s, sep)[0]] + Split(s, sep)[1..]
  {
    var head, rest := s[..i], s[i + |sep|..];
    ConsSlices(c, s, i, |sep|);
    SplitAt([c] + s, sep, i + 1, [c] + head, rest);
    SplitAt(s, sep, i, head, rest);
    ConsParts(c, head, Split(rest, sep), Split([c] + s, sep), Split(s, sep));
  }

  lemma {:induction false} ConsSlices(c: char, s: string, i: nat, n: nat)
    requires i + n <= |s|
    ensures ([c] + s)[..i + 1] == [c] + s[..i]
    ensures ([c] + s)[i + 1 + n..] == s[i + n..]
  {
  }

  lemma {:induction false} ConsParts(c: char, h: string, tail: seq<string>, a: seq<string>, b: seq<string>)
    requires a == [[c] + h] + tail && b == [h] + tail
    ensures a == [[c] + b[0]] + b[1..]
  {
    assert b[0] == h && b[1..] == tail;
  }

  /** `SplitFound` with the two pieces named. */
  lemma {:induction false} SplitAt(s: string, sep: string, i: nat, head: string, rest: string)
    requires |sep| > 0 && IndexOf(s, sep) == i && head == s[..i] && rest == s[i + |sep|..]
    ensures Split(s, sep) == [head] + Split(rest, sep)
  {
    SplitFound(s, sep, i);
  }

  lemma {:induction false} SplitFound(s: string, sep: string, i: nat)
    requires |sep| > 0 && IndexOf(s, sep) == i
    ensures Split(s, sep) == [s[..i]] + Split(s[i + |sep|..], sep)
  {
  }
}


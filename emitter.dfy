/**
 * The table of named blocks that transform.js collects in `root.classes`
 * (a JavaScript `Map`, kept here as an association list in insertion
 * order), and the emitter that turns it into the module text: entries
 * sorted by source line, one `css` template per entry, and the import
 * header the flags ask for.
 */
module Emitter {
  import opened Wrappers
  import opened Strings

  /** `type` of a table entry. */
  datatype EntryKind = Class | Placeholder | Mixin

  /** A table entry: its kind, the collected CSS text, and the source line of its node. */
  datatype Entry = Entry(kind: EntryKind, contents: string, line: nat)

  /** The `Map` from identifier to entry, in insertion order. */
  type Table = seq<(string, Entry)>

  function Keys(t: Table): (ks: seq<string>)
    ensures |ks| == |t|
    ensures forall i :: 0 <= i < |t| ==> ks[i] == t[i].0
  {
    if t == [] then [] else [t[0].0] + Keys(t[1..])
  }

  /** No identifier occurs twice, as in a `Map`. */
  predicate UniqueKeys(t: Table) {
    forall i, j :: 0 <= i < j < |t| ==> t[i].0 != t[j].0
  }

  /** `map.get(k)` */
  function Lookup(t: Table, k: string): (r: Option<Entry>)
    ensures r.None? <==> k !in Keys(t)
    ensures r.Some? ==> (k, r.value) in t
  {
    if t == [] then None
    else if t[0].0 == k then Some(t[0].1)
    else Lookup(t[1..], k)
  }

  /**
   * `map.set(k, v)`: a key already present keeps its place and takes the new
   * entry; a new key goes at the end.
   */
  function MapSet(t: Table, k: string, v: Entry): (r: Table)
    ensures Lookup(r, k) == Some(v)
    ensures forall k' :: k' != k ==> Lookup(r, k') == Lookup(t, k')
  {
    if t == [] then [(k, v)]
    else if t[0].0 == k then [(k, v)] + t[1..]
    else [t[0]] + MapSet(t[1..], k, v)
  }

  /** Setting keeps the order of the keys and appends a new one. */
  lemma {:induction false} MapSetKeys(t: Table, k: string, v: Entry)
    ensures k in Keys(t) ==> Keys(MapSet(t, k, v)) == Keys(t)
    ensures k !in Keys(t) ==> Keys(MapSet(t, k, v)) == Keys(t) + [k]
  {
    if t != [] {
      if t[0].0 == k {
        assert ([(k, v)] + t[1..])[1..] == t[1..];
      } else {
        MapSetKeys(t[1..], k, v);
        var rest := MapSet(t[1..], k, v);
        assert ([t[0]] + rest)[1..] == rest;
      }
    }
  }

  /** Setting keeps the keys unique. */
  lemma {:induction false} MapSetUnique(t: Table, k: string, v: Entry)
    requires UniqueKeys(t)
    ensures UniqueKeys(MapSet(t, k, v))
  {
    MapSetKeys(t, k, v);
    var r := MapSet(t, k, v);
    var kt, kr := Keys(t), Keys(r);
    forall i, j | 0 <= i < j < |r|
      ensures r[i].0 != r[j].0
    {
      assert r[i].0 == kr[i] && r[j].0 == kr[j];
      if j < |t| {
        assert kr[i] == kt[i] && kr[j] == kt[j];
        assert t[i].0 == kt[i] && t[j].0 == kt[j];
      } else {
        assert k !in kt && kr == kt + [k];
        assert kr[j] == k && kr[i] == kt[i];
      }
    }
  }

  // Sorting: `Array.prototype.sort` with `a.line - b.line`, which is stable.

  /** Each entry is on a line no earlier than the one before it. */
  predicate SortedByLine(t: Table) {
    |t| <= 1 || (t[0].1.line <= t[1].1.line && SortedByLine(t[1..]))
  }

  /** In a sorted table an earlier entry is on a line no later than a later one. */
  lemma {:induction false} SortedPair(s: Table, i: nat, j: nat)
    requires SortedByLine(s)
    ensures i <= j < |s| ==> s[i].1.line <= s[j].1.line
  {
    if 0 < i <= j < |s| {
      SortedPair(s[1..], i - 1, j - 1);
    } else if i == 0 < j < |s| {
      SortedPair(s[1..], 0, j - 1);
    }
  }

  /** Puts `x` after every entry whose line is not greater than its own. */
  function Insert(x: (string, Entry), s: Table): (r: Table)
    ensures multiset(r) == multiset(s) + multiset{x}
    ensures |r| == |s| + 1
    ensures r[0] == x || (s != [] && r[0] == s[0])
  {
    if s == [] then [x]
    else if x.1.line < s[0].1.line then [x] + s
    else
      assert s == [s[0]] + s[1..];
      [s[0]] + Insert(x, s[1..])
  }

  /** Inserting into a sorted table keeps it sorted. */
  lemma {:induction false} InsertSorted(x: (string, Entry), s: Table)
    requires SortedByLine(s)
    ensures SortedByLine(Insert(x, s))
  {
    if s == [] {
    } else if x.1.line < s[0].1.line {
      assert ([x] + s)[1..] == s;
    } else {
      var rest := Insert(x, s[1..]);
      InsertSorted(x, s[1..]);
      assert ([s[0]] + rest)[1..] == rest;
    }
  }

  /** Insertion sort by source line, taking the entries in table order. */
  function SortByLine(t: Table): (r: Table)
    ensures multiset(r) == multiset(t)
    ensures |r| == |t|
  {
    if t == [] then []
    else
      assert t == t[..|t| - 1] + [t[|t| - 1]];
      Insert(t[|t| - 1], SortByLine(t[..|t| - 1]))
  }

  /** The sorted table is ordered by line. */
  lemma {:induction false} SortSorted(t: Table)
    ensures SortedByLine(SortByLine(t))
  {
    if t != [] {
      SortSorted(t[..|t| - 1]);
      InsertSorted(t[|t| - 1], SortByLine(t[..|t| - 1]));
    }
  }

  /** The entries on line `l`, in order. */
  function OnLine(t: Table, l: nat): Table {
    if t == [] then [] else (if t[0].1.line == l then [t[0]] else []) + OnLine(t[1..], l)
  }

  lemma {:induction false} OnLineAppend(a: Table, b: Table, l: nat)
    ensures OnLine(a + b, l) == OnLine(a, l) + OnLine(b, l)
  {
    if a != [] {
      assert a + b == [a[0]] + (a[1..] + b);
      OnLineAppend(a[1..], b, l);
    } else {
      assert a + b == b;
    }
  }

  /** A sorted table whose first entry is below line `l` has nothing on `l`. */
  lemma {:induction false} OnLineAbove(s: Table, l: nat)
    requires SortedByLine(s) && (s == [] || s[0].1.line > l)
    ensures OnLine(s, l) == []
  {
    if s != [] {
      OnLineAbove(s[1..], l);
    }
  }

  lemma {:induction false} OnLineInsert(x: (string, Entry), s: Table, l: nat)
    requires SortedByLine(s)
    ensures OnLine(Insert(x, s), l) == OnLine(s, l) + (if x.1.line == l then [x] else [])
  {
    if s == [] {
      OnLineSingle(x, l);
    } else if x.1.line < s[0].1.line {
      OnLineInsertFront(x, s, l);
    } else {
      OnLineInsert(x, s[1..], l);
      OnLineInsertBehind(x, s, l);
    }
  }

  /** `x` goes first; when it is on line `l`, nothing in `s` is. */
  lemma {:induction false} OnLineInsertFront(x: (string, Entry), s: Table, l: nat)
    requires SortedByLine(s) && s != [] && x.1.line < s[0].1.line
    ensures OnLine(Insert(x, s), l) == OnLine(s, l) + (if x.1.line == l then [x] else [])
  {
    assert Insert(x, s) == [x] + s;
    OnLineCons(x, s, l);
    if x.1.line == l {
      OnLineAbove(s, l);
    }
  }

  /** `x` goes behind the first entry: one step of the induction. */
  lemma {:induction false} OnLineInsertBehind(x: (string, Entry), s: Table, l: nat)
    requires s != [] && x.1.line >= s[0].1.line
    requires OnLine(Insert(x, s[1..]), l) == OnLine(s[1..], l) + (if x.1.line == l then [x] else [])
    ensures OnLine(Insert(x, s), l) == OnLine(s, l) + (if x.1.line == l then [x] else [])
  {
    var h, x' := if s[0].1.line == l then [s[0]] else [], if x.1.line == l then [x] else [];
    OnLineCons(s[0], Insert(x, s[1..]), l);
    SeqAssoc(h, OnLine(s[1..], l), x');
  }

  lemma {:induction false} SeqAssoc<T>(a: seq<T>, b: seq<T>, c: seq<T>)
    ensures a + (b + c) == (a + b) + c
  {
  }

  lemma {:induction false} OnLineCons(e: (string, Entry), t: Table, l: nat)
    ensures OnLine([e] + t, l) == (if e.1.line == l then [e] else []) + OnLine(t, l)
  {
    assert ([e] + t)[1..] == t;
  }

  lemma {:induction false} OnLineSingle(x: (string, Entry), l: nat)
    ensures OnLine([x], l) == if x.1.line == l then [x] else []
  {
    assert [x][1..] == [];
  }

  /** The sort is stable: entries on the same line keep their table order. */
  lemma {:induction false} SortStable(t: Table, l: nat)
    ensures OnLine(SortByLine(t), l) == OnLine(t, l)
  {
    if t != [] {
      var init := t[..|t| - 1];
      SortStable(init, l);
      SortSorted(init);
      OnLineInsert(t[|t| - 1], SortByLine(init), l);
      OnLineSnoc(t, l);
    }
  }

  lemma {:induction false} OnLineSnoc(t: Table, l: nat)
    requires t != []
    ensures OnLine(t, l) == OnLine(t[..|t| - 1], l) + (if t[|t| - 1].1.line == l then [t[|t| - 1]] else [])
  {
    assert t == t[..|t| - 1] + [t[|t| - 1]];
    OnLineAppend(t[..|t| - 1], [t[|t| - 1]], l);
    OnLineSingle(t[|t| - 1], l);
  }

  // Rendering.

  /** One entry: a mixin becomes a function returning its `css`; the others become a `const`, exported only for a class. */
  function Render(name: string, e: Entry): string {
    if e.kind == Mixin then
      "\nfunction " + name + " {\n  return css`" + e.contents + "\n  `;\n}\n"
    else
      "\n" + (if e.kind == Class then "export " else "") + "const " + name + " = css`" + e.contents + "\n`;\n"
  }

  /** Only classes are exported; only mixins become functions; every block starts on a new line. */
  lemma {:induction false} RenderForms(name: string, e: Entry)
    ensures StartsWith(Render(name, e), "\nexport const ") <==> e.kind == Class
    ensures StartsWith(Render(name, e), "\nfunction ") <==> e.kind == Mixin
    ensures StartsWith(Render(name, e), "\nconst ") <==> e.kind == Placeholder
  {
    var r := Render(name, e);
    if e.kind == Mixin {
      assert r[..10] == "\nfunction ";
      assert r[1] == 'f';
    } else if e.kind == Class {
      assert r[..14] == "\nexport const ";
      assert r[1] == 'e';
    } else {
      assert r[..7] == "\nconst ";
      assert r[1] == 'c';
    }
  }

  /** Every entry's collected text appears in its block between the template's backticks. */
  lemma {:induction false} RenderHoldsContents(name: string, e: Entry)
    ensures exists pre, post :: Render(name, e) == pre + "`" + e.contents + "\n" + post
  {
    if e.kind == Mixin {
      var pre := "\nfunction " + name + " {\n  return css";
      assert Render(name, e) == pre + "`" + e.contents + "\n" + "  `;\n}\n";
    } else {
      var pre := "\n" + (if e.kind == Class then "export " else "") + "const " + name + " = css";
      assert Render(name, e) == pre + "`" + e.contents + "\n" + "`;\n";
    }
  }

  /** The `reduce` over the sorted entries. */
  function Blocks(t: Table): string {
    if t == [] then "" else Blocks(t[..|t| - 1]) + Render(t[|t| - 1].0, t[|t| - 1].1)
  }

  lemma {:induction false} BlocksAppend(a: Table, b: Table)
    ensures Blocks(a + b) == Blocks(a) + Blocks(b)
    decreases |b|
  {
    if b != [] {
      var init, last := b[..|b| - 1], b[|b| - 1];
      assert (a + b)[..|a + b| - 1] == a + init;
      assert (a + b)[|a + b| - 1] == last;
      BlocksAppend(a, init);
      Assoc(Blocks(a), Blocks(init), Render(last.0, last.1));
    } else {
      assert a + b == a;
    }
  }

  const CssImport := "import { css } from 'emotion';\n"
  const FeBraryNames := "import { variables as vars } "
  const FeBrarySource := "from '@domain-group/fe-brary';\n"
  const FeBraryImport := FeBraryNames + FeBrarySource
  const CustomVarsImport := "import customVars from '../variables';\n"

  /** The `css` import always; the fe-brary and custom-variable imports when their flags are set. */
  function Header(usesFeBraryVars: bool, usesCustomVars: bool): string {
    CssImport + (if usesFeBraryVars then FeBraryImport else "") + (if usesCustomVars then CustomVarsImport else "")
  }

  /**
   * The header opens with the `css` import and holds the fe-brary import exactly
   * when its flag is set, and the custom-variable import exactly when its flag is
   * set. Only the fe-brary import names a package scope (`@`); only the custom
   * one reads `customVars`, so neither can appear by accident.
   */
  lemma {:induction false} HeaderImports(fe: bool, custom: bool)
    ensures StartsWith(Header(fe, custom), CssImport)
    ensures Contains(Header(fe, custom), FeBraryImport) <==> fe
    ensures Contains(Header(fe, custom), CustomVarsImport) <==> custom
    ensures '@' in Header(fe, custom) <==> fe
    ensures 'V' in Header(fe, custom) <==> custom
  {
    HeaderMarks(fe, custom);
    HeaderFeBrary(fe, custom);
    HeaderCustom(fe, custom);
  }

  lemma {:induction false} HeaderMarks(fe: bool, custom: bool)
    ensures StartsWith(Header(fe, custom), CssImport)
    ensures '@' in Header(fe, custom) <==> fe
    ensures 'V' in Header(fe, custom) <==> custom
  {
    ImportMarks();
    var h := Header(fe, custom);
    var a, b := if fe then FeBraryImport else "", if custom then CustomVarsImport else "";
    assert h == CssImport + a + b;
    Assoc(CssImport, a, b);
    PrefixOfConcat(CssImport, a + b);
    InConcat(CssImport, a, b, '@');
    InConcat(CssImport, a, b, 'V');
  }

  lemma {:induction false} HeaderFeBrary(fe: bool, custom: bool)
    ensures Contains(Header(fe, custom), FeBraryImport) <==> fe
  {
    HeaderMarks(fe, custom);
    ImportMarks();
    var h := Header(fe, custom);
    ContainedChars(h, FeBraryImport, '@');
    if fe {
      ContainsMiddle(CssImport, FeBraryImport, if custom then CustomVarsImport else "");
    }
  }

  lemma {:induction false} HeaderCustom(fe: bool, custom: bool)
    ensures Contains(Header(fe, custom), CustomVarsImport) <==> custom
  {
    HeaderMarks(fe, custom);
    ImportMarks();
    var h := Header(fe, custom);
    ContainedChars(h, CustomVarsImport, 'V');
    if custom {
      var a := CssImport + (if fe then FeBraryImport else "");
      assert h == a + CustomVarsImport + "";
      ContainsMiddle(a, CustomVarsImport, "");
    }
  }

  lemma {:induction false} ImportMarks()
    ensures '@' !in CssImport && 'V' !in CssImport
    ensures '@' in FeBraryImport && 'V' !in FeBraryImport
    ensures '@' !in CustomVarsImport && 'V' in CustomVarsImport
  {
    CssImportMarks();
    FeBraryImportMarks();
    CustomVarsImportMarks();
  }

  lemma {:induction false} CssImportMarks()
    ensures '@' !in CssImport && 'V' !in CssImport
  {
  }

  lemma {:induction false} FeBraryImportMarks()
    ensures '@' in FeBraryImport && 'V' !in FeBraryImport
  {
    assert FeBrarySource[6] == '@';
    InPair(FeBraryNames, FeBrarySource, '@');
    InPair(FeBraryNames, FeBrarySource, 'V');
  }

  lemma {:induction false} CustomVarsImportMarks()
    ensures '@' !in CustomVarsImport && 'V' in CustomVarsImport
  {
    assert CustomVarsImport[13] == 'V';
  }

  /** The module text before formatting. */
  function Emit(t: Table, usesFeBraryVars: bool, usesCustomVars: bool): string {
    Header(usesFeBraryVars, usesCustomVars) + Blocks(SortByLine(t)) + "\n"
  }

  /** An entry on an earlier line is emitted before one on a later line. */
  lemma {:induction false} EmitOrder(t: Table, i: nat, j: nat)
    requires i < |t| && j < |t| && t[i].1.line < t[j].1.line
    ensures exists x, y :: 0 <= x < y < |t| && SortByLine(t)[x] == t[i] && SortByLine(t)[y] == t[j]
  {
    var s := SortByLine(t);
    SortSorted(t);
    var x := IndexIn(s, t[i]);
    var y := IndexIn(s, t[j]);
    SortedOrder(s, x, y);
  }

  lemma {:induction false} IndexIn(s: Table, e: (string, Entry)) returns (x: nat)
    requires e in multiset(s)
    ensures x < |s| && s[x] == e
  {
    assert e in s;
    x :| 0 <= x < |s| && s[x] == e;
  }

  lemma {:induction false} SortedOrder(s: Table, x: nat, y: nat)
    requires SortedByLine(s) && x < |s| && y < |s| && s[x].1.line < s[y].1.line
    ensures x < y
  {
    SortedPair(s, y, x);
  }
}

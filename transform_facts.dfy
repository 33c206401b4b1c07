/**
 * What `processRoot` of transform.js guarantees, stated over its model: the
 * rewriting walks change exactly the nodes they name and keep the shape of
 * the tree, a flattened rule keeps its own declarations and drops those of
 * nested classes, a mixin keeps its body as written, and the table of blocks
 * holds one entry per name, the last one registered.
 */
module TransformFacts {
  import opened Wrappers
  import opened Strings
  import opened Tree
  import opened Resolvers
  import opened SelectorIdentifier
  import opened Emitter
  import opened Transform

  // ---------------------------------------------------------------------------
  // The rewriting walks

  /** A rewrite that never turns a container into a leaf or back. */
  ghost predicate KeepsContainers(f: (Path, Node) -> Label) {
    forall p, n :: IsContainer(f(p, n)) <==> IsContainer(n.tag)
  }

  /** Such a rewrite leaves the walk order alone: later walks visit the same paths. */
  lemma {:induction false} WalkMapped(f: (Path, Node) -> Label, ns: seq<Node>, prefix: Path, i: nat)
    requires KeepsContainers(f)
    ensures WalkFrom(MapNodes(f, ns, prefix), prefix, i) == WalkFrom(ns, prefix, i)
    decreases ns, |ns| - i
  {
    if i < |ns| {
      var m := MapNodes(f, ns, prefix);
      assert m[i] == MapNode(f, ns[i], prefix + [i]);
      if IsContainer(ns[i].tag) {
        WalkMapped(f, ns[i].nodes, prefix + [i], 0);
      }
      WalkMapped(f, ns, prefix, i + 1);
    }
  }

  lemma PreOrderMapped(f: (Path, Node) -> Label, ns: seq<Node>)
    requires KeepsContainers(f)
    ensures PreOrder(MapNodes(f, ns, [])) == PreOrder(ns)
  {
    WalkMapped(f, ns, [], 0);
  }

  /** The three walks keep containers as containers. */
  lemma PassesKeepContainers(all: seq<Node>)
    ensures KeepsContainers(ExtendTag)
    ensures KeepsContainers(IncludeTag)
    ensures KeepsContainers((p: Path, n: Node) => DeclTag(all, p, n))
  {
    forall p: Path, n: Node
      ensures IsContainer(IncludeTag(p, n)) <==> IsContainer(n.tag)
    {
      if IsInclude(n) && IncludeResult(n).Ok? {
        assert IncludeTag(p, n) == IncludeResult(n).value.0;
      }
    }
  }

  /**
   * `walkAtRules('extend')`: every `@extend` at a walked path takes the
   * placeholder interpolation as its parameters; every other node keeps its
   * label; no node changes its line or its number of children.
   */
  lemma ExtendPassAt(ns: seq<Node>, q: Path)
    requires q in PreOrder(ns)
    ensures Get(ns, q).Some? && Get(MapNodes(ExtendTag, ns, []), q).Some?
    ensures var n := Get(ns, q).value; var m := Get(MapNodes(ExtendTag, ns, []), q).value;
      m.line == n.line && |m.nodes| == |n.nodes|
      && m.tag == if n.tag.AtRule? && n.tag.name == "extend"
                  then AtRule("extend", ExtendParams(n.tag.params), n.tag.hasBody)
                  else n.tag
  {
    PreOrderReach(ns);
    GetMapped(ExtendTag, ns, [], q);
  }

  /** `walkAtRules('include')` fails exactly when some walked `@include` fails. */
  lemma IncludePassFailure(ns: seq<Node>)
    ensures IncludePass(ns).Err? <==> exists q :: q in PreOrder(ns) && IncludeFails(ns, q)
  {
    var ps := PreOrder(ns);
    if exists q :: q in ps && IncludeFails(ns, q) {
      var q :| q in ps && IncludeFails(ns, q);
      var k :| 0 <= k < |ps| && ps[k] == q;
      assert FirstIncludeFailure(ns, ps).Some?;
    }
  }

  /**
   * When it succeeds, every walked `@include` is what its callback makes of
   * it (a `@media` block or a mixin call), and every other node keeps its label.
   */
  lemma IncludePassAt(ns: seq<Node>, q: Path)
    requires IncludePass(ns).Ok? && q in PreOrder(ns)
    ensures Get(ns, q).Some? && Get(IncludePass(ns).value, q).Some?
    ensures var n := Get(ns, q).value; var m := Get(IncludePass(ns).value, q).value;
      m.line == n.line && |m.nodes| == |n.nodes|
      && (IsInclude(n) ==> IncludeResult(n).Ok? && m.tag == IncludeResult(n).value.0)
      && (!IsInclude(n) ==> m.tag == n.tag)
  {
    PreOrderReach(ns);
    GetMapped(IncludeTag, ns, [], q);
    IncludePassFailure(ns);
    assert !IncludeFails(ns, q);
  }

  /** `walkDecls`: every walked declaration takes the value `handleSassVar` gives it; every other node keeps its label. */
  lemma DeclPassAt(ns: seq<Node>, q: Path)
    requires q in PreOrder(ns)
    ensures Get(ns, q).Some? && Get(DeclPass(ns), q).Some?
    ensures var n := Get(ns, q).value; var m := Get(DeclPass(ns), q).value;
      m.line == n.line && |m.nodes| == |n.nodes|
      && (n.tag.Decl? ==> m.tag == Decl(n.tag.prop, HandleSassVar(n.tag.value, NestedInMixin(ns, q)).text))
      && (!n.tag.Decl? ==> m.tag == n.tag)
  {
    PreOrderReach(ns);
    var f := (p: Path, n: Node) => DeclTag(ns, p, n);
    assert [] + q == q;
    assert DeclPass(ns) == MapNodes(f, ns, []);
    GetMapped(f, ns, [], q);
    var n := Get(ns, q).value;
    assert f(q, n) == DeclTag(ns, q, n);
  }

  // ---------------------------------------------------------------------------
  // Contents of a flattened rule

  /** `Contents` with the per-call piece left abstract. */
  function FoldPieces(f: Event -> string, es: seq<Event>): string {
    if es == [] then "" else FoldPieces(f, es[..|es| - 1]) + f(es[|es| - 1])
  }

  lemma {:induction false} FoldPiecesAppend(f: Event -> string, a: seq<Event>, b: seq<Event>)
    ensures FoldPieces(f, a + b) == FoldPieces(f, a) + FoldPieces(f, b)
    decreases |b|
  {
    if b == [] {
      assert a + b == a;
    } else {
      var b', last := b[..|b| - 1], b[|b| - 1];
      var ab := a + b;
      assert ab[..|ab| - 1] == a + b';
      assert ab[|ab| - 1] == last;
      FoldPiecesAppend(f, a, b');
      Assoc(FoldPieces(f, a), FoldPieces(f, b'), f(last));
    }
  }

  function PieceOf(all: seq<Node>, rp: Path): Event -> string {
    e => Piece(all, rp, e)
  }

  lemma {:induction false} ContentsIsFold(all: seq<Node>, rp: Path, es: seq<Event>)
    ensures Contents(all, rp, es) == FoldPieces(PieceOf(all, rp), es)
    decreases |es|
  {
    if es != [] {
      ContentsIsFold(all, rp, es[..|es| - 1]);
      assert PieceOf(all, rp)(es[|es| - 1]) == Piece(all, rp, es[|es| - 1]);
    }
  }

  lemma ContentsAppend(all: seq<Node>, rp: Path, a: seq<Event>, b: seq<Event>)
    ensures Contents(all, rp, a + b) == Contents(all, rp, a) + Contents(all, rp, b)
  {
    ContentsIsFold(all, rp, a + b);
    ContentsIsFold(all, rp, a);
    ContentsIsFold(all, rp, b);
    FoldPiecesAppend(PieceOf(all, rp), a, b);
  }

  /** A child printed as it is: a declaration, a comment, or a body-less at-rule other than `@extend` and `@include`. */
  predicate Verbatim(l: Label) {
    l.Decl? || l.Comment? || (l.AtRule? && !l.hasBody && l.name != "extend" && l.name != "include")
  }

  /** A body-less `@extend` or `@include`: its rewritten parameters stand for it. */
  predicate Call(l: Label) {
    l.AtRule? && !l.hasBody && (l.name == "extend" || l.name == "include")
  }

  /** A nested `.class` rule holding only declarations: it is a block of its own. */
  predicate NestedClass(n: Node) {
    n.tag.Rule? && StartsWith(n.tag.selector, ".")
    && forall j :: 0 <= j < |n.nodes| ==> n.nodes[j].tag.Decl?
  }

  /** A `&:` rule holding declarations and nested classes of declarations. */
  predicate PseudoBlock(c: Node) {
    IsPseudo(c.tag) && forall j :: 0 <= j < |c.nodes| ==> c.nodes[j].tag.Decl? || NestedClass(c.nodes[j])
  }

  /** A child of such a block: a declaration as printed, or `${key}` for a nested class. */
  function PseudoItem(g: Node): string {
    if g.tag.Decl? then g.tag.prop + ": " + g.tag.value + ";"
    else if NestedClass(g) then "${" + RuleKey(g.tag.selector) + "}"
    else ""
  }

  /** The body of such a block. */
  function PseudoInner(ns: seq<Node>, i: nat): string
    decreases |ns| - i
  {
    if i >= |ns| then "" else PseudoItem(ns[i]) + PseudoInner(ns, i + 1)
  }

  /** What a child of a flattened rule contributes to the rule's contents. */
  function Kept(c: Node, q: Path): string {
    if Verbatim(c.tag) then Text(Events(c, q, true))
    else if Call(c.tag) then c.tag.params + "\n"
    else if PseudoBlock(c) then c.tag.selector + " {" + PseudoInner(c.nodes, 0) + "}"
    else ""
  }

  function KeptText(ns: seq<Node>, p: Path, i: nat): string
    decreases |ns| - i
  {
    if i >= |ns| then "" else Kept(ns[i], p + [i]) + KeptText(ns, p, i + 1)
  }

  /** A child at `q` directly below `rp` printed as it is, or a call, contributes what `Kept` says. */
  lemma LeafChild(all: seq<Node>, rp: Path, q: Path, c: Node)
    requires |q| == |rp| + 1 && q[..|rp|] == rp && (Verbatim(c.tag) || Call(c.tag))
    ensures Contents(all, rp, Events(c, q, true)) == Kept(c, q)
  {
    assert q[..|q| - 1] == rp;
    var es := Events(c, q, true);
    assert |es| == 1 && es[0].path == q && es[0].tag == c.tag && es[0].kind == Whole;
    assert es[..0] == [];
    assert Contents(all, rp, es) == Piece(all, rp, es[0]);
    assert !InNestedClass(all, rp, q);
    if Call(c.tag) {
      assert Piece(all, rp, es[0]) == c.tag.params + "\n";
    } else {
      assert Text(es) == es[0].text;
      assert Piece(all, rp, es[0]) == es[0].text;
    }
  }

  /** The declarations of a nested class are dropped from the rule being flattened. */
  lemma {:induction false} NestedDeclsDropped(all: seq<Node>, rp: Path, q: Path, c: Node, i: nat)
    requires Get(all, q) == Some(c) && q != rp && NestedClass(c)
    ensures Contents(all, rp, ChildEvents(c.nodes, q, i)) == ""
    decreases |c.nodes| - i
  {
    if i < |c.nodes| {
      var es := Events(c.nodes[i], q + [i], true);
      var rest := ChildEvents(c.nodes, q, i + 1);
      assert ChildEvents(c.nodes, q, i) == es + rest;
      NestedDeclDropped(all, rp, q, c, i);
      NestedDeclsDropped(all, rp, q, c, i + 1);
      ContentsAppend(all, rp, es, rest);
    }
  }

  lemma NestedDeclDropped(all: seq<Node>, rp: Path, q: Path, c: Node, i: nat)
    requires Get(all, q) == Some(c) && q != rp && NestedClass(c) && i < |c.nodes|
    ensures Contents(all, rp, Events(c.nodes[i], q + [i], true)) == ""
  {
    var d := q + [i];
    assert d[..|d| - 1] == q;
    assert InNestedClass(all, rp, d);
    var es := Events(c.nodes[i], d, true);
    assert es == [Event(es[0].text, d, Whole, c.nodes[i].tag)];
    assert es[..0] == [];
    assert Contents(all, rp, es) == Contents(all, rp, []) + Piece(all, rp, es[0]);
  }

  /** A nested class outside any `&:` rule contributes nothing: it is flattened out. */
  lemma NestedClassDropped(all: seq<Node>, rp: Path, q: Path, c: Node)
    requires Get(all, q) == Some(c) && q != rp && NestedClass(c) && !NestedInPseudo(all, q)
    ensures Contents(all, rp, Events(c, q, true)) == ""
  {
    var inner := ChildEvents(c.nodes, q, 0);
    var s := Event(c.tag.selector + " {", q, Start, c.tag);
    var e := Event("}", q, End, c.tag);
    assert Events(c, q, true) == [s] + inner + [e];
    assert [s][..0] == [] && [e][..0] == [];
    assert Contents(all, rp, [s]) == "";
    assert Contents(all, rp, [e]) == "";
    NestedDeclsDropped(all, rp, q, c, 0);
    ContentsAppend(all, rp, [s], inner);
    ContentsAppend(all, rp, [s] + inner, [e]);
  }

  /** A child of a node that is not a `&:` rule is below a `&:` rule exactly when its parent is. */
  lemma PseudoChild(all: seq<Node>, p: Path, j: nat)
    requires Get(all, p).Some? && !IsPseudo(Get(all, p).value.tag)
    ensures NestedInPseudo(all, p + [j]) == NestedInPseudo(all, p)
  {
    var q := p + [j];
    forall k | 1 <= k < |p|
      ensures PseudoAncestor(all, q, k) == PseudoAncestor(all, p, k)
    {
      assert q[..k] == p[..k];
    }
    assert q[..|p|] == p;
    assert !PseudoAncestor(all, q, |p|);
    if NestedInPseudo(all, q) {
      var k :| 1 <= k < |q| && PseudoAncestor(all, q, k);
      assert PseudoAncestor(all, p, k);
    }
    if NestedInPseudo(all, p) {
      var k :| 1 <= k < |p| && PseudoAncestor(all, p, k);
      assert PseudoAncestor(all, q, k);
    }
  }

  /** A selector cannot start with both `&:` and `.`. */
  lemma PseudoIsNotClass(selector: string)
    requires StartsWith(selector, "&:")
    ensures !StartsWith(selector, ".")
  {
    assert selector[0] == "&:"[0];
  }

  /**
   * Inside a `&:` block the declarations are kept and each nested class is
   * replaced by the interpolation of the key it is registered under.
   */
  lemma {:induction false} PseudoInnerKept(all: seq<Node>, rp: Path, q: Path, c: Node, i: nat)
    requires Get(all, q) == Some(c) && |q| > |rp| && PseudoBlock(c)
    ensures Contents(all, rp, ChildEvents(c.nodes, q, i)) == PseudoInner(c.nodes, i)
    decreases |c.nodes| - i
  {
    if i < |c.nodes| {
      var head := Events(c.nodes[i], q + [i], true);
      var tail := ChildEvents(c.nodes, q, i + 1);
      assert ChildEvents(c.nodes, q, i) == head + tail;
      PseudoChildKept(all, rp, q, c, i);
      PseudoInnerKept(all, rp, q, c, i + 1);
      ContentsAppend(all, rp, head, tail);
      assert PseudoInner(c.nodes, i) == PseudoItem(c.nodes[i]) + PseudoInner(c.nodes, i + 1);
    }
  }

  /** One child of a `&:` block: a declaration as printed, or `${key}` for a nested class. */
  lemma PseudoChildKept(all: seq<Node>, rp: Path, q: Path, c: Node, i: nat)
    requires Get(all, q) == Some(c) && |q| > |rp| && PseudoBlock(c) && i < |c.nodes|
    ensures Contents(all, rp, Events(c.nodes[i], q + [i], true)) == PseudoItem(c.nodes[i])
  {
    var d := q + [i];
    var g := c.nodes[i];
    GetChild(all, q, i);
    assert d[..|d| - 1] == q;
    PseudoIsNotClass(c.tag.selector);
    var es := Events(g, d, true);
    if g.tag.Decl? {
      assert es == [Event(g.tag.prop + ": " + g.tag.value + ";", d, Whole, g.tag)];
      assert es[..0] == [];
      assert !InNestedClass(all, rp, d);
      assert Contents(all, rp, es) == Piece(all, rp, es[0]);
    } else {
      PseudoClassRef(all, rp, q, c, i);
    }
  }

  lemma PseudoClassRef(all: seq<Node>, rp: Path, q: Path, c: Node, i: nat)
    requires Get(all, q) == Some(c) && |q| > |rp| && PseudoBlock(c) && i < |c.nodes|
    requires NestedClass(c.nodes[i])
    ensures Contents(all, rp, Events(c.nodes[i], q + [i], true)) == "${" + RuleKey(c.nodes[i].tag.selector) + "}"
  {
    var d := q + [i];
    var g := c.nodes[i];
    GetChild(all, q, i);
    var inner := ChildEvents(g.nodes, d, 0);
    var st := Event(g.tag.selector + " {", d, Start, g.tag);
    var en := Event("}", d, End, g.tag);
    assert Events(g, d, true) == [st] + inner + [en];
    PseudoRefStart(all, rp, q, c, d, st);
    ClassEndDropped(all, rp, en);
    NestedDeclsDropped(all, rp, d, g, 0);
    ContentsAppend(all, rp, [st], inner);
    ContentsAppend(all, rp, [st] + inner, [en]);
  }

  /** The closing brace of a class rule is dropped. */
  lemma ClassEndDropped(all: seq<Node>, rp: Path, en: Event)
    requires en.kind == End && en.tag.Rule? && StartsWith(en.tag.selector, ".")
    ensures Contents(all, rp, [en]) == ""
  {
    assert [en][..0] == [];
    assert Contents(all, rp, [en]) == Contents(all, rp, []) + Piece(all, rp, en);
  }

  /** The opening of a class nested in a `&:` block is the interpolation of its key. */
  lemma PseudoRefStart(all: seq<Node>, rp: Path, q: Path, c: Node, d: Path, st: Event)
    requires Get(all, q) == Some(c) && IsPseudo(c.tag) && |q| > |rp| && |q| >= 1
    requires |d| == |q| + 1 && d[..|q|] == q
    requires st.path == d && st.kind == Start && st.tag.Rule? && StartsWith(st.tag.selector, ".")
    ensures Contents(all, rp, [st]) == "${" + RuleKey(st.tag.selector) + "}"
  {
    assert [st][..0] == [];
    assert PseudoAncestor(all, d, |q|);
    assert NestedInPseudo(all, d);
    assert Contents(all, rp, [st]) == Piece(all, rp, st);
  }

  /** A `&:` block directly below the flattened rule is kept with its own selector and braces. */
  lemma PseudoBlockKept(all: seq<Node>, rp: Path, q: Path, c: Node)
    requires Get(all, q) == Some(c) && |q| == |rp| + 1 && PseudoBlock(c) && !NestedInPseudo(all, q)
    ensures Contents(all, rp, Events(c, q, true)) == Kept(c, q)
  {
    var inner := ChildEvents(c.nodes, q, 0);
    var st := Event(c.tag.selector + " {", q, Start, c.tag);
    var en := Event("}", q, End, c.tag);
    assert Events(c, q, true) == [st] + inner + [en];
    assert [st][..0] == [] && [en][..0] == [];
    PseudoIsNotClass(c.tag.selector);
    assert Contents(all, rp, [st]) == c.tag.selector + " {";
    assert Contents(all, rp, [en]) == "}";
    PseudoInnerKept(all, rp, q, c, 0);
    ContentsAppend(all, rp, [st], inner);
    ContentsAppend(all, rp, [st] + inner, [en]);
  }

  lemma PseudoClassExclusive(c: Node)
    requires NestedClass(c)
    ensures !PseudoBlock(c)
  {
    if IsPseudo(c.tag) {
      PseudoIsNotClass(c.tag.selector);
    }
  }

  /** A child of a flattened rule that the lemma below accounts for. */
  predicate FlatChild(c: Node) {
    Verbatim(c.tag) || Call(c.tag) || NestedClass(c) || PseudoBlock(c)
  }

  lemma {:induction false} ChildrenKept(all: seq<Node>, rp: Path, n: Node, i: nat)
    requires Get(all, rp) == Some(n) && n.tag.Rule? && !IsPseudo(n.tag) && !NestedInPseudo(all, rp)
    requires forall j :: 0 <= j < |n.nodes| ==> FlatChild(n.nodes[j])
    ensures Contents(all, rp, ChildEvents(n.nodes, rp, i)) == KeptText(n.nodes, rp, i)
    decreases |n.nodes| - i
  {
    if i < |n.nodes| {
      var c := n.nodes[i];
      var q := rp + [i];
      assert q[..|rp|] == rp;
      if NestedClass(c) && !Verbatim(c.tag) && !Call(c.tag) {
        GetChild(all, rp, i);
        PseudoChild(all, rp, i);
        NestedClassDropped(all, rp, q, c);
        PseudoClassExclusive(c);
        assert Kept(c, q) == "";
      } else if PseudoBlock(c) && !Verbatim(c.tag) && !Call(c.tag) {
        GetChild(all, rp, i);
        PseudoChild(all, rp, i);
        PseudoBlockKept(all, rp, q, c);
      } else {
        LeafChild(all, rp, q, c);
      }
      ChildrenKept(all, rp, n, i + 1);
      ContentsAppend(all, rp, Events(c, q, true), ChildEvents(n.nodes, rp, i + 1));
    }
  }

  /**
   * The contents a rule is registered with, when its children are
   * declarations, comments, body-less at-rules, nested classes of declarations
   * and `&:` blocks of those: its own braces are left out, each declaration,
   * comment and at-rule is kept as printed, each `@extend`/`@include` is
   * replaced by its rewritten parameters and a newline, each nested class is
   * left out together with its declarations, and each `&:` block is kept with
   * `${key}` in place of each class nested in it.
   */
  lemma FlattenedContents(all: seq<Node>, rp: Path)
    requires Get(all, rp).Some?
    requires var n := Get(all, rp).value;
      n.tag.Rule? && !IsPseudo(n.tag) && !NestedInPseudo(all, rp)
      && forall j :: 0 <= j < |n.nodes| ==> FlatChild(n.nodes[j])
    ensures var n := Get(all, rp).value;
      RuleContentsOf(all, rp) == KeptText(n.nodes, rp, 0)
  {
    var n := Get(all, rp).value;
    var inner := ChildEvents(n.nodes, rp, 0);
    var s := Event(n.tag.selector + " {", rp, Start, n.tag);
    var e := Event("}", rp, End, n.tag);
    assert Events(n, rp, false) == [s] + inner + [e];
    assert [s][..0] == [] && [e][..0] == [];
    assert Contents(all, rp, [s]) == "";
    assert Contents(all, rp, [e]) == "";
    ChildrenKept(all, rp, n, 0);
    ContentsAppend(all, rp, [s], inner);
    ContentsAppend(all, rp, [s] + inner, [e]);
  }

  /** With nothing to drop or replace, what is kept is the printed body of the rule. */
  lemma {:induction false} KeptVerbatim(ns: seq<Node>, p: Path, i: nat)
    requires forall j :: 0 <= j < |ns| ==> Verbatim(ns[j].tag)
    ensures KeptText(ns, p, i) == Text(ChildEvents(ns, p, i))
    decreases |ns| - i
  {
    if i < |ns| {
      KeptVerbatim(ns, p, i + 1);
      TextAppend(Events(ns[i], p + [i], true), ChildEvents(ns, p, i + 1));
    }
  }

  // ---------------------------------------------------------------------------
  // Contents of a mixin

  function MixinPieceOf(mp: Path): Event -> string {
    e => MixinPiece(mp, e)
  }

  lemma {:induction false} MixinFoldIsFold(mp: Path, es: seq<Event>)
    ensures MixinFold(mp, es) == FoldPieces(MixinPieceOf(mp), es)
    decreases |es|
  {
    if es != [] {
      MixinFoldIsFold(mp, es[..|es| - 1]);
      assert MixinPieceOf(mp)(es[|es| - 1]) == MixinPiece(mp, es[|es| - 1]);
    }
  }

  lemma MixinFoldAppend(mp: Path, a: seq<Event>, b: seq<Event>)
    ensures MixinFold(mp, a + b) == MixinFold(mp, a) + MixinFold(mp, b)
  {
    MixinFoldIsFold(mp, a + b);
    MixinFoldIsFold(mp, a);
    MixinFoldIsFold(mp, b);
    FoldPiecesAppend(MixinPieceOf(mp), a, b);
  }

  lemma {:induction false} MixinFoldVerbatim(mp: Path, es: seq<Event>)
    requires forall e :: e in es ==> e.path != mp
    ensures MixinFold(mp, es) == Text(es)
    decreases |es|
  {
    if es != [] {
      var es' := es[..|es| - 1];
      assert forall e :: e in es' ==> e in es;
      assert es[|es| - 1] in es;
      MixinFoldVerbatim(mp, es');
    }
  }

  /**
   * A mixin is registered with its body exactly as postcss prints it, without
   * its own `@mixin ... {` line and closing brace; a body-less mixin keeps its
   * one line.
   */
  lemma MixinBody(all: seq<Node>, mp: Path)
    requires Get(all, mp).Some? && IsMixin(Get(all, mp).value.tag)
    ensures var n := Get(all, mp).value;
      MixinContentsOf(all, mp) ==
        if n.tag.hasBody then Text(ChildEvents(n.nodes, mp, 0)) else AtRuleHead(n.tag.name, n.tag.params)
  {
    var n := Get(all, mp).value;
    if n.tag.hasBody {
      MixinWithBody(n, mp);
    } else {
      MixinWithoutBody(n, mp);
    }
  }

  lemma MixinWithBody(n: Node, mp: Path)
    requires IsMixin(n.tag) && n.tag.hasBody
    ensures MixinFold(mp, Events(n, mp, false)) == Text(ChildEvents(n.nodes, mp, 0))
  {
    var inner := ChildEvents(n.nodes, mp, 0);
    var s := Event(AtRuleHead(n.tag.name, n.tag.params) + " {", mp, Start, n.tag);
    var e := Event("}", mp, End, n.tag);
    MixinEvents(n, mp);
    MixinOwnEventDropped(mp, s);
    MixinOwnEventDropped(mp, e);
    ChildEventsDeep(n.nodes, mp, 0);
    MixinFoldVerbatim(mp, inner);
    MixinFoldAppend(mp, [s], inner);
    MixinFoldAppend(mp, [s] + inner, [e]);
  }

  lemma MixinEvents(n: Node, mp: Path)
    requires IsMixin(n.tag) && n.tag.hasBody
    ensures Events(n, mp, false) ==
      [Event(AtRuleHead(n.tag.name, n.tag.params) + " {", mp, Start, n.tag)] + ChildEvents(n.nodes, mp, 0) + [Event("}", mp, End, n.tag)]
  {
  }

  lemma MixinOwnEventDropped(mp: Path, e: Event)
    requires e.path == mp && e.kind != Whole
    ensures MixinFold(mp, [e]) == ""
  {
    assert [e][..0] == [];
  }

  lemma MixinWithoutBody(n: Node, mp: Path)
    requires IsMixin(n.tag) && !n.tag.hasBody
    ensures MixinFold(mp, Events(n, mp, false)) == AtRuleHead(n.tag.name, n.tag.params)
  {
    var head := AtRuleHead(n.tag.name, n.tag.params);
    var es := Events(n, mp, false);
    assert head + "" == head;
    assert es == [Event(head, mp, Whole, n.tag)];
    assert es[..0] == [];
    assert MixinFold(mp, es) == MixinFold(mp, []) + MixinPiece(mp, es[0]);
  }

  // ---------------------------------------------------------------------------
  // The table of blocks

  /** The key a registering rule is stored under. */
  function KeyAt(all: seq<Node>, p: Path): string
    requires RegistersRule(all, p)
  {
    RuleKey(Get(all, p).value.tag.selector)
  }

  /** The keys of the table after the flattening walk: a key not seen before goes at the end. */
  function RegisteredKeys(all: seq<Node>, ks: seq<string>, ps: seq<Path>): seq<string> {
    if ps == [] then ks
    else
      var before := RegisteredKeys(all, ks, ps[..|ps| - 1]);
      var p := ps[|ps| - 1];
      if RegistersRule(all, p) && KeyAt(all, p) !in before then before + [KeyAt(all, p)] else before
  }

  /** The keys of the registered table depend only on the keys of the rules visited. */
  lemma {:induction false} KeysOfRegistered(all: seq<Node>, t: Table, ps: seq<Path>)
    ensures Keys(RegisteredRules(all, t, ps)) == RegisteredKeys(all, Keys(t), ps)
    decreases |ps|
  {
    if ps != [] {
      var ps' := ps[..|ps| - 1];
      var p := ps[|ps| - 1];
      KeysOfRegistered(all, t, ps');
      var before := RegisteredRules(all, t, ps');
      assert RegisteredRules(all, t, ps) == RuleStep(all, before, p);
      if RegistersRule(all, p) {
        MapSetKeys(before, KeyAt(all, p), RuleEntry(all, p, Get(all, p).value));
      }
    }
  }

  lemma {:induction false} RegisteredKeysKeep(all: seq<Node>, ks: seq<string>, ps: seq<Path>)
    ensures forall k :: k in ks ==> k in RegisteredKeys(all, ks, ps)
    decreases |ps|
  {
    if ps != [] {
      RegisteredKeysKeep(all, ks, ps[..|ps| - 1]);
    }
  }

  lemma {:induction false} RegisteredKeysHave(all: seq<Node>, ks: seq<string>, ps: seq<Path>)
    ensures forall j :: 0 <= j < |ps| && RegistersRule(all, ps[j]) ==> KeyAt(all, ps[j]) in RegisteredKeys(all, ks, ps)
    decreases |ps|
  {
    if ps != [] {
      var ps' := ps[..|ps| - 1];
      var before := RegisteredKeys(all, ks, ps');
      var after := RegisteredKeys(all, ks, ps);
      RegisteredKeysHave(all, ks, ps');
      assert forall k :: k in before ==> k in after;
      forall j | 0 <= j < |ps| && RegistersRule(all, ps[j])
        ensures KeyAt(all, ps[j]) in after
      {
        if j < |ps'| {
          assert ps'[j] == ps[j];
        }
      }
    }
  }

  /** The flattening walk keeps every key it found. */
  lemma RegisteredRulesKeep(all: seq<Node>, t: Table, ps: seq<Path>)
    ensures forall k :: k in Keys(t) ==> k in Keys(RegisteredRules(all, t, ps))
  {
    KeysOfRegistered(all, t, ps);
    RegisteredKeysKeep(all, Keys(t), ps);
  }

  /** The flattening walk adds the key of every rule it registers. */
  lemma RegisteredRulesKeys(all: seq<Node>, t: Table, ps: seq<Path>)
    ensures forall j :: 0 <= j < |ps| && RegistersRule(all, ps[j]) ==>
      KeyAt(all, ps[j]) in Keys(RegisteredRules(all, t, ps))
  {
    KeysOfRegistered(all, t, ps);
    RegisteredKeysHave(all, Keys(t), ps);
  }

  /** Every key in the table came from the table before or from a registered rule. */
  lemma {:induction false} RegisteredRulesOrigin(all: seq<Node>, t: Table, ps: seq<Path>)
    ensures forall k :: k in Keys(RegisteredRules(all, t, ps)) ==>
      k in Keys(t) || exists j :: 0 <= j < |ps| && RegistersRule(all, ps[j]) && KeyAt(all, ps[j]) == k
    decreases |ps|
  {
    if ps != [] {
      var ps' := ps[..|ps| - 1];
      var before := RegisteredRules(all, t, ps');
      RegisteredRulesOrigin(all, t, ps');
      var p := ps[|ps| - 1];
      if RegistersRule(all, p) {
        MapSetKeys(before, KeyAt(all, p), RuleEntry(all, p, Get(all, p).value));
      }
      forall k | k in Keys(RegisteredRules(all, t, ps))
        ensures k in Keys(t) || exists j :: 0 <= j < |ps| && RegistersRule(all, ps[j]) && KeyAt(all, ps[j]) == k
      {
        if k in Keys(before) && k !in Keys(t) {
          var j :| 0 <= j < |ps'| && RegistersRule(all, ps'[j]) && KeyAt(all, ps'[j]) == k;
          assert ps[j] == ps'[j];
        } else if k !in Keys(before) {
          assert RegistersRule(all, p) && KeyAt(all, p) == k;
        }
      }
    }
  }

  /**
   * `root.classes.set` replaces: a key holds the entry of the last rule
   * registered under it.
   */
  lemma {:induction false} LastRegistrationWins(all: seq<Node>, t: Table, ps: seq<Path>, k: nat)
    requires k < |ps| && RegistersRule(all, ps[k])
    requires forall j :: k < j < |ps| && RegistersRule(all, ps[j]) ==> KeyAt(all, ps[j]) != KeyAt(all, ps[k])
    ensures Lookup(RegisteredRules(all, t, ps), KeyAt(all, ps[k])) == Some(RuleEntry(all, ps[k], Get(all, ps[k]).value))
    decreases |ps|
  {
    var ps' := ps[..|ps| - 1];
    var p := ps[|ps| - 1];
    if k < |ps| - 1 {
      assert ps'[k] == ps[k];
      forall j | k < j < |ps'| && RegistersRule(all, ps'[j])
        ensures KeyAt(all, ps'[j]) != KeyAt(all, ps'[k])
      {
        assert ps'[j] == ps[j];
      }
      LastRegistrationWins(all, t, ps', k);
    }
  }

  /** Registration keeps the keys of the table distinct: it is a map. */
  lemma {:induction false} RegisteredRulesUnique(all: seq<Node>, t: Table, ps: seq<Path>)
    requires UniqueKeys(t)
    ensures UniqueKeys(RegisteredRules(all, t, ps))
    decreases |ps|
  {
    if ps != [] {
      var ps' := ps[..|ps| - 1];
      RegisteredRulesUnique(all, t, ps');
      var p := ps[|ps| - 1];
      if RegistersRule(all, p) {
        MapSetUnique(RegisteredRules(all, t, ps'), KeyAt(all, p), RuleEntry(all, p, Get(all, p).value));
      }
    }
  }

  /** The key a walked mixin is stored under, when its signature has a parenthesis. */
  predicate MixinRegistered(all: seq<Node>, p: Path, t: Table) {
    Get(all, p).Some? && IsMixin(Get(all, p).value.tag) ==>
      MixinParamsToFunc(Get(all, p).value.tag.params).Ok?
      && MixinParamsToFunc(Get(all, p).value.tag.params).value in Keys(t)
  }

  /**
   * When the mixin walk succeeds it has kept every key, registered every mixin
   * under its function signature, and kept the keys distinct.
   */
  lemma {:induction false} RegisteredMixinsKeys(all: seq<Node>, t: Table, ps: seq<Path>)
    requires RegisteredMixins(all, t, ps).Ok?
    ensures forall k :: k in Keys(t) ==> k in Keys(RegisteredMixins(all, t, ps).value)
    ensures forall j :: 0 <= j < |ps| ==> MixinRegistered(all, ps[j], RegisteredMixins(all, t, ps).value)
    ensures UniqueKeys(t) ==> UniqueKeys(RegisteredMixins(all, t, ps).value)
    decreases |ps|
  {
    if ps != [] {
      var ps' := ps[..|ps| - 1];
      assert RegisteredMixins(all, t, ps').Ok?;
      var before := RegisteredMixins(all, t, ps').value;
      RegisteredMixinsKeys(all, t, ps');
      var after := RegisteredMixins(all, t, ps).value;
      MixinStepKeys(all, before, ps[|ps| - 1]);
      forall j | 0 <= j < |ps'|
        ensures MixinRegistered(all, ps[j], after)
      {
        assert ps[j] == ps'[j];
        assert MixinRegistered(all, ps'[j], before);
      }
    }
  }

  /** One mixin step keeps the keys, adds the mixin's signature, and keeps the keys distinct. */
  lemma MixinStepKeys(all: seq<Node>, t: Table, p: Path)
    requires MixinStep(all, t, p).Ok?
    ensures forall k :: k in Keys(t) ==> k in Keys(MixinStep(all, t, p).value)
    ensures MixinRegistered(all, p, MixinStep(all, t, p).value)
    ensures UniqueKeys(t) ==> UniqueKeys(MixinStep(all, t, p).value)
  {
    if Get(all, p).Some? && IsMixin(Get(all, p).value.tag) {
      var n := Get(all, p).value;
      var key := MixinParamsToFunc(n.tag.params).value;
      var entry := Entry(Mixin, MixinContentsOf(all, p), n.line);
      assert MixinStep(all, t, p).value == MapSet(t, key, entry);
      MapSetKeys(t, key, entry);
      if UniqueKeys(t) {
        MapSetUnique(t, key, entry);
      }
    }
  }

  /**
   * What `processRoot` leaves in `root.classes`: distinct keys, one for every
   * `.class` and `%placeholder` rule outside a mixin, and one for every mixin.
   */
  lemma ProcessRootTable(tree: seq<Node>, usesCustomVars: bool)
    requires ProcessRootOf(tree, usesCustomVars).Ok?
    ensures var s := ProcessRootOf(tree, usesCustomVars).value;
      UniqueKeys(s.classes)
      && (forall q :: q in PreOrder(s.nodes) && RegistersRule(s.nodes, q) ==> KeyAt(s.nodes, q) in Keys(s.classes))
      && (forall q :: q in PreOrder(s.nodes) ==> MixinRegistered(s.nodes, q, s.classes))
  {
    var s := ProcessRootOf(tree, usesCustomVars).value;
    var all := s.nodes;
    var ps := PreOrder(all);
    var rules := RegisteredRules(all, [], ps);
    RegisteredRulesUnique(all, [], ps);
    RegisteredRulesKeys(all, [], ps);
    RegisteredMixinsKeys(all, rules, ps);
  }

  // ---------------------------------------------------------------------------
  // The file-level flags

  /** There is a declaration at `q` of `tree`. */
  predicate DeclValueAt(tree: seq<Node>, q: Path) {
    Get(tree, q).Some? && Get(tree, q).value.tag.Decl?
  }

  /** Some walked declaration reads a fe-brary variable. */
  predicate FeBraryDecl(tree: seq<Node>) {
    exists q :: q in PreOrder(tree) && DeclValueAt(tree, q)
      && StartsWith(Get(tree, q).value.tag.value, FeBraryPrefix)
  }

  /** Some walked include-media call becomes a query that reads fe-brary variables. */
  predicate FeBraryQuery(tree: seq<Node>) {
    exists q :: q in PreOrder(tree) && Get(tree, q).Some? && IsInclude(Get(tree, q).value)
      && IsMediaInclude(Get(tree, q).value)
      && IncludeMedia.ToMediaQuery(Get(tree, q).value.tag.params).Ok?
      && Contains(IncludeMedia.ToMediaQuery(Get(tree, q).value.tag.params).value, "vars.")
  }

  /** Some walked declaration outside every mixin reads a custom variable. */
  predicate CustomDecl(tree: seq<Node>) {
    exists q :: q in PreOrder(tree) && DeclValueAt(tree, q)
      && StartsWith(Get(tree, q).value.tag.value, "$")
      && !StartsWith(Get(tree, q).value.tag.value, FeBraryPrefix)
      && !NestedInMixin(tree, q)
  }

  /** What the include callback makes of a node depends on its label and whether it has children only. */
  lemma IncludeResultShape(m: Node, n: Node)
    requires IsInclude(n) && m.tag == n.tag && |m.nodes| == |n.nodes|
    ensures IncludeResult(m) == IncludeResult(n)
  {
    assert IsMediaInclude(m) == IsMediaInclude(n);
  }

  /** A rewrite that never makes or unmakes a `@mixin`. */
  ghost predicate KeepsMixins(f: (Path, Node) -> Label) {
    forall p, n :: IsMixin(f(p, n)) <==> IsMixin(n.tag)
  }

  lemma PassesKeepMixins(all: seq<Node>)
    ensures KeepsMixins(ExtendTag)
    ensures KeepsMixins(IncludeTag)
    ensures KeepsMixins((p: Path, n: Node) => DeclTag(all, p, n))
  {
    forall p: Path, n: Node
      ensures IsMixin(IncludeTag(p, n)) <==> IsMixin(n.tag)
    {
      if IsInclude(n) && IncludeResult(n).Ok? {
        assert IncludeTag(p, n) == IncludeResult(n).value.0;
      }
    }
  }

  lemma {:induction false} ReachPrefix(ns: seq<Node>, q: Path, k: nat)
    requires Reach(ns, q) && 1 <= k <= |q|
    ensures Reach(ns, q[..k])
    decreases |q|
  {
    if k > 1 {
      ReachPrefix(ns[q[0]].nodes, q[1..], k - 1);
      assert q[..k][1..] == q[1..][..k - 1];
    }
  }

  /** Such a rewrite does not change which nodes are nested in a mixin. */
  lemma NestedInMixinMapped(f: (Path, Node) -> Label, ns: seq<Node>, q: Path)
    requires KeepsMixins(f) && Reach(ns, q)
    ensures NestedInMixin(MapNodes(f, ns, []), q) == NestedInMixin(ns, q)
  {
    var m := MapNodes(f, ns, []);
    forall k | 1 <= k < |q|
      ensures MixinAncestor(m, q, k) == MixinAncestor(ns, q, k)
    {
      ReachPrefix(ns, q, k);
      GetMapped(f, ns, [], q[..k]);
    }
    if NestedInMixin(ns, q) {
      var k :| 1 <= k < |q| && MixinAncestor(ns, q, k);
      assert MixinAncestor(m, q, k);
    }
    if NestedInMixin(m, q) {
      var k :| 1 <= k < |q| && MixinAncestor(m, q, k);
      assert MixinAncestor(ns, q, k);
    }
  }

  /** The last two walks see the paths of the original tree; the include walk's result is a map over it. */
  lemma PassesAgree(tree: seq<Node>, custom: bool)
    requires ProcessRootOf(tree, custom).Ok?
    ensures var ext := MapNodes(ExtendTag, tree, []);
      IncludePass(ext).Ok?
      && PreOrder(ext) == PreOrder(tree)
      && IncludePass(ext).value == MapNodes(IncludeTag, ext, [])
      && PreOrder(IncludePass(ext).value) == PreOrder(tree)
  {
    var ext := MapNodes(ExtendTag, tree, []);
    PassesKeepContainers(tree);
    PreOrderMapped(ExtendTag, tree);
    PreOrderMapped(IncludeTag, ext);
  }

  /**
   * `root.usesFeBraryVars` is set exactly when some include-media call reads a
   * fe-brary breakpoint or some declaration's value is a fe-brary variable.
   */
  lemma FeBraryFlag(tree: seq<Node>, custom: bool)
    requires ProcessRootOf(tree, custom).Ok?
    ensures ProcessRootOf(tree, custom).value.usesFeBraryVars <==> FeBraryQuery(tree) || FeBraryDecl(tree)
  {
    var ext := MapNodes(ExtendTag, tree, []);
    PassesAgree(tree, custom);
    var incl := IncludePass(ext).value;
    forall q | q in PreOrder(tree)
      ensures (DeclResolved(incl, q).Some? && DeclResolved(incl, q).value.setsFeBrary)
        <==> (DeclValueAt(tree, q) && StartsWith(Get(tree, q).value.tag.value, FeBraryPrefix))
      ensures (Get(ext, q).Some? && IsInclude(Get(ext, q).value)
          && IncludeResult(Get(ext, q).value).Ok? && IncludeResult(Get(ext, q).value).value.1)
        <==> (Get(tree, q).Some? && IsInclude(Get(tree, q).value) && IsMediaInclude(Get(tree, q).value)
          && IncludeMedia.ToMediaQuery(Get(tree, q).value.tag.params).Ok?
          && Contains(IncludeMedia.ToMediaQuery(Get(tree, q).value.tag.params).value, "vars."))
    {
      ExtendPassAt(tree, q);
      IncludePassAt(ext, q);
      if IsInclude(Get(tree, q).value) {
        IncludeResultShape(Get(ext, q).value, Get(tree, q).value);
      }
    }
    assert IncludeSetsFeBrary(ext) <==> FeBraryQuery(tree);
    assert DeclSetsFeBrary(incl) <==> FeBraryDecl(tree);
  }

  /**
   * `root.usesCustomVars` ends up set exactly when it was set before or some
   * declaration outside every mixin has a value that is a non-fe-brary variable.
   */
  lemma CustomFlag(tree: seq<Node>, custom: bool)
    requires ProcessRootOf(tree, custom).Ok?
    ensures ProcessRootOf(tree, custom).value.usesCustomVars <==> custom || CustomDecl(tree)
  {
    var ext := MapNodes(ExtendTag, tree, []);
    PassesAgree(tree, custom);
    var incl := IncludePass(ext).value;
    PassesKeepMixins(tree);
    PreOrderReach(tree);
    PreOrderReach(ext);
    forall q | q in PreOrder(tree)
      ensures (DeclResolved(incl, q).Some? && DeclResolved(incl, q).value.setsCustom)
        <==> (DeclValueAt(tree, q) && StartsWith(Get(tree, q).value.tag.value, "$")
          && !StartsWith(Get(tree, q).value.tag.value, FeBraryPrefix) && !NestedInMixin(tree, q))
    {
      ExtendPassAt(tree, q);
      IncludePassAt(ext, q);
      NestedInMixinMapped(ExtendTag, tree, q);
      NestedInMixinMapped(IncludeTag, ext, q);
    }
    assert DeclSetsCustom(incl) <==> CustomDecl(tree);
  }
}

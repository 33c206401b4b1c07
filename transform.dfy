/**
 * `processRoot` of transform.js and the exported conversion: the three
 * rewriting walks (`@extend`, `@include`, declarations), the flattening walk
 * that collects `.class` and `%placeholder` rules into the table, the mixin
 * walk, and the final emission.
 */
module Transform {
  import opened Wrappers
  import opened Strings
  import opened Tree
  import opened Resolvers
  import opened SelectorIdentifier
  import opened Emitter
  import IncludeMedia

  // The rewriting walks, as maps over the tree. Each node is rewritten from
  // its own fields and its position; the shape of the tree does not change.

  /** Rewrites every node walked below the node at `prefix`, whose children are `ns`. */
  function MapNodes(f: (Path, Node) -> Label, ns: seq<Node>, prefix: Path): (r: seq<Node>)
    ensures |r| == |ns|
    decreases ns
  {
    seq(|ns|, i requires 0 <= i < |ns| => MapNode(f, ns[i], prefix + [i]))
  }

  function MapNode(f: (Path, Node) -> Label, n: Node, p: Path): Node
    decreases n
  {
    Node(f(p, n), if IsContainer(n.tag) then MapNodes(f, n.nodes, p) else n.nodes, n.line)
  }

  /** The rewritten tree holds, at every walked path, the rewritten original node. */
  lemma {:induction false} GetMapped(f: (Path, Node) -> Label, ns: seq<Node>, prefix: Path, q: Path)
    requires Reach(ns, q)
    ensures Get(ns, q).Some?
    ensures Get(MapNodes(f, ns, prefix), q) == Some(MapNode(f, Get(ns, q).value, prefix + q))
    decreases |q|
  {
    ReachGet(ns, q);
    if |q| == 1 {
      GetTopMapped(f, ns, prefix, q[0]);
      assert q == [q[0]];
    } else {
      var m := ns[q[0]];
      GetMapped(f, m.nodes, prefix + [q[0]], q[1..]);
      GetDownMapped(f, ns, prefix, q);
      assert prefix + [q[0]] + q[1..] == prefix + q;
    }
  }

  lemma GetTopMapped(f: (Path, Node) -> Label, ns: seq<Node>, prefix: Path, i: nat)
    requires i < |ns|
    ensures Get(MapNodes(f, ns, prefix), [i]) == Some(MapNode(f, ns[i], prefix + [i]))
  {
  }

  lemma GetDownMapped(f: (Path, Node) -> Label, ns: seq<Node>, prefix: Path, q: Path)
    requires Reach(ns, q) && |q| > 1
    ensures Get(MapNodes(f, ns, prefix), q) == Get(MapNodes(f, ns[q[0]].nodes, prefix + [q[0]]), q[1..])
    ensures Get(ns, q) == Get(ns[q[0]].nodes, q[1..])
  {
    var r := MapNodes(f, ns, prefix);
    assert r[q[0]] == MapNode(f, ns[q[0]], prefix + [q[0]]);
  }

  /** `walkAtRules('extend')`: the parameters become `${placeholder};`. */
  function ExtendTag(p: Path, n: Node): Label {
    if n.tag.AtRule? && n.tag.name == "extend" then n.tag.(params := ExtendParams(n.tag.params))
    else n.tag
  }

  /**
   * The `@include` callback on one at-rule: an include-media call with a
   * non-empty body becomes a plain `@media` (and says whether the query reads
   * fe-brary variables); anything else becomes a mixin call.
   */
  function IncludeResult(n: Node): (r: Result<(Label, bool), Failure>)
    requires n.tag.AtRule? && n.tag.name == "include"
    ensures r.Ok? ==> r.value.0.AtRule? && r.value.0.hasBody == n.tag.hasBody
    ensures IsMediaInclude(n) ==> r.Ok? == IncludeMedia.ToMediaQuery(n.tag.params).Ok?
    ensures !IsMediaInclude(n) ==> (r.Ok? <==> Contains(n.tag.params, "("))
    ensures r.Ok? && IsMediaInclude(n) ==>
      r.value.0.name == "media" && r.value.0.params == IncludeMedia.ToMediaQuery(n.tag.params).value
      && (r.value.1 <==> Contains(r.value.0.params, "vars."))
    ensures r.Ok? && !IsMediaInclude(n) ==>
      r.value.0.name == "include" && r.value.0.params == IncludeCall(n.tag.params).value && !r.value.1
  {
    var params := n.tag.params;
    if IsMediaInclude(n) then
      match IncludeMedia.ToMediaQuery(params)
      case Err(message) => Err(UnrecognisedMediaQuery(message))
      case Ok(query) => Ok((n.tag.(name := "media", params := query), Contains(query, "vars.")))
    else
      match IncludeCall(params)
      case Err(f) => Err(f)
      case Ok(call) => Ok((n.tag.(params := call), false))
  }

  /** `atRule.nodes && atRule.nodes.length && atRule.params.trim().startsWith('media(')` */
  predicate IsMediaInclude(n: Node)
    requires n.tag.AtRule?
  {
    n.tag.hasBody && |n.nodes| > 0 && StartsWith(Trim(n.tag.params), "media(")
  }

  predicate IsInclude(n: Node) {
    n.tag.AtRule? && n.tag.name == "include"
  }

  function IncludeTag(p: Path, n: Node): Label {
    if IsInclude(n) && IncludeResult(n).Ok? then IncludeResult(n).value.0 else n.tag
  }

  /** The failure of the first `@include` in walk order that has one. */
  function FirstIncludeFailure(ns: seq<Node>, ps: seq<Path>): (r: Option<Failure>)
    ensures r.None? <==> forall k :: 0 <= k < |ps| ==> !IncludeFails(ns, ps[k])
  {
    if ps == [] then None
    else if IncludeFails(ns, ps[0]) then Some(IncludeResult(Get(ns, ps[0]).value).error)
    else
      var r := FirstIncludeFailure(ns, ps[1..]);
      assert forall k :: 1 <= k < |ps| ==> ps[k] == ps[1..][k - 1];
      r
  }

  predicate IncludeFails(ns: seq<Node>, p: Path) {
    Get(ns, p).Some? && IsInclude(Get(ns, p).value) && IncludeResult(Get(ns, p).value).Err?
  }

  /** Some include-media call became a query that reads fe-brary variables. */
  predicate IncludeSetsFeBrary(ns: seq<Node>) {
    exists q :: q in PreOrder(ns) && Get(ns, q).Some? && IsInclude(Get(ns, q).value)
      && IncludeResult(Get(ns, q).value).Ok? && IncludeResult(Get(ns, q).value).value.1
  }

  /** `walkAtRules('include')`: the first failing call stops the conversion. */
  function IncludePass(ns: seq<Node>): Result<seq<Node>, Failure> {
    match FirstIncludeFailure(ns, PreOrder(ns))
    case Some(f) => Err(f)
    case None => Ok(MapNodes(IncludeTag, ns, []))
  }

  /** `walkDecls`: each declaration value goes through `handleSassVar`. */
  function DeclTag(all: seq<Node>, p: Path, n: Node): Label {
    if n.tag.Decl? then n.tag.(value := HandleSassVar(n.tag.value, NestedInMixin(all, p)).text)
    else n.tag
  }

  function DeclPass(ns: seq<Node>): seq<Node> {
    MapNodes((p: Path, n: Node) => DeclTag(ns, p, n), ns, [])
  }

  /** What `handleSassVar` makes of the declaration at `q`, if there is one there. */
  function DeclResolved(ns: seq<Node>, q: Path): Option<Resolved> {
    if Get(ns, q).Some? && Get(ns, q).value.tag.Decl? then
      Some(HandleSassVar(Get(ns, q).value.tag.value, NestedInMixin(ns, q)))
    else None
  }

  predicate DeclSetsFeBrary(ns: seq<Node>) {
    exists q :: q in PreOrder(ns) && DeclResolved(ns, q).Some? && DeclResolved(ns, q).value.setsFeBrary
  }

  predicate DeclSetsCustom(ns: seq<Node>) {
    exists q :: q in PreOrder(ns) && DeclResolved(ns, q).Some? && DeclResolved(ns, q).value.setsCustom
  }

  // The stringify callback of the flattening walk.

  /** The declaration at `q` sits directly in a nested `.class` rule other than the one being flattened. */
  predicate InNestedClass(all: seq<Node>, rp: Path, q: Path) {
    |q| >= 1 && q[..|q| - 1] != rp && Get(all, q[..|q| - 1]).Some?
    && Get(all, q[..|q| - 1]).value.tag.Rule? && StartsWith(Get(all, q[..|q| - 1]).value.tag.selector, ".")
  }

  /** What one builder call adds to the contents of the rule at `rp`. */
  function Piece(all: seq<Node>, rp: Path, e: Event): string {
    if e.path == rp && e.kind != Whole then ""
    else if e.tag.Rule? && e.kind == Start && NestedInPseudo(all, e.path) then
      "${" + SelectorToIdentifier(e.tag.selector) + "}"
    else if e.tag.Rule? && StartsWith(e.tag.selector, ".") then ""
    else if e.tag.Decl? && InNestedClass(all, rp, e.path) then ""
    else if e.tag.AtRule? && (e.tag.name == "extend" || e.tag.name == "include") then e.tag.params + "\n"
    else e.text
  }

  /** `contents += ...` over the builder calls, in order. */
  function Contents(all: seq<Node>, rp: Path, es: seq<Event>): string {
    if es == [] then "" else Contents(all, rp, es[..|es| - 1]) + Piece(all, rp, es[|es| - 1])
  }

  function RuleContentsOf(all: seq<Node>, rp: Path): string {
    match Get(all, rp)
    case None => ""
    case Some(n) => Contents(all, rp, Events(n, rp, false))
  }

  /** The mixin callback keeps everything but the mixin's own opening and closing text. */
  function MixinPiece(mp: Path, e: Event): string {
    if e.path == mp && e.kind != Whole then "" else e.text
  }

  function MixinFold(mp: Path, es: seq<Event>): string {
    if es == [] then "" else MixinFold(mp, es[..|es| - 1]) + MixinPiece(mp, es[|es| - 1])
  }

  function MixinContentsOf(all: seq<Node>, mp: Path): string {
    match Get(all, mp)
    case None => ""
    case Some(n) => MixinFold(mp, Events(n, mp, false))
  }

  // Registration into the table.

  /** `/^(\.|%)/` */
  predicate IsClassSelector(selector: string) {
    StartsWith(selector, ".") || StartsWith(selector, "%")
  }

  /** The identifier of a `.class` or `%placeholder` rule. */
  function RuleKey(selector: string): string
    requires selector != []
  {
    if selector[0] == '%' then PlaceHolderToVar(selector) else SelectorToIdentifier(selector)
  }

  function RuleEntry(all: seq<Node>, p: Path, n: Node): (e: Entry)
    requires n.tag.Rule? && n.tag.selector != []
    ensures e.kind == Placeholder <==> n.tag.selector[0] == '%'
    ensures e.kind != Mixin && e.line == n.line
  {
    Entry(if n.tag.selector[0] == '%' then Placeholder else Class, RuleContentsOf(all, p), n.line)
  }

  /** The rule at `p` is registered, under `key`. */
  predicate RegistersRule(all: seq<Node>, p: Path) {
    Get(all, p).Some? && Get(all, p).value.tag.Rule? && IsClassSelector(Get(all, p).value.tag.selector)
    && !NestedInMixin(all, p)
  }

  function RuleStep(all: seq<Node>, t: Table, p: Path): Table {
    if RegistersRule(all, p) then
      var n := Get(all, p).value;
      MapSet(t, RuleKey(n.tag.selector), RuleEntry(all, p, n))
    else t
  }

  /** The table after the flattening walk has visited `ps`. */
  function RegisteredRules(all: seq<Node>, t: Table, ps: seq<Path>): Table {
    if ps == [] then t else RuleStep(all, RegisteredRules(all, t, ps[..|ps| - 1]), ps[|ps| - 1])
  }

  function MixinStep(all: seq<Node>, t: Table, p: Path): Result<Table, Failure> {
    if Get(all, p).Some? && IsMixin(Get(all, p).value.tag) then
      var n := Get(all, p).value;
      match MixinParamsToFunc(n.tag.params)
      case Err(f) => Err(f)
      case Ok(key) => Ok(MapSet(t, key, Entry(Mixin, MixinContentsOf(all, p), n.line)))
    else Ok(t)
  }

  /** The table after the mixin walk has visited `ps`, or the first failure. */
  function RegisteredMixins(all: seq<Node>, t: Table, ps: seq<Path>): Result<Table, Failure> {
    if ps == [] then Ok(t)
    else
      match RegisteredMixins(all, t, ps[..|ps| - 1])
      case Err(f) => Err(f)
      case Ok(t') => MixinStep(all, t', ps[|ps| - 1])
  }

  /** One more step of the flattening walk. */
  lemma RegisteredRulesNext(all: seq<Node>, t: Table, ps: seq<Path>, i: nat)
    requires i < |ps|
    ensures RegisteredRules(all, t, ps[..i + 1]) == RuleStep(all, RegisteredRules(all, t, ps[..i]), ps[i])
  {
    assert ps[..i + 1][..i] == ps[..i];
  }

  /** One more step of the mixin walk, from a table it has reached. */
  lemma RegisteredMixinsNext(all: seq<Node>, t: Table, ps: seq<Path>, i: nat, t': Table)
    requires i < |ps| && RegisteredMixins(all, t, ps[..i]) == Ok(t')
    ensures RegisteredMixins(all, t, ps[..i + 1]) == MixinStep(all, t', ps[i])
  {
    assert ps[..i + 1][..i] == ps[..i];
  }

  /** Once the mixin walk has failed, it stays failed with the same failure. */
  lemma {:induction false} MixinFailureSticks(all: seq<Node>, t: Table, ps: seq<Path>, j: nat)
    requires j <= |ps| && RegisteredMixins(all, t, ps[..j]).Err?
    ensures RegisteredMixins(all, t, ps) == RegisteredMixins(all, t, ps[..j])
    decreases |ps| - j
  {
    if j < |ps| {
      assert ps[..j + 1][..j] == ps[..j];
      MixinFailureSticks(all, t, ps, j + 1);
    } else {
      assert ps[..j] == ps;
    }
  }

  /** The state `processRoot` leaves behind. */
  datatype State = State(nodes: seq<Node>, classes: Table, usesFeBraryVars: bool, usesCustomVars: bool)

  /** `processRoot` on a tree whose `usesCustomVars` flag starts as given. */
  function ProcessRootOf(tree: seq<Node>, usesCustomVars: bool): Result<State, Failure> {
    var extended := MapNodes(ExtendTag, tree, []);
    match IncludePass(extended)
    case Err(f) => Err(f)
    case Ok(included) =>
      var resolved := DeclPass(included);
      var fe := IncludeSetsFeBrary(extended) || DeclSetsFeBrary(included);
      var custom := usesCustomVars || DeclSetsCustom(included);
      var rules := RegisteredRules(resolved, [], PreOrder(resolved));
      match RegisteredMixins(resolved, rules, PreOrder(resolved))
      case Err(f) => Err(f)
      case Ok(t) => Ok(State(resolved, t, fe, custom))
  }

  /** The exported conversion, before formatting: the parsed tree to module text. */
  function ConvertOf(tree: seq<Node>): Result<string, Failure> {
    match ProcessRootOf(tree, false)
    case Err(f) => Err(f)
    case Ok(s) => Ok(Emit(s.classes, s.usesFeBraryVars, s.usesCustomVars))
  }

  /** The postcss root: the tree, the table of blocks and the two file-level flags. */
  class Root {
    var nodes: seq<Node>
    var classes: Table
    var usesFeBraryVars: bool
    var usesCustomVars: bool

    /** A freshly parsed root: no table yet, neither flag set. */
    constructor (tree: seq<Node>)
      ensures nodes == tree && classes == [] && !usesFeBraryVars && !usesCustomVars
    {
      nodes := tree;
      classes := [];
      usesFeBraryVars := false;
      usesCustomVars := false;
    }

    /** `isNestedInMixin(root, node)`: climbs from the parent towards the root. */
    method IsNestedInMixin(p: Path) returns (nested: bool)
      requires Get(nodes, p).Some?
      ensures nested == NestedInMixin(nodes, p)
    {
      nested := false;
      var k: int := |p| - 1;
      while true
        invariant 0 <= k < |p| && !nested
        invariant forall j :: k < j < |p| ==> !MixinAncestor(nodes, p, j)
        decreases k
      {
        if k != 0 && IsMixin(AncestorTag(p, k)) {
          nested := true;
        }
        assert nested <==> MixinAncestor(nodes, p, k);
        k := k - 1;
        if !(k >= 0 && k != 0 && !nested) {
          assert !nested ==> forall j :: 0 <= j < |p| ==> !MixinAncestor(nodes, p, j);
          break;
        }
      }
    }

    /** `isNestedInPseudo(root, node)`: the same climb, looking for a `&:` rule. */
    method IsNestedInPseudo(p: Path) returns (nested: bool)
      requires Get(nodes, p).Some?
      ensures nested == NestedInPseudo(nodes, p)
    {
      nested := false;
      var k: int := |p| - 1;
      while true
        invariant 0 <= k < |p| && !nested
        invariant forall j :: k < j < |p| ==> !PseudoAncestor(nodes, p, j)
        decreases k
      {
        if k != 0 && IsPseudo(AncestorTag(p, k)) {
          nested := true;
        }
        assert nested <==> PseudoAncestor(nodes, p, k);
        k := k - 1;
        if !(k >= 0 && k != 0 && !nested) {
          assert !nested ==> forall j :: 0 <= j < |p| ==> !PseudoAncestor(nodes, p, j);
          break;
        }
      }
    }

    /** The ancestor of the node at `p` at depth `k`. */
    function AncestorTag(p: Path, k: nat): (l: Label)
      reads this
      requires Get(nodes, p).Some? && 1 <= k < |p|
      ensures Get(nodes, p[..k]).Some? && l == Get(nodes, p[..k]).value.tag
    {
      GetPrefix(nodes, p, k);
      Get(nodes, p[..k]).value.tag
    }

    /** The `postcss.stringify` callback of the flattening walk, folded over the rule's builder calls. */
    method RuleContents(rp: Path) returns (contents: string)
      requires Get(nodes, rp).Some?
      ensures contents == RuleContentsOf(nodes, rp)
    {
      var n := Get(nodes, rp).value;
      var events := Events(n, rp, false);
      EventsFrom(nodes, rp, n, false);
      contents := "";
      for i := 0 to |events|
        invariant contents == Contents(nodes, rp, events[..i])
      {
        var e := events[i];
        assert events[..i + 1][..i] == events[..i];
        assert EventFrom(nodes, rp, e);
        var piece: string;
        if e.path == rp && e.kind != Whole {
          piece := "";
        } else {
          var pseudo := false;
          if e.tag.Rule? && e.kind == Start {
            pseudo := IsNestedInPseudo(e.path);
          }
          if pseudo {
            piece := "${" + SelectorToIdentifier(e.tag.selector) + "}";
          } else if e.tag.Rule? && StartsWith(e.tag.selector, ".") {
            piece := "";
          } else if e.tag.Decl? && InNestedClass(nodes, rp, e.path) {
            piece := "";
          } else if e.tag.AtRule? && (e.tag.name == "extend" || e.tag.name == "include") {
            piece := e.tag.params + "\n";
          } else {
            piece := e.text;
          }
        }
        contents := contents + piece;
      }
      assert events[..|events|] == events;
    }

    /** The `postcss.stringify` callback of the mixin walk. */
    method MixinContents(mp: Path) returns (contents: string)
      requires Get(nodes, mp).Some?
      ensures contents == MixinContentsOf(nodes, mp)
    {
      var n := Get(nodes, mp).value;
      var events := Events(n, mp, false);
      contents := "";
      for i := 0 to |events|
        invariant contents == MixinFold(mp, events[..i])
      {
        var e := events[i];
        assert events[..i + 1][..i] == events[..i];
        if !(e.path == mp && e.kind != Whole) {
          contents := contents + e.text;
        }
      }
      assert events[..|events|] == events;
    }

    /** `walkRules(/^(\.|%)/, ...)`: registers every class and placeholder rule outside a mixin. */
    method FlattenRules()
      modifies this
      ensures nodes == old(nodes) && usesFeBraryVars == old(usesFeBraryVars) && usesCustomVars == old(usesCustomVars)
      ensures classes == RegisteredRules(nodes, old(classes), PreOrder(nodes))
    {
      var paths := PreOrder(nodes);
      PreOrderValid(nodes);
      for i := 0 to |paths|
        invariant nodes == old(nodes) && usesFeBraryVars == old(usesFeBraryVars) && usesCustomVars == old(usesCustomVars)
        invariant classes == RegisteredRules(nodes, old(classes), paths[..i])
      {
        RegisteredRulesNext(nodes, old(classes), paths, i);
        assert paths[i] in PreOrder(nodes);
        RegisterRule(paths[i]);
      }
      assert paths[..|paths|] == paths;
    }

    /** The callback of the flattening walk, for the rule at `p`. */
    method RegisterRule(p: Path)
      requires Get(nodes, p).Some?
      modifies this
      ensures nodes == old(nodes) && usesFeBraryVars == old(usesFeBraryVars) && usesCustomVars == old(usesCustomVars)
      ensures classes == RuleStep(nodes, old(classes), p)
    {
      var n := Get(nodes, p).value;
      if n.tag.Rule? && IsClassSelector(n.tag.selector) {
        var isPlaceHolder := n.tag.selector[0] == '%';
        var selector := if isPlaceHolder then PlaceHolderToVar(n.tag.selector) else SelectorToIdentifier(n.tag.selector);
        var nested := IsNestedInMixin(p);
        if !nested {
          var contents := RuleContents(p);
          assert selector == RuleKey(n.tag.selector);
          assert Entry(if isPlaceHolder then Placeholder else Class, contents, n.line) == RuleEntry(nodes, p, n);
          classes := MapSet(classes, selector, Entry(if isPlaceHolder then Placeholder else Class, contents, n.line));
        }
      }
    }

    /** `walkAtRules('mixin', ...)`: registers every mixin under its function signature. */
    method RegisterMixins() returns (r: Result<(), Failure>)
      modifies this
      ensures nodes == old(nodes) && usesFeBraryVars == old(usesFeBraryVars) && usesCustomVars == old(usesCustomVars)
      ensures match RegisteredMixins(nodes, old(classes), PreOrder(nodes))
        case Ok(t) => r.Ok? && classes == t
        case Err(f) => r == Err(f)
    {
      var paths := PreOrder(nodes);
      PreOrderValid(nodes);
      for i := 0 to |paths|
        invariant nodes == old(nodes) && usesFeBraryVars == old(usesFeBraryVars) && usesCustomVars == old(usesCustomVars)
        invariant RegisteredMixins(nodes, old(classes), paths[..i]) == Ok(classes)
      {
        RegisteredMixinsNext(nodes, old(classes), paths, i, classes);
        var p := paths[i];
        assert p in PreOrder(nodes);
        var n := Get(nodes, p).value;
        if IsMixin(n.tag) {
          var key := MixinParamsToFunc(n.tag.params);
          if key.Err? {
            assert MixinStep(nodes, classes, p) == Err(key.error);
            MixinFailureSticks(nodes, old(classes), paths, i + 1);
            return Err(key.error);
          }
          var contents := MixinContents(p);
          assert MixinStep(nodes, classes, p) == Ok(MapSet(classes, key.value, Entry(Mixin, contents, n.line)));
          classes := MapSet(classes, key.value, Entry(Mixin, contents, n.line));
        }
      }
      assert paths[..|paths|] == paths;
      r := Ok(());
    }

    /** `processRoot(root)`. */
    method ProcessRoot() returns (r: Result<(), Failure>)
      modifies this
      ensures match ProcessRootOf(old(nodes), old(usesCustomVars))
        case Ok(s) => r.Ok? && nodes == s.nodes && classes == s.classes
          && usesFeBraryVars == s.usesFeBraryVars && usesCustomVars == s.usesCustomVars
        case Err(f) => r == Err(f)
    {
      classes := [];
      usesFeBraryVars := false;
      nodes := MapNodes(ExtendTag, nodes, []);
      var included := IncludePass(nodes);
      if included.Err? {
        return Err(included.error);
      }
      usesFeBraryVars := IncludeSetsFeBrary(nodes);
      nodes := included.value;
      usesFeBraryVars := usesFeBraryVars || DeclSetsFeBrary(nodes);
      usesCustomVars := usesCustomVars || DeclSetsCustom(nodes);
      nodes := DeclPass(nodes);
      FlattenRules();
      r := RegisterMixins();
    }
  }

  /** The exported function of transform.js, up to the formatter. */
  method Convert(tree: seq<Node>) returns (r: Result<string, Failure>)
    ensures r == ConvertOf(tree)
  {
    var root := new Root(tree);
    var processed := root.ProcessRoot();
    if processed.Err? {
      return Err(processed.error);
    }
    r := Ok(Emit(root.classes, root.usesFeBraryVars, root.usesCustomVars));
  }
}

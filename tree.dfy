/**
 * The postcss-scss syntax tree the converter walks, as a value. A node is
 * addressed by its path of child indices from the root; the parent links of
 * postcss become path prefixes. Stringification is the sequence of
 * `(text, node, start|end)` events that `postcss.stringify` hands to its
 * builder callback.
 */
module Tree {
  import opened Wrappers
  import opened Strings

  /** What a node is: a declaration, a rule, an at-rule (with or without a `{}` body) or a comment. */
  datatype Label =
    | Decl(prop: string, value: string)
    | Rule(selector: string)
    | AtRule(name: string, params: string, hasBody: bool)
    | Comment(text: string)

  /** A node, its children and the line its source starts on. Only containers have children that are walked. */
  datatype Node = Node(tag: Label, nodes: seq<Node>, line: nat)

  /** Rules and at-rules with a body hold children. */
  predicate IsContainer(l: Label) {
    l.Rule? || (l.AtRule? && l.hasBody)
  }

  /** Child indices from the root; the root itself is the empty path. */
  type Path = seq<nat>

  /** The node at path `p` below the top-level nodes `ns`, if there is one. */
  function Get(ns: seq<Node>, p: Path): Option<Node>
    decreases |p|
  {
    if p == [] || p[0] >= |ns| then None
    else if |p| == 1 then Some(ns[p[0]])
    else Get(ns[p[0]].nodes, p[1..])
  }

  /** Every ancestor of a node below the root is a node too. */
  lemma {:induction false} GetPrefix(ns: seq<Node>, p: Path, k: nat)
    requires Get(ns, p).Some? && 1 <= k <= |p|
    ensures Get(ns, p[..k]).Some?
    decreases |p|
  {
    if k > 1 {
      GetPrefix(ns[p[0]].nodes, p[1..], k - 1);
      assert p[..k][1..] == p[1..][..k - 1];
    }
  }

  /** The i-th child of the node at `p` is at `p + [i]`. */
  lemma {:induction false} GetChild(ns: seq<Node>, p: Path, i: nat)
    requires Get(ns, p).Some? && i < |Get(ns, p).value.nodes|
    ensures Get(ns, p + [i]) == Some(Get(ns, p).value.nodes[i])
    decreases |p|
  {
    if |p| > 1 {
      GetChild(ns[p[0]].nodes, p[1..], i);
      assert (p + [i])[1..] == p[1..] + [i];
    }
  }

  /** The top-level node i is at `[i]`. */
  lemma GetTop(ns: seq<Node>, i: nat)
    requires i < |ns|
    ensures Get(ns, [i]) == Some(ns[i])
  {
  }

  /**
   * The nodes `postcss`'s `walk` visits below the node at `prefix`, whose
   * children are `ns`, from child `i` on: each node before its descendants,
   * descending into containers only.
   */
  function WalkFrom(ns: seq<Node>, prefix: Path, i: nat): seq<Path>
    decreases ns, |ns| - i
  {
    if i >= |ns| then []
    else
      [prefix + [i]]
      + (if IsContainer(ns[i].tag) then WalkFrom(ns[i].nodes, prefix + [i], 0) else [])
      + WalkFrom(ns, prefix, i + 1)
  }

  /** `root.walk`: every node of the tree, in document order. */
  function PreOrder(ns: seq<Node>): seq<Path> {
    WalkFrom(ns, [], 0)
  }

  /** The walk below the node at `prefix` visits its descendants, and only those. */
  lemma {:induction false} WalkFromValid(all: seq<Node>, prefix: Path, ns: seq<Node>, i: nat)
    requires prefix == [] ==> ns == all
    requires prefix != [] ==> Get(all, prefix).Some? && Get(all, prefix).value.nodes == ns
    ensures forall q :: q in WalkFrom(ns, prefix, i) ==> Get(all, q).Some? && |q| > |prefix| && q[..|prefix|] == prefix
    decreases ns, |ns| - i
  {
    if i < |ns| {
      var here := prefix + [i];
      if prefix == [] {
        GetTop(all, i);
      } else {
        GetChild(all, prefix, i);
      }
      assert Get(all, here) == Some(ns[i]);
      if IsContainer(ns[i].tag) {
        WalkFromValid(all, here, ns[i].nodes, 0);
        forall q | q in WalkFrom(ns[i].nodes, here, 0)
          ensures q[..|prefix|] == prefix
        {
          assert q[..|prefix|] == q[..|here|][..|prefix|];
        }
      }
      WalkFromValid(all, prefix, ns, i + 1);
    }
  }

  /** Every path the walk visits addresses a node. */
  lemma PreOrderValid(ns: seq<Node>)
    ensures forall q :: q in PreOrder(ns) ==> Get(ns, q).Some?
  {
    WalkFromValid(ns, [], ns, 0);
  }

  /** A path that goes down through containers only, as the walk does. */
  predicate Reach(ns: seq<Node>, q: Path)
    decreases |q|
  {
    q != [] && q[0] < |ns| && (|q| == 1 || (IsContainer(ns[q[0]].tag) && Reach(ns[q[0]].nodes, q[1..])))
  }

  lemma {:induction false} ReachGet(ns: seq<Node>, q: Path)
    requires Reach(ns, q)
    ensures Get(ns, q).Some?
    decreases |q|
  {
    if |q| > 1 {
      ReachGet(ns[q[0]].nodes, q[1..]);
    }
  }

  /** The walk only goes down through containers. */
  lemma {:induction false} WalkFromReach(ns: seq<Node>, prefix: Path, i: nat)
    ensures forall q :: q in WalkFrom(ns, prefix, i) ==>
      |q| > |prefix| && q[..|prefix|] == prefix && Reach(ns, q[|prefix|..])
    decreases ns, |ns| - i
  {
    if i < |ns| {
      var here := prefix + [i];
      assert here[..|prefix|] == prefix && here[|prefix|..] == [i];
      if IsContainer(ns[i].tag) {
        WalkFromReach(ns[i].nodes, here, 0);
        forall q | q in WalkFrom(ns[i].nodes, here, 0)
          ensures q[..|prefix|] == prefix && Reach(ns, q[|prefix|..])
        {
          assert q[..|prefix|] == q[..|here|][..|prefix|];
          var r := q[|prefix|..];
          assert r[0] == i && r[1..] == q[|here|..];
        }
      }
      WalkFromReach(ns, prefix, i + 1);
    }
  }

  lemma PreOrderReach(ns: seq<Node>)
    ensures forall q :: q in PreOrder(ns) ==> Reach(ns, q)
  {
    WalkFromReach(ns, [], 0);
    forall q | q in PreOrder(ns)
      ensures Reach(ns, q)
    {
      assert q[0..] == q;
    }
  }

  /** `@mixin` at-rules. */
  predicate IsMixin(l: Label) {
    l.AtRule? && l.name == "mixin"
  }

  /** Rules whose selector starts with `&:`. */
  predicate IsPseudo(l: Label) {
    l.Rule? && StartsWith(l.selector, "&:")
  }

  /** Some proper ancestor of the node at `p`, strictly below the root, is a `@mixin`. */
  predicate NestedInMixin(ns: seq<Node>, p: Path) {
    exists k :: 1 <= k < |p| && MixinAncestor(ns, p, k)
  }

  /** The ancestor of the node at `p` at depth `k` is a `@mixin`. */
  predicate MixinAncestor(ns: seq<Node>, p: Path, k: int) {
    1 <= k < |p| && Get(ns, p[..k]).Some? && IsMixin(Get(ns, p[..k]).value.tag)
  }

  /** Some proper ancestor of the node at `p`, strictly below the root, is a `&:` rule. */
  predicate NestedInPseudo(ns: seq<Node>, p: Path) {
    exists k :: 1 <= k < |p| && PseudoAncestor(ns, p, k)
  }

  /** The ancestor of the node at `p` at depth `k` is a `&:` rule. */
  predicate PseudoAncestor(ns: seq<Node>, p: Path, k: int) {
    1 <= k < |p| && Get(ns, p[..k]).Some? && IsPseudo(Get(ns, p[..k]).value.tag)
  }

  /** Whether an event opens a block, closes it, or is a whole node (`startOrEnd` undefined). */
  datatype Kind = Start | End | Whole

  /** One call of the stringify builder: the text, and the node it belongs to. */
  datatype Event = Event(text: string, path: Path, kind: Kind, tag: Label)

  /** `@name params`, with the space only when there are params. */
  function AtRuleHead(name: string, params: string): string {
    "@" + name + (if params == "" then "" else " " + params)
  }

  /**
   * The builder calls for the node `n` at path `p`: `prop: value;` for a
   * declaration, the opening line, the children and `}` for a block, and the
   * at-rule line alone for a body-less at-rule, which ends in `;` only inside a
   * parent (`semicolon`).
   */
  function Events(n: Node, p: Path, semicolon: bool): seq<Event>
    decreases n, 0
  {
    match n.tag
    case Decl(prop, value) => [Event(prop + ": " + value + ";", p, Whole, n.tag)]
    case Comment(text) => [Event("/*" + text + "*/", p, Whole, n.tag)]
    case Rule(selector) =>
      [Event(selector + " {", p, Start, n.tag)] + ChildEvents(n.nodes, p, 0) + [Event("}", p, End, n.tag)]
    case AtRule(name, params, hasBody) =>
      if hasBody then
        [Event(AtRuleHead(name, params) + " {", p, Start, n.tag)] + ChildEvents(n.nodes, p, 0) + [Event("}", p, End, n.tag)]
      else
        [Event(AtRuleHead(name, params) + (if semicolon then ";" else ""), p, Whole, n.tag)]
  }

  /** The builder calls for the children `ns` of the node at `p`, from child `i` on. */
  function ChildEvents(ns: seq<Node>, p: Path, i: nat): seq<Event>
    decreases ns, |ns| - i
  {
    if i >= |ns| then [] else Events(ns[i], p + [i], true) + ChildEvents(ns, p, i + 1)
  }

  /** The text postcss would produce: all event texts in order. */
  function Text(es: seq<Event>): string {
    if es == [] then "" else Text(es[..|es| - 1]) + es[|es| - 1].text
  }

  /** What an event says about the tree it came from. */
  predicate EventFrom(all: seq<Node>, p: Path, e: Event) {
    Get(all, e.path).Some? && Get(all, e.path).value.tag == e.tag
    && |e.path| >= |p| && e.path[..|p|] == p
    && (e.kind != Whole ==> IsContainer(e.tag))
    && (e.path == p || (|e.path| > |p| && Get(all, e.path[..|e.path| - 1]).Some?
          && IsContainer(Get(all, e.path[..|e.path| - 1]).value.tag)))
  }

  /** Every event of the node at `p` belongs to that node or to a descendant of it. */
  lemma {:induction false} EventsFrom(all: seq<Node>, p: Path, n: Node, semicolon: bool)
    requires Get(all, p) == Some(n)
    ensures forall e :: e in Events(n, p, semicolon) ==> EventFrom(all, p, e)
    decreases n, 0
  {
    if IsContainer(n.tag) {
      ChildEventsFrom(all, p, n, 0);
    }
  }

  lemma {:induction false} ChildEventsFrom(all: seq<Node>, p: Path, n: Node, i: nat)
    requires Get(all, p) == Some(n) && IsContainer(n.tag)
    ensures forall e :: e in ChildEvents(n.nodes, p, i) ==> EventFrom(all, p, e)
    decreases n.nodes, |n.nodes| - i
  {
    if i < |n.nodes| {
      var q := p + [i];
      GetChild(all, p, i);
      EventsFrom(all, q, n.nodes[i], true);
      forall e | e in Events(n.nodes[i], q, true)
        ensures EventFrom(all, p, e)
      {
        assert e.path[..|p|] == e.path[..|q|][..|p|];
        if e.path == q {
          assert e.path[..|e.path| - 1] == p;
        }
      }
      ChildEventsFrom(all, p, n, i + 1);
    }
  }

  /** The text of consecutive calls is the concatenation of their texts. */
  lemma {:induction false} TextAppend(a: seq<Event>, b: seq<Event>)
    ensures Text(a + b) == Text(a) + Text(b)
    decreases |b|
  {
    if b == [] {
      assert a + b == a;
    } else {
      var b', last := b[..|b| - 1], b[|b| - 1];
      var ab := a + b;
      assert ab[..|ab| - 1] == a + b';
      assert ab[|ab| - 1] == last;
      TextAppend(a, b');
      Assoc(Text(a), Text(b'), last.text);
    }
  }

  /** Every call for the node at `q` is about that node or a node below it. */
  lemma {:induction false} EventsDeep(n: Node, q: Path, semicolon: bool)
    ensures forall e :: e in Events(n, q, semicolon) ==> |e.path| >= |q| && e.path[..|q|] == q
    ensures forall e :: e in Events(n, q, semicolon) && e.path == q ==> e.tag == n.tag
    decreases n, 0
  {
    if IsContainer(n.tag) {
      ChildEventsDeep(n.nodes, q, 0);
    }
  }

  /** The calls for the children of the node at `p` are about nodes strictly below it. */
  lemma {:induction false} ChildEventsDeep(ns: seq<Node>, p: Path, i: nat)
    ensures forall e :: e in ChildEvents(ns, p, i) ==> |e.path| > |p| && e.path[..|p|] == p
    decreases ns, |ns| - i
  {
    if i < |ns| {
      var q := p + [i];
      EventsDeep(ns[i], q, true);
      forall e | e in Events(ns[i], q, true)
        ensures |e.path| > |p| && e.path[..|p|] == p
      {
        assert e.path[..|p|] == e.path[..|q|][..|p|];
      }
      ChildEventsDeep(ns, p, i + 1);
    }
  }
}

/**
 * plugin.js: the Babel plugin that moves JSX components onto the generated
 * stylesheet. A `className="block__element"` attribute becomes
 * `className={styles.element}`, and a program that imports React but nothing
 * with `style` in its source gets `import * as styles from '../style/<file>'`
 * right after its last import.
 */
module Plugin {
  import opened Wrappers
  import opened Strings
  import opened Lodash
  import opened SelectorIdentifier
  import Transform

  // ---------------------------------------------------------------------------
  // The JSXAttribute visitor

  /** A JSX attribute name: a plain identifier, or `namespace:name`. */
  datatype AttrName = Name(id: string) | Namespaced(namespace: string, id: string)

  /** The attribute values the visitor tells apart. */
  datatype AttrValue =
    | StringLiteral(value: string)
      // `{receiver.property}`
    | MemberExpression(receiver: string, property: string)
    | OtherValue

  /** Why a visitor stops with a `TypeError`. */
  datatype Crash = ValueIsNull

  /** The attribute is a `className` string with no space in it: one class to point at the stylesheet. */
  predicate Rewrites(name: AttrName, value: AttrValue) {
    name == Name("className") && value.StringLiteral? && ' ' !in value.value
  }

  /**
   * The value the visitor leaves: a single class name becomes the member of
   * `styles` named by its BEM element (or block); anything else stays.
   */
  function RewrittenValue(name: AttrName, value: AttrValue): (r: AttrValue)
    ensures Rewrites(name, value) ==> r.MemberExpression? && r.receiver == "styles" && AllAlnum(r.property)
    ensures !Rewrites(name, value) ==> r == value
  {
    if Rewrites(name, value) then MemberExpression("styles", SelectorToIdentifier(value.value))
    else value
  }

  /** Visiting an attribute twice changes nothing more than visiting it once. */
  lemma RewriteIdempotent(name: AttrName, value: AttrValue)
    ensures RewrittenValue(name, RewrittenValue(name, value)) == RewrittenValue(name, value)
  {
  }

  /**
   * The member the JSX is pointed at is exactly the name under which the
   * stylesheet model registers the rule `.<class>`.
   */
  lemma PointsAtRegisteredClass(cls: string)
    requires ' ' !in cls
    ensures RewrittenValue(Name("className"), StringLiteral(cls)) == MemberExpression("styles", Transform.RuleKey("." + cls))
  {
    ClassDotIgnored(cls);
  }

  /** The example in the source: `email-share__form-group` becomes `styles.formGroup`. */
  lemma BemExample()
    ensures RewrittenValue(Name("className"), StringLiteral("email-share__form-group")) == MemberExpression("styles", "formGroup")
  {
    ExampleHasNoSpace();
    DocumentedExample();
    assert Rewrites(Name("className"), StringLiteral("email-share__form-group"));
  }

  lemma ExampleHasNoSpace()
    ensures ' ' !in "email-share__form-group"
  {
    ExampleGlued();
    assert ' ' !in "email-share";
    assert ' ' !in "form-group";
  }

  /** A list of classes, an attribute of another name and a namespaced `className` are left alone. */
  lemma LeftAlone(a: string, b: string, value: AttrValue, ns: string)
    ensures RewrittenValue(Name("className"), StringLiteral(a + " " + b)) == StringLiteral(a + " " + b)
    ensures RewrittenValue(Namespaced(ns, "className"), value) == value
  {
    assert (a + " " + b)[|a|] == ' ';
  }

  /** A JSX attribute node, whose value the visitor replaces in place. */
  class JsxAttribute {
    var name: AttrName
    var value: Option<AttrValue>

    constructor (name: AttrName, value: Option<AttrValue>)
      ensures this.name == name && this.value == value
    {
      this.name := name;
      this.value := value;
    }

    /** `JSXAttribute({ node })`: reading the type of a missing value throws. */
    method Visit() returns (r: Result<(), Crash>)
      modifies this
      ensures name == old(name)
      ensures old(value).None? ==> r == Err(ValueIsNull) && value == old(value)
      ensures old(value).Some? ==> r.Ok? && value == Some(RewrittenValue(name, old(value).value))
    {
      if value.None? {
        return Err(ValueIsNull);
      }
      var v := value.value;
      if v.StringLiteral? && name == Name("className") {
        if ' ' !in v.value {
          var selector := SelectorToIdentifier(v.value);
          value := Some(MemberExpression("styles", selector));
        }
      }
      r := Ok(());
    }
  }

  // ---------------------------------------------------------------------------
  // The Program visitor

  /** What an import binds. */
  datatype Specifier =
    | ImportDefault(local: string)
    | ImportNamespace(local: string)
    | ImportNamed(imported: string, local: string)

  /** A top-level statement: an import with its specifiers and source, or anything else. */
  datatype Statement = ImportDeclaration(specifiers: seq<Specifier>, source: string) | OtherStatement

  /** `body.some(... source.value === 'react')` */
  predicate HasReact(body: seq<Statement>) {
    exists i :: 0 <= i < |body| && body[i].ImportDeclaration? && body[i].source == "react"
  }

  /** An import whose source mentions `style`. */
  predicate IsStyleImport(s: Statement) {
    s.ImportDeclaration? && Contains(s.source, "style")
  }

  /** `body.some(... source.value.includes('style'))` */
  predicate HasStyleImport(body: seq<Statement>) {
    body != [] && (IsStyleImport(body[0]) || HasStyleImport(body[1..]))
  }

  /** `some` finds a style import wherever it sits, and only if there is one. */
  lemma {:induction false} HasStyleImportAt(body: seq<Statement>)
    ensures HasStyleImport(body) <==> exists i :: 0 <= i < |body| && IsStyleImport(body[i])
  {
    if body != [] {
      HasStyleImportAt(body[1..]);
      if HasStyleImport(body[1..]) {
        var i :| 0 <= i < |body[1..]| && IsStyleImport(body[1..][i]);
        assert IsStyleImport(body[i + 1]);
      }
      forall i | 1 <= i < |body| && IsStyleImport(body[i])
        ensures HasStyleImport(body[1..])
      {
        assert body[1..][i - 1] == body[i];
      }
    }
  }

  /** `body.slice().reverse().findIndex(... ImportDeclaration)`: how far from the end the last import is, or -1. */
  function LastImportFromEnd(body: seq<Statement>): (r: int)
    ensures -1 <= r < |body|
    ensures r == -1 <==> forall i :: 0 <= i < |body| ==> !body[i].ImportDeclaration?
    ensures r >= 0 ==> body[|body| - 1 - r].ImportDeclaration?
    ensures r >= 0 ==> forall i :: |body| - 1 - r < i < |body| ==> !body[i].ImportDeclaration?
  {
    if body == [] then -1
    else if body[|body| - 1].ImportDeclaration? then 0
    else
      var r := LastImportFromEnd(body[..|body| - 1]);
      if r < 0 then -1 else r + 1
  }

  /** `path.basename` for POSIX paths: trailing slashes dropped, then the part after the last slash. */
  function Basename(path: string): (r: string)
    ensures '/' !in r
  {
    LastSegment(DropTrailingSlashes(path))
  }

  function DropTrailingSlashes(s: string): (r: string)
    ensures r == [] || r[|r| - 1] != '/'
    ensures |r| <= |s| && r == s[..|r|]
    ensures forall i :: |r| <= i < |s| ==> s[i] == '/'
  {
    if s != [] && s[|s| - 1] == '/' then DropTrailingSlashes(s[..|s| - 1]) else s
  }

  function LastSegment(s: string): (r: string)
    ensures '/' !in r
    ensures |r| <= |s| && r == s[|s| - |r|..]
    ensures |r| < |s| ==> s[|s| - |r| - 1] == '/'
  {
    if s == [] || s[|s| - 1] == '/' then []
    else LastSegment(s[..|s| - 1]) + [s[|s| - 1]]
  }

  /** The file name of a path whose directory part ends in a slash. */
  lemma BasenameOf(dir: string, file: string)
    requires '/' !in file && file != []
    ensures Basename(dir + "/" + file) == file
  {
    var p := dir + "/" + file;
    assert p[|p| - 1] == file[|file| - 1];
    assert DropTrailingSlashes(p) == p;
    LastSegmentOf(dir, file);
  }

  lemma {:induction false} LastSegmentOf(dir: string, file: string)
    requires '/' !in file
    ensures LastSegment(dir + "/" + file) == file
    decreases |file|
  {
    var p := dir + "/" + file;
    if file != [] {
      var f := file[..|file| - 1];
      assert p[..|p| - 1] == dir + "/" + f;
      assert p[|p| - 1] == file[|file| - 1];
      LastSegmentOf(dir, f);
      assert file == f + [file[|file| - 1]];
    } else {
      assert p[|p| - 1] == '/';
    }
  }

  /** Trailing slashes do not change the base name. */
  lemma BasenameTrailingSlash(path: string)
    ensures Basename(path + "/") == Basename(path)
  {
    assert (path + "/")[..|path|] == path;
  }

  /** `import * as styles from '../style/<basename>'` */
  function StylesImport(filename: string): Statement {
    ImportDeclaration([ImportNamespace("styles")], "../style/" + Basename(filename))
  }

  /** Where the styles import goes: right after the last import. */
  function InsertionPoint(body: seq<Statement>): (k: nat)
    requires HasReact(body)
    ensures 1 <= k <= |body| && body[k - 1].ImportDeclaration?
    ensures forall i :: k <= i < |body| ==> !body[i].ImportDeclaration?
  {
    |body| - LastImportFromEnd(body)
  }

  /** `body.splice(k, 0, x)` */
  function Spliced(body: seq<Statement>, k: nat, x: Statement): seq<Statement>
    requires k <= |body|
  {
    body[..k] + [x] + body[k..]
  }

  /** `x` sits at `k` right after an import; the statements before keep their places, the rest shift by one and hold no import. */
  predicate SplicedAfterImport(body: seq<Statement>, k: nat, x: Statement)
    requires 1 <= k <= |body|
  {
    var r := Spliced(body, k, x);
    |r| == |body| + 1 && r[..k] == body[..k] && r[k] == x && r[k + 1..] == body[k..]
    && r[k - 1].ImportDeclaration?
    && forall i :: k < i < |r| ==> !r[i].ImportDeclaration?
  }

  /** The body after the Program visitor, for a file named `filename`. */
  function WithStylesImport(body: seq<Statement>, filename: string): seq<Statement> {
    if !HasReact(body) || HasStyleImport(body) then body
    else
      var k := InsertionPoint(body);
      Spliced(body, k, StylesImport(filename))
  }

  /** The import is added exactly when the file imports React and imports nothing with `style` in its source. */
  lemma StylesImportGuards(body: seq<Statement>, filename: string)
    ensures WithStylesImport(body, filename) != body <==> HasReact(body) && !HasStyleImport(body)
  {
    if HasReact(body) && !HasStyleImport(body) {
      var k := InsertionPoint(body);
      assert |body[..k] + [StylesImport(filename)] + body[k..]| == |body| + 1;
    }
  }

  /**
   * Whatever is spliced in at the insertion point sits right after the last
   * import, and every other statement keeps its place around it.
   */
  lemma StylesImportPlacement(body: seq<Statement>, x: Statement)
    requires HasReact(body)
    ensures SplicedAfterImport(body, InsertionPoint(body), x)
  {
    SpliceAfterImport(body, InsertionPoint(body), x);
  }

  /** When it is added, the import is spliced in at the insertion point. */
  lemma StylesImportSpliced(body: seq<Statement>, filename: string)
    requires HasReact(body) && !HasStyleImport(body)
    ensures WithStylesImport(body, filename) == Spliced(body, InsertionPoint(body), StylesImport(filename))
  {
    var k := InsertionPoint(body);
    var x := StylesImport(filename);
    assert WithStylesImport(body, filename) == Spliced(body, k, x);
  }

  /** Splicing `x` in right after the last import, at `k`. */
  lemma SpliceAfterImport(body: seq<Statement>, k: nat, x: Statement)
    requires 1 <= k <= |body| && body[k - 1].ImportDeclaration?
    requires forall i :: k <= i < |body| ==> !body[i].ImportDeclaration?
    ensures SplicedAfterImport(body, k, x)
  {
    var r := Spliced(body, k, x);
    assert r[..k] == body[..k];
    assert r[k + 1..] == body[k..];
    assert r[k - 1] == body[k - 1];
    forall i | k < i < |r|
      ensures !r[i].ImportDeclaration?
    {
      assert r[i] == body[i - 1];
    }
  }

  /** The inserted source names the style directory. */
  lemma StylesSourceMentionsStyle(filename: string)
    ensures Contains(StylesImport(filename).source, "style")
  {
    StyleDirContains(Basename(filename));
  }

  lemma StyleDirContains(file: string)
    ensures Contains("../style/" + file, "style")
  {
    var src := "../style/" + file;
    StyleDirPieces();
    assert src == "../" + "style" + ("/" + file);
    assert src[3..8] == "style";
    assert OccursAt(src, "style", 3);
    ContainsIffOccurs(src, "style");
  }

  lemma StyleDirPieces()
    ensures "../style/" == "../" + "style" + "/"
  {
  }

  /** Running the visitor again adds nothing: the new import is itself a style import. */
  lemma StylesImportIdempotent(body: seq<Statement>, filename: string)
    ensures WithStylesImport(WithStylesImport(body, filename), filename) == WithStylesImport(body, filename)
  {
    var r := WithStylesImport(body, filename);
    if HasReact(body) && !HasStyleImport(body) {
      StylesImportSpliced(body, filename);
      StylesImportPlacement(body, StylesImport(filename));
      StylesSourceMentionsStyle(filename);
      var k := InsertionPoint(body);
      assert IsStyleImport(r[k]);
      HasStyleImportAt(r);
    }
  }

  /** The Program node, whose body the visitor splices in place. */
  class Program {
    var body: seq<Statement>

    constructor (body: seq<Statement>)
      ensures this.body == body
    {
      this.body := body;
    }

    /** `Program({ node: { body } })`, for the file being transformed. */
    method InsertStylesImport(filename: string)
      modifies this
      ensures body == WithStylesImport(old(body), filename)
    {
      var b := body;
      if !HasReact(b) || HasStyleImport(b) {
        assert WithStylesImport(b, filename) == b;
        return;
      }
      var lastImport := LastImportFromEnd(b);
      var importStr := "../style/" + Basename(filename);
      var at := |b| - lastImport;
      assert at == InsertionPoint(b);
      var styles := ImportDeclaration([ImportNamespace("styles")], importStr);
      assert styles == StylesImport(filename);
      StylesImportSpliced(b, filename);
      body := Spliced(b, at, styles);
    }
  }
}

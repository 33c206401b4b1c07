/**
 * The value resolvers of transform.js: how a Sass variable, an `@extend`
 * target, an `@include` call and a `@mixin` signature become JavaScript
 * template-literal text.
 */
module Resolvers {
  import opened Wrappers
  import opened Strings
  import opened Lodash

  /** Variables with this prefix come from the fe-brary design tokens. */
  const FeBraryPrefix := "$fe-brary-"

  /** Why the conversion of a stylesheet stops. */
  datatype Failure =
    | UnrecognisedMediaQuery(message: string)
      // `split('(')` found no parenthesis, so the second part is undefined and the code crashes
    | MissingParenthesis(params: string)

  /** `placeHolderToVar`: the camelCase of everything after the first character. */
  function PlaceHolderToVar(s: string): (r: string)
    ensures AllAlnum(r)
  {
    CamelCase(if s == [] then s else s[1..])
  }

  /** The sigil is dropped, whatever it is: `%form-group` gives the camelCase of `form-group`. */
  lemma PlaceholderName(sigil: char, name: string)
    ensures PlaceHolderToVar([sigil] + name) == CamelCase(name)
  {
    assert ([sigil] + name)[1..] == name;
  }

  /** The part `$fe-brary-<name>$fe-brary-...` splits off as `name`. */
  lemma PrefixSplit(value: string)
    requires StartsWith(value, FeBraryPrefix)
    ensures |Split(value, FeBraryPrefix)| >= 2
    ensures Split(value, FeBraryPrefix)[1] == Before(value[|FeBraryPrefix|..], FeBraryPrefix)
  {
    var rest := value[|FeBraryPrefix|..];
    assert value == "" + FeBraryPrefix + rest;
    SplitGlued("", FeBraryPrefix, rest);
    SplitFirstTwo(rest, FeBraryPrefix);
  }

  /**
   * `vars.<field>.<varName>` for a fe-brary variable: `field` is the first
   * hyphen segment after the prefix, taken as it is; `varName` is the
   * camelCase of the remaining segments.
   */
  function FeBraryVar(value: string): (r: string)
    requires StartsWith(value, FeBraryPrefix)
    ensures var name := Before(value[|FeBraryPrefix|..], FeBraryPrefix);
      r == "vars." + Before(name, "-") + "." + CamelCase(After(name, "-"))
  {
    PrefixSplit(value);
    var name := Split(value, FeBraryPrefix)[1];
    var segs := Split(name, "-");
    SplitFirstTwo(name, "-");
    JoinTail(name, "-");
    "vars." + segs[0] + "." + CamelCase(Join(segs[1..], "-"))
  }

  /** What `handleSassVar` returns, and which file-level flags it sets. */
  datatype Resolved = Resolved(text: string, setsFeBrary: bool, setsCustom: bool)

  /**
   * `handleSassVar`: a whole declaration value that is a Sass variable becomes an
   * interpolation; anything else is returned as it is.
   */
  function HandleSassVar(value: string, nestedInMixin: bool): (r: Resolved)
    ensures r.setsFeBrary <==> StartsWith(value, FeBraryPrefix)
    ensures r.setsCustom <==> StartsWith(value, "$") && !StartsWith(value, FeBraryPrefix) && !nestedInMixin
    ensures !StartsWith(value, "$") ==> r.text == value
    ensures StartsWith(value, FeBraryPrefix) ==> r.text == "${" + FeBraryVar(value) + "}"
    ensures StartsWith(value, "$") && !StartsWith(value, FeBraryPrefix) ==>
      r.text == (if nestedInMixin then "${" else "${customVars.") + CamelCase(value[1..]) + "}"
  {
    if StartsWith(value, FeBraryPrefix) then
      Resolved("${" + FeBraryVar(value) + "}", true, false)
    else if StartsWith(value, "$") then
      var varName := CamelCase(value[1..]);
      if nestedInMixin then Resolved("${" + varName + "}", false, false)
      else Resolved("${customVars." + varName + "}", false, true)
    else
      Resolved(value, false, false)
  }

  /** A value starting with one of these is already a string literal. */
  predicate StartsWithQuote(value: string) {
    value != [] && (value[0] == '"' || value[0] == '\'')
  }

  /**
   * `handleSassVarUnescaped`: an `@include` argument as a JavaScript expression:
   * a variable reference, a quoted literal kept as it is, or any other literal
   * wrapped in single quotes.
   */
  function HandleSassVarUnescaped(value: string): (r: string)
    ensures StartsWith(r, "vars.") || StartsWith(r, "customVars.") || StartsWithQuote(r)
    ensures !StartsWith(value, "$") && StartsWithQuote(value) ==> r == value
    ensures !StartsWith(value, "$") && !StartsWithQuote(value) ==> r == "'" + value + "'"
  {
    if StartsWith(value, FeBraryPrefix) then FeBraryVar(value)
    else if StartsWith(value, "$") then "customVars." + CamelCase(value[1..])
    else if StartsWithQuote(value) then value
    else "'" + value + "'"
  }

  /** Outside a mixin a variable resolves to the same reference, escaped or not. */
  lemma EscapedIsWrappedUnescaped(value: string, nestedInMixin: bool)
    requires StartsWith(value, FeBraryPrefix) || !nestedInMixin
    ensures HandleSassVar(value, nestedInMixin).text ==
      if StartsWith(value, "$") then "${" + HandleSassVarUnescaped(value) + "}" else value
  {
    if StartsWith(value, FeBraryPrefix) {
      assert StartsWith(value, "$");
    }
  }

  /** A value with a variable anywhere but at its start is left alone: `1px solid $x`. */
  lemma WholeValueOnly(before: string, name: string, nestedInMixin: bool)
    requires before != [] && before[0] != '$'
    ensures HandleSassVar(before + "$" + name, nestedInMixin) == Resolved(before + "$" + name, false, false)
  {
    assert (before + "$" + name)[0] == before[0];
  }

  /** `s.replace(/\$/g, '')`: every `$` goes, every other character stays, as often as it occurs. */
  function RemoveDollars(s: string): (r: string)
    ensures '$' !in r
    ensures multiset(r) == multiset(s)['$' := 0]
    ensures forall c :: c in r <==> c in s && c != '$'
    ensures |r| <= |s|
  {
    if s == [] then ""
    else
      assert s == [s[0]] + s[1..];
      (if s[0] == '$' then "" else [s[0]]) + RemoveDollars(s[1..])
  }

  /** The removal works character by character, so it distributes over concatenation. */
  lemma {:induction false} RemoveDollarsAppend(a: string, b: string)
    ensures RemoveDollars(a + b) == RemoveDollars(a) + RemoveDollars(b)
    decreases |a|
  {
    if a != [] {
      assert (a + b)[1..] == a[1..] + b;
      RemoveDollarsAppend(a[1..], b);
      Assoc(if a[0] == '$' then "" else [a[0]], RemoveDollars(a[1..]), RemoveDollars(b));
    } else {
      assert a + b == b;
    }
  }

  /** Text without `$` is left as it is. */
  lemma {:induction false} RemoveDollarsFree(s: string)
    requires '$' !in s
    ensures RemoveDollars(s) == s
    decreases |s|
  {
    if s != [] {
      RemoveDollarsFree(s[1..]);
      assert s == [s[0]] + s[1..];
    }
  }

  /** Removing the `$` twice is removing them once. */
  lemma {:induction false} RemoveDollarsIdempotent(s: string)
    ensures RemoveDollars(RemoveDollars(s)) == RemoveDollars(s)
  {
    RemoveDollarsFree(RemoveDollars(s));
  }

  /**
   * `mixinParamsToFunc`: the mixin signature `name($a, $b)` as a function
   * signature: camelCased name, the argument list after the first `(` up to any
   * second `(`, every `$` removed.
   */
  function MixinParamsToFunc(params: string): (r: Result<string, Failure>)
    ensures r.Err? <==> !Contains(params, "(")
    ensures r.Err? ==> r.error == MissingParenthesis(params)
    ensures r.Ok? ==> r.value == CamelCase(Before(params, "(")) + "(" + RemoveDollars(Before(After(params, "("), "("))
    ensures r.Ok? ==> '$' !in r.value
  {
    var parts := Split(params, "(");
    SplitFirstTwo(params, "(");
    if |parts| < 2 then Err(MissingParenthesis(params))
    else
      var name := CamelCase(parts[0]);
      assert '$' !in name;
      Ok(name + "(" + RemoveDollars(parts[1]))
  }

  /** A mixin written `name(args)` with plain argument text is keyed by the camelCased name and the `$`-free arguments. */
  lemma MixinSignature(name: string, args: string)
    requires '(' !in name && '(' !in args
    ensures MixinParamsToFunc(name + "(" + args + ")") == Ok(CamelCase(name) + "(" + RemoveDollars(args + ")"))
  {
    var params := name + "(" + args + ")";
    assert params == name + "(" + (args + ")");
    SplitGlued(name, "(", args + ")");
    AbsentFirstChar(args + ")", "(");
    SplitAbsent(args + ")", "(");
  }

  /** The `@extend` parameters: an interpolation of the placeholder's variable, ended by `;`. */
  function ExtendParams(params: string): (r: string)
    ensures |r| >= 4 && r[..2] == "${" && r[|r| - 2..] == "};"
    ensures AllAlnum(r[2..|r| - 2])
  {
    var id := PlaceHolderToVar(params);
    assert ("${" + id + "};")[2..|id| + 2] == id;
    "${" + id + "};"
  }

  /** `@extend %name` refers to the variable of the placeholder `name`. */
  lemma ExtendOf(sigil: char, name: string)
    ensures ExtendParams([sigil] + name) == "${" + CamelCase(name) + "};"
  {
    PlaceholderName(sigil, name);
  }

  /** `inputs.slice(0, -1)`: everything but the last character ("" stays ""). */
  function DropLast(s: string): (r: string)
    ensures |s| > 0 ==> s == r + [s[|s| - 1]]
    ensures |s| == 0 ==> r == ""
  {
    if |s| == 0 then "" else s[..|s| - 1]
  }

  /**
   * Each argument trimmed, then resolved without the `${}` wrapper: a fe-brary
   * variable becomes its `vars.` reference, any other variable its
   * `customVars.` reference, a quoted literal stays as it is, and any other
   * literal is put in single quotes.
   */
  function IncludeArgs(args: seq<string>): (r: seq<string>)
    ensures |r| == |args|
    ensures forall k :: 0 <= k < |args| && StartsWith(Trim(args[k]), FeBraryPrefix) ==>
      r[k] == FeBraryVar(Trim(args[k]))
    ensures forall k :: 0 <= k < |args| && StartsWith(Trim(args[k]), "$") && !StartsWith(Trim(args[k]), FeBraryPrefix) ==>
      r[k] == "customVars." + CamelCase(Trim(args[k])[1..])
    ensures forall k :: 0 <= k < |args| && !StartsWith(Trim(args[k]), "$") && StartsWithQuote(Trim(args[k])) ==>
      r[k] == Trim(args[k])
    ensures forall k :: 0 <= k < |args| && !StartsWith(Trim(args[k]), "$") && !StartsWithQuote(Trim(args[k])) ==>
      r[k] == "'" + Trim(args[k]) + "'"
  {
    seq(|args|, k requires 0 <= k < |args| => HandleSassVarUnescaped(Trim(args[k])))
  }

  /**
   * A non-media `@include name(args)`: the call `${name (a1, a2, ...)}`. The
   * parameters are split at `(`, the last character of the second part is
   * dropped as the closing parenthesis, and the rest is split at `,`.
   */
  function IncludeCall(params: string): (r: Result<string, Failure>)
    ensures r.Err? <==> !Contains(params, "(")
    ensures r.Err? ==> r.error == MissingParenthesis(params)
  {
    var parts := Split(params, "(");
    SplitFirstTwo(params, "(");
    if |parts| < 2 then Err(MissingParenthesis(params))
    else
      var args := IncludeArgs(Split(DropLast(parts[1]), ","));
      Ok("${" + CamelCase(Trim(parts[0])) + " (" + Join(args, ", ") + ")}")
  }

  /** `@include name(a1,...,an)` with plain arguments calls `name` on each argument, resolved. */
  lemma IncludeOfCall(name: string, args: seq<string>)
    requires '(' !in name && |args| >= 1
    requires forall k :: 0 <= k < |args| ==> '(' !in args[k] && ',' !in args[k]
    ensures IncludeCall(name + "(" + Join(args, ",") + ")") ==
      Ok("${" + CamelCase(Trim(name)) + " (" + Join(IncludeArgs(args), ", ") + ")}")
  {
    var inner := Join(args, ",");
    JoinFree(args, ",", '(');
    CallParts(name, inner);
    SplitJoin(args, ",");
  }

  lemma CallParts(name: string, inner: string)
    requires '(' !in name && '(' !in inner
    ensures var parts := Split(name + "(" + inner + ")", "(");
      |parts| >= 2 && parts[0] == name && DropLast(parts[1]) == inner
  {
    var params := name + "(" + inner + ")";
    assert params == name + "(" + (inner + ")");
    SplitGlued(name, "(", inner + ")");
    AbsentFirstChar(inner + ")", "(");
    SplitAbsent(inner + ")", "(");
    assert DropLast(inner + ")") == inner;
  }

  /** A character absent from every part and from the separator is absent from the join. */
  lemma {:induction false} JoinFree(parts: seq<string>, sep: string, c: char)
    requires c !in sep
    requires forall k :: 0 <= k < |parts| ==> c !in parts[k]
    ensures c !in Join(parts, sep)
  {
    if |parts| > 1 {
      JoinFree(parts[1..], sep, c);
    }
  }
}

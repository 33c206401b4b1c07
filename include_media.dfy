/**
 * include-media.js: the fixed table that turns an include-media expression
 * `media('<comparison><breakpoint>')` into a plain CSS media query. The mobile
 * breakpoint is a literal 320px; the others read the fe-brary global width
 * variables. Every other expression is refused with an error.
 */
module IncludeMedia {
  import opened Wrappers
  import opened Strings

  const UnrecognisedMedia := "Found an unrecognised `@include media(..)`, please change it to a vanilla CSS media query that uses fe-brary Sass vars then try this transformer again"

  /** The source's `switch`, case by case; the `default` branch throws. */
  function ToMediaQuery(params: string): Result<string, string> {
    match params
    case "media('>mobile')" => Ok("media(min-width: 321px)")
    case "media('>=mobile')" => Ok("media(min-width: 320px)")
    case "media('>tablet')" => Ok("media(min-width: ${vars.global.tabletMinWidth + 1})")
    case "media('>=tablet')" => Ok("media(min-width: ${vars.global.tabletMinWidth})")
    case "media('>desktop')" => Ok("media(min-width: ${vars.global.desktopMinWidth + 1})")
    case "media('>=desktop')" => Ok("media(min-width: ${vars.global.desktopMinWidth})")
    case "media('>lrg-desktop')" => Ok("media(min-width: ${vars.global.desktopMaxWidth + 1})")
    case "media('>=lrg-desktop')" => Ok("media(min-width: ${vars.global.desktopMaxWidth})")
    case "media('<mobile')" => Ok("media(max-width: 319px)")
    case "media('<=mobile')" => Ok("media(max-width: 320px)")
    case "media('<tablet')" => Ok("media(max-width: ${vars.global.tabletMinWidth - 1})")
    case "media('<=tablet')" => Ok("media(max-width: ${vars.global.tabletMinWidth})")
    case "media('<desktop')" => Ok("media(max-width: ${vars.global.desktopMinWidth - 1})")
    case "media('<=desktop')" => Ok("media(max-width: ${vars.global.desktopMinWidth})")
    case "media('<lrg-desktop')" => Ok("media(max-width: ${vars.global.desktopMaxWidth - 1})")
    case "media('<=lrg-desktop')" => Ok("media(max-width: ${vars.global.desktopMaxWidth})")
    case _ => Err(UnrecognisedMedia)
  }

  // An independent reading of the table: comparison and breakpoint decide the query.

  datatype Comparison = Gt | Ge | Lt | Le
  datatype Breakpoint = Mobile | Tablet | Desktop | LrgDesktop

  function ComparisonText(c: Comparison): string {
    match c
    case Gt => ">"
    case Ge => ">="
    case Lt => "<"
    case Le => "<="
  }

  function BreakpointName(b: Breakpoint): string {
    match b
    case Mobile => "mobile"
    case Tablet => "tablet"
    case Desktop => "desktop"
    case LrgDesktop => "lrg-desktop"
  }

  /** The include-media expression `media('<c><b>')`. */
  function Expression(c: Comparison, b: Breakpoint): string {
    "media('" + ComparisonText(c) + BreakpointName(b) + "')"
  }

  /** `>` and `>=` bound from below, `<` and `<=` from above. */
  function Feature(c: Comparison): string {
    if c == Gt || c == Ge then "min-width" else "max-width"
  }

  /** The fe-brary variable each non-mobile breakpoint reads. */
  function BreakpointVariable(b: Breakpoint): string
    requires b != Mobile
  {
    match b
    case Tablet => "vars.global.tabletMinWidth"
    case Desktop => "vars.global.desktopMinWidth"
    case LrgDesktop => "vars.global.desktopMaxWidth"
  }

  /** Mobile uses literal pixels around 320px; strict comparisons move the others by one. */
  function Boundary(c: Comparison, b: Breakpoint): string {
    if b == Mobile then
      match c
      case Gt => "321px"
      case Ge => "320px"
      case Lt => "319px"
      case Le => "320px"
    else
      "${" + BreakpointVariable(b) + Adjust(c) + "}"
  }

  /** The strict comparisons step one pixel past a variable width. */
  function Adjust(c: Comparison): string {
    match c
    case Gt => " + 1"
    case Lt => " - 1"
    case _ => ""
  }

  function Query(c: Comparison, b: Breakpoint): string {
    QueryPrefix(c) + Boundary(c, b) + ")"
  }

  function QueryPrefix(c: Comparison): string {
    "media(" + Feature(c) + ": "
  }

  /** Reads the comparison and breakpoint back from a generated query. */
  function QueryCase(q: string): Option<(Comparison, Breakpoint)> {
    match q
    case "media(min-width: 321px)" => Some((Gt, Mobile))
    case "media(min-width: 320px)" => Some((Ge, Mobile))
    case "media(min-width: ${vars.global.tabletMinWidth + 1})" => Some((Gt, Tablet))
    case "media(min-width: ${vars.global.tabletMinWidth})" => Some((Ge, Tablet))
    case "media(min-width: ${vars.global.desktopMinWidth + 1})" => Some((Gt, Desktop))
    case "media(min-width: ${vars.global.desktopMinWidth})" => Some((Ge, Desktop))
    case "media(min-width: ${vars.global.desktopMaxWidth + 1})" => Some((Gt, LrgDesktop))
    case "media(min-width: ${vars.global.desktopMaxWidth})" => Some((Ge, LrgDesktop))
    case "media(max-width: 319px)" => Some((Lt, Mobile))
    case "media(max-width: 320px)" => Some((Le, Mobile))
    case "media(max-width: ${vars.global.tabletMinWidth - 1})" => Some((Lt, Tablet))
    case "media(max-width: ${vars.global.tabletMinWidth})" => Some((Le, Tablet))
    case "media(max-width: ${vars.global.desktopMinWidth - 1})" => Some((Lt, Desktop))
    case "media(max-width: ${vars.global.desktopMinWidth})" => Some((Le, Desktop))
    case "media(max-width: ${vars.global.desktopMaxWidth - 1})" => Some((Lt, LrgDesktop))
    case "media(max-width: ${vars.global.desktopMaxWidth})" => Some((Le, LrgDesktop))
    case _ => None
  }

  /** The source's table agrees with the reading above on every expression. */
  lemma TableMatchesReading(c: Comparison, b: Breakpoint)
    ensures ToMediaQuery(Expression(c, b)) == Ok(Query(c, b))
  {
    match (c, b)
    case (Gt, Mobile) => RowGtMobile();
    case (Ge, Mobile) => RowGeMobile();
    case (Gt, Tablet) => RowGtTablet();
    case (Ge, Tablet) => RowGeTablet();
    case (Gt, Desktop) => RowGtDesktop();
    case (Ge, Desktop) => RowGeDesktop();
    case (Gt, LrgDesktop) => RowGtLrgDesktop();
    case (Ge, LrgDesktop) => RowGeLrgDesktop();
    case (Lt, Mobile) => RowLtMobile();
    case (Le, Mobile) => RowLeMobile();
    case (Lt, Tablet) => RowLtTablet();
    case (Le, Tablet) => RowLeTablet();
    case (Lt, Desktop) => RowLtDesktop();
    case (Le, Desktop) => RowLeDesktop();
    case (Lt, LrgDesktop) => RowLtLrgDesktop();
    case (Le, LrgDesktop) => RowLeLrgDesktop();
  }

  /** Anything that is not one of the sixteen expressions is refused with the source's message. */
  lemma OnlyExpressionsAccepted(params: string)
    ensures ToMediaQuery(params).Ok? <==> exists c, b :: params == Expression(c, b)
    ensures ToMediaQuery(params).Err? ==> ToMediaQuery(params).error == UnrecognisedMedia
  {
    if ToMediaQuery(params).Ok? {
      AcceptedIsExpression(params);
    } else if exists c, b :: params == Expression(c, b) {
      var c, b :| params == Expression(c, b);
      TableMatchesReading(c, b);
    }
  }

  lemma AcceptedIsExpression(params: string)
    requires ToMediaQuery(params).Ok?
    ensures exists c, b :: params == Expression(c, b)
  {
    match params {
      case "media('>mobile')" => CaseGtMobile(); assert params == Expression(Gt, Mobile);
      case "media('>=mobile')" => CaseGeMobile(); assert params == Expression(Ge, Mobile);
      case "media('>tablet')" => CaseGtTablet(); assert params == Expression(Gt, Tablet);
      case "media('>=tablet')" => CaseGeTablet(); assert params == Expression(Ge, Tablet);
      case "media('>desktop')" => CaseGtDesktop(); assert params == Expression(Gt, Desktop);
      case "media('>=desktop')" => CaseGeDesktop(); assert params == Expression(Ge, Desktop);
      case "media('>lrg-desktop')" => CaseGtLrgDesktop(); assert params == Expression(Gt, LrgDesktop);
      case "media('>=lrg-desktop')" => CaseGeLrgDesktop(); assert params == Expression(Ge, LrgDesktop);
      case "media('<mobile')" => CaseLtMobile(); assert params == Expression(Lt, Mobile);
      case "media('<=mobile')" => CaseLeMobile(); assert params == Expression(Le, Mobile);
      case "media('<tablet')" => CaseLtTablet(); assert params == Expression(Lt, Tablet);
      case "media('<=tablet')" => CaseLeTablet(); assert params == Expression(Le, Tablet);
      case "media('<desktop')" => CaseLtDesktop(); assert params == Expression(Lt, Desktop);
      case "media('<=desktop')" => CaseLeDesktop(); assert params == Expression(Le, Desktop);
      case "media('<lrg-desktop')" => CaseLtLrgDesktop(); assert params == Expression(Lt, LrgDesktop);
      case "media('<=lrg-desktop')" => CaseLeLrgDesktop(); assert params == Expression(Le, LrgDesktop);
      case _ =>
    }
  }

  /** The comparison and breakpoint can be read back from the query. */
  lemma QueryDecodes(c: Comparison, b: Breakpoint)
    ensures QueryCase(Query(c, b)) == Some((c, b))
  {
    match (c, b)
    case (Gt, Mobile) => RowGtMobile();
    case (Ge, Mobile) => RowGeMobile();
    case (Gt, Tablet) => RowGtTablet();
    case (Ge, Tablet) => RowGeTablet();
    case (Gt, Desktop) => RowGtDesktop();
    case (Ge, Desktop) => RowGeDesktop();
    case (Gt, LrgDesktop) => RowGtLrgDesktop();
    case (Ge, LrgDesktop) => RowGeLrgDesktop();
    case (Lt, Mobile) => RowLtMobile();
    case (Le, Mobile) => RowLeMobile();
    case (Lt, Tablet) => RowLtTablet();
    case (Le, Tablet) => RowLeTablet();
    case (Lt, Desktop) => RowLtDesktop();
    case (Le, Desktop) => RowLeDesktop();
    case (Lt, LrgDesktop) => RowLtLrgDesktop();
    case (Le, LrgDesktop) => RowLeLrgDesktop();
  }

  /** Distinct accepted expressions give distinct media queries. */
  lemma Injective(p1: string, p2: string)
    requires ToMediaQuery(p1).Ok? && ToMediaQuery(p2).Ok?
    requires ToMediaQuery(p1) == ToMediaQuery(p2)
    ensures p1 == p2
  {
    OnlyExpressionsAccepted(p1);
    OnlyExpressionsAccepted(p2);
    var c1, b1 :| p1 == Expression(c1, b1);
    var c2, b2 :| p2 == Expression(c2, b2);
    TableMatchesReading(c1, b1);
    TableMatchesReading(c2, b2);
    QueryDecodes(c1, b1);
    QueryDecodes(c2, b2);
  }

  /** `>` and `>=` give `min-width`, `<` and `<=` give `max-width`. */
  lemma Direction(c: Comparison, b: Breakpoint)
    ensures var q := ToMediaQuery(Expression(c, b));
      q.Ok? && (c == Gt || c == Ge ==> StartsWith(q.value, "media(min-width: "))
      && (c == Lt || c == Le ==> StartsWith(q.value, "media(max-width: "))
  {
    TableMatchesReading(c, b);
    var q := Query(c, b);
    assert q[..|QueryPrefix(c)|] == QueryPrefix(c);
    MinPrefix();
    MaxPrefix();
  }

  /** Every accepted query is `media(...)`, and it reads a fe-brary variable iff the breakpoint is not mobile. */
  lemma QueryShape(c: Comparison, b: Breakpoint)
    ensures var q := ToMediaQuery(Expression(c, b));
      q.Ok? && StartsWith(q.value, "media(") && q.value[|q.value| - 1] == ')'
      && (Contains(q.value, "vars.") <==> b != Mobile)
  {
    TableMatchesReading(c, b);
    if b == Mobile {
      MobileReadsNoVariable(c);
    } else {
      OthersReadVariable(c, b);
    }
  }

  lemma MobileReadsNoVariable(c: Comparison)
    ensures !Contains(Query(c, Mobile), "vars.")
  {
    var q := Query(c, Mobile);
    assert 'v' !in Boundary(c, Mobile);
    assert 'v' !in Feature(c);
    assert q == "media(" + Feature(c) + ": " + Boundary(c, Mobile) + ")";
    AbsentFirstChar(q, "vars.");
  }

  lemma OthersReadVariable(c: Comparison, b: Breakpoint)
    requires b != Mobile
    ensures Contains(Query(c, b), "vars.")
  {
    var v := BreakpointVariable(b);
    assert OccursAt(v, "vars.", 0);
    ContainsIffOccurs(v, "vars.");
    ContainsInPiece("${", v, Adjust(c) + "}", "vars.");
    assert Boundary(c, b) == "${" + v + (Adjust(c) + "}");
    ContainsInPiece(QueryPrefix(c), Boundary(c, b), ")", "vars.");
  }

  /** The sixteen accepted expressions, in the source's order. */
  const AcceptedExpressions: seq<string> := [
    "media('>mobile')", "media('>=mobile')", "media('>tablet')", "media('>=tablet')",
    "media('>desktop')", "media('>=desktop')", "media('>lrg-desktop')", "media('>=lrg-desktop')",
    "media('<mobile')", "media('<=mobile')", "media('<tablet')", "media('<=tablet')",
    "media('<desktop')", "media('<=desktop')", "media('<lrg-desktop')", "media('<=lrg-desktop')"
  ]

  /** Exactly sixteen distinct inputs are accepted; quoting or whitespace variants are not among them. */
  lemma ExactlySixteen(params: string)
    ensures |AcceptedExpressions| == 16
    ensures forall i, j :: 0 <= i < j < 16 ==> AcceptedExpressions[i] != AcceptedExpressions[j]
    ensures ToMediaQuery(params).Ok? <==> params in AcceptedExpressions
  {
  }

  // The sixteen rows of the table, written out.

  lemma MinPrefix()
    ensures QueryPrefix(Gt) == QueryPrefix(Ge) == "media(min-width: "
  {
  }

  lemma MaxPrefix()
    ensures QueryPrefix(Lt) == QueryPrefix(Le) == "media(max-width: "
  {
  }

  lemma CaseGtMobile()
    ensures Expression(Gt, Mobile) == "media('>mobile')"
    ensures Query(Gt, Mobile) == "media(min-width: 321px)"
  {
  }

  lemma CaseGeMobile()
    ensures Expression(Ge, Mobile) == "media('>=mobile')"
    ensures Query(Ge, Mobile) == "media(min-width: 320px)"
  {
  }

  lemma BoundaryGtTablet()
    ensures Boundary(Gt, Tablet) == "${vars.global.tabletMinWidth + 1}"
  {
  }

  lemma CaseGtTablet()
    ensures Expression(Gt, Tablet) == "media('>tablet')"
    ensures Query(Gt, Tablet) == "media(min-width: ${vars.global.tabletMinWidth + 1})"
  {
    QueryGtTablet();
  }

  lemma QueryGtTablet()
    ensures Query(Gt, Tablet) == "media(min-width: ${vars.global.tabletMinWidth + 1})"
  {
    MinPrefix();
    BoundaryGtTablet();
    GlueGtTablet();
  }

  lemma GlueGtTablet()
    ensures "media(min-width: " + "${vars.global.tabletMinWidth + 1}" + ")" == "media(min-width: ${vars.global.tabletMinWidth + 1})"
  {
  }

  lemma BoundaryGeTablet()
    ensures Boundary(Ge, Tablet) == "${vars.global.tabletMinWidth}"
  {
  }

  lemma CaseGeTablet()
    ensures Expression(Ge, Tablet) == "media('>=tablet')"
    ensures Query(Ge, Tablet) == "media(min-width: ${vars.global.tabletMinWidth})"
  {
    QueryGeTablet();
  }

  lemma QueryGeTablet()
    ensures Query(Ge, Tablet) == "media(min-width: ${vars.global.tabletMinWidth})"
  {
    MinPrefix();
    BoundaryGeTablet();
    GlueGeTablet();
  }

  lemma GlueGeTablet()
    ensures "media(min-width: " + "${vars.global.tabletMinWidth}" + ")" == "media(min-width: ${vars.global.tabletMinWidth})"
  {
  }

  lemma BoundaryGtDesktop()
    ensures Boundary(Gt, Desktop) == "${vars.global.desktopMinWidth + 1}"
  {
  }

  lemma CaseGtDesktop()
    ensures Expression(Gt, Desktop) == "media('>desktop')"
    ensures Query(Gt, Desktop) == "media(min-width: ${vars.global.desktopMinWidth + 1})"
  {
    QueryGtDesktop();
  }

  lemma QueryGtDesktop()
    ensures Query(Gt, Desktop) == "media(min-width: ${vars.global.desktopMinWidth + 1})"
  {
    MinPrefix();
    BoundaryGtDesktop();
    GlueGtDesktop();
  }

  lemma GlueGtDesktop()
    ensures "media(min-width: " + "${vars.global.desktopMinWidth + 1}" + ")" == "media(min-width: ${vars.global.desktopMinWidth + 1})"
  {
  }

  lemma BoundaryGeDesktop()
    ensures Boundary(Ge, Desktop) == "${vars.global.desktopMinWidth}"
  {
  }

  lemma CaseGeDesktop()
    ensures Expression(Ge, Desktop) == "media('>=desktop')"
    ensures Query(Ge, Desktop) == "media(min-width: ${vars.global.desktopMinWidth})"
  {
    QueryGeDesktop();
  }

  lemma QueryGeDesktop()
    ensures Query(Ge, Desktop) == "media(min-width: ${vars.global.desktopMinWidth})"
  {
    MinPrefix();
    BoundaryGeDesktop();
    GlueGeDesktop();
  }

  lemma GlueGeDesktop()
    ensures "media(min-width: " + "${vars.global.desktopMinWidth}" + ")" == "media(min-width: ${vars.global.desktopMinWidth})"
  {
  }

  lemma BoundaryGtLrgDesktop()
    ensures Boundary(Gt, LrgDesktop) == "${vars.global.desktopMaxWidth + 1}"
  {
  }

  lemma CaseGtLrgDesktop()
    ensures Expression(Gt, LrgDesktop) == "media('>lrg-desktop')"
    ensures Query(Gt, LrgDesktop) == "media(min-width: ${vars.global.desktopMaxWidth + 1})"
  {
    QueryGtLrgDesktop();
  }

  lemma QueryGtLrgDesktop()
    ensures Query(Gt, LrgDesktop) == "media(min-width: ${vars.global.desktopMaxWidth + 1})"
  {
    MinPrefix();
    BoundaryGtLrgDesktop();
    GlueGtLrgDesktop();
  }

  lemma GlueGtLrgDesktop()
    ensures "media(min-width: " + "${vars.global.desktopMaxWidth + 1}" + ")" == "media(min-width: ${vars.global.desktopMaxWidth + 1})"
  {
  }

  lemma BoundaryGeLrgDesktop()
    ensures Boundary(Ge, LrgDesktop) == "${vars.global.desktopMaxWidth}"
  {
  }

  lemma CaseGeLrgDesktop()
    ensures Expression(Ge, LrgDesktop) == "media('>=lrg-desktop')"
    ensures Query(Ge, LrgDesktop) == "media(min-width: ${vars.global.desktopMaxWidth})"
  {
    QueryGeLrgDesktop();
  }

  lemma QueryGeLrgDesktop()
    ensures Query(Ge, LrgDesktop) == "media(min-width: ${vars.global.desktopMaxWidth})"
  {
    MinPrefix();
    BoundaryGeLrgDesktop();
    GlueGeLrgDesktop();
  }

  lemma GlueGeLrgDesktop()
    ensures "media(min-width: " + "${vars.global.desktopMaxWidth}" + ")" == "media(min-width: ${vars.global.desktopMaxWidth})"
  {
  }

  lemma CaseLtMobile()
    ensures Expression(Lt, Mobile) == "media('<mobile')"
    ensures Query(Lt, Mobile) == "media(max-width: 319px)"
  {
  }

  lemma CaseLeMobile()
    ensures Expression(Le, Mobile) == "media('<=mobile')"
    ensures Query(Le, Mobile) == "media(max-width: 320px)"
  {
  }

  lemma BoundaryLtTablet()
    ensures Boundary(Lt, Tablet) == "${vars.global.tabletMinWidth - 1}"
  {
  }

  lemma CaseLtTablet()
    ensures Expression(Lt, Tablet) == "media('<tablet')"
    ensures Query(Lt, Tablet) == "media(max-width: ${vars.global.tabletMinWidth - 1})"
  {
    QueryLtTablet();
  }

  lemma QueryLtTablet()
    ensures Query(Lt, Tablet) == "media(max-width: ${vars.global.tabletMinWidth - 1})"
  {
    MaxPrefix();
    BoundaryLtTablet();
    GlueLtTablet();
  }

  lemma GlueLtTablet()
    ensures "media(max-width: " + "${vars.global.tabletMinWidth - 1}" + ")" == "media(max-width: ${vars.global.tabletMinWidth - 1})"
  {
  }

  lemma BoundaryLeTablet()
    ensures Boundary(Le, Tablet) == "${vars.global.tabletMinWidth}"
  {
  }

  lemma CaseLeTablet()
    ensures Expression(Le, Tablet) == "media('<=tablet')"
    ensures Query(Le, Tablet) == "media(max-width: ${vars.global.tabletMinWidth})"
  {
    QueryLeTablet();
  }

  lemma QueryLeTablet()
    ensures Query(Le, Tablet) == "media(max-width: ${vars.global.tabletMinWidth})"
  {
    MaxPrefix();
    BoundaryLeTablet();
    GlueLeTablet();
  }

  lemma GlueLeTablet()
    ensures "media(max-width: " + "${vars.global.tabletMinWidth}" + ")" == "media(max-width: ${vars.global.tabletMinWidth})"
  {
  }

  lemma BoundaryLtDesktop()
    ensures Boundary(Lt, Desktop) == "${vars.global.desktopMinWidth - 1}"
  {
  }

  lemma CaseLtDesktop()
    ensures Expression(Lt, Desktop) == "media('<desktop')"
    ensures Query(Lt, Desktop) == "media(max-width: ${vars.global.desktopMinWidth - 1})"
  {
    QueryLtDesktop();
  }

  lemma QueryLtDesktop()
    ensures Query(Lt, Desktop) == "media(max-width: ${vars.global.desktopMinWidth - 1})"
  {
    MaxPrefix();
    BoundaryLtDesktop();
    GlueLtDesktop();
  }

  lemma GlueLtDesktop()
    ensures "media(max-width: " + "${vars.global.desktopMinWidth - 1}" + ")" == "media(max-width: ${vars.global.desktopMinWidth - 1})"
  {
  }

  lemma BoundaryLeDesktop()
    ensures Boundary(Le, Desktop) == "${vars.global.desktopMinWidth}"
  {
  }

  lemma CaseLeDesktop()
    ensures Expression(Le, Desktop) == "media('<=desktop')"
    ensures Query(Le, Desktop) == "media(max-width: ${vars.global.desktopMinWidth})"
  {
    QueryLeDesktop();
  }

  lemma QueryLeDesktop()
    ensures Query(Le, Desktop) == "media(max-width: ${vars.global.desktopMinWidth})"
  {
    MaxPrefix();
    BoundaryLeDesktop();
    GlueLeDesktop();
  }

  lemma GlueLeDesktop()
    ensures "media(max-width: " + "${vars.global.desktopMinWidth}" + ")" == "media(max-width: ${vars.global.desktopMinWidth})"
  {
  }

  lemma BoundaryLtLrgDesktop()
    ensures Boundary(Lt, LrgDesktop) == "${vars.global.desktopMaxWidth - 1}"
  {
  }

  lemma CaseLtLrgDesktop()
    ensures Expression(Lt, LrgDesktop) == "media('<lrg-desktop')"
    ensures Query(Lt, LrgDesktop) == "media(max-width: ${vars.global.desktopMaxWidth - 1})"
  {
    QueryLtLrgDesktop();
  }

  lemma QueryLtLrgDesktop()
    ensures Query(Lt, LrgDesktop) == "media(max-width: ${vars.global.desktopMaxWidth - 1})"
  {
    MaxPrefix();
    BoundaryLtLrgDesktop();
    GlueLtLrgDesktop();
  }

  lemma GlueLtLrgDesktop()
    ensures "media(max-width: " + "${vars.global.desktopMaxWidth - 1}" + ")" == "media(max-width: ${vars.global.desktopMaxWidth - 1})"
  {
  }

  lemma BoundaryLeLrgDesktop()
    ensures Boundary(Le, LrgDesktop) == "${vars.global.desktopMaxWidth}"
  {
  }

  lemma CaseLeLrgDesktop()
    ensures Expression(Le, LrgDesktop) == "media('<=lrg-desktop')"
    ensures Query(Le, LrgDesktop) == "media(max-width: ${vars.global.desktopMaxWidth})"
  {
    QueryLeLrgDesktop();
  }

  lemma QueryLeLrgDesktop()
    ensures Query(Le, LrgDesktop) == "media(max-width: ${vars.global.desktopMaxWidth})"
  {
    MaxPrefix();
    BoundaryLeLrgDesktop();
    GlueLeLrgDesktop();
  }

  lemma GlueLeLrgDesktop()
    ensures "media(max-width: " + "${vars.global.desktopMaxWidth}" + ")" == "media(max-width: ${vars.global.desktopMaxWidth})"
  {
  }

  lemma RowGtMobile()
    ensures ToMediaQuery(Expression(Gt, Mobile)) == Ok(Query(Gt, Mobile))
    ensures QueryCase(Query(Gt, Mobile)) == Some((Gt, Mobile))
  {
    CaseGtMobile();
    assert ToMediaQuery("media('>mobile')") == Ok("media(min-width: 321px)");
    assert QueryCase("media(min-width: 321px)") == Some((Gt, Mobile));
  }

  lemma RowGeMobile()
    ensures ToMediaQuery(Expression(Ge, Mobile)) == Ok(Query(Ge, Mobile))
    ensures QueryCase(Query(Ge, Mobile)) == Some((Ge, Mobile))
  {
    CaseGeMobile();
    assert ToMediaQuery("media('>=mobile')") == Ok("media(min-width: 320px)");
    assert QueryCase("media(min-width: 320px)") == Some((Ge, Mobile));
  }

  lemma RowGtTablet()
    ensures ToMediaQuery(Expression(Gt, Tablet)) == Ok(Query(Gt, Tablet))
    ensures QueryCase(Query(Gt, Tablet)) == Some((Gt, Tablet))
  {
    CaseGtTablet();
    assert ToMediaQuery("media('>tablet')") == Ok("media(min-width: ${vars.global.tabletMinWidth + 1})");
    assert QueryCase("media(min-width: ${vars.global.tabletMinWidth + 1})") == Some((Gt, Tablet));
  }

  lemma RowGeTablet()
    ensures ToMediaQuery(Expression(Ge, Tablet)) == Ok(Query(Ge, Tablet))
    ensures QueryCase(Query(Ge, Tablet)) == Some((Ge, Tablet))
  {
    CaseGeTablet();
    assert ToMediaQuery("media('>=tablet')") == Ok("media(min-width: ${vars.global.tabletMinWidth})");
    assert QueryCase("media(min-width: ${vars.global.tabletMinWidth})") == Some((Ge, Tablet));
  }

  lemma RowGtDesktop()
    ensures ToMediaQuery(Expression(Gt, Desktop)) == Ok(Query(Gt, Desktop))
    ensures QueryCase(Query(Gt, Desktop)) == Some((Gt, Desktop))
  {
    CaseGtDesktop();
    assert ToMediaQuery("media('>desktop')") == Ok("media(min-width: ${vars.global.desktopMinWidth + 1})");
    assert QueryCase("media(min-width: ${vars.global.desktopMinWidth + 1})") == Some((Gt, Desktop));
  }

  lemma RowGeDesktop()
    ensures ToMediaQuery(Expression(Ge, Desktop)) == Ok(Query(Ge, Desktop))
    ensures QueryCase(Query(Ge, Desktop)) == Some((Ge, Desktop))
  {
    CaseGeDesktop();
    assert ToMediaQuery("media('>=desktop')") == Ok("media(min-width: ${vars.global.desktopMinWidth})");
    assert QueryCase("media(min-width: ${vars.global.desktopMinWidth})") == Some((Ge, Desktop));
  }

  lemma RowGtLrgDesktop()
    ensures ToMediaQuery(Expression(Gt, LrgDesktop)) == Ok(Query(Gt, LrgDesktop))
    ensures QueryCase(Query(Gt, LrgDesktop)) == Some((Gt, LrgDesktop))
  {
    CaseGtLrgDesktop();
    assert ToMediaQuery("media('>lrg-desktop')") == Ok("media(min-width: ${vars.global.desktopMaxWidth + 1})");
    assert QueryCase("media(min-width: ${vars.global.desktopMaxWidth + 1})") == Some((Gt, LrgDesktop));
  }

  lemma RowGeLrgDesktop()
    ensures ToMediaQuery(Expression(Ge, LrgDesktop)) == Ok(Query(Ge, LrgDesktop))
    ensures QueryCase(Query(Ge, LrgDesktop)) == Some((Ge, LrgDesktop))
  {
    CaseGeLrgDesktop();
    assert ToMediaQuery("media('>=lrg-desktop')") == Ok("media(min-width: ${vars.global.desktopMaxWidth})");
    assert QueryCase("media(min-width: ${vars.global.desktopMaxWidth})") == Some((Ge, LrgDesktop));
  }

  lemma RowLtMobile()
    ensures ToMediaQuery(Expression(Lt, Mobile)) == Ok(Query(Lt, Mobile))
    ensures QueryCase(Query(Lt, Mobile)) == Some((Lt, Mobile))
  {
    CaseLtMobile();
    assert ToMediaQuery("media('<mobile')") == Ok("media(max-width: 319px)");
    assert QueryCase("media(max-width: 319px)") == Some((Lt, Mobile));
  }

  lemma RowLeMobile()
    ensures ToMediaQuery(Expression(Le, Mobile)) == Ok(Query(Le, Mobile))
    ensures QueryCase(Query(Le, Mobile)) == Some((Le, Mobile))
  {
    CaseLeMobile();
    assert ToMediaQuery("media('<=mobile')") == Ok("media(max-width: 320px)");
    assert QueryCase("media(max-width: 320px)") == Some((Le, Mobile));
  }

  lemma RowLtTablet()
    ensures ToMediaQuery(Expression(Lt, Tablet)) == Ok(Query(Lt, Tablet))
    ensures QueryCase(Query(Lt, Tablet)) == Some((Lt, Tablet))
  {
    CaseLtTablet();
    assert ToMediaQuery("media('<tablet')") == Ok("media(max-width: ${vars.global.tabletMinWidth - 1})");
    assert QueryCase("media(max-width: ${vars.global.tabletMinWidth - 1})") == Some((Lt, Tablet));
  }

  lemma RowLeTablet()
    ensures ToMediaQuery(Expression(Le, Tablet)) == Ok(Query(Le, Tablet))
    ensures QueryCase(Query(Le, Tablet)) == Some((Le, Tablet))
  {
    CaseLeTablet();
    assert ToMediaQuery("media('<=tablet')") == Ok("media(max-width: ${vars.global.tabletMinWidth})");
    assert QueryCase("media(max-width: ${vars.global.tabletMinWidth})") == Some((Le, Tablet));
  }

  lemma RowLtDesktop()
    ensures ToMediaQuery(Expression(Lt, Desktop)) == Ok(Query(Lt, Desktop))
    ensures QueryCase(Query(Lt, Desktop)) == Some((Lt, Desktop))
  {
    CaseLtDesktop();
    assert ToMediaQuery("media('<desktop')") == Ok("media(max-width: ${vars.global.desktopMinWidth - 1})");
    assert QueryCase("media(max-width: ${vars.global.desktopMinWidth - 1})") == Some((Lt, Desktop));
  }

  lemma RowLeDesktop()
    ensures ToMediaQuery(Expression(Le, Desktop)) == Ok(Query(Le, Desktop))
    ensures QueryCase(Query(Le, Desktop)) == Some((Le, Desktop))
  {
    CaseLeDesktop();
    assert ToMediaQuery("media('<=desktop')") == Ok("media(max-width: ${vars.global.desktopMinWidth})");
    assert QueryCase("media(max-width: ${vars.global.desktopMinWidth})") == Some((Le, Desktop));
  }

  lemma RowLtLrgDesktop()
    ensures ToMediaQuery(Expression(Lt, LrgDesktop)) == Ok(Query(Lt, LrgDesktop))
    ensures QueryCase(Query(Lt, LrgDesktop)) == Some((Lt, LrgDesktop))
  {
    CaseLtLrgDesktop();
    assert ToMediaQuery("media('<lrg-desktop')") == Ok("media(max-width: ${vars.global.desktopMaxWidth - 1})");
    assert QueryCase("media(max-width: ${vars.global.desktopMaxWidth - 1})") == Some((Lt, LrgDesktop));
  }

  lemma RowLeLrgDesktop()
    ensures ToMediaQuery(Expression(Le, LrgDesktop)) == Ok(Query(Le, LrgDesktop))
    ensures QueryCase(Query(Le, LrgDesktop)) == Some((Le, LrgDesktop))
  {
    CaseLeLrgDesktop();
    assert ToMediaQuery("media('<=lrg-desktop')") == Ok("media(max-width: ${vars.global.desktopMaxWidth})");
    assert QueryCase("media(max-width: ${vars.global.desktopMaxWidth})") == Some((Le, LrgDesktop));
  }
}

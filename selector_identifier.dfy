/**
 * selector-to-variable-identifier.js: a BEM class name becomes a camelCase
 * identifier. The name is split on the element separator `__`; the element
 * part (the second piece) is used when it is present and non-empty,
 * otherwise the block part (the first piece).
 */
module SelectorIdentifier {
  import opened Strings
  import opened Lodash

  const BemSeparator := "__"

  function SelectorToIdentifier(selector: string): (id: string)
    ensures AllAlnum(id)
  {
    var parts := Split(selector, BemSeparator);
    var prefix := parts[0];
    // `postfix || prefix`: a missing or empty element part falls back to the block part
    var postfix := if |parts| > 1 then parts[1] else "";
    CamelCase(if postfix != "" then postfix else prefix)
  }

  /** Without `__` the whole selector is camelCased. */
  lemma NoSeparator(selector: string)
    requires !Contains(selector, BemSeparator)
    ensures SelectorToIdentifier(selector) == CamelCase(selector)
  {
    SplitFirstTwo(selector, BemSeparator);
  }

  /**
   * With `__` the identifier is the camelCase of the text between the first and
   * the second `__` (not of the last piece); when that text is empty it is the
   * camelCase of the text before the first `__`.
   */
  lemma ElementSegment(selector: string)
    requires Contains(selector, BemSeparator)
    ensures var element := Before(After(selector, BemSeparator), BemSeparator);
      SelectorToIdentifier(selector)
        == if element != "" then CamelCase(element) else CamelCase(Before(selector, BemSeparator))
  {
    SplitFirstTwo(selector, BemSeparator);
  }

  /** The identifier never holds `-`, `_` or `.`. */
  lemma NoPunctuation(selector: string)
    ensures var id := SelectorToIdentifier(selector);
      '-' !in id && '_' !in id && '.' !in id
  {
  }

  /** The documented example: `email-share__form-group` becomes `formGroup`. */
  lemma DocumentedExample()
    ensures SelectorToIdentifier("email-share__form-group") == "formGroup"
  {
    ExampleGlued();
    BlockElement("email-share", "form-group");
    KebabExample();
  }

  lemma ExampleGlued()
    ensures "email-share__form-group" == "email-share" + BemSeparator + "form-group"
  {
  }

  /** For `block__element` with no `_` in either piece the identifier is the camelCase of `element`. */
  lemma BlockElement(block: string, element: string)
    requires '_' !in block && '_' !in element && element != ""
    ensures SelectorToIdentifier(block + BemSeparator + element) == CamelCase(element)
  {
    SplitGlued(block, BemSeparator, element);
    SplitAbsent(element, BemSeparator);
  }

  lemma KebabExample()
    ensures CamelCase("form-group") == "formGroup"
  {
    KebabWords();
    KebabJoin();
  }

  lemma KebabWords()
    ensures Words("form-group") == ["form", "group"]
  {
    var ws := ["form", "group"];
    assert Join(ws, "-") == "form-group";
    WordsOfJoin(ws, '-');
  }

  lemma KebabJoin()
    ensures CamelWords(["form", "group"], true) == "formGroup"
  {
    CamelWordsPair("form", "group");
    LowerWordFixed("form");
    CapitalizeGroup();
    FormGroupGlue();
  }

  lemma CamelWordsPair(a: string, b: string)
    requires AllAlnum(a) && AllAlnum(b)
    ensures CamelWords([a, b], true) == LowerString(a) + Capitalize(b)
  {
    var ws := [a, b];
    assert ws[1..] == [b];
    assert [b][1..] == [];
    assert CamelWords([b], false) == Capitalize(b) + "";
  }

  lemma FormGroupGlue()
    ensures "form" + "Group" == "formGroup"
  {
  }

  lemma CapitalizeGroup()
    ensures Capitalize("group") == "Group"
  {
    assert "group"[1..] == "roup";
    LowerWordFixed("roup");
    assert ToUpper(ToLower('g')) == 'G';
    assert ['G'] + "roup" == "Group";
  }

  /**
   * Only the first element piece counts: for `block__element__rest` the
   * identifier is the camelCase of `element`, whatever follows it.
   */
  lemma LaterSegmentsIgnored(block: string, element: string, rest: string)
    requires '_' !in block && '_' !in element && element != ""
    ensures SelectorToIdentifier(block + BemSeparator + element + BemSeparator + rest) == CamelCase(element)
  {
    var tail := element + BemSeparator + rest;
    assert block + BemSeparator + element + BemSeparator + rest == block + BemSeparator + tail;
    SplitGlued(block, BemSeparator, tail);
    SplitGlued(element, BemSeparator, rest);
  }

  /** An empty element piece falls back to the block: `block__` gives the camelCase of `block`. */
  lemma EmptyElementFallsBack(block: string)
    requires '_' !in block
    ensures SelectorToIdentifier(block + BemSeparator) == CamelCase(block)
  {
    assert block + BemSeparator == block + BemSeparator + "";
    SplitGlued(block, BemSeparator, "");
  }

  /** The leading `.` of a class selector makes no difference: `.a__b` and `a__b` name the same identifier. */
  lemma ClassDotIgnored(name: string)
    ensures SelectorToIdentifier("." + name) == SelectorToIdentifier(name)
  {
    SplitCons('.', name, BemSeparator);
    var parts := Split(name, BemSeparator);
    CamelCaseSkipsSeparator('.', parts[0]);
  }
}


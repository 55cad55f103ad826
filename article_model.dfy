/**
 * The Article model's validation: a declarative table of attributes, each
 * declared `allowNull: false` with a "cannot be omitted" message and an
 * ordered list of further rules (notEmpty, isUrl), each with its message.
 *
 * Validation follows Sequelize: a value that is absent or null gets the
 * attribute's notNull message and no other rule is run on it; a present
 * value is checked by every rule, none short-circuiting the others. The
 * notNull errors are collected first, for all attributes, then the rule
 * errors, attribute by attribute and rule by rule.
 */
module ArticleModel {
  import opened JsValues
  import opened ErrorMiddleware

  datatype Check = NotEmpty | IsUrl

  datatype Rule = Rule(check: Check, msg: string)

  /** An attribute declared `allowNull: false`, with its notNull message and its other rules. */
  datatype Attribute = Attribute(path: string, notNullMsg: string, rules: seq<Rule>)

  const TitleOmitted := "Title cannot be omitted"
  const TitleEmpty := "Title cannot be an empty string"
  const DescriptionOmitted := "Description cannot be omitted"
  const DescriptionEmpty := "Description cannot be an empty string"
  const ImageUrlOmitted := "Image URL cannot be omitted"
  const ImageUrlEmpty := "Image URL cannot be an empty string"
  const WrongUrlFormat := "Wrong URL format"

  /** The Article rule table, in declaration order. */
  const ArticleAttributes: seq<Attribute> := [
    Attribute("title", TitleOmitted, [Rule(NotEmpty, TitleEmpty)]),
    Attribute("description", DescriptionOmitted, [Rule(NotEmpty, DescriptionEmpty)]),
    Attribute("image_url", ImageUrlOmitted, [Rule(NotEmpty, ImageUrlEmpty), Rule(IsUrl, WrongUrlFormat)])
  ]

  /** The three fields of a create or update request body. */
  datatype ArticleInput = ArticleInput(title: Field, description: Field, imageUrl: Field)

  function Values(input: ArticleInput): seq<Field> {
    [input.title, input.description, input.imageUrl]
  }

  /** The characters of JavaScript's `\s` class. */
  predicate IsWhitespace(c: char) {
    c == ' ' || c == '\t' || c == '\n' || c == '\r' || c == '\U{000B}' || c == '\U{000C}'
    || c == '\U{00A0}' || c == '\U{1680}' || ('\U{2000}' <= c <= '\U{200A}')
    || c == '\U{2028}' || c == '\U{2029}' || c == '\U{202F}' || c == '\U{205F}'
    || c == '\U{3000}' || c == '\U{FEFF}'
  }

  /** Sequelize's notEmpty rejects a string made only of whitespace, the empty string included. */
  predicate IsBlank(s: string) {
    forall i :: 0 <= i < |s| ==> IsWhitespace(s[i])
  }

  /** Whether a present value passes a rule; the URL grammar is the parameter `isUrl`. */
  predicate Passes(check: Check, s: string, isUrl: string -> bool) {
    match check
    case NotEmpty => !IsBlank(s)
    case IsUrl => isUrl(s)
  }

  /** The notNull error of one attribute. On update, an omitted attribute is skipped, not checked. */
  function NullError(a: Attribute, v: Field, skipOmitted: bool): seq<ValidationItem> {
    if v.Null? || (v.Omitted? && !skipOmitted) then [ValidationItem(a.path, a.notNullMsg)] else []
  }

  function NullErrors(attrs: seq<Attribute>, values: seq<Field>, skipOmitted: bool): seq<ValidationItem>
    requires |attrs| == |values|
  {
    if attrs == [] then []
    else NullError(attrs[0], values[0], skipOmitted) + NullErrors(attrs[1..], values[1..], skipOmitted)
  }

  /** The errors of the rules a present value fails, in rule order. */
  function RuleErrors(path: string, rules: seq<Rule>, s: string, isUrl: string -> bool): seq<ValidationItem> {
    if rules == [] then []
    else
      (if Passes(rules[0].check, s, isUrl) then [] else [ValidationItem(path, rules[0].msg)])
      + RuleErrors(path, rules[1..], s, isUrl)
  }

  /** The rule errors of all attributes; absent and null values run no rule. */
  function ValidatorErrors(attrs: seq<Attribute>, values: seq<Field>, isUrl: string -> bool): seq<ValidationItem>
    requires |attrs| == |values|
  {
    if attrs == [] then []
    else
      (if values[0].Str? then RuleErrors(attrs[0].path, attrs[0].rules, values[0].s, isUrl) else [])
      + ValidatorErrors(attrs[1..], values[1..], isUrl)
  }

  /** All validation errors of an instance: the notNull errors first, then the rule errors. */
  function Validate(attrs: seq<Attribute>, values: seq<Field>, skipOmitted: bool, isUrl: string -> bool): seq<ValidationItem>
    requires |attrs| == |values|
  {
    NullErrors(attrs, values, skipOmitted) + ValidatorErrors(attrs, values, isUrl)
  }

  /** Article validation as run by `Article.create` (skipOmitted false) and `Article.update` (true). */
  function ValidateArticle(input: ArticleInput, skipOmitted: bool, isUrl: string -> bool): seq<ValidationItem> {
    Validate(ArticleAttributes, Values(input), skipOmitted, isUrl)
  }

  // ---------------------------------------------------------------------
  // What the table reports: exactly the violated rules.

  /** Some rule of the list carries message `msg` and rejects `s`. */
  ghost predicate RuleFails(rules: seq<Rule>, s: string, isUrl: string -> bool, msg: string) {
    exists j :: 0 <= j < |rules| && rules[j].msg == msg && !Passes(rules[j].check, s, isUrl)
  }

  /** Value `v` of attribute `a` violates the rule whose message is `msg`. */
  ghost predicate Violates(a: Attribute, v: Field, skipOmitted: bool, isUrl: string -> bool, msg: string) {
    match v
    case Omitted => !skipOmitted && msg == a.notNullMsg
    case Null => msg == a.notNullMsg
    case Str(s) => RuleFails(a.rules, s, isUrl, msg)
  }

  lemma {:induction false} RuleErrorsExact(path: string, rules: seq<Rule>, s: string, isUrl: string -> bool, item: ValidationItem)
    ensures item in RuleErrors(path, rules, s, isUrl) <==> item.path == path && RuleFails(rules, s, isUrl, item.message)
    decreases |rules|
  {
    if rules != [] {
      RuleErrorsExact(path, rules[1..], s, isUrl, item);
      if RuleFails(rules[1..], s, isUrl, item.message) {
        var j :| 0 <= j < |rules[1..]| && rules[1..][j].msg == item.message && !Passes(rules[1..][j].check, s, isUrl);
        assert rules[j + 1] == rules[1..][j];
      }
      if RuleFails(rules, s, isUrl, item.message) {
        var j :| 0 <= j < |rules| && rules[j].msg == item.message && !Passes(rules[j].check, s, isUrl);
        if j > 0 {
          assert rules[1..][j - 1] == rules[j];
        }
      }
    }
  }

  lemma {:induction false} NullErrorsExact(attrs: seq<Attribute>, values: seq<Field>, skipOmitted: bool, isUrl: string -> bool, item: ValidationItem)
    requires |attrs| == |values|
    ensures item in NullErrors(attrs, values, skipOmitted) <==>
      exists k :: 0 <= k < |attrs| && item.path == attrs[k].path && !values[k].Str? && Violates(attrs[k], values[k], skipOmitted, isUrl, item.message)
    decreases |attrs|
  {
    if attrs != [] {
      NullErrorsExact(attrs[1..], values[1..], skipOmitted, isUrl, item);
      if item in NullErrors(attrs[1..], values[1..], skipOmitted) {
        var k :| 0 <= k < |attrs[1..]| && item.path == attrs[1..][k].path && !values[1..][k].Str?
          && Violates(attrs[1..][k], values[1..][k], skipOmitted, isUrl, item.message);
        assert attrs[k + 1] == attrs[1..][k] && values[k + 1] == values[1..][k];
      }
      if exists k :: 0 <= k < |attrs| && item.path == attrs[k].path && !values[k].Str? && Violates(attrs[k], values[k], skipOmitted, isUrl, item.message) {
        var k :| 0 <= k < |attrs| && item.path == attrs[k].path && !values[k].Str? && Violates(attrs[k], values[k], skipOmitted, isUrl, item.message);
        if k > 0 {
          assert attrs[1..][k - 1] == attrs[k] && values[1..][k - 1] == values[k];
        }
      }
    }
  }

  lemma {:induction false} ValidatorErrorsExact(attrs: seq<Attribute>, values: seq<Field>, skipOmitted: bool, isUrl: string -> bool, item: ValidationItem)
    requires |attrs| == |values|
    ensures item in ValidatorErrors(attrs, values, isUrl) <==>
      exists k :: 0 <= k < |attrs| && item.path == attrs[k].path && values[k].Str? && Violates(attrs[k], values[k], skipOmitted, isUrl, item.message)
    decreases |attrs|
  {
    if attrs != [] {
      ValidatorErrorsExact(attrs[1..], values[1..], skipOmitted, isUrl, item);
      if values[0].Str? {
        RuleErrorsExact(attrs[0].path, attrs[0].rules, values[0].s, isUrl, item);
      }
      if item in ValidatorErrors(attrs[1..], values[1..], isUrl) {
        var k :| 0 <= k < |attrs[1..]| && item.path == attrs[1..][k].path && values[1..][k].Str?
          && Violates(attrs[1..][k], values[1..][k], skipOmitted, isUrl, item.message);
        assert attrs[k + 1] == attrs[1..][k] && values[k + 1] == values[1..][k];
      }
      if exists k :: 0 <= k < |attrs| && item.path == attrs[k].path && values[k].Str? && Violates(attrs[k], values[k], skipOmitted, isUrl, item.message) {
        var k :| 0 <= k < |attrs| && item.path == attrs[k].path && values[k].Str? && Violates(attrs[k], values[k], skipOmitted, isUrl, item.message);
        if k > 0 {
          assert attrs[1..][k - 1] == attrs[k] && values[1..][k - 1] == values[k];
        }
      }
    }
  }

  /**
   * The validator reports an item exactly when the item's attribute
   * violates the rule that carries the item's message: every violated rule
   * of every attribute appears, and nothing else does.
   */
  lemma ValidateExact(attrs: seq<Attribute>, values: seq<Field>, skipOmitted: bool, isUrl: string -> bool, item: ValidationItem)
    requires |attrs| == |values|
    ensures item in Validate(attrs, values, skipOmitted, isUrl) <==>
      exists k :: 0 <= k < |attrs| && item.path == attrs[k].path && Violates(attrs[k], values[k], skipOmitted, isUrl, item.message)
  {
    NullErrorsExact(attrs, values, skipOmitted, isUrl, item);
    ValidatorErrorsExact(attrs, values, skipOmitted, isUrl, item);
    if exists k :: 0 <= k < |attrs| && item.path == attrs[k].path && Violates(attrs[k], values[k], skipOmitted, isUrl, item.message) {
      var k :| 0 <= k < |attrs| && item.path == attrs[k].path && Violates(attrs[k], values[k], skipOmitted, isUrl, item.message);
      if values[k].Str? {
        assert item in ValidatorErrors(attrs, values, isUrl);
      } else {
        assert item in NullErrors(attrs, values, skipOmitted);
      }
    }
  }

  /** The same, by message: a message is reported exactly when some attribute violates its rule. */
  lemma MessageReported(attrs: seq<Attribute>, values: seq<Field>, skipOmitted: bool, isUrl: string -> bool, msg: string)
    requires |attrs| == |values|
    ensures msg in MessagesOf(Validate(attrs, values, skipOmitted, isUrl)) <==>
      exists k :: 0 <= k < |attrs| && Violates(attrs[k], values[k], skipOmitted, isUrl, msg)
  {
    var errs := Validate(attrs, values, skipOmitted, isUrl);
    InMessagesOf(errs, msg);
    if msg in MessagesOf(errs) {
      var i :| 0 <= i < |errs| && errs[i].message == msg;
      ValidateExact(attrs, values, skipOmitted, isUrl, errs[i]);
    }
    if exists k :: 0 <= k < |attrs| && Violates(attrs[k], values[k], skipOmitted, isUrl, msg) {
      var k :| 0 <= k < |attrs| && Violates(attrs[k], values[k], skipOmitted, isUrl, msg);
      var item := ValidationItem(attrs[k].path, msg);
      ValidateExact(attrs, values, skipOmitted, isUrl, item);
      var i :| 0 <= i < |errs| && errs[i] == item;
    }
  }

  // ---------------------------------------------------------------------
  // The Article table in particular.

  /** The notNull rule rejects the value: null, or absent when absent values are checked. */
  predicate NotNullFails(f: Field, skipOmitted: bool) {
    f.Null? || (f.Omitted? && !skipOmitted)
  }

  /** A present value the notEmpty rule rejects. */
  predicate BlankText(f: Field) {
    f.Str? && IsBlank(f.s)
  }

  /** The violations of the Article table, spelled out attribute by attribute. */
  ghost predicate ArticleViolation(input: ArticleInput, skipOmitted: bool, isUrl: string -> bool, msg: string) {
    || (NotNullFails(input.title, skipOmitted) && msg == TitleOmitted)
    || (BlankText(input.title) && msg == TitleEmpty)
    || (NotNullFails(input.description, skipOmitted) && msg == DescriptionOmitted)
    || (BlankText(input.description) && msg == DescriptionEmpty)
    || (NotNullFails(input.imageUrl, skipOmitted) && msg == ImageUrlOmitted)
    || (BlankText(input.imageUrl) && msg == ImageUrlEmpty)
    || (input.imageUrl.Str? && !isUrl(input.imageUrl.s) && msg == WrongUrlFormat)
  }

  lemma OneRule(rules: seq<Rule>, s: string, isUrl: string -> bool, msg: string)
    requires |rules| == 1
    ensures RuleFails(rules, s, isUrl, msg) <==> rules[0].msg == msg && !Passes(rules[0].check, s, isUrl)
  {
    if rules[0].msg == msg && !Passes(rules[0].check, s, isUrl) {
      assert 0 < |rules|;
    }
  }

  lemma ArticleRulesSpelledOut(input: ArticleInput, skipOmitted: bool, isUrl: string -> bool, msg: string)
    ensures (exists k :: 0 <= k < |ArticleAttributes| && Violates(ArticleAttributes[k], Values(input)[k], skipOmitted, isUrl, msg))
      <==> ArticleViolation(input, skipOmitted, isUrl, msg)
  {
    var attrs, values := ArticleAttributes, Values(input);
    if input.title.Str? {
      OneRule(attrs[0].rules, input.title.s, isUrl, msg);
    }
    if input.description.Str? {
      OneRule(attrs[1].rules, input.description.s, isUrl, msg);
    }
    assert Violates(attrs[0], values[0], skipOmitted, isUrl, msg) <==>
      (NotNullFails(input.title, skipOmitted) && msg == TitleOmitted) || (BlankText(input.title) && msg == TitleEmpty);
    assert Violates(attrs[1], values[1], skipOmitted, isUrl, msg) <==>
      (NotNullFails(input.description, skipOmitted) && msg == DescriptionOmitted) || (BlankText(input.description) && msg == DescriptionEmpty);
    var urlRules := attrs[2].rules;
    if input.imageUrl.Str? {
      assert RuleFails(urlRules, input.imageUrl.s, isUrl, msg) <==>
        (IsBlank(input.imageUrl.s) && msg == ImageUrlEmpty) || (!isUrl(input.imageUrl.s) && msg == WrongUrlFormat)
      by {
        if RuleFails(urlRules, input.imageUrl.s, isUrl, msg) {
          var j :| 0 <= j < |urlRules| && urlRules[j].msg == msg && !Passes(urlRules[j].check, input.imageUrl.s, isUrl);
          assert j == 0 || j == 1;
        }
        if IsBlank(input.imageUrl.s) && msg == ImageUrlEmpty {
          assert urlRules[0].msg == msg && !Passes(urlRules[0].check, input.imageUrl.s, isUrl);
        }
        if !isUrl(input.imageUrl.s) && msg == WrongUrlFormat {
          assert urlRules[1].msg == msg && !Passes(urlRules[1].check, input.imageUrl.s, isUrl);
        }
      }
    }
    assert Violates(attrs[2], values[2], skipOmitted, isUrl, msg) <==>
      || (NotNullFails(input.imageUrl, skipOmitted) && msg == ImageUrlOmitted)
      || (BlankText(input.imageUrl) && msg == ImageUrlEmpty)
      || (input.imageUrl.Str? && !isUrl(input.imageUrl.s) && msg == WrongUrlFormat);
    if exists k :: 0 <= k < |attrs| && Violates(attrs[k], values[k], skipOmitted, isUrl, msg) {
      var k :| 0 <= k < |attrs| && Violates(attrs[k], values[k], skipOmitted, isUrl, msg);
      assert k == 0 || k == 1 || k == 2;
    }
  }

  /**
   * Each of the seven messages is reported exactly when its rule is broken:
   * an absent or null field (absent only on create) gives "... cannot be
   * omitted", a blank string "... cannot be an empty string", and an
   * image_url that is not URL-shaped "Wrong URL format". Violations of
   * different fields are all reported together.
   */
  lemma ArticleMessages(input: ArticleInput, skipOmitted: bool, isUrl: string -> bool)
    ensures var ms := MessagesOf(ValidateArticle(input, skipOmitted, isUrl));
      && (TitleOmitted in ms <==> NotNullFails(input.title, skipOmitted))
      && (TitleEmpty in ms <==> BlankText(input.title))
      && (DescriptionOmitted in ms <==> NotNullFails(input.description, skipOmitted))
      && (DescriptionEmpty in ms <==> BlankText(input.description))
      && (ImageUrlOmitted in ms <==> NotNullFails(input.imageUrl, skipOmitted))
      && (ImageUrlEmpty in ms <==> BlankText(input.imageUrl))
      && (WrongUrlFormat in ms <==> input.imageUrl.Str? && !isUrl(input.imageUrl.s))
  {
    forall msg | msg in [TitleOmitted, TitleEmpty, DescriptionOmitted, DescriptionEmpty, ImageUrlOmitted, ImageUrlEmpty, WrongUrlFormat]
      ensures msg in MessagesOf(ValidateArticle(input, skipOmitted, isUrl)) <==> ArticleViolation(input, skipOmitted, isUrl, msg)
    {
      MessageReported(ArticleAttributes, Values(input), skipOmitted, isUrl, msg);
      ArticleRulesSpelledOut(input, skipOmitted, isUrl, msg);
    }
  }

  /** Every reported message is one of the seven declared in the table. */
  lemma OnlyDeclaredMessages(input: ArticleInput, skipOmitted: bool, isUrl: string -> bool, msg: string)
    requires msg in MessagesOf(ValidateArticle(input, skipOmitted, isUrl))
    ensures msg in {TitleOmitted, TitleEmpty, DescriptionOmitted, DescriptionEmpty, ImageUrlOmitted, ImageUrlEmpty, WrongUrlFormat}
  {
    MessageReported(ArticleAttributes, Values(input), skipOmitted, isUrl, msg);
    ArticleRulesSpelledOut(input, skipOmitted, isUrl, msg);
  }

  /**
   * notEmpty refuses a title of whitespace only, not just the empty
   * string; such a title is present, so it is not reported as omitted.
   */
  lemma WhitespaceTitleIsEmpty(input: ArticleInput, skipOmitted: bool, isUrl: string -> bool)
    requires BlankText(input.title)
    ensures var ms := MessagesOf(ValidateArticle(input, skipOmitted, isUrl));
      TitleEmpty in ms && TitleOmitted !in ms
  {
    ArticleMessages(input, skipOmitted, isUrl);
  }

  /** A field the notNull and notEmpty rules accept: a non-blank string, or absent when absent values are skipped. */
  predicate Accepted(f: Field, skipOmitted: bool) {
    (f.Omitted? && skipOmitted) || (f.Str? && !IsBlank(f.s))
  }

  /** Input the Article table accepts in full. */
  predicate Acceptable(input: ArticleInput, skipOmitted: bool, isUrl: string -> bool) {
    && Accepted(input.title, skipOmitted)
    && Accepted(input.description, skipOmitted)
    && Accepted(input.imageUrl, skipOmitted)
    && (input.imageUrl.Str? ==> isUrl(input.imageUrl.s))
  }

  /**
   * Validation reports nothing exactly when every field is accepted:
   * present, non-blank and, for image_url, URL-shaped.
   */
  lemma NoErrorsIffAcceptable(input: ArticleInput, skipOmitted: bool, isUrl: string -> bool)
    ensures ValidateArticle(input, skipOmitted, isUrl) == [] <==> Acceptable(input, skipOmitted, isUrl)
  {
    var errs := ValidateArticle(input, skipOmitted, isUrl);
    ArticleMessages(input, skipOmitted, isUrl);
    if errs != [] {
      var msg := errs[0].message;
      assert MessagesOf(errs)[0] == msg;
      OnlyDeclaredMessages(input, skipOmitted, isUrl, msg);
    }
  }

  /** One item if the condition holds, else none. */
  function Flag(c: bool, item: ValidationItem): seq<ValidationItem> {
    if c then [item] else []
  }

  lemma NullErrorsOfThree(attrs: seq<Attribute>, values: seq<Field>, skipOmitted: bool)
    requires |attrs| == |values| == 3
    ensures NullErrors(attrs, values, skipOmitted) ==
      NullError(attrs[0], values[0], skipOmitted) + NullError(attrs[1], values[1], skipOmitted)
      + NullError(attrs[2], values[2], skipOmitted)
  {
    var a1, v1 := attrs[1..], values[1..];
    var a2, v2 := a1[1..], v1[1..];
    assert a2[1..] == [] && v2[1..] == [];
    assert NullErrors(a2, v2, skipOmitted) == NullError(attrs[2], values[2], skipOmitted) + [];
    assert NullErrors(a1, v1, skipOmitted) == NullError(attrs[1], values[1], skipOmitted) + NullErrors(a2, v2, skipOmitted);
  }

  lemma ValidatorErrorsOfThree(attrs: seq<Attribute>, values: seq<Field>, isUrl: string -> bool)
    requires |attrs| == |values| == 3
    ensures ValidatorErrors(attrs, values, isUrl) ==
      (if values[0].Str? then RuleErrors(attrs[0].path, attrs[0].rules, values[0].s, isUrl) else [])
      + (if values[1].Str? then RuleErrors(attrs[1].path, attrs[1].rules, values[1].s, isUrl) else [])
      + (if values[2].Str? then RuleErrors(attrs[2].path, attrs[2].rules, values[2].s, isUrl) else [])
  {
    var a1, v1 := attrs[1..], values[1..];
    var a2, v2 := a1[1..], v1[1..];
    assert a2[1..] == [] && v2[1..] == [];
    assert ValidatorErrors(a2, v2, isUrl)
      == (if values[2].Str? then RuleErrors(attrs[2].path, attrs[2].rules, values[2].s, isUrl) else []) + [];
  }

  lemma RuleErrorsOfOne(path: string, rule: Rule, s: string, isUrl: string -> bool)
    ensures RuleErrors(path, [rule], s, isUrl) == Flag(!Passes(rule.check, s, isUrl), ValidationItem(path, rule.msg))
  {
    assert [rule][1..] == [];
  }

  lemma RuleErrorsOfTwo(path: string, r0: Rule, r1: Rule, s: string, isUrl: string -> bool)
    ensures RuleErrors(path, [r0, r1], s, isUrl) ==
      Flag(!Passes(r0.check, s, isUrl), ValidationItem(path, r0.msg)) + Flag(!Passes(r1.check, s, isUrl), ValidationItem(path, r1.msg))
  {
    assert [r0, r1][1..] == [r1];
    RuleErrorsOfOne(path, r1, s, isUrl);
  }

  /** The notNull part of the Article error list. */
  lemma ArticleNullList(input: ArticleInput, skipOmitted: bool)
    ensures NullErrors(ArticleAttributes, Values(input), skipOmitted) ==
      Flag(NotNullFails(input.title, skipOmitted), ValidationItem("title", TitleOmitted))
      + Flag(NotNullFails(input.description, skipOmitted), ValidationItem("description", DescriptionOmitted))
      + Flag(NotNullFails(input.imageUrl, skipOmitted), ValidationItem("image_url", ImageUrlOmitted))
  {
    NullErrorsOfThree(ArticleAttributes, Values(input), skipOmitted);
  }

  /** The rule errors of one present-or-not value with a single notEmpty rule. */
  lemma NotEmptyOnly(path: string, msg: string, f: Field, isUrl: string -> bool)
    ensures (if f.Str? then RuleErrors(path, [Rule(NotEmpty, msg)], f.s, isUrl) else [])
      == Flag(BlankText(f), ValidationItem(path, msg))
  {
    if f.Str? {
      RuleErrorsOfOne(path, Rule(NotEmpty, msg), f.s, isUrl);
    }
  }

  /** The rule part of the Article error list. */
  lemma ArticleRuleList(input: ArticleInput, isUrl: string -> bool)
    ensures ValidatorErrors(ArticleAttributes, Values(input), isUrl) ==
      Flag(BlankText(input.title), ValidationItem("title", TitleEmpty))
      + Flag(BlankText(input.description), ValidationItem("description", DescriptionEmpty))
      + (Flag(BlankText(input.imageUrl), ValidationItem("image_url", ImageUrlEmpty))
         + Flag(input.imageUrl.Str? && !isUrl(input.imageUrl.s), ValidationItem("image_url", WrongUrlFormat)))
  {
    ValidatorErrorsOfThree(ArticleAttributes, Values(input), isUrl);
    NotEmptyOnly("title", TitleEmpty, input.title, isUrl);
    NotEmptyOnly("description", DescriptionEmpty, input.description, isUrl);
    if input.imageUrl.Str? {
      RuleErrorsOfTwo("image_url", Rule(NotEmpty, ImageUrlEmpty), Rule(IsUrl, WrongUrlFormat), input.imageUrl.s, isUrl);
    }
  }

  /**
   * The full error list of the Article table, in the order it is reported:
   * the three notNull items in declaration order, then the notEmpty items
   * in declaration order, then the image_url URL item.
   */
  lemma ArticleErrorList(input: ArticleInput, skipOmitted: bool, isUrl: string -> bool)
    ensures ValidateArticle(input, skipOmitted, isUrl) ==
      Flag(NotNullFails(input.title, skipOmitted), ValidationItem("title", TitleOmitted))
      + Flag(NotNullFails(input.description, skipOmitted), ValidationItem("description", DescriptionOmitted))
      + Flag(NotNullFails(input.imageUrl, skipOmitted), ValidationItem("image_url", ImageUrlOmitted))
      + Flag(BlankText(input.title), ValidationItem("title", TitleEmpty))
      + Flag(BlankText(input.description), ValidationItem("description", DescriptionEmpty))
      + Flag(BlankText(input.imageUrl), ValidationItem("image_url", ImageUrlEmpty))
      + Flag(input.imageUrl.Str? && !isUrl(input.imageUrl.s), ValidationItem("image_url", WrongUrlFormat))
  {
    ArticleNullList(input, skipOmitted);
    ArticleRuleList(input, isUrl);
    var n := NullErrors(ArticleAttributes, Values(input), skipOmitted);
    var a := Flag(BlankText(input.title), ValidationItem("title", TitleEmpty));
    var b := Flag(BlankText(input.description), ValidationItem("description", DescriptionEmpty));
    var c := Flag(BlankText(input.imageUrl), ValidationItem("image_url", ImageUrlEmpty));
    var d := Flag(input.imageUrl.Str? && !isUrl(input.imageUrl.s), ValidationItem("image_url", WrongUrlFormat));
    assert ValidateArticle(input, skipOmitted, isUrl) == n + ValidatorErrors(ArticleAttributes, Values(input), isUrl);
    Reassociate(n, a, b, c, d);
  }

  lemma Reassociate(n: seq<ValidationItem>, a: seq<ValidationItem>, b: seq<ValidationItem>, c: seq<ValidationItem>, d: seq<ValidationItem>)
    ensures n + (a + b + (c + d)) == n + a + b + c + d
  {
  }

  /** No two entries of a list are equal. */
  ghost predicate Distinct(items: seq<ValidationItem>) {
    forall i, j :: 0 <= i < j < |items| ==> items[i] != items[j]
  }

  lemma AppendFresh(items: seq<ValidationItem>, c: bool, item: ValidationItem)
    requires Distinct(items) && item !in items
    ensures Distinct(items + Flag(c, item))
  {
  }

  /** Each broken rule of the Article table is reported once, never twice. */
  lemma {:induction false} ArticleErrorsDistinct(input: ArticleInput, skipOmitted: bool, isUrl: string -> bool)
    ensures Distinct(ValidateArticle(input, skipOmitted, isUrl))
  {
    ArticleErrorList(input, skipOmitted, isUrl);
    var l1 := Flag(NotNullFails(input.title, skipOmitted), ValidationItem("title", TitleOmitted));
    var l2 := l1 + Flag(NotNullFails(input.description, skipOmitted), ValidationItem("description", DescriptionOmitted));
    var l3 := l2 + Flag(NotNullFails(input.imageUrl, skipOmitted), ValidationItem("image_url", ImageUrlOmitted));
    var l4 := l3 + Flag(BlankText(input.title), ValidationItem("title", TitleEmpty));
    var l5 := l4 + Flag(BlankText(input.description), ValidationItem("description", DescriptionEmpty));
    var l6 := l5 + Flag(BlankText(input.imageUrl), ValidationItem("image_url", ImageUrlEmpty));
    AppendFresh([], NotNullFails(input.title, skipOmitted), ValidationItem("title", TitleOmitted));
    assert l1 == [] + l1;
    AppendFresh(l1, NotNullFails(input.description, skipOmitted), ValidationItem("description", DescriptionOmitted));
    AppendFresh(l2, NotNullFails(input.imageUrl, skipOmitted), ValidationItem("image_url", ImageUrlOmitted));
    AppendFresh(l3, BlankText(input.title), ValidationItem("title", TitleEmpty));
    AppendFresh(l4, BlankText(input.description), ValidationItem("description", DescriptionEmpty));
    AppendFresh(l5, BlankText(input.imageUrl), ValidationItem("image_url", ImageUrlEmpty));
    AppendFresh(l6, input.imageUrl.Str? && !isUrl(input.imageUrl.s), ValidationItem("image_url", WrongUrlFormat));
  }
}

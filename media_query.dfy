/**
 * The `@media` prelude builder (`mediaQuery`). It appears twice in the code
 * base, in `src/css/at-rules/media-query.ts` (rules of type
 * `HoneyMediaQueryRule`) and in `src/at-rules/media-query.ts` (rules of type
 * `HoneyCSSMediaRule`); the two have the same fields and the same logic, and
 * are modelled once.
 *
 * The output follows the media query list syntax of Media Queries Level 4,
 * section 3: comma-separated queries, each an optional `not`/`only`, a media
 * type and `and`-joined `(feature: value)` conditions.
 */
module MediaQuery {
  import opened Wrappers
  import opened Text

  datatype Operator = Not | Only
  datatype MediaType = All | Print | Screen | Speech
  datatype Orientation = Landscape | Portrait
  datatype Update = UpdateNone | Slow | Fast

  /** One media query. An absent field, like an empty dimension string, adds no condition. */
  datatype MediaRule = MediaRule(
    operator: Option<Operator>,
    mediaType: Option<MediaType>,
    width: Option<string>,
    minWidth: Option<string>,
    maxWidth: Option<string>,
    height: Option<string>,
    minHeight: Option<string>,
    maxHeight: Option<string>,
    orientation: Option<Orientation>,
    minResolution: Option<string>,
    maxResolution: Option<string>,
    resolution: Option<string>,
    update: Option<Update>)

  /** The rule with no field set. */
  const NoRule := MediaRule(None, None, None, None, None, None, None, None, None, None, None, None, None)

  function OperatorText(op: Operator): string {
    match op
    case Not => "not"
    case Only => "only"
  }

  function MediaTypeText(t: MediaType): string {
    match t
    case All => "all"
    case Print => "print"
    case Screen => "screen"
    case Speech => "speech"
  }

  function OrientationText(o: Orientation): string {
    match o
    case Landscape => "landscape"
    case Portrait => "portrait"
  }

  function UpdateText(u: Update): string {
    match u
    case UpdateNone => "none"
    case Slow => "slow"
    case Fast => "fast"
  }

  /** The number of media features a rule can carry. */
  const FeatureCount := 11

  /** The features, in the order their conditions are written. */
  function FeatureName(i: nat): string
    requires i < FeatureCount
  {
    [ "width", "min-width", "max-width", "height", "min-height", "max-height",
      "orientation", "min-resolution", "max-resolution", "resolution", "update" ][i]
  }


  /** The value each feature is given by the rule, in the written order (`rulesConfig`). */
  function FeatureValues(rule: MediaRule): (r: seq<Option<string>>)
    ensures |r| == FeatureCount
  {
    [ rule.width, rule.minWidth, rule.maxWidth, rule.height, rule.minHeight, rule.maxHeight,
      if rule.orientation.Some? then Some(OrientationText(rule.orientation.value)) else None,
      rule.minResolution, rule.maxResolution, rule.resolution,
      if rule.update.Some? then Some(UpdateText(rule.update.value)) else None ]
  }

  /** `rule.<feature> && [...]` is truthy: the field is set to a non-empty value. */
  predicate IsSet(v: Option<string>) { v.Some? && v.value != "" }

  /** The features set in `values`, from feature `from` on, in feature order. */
  function SetFeaturesFrom(values: seq<Option<string>>, from: nat): seq<nat>
    requires from <= |values|
    decreases |values| - from
  {
    if from == |values| then []
    else (if IsSet(values[from]) then [from] else []) + SetFeaturesFrom(values, from + 1)
  }

  lemma {:induction false} SetFeaturesFromSpec(values: seq<Option<string>>, from: nat)
    requires from <= |values|
    ensures forall k :: 0 <= k < |SetFeaturesFrom(values, from)| ==>
      from <= SetFeaturesFrom(values, from)[k] < |values| && IsSet(values[SetFeaturesFrom(values, from)[k]])
    ensures forall i :: from <= i < |values| && IsSet(values[i]) ==> i in SetFeaturesFrom(values, from)
    ensures forall k, l :: 0 <= k < l < |SetFeaturesFrom(values, from)| ==>
      SetFeaturesFrom(values, from)[k] < SetFeaturesFrom(values, from)[l]
    decreases |values| - from
  {
    if from < |values| {
      var r, rest := SetFeaturesFrom(values, from), SetFeaturesFrom(values, from + 1);
      SetFeaturesFromSpec(values, from + 1);
      if IsSet(values[from]) {
        assert r == [from] + rest;
        forall k | 1 <= k < |r| ensures r[k] == rest[k - 1] {
        }
      } else {
        assert r == rest;
      }
    }
  }

  /** Unset features are skipped: the next condition is the first set feature. */
  lemma {:induction false} SkipUnset(values: seq<Option<string>>, from: nat, i: nat)
    requires from <= i < |values| && IsSet(values[i])
    requires forall k :: from <= k < i ==> !IsSet(values[k])
    ensures SetFeaturesFrom(values, from) == [i] + SetFeaturesFrom(values, i + 1)
    decreases i - from
  {
    if from < i {
      SkipUnset(values, from + 1, i);
    }
  }

  /** With nothing set from `from` on, there are no more conditions. */
  lemma {:induction false} NoneSet(values: seq<Option<string>>, from: nat)
    requires from <= |values|
    requires forall k :: from <= k < |values| ==> !IsSet(values[k])
    ensures SetFeaturesFrom(values, from) == []
    decreases |values| - from
  {
    if from < |values| {
      NoneSet(values, from + 1);
    }
  }

  /** The features of `rule` that produce a condition (`boolFilter(rulesConfig)`). */
  function Conditions(rule: MediaRule): seq<nat> {
    SetFeaturesFrom(FeatureValues(rule), 0)
  }

  /**
   * A feature yields a condition exactly when the rule sets it to a non-empty value, and the
   * conditions follow the fixed feature order whatever order the fields were given in.
   */
  lemma ConditionsInFeatureOrder(rule: MediaRule)
    ensures forall k :: 0 <= k < |Conditions(rule)| ==>
      Conditions(rule)[k] < FeatureCount && IsSet(FeatureValues(rule)[Conditions(rule)[k]])
    ensures forall i :: 0 <= i < FeatureCount ==> (i in Conditions(rule) <==> IsSet(FeatureValues(rule)[i]))
    ensures forall k, l :: 0 <= k < l < |Conditions(rule)| ==> Conditions(rule)[k] < Conditions(rule)[l]
  {
    SetFeaturesFromSpec(FeatureValues(rule), 0);
  }

  /** `(<name>: <value>)` for a set feature. */
  function ConditionText(rule: MediaRule, i: nat): string
    requires i < FeatureCount && IsSet(FeatureValues(rule)[i])
  {
    "(" + FeatureName(i) + ": " + FeatureValues(rule)[i].value + ")"
  }

  function ConditionTexts(rule: MediaRule): (r: seq<string>)
    ensures |r| == |Conditions(rule)|
  {
    var cs := Conditions(rule);
    ConditionsInFeatureOrder(rule);
    seq(|cs|, k requires 0 <= k < |cs| => ConditionText(rule, cs[k]))
  }

  /** The text before the conditions: the operator and a space, if any, then the media type, `screen` by default. */
  function Head(rule: MediaRule): string {
    (if rule.operator.Some? then OperatorText(rule.operator.value) + " " else "")
    + MediaTypeText(rule.mediaType.GetOr(Screen))
  }

  /** The query of one rule: `[<operator> ]<type>[ and <conditions>]`. */
  function Query(rule: MediaRule): string {
    var conditions := Join(ConditionTexts(rule), " and ");
    Head(rule) + (if conditions != "" then " and " + conditions else "")
  }

  function Queries(rules: seq<MediaRule>): (r: seq<string>)
    ensures |r| == |rules|
    ensures forall i :: 0 <= i < |rules| ==> r[i] == Query(rules[i])
  {
    seq(|rules|, i requires 0 <= i < |rules| => Query(rules[i]))
  }

  /** `mediaQuery(rules)` */
  function MediaQuery(rules: seq<MediaRule>): (r: string)
    ensures StartsWith(r, "@media ")
  {
    "@media " + Join(Queries(rules), ", ")
  }

  // ---------------------------------------------------------------------------
  // properties

  /** The empty list gives the bare `@media ` prefix. */
  lemma EmptyList()
    ensures MediaQuery([]) == "@media "
  {
  }

  /** Each rule contributes its own comma-separated query, after those of the rules before it. */
  lemma {:induction false} AppendRule(rules: seq<MediaRule>, rule: MediaRule)
    requires |rules| >= 1
    ensures MediaQuery(rules + [rule]) == MediaQuery(rules) + ", " + Query(rule)
  {
    QueriesSnoc(rules, rule);
    JoinSnoc(Queries(rules), Query(rule), ", ");
  }

  lemma QueriesSnoc(rules: seq<MediaRule>, rule: MediaRule)
    ensures Queries(rules + [rule]) == Queries(rules) + [Query(rule)]
  {
    var l, r := Queries(rules + [rule]), Queries(rules) + [Query(rule)];
    forall k | 0 <= k < |l| ensures l[k] == r[k] {
      assert (rules + [rule])[k] == if k < |rules| then rules[k] else rule;
    }
  }

  /** A single rule is its query after `@media `. */
  lemma SingleRule(rule: MediaRule)
    ensures MediaQuery([rule]) == "@media " + Query(rule)
  {
    assert Queries([rule]) == [Query(rule)];
  }

  /**
   * A rule with no condition is `[<operator> ]<type>`; otherwise ` and ` and the
   * conditions, joined by ` and `, follow the type.
   */
  lemma QueryShape(rule: MediaRule)
    ensures Conditions(rule) == [] ==> Query(rule) == Head(rule)
    ensures Conditions(rule) != [] ==> Query(rule) == Head(rule) + " and " + Join(ConditionTexts(rule), " and ")
  {
    var ts := ConditionTexts(rule);
    if ts != [] {
      JoinStartsWithFirst(ts, " and ");
      assert ts[0] != "";
    }
  }

  /** With no media type given, `screen` is written, after the operator if there is one. */
  lemma DefaultScreen(rule: MediaRule)
    requires rule.mediaType == None
    ensures rule.operator == None ==> StartsWith(Query(rule), "screen")
    ensures rule.operator.Some? ==> StartsWith(Query(rule), OperatorText(rule.operator.value) + " screen")
  {
    var h := Head(rule);
    assert Query(rule)[..|h|] == h;
  }

  /** A rule with no feature set is its head alone: nothing follows the media type. */
  lemma NoFeatures(rule: MediaRule)
    requires forall i :: 0 <= i < FeatureCount ==> !IsSet(FeatureValues(rule)[i])
    ensures Query(rule) == Head(rule)
  {
    NoneSet(FeatureValues(rule), 0);
    QueryShape(rule);
  }

  /** A rule with exactly one feature set has that one condition. */
  lemma OneFeature(rule: MediaRule, i: nat)
    requires i < FeatureCount && IsSet(FeatureValues(rule)[i])
    requires forall k :: 0 <= k < FeatureCount && k != i ==> !IsSet(FeatureValues(rule)[k])
    ensures Query(rule) == Head(rule) + " and " + ConditionText(rule, i)
  {
    var values := FeatureValues(rule);
    SkipUnset(values, 0, i);
    NoneSet(values, i + 1);
    assert Conditions(rule) == [i];
    QueryShape(rule);
  }

  /**
   * The two conditions of a rule with exactly two features set appear in the fixed
   * feature order, whatever order the fields were given in.
   */
  lemma TwoFeatures(rule: MediaRule, i: nat, j: nat)
    requires i < j < FeatureCount && IsSet(FeatureValues(rule)[i]) && IsSet(FeatureValues(rule)[j])
    requires forall k :: 0 <= k < FeatureCount && k != i && k != j ==> !IsSet(FeatureValues(rule)[k])
    ensures Query(rule) == Head(rule) + " and " + ConditionText(rule, i) + " and " + ConditionText(rule, j)
  {
    TwoConditions(rule, i, j);
    QueryShape(rule);
    JoinPair(ConditionTexts(rule), " and ");
  }

  lemma TwoConditions(rule: MediaRule, i: nat, j: nat)
    requires i < j < FeatureCount && IsSet(FeatureValues(rule)[i]) && IsSet(FeatureValues(rule)[j])
    requires forall k :: 0 <= k < FeatureCount && k != i && k != j ==> !IsSet(FeatureValues(rule)[k])
    ensures ConditionTexts(rule) == [ConditionText(rule, i), ConditionText(rule, j)]
  {
    var values := FeatureValues(rule);
    SkipUnset(values, 0, i);
    SkipUnset(values, i + 1, j);
    NoneSet(values, j + 1);
    assert Conditions(rule) == [i, j];
  }

  lemma JoinPair(ts: seq<string>, sep: string)
    requires |ts| == 2
    ensures Join(ts, sep) == ts[0] + sep + ts[1]
  {
    assert Join(ts, sep) == ts[0] + sep + Join(ts[1..], sep);
    assert ts[1..] == [ts[1]];
  }

  // ---------------------------------------------------------------------------
  // the documented examples

  /** No media feature is given a value. */
  predicate Plain(r: MediaRule) {
    && r.width == None && r.minWidth == None && r.maxWidth == None
    && r.height == None && r.minHeight == None && r.maxHeight == None
    && r.orientation == None && r.minResolution == None && r.maxResolution == None
    && r.resolution == None && r.update == None
  }

  /** A rule that gives no feature a value is its head alone. */
  lemma HeadOnly(r: MediaRule)
    requires Plain(r)
    ensures Query(r) == Head(r)
  {
    assert FeatureValues(r) == [None, None, None, None, None, None, None, None, None, None, None];
    NoFeatures(r);
  }

  /** Without an operator the head is the media type alone. */
  lemma NoOperatorHead(r: MediaRule)
    requires r.operator == None
    ensures Head(r) == MediaTypeText(r.mediaType.GetOr(Screen))
  {
    var t := MediaTypeText(r.mediaType.GetOr(Screen));
    assert "" + t == t;
  }

  /** A rule with only a media type is that type's name. */
  lemma TypeOnly(r: MediaRule)
    requires Plain(r) && r.operator == None
    ensures Query(r) == MediaTypeText(r.mediaType.GetOr(Screen))
  {
    HeadOnly(r);
    NoOperatorHead(r);
  }

  /** A rule with only an operator and a media type is the operator, a space and the type. */
  lemma OperatorAndType(r: MediaRule)
    requires Plain(r) && r.operator.Some?
    ensures Query(r) == OperatorText(r.operator.value) + " " + MediaTypeText(r.mediaType.GetOr(Screen))
  {
    HeadOnly(r);
  }

  /** `{mediaType: 'print'}` is `@media print`. */
  lemma PrintExample(r: MediaRule)
    requires Plain(r) && r.operator == None && r.mediaType == Some(Print)
    ensures MediaQuery([r]) == "@media " + "print"
  {
    TypeOnly(r);
    assert r.mediaType.GetOr(Screen) == Print;
    ScreenAndPrintNames();
    SingleRule(r);
  }

  /** Two rules are two comma-separated queries, in the order given. */
  lemma ScreenPrintExample(r1: MediaRule, r2: MediaRule)
    requires Plain(r1) && r1.operator == None && r1.mediaType == Some(Screen)
    requires Plain(r2) && r2.operator == None && r2.mediaType == Some(Print)
    ensures MediaQuery([r1, r2]) == "@media " + "screen" + ", " + "print"
  {
    TwoTypes(r1, r2);
    assert r1.mediaType.GetOr(Screen) == Screen && r2.mediaType.GetOr(Screen) == Print;
    ScreenAndPrintNames();
  }

  lemma ScreenAndPrintNames()
    ensures MediaTypeText(Screen) == "screen" && MediaTypeText(Print) == "print"
  {
  }

  /** Two rules with only a media type are the two type names, comma-separated. */
  lemma TwoTypes(r1: MediaRule, r2: MediaRule)
    requires Plain(r1) && r1.operator == None && Plain(r2) && r2.operator == None
    ensures MediaQuery([r1, r2])
      == "@media " + MediaTypeText(r1.mediaType.GetOr(Screen)) + ", " + MediaTypeText(r2.mediaType.GetOr(Screen))
  {
    TypeOnly(r1);
    TypeOnly(r2);
    SingleRule(r1);
    AppendRule([r1], r2);
    assert [r1] + [r2] == [r1, r2];
  }

  /** The operator comes before the media type. */
  lemma OnlyScreenExample(r: MediaRule)
    requires Plain(r) && r.operator == Some(Only) && r.mediaType == Some(Screen)
    ensures MediaQuery([r]) == "@media " + ("only" + " " + "screen")
  {
    OperatorAndType(r);
    assert OperatorText(r.operator.value) == "only";
    assert MediaTypeText(r.mediaType.GetOr(Screen)) == "screen";
    SingleRule(r);
  }

  lemma WidthText(r: MediaRule)
    requires IsSet(r.width)
    ensures IsSet(FeatureValues(r)[0]) && ConditionText(r, 0) == "(width: " + r.width.value + ")"
  {
  }

  lemma MinWidthText(r: MediaRule)
    requires IsSet(r.minWidth)
    ensures IsSet(FeatureValues(r)[1]) && ConditionText(r, 1) == "(min-width: " + r.minWidth.value + ")"
  {
  }

  lemma MaxWidthText(r: MediaRule)
    requires IsSet(r.maxWidth)
    ensures IsSet(FeatureValues(r)[2]) && ConditionText(r, 2) == "(max-width: " + r.maxWidth.value + ")"
  {
  }

  lemma HeightText(r: MediaRule)
    requires IsSet(r.height)
    ensures IsSet(FeatureValues(r)[3]) && ConditionText(r, 3) == "(height: " + r.height.value + ")"
  {
  }

  /** A rule with only a non-empty width is the default type and that one condition. */
  lemma WidthOnly(r: MediaRule)
    requires r.operator == None && r.mediaType == None && IsSet(r.width) && Plain(r.(width := None))
    ensures Query(r) == "screen" + " and " + "(width: " + r.width.value + ")"
  {
    assert FeatureValues(r) == [r.width, None, None, None, None, None, None, None, None, None, None];
    WidthText(r);
    NoOperatorHead(r);
    OneFeature(r, 0);
  }

  /** A rule with only a non-empty minimum width is the default type and that one condition. */
  lemma MinWidthOnly(r: MediaRule)
    requires r.operator == None && r.mediaType == None && IsSet(r.minWidth) && Plain(r.(minWidth := None))
    ensures Query(r) == "screen" + " and " + "(min-width: " + r.minWidth.value + ")"
  {
    assert FeatureValues(r) == [None, r.minWidth, None, None, None, None, None, None, None, None, None];
    MinWidthText(r);
    NoOperatorHead(r);
    OneFeature(r, 1);
  }

  /** A rule with only a non-empty maximum width is the default type and that one condition. */
  lemma MaxWidthOnly(r: MediaRule)
    requires r.operator == None && r.mediaType == None && IsSet(r.maxWidth) && Plain(r.(maxWidth := None))
    ensures Query(r) == "screen" + " and " + "(max-width: " + r.maxWidth.value + ")"
  {
    assert FeatureValues(r) == [None, None, r.maxWidth, None, None, None, None, None, None, None, None];
    MaxWidthText(r);
    NoOperatorHead(r);
    OneFeature(r, 2);
  }

  /** A rule with only a non-empty height is the default type and that one condition. */
  lemma HeightOnly(r: MediaRule)
    requires r.operator == None && r.mediaType == None && IsSet(r.height) && Plain(r.(height := None))
    ensures Query(r) == "screen" + " and " + "(height: " + r.height.value + ")"
  {
    assert FeatureValues(r) == [None, None, None, r.height, None, None, None, None, None, None, None];
    HeightText(r);
    NoOperatorHead(r);
    OneFeature(r, 3);
  }

  /** A rule with a minimum and a maximum width has the min-width condition first. */
  lemma MinAndMaxWidth(r: MediaRule)
    requires r.operator == None && r.mediaType == None && IsSet(r.minWidth) && IsSet(r.maxWidth)
    requires Plain(r.(minWidth := None, maxWidth := None))
    ensures Query(r) == "screen" + " and " + "(min-width: " + r.minWidth.value + ")" + " and " + "(max-width: " + r.maxWidth.value + ")"
  {
    assert forall k :: 0 <= k < FeatureCount && k != 1 && k != 2 ==> !IsSet(FeatureValues(r)[k]) by {
      assert FeatureValues(r) == [None, r.minWidth, r.maxWidth, None, None, None, None, None, None, None, None];
    }
    MinWidthText(r);
    MaxWidthText(r);
    NoOperatorHead(r);
    TwoFeatures(r, 1, 2);
  }

  /** `{minWidth: '1280px'}` alone is a `screen` query. */
  lemma MinWidthExample(r: MediaRule)
    requires r.operator == None && r.mediaType == None && r.minWidth == Some("1280px") && Plain(r.(minWidth := None))
    ensures MediaQuery([r]) == "@media " + ("screen" + " and " + "(min-width: " + "1280px" + ")")
  {
    MinWidthOnly(r);
    SingleRule(r);
  }

  /** min-width is written before max-width although the fields were given the other way round. */
  lemma MinMaxWidthExample(r: MediaRule)
    requires r.operator == None && r.mediaType == None && r.maxWidth == Some("960px") && r.minWidth == Some("640px")
    requires Plain(r.(minWidth := None, maxWidth := None))
    ensures MediaQuery([r]) == "@media " + ("screen" + " and " + "(min-width: " + "640px" + ")" + " and " + "(max-width: " + "960px" + ")")
  {
    MinAndMaxWidth(r);
    SingleRule(r);
  }

  /** Width and height in separate rules give two queries rather than one merged query. */
  lemma SeparateRulesExample(r1: MediaRule, r2: MediaRule)
    requires r1.operator == None && r1.mediaType == None && r1.width == Some("700px") && Plain(r1.(width := None))
    requires r2.operator == None && r2.mediaType == None && r2.height == Some("500px") && Plain(r2.(height := None))
    ensures MediaQuery([r1, r2])
         == "@media " + ("screen" + " and " + "(width: " + "700px" + ")") + ", " + ("screen" + " and " + "(height: " + "500px" + ")")
  {
    WidthOnly(r1);
    HeightOnly(r2);
    SingleRule(r1);
    AppendRule([r1], r2);
    assert [r1] + [r2] == [r1, r2];
  }
}

# honey-style core, modelled in Dafny

honey-style is a CSS-in-JS library built on the stylis compiler. This project models its core:

- **Template evaluation.** The `css` tagged template turns segments and interpolations into CSS text. Interpolations can be strings, numbers, booleans, `null`/`undefined`, styled components, style functions, style objects and arrays. Both the current resolver (`src/css/css.ts`) and the earlier one (`src/css.ts`) are modelled.
- **At-rule middlewares.** `createAtRuleMiddleware` rewrites a custom `@honey-<name>(args)` at-rule, nested in a rule, into ordinary CSS. Six expanders are built on it: `stack`, `inline`, `center`, `ellipsis`, `absolute-fill` and `media`. `@honey-media` builds its prelude with the `mediaQuery` builder.
- **Spacing middleware.** It multiplies every bare number in the value of a spacing property (`margin`, `padding-top`, `gap`, ...) by the theme's spacing base and writes it in pixels. The earlier version used a `spacingMultiplier` option instead and is modelled too.
- **Suggestion middleware.** It points out rules whose declarations spell out what `@honey-center`, `@honey-stack` or `@honey-inline` would write.
- **Style registry.** `mountStyle` keeps one `<style>` tag holding the CSS of every mounted class name. Entries are reference-counted and ordered by priority.
- **Small helpers.** `hashString`, `makeClassName`, `filterNonHtmlAttrs` and `assert`.

## How the model is built

- **Pure code** becomes datatypes and functions. This covers the resolvers, the `mediaQuery` builder, the argument parsing, the expanders, the token scan of `@honey-media`, the pattern table and the registry transitions.
- **Loops become methods with invariants.** Each method is proved equal to a specification function. These are the media token scan, the spacing loops, the suggestion loop, `splitStylisChildren`, `filterNonHtmlAttrs` and `hashString`.
- **Stylis nodes are objects.** A node is the class `Ast.Element`, and the middlewares update its fields in place (`type`, `value`, `return`).
- **The style registry is an object.** It is the class `MountStyle.StyleRegistry`, holding the registry map, the cached style tag and the document's state.
- **Stylis itself is a parameter.** `serialize` and `serialize(compile(css), callback)` are passed in as the functions of an `Ast.Serializer`.

Where the two copies of a piece of code differ, the differences are proved as lemmas:

- The two `css` templates agree unless a `false` is nested inside an interpolation. Then the earlier resolver prints `false` and the current one prints nothing (`LegacyCss.NestedFalseDiffers`).
- The two spacing middlewares agree on unsigned numbers. The earlier one leaves negative numbers alone, and the newer one scales them.

The two copies of `mediaQuery` (`src/css/at-rules/media-query.ts` and `src/at-rules/media-query.ts`) differ only in type names and in how the falsy entries are filtered. They are modelled once.

Where the source repeats code in two files, the model repeats it too, so that each file has its own members: `SpacingLegacy.ScaleTokens` and `SpacingLegacy.ScaleAll` follow the loop of `src/css/middlewares.ts`, which is the loop of `src/css/middlewares/spacing.ts` with the earlier pattern, and `InlineAtRule.Transform` has the same shape as `StackAtRule.Transform` because `inline-at-rule.ts` copies `stack-at-rule.ts`.

Numbers such as `1.5` or `-2` are read as exact decimals and scaled by an integer base. The product is written the way JavaScript writes a number it holds exactly.

## Model

| member | source | states |
|---|---|---|
| Css.Resolve | src/css/css.ts:15-43 | `false`, `null`, `undefined` and `''` resolve to `''`; a styled component resolves to `.` followed by its id; a style function resolves as the interpolation it returns; a string is itself, a number its decimal text and `true` is `true`; an array is its elements' resolutions joined by newlines, an object its kept `key: value;` lines joined by newlines |
| Css.ResolveAll | src/css/css.ts:31-33 | the list resolution has one entry per element, each that element's resolution, in order |
| Css.PropText | src/css/css.ts:38 | a kept property value is written as its string, its decimal integer or `null` |
| Css.ObjectLines | src/css/css.ts:35-39 | at most one line per entry; one per entry when every value is kept; none when no value is kept |
| Css.KeptEntries | src/css/css.ts:37 | exactly the entries whose value is neither `undefined` nor `false` are kept, and there are no more of them than were given |
| Css.KeptEntriesAppend | src/css/css.ts:36-37 | the filter keeps the entries' order: the kept entries of a concatenation are those of each part, one after the other |
| Css.ObjectLinesMatchEntries | src/css/css.ts:35-39 | line i of a style object is the `<kebab-key>: <value>;` declaration of the i-th kept entry |
| Css.ObjectDeclarations | src/css/css.ts:35-39 | a style object resolves to newline-separated lines that split back into one declaration per kept entry, in entry order |
| Css.DeclarationLineHasNoNewline | src/css/css.ts:38 | a declaration line has no newline when its key and string value have none |
| Css.ListLines | src/css/css.ts:31-33 | an array resolves to newline-separated lines that split back into its elements' resolutions |
| Css.EvaluateInterleave | src/css/css.ts:49-54 | a prefix of the reduce, followed by the rest of the template read front to back, is the whole template read front to back |
| Css.TemplateIsInterleaving | src/css/css.ts:45-55 | the `reduce` of `css` is each segment followed by its resolved interpolation, front to back |
| Css.InterleaveAbsent | src/css/css.ts:19-21 | from some index on, absent interpolations add nothing to the segments |
| Css.TemplateWithAbsentInterpolations | src/css/css.ts:45-55 | a template whose interpolations are all absent is its literal text |
| Css.ZeroInterpolation | src/__tests__/css.spec.tsx:28-34 | `0`, alone or in an array, is written as `0` and not dropped |
| Css.SingleSegmentTemplate | src/css/css.ts:49-54 | the trailing segment has no interpolation: a one-segment template is that segment |
| Css.CreateCssRule | src/css/css.ts:57 | `selector{css}`: the selector, `{`, the body and `}` at their positions |
| Css.CssRuleSplit | src/css/css.ts:57 | the selector is recovered from a rule whose selector has no `{` |
| Css.ChildrenCss | src/css/css.ts:59-60 | text children are returned as they are; node children are serialised |
| Css.DeclsOf | src/css/css.ts:75-90 | exactly the `decl` children, no more than the children |
| Css.OthersOf | src/css/css.ts:75-90 | exactly the non-`decl` children, no more than the children |
| Css.SplitIsPartition | src/css/css.ts:67-91 | the two groups together are a permutation of the children |
| Css.SplitPrefix | src/css/css.ts:76-84 | one more child goes to the group its type selects |
| Css.SplitStylisChildren | src/css/css.ts:67-91 | the loop returns the declarations and the other nodes, each in order; text children give two empty groups |
| LegacyCss.ResolveLegacy | src/css.ts:6-30 | `null`/`undefined` resolve to `''`; a component resolves to `.id`; a function resolves as its result; a string is itself, a number its decimal text, a boolean `true` or `false`; an array is its elements' resolutions joined by newlines, an object its kept `key: value;` lines joined by newlines |
| LegacyCss.ResolveAllLegacy | src/css.ts:18-20 | one resolution per array element, in order |
| LegacyCss.ResolversAgree | src/css.ts:6-30 | with no `false` inside, the earlier resolver agrees with the current one |
| LegacyCss.EvaluationsAgree | src/css.ts:36-50 | every prefix of the two reduces agrees when no `false` is nested inside an interpolation |
| LegacyCss.TemplatesAgree | src/css.ts:32-51 | the two `css` templates agree when no `false` is nested inside an interpolation |
| LegacyCss.NestedFalseDiffers | src/css.ts:18-20 | `[false]` is printed as `false` by the earlier template and as `''` by the current one |
| Kebab.Hyphenate | src/css/middlewares/spacing.ts:7-8 | the global replace never shortens the name |
| Kebab.KebabCase | src/css/middlewares/spacing.ts:7-8 | the kebab-case name has no upper-case letter |
| Kebab.HyphenateChars | src/css/middlewares/spacing.ts:7-8 | the only character the replace adds is `-` |
| Kebab.KebabCaseChars | src/css.ts:3-4 | kebab-casing adds no character other than `-` and letters |
| Kebab.HyphenateNoUpper | src/css/middlewares/spacing.ts:7-8 | without upper-case letters nothing is hyphenated |
| Kebab.HyphenateNoBoundary | src/css/middlewares/spacing.ts:7-8 | a name where no lower-case letter or digit is followed by an upper-case letter is left unchanged by the replace |
| Kebab.KebabCaseIdempotent | src/css/middlewares/spacing.ts:7-8 | converting twice is converting once |
| Kebab.KebabCaseWithoutBoundary | src/css/middlewares/spacing.ts:7-8 | a name without boundaries is only lower-cased |
| Kebab.HyphenatePair | src/css/middlewares/spacing.ts:8 | at a match `xY` the replace writes `x-Y` and resumes after `Y` |
| Kebab.HyphenateStep | src/css/middlewares/spacing.ts:8 | elsewhere the replace keeps the first character and resumes after it |
| Kebab.HyphenateAtBoundary | src/css/middlewares/spacing.ts:7-8 | the scan reaches a boundary at the end of any prefix ending in a lower-case letter or digit: the prefix is hyphenated alone, then `-` and the capital, then the rest |
| Kebab.BoundaryAfterOne | src/css/middlewares/spacing.ts:8 | a one-character prefix before a capital is the first match |
| Kebab.BoundaryAfterPair | src/css/middlewares/spacing.ts:8 | a prefix starting with a match is scanned past it, and the boundary is still reached fresh |
| Kebab.BoundaryAfterStep | src/css/middlewares/spacing.ts:8 | a prefix starting without a match keeps its first character, and the boundary is still reached fresh |
| Kebab.CapitalisedTail | src/css/middlewares/spacing.ts:7-8 | the lower-case rest of a capitalised word is left unchanged by the replace |
| Kebab.LowerAsciiAppend | src/css/middlewares/spacing.ts:8 | `toLowerCase` distributes over concatenation |
| Kebab.KebabCaseAppendWord | src/css/middlewares/spacing.ts:7-8 | any name ending in a lower-case letter or digit, followed by a capitalised word, converts to the name's conversion, `-`, and the word lower-cased |
| Kebab.HyphenateBoundaryAppend | src/css/middlewares/spacing.ts:7-8 | appending a capitalised word after a lower-case letter or digit appends `-` and the word, whatever the name holds before |
| Kebab.FontSizeExample | src/css.ts:3-4 | `fontSize` becomes `font-size` |
| Kebab.KebabCaseTwoWords | src/css/middlewares/spacing.ts:7-10 | a lower-case name followed by two capitalised words gets a `-` before each word, and the words are lower-cased |
| Kebab.PaddingBlockStartExample | src/css/constants.ts:15 | `paddingBlockStart`, with two boundaries, becomes `padding-block-start` |
| Factory.NodeType | src/css/middlewares/factory.ts:83 | the handled node type is `@honey-` followed by the name |
| Factory.Group | src/css/middlewares/factory.ts:89 | the lazy group captures a non-empty text |
| Factory.MatchArgs | src/css/middlewares/factory.ts:87-89 | a match captures a non-empty group without `)` |
| Factory.MatchParens | src/css/middlewares/factory.ts:89 | a match after the type captures a non-empty group without `)` |
| Factory.MatchInside | src/css/middlewares/factory.ts:89 | the text up to the first `)`, followed only by whitespace and an optional `;`, captures a non-empty group without `)` |
| Factory.ParseArgs | src/css/middlewares/factory.ts:87-93 | every argument is non-empty and holds neither a space nor a `)` |
| Factory.SplitOnAvoids | src/css/middlewares/factory.ts:93 | splitting adds no character, whether or not the empty pieces are filtered out |
| Factory.TransformCss | src/css/middlewares/factory.ts:95 | absolute-fill always gives its declarations; every other transform gives nothing without a parent |
| Factory.Apply | src/css/middlewares/factory.ts:74-101 | a node it does not handle is unchanged. A handled node becomes a `decl`: its output is the compiled CSS when the transform gives non-empty text, otherwise its value is emptied |
| Factory.Rewrite | src/css/middlewares/factory.ts:91-100 | the node is retyped `decl`; it gets the rendered output when there is CSS, otherwise an empty value |
| Factory.IndexOfAfter | src/css/middlewares/factory.ts:89 | the first `)` after a text without one is the `)` that follows it |
| Factory.MatchOf | src/css/middlewares/factory.ts:87-89 | the type in any letter case, whitespace, `(`, a body without `)`, `)`, and whitespace with an optional `;` matches, capturing the group of the body |
| Factory.ParensOf | src/css/middlewares/factory.ts:89 | leading whitespace before the `(` is skipped |
| Factory.InsideOf | src/css/middlewares/factory.ts:89 | the body before the first `)` is captured |
| Factory.TrimmedValue | src/css/middlewares/factory.ts:88 | `trim()` of a written value keeps everything from the type to the `)` or the `;` |
| Factory.ArgsRoundTrip | src/css/middlewares/factory.ts:87-93 | space-free words written in the parentheses are read back as the arguments, whatever the case of the type, the surrounding whitespace and the optional `;` |
| Factory.WrittenTrimmed | src/css/middlewares/factory.ts:88 | trimming a written value keeps the type, the parentheses and the `;` |
| Factory.WrittenMatched | src/css/middlewares/factory.ts:89 | the trimmed value matches and captures the words joined by spaces |
| Factory.GroupOfWords | src/css/middlewares/factory.ts:89 | the group captured around space-free words is the words without the padding |
| Factory.BodyAvoids | src/css/middlewares/factory.ts:89 | no `)` appears between the parentheses when none appears in the words |
| Factory.NoParenthesesNoArgs | src/css/middlewares/factory.ts:87-93 | a value without `(` gives no arguments |
| Factory.NoParenthesesNoMatch | src/css/middlewares/factory.ts:89 | a value without `(` does not match |
| Factory.NoParenthesesNoParens | src/css/middlewares/factory.ts:89 | text without `(` after the type does not match |
| Factory.EmptyParenthesesNoArgs | src/css/middlewares/factory.ts:89-93 | `@honey-x()` gives no arguments, because the group must take at least one character |
| Factory.EmptyParens | src/css/middlewares/factory.ts:89 | `()` after the type does not match |
| Factory.EmptyInside | src/css/middlewares/factory.ts:89 | a `)` straight after the `(` does not match |
| Factory.StackArgsExample | src/css/middlewares/factory.ts:87-93 | `@honey-stack(2)` gives the arguments `['2']` |
| Factory.UpperCaseStackArgsExample | src/css/middlewares/factory.ts:89 | the `i` flag and the `\s*` in the pattern: `@HONEY-STACK ( 2 ) ;` also gives `['2']` |
| StackAtRule.Declarations | src/css/middlewares/stack-at-rule.ts:19-28 | a flex column, followed by `gap:<gap>;` exactly when there are arguments |
| StackAtRule.Transform | src/css/middlewares/stack-at-rule.ts:13-33 | nothing without a parent; otherwise `parent{declarations children}` with the theme's base, or 0 without a theme |
| StackAtRule.IntegerGap | src/css/middlewares/stack-at-rule.ts:22-26 | an integer first argument n gives `gap:<n*base>px;`, whatever follows it |
| StackAtRule.ExampleIntegerGap | src/css/middlewares/__tests__/stack-at-rule.spec.tsx:25-37 | `@honey-stack (2)` with base 8 gives `gap:16px` |
| StackAtRule.ExamplePixelGap | src/css/middlewares/__tests__/stack-at-rule.spec.tsx:39-51 | `@honey-stack (12px)` gives `gap:12px` |
| InlineAtRule.Declarations | src/css/middlewares/inline-at-rule.ts:19-28 | a centred flex row, followed by `gap:<gap>;` exactly when there are arguments |
| InlineAtRule.Transform | src/css/middlewares/inline-at-rule.ts:13-33 | nothing without a parent; otherwise `parent{declarations children}` |
| InlineAtRule.IntegerGap | src/css/middlewares/inline-at-rule.ts:22-26 | an integer first argument n gives `gap:<n*base>px;` |
| InlineAtRule.ExampleGap | src/css/middlewares/__tests__/inline-at-rule.spec.tsx:27-42 | `@honey-inline (3)` with base 8 gives `gap:24px` |
| InlineAtRule.NoThemeGap | src/css/middlewares/inline-at-rule.ts:22 | without a theme every numeric gap is `0px` |
| CenterAtRule.Declarations | src/css/middlewares/center-at-rule.ts:14-38 | the declarations of each case of the switch: horizontal/x, vertical/y, block, inline, and the default for no argument or any other |
| CenterAtRule.Transform | src/css/middlewares/center-at-rule.ts:8-43 | nothing without a parent; otherwise `parent{declarations children}` |
| CenterAtRule.OnlyFirstArgument | src/css/middlewares/center-at-rule.ts:16 | only the first argument is consulted |
| CenterAtRule.DefaultMode | src/css/middlewares/center-at-rule.ts:35-37 | no argument and an unknown argument both centre a flex box both ways |
| EllipsisAtRule.Transform | src/css/middlewares/ellipsis-at-rule.ts:8-23 | nothing without a parent; otherwise the three truncation declarations and the children inside the parent's selector |
| AbsoluteFillAtRule.Transform | src/css/middlewares/absolute-fill-at-rule.ts:7-11 | always `position:absolute;inset:0;`, bare, whatever the node and the arguments |
| Numbers.PointIsFirst | src/css/middlewares/spacing.ts:41 | the point of a `\d*\.\d+` token is its first point |
| Numbers.LegacyPatternIsUnsigned | src/css/middlewares.ts:41 | `^(\d+\|\d*\.\d+)$` accepts exactly the unsigned tokens of `^-?\d*\.?\d+$` |
| Numbers.SignedPatternIsLegacyWithSign | src/css/middlewares/spacing.ts:41 | the newer pattern is the earlier one with an optional leading `-` |
| Numbers.DigitsAreRadix10 | src/css/middlewares/spacing.ts:41 | a run of `\d` is a run of base-10 digits |
| Numbers.ParseUnsigned | src/css/middlewares/spacing.ts:41 | an unsigned token is read as a non-negative decimal |
| Numbers.TrimZeros | src/css/middlewares/spacing.ts:41 | dropping trailing zeros leaves a prefix that does not end in `0`, and every character dropped is `0` |
| Numbers.FormatUnsigned | src/css/middlewares/spacing.ts:41 | the written non-negative number is never empty |
| Numbers.FormatScaled | src/css/middlewares/spacing.ts:41 | the written number is never empty |
| Numbers.Zeros | src/css/middlewares/spacing.ts:41 | n characters, each `0` |
| Numbers.DigitsAppend | src/css/middlewares/spacing.ts:41 | the digits of a concatenation denote the first part shifted by the length of the second, plus the second |
| Numbers.ZerosValue | src/css/middlewares/spacing.ts:41 | a run of zeros denotes 0 |
| Numbers.TrimZerosSplit | src/css/middlewares/spacing.ts:41 | trimming drops only zeros: the text is its trimmed form followed by zeros |
| Numbers.TrimmedValue | src/css/middlewares/spacing.ts:41 | dropping trailing zeros divides the value by 10 once per zero dropped |
| Numbers.NatDigits | src/css/middlewares/spacing.ts:41 | the decimal text of n reads back as n, with at most k digits below 10^k |
| Numbers.PaddedValue | src/css/middlewares/spacing.ts:41 | a fraction padded with leading zeros to k digits still denotes it |
| Numbers.LeadingZeros | src/css/middlewares/spacing.ts:41 | leading zeros do not change the value of a digit run |
| Numbers.TrimmedPositive | src/css/middlewares/spacing.ts:41 | a digit run with a positive value keeps a digit when its trailing zeros are dropped, and the dropped zeros are a power of ten |
| Numbers.FractionValue | src/css/middlewares/spacing.ts:41 | the written fraction of a number that is not whole is 1 to k digits that denote it once the dropped zeros are put back |
| Numbers.PointToken | src/css/middlewares/spacing.ts:41 | `W.F` for digit runs W and F matches the pattern and reads as the digits of W then F over 10^\|F\| |
| Numbers.NegatedToken | src/css/middlewares/spacing.ts:41 | `-t` matches exactly when t does and reads as t negated |
| Numbers.WholeValue | src/css/middlewares/spacing.ts:41 | a whole number is written as its integer string, which reads back as it with no fraction digits |
| Numbers.PointValue | src/css/middlewares/spacing.ts:41 | a number that is not whole is written `W.F`, a token that reads back as whole + frac / 10^k |
| Numbers.DigitsPointValue | src/css/middlewares/spacing.ts:41 | `W.F` reads back as whole + frac / 10^k when W denotes whole and F, padded with zeros to k digits, denotes frac |
| Numbers.FormatUnsignedValue | src/css/middlewares/spacing.ts:41 | the text written for a / 10^k matches the pattern and reads back as a / 10^k |
| Numbers.SignedValue | src/css/middlewares/spacing.ts:41 | an optional `-` before the token of a / 10^k gives a token of the signed value |
| Numbers.FormatScaledRoundTrip | src/css/middlewares/spacing.ts:41 | the text written for n / 10^k matches the pattern and `parseFloat` of it is n / 10^k, sign included |
| Numbers.ParseUnsignedValue | src/css/middlewares/spacing.ts:41 | a token with its point at i reads as its integer digits shifted by the fraction's length plus the fraction digits, over 10^(number of fraction digits) |
| Numbers.ScaledPxValue | src/css/middlewares/spacing.ts:41 | the text before `px` matches the pattern and denotes the token's value times the base |
| Numbers.FormatWhole | src/css/middlewares/spacing.ts:41 | a whole number is written as its integer string |
| Numbers.ParseNatToString | src/css/middlewares/spacing.ts:41 | a decimal integer string is a token of both patterns and parses back to its value |
| Numbers.ScaleInteger | src/css/middlewares/spacing.ts:41 | `n` scaled by base is `<n*base>px` |
| Numbers.ScaleNegativeInteger | src/css/middlewares/spacing.ts:41 | `-n` is a token and scaled by base is `-<n*base>px` |
| Numbers.OneAndAHalfTimesEight | src/css/middlewares/spacing.ts:41 | `1.5` with base 8 is `12px` |
| Numbers.HalfTimesEight | src/css/middlewares/__tests__/stack-at-rule.spec.tsx:85-119 | `0.5` with base 8 is `4px` |
| Numbers.GapOfInteger | src/css/middlewares/stack-at-rule.ts:24-25 | an integer first argument gives the integer product in pixels |
| Numbers.GapPassesUnitsThrough | src/css/middlewares/stack-at-rule.ts:25 | a single non-numeric argument is written unchanged |
| Numbers.TwelvePxIsNotANumber | src/css/middlewares/stack-at-rule.ts:24 | `12px` is not a bare number |
| Spacing.KebabSpacingProperties | src/css/middlewares/spacing.ts:10 | the list of properties, each in kebab case, in order |
| Spacing.ScaleToken | src/css/middlewares/spacing.ts:41 | a token that is not a bare number is kept as it is |
| Spacing.ScaleTokens | src/css/middlewares/spacing.ts:38-43 | the scaled tokens, one for one and in order |
| Spacing.ScaleTokensSnoc | src/css/middlewares/spacing.ts:38-43 | one more token appends its scaled form |
| Spacing.ScaleTokensPrefix | src/css/middlewares/spacing.ts:38-43 | the scaled tokens of a prefix grow by one per iteration |
| Spacing.Apply | src/css/middlewares/spacing.ts:16-49 | a declaration of a spacing property with text value and no parentheses gets `prop:<scaled tokens joined by spaces>;` as output; any other node is unchanged |
| Spacing.ScaleAll | src/css/middlewares/spacing.ts:38-43 | the loop yields exactly the scaled tokens |
| Spacing.NumberEndsInDigit | src/css/middlewares/spacing.ts:41 | a bare number ends in a digit |
| Spacing.ScaledIsNotNumber | src/css/middlewares/spacing.ts:41 | a scaled token ends in `px`, so it is no longer a bare number |
| Spacing.ScaleTokenIdempotent | src/css/middlewares/spacing.ts:41 | scaling a scaled token changes nothing |
| Spacing.ScaleTokensIdempotent | src/css/middlewares/spacing.ts:38-45 | a rewritten value scaled again is unchanged |
| Spacing.NoNumbersKept | src/css/middlewares/spacing.ts:41 | values with no bare number are kept |
| Spacing.TokensOfWords | src/css/middlewares/spacing.ts:36 | `trim().split(/\s+/)` of words joined by single spaces gives the words |
| Spacing.SpacedWords | src/css/middlewares/spacing.ts:36-47 | the declaration of a value made of space-separated words scales those words in place, in order |
| Spacing.MarginExample | src/css/middlewares/spacing.ts:36-47 | `margin: 2 auto` with base 8 becomes `margin:16px auto;` |
| Spacing.TwoTimesEight | src/css/middlewares/spacing.ts:41 | `2` with base 8 is `16px` |
| Spacing.AutoIsNotANumber | src/css/middlewares/spacing.ts:41 | `auto` is not a bare number |
| Spacing.MarginTopIsSpacing | src/css/constants.ts:3-25 | `marginTop` is matched as `margin-top` |
| SpacingLegacy.ScaleToken | src/css/middlewares.ts:41 | a token outside the unsigned pattern is kept |
| SpacingLegacy.ScaleTokens | src/css/middlewares.ts:38-43 | one scaled token per token, in order |
| SpacingLegacy.ScaleTokensSnoc | src/css/middlewares.ts:38-43 | one more token appends its scaled form |
| SpacingLegacy.ScaleTokensPrefix | src/css/middlewares.ts:38-43 | the scaled tokens of a prefix grow by one per iteration |
| SpacingLegacy.Apply | src/css/middlewares.ts:17-49 | with a multiplier other than 0, a spacing declaration with a text value and no parentheses gets the scaled declaration; otherwise nothing changes |
| SpacingLegacy.ScaleAll | src/css/middlewares.ts:38-43 | the loop yields exactly the scaled tokens |
| SpacingLegacy.AgreesOnUnsigned | src/css/middlewares.ts:41 | on tokens without a leading `-` the two middlewares scale alike |
| SpacingLegacy.AgreesWithoutNegatives | src/css/middlewares.ts:36-47 | on values without a `-`-led token the two write the same declaration |
| SpacingLegacy.NegativeDiffers | src/css/middlewares.ts:41 | `-n` is kept by the earlier middleware and scaled by the newer one |
| SpacingLegacy.ZeroBaseGivesZeroPx | src/css/middlewares/spacing.ts:35-43 | with no theme (base 0) the newer middleware still rewrites, writing every integer as `0px` |
| MediaQuery.FeatureValues | src/at-rules/media-query.ts:90-102 | one value per feature, eleven in all |
| MediaQuery.SetFeaturesFromSpec | src/css/at-rules/media-query.ts:108 | the filter keeps exactly the set features, in increasing feature order |
| MediaQuery.SkipUnset | src/css/at-rules/media-query.ts:108 | unset features are skipped |
| MediaQuery.NoneSet | src/css/at-rules/media-query.ts:108 | with nothing set there are no conditions |
| MediaQuery.ConditionsInFeatureOrder | src/css/at-rules/media-query.ts:94-110 | a feature gives a condition exactly when it is set to a non-empty value; the conditions follow the fixed feature order |
| MediaQuery.ConditionTexts | src/css/at-rules/media-query.ts:108-110 | one `(name: value)` text per condition |
| MediaQuery.Queries | src/css/at-rules/media-query.ts:93-116 | one query per rule, in order |
| MediaQuery.MediaQuery | src/css/at-rules/media-query.ts:92-119 | the result starts with `@media ` |
| MediaQuery.EmptyList | src/at-rules/__tests__/media-query.spec.tsx:4-8 | no rules give `@media ` |
| MediaQuery.AppendRule | src/css/at-rules/media-query.ts:118 | each rule adds `, ` and its query after the earlier ones |
| MediaQuery.QueriesSnoc | src/css/at-rules/media-query.ts:93 | the queries of one more rule end with that rule's query |
| MediaQuery.SingleRule | src/css/at-rules/media-query.ts:118 | a single rule is `@media ` and its query |
| MediaQuery.QueryShape | src/css/at-rules/media-query.ts:112-115 | without conditions a query is `[op ]type`; otherwise ` and ` and the conditions joined by ` and ` follow |
| MediaQuery.DefaultScreen | src/css/at-rules/media-query.ts:115 | with no media type, `screen` is written after the operator, if any |
| MediaQuery.NoFeatures | src/css/at-rules/media-query.ts:113 | a rule without features is its head alone |
| MediaQuery.OneFeature | src/css/at-rules/media-query.ts:108-115 | a rule with exactly one feature has that one condition |
| MediaQuery.TwoFeatures | src/css/at-rules/media-query.ts:94-115 | two features appear in the fixed feature order |
| MediaQuery.TwoConditions | src/css/at-rules/media-query.ts:108-110 | the condition texts of a rule with two features set are those two, in feature order |
| MediaQuery.HeadOnly | src/css/at-rules/media-query.ts:113-115 | a rule that sets no feature is its head |
| MediaQuery.NoOperatorHead | src/css/at-rules/media-query.ts:112-115 | without an operator the head is the media type |
| MediaQuery.TypeOnly | src/css/at-rules/media-query.ts:115 | a rule with only a media type is that type's name |
| MediaQuery.OperatorAndType | src/css/at-rules/media-query.ts:112-115 | an operator is written with a space before the type |
| MediaQuery.PrintExample | src/at-rules/__tests__/media-query.spec.tsx:10-14 | `{mediaType: 'print'}` gives `@media print` |
| MediaQuery.ScreenPrintExample | src/at-rules/__tests__/media-query.spec.tsx:16-20 | `screen` and `print` rules give `@media screen, print` |
| MediaQuery.TwoTypes | src/css/at-rules/media-query.ts:115-118 | two type-only rules give the two type names, comma-separated |
| MediaQuery.OnlyScreenExample | src/at-rules/__tests__/media-query.spec.tsx:22-26 | `only` comes before the type: `@media only screen` |
| MediaQuery.WidthOnly | src/css/at-rules/media-query.ts:95 | a rule with only a width is `screen and (width: w)` |
| MediaQuery.MinWidthOnly | src/css/at-rules/media-query.ts:96 | a rule with only a min-width is `screen and (min-width: w)` |
| MediaQuery.MaxWidthOnly | src/at-rules/__tests__/media-query.spec.tsx:40-44 | a rule with only a max-width is `screen and (max-width: w)` |
| MediaQuery.HeightOnly | src/css/at-rules/media-query.ts:98 | a rule with only a height is `screen and (height: h)` |
| MediaQuery.MinAndMaxWidth | src/css/at-rules/media-query.ts:96-97 | min-width is written before max-width |
| MediaQuery.MinWidthExample | src/at-rules/__tests__/media-query.spec.tsx:28-32 | `{minWidth: '1280px'}` gives `@media screen and (min-width: 1280px)` |
| MediaQuery.MinMaxWidthExample | src/at-rules/__tests__/media-query.spec.tsx:46-50 | min 640px and max 960px give both conditions, min first |
| MediaQuery.SeparateRulesExample | src/at-rules/__tests__/media-query.spec.tsx:64-68 | width and height in separate rules give two comma-separated queries |
| MediaAtRule.OrientationOf | src/css/middlewares/media-at-rule.ts:30-31 | the orientation is written back as the token |
| MediaAtRule.MediaTypeOf | src/css/middlewares/media-at-rule.ts:39-40 | the media type is written back as the token |
| MediaAtRule.ParseBreakpointToken | src/css/middlewares/media-at-rule.ts:47-54 | a breakpoint token parses to its letters and the direction as written, or `up` when there is none |
| MediaAtRule.ParseAtFirstColon | src/css/middlewares/media-at-rule.ts:48-52 | splitting at the first `:` gives the key and the direction |
| MediaAtRule.ParseWithoutColon | src/css/middlewares/media-at-rule.ts:52 | a token without `:` means `up` |
| MediaAtRule.ParseWithColon | src/css/middlewares/media-at-rule.ts:48 | `key:dir` parses to key and dir |
| MediaAtRule.RuleOf | src/css/middlewares/media-at-rule.ts:81-129 | a token adds at most one rule |
| MediaAtRule.BreakpointRules | src/css/middlewares/media-at-rule.ts:81-130 | no more rules than tokens |
| MediaAtRule.Finalize | src/css/middlewares/media-at-rule.ts:136-140 | every rule gets the same orientation and media type, and nothing else changes |
| MediaAtRule.Transform | src/css/middlewares/media-at-rule.ts:60-154 | the loop over the tokens returns exactly `MediaCss` |
| MediaAtRule.BreakpointRulesAppend | src/css/middlewares/media-at-rule.ts:81-130 | the rules of a token list are those of its parts, one after the other |
| MediaAtRule.SkippedTokens | src/css/middlewares/media-at-rule.ts:82-97 | orientation, media-type and unknown tokens add no rule |
| MediaAtRule.MissingBreakpoint | src/css/middlewares/media-at-rule.ts:101-113 | a key the theme lacks, or whose width is 0, adds no rule |
| MediaAtRule.DirectionLetters | src/css/middlewares/media-at-rule.ts:23 | `up`/`down` in any case are letters |
| MediaAtRule.LettersHaveNoColon | src/css/middlewares/media-at-rule.ts:23 | letters hold no `:` |
| MediaAtRule.KnownTokensAreLetters | src/css/middlewares/media-at-rule.ts:30-40 | orientation and media-type tokens are letters only |
| MediaAtRule.DirectionToken | src/css/middlewares/media-at-rule.ts:22-23 | `key:dir` is a breakpoint token exactly when dir is `up` or `down` in any case, and parses to key and dir |
| MediaAtRule.BareKeyMeansUp | src/css/middlewares/media-at-rule.ts:117-120 | a bare key of width w gives `min-width: <w>px` |
| MediaAtRule.DirectionRule | src/css/middlewares/media-at-rule.ts:117-129 | `up` gives min-width, `down` gives max-width, and any other case spelling gives nothing |
| MediaAtRule.UpperCaseDirectionDropped | src/css/middlewares/media-at-rule.ts:117-125 | `sm:UP` passes the token check and is then dropped |
| MediaAtRule.LastOrientationWins | src/css/middlewares/media-at-rule.ts:82-85 | the final orientation is that of the last orientation token, and none without one (both directions) |
| MediaAtRule.LastMediaTypeWins | src/css/middlewares/media-at-rule.ts:87-90 | the final media type is that of the last media-type token, and none without one (both directions) |
| MediaAtRule.NothingToDo | src/css/middlewares/media-at-rule.ts:66-74 | no parent, no tokens, no breakpoints or an empty block give nothing |
| MediaAtRule.NoRulesNoResult | src/css/middlewares/media-at-rule.ts:132-134 | tokens that add no rule give nothing |
| MediaAtRule.NoRules | src/css/middlewares/media-at-rule.ts:81-130 | when no token adds a rule, the rule list is empty |
| MediaAtRule.SingleTokenSingleDeclaration | src/css/middlewares/media-at-rule.ts:142-152 | one rule around one declaration gives `@media <query>{parent{decl}}` |
| MediaAtRule.SmallBreakpointRule | src/__mocks__/theme-mock.ts:4-10 | `sm` in the mock theme is a `min-width: 768px` rule |
| MediaAtRule.SmallBreakpointExample | src/css/middlewares/media-at-rule.ts:60-154 | `@honey-media(sm)` with the mock theme gives `@media screen and (min-width: 768px){parent{decl}}` |
| Suggest.Collect | src/css/middlewares/suggest.ts:13-23 | a declaration is collected exactly when some child is a `decl` with text property and value |
| Suggest.CollectDeclarations | src/css/middlewares/suggest.ts:8-11 | a rule whose children are not nodes has no declarations |
| Suggest.FirstMatch | src/css/middlewares/suggest.ts:60-68 | none exactly when no pattern matches; otherwise a matching pattern of the list |
| Suggest.FirstMatchIsFirst | src/css/middlewares/suggest.ts:60-68 | no earlier pattern matches |
| Suggest.Suggestion | src/css/middlewares/suggest.ts:53-69 | nothing for a node that is not a rule or has no children; a suggestion names a matching pattern |
| Suggest.FirstMatchAppend | src/css/middlewares/suggest.ts:60-68 | the first match of a concatenation is in the first part if anything there matches |
| Suggest.Apply | src/css/middlewares/suggest.ts:53-69 | the middleware returns exactly `Suggestion` |
| Suggest.FindPattern | src/css/middlewares/suggest.ts:60-68 | the loop with `break` returns the first matching pattern |
| Suggest.CollectAppend | src/css/middlewares/suggest.ts:13-23 | collecting distributes over concatenation |
| Suggest.CenterIsAlsoInline | src/css/middlewares/suggest.ts:31-51 | the center pattern implies the inline pattern |
| Suggest.CenterWins | src/css/middlewares/suggest.ts:31-51 | a centred layout is told to use `@honey-center` |
| Suggest.StackBeforeInline | src/css/middlewares/suggest.ts:39-50 | a stack that is also inline, but not centred, is told to use `@honey-stack` |
| Suggest.NoFlexNoSuggestion | src/css/middlewares/suggest.ts:35-48 | without `display: flex` nothing is suggested |
| Suggest.SuggestionIsExpander | src/css/middlewares/suggest.ts:33-46 | a suggestion names one of the three expander at-rules |
| Utils.HashString | src/utils.ts:5-13 | the hash has 1 to 7 characters of `[0-9a-z]`, has no redundant leading `0`, reads back in base 36 as the 32-bit state of the loop, and is the `toString(36)` text of that state, so equal inputs give equal hashes |
| Utils.HashTextUnique | src/utils.ts:12 | a base-36 text of at most 7 characters without a redundant leading `0` that reads back as the state is the `toString(36)` text of the state |
| Utils.HashText | src/utils.ts:12 | the base-36 text of a 32-bit state is 1 to 7 characters that read back as the state |
| Utils.EmptyHash | src/utils.ts:6 | the empty string hashes to 5381 |
| Utils.HashOfA | src/utils.ts:9 | one step: `a` takes 5381 to 177604 |
| Utils.PresentNames | src/utils.ts:16 | the names kept are exactly the non-empty given names, and there are no more of them than entries |
| Utils.PresentNamesAppend | src/utils.ts:16 | the filter keeps the given order: the names of a concatenation are those of each part, one after the other |
| Utils.MakeClassName | src/utils.ts:15-16 | the class name has no whitespace at either end |
| Utils.NoNamesEmpty | src/utils.ts:15-16 | only falsy names give `''` |
| Utils.ClassNamesRoundTrip | src/utils.ts:15-16 | names without whitespace are joined by single spaces, and splitting at whitespace gives them back |
| Helpers.Names | src/helpers.ts:27 | the names of the entries, in order |
| Helpers.DomProps | src/helpers.ts:26-32 | the props kept are exactly the input props whose name is accepted |
| Helpers.FilterNonHtmlAttrs | src/helpers.ts:26-32 | the reduce returns exactly the props the DOM accepts, in order, with their values |
| Helpers.FilterKnown | src/helpers.ts:27-31 | the reduce over any set of known names returns exactly the accepted props |
| Helpers.Assert | src/helpers.ts:3-7 | an error is thrown exactly when the condition fails, and it carries the message |
| Helpers.DomPropsAppend | src/helpers.ts:27-31 | filtering distributes over concatenation |
| Helpers.DomPropsIdempotent | src/helpers.ts:26-32 | filtering twice is filtering once |
| Helpers.NamesKept | src/helpers.ts:26-32 | every name kept is an input name that is accepted |
| Helpers.KnownNamesKept | src/constants.ts:251-256 | `className`, `onClick` and `viewBox` are passed on with their values |
| Helpers.KnownNamesKeptBy | src/helpers.ts:28 | known names are passed on with their values |
| Helpers.KnownNames | src/constants.ts:23-256 | `className`, `onClick` and `viewBox` are in the combined set |
| Helpers.AllAcceptedKept | src/helpers.ts:26-32 | a list of accepted props passes the filter whole |
| Helpers.UnknownDropped | src/helpers.ts:28 | an unknown name without a `data-`/`aria-` prefix is dropped |
| Helpers.DataAndAriaKept | src/helpers.ts:28 | every `data-*` and `aria-*` name is accepted |
| MountStyle.Without | src/mount-style.ts:80 | `Map.delete` keeps every other key and drops exactly k |
| MountStyle.Ordered | src/mount-style.ts:56 | the entries in insertion order |
| MountStyle.Insert | src/mount-style.ts:57 | insertion adds one entry |
| MountStyle.Sort | src/mount-style.ts:57 | the sort keeps the length |
| MountStyle.Csses | src/mount-style.ts:58 | the CSS of each entry, in order |
| MountStyle.ByPrioritySnoc | src/mount-style.ts:57 | one more entry extends the run of its own priority |
| MountStyle.InsertCount | src/mount-style.ts:57 | insertion adds exactly x |
| MountStyle.InsertSorted | src/mount-style.ts:57 | insertion into a sorted run keeps it sorted |
| MountStyle.SortedBelowLast | src/mount-style.ts:57 | no entry of a sorted run is above its last |
| MountStyle.InsertBounded | src/mount-style.ts:57 | insertion keeps a common upper bound on the priorities |
| MountStyle.SortedSnoc | src/mount-style.ts:57 | appending an entry no lower than every other keeps the run sorted |
| MountStyle.InsertByPriority | src/mount-style.ts:57 | x goes after every entry of its own priority |
| MountStyle.SortSorted | src/mount-style.ts:56-57 | the sort orders by ascending priority |
| MountStyle.SortPermutes | src/mount-style.ts:56-57 | the sort is a permutation |
| MountStyle.SortStable | src/mount-style.ts:56-57 | the sort is stable: each priority keeps insertion order |
| MountStyle.WithoutDistinct | src/mount-style.ts:80 | deletion keeps the keys distinct |
| MountStyle.MountWellFormed | src/mount-style.ts:95-117 | mounting keeps the registry well formed |
| MountStyle.CleanupWellFormed | src/mount-style.ts:69-84 | cleanup keeps the registry well formed: every entry left is in use |
| MountStyle.CleanupUndoesMount | src/mount-style.ts:95-117 | the cleanup a mount returns restores the registry |
| MountStyle.WithoutSnoc | src/mount-style.ts:80 | deleting the key appended last gives the keys back |
| MountStyle.StyleTextOrder | src/mount-style.ts:53-62 | the tag's text is the live entries' CSS: sorted by priority, a permutation of the entries, and stable |
| MountStyle.StyleRegistry.constructor | src/mount-style.ts:18-28 | an empty registry, no cached tag |
| MountStyle.StyleRegistry.EnsureStyleTag | src/mount-style.ts:35-48 | the tag is cached afterwards and exists in the document; one is appended only when none was cached or found |
| MountStyle.StyleRegistry.UpdateContent | src/mount-style.ts:53-62 | the tag's text becomes the style text of the registry |
| MountStyle.StyleRegistry.Mount | src/mount-style.ts:95-117 | the registry becomes `MountState`. A known name leaves the tag untouched; a new one rebuilds the text and ensures the tag, appending one only when none was cached or found |
| MountStyle.StyleRegistry.Cleanup | src/mount-style.ts:69-84 | the registry becomes `CleanupState`; the text is rebuilt exactly when the entry is deleted, and then the tag is ensured, appending one only when none was cached or found |
| Text.LowerAscii | src/css/middlewares/spacing.ts:8 | `toLowerCase()`: same length, each character lowered, no upper case left |
| Text.Join | src/utils.ts:16 | the join of none is `''`; the join of one is that part |
| Text.JoinSnoc | src/css/at-rules/media-query.ts:118 | joining one more part appends the separator and the part |
| Text.TrimStart | src/css/middlewares/factory.ts:88 | removes exactly the leading whitespace |
| Text.TrimEnd | src/css/middlewares/factory.ts:88 | removes exactly the trailing whitespace |
| Text.Trim | src/css/middlewares/factory.ts:88 | no whitespace at either end; a string without whitespace is kept |
| Text.TrimPadded | src/css/middlewares/spacing.ts:36 | whitespace around a string with non-space ends is what `trim()` removes |
| Text.SplitWs | src/css/middlewares/spacing.ts:36 | `split(/\s+/)` gives at least one piece, none holding whitespace |
| Text.Tokens | src/css/middlewares/spacing.ts:36 | `trim().split(/\s+/)` gives `['']` for a blank value, otherwise non-empty tokens |
| Text.SplitWsJoin | src/css/middlewares/spacing.ts:36 | splitting words joined by single spaces gives the words back |
| Text.SplitOn | src/css/middlewares/media-at-rule.ts:48 | `split(c)`: at least one piece, none containing c |
| Text.SplitOnJoin | src/css/css.ts:32 | splitting a join on its separator gives the parts back |
| Text.NonEmpty | src/css/middlewares/factory.ts:93 | `filter(Boolean)` keeps exactly the non-empty parts |
| Text.NonEmptyAppend | src/css/middlewares/factory.ts:93 | the filter keeps the parts' order: the kept parts of a concatenation are those of each part, one after the other |
| Text.NatToRadix | src/utils.ts:12 | `toString(radix)`: a non-empty string of radix digits |
| Text.RadixRoundTrip | src/utils.ts:12 | `toString(radix)` reads back as the number |
| Text.RadixInjective | src/utils.ts:12 | different numbers have different texts |
| Text.RadixLeadingDigit | src/utils.ts:12 | `toString(radix)` starts with `0` exactly when the number is 0 |
| Text.RadixCanonical | src/utils.ts:12 | digits without a redundant leading `0` are exactly what `toString(radix)` writes for their value |
| Text.ParseRadixPositive | src/utils.ts:12 | digits that start with a non-zero digit denote a positive number |
| Text.RadixLength | src/utils.ts:12 | a number below radix^k has at most k digits |
| Themes.SpacingBase | src/css/middlewares/spacing.ts:35 | without a theme the base is 0; otherwise it is the theme's spacing base |

## Left out

- React glue is not part of this model: the styled components, providers, hooks, `global-style`, `processor` and `processCss`. The stylis compiler and serialiser are taken as given functions.
- `generateId` is not modelled: it depends on `Math.random`.
- DOM access in `mount-style.ts` is reduced to flags: the `querySelector` lookup, `createElement`, `appendChild` and `textContent`. The registry shared on `window` across reloads is a single object.
- The `console.warn`/`console.info` calls are not modelled. This covers the unknown-token warnings of `@honey-media`, the development banner and the suggestion message. The suggestion is the result of `Suggest.Apply` instead.
- Numbers are exact decimals times an integer. JavaScript's floating-point rounding, exponent notation, non-integer theme bases and multipliers, and non-integer numeric interpolations are left out.
- The spacing base is an integer, and so are breakpoint widths and priorities. A `NaN` width is left out, and so are keys such as `constructor`, which `in` finds on any object's prototype.
- Letter case and whitespace: `toLowerCase` and the `i` flag act on ASCII letters only. `\s` is the JavaScript whitespace set.
- The current resolver's `toKebabCase` comes from an external utility package. It is modelled by the regular-expression version that `src/css.ts` and the spacing middlewares define.
- Factory.Apply: requires that the node is not one of its own children, as in any stylis tree. The model calls the transform before retyping the node; the transforms read neither the type nor the value, so the result is the same.
- Helpers.FilterNonHtmlAttrs: the props object is a list of distinct names. The entries copied into the new object keep their order.
- Utils.HashString: the input is UTF-16 code units (`charCodeAt`), and the 32-bit wrap-around of `^` is written out as `bv32` arithmetic.
- MountStyle.StyleRegistry.Mount: `priority` has no default. A caller passes 0 for the source's default.
- MountStyle.StyleRegistry.Cleanup: the cleanup closure is modelled as a method taking the class name. Calling it twice gives back two usages, as in the source.
- Style functions: a function interpolation is modelled by the interpolation it returns for the context being evaluated. A function that never returns is left out.
- The media-query examples are stated for any rule that sets exactly the fields the test sets, rather than for one literal rule.

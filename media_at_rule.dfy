/**
 * `@honey-media(<tokens>)`: a block of declarations and nested rules placed
 * under a media query built from breakpoint names of the theme
 * (`sm`, `md:down`, ...), an orientation and a media type.
 */
module MediaAtRule {
  import opened Wrappers
  import opened Text
  import opened Ast
  import opened Css
  import opened Themes
  import opened MediaQuery

  // ---------------------------------------------------------------------------
  // tokens

  /** `portrait` or `landscape`, as written (the comparison is case-sensitive). */
  predicate IsOrientationToken(t: string) {
    t == "portrait" || t == "landscape"
  }

  function OrientationOf(t: string): (o: Orientation)
    requires IsOrientationToken(t)
    ensures OrientationText(o) == t
  {
    if t == "portrait" then Portrait else Landscape
  }

  /** `all`, `print`, `screen` or `speech`, as written. */
  predicate IsMediaTypeToken(t: string) {
    t == "all" || t == "print" || t == "screen" || t == "speech"
  }

  function MediaTypeOf(t: string): (m: MediaType)
    requires IsMediaTypeToken(t)
    ensures MediaTypeText(m) == t
  {
    if t == "all" then All else if t == "print" then Print else if t == "screen" then Screen else Speech
  }

  /**
   * `/^[a-z]+\b(:up|:down)?$/i`: one or more ASCII letters of either case,
   * optionally followed by `:up` or `:down` in any case. The word boundary
   * always holds after the letters, which are followed by `:` or the end.
   */
  predicate IsBreakpointToken(t: string) {
    var i := IndexOf(t, ':');
    i >= 1 && AllLetters(t[..i])
    && (i == |t| || EqualsIgnoreCase(t[i + 1..], "up") || EqualsIgnoreCase(t[i + 1..], "down"))
  }

  /** `parseBreakpointRule`: the text before the first `:`, and the text up to a second `:` (`up` if there is no `:`). */
  function ParseBreakpointRule(raw: string): (string, string) {
    var parts := SplitOn(raw, ':');
    (parts[0], if |parts| >= 2 then parts[1] else "up")
  }

  /** On a breakpoint token, the key is the letters and the direction is what follows `:` as written, or `up`. */
  lemma ParseBreakpointToken(t: string)
    requires IsBreakpointToken(t)
    ensures var i := IndexOf(t, ':');
      ParseBreakpointRule(t) == (t[..i], if i == |t| then "up" else t[i + 1..])
  {
    var i := IndexOf(t, ':');
    if i < |t| {
      DirectionLetters(t[i + 1..]);
    }
    ParseAtFirstColon(t, i);
    assert i == |t| ==> t[..i] == t;
  }

  /** Splitting at the first `:` when nothing after it is another `:`. */
  lemma ParseAtFirstColon(t: string, i: nat)
    requires i == IndexOf(t, ':')
    requires i < |t| ==> AllLetters(t[i + 1..])
    ensures i == |t| ==> ParseBreakpointRule(t) == (t, "up")
    ensures i < |t| ==> ParseBreakpointRule(t) == (t[..i], t[i + 1..])
  {
    if i == |t| {
      assert ':' !in t by {
        forall j | 0 <= j < |t| ensures t[j] != ':' {
        }
      }
      ParseWithoutColon(t);
    } else {
      var key, d := t[..i], t[i + 1..];
      assert ':' !in key by {
        forall j | 0 <= j < |key| ensures key[j] != ':' {
          assert key[j] == t[j];
        }
      }
      SplitAround(t, i);
      ParseWithColon(key, d);
    }
  }

  lemma ParseWithoutColon(t: string)
    requires ':' !in t
    ensures ParseBreakpointRule(t) == (t, "up")
  {
    SplitOnAbsent(t, ':');
  }

  lemma ParseWithColon(key: string, d: string)
    requires ':' !in key && AllLetters(d)
    ensures ParseBreakpointRule(key + [':'] + d) == (key, d)
  {
    LettersHaveNoColon(d);
    SplitOnFirst(key, ':', d);
    SplitOnAbsent(d, ':');
  }

  // ---------------------------------------------------------------------------
  // the token scan, as specification

  /** `${px}px` */
  function Px(px: int): string {
    IntToString(px) + "px"
  }

  /**
   * The rule one token adds: none for an orientation or media-type token, for a
   * token of another shape, for a key the theme lacks or whose width is 0, and
   * for a direction other than exactly `up` or `down`; otherwise a `min-width`
   * (`up`) or `max-width` (`down`) condition at the breakpoint's width.
   */
  function RuleOf(t: string, breakpoints: map<string, int>): (r: seq<MediaRule>)
    ensures |r| <= 1
  {
    if IsOrientationToken(t) || IsMediaTypeToken(t) || !IsBreakpointToken(t) then []
    else
      var (key, direction) := ParseBreakpointRule(t);
      if key !in breakpoints || breakpoints[key] == 0 then []
      else if direction == "up" then [NoRule.(minWidth := Some(Px(breakpoints[key])))]
      else if direction == "down" then [NoRule.(maxWidth := Some(Px(breakpoints[key])))]
      else []
  }

  /** The rules the tokens add, in token order. */
  function BreakpointRules(ts: seq<string>, breakpoints: map<string, int>): (r: seq<MediaRule>)
    ensures |r| <= |ts|
  {
    if ts == [] then []
    else BreakpointRules(ts[..|ts| - 1], breakpoints) + RuleOf(ts[|ts| - 1], breakpoints)
  }

  /** The orientation of the last orientation token, if any. */
  function FinalOrientation(ts: seq<string>): Option<Orientation> {
    if ts == [] then None
    else if IsOrientationToken(ts[|ts| - 1]) then Some(OrientationOf(ts[|ts| - 1]))
    else FinalOrientation(ts[..|ts| - 1])
  }

  /** The media type of the last media-type token, if any. */
  function FinalMediaType(ts: seq<string>): Option<MediaType> {
    if ts == [] then None
    else if IsMediaTypeToken(ts[|ts| - 1]) then Some(MediaTypeOf(ts[|ts| - 1]))
    else FinalMediaType(ts[..|ts| - 1])
  }

  /** Every rule given the same orientation and media type (`{...rule, orientation, mediaType}`). */
  function Finalize(rules: seq<MediaRule>, o: Option<Orientation>, m: Option<MediaType>): (r: seq<MediaRule>)
    ensures |r| == |rules|
    ensures forall i :: 0 <= i < |r| ==> r[i] == rules[i].(orientation := o, mediaType := m)
  {
    seq(|rules|, i requires 0 <= i < |rules| => rules[i].(orientation := o, mediaType := m))
  }

  /**
   * What the transform returns. Nothing without a parent, without tokens, without
   * theme breakpoints, for an empty block, or when no token yields a rule;
   * otherwise the media query of the rules wrapping, first, the nested rules
   * after the parent's selector and, then, the declarations in a rule for the
   * parent's selector.
   */
  function MediaCss(theme: Option<Theme>, args: seq<string>, e: Element, ser: Serializer): Option<string>
    reads e`parent, e`children, e.parent, set n | n in ChildNodes(e)
  {
    if e.parent == null || args == [] || theme.None? || theme.value.breakpoints.None? then None
    else
      var ns := ChildNodes(e);
      var decls, others := DeclsOf(ns), OthersOf(ns);
      if decls == [] && others == [] then None
      else
        var rules := BreakpointRules(args, theme.value.breakpoints.value);
        if rules == [] then None
        else
          var nested := if others != [] then e.parent.value + ser.serialize(others) else "";
          var declarations := if decls != [] then CreateCssRule(e.parent.value, ser.serialize(decls)) else "";
          var query := MediaQuery.MediaQuery(Finalize(rules, FinalOrientation(args), FinalMediaType(args)));
          Some(CreateCssRule(query, nested + declarations))
  }

  // ---------------------------------------------------------------------------
  // the transform

  /** The transform of `createMediaAtRuleMiddleware`, scanning the tokens once. */
  method Transform(theme: Option<Theme>, args: seq<string>, e: Element, ser: Serializer) returns (r: Option<string>)
    ensures r == MediaCss(theme, args, e, ser)
  {
    if e.parent == null || args == [] || theme.None? || theme.value.breakpoints.None? {
      return None;
    }
    var breakpoints := theme.value.breakpoints.value;
    var decls, others := SplitStylisChildren(e.children);
    if decls == [] && others == [] {
      return None;
    }
    var rules: seq<MediaRule> := [];
    var orientation: Option<Orientation> := None;
    var mediaType: Option<MediaType> := None;
    for i := 0 to |args|
      invariant rules == BreakpointRules(args[..i], breakpoints)
      invariant orientation == FinalOrientation(args[..i])
      invariant mediaType == FinalMediaType(args[..i])
    {
      var token := args[i];
      assert args[..i + 1][..i] == args[..i] && args[..i + 1][i] == token;
      if IsOrientationToken(token) {
        orientation := Some(OrientationOf(token));
        continue;
      }
      if IsMediaTypeToken(token) {
        mediaType := Some(MediaTypeOf(token));
        continue;
      }
      if !IsBreakpointToken(token) {
        continue;
      }
      var (key, direction) := ParseBreakpointRule(token);
      if key !in breakpoints || breakpoints[key] == 0 {
        continue;
      }
      if direction == "up" {
        rules := rules + [NoRule.(minWidth := Some(Px(breakpoints[key])))];
      } else if direction == "down" {
        rules := rules + [NoRule.(maxWidth := Some(Px(breakpoints[key])))];
      }
    }
    assert args[..|args|] == args;
    if rules == [] {
      return None;
    }
    var finalRules := Finalize(rules, orientation, mediaType);
    var nested := if others != [] then e.parent.value + ser.serialize(others) else "";
    var declarations := if decls != [] then CreateCssRule(e.parent.value, ser.serialize(decls)) else "";
    r := Some(CreateCssRule(MediaQuery.MediaQuery(finalRules), nested + declarations));
  }

  // ---------------------------------------------------------------------------
  // properties

  /** The rules of a token list are those of its parts, one after the other: each token adds its own rule or none. */
  lemma {:induction false} BreakpointRulesAppend(a: seq<string>, b: seq<string>, breakpoints: map<string, int>)
    ensures BreakpointRules(a + b, breakpoints) == BreakpointRules(a, breakpoints) + BreakpointRules(b, breakpoints)
    decreases |b|
  {
    if b == [] {
      assert a + b == a;
    } else {
      var ab, b', t := a + b, b[..|b| - 1], b[|b| - 1];
      assert ab[..|ab| - 1] == a + b' && ab[|ab| - 1] == t;
      BreakpointRulesAppend(a, b', breakpoints);
      var ra, rb', rt := BreakpointRules(a, breakpoints), BreakpointRules(b', breakpoints), RuleOf(t, breakpoints);
      calc {
        BreakpointRules(ab, breakpoints);
        BreakpointRules(a + b', breakpoints) + rt;
        (ra + rb') + rt;
        { assert (ra + rb') + rt == ra + (rb' + rt); }
        ra + (rb' + rt);
        ra + BreakpointRules(b, breakpoints);
      }
    }
  }

  /** Orientation tokens, media-type tokens and tokens of no known shape add no rule; the scan goes on past them. */
  lemma SkippedTokens(t: string, breakpoints: map<string, int>)
    requires IsOrientationToken(t) || IsMediaTypeToken(t) || !IsBreakpointToken(t)
    ensures RuleOf(t, breakpoints) == []
  {
  }

  /** A breakpoint the theme lacks, or whose width is 0, adds no rule. */
  lemma MissingBreakpoint(t: string, breakpoints: map<string, int>)
    requires IsBreakpointToken(t)
    requires ParseBreakpointRule(t).0 !in breakpoints || breakpoints[ParseBreakpointRule(t).0] == 0
    ensures RuleOf(t, breakpoints) == []
  {
  }

  /** `up` and `down` in any case are letters. */
  lemma DirectionLetters(d: string)
    requires EqualsIgnoreCase(d, "up") || EqualsIgnoreCase(d, "down")
    ensures AllLetters(d)
  {
    forall j | 0 <= j < |d| ensures IsLetterAscii(d[j]) {
      assert IsLowerAscii(LowerChar(d[j]));
    }
  }

  lemma LettersHaveNoColon(s: string)
    requires AllLetters(s)
    ensures ':' !in s
  {
    forall j | 0 <= j < |s| ensures s[j] != ':' {
      assert IsLetterAscii(s[j]);
    }
  }

  /** Orientation and media-type tokens are letters only. */
  lemma KnownTokensAreLetters(t: string)
    ensures IsOrientationToken(t) || IsMediaTypeToken(t) ==> AllLetters(t)
  {
  }

  /** `key:dir` for a key of letters is a breakpoint token exactly when dir is `up` or `down` in any case, and parses to key and dir. */
  lemma DirectionToken(key: string, dir: string)
    requires key != [] && AllLetters(key) && ':' !in dir
    ensures var t := key + ":" + dir;
      && !IsOrientationToken(t) && !IsMediaTypeToken(t)
      && ParseBreakpointRule(t) == (key, dir)
      && (IsBreakpointToken(t) <==> EqualsIgnoreCase(dir, "up") || EqualsIgnoreCase(dir, "down"))
  {
    var t := key + ":" + dir;
    LettersHaveNoColon(key);
    assert t[|key|] == ':';
    assert t[..|key|] == key && t[|key| + 1..] == dir;
    assert IndexOf(t, ':') == |key|;
    assert !AllLetters(t) by {
      assert !IsLetterAscii(t[|key|]);
    }
    KnownTokensAreLetters(t);
    assert t == key + [':'] + dir;
    SplitOnFirst(key, ':', dir);
    SplitOnAbsent(dir, ':');
  }

  /** A bare key of the theme with a non-zero width w means `up`: the single condition `min-width: <w>px`. */
  lemma BareKeyMeansUp(key: string, breakpoints: map<string, int>)
    requires key != [] && AllLetters(key) && key in breakpoints && breakpoints[key] != 0
    requires !IsOrientationToken(key) && !IsMediaTypeToken(key)
    ensures RuleOf(key, breakpoints) == [NoRule.(minWidth := Some(Px(breakpoints[key])))]
  {
    LettersHaveNoColon(key);
    assert IndexOf(key, ':') == |key|;
    assert key[..|key|] == key;
    ParseBreakpointToken(key);
  }

  /**
   * `key:dir` with a key of the theme of non-zero width w gives `min-width: <w>px`
   * for `up`, `max-width: <w>px` for `down`, and nothing for any other spelling,
   * so `sm:UP` passes the token check and is then dropped.
   */
  lemma DirectionRule(key: string, dir: string, breakpoints: map<string, int>)
    requires key != [] && AllLetters(key) && key in breakpoints && breakpoints[key] != 0
    requires EqualsIgnoreCase(dir, "up") || EqualsIgnoreCase(dir, "down")
    ensures dir == "up" ==> RuleOf(key + ":" + dir, breakpoints) == [NoRule.(minWidth := Some(Px(breakpoints[key])))]
    ensures dir == "down" ==> RuleOf(key + ":" + dir, breakpoints) == [NoRule.(maxWidth := Some(Px(breakpoints[key])))]
    ensures dir != "up" && dir != "down" ==> RuleOf(key + ":" + dir, breakpoints) == []
  {
    DirectionLetters(dir);
    LettersHaveNoColon(dir);
    DirectionToken(key, dir);
  }

  /** `sm:UP` is dropped. */
  lemma UpperCaseDirectionDropped(key: string, breakpoints: map<string, int>)
    requires key != [] && AllLetters(key) && key in breakpoints && breakpoints[key] != 0
    ensures RuleOf(key + ":" + "UP", breakpoints) == []
  {
    assert EqualsIgnoreCase("UP", "up");
    DirectionRule(key, "UP", breakpoints);
  }

  /** Token i is an orientation token and no later token is one. */
  predicate IsLastOrientation(ts: seq<string>, i: int) {
    0 <= i < |ts| && IsOrientationToken(ts[i]) && forall j :: i < j < |ts| ==> !IsOrientationToken(ts[j])
  }

  /** Token i is a media-type token and no later token is one. */
  predicate IsLastMediaType(ts: seq<string>, i: int) {
    0 <= i < |ts| && IsMediaTypeToken(ts[i]) && forall j :: i < j < |ts| ==> !IsMediaTypeToken(ts[j])
  }

  /** The last orientation token wins: the final orientation is that of the last orientation token, and none without one. */
  lemma {:induction false} LastOrientationWins(ts: seq<string>)
    ensures FinalOrientation(ts).None? <==> forall i :: 0 <= i < |ts| ==> !IsOrientationToken(ts[i])
    ensures FinalOrientation(ts).Some? ==>
      exists i :: IsLastOrientation(ts, i) && FinalOrientation(ts) == Some(OrientationOf(ts[i]))
  {
    if ts != [] {
      var init, n := ts[..|ts| - 1], |ts| - 1;
      LastOrientationWins(init);
      if IsOrientationToken(ts[n]) {
        assert IsLastOrientation(ts, n);
      } else {
        if FinalOrientation(init).Some? {
          var i :| IsLastOrientation(init, i) && FinalOrientation(init) == Some(OrientationOf(init[i]));
          assert ts[i] == init[i];
          forall j | i < j < |ts| ensures !IsOrientationToken(ts[j]) {
            if j < n {
              assert ts[j] == init[j];
            }
          }
          assert IsLastOrientation(ts, i);
        } else {
          forall i | 0 <= i < |ts| ensures !IsOrientationToken(ts[i]) {
            if i < n {
              assert ts[i] == init[i];
            }
          }
        }
      }
    }
  }

  /** The last media-type token wins likewise. */
  lemma {:induction false} LastMediaTypeWins(ts: seq<string>)
    ensures FinalMediaType(ts).None? <==> forall i :: 0 <= i < |ts| ==> !IsMediaTypeToken(ts[i])
    ensures FinalMediaType(ts).Some? ==>
      exists i :: IsLastMediaType(ts, i) && FinalMediaType(ts) == Some(MediaTypeOf(ts[i]))
  {
    if ts != [] {
      var init, n := ts[..|ts| - 1], |ts| - 1;
      LastMediaTypeWins(init);
      if IsMediaTypeToken(ts[n]) {
        assert IsLastMediaType(ts, n);
      } else {
        if FinalMediaType(init).Some? {
          var i :| IsLastMediaType(init, i) && FinalMediaType(init) == Some(MediaTypeOf(init[i]));
          assert ts[i] == init[i];
          forall j | i < j < |ts| ensures !IsMediaTypeToken(ts[j]) {
            if j < n {
              assert ts[j] == init[j];
            }
          }
          assert IsLastMediaType(ts, i);
        } else {
          forall i | 0 <= i < |ts| ensures !IsMediaTypeToken(ts[i]) {
            if i < n {
              assert ts[i] == init[i];
            }
          }
        }
      }
    }
  }

  /** With no parent, no tokens, no theme breakpoints or an empty block the transform returns nothing. */
  lemma NothingToDo(theme: Option<Theme>, args: seq<string>, e: Element, ser: Serializer)
    requires e.parent == null || args == [] || theme.None? || theme.value.breakpoints.None?
          || ChildNodes(e) == []
    ensures MediaCss(theme, args, e, ser) == None
  {
  }

  /** Tokens that add no rule, such as only an orientation and a media type, give no result either. */
  lemma NoRulesNoResult(theme: Option<Theme>, args: seq<string>, e: Element, ser: Serializer)
    requires theme.Some? && theme.value.breakpoints.Some?
    requires forall i :: 0 <= i < |args| ==> RuleOf(args[i], theme.value.breakpoints.value) == []
    ensures MediaCss(theme, args, e, ser) == None
  {
    NoRules(args, theme.value.breakpoints.value);
  }

  lemma {:induction false} NoRules(ts: seq<string>, breakpoints: map<string, int>)
    requires forall i :: 0 <= i < |ts| ==> RuleOf(ts[i], breakpoints) == []
    ensures BreakpointRules(ts, breakpoints) == []
  {
    if ts != [] {
      NoRules(ts[..|ts| - 1], breakpoints);
    }
  }

  /**
   * One token that yields a rule, around a block of one declaration: the media
   * query of that rule wrapping a rule for the parent's selector.
   */
  lemma SingleTokenSingleDeclaration(theme: Theme, t: string, rule: MediaRule, e: Element, d: Element, ser: Serializer)
    requires theme.breakpoints.Some? && RuleOf(t, theme.breakpoints.value) == [rule]
    requires rule.orientation == None && rule.mediaType == None
    requires e.parent != null && e.children == Nodes([d]) && d.kind == "decl"
    ensures MediaCss(Some(theme), [t], e, ser)
         == Some("@media " + Query(rule) + "{" + (e.parent.value + "{" + ser.serialize([d]) + "}") + "}")
  {
    assert [t][..0] == [] && [d][..0] == [];
    assert BreakpointRules([t], theme.breakpoints.value) == [rule];
    assert !IsOrientationToken(t) && !IsMediaTypeToken(t);
    assert FinalOrientation([t]) == FinalOrientation([]) == None;
    assert FinalMediaType([t]) == FinalMediaType([]) == None;
    assert Finalize([rule], None, None) == [rule];
    assert ChildNodes(e) == [d];
    assert DeclsOf([d]) == [d] && OthersOf([d]) == [];
    var declarations := CreateCssRule(e.parent.value, ser.serialize([d]));
    assert MediaCss(Some(theme), [t], e, ser) == Some(CreateCssRule(MediaQuery.MediaQuery([rule]), "" + declarations));
    assert "" + declarations == declarations;
    SingleRule(rule);
    assert CreateCssRule(MediaQuery.MediaQuery([rule]), declarations) == MediaQuery.MediaQuery([rule]) + "{" + declarations + "}";
  }

  /** `sm` in the example theme is 768 pixels wide. */
  lemma SmallBreakpointRule()
    ensures RuleOf("sm", ExampleTheme.breakpoints.value) == [NoRule.(minWidth := Some("768px"))]
  {
    var bps := ExampleTheme.breakpoints.value;
    assert Px(768) == "768px" by {
      assert NatToRadix(768, 10) == NatToRadix(7, 10) + [DigitChar(6)] + [DigitChar(8)];
    }
    assert AllLetters("sm") && "sm" in bps && bps["sm"] == 768;
    BareKeyMeansUp("sm", bps);
  }

  /**
   * With the example theme, `@honey-media(sm)` around one declaration gives
   * `@media screen and (min-width: 768px){<parent>{<declaration>}}`.
   */
  lemma SmallBreakpointExample(e: Element, d: Element, ser: Serializer)
    requires e.parent != null && e.children == Nodes([d]) && d.kind == "decl"
    ensures MediaCss(Some(ExampleTheme), ["sm"], e, ser)
         == Some("@media " + ("screen" + " and " + "(min-width: " + "768px" + ")")
                 + "{" + (e.parent.value + "{" + ser.serialize([d]) + "}") + "}")
  {
    SmallBreakpointRule();
    SingleTokenSingleDeclaration(ExampleTheme, "sm", NoRule.(minWidth := Some("768px")), e, d, ser);
    MinWidthOnly(NoRule.(minWidth := Some("768px")));
  }
}

/**
 * `createSpacingMiddleware`: rewrites the value of a spacing declaration
 * (`margin`, `padding-top`, `gap`, ...) so that every bare number in it is
 * multiplied by the theme's spacing base and given the `px` unit.
 */
module Spacing {
  import opened Wrappers
  import opened Text
  import opened Kebab
  import opened Ast
  import opened Themes
  import opened Numbers

  /** `CSS_SPACING_PROPERTIES`, in camel case. */
  const SpacingProperties: seq<string> := [
    "margin", "marginTop", "marginRight", "marginBottom", "marginLeft",
    "padding", "paddingTop", "paddingRight", "paddingBottom", "paddingLeft",
    "paddingBlock", "paddingBlockStart", "paddingBlockEnd",
    "top", "right", "bottom", "left", "inset", "gap", "rowGap", "columnGap"
  ]

  /** `KEBAB_CASE_SPACING_PROPERTIES`: the property names as they appear in compiled declarations. */
  function KebabSpacingProperties(): (r: seq<string>)
    ensures |r| == |SpacingProperties|
    ensures forall i :: 0 <= i < |r| ==> r[i] == KebabCase(SpacingProperties[i])
  {
    seq(|SpacingProperties|, i requires 0 <= i < |SpacingProperties| => KebabCase(SpacingProperties[i]))
  }

  /** A token of the value after scaling: a bare number is multiplied by the base and written in pixels. */
  function ScaleToken(t: string, base: int): (r: string)
    ensures !IsSignedNumber(t) ==> r == t
  {
    if IsSignedNumber(t) then ScaledPx(t, base) else t
  }

  /** The tokens of a value after scaling, one for one. */
  function ScaleTokens(parts: seq<string>, base: int): (r: seq<string>)
    ensures |r| == |parts|
    ensures forall i :: 0 <= i < |parts| ==> r[i] == ScaleToken(parts[i], base)
  {
    if parts == [] then [] else [ScaleToken(parts[0], base)] + ScaleTokens(parts[1..], base)
  }

  /** Scaling one more token appends its scaled form. */
  lemma ScaleTokensSnoc(parts: seq<string>, t: string, base: int)
    ensures ScaleTokens(parts + [t], base) == ScaleTokens(parts, base) + [ScaleToken(t, base)]
  {
    var l, r := ScaleTokens(parts + [t], base), ScaleTokens(parts, base) + [ScaleToken(t, base)];
    forall i | 0 <= i < |l| ensures l[i] == r[i] {
      assert (parts + [t])[i] == if i < |parts| then parts[i] else t;
    }
  }

  /** The scaled tokens of one more token of a list. */
  lemma ScaleTokensPrefix(parts: seq<string>, i: nat, base: int)
    requires i < |parts|
    ensures ScaleTokens(parts[..i + 1], base) == ScaleTokens(parts[..i], base) + [ScaleToken(parts[i], base)]
  {
    assert parts[..i + 1] == parts[..i] + [parts[i]];
    ScaleTokensSnoc(parts[..i], parts[i], base);
  }

  /** The declaration's value holds a `(` or a `)`, as in `calc(...)` or `var(...)`. */
  predicate HasParentheses(v: string) {
    '(' in v || ')' in v
  }

  /** The middleware rewrites the node: a declaration of a spacing property whose value has no parentheses. */
  predicate Rewrites(e: Element)
    reads e
  {
    && e.kind == "decl"
    && e.props.PropText? && e.props.text in KebabSpacingProperties()
    && e.children.Text? && !HasParentheses(e.children.text)
  }

  /** The text the middleware gives a rewritten declaration: `<prop>:<scaled tokens joined by spaces>;`. */
  function SpacedDeclaration(prop: string, value: string, base: int): string {
    prop + ":" + Join(ScaleTokens(Tokens(value), base), " ") + ";"
  }

  /**
   * The middleware applied to one node: a declaration it rewrites gets the
   * scaled declaration as its output, with the theme's spacing base (0
   * without a theme); any other node is left as it is.
   */
  method Apply(theme: Option<Theme>, e: Element)
    modifies e`output
    ensures !old(Rewrites(e)) ==> e.output == old(e.output)
    ensures old(Rewrites(e)) ==> e.output == SpacedDeclaration(e.props.text, e.children.text, SpacingBase(theme))
  {
    // The source checks the node type, the property, the value's type and
    // the parentheses one after another; each check returns on failure.
    if !Rewrites(e) {
      return;
    }
    var prop, value := e.props.text, e.children.text;
    var transformed := ScaleAll(Tokens(value), SpacingBase(theme));
    e.output := prop + ":" + Join(transformed, " ") + ";";
  }

  /** The loop over the value's tokens: every bare number is scaled by the spacing base, the rest kept, in order. */
  method ScaleAll(parts: seq<string>, spacing: int) returns (transformed: seq<string>)
    ensures transformed == ScaleTokens(parts, spacing)
  {
    transformed := [];
    for i := 0 to |parts|
      invariant transformed == ScaleTokens(parts[..i], spacing)
    {
      ScaleTokensPrefix(parts, i, spacing);
      transformed := transformed + [ScaleToken(parts[i], spacing)];
    }
    assert parts[..|parts|] == parts;
  }

  // ---------------------------------------------------------------------------
  // properties

  /** A token of the number pattern ends in a digit. */
  lemma NumberEndsInDigit(t: string)
    requires IsSignedNumber(t)
    ensures t != [] && IsDigit(t[|t| - 1])
  {
    var u := if IsUnsignedNumber(t) then t else t[1..];
    if !(u != [] && AllDigits(u)) {
      var i :| 0 <= i < |u| && PointAt(u, i);
      assert u[|u| - 1] == u[i + 1..][|u| - i - 2];
    }
    assert u[|u| - 1] == t[|t| - 1];
  }

  /** A scaled token ends in `px`, so it is no longer a bare number. */
  lemma ScaledIsNotNumber(t: string, base: int)
    requires IsSignedNumber(t)
    ensures !IsSignedNumber(ScaledPx(t, base))
  {
    var r := ScaledPx(t, base);
    assert r[|r| - 1] == 'x';
    if IsSignedNumber(r) {
      NumberEndsInDigit(r);
    }
  }

  /** Scaling a scaled token changes nothing. */
  lemma ScaleTokenIdempotent(t: string, base: int)
    ensures ScaleToken(ScaleToken(t, base), base) == ScaleToken(t, base)
  {
    if IsSignedNumber(t) {
      ScaledIsNotNumber(t, base);
    }
  }

  /** Scaling the scaled tokens again changes nothing: the rewritten value holds no bare number. */
  lemma ScaleTokensIdempotent(parts: seq<string>, base: int)
    ensures ScaleTokens(ScaleTokens(parts, base), base) == ScaleTokens(parts, base)
  {
    forall i | 0 <= i < |parts| ensures ScaleToken(ScaleToken(parts[i], base), base) == ScaleToken(parts[i], base) {
      ScaleTokenIdempotent(parts[i], base);
    }
  }

  /** Tokens that are not bare numbers, such as `auto` or `12px`, are kept as they are. */
  lemma NoNumbersKept(parts: seq<string>, base: int)
    requires forall i :: 0 <= i < |parts| ==> !IsSignedNumber(parts[i])
    ensures ScaleTokens(parts, base) == parts
  {
  }

  /** Words joined by single spaces are the value's tokens: each is scaled in place. */
  lemma {:induction false} TokensOfWords(words: seq<string>)
    requires |words| >= 1 && forall i :: 0 <= i < |words| ==> words[i] != "" && NoSpace(words[i])
    ensures Tokens(Join(words, " ")) == words
  {
    JoinedWordsTrimmed(words);
    SplitWsJoin(words);
  }

  /** The declaration written for a value of space-separated words keeps the words in order, scaling the numbers. */
  lemma SpacedWords(prop: string, words: seq<string>, base: int)
    requires |words| >= 1 && forall i :: 0 <= i < |words| ==> words[i] != "" && NoSpace(words[i])
    ensures SpacedDeclaration(prop, Join(words, " "), base) == prop + ":" + Join(ScaleTokens(words, base), " ") + ";"
  {
    TokensOfWords(words);
  }

  /** `margin: 2 auto` with base 8 becomes `margin:16px auto;`. */
  lemma MarginExample()
    ensures SpacedDeclaration("margin", Join(["2", "auto"], " "), 8) == "margin" + ":" + Join(["16px", "auto"], " ") + ";"
  {
    var words := ["2", "auto"];
    assert NoSpace("2") && NoSpace("auto");
    SpacedWords("margin", words, 8);
    TwoTimesEight();
    AutoIsNotANumber();
    assert ScaleTokens(words, 8) == ["16px", "auto"];
  }

  /** `2` with base 8 is scaled to `16px`. */
  lemma TwoTimesEight()
    ensures ScaleToken("2", 8) == "16px"
  {
    assert NatToString(2) == "2";
    ParseNatToString(2);
    ScaleInteger(2, 8);
    assert IntToString(16) == "16" by {
      assert NatToRadix(16, 10) == NatToRadix(1, 10) + [DigitChar(6)];
    }
  }

  /** `auto` is not a bare number. */
  lemma AutoIsNotANumber()
    ensures !IsSignedNumber("auto")
  {
    assert !IsDigit("auto"[0]) && "auto"[0] != '-';
    forall i | 0 <= i < 4 ensures !PointAt("auto", i) {
      assert "auto"[i] != '.';
    }
  }

  /** `marginTop` is matched in its kebab-case form `margin-top`. */
  lemma MarginTopIsSpacing()
    ensures "margin" + "-" + "top" in KebabSpacingProperties()
  {
    var p, w := "margin", "Top";
    assert KebabCase(p + w) == p + "-" + "top" by {
      assert forall i :: 1 <= i < |w| ==> IsLowerAscii(w[i]);
      KebabCaseAppendWord(p, w);
      assert KebabCase(p) == p by {
        HyphenateNoUpper(p);
        LowerAsciiIdempotent(p);
      }
      LowerCapitalised(w);
      assert LowerChar('T') == 't';
      assert [LowerChar(w[0])] + w[1..] == "top";
    }
    assert SpacingProperties[1] == p + w;
    assert KebabSpacingProperties()[1] == KebabCase(p + w);
  }
}

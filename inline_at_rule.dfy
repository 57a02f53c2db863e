/**
 * `@honey-inline`: a centred flex row, with a `gap` when an argument is given.
 */
module InlineAtRule {
  import opened Wrappers
  import opened Text
  import opened Ast
  import opened Css
  import opened Themes
  import opened Numbers

  /** The declarations every inline row starts with. */
  const FlexRow := "display:flex;" + "align-items:center;"

  /** The declarations the at-rule expands to, joined: centred flex row, then the optional gap. */
  function Declarations(base: int, args: seq<string>): (r: string)
    ensures args == [] ==> r == FlexRow
    ensures args != [] ==> r == FlexRow + "gap:" + Gap(args, base) + ";"
  {
    FlexRow + (if args != [] then "gap:" + Gap(args, base) + ";" else "")
  }

  /**
   * The transform: no result without a parent; otherwise the parent's selector
   * wrapping the declarations followed by the children's CSS. The spacing base
   * is the theme's, or 0 when the middleware was created without one.
   */
  function Transform(theme: Option<Theme>, args: seq<string>, e: Element, ser: Serializer): (r: Option<string>)
    reads e`parent, e`children, e.parent
    ensures e.parent == null ==> r == None
    ensures e.parent != null ==>
      r == Some(e.parent.value + "{" + Declarations(SpacingBase(theme), args) + ChildrenCss(e, ser) + "}")
  {
    if e.parent == null then None
    else
      var d, c := Declarations(SpacingBase(theme), args), ChildrenCss(e, ser);
      assert CreateCssRule(e.parent.value, d + c) == e.parent.value + "{" + d + c + "}";
      Some(CreateCssRule(e.parent.value, d + c))
  }

  /** An integer argument n adds n times the base in pixels; the arguments after it play no part. */
  lemma IntegerGap(n: nat, rest: seq<string>, base: int)
    ensures Declarations(base, [NatToString(n)] + rest) == FlexRow + "gap:" + IntToString(n * base) + "px" + ";"
  {
    GapOfInteger(n, rest, base);
  }

  /** With the example theme's base 8, `(3)` gives `gap:24px`. */
  lemma ExampleGap()
    ensures Declarations(8, ["3"]) == FlexRow + "gap:" + "24px" + ";"
  {
    assert NatToString(3) == "3";
    IntegerGap(3, [], 8);
    assert [NatToString(3)] + [] == ["3"];
    assert IntToString(24) == "24" by {
      assert NatToRadix(24, 10) == NatToRadix(2, 10) + [DigitChar(4)];
    }
  }

  /** Created without a theme, the middleware scales every numeric gap to `0px`. */
  lemma NoThemeGap(n: nat, rest: seq<string>)
    ensures Declarations(SpacingBase(None), [NatToString(n)] + rest) == FlexRow + "gap:" + "0" + "px" + ";"
  {
    IntegerGap(n, rest, 0);
    assert IntToString(0) == "0";
  }
}

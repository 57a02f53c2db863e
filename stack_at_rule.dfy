/**
 * `@honey-stack`: a flex column, with a `gap` when an argument is given.
 */
module StackAtRule {
  import opened Wrappers
  import opened Text
  import opened Ast
  import opened Css
  import opened Themes
  import opened Numbers

  /** The declarations every stack starts with. */
  const FlexColumn := "display:flex;" + "flex-direction:column;"

  /** The declarations the at-rule expands to, joined: flex column, then the optional gap. */
  function Declarations(base: int, args: seq<string>): (r: string)
    ensures args == [] ==> r == FlexColumn
    ensures args != [] ==> r == FlexColumn + "gap:" + Gap(args, base) + ";"
  {
    FlexColumn + (if args != [] then "gap:" + Gap(args, base) + ";" else "")
  }

  /**
   * The transform: no result without a parent; otherwise the parent's selector
   * wrapping the declarations followed by the children's CSS. The spacing base
   * is the theme's, or 0 without a theme.
   */
  function Transform(theme: Option<Theme>, args: seq<string>, e: Element, ser: Serializer): (r: Option<string>)
    reads e`parent, e`children, e.parent
    ensures e.parent == null ==> r == None
    ensures e.parent != null ==>
      r == Some(e.parent.value + "{" + Declarations(SpacingBase(theme), args) + ChildrenCss(e, ser) + "}")
  {
    if e.parent == null then None
    else
      var d, c := Declarations(SpacingBase(theme), args), ChildrenCss(e, ser);
      assert CreateCssRule(e.parent.value, d + c) == e.parent.value + "{" + d + c + "}";
      Some(CreateCssRule(e.parent.value, d + c))
  }

  /** `(2)` with base 8 adds `gap:16px;`; an integer argument n adds n times the base in pixels. */
  lemma IntegerGap(n: nat, rest: seq<string>, base: int)
    ensures Declarations(base, [NatToString(n)] + rest)
         == FlexColumn + "gap:" + IntToString(n * base) + "px" + ";"
  {
    GapOfInteger(n, rest, base);
  }

  /** With the example theme's base 8, `(2)` gives `gap:16px`. */
  lemma ExampleIntegerGap()
    ensures Declarations(8, ["2"]) == FlexColumn + "gap:" + "16px" + ";"
  {
    assert NatToString(2) == "2";
    IntegerGap(2, [], 8);
    assert [NatToString(2)] + [] == ["2"];
    assert IntToString(16) == "16" by {
      assert NatToRadix(16, 10) == NatToRadix(1, 10) + [DigitChar(6)];
    }
  }

  /** `(12px)` is not an integer, so it is used as given: `gap:12px`. */
  lemma ExamplePixelGap()
    ensures Declarations(8, ["12px"]) == FlexColumn + "gap:" + "12px" + ";"
  {
    TwelvePxIsNotANumber();
  }
}

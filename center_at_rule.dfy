/**
 * `@honey-center`: centring declarations chosen by the first argument.
 */
module CenterAtRule {
  import opened Wrappers
  import opened Text
  import opened Ast
  import opened Css

  const DisplayFlex := "display:flex;"
  const AlignCenter := "align-items:center;"
  const JustifyCenter := "justify-content:center;"

  /** The first arguments the switch knows. */
  predicate IsMode(a: string) {
    a == "horizontal" || a == "x" || a == "vertical" || a == "y" || a == "block" || a == "inline"
  }

  /**
   * The declarations for the first argument: horizontal/x centre along the main
   * axis, vertical/y across it, block centres text, inline makes an inline flex
   * box centred both ways, and anything else (or no argument) a flex box centred
   * both ways.
   */
  function Declarations(args: seq<string>): (r: string)
    ensures args != [] && (args[0] == "horizontal" || args[0] == "x") ==> r == DisplayFlex + JustifyCenter
    ensures args != [] && (args[0] == "vertical" || args[0] == "y") ==> r == DisplayFlex + AlignCenter
    ensures args != [] && args[0] == "block" ==> r == "display:block;" + "text-align:center;"
    ensures args != [] && args[0] == "inline" ==> r == "display:inline-flex;" + AlignCenter + JustifyCenter
    ensures args == [] || !IsMode(args[0]) ==> r == DisplayFlex + AlignCenter + JustifyCenter
  {
    var mode := if args == [] then "" else args[0];
    if mode == "horizontal" || mode == "x" then DisplayFlex + JustifyCenter
    else if mode == "vertical" || mode == "y" then DisplayFlex + AlignCenter
    else if mode == "block" then "display:block;" + "text-align:center;"
    else if mode == "inline" then "display:inline-flex;" + AlignCenter + JustifyCenter
    else DisplayFlex + AlignCenter + JustifyCenter
  }

  /** The transform: no result without a parent; otherwise `parent{declarations children}`. */
  function Transform(args: seq<string>, e: Element, ser: Serializer): (r: Option<string>)
    reads e`parent, e`children, e.parent
    ensures e.parent == null ==> r == None
    ensures e.parent != null ==> r == Some(e.parent.value + "{" + Declarations(args) + ChildrenCss(e, ser) + "}")
  {
    if e.parent == null then None
    else
      var d, c := Declarations(args), ChildrenCss(e, ser);
      assert CreateCssRule(e.parent.value, d + c) == e.parent.value + "{" + d + c + "}";
      Some(CreateCssRule(e.parent.value, d + c))
  }

  /** Only the first argument is consulted. */
  lemma OnlyFirstArgument(args: seq<string>, more: seq<string>)
    requires args != []
    ensures Declarations(args + more) == Declarations(args)
  {
    assert (args + more)[0] == args[0];
  }

  /** No argument and an unknown argument both centre a flex box both ways. */
  lemma DefaultMode(a: string)
    requires !IsMode(a)
    ensures Declarations([]) == Declarations([a]) == DisplayFlex + AlignCenter + JustifyCenter
  {
  }
}

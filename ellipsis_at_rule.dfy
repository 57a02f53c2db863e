/**
 * `@honey-ellipsis`: single-line text truncated with an ellipsis.
 */
module EllipsisAtRule {
  import opened Wrappers
  import opened Ast
  import opened Css

  /** The three declarations, in this order. */
  const Declarations := "white-space:nowrap;" + "overflow:hidden;" + "text-overflow:ellipsis;"

  /** The transform: no result without a parent; otherwise `parent{declarations children}`; the arguments are ignored. */
  function Transform(args: seq<string>, e: Element, ser: Serializer): (r: Option<string>)
    reads e`parent, e`children, e.parent
    ensures e.parent == null ==> r == None
    ensures e.parent != null ==> r == Some(e.parent.value + "{" + Declarations + ChildrenCss(e, ser) + "}")
  {
    if e.parent == null then None
    else
      var c := ChildrenCss(e, ser);
      assert CreateCssRule(e.parent.value, Declarations + c) == e.parent.value + "{" + Declarations + c + "}";
      Some(CreateCssRule(e.parent.value, Declarations + c))
  }
}

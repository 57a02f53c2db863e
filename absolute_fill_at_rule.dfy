/**
 * `@honey-absolute-fill`: an absolutely positioned box filling its container.
 */
module AbsoluteFillAtRule {
  import opened Wrappers
  import opened Ast

  const Declarations := "position:absolute;" + "inset:0;"

  /**
   * The transform: always the two declarations, bare. Unlike the other at-rules
   * it neither wraps them in the parent's selector nor serialises the children,
   * and its result never depends on the node or the arguments.
   */
  function Transform(args: seq<string>, e: Element, ser: Serializer): (r: Option<string>)
    ensures r == Some(Declarations) && r.value != ""
  {
    Some(Declarations)
  }
}

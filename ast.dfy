/**
 * The stylis compiler's AST node, as the middlewares see it, and the two
 * stylis entry points the middlewares call (`serialize`, `compile`), which
 * are not part of this model and are taken as given functions.
 */
module Ast {

  /** `element.props`: a declaration's property name, or a rule's selector list. */
  datatype Props = PropText(text: string) | PropList(items: seq<string>)

  /** `element.children`: a declaration's value text, or the child nodes of a rule or at-rule. */
  datatype Children = Text(text: string) | Nodes(nodes: seq<Element>)

  /** A node of the compiled stylesheet; the middlewares rewrite its fields in place. */
  class Element {
    /** stylis `type`: `"rule"`, `"decl"`, `"@media"`, `"@honey-stack"`, ... */
    var kind: string
    var value: string
    var props: Props
    var children: Children
    /** stylis `return`: the text that replaces the node when the tree is serialised. */
    var output: string
    var parent: Element?

    constructor (kind: string, value: string, props: Props, children: Children, parent: Element?)
      ensures this.kind == kind && this.value == value && this.props == props
      ensures this.children == children && this.parent == parent && output == ""
    {
      this.kind := kind;
      this.value := value;
      this.props := props;
      this.children := children;
      this.parent := parent;
      output := "";
    }
  }

  /** The child nodes of a node with node children. */
  function ChildNodes(e: Element): seq<Element>
    reads e`children
  {
    if e.children.Nodes? then e.children.nodes else []
  }

  /**
   * The stylis functions the middlewares delegate to, with the middleware chain
   * (`callback`) fixed: `serialize` turns nodes into CSS text and `render` is
   * `serialize(compile(css), callback)`.
   */
  datatype Serializer = Serializer(serialize: seq<Element> -> string, render: string -> string)
}

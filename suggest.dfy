/**
 * `suggestAtRuleMiddleware`: looks at the declarations of a rule and, when
 * they spell out one of the layouts an at-rule expander writes (center,
 * stack, inline), suggests that at-rule. The suggestion is the model's
 * result; the source logs it and changes nothing.
 */
module Suggest {
  import opened Wrappers
  import opened Ast

  /** A `prop: value` declaration of a rule. */
  datatype Declaration = Declaration(prop: string, value: string)

  /** A child node that `collectDeclarations` keeps: a `decl` whose property and value are both text. */
  predicate IsDeclaration(n: Element)
    reads n
  {
    n.kind == "decl" && n.props.PropText? && n.children.Text?
  }

  /** The declarations of a list of child nodes, in order. */
  function Collect(nodes: seq<Element>): (r: seq<Declaration>)
    reads set n | n in nodes
    ensures |r| <= |nodes|
    ensures forall d :: d in r <==>
      exists i :: 0 <= i < |nodes| && IsDeclaration(nodes[i]) && d == Declaration(nodes[i].props.text, nodes[i].children.text)
  {
    if nodes == [] then []
    else
      var rest := Collect(nodes[1..]);
      assert forall i :: 1 <= i < |nodes| ==> nodes[i] == nodes[1..][i - 1];
      if IsDeclaration(nodes[0]) then [Declaration(nodes[0].props.text, nodes[0].children.text)] + rest else rest
  }

  /** `collectDeclarations`: a rule whose children are not nodes has none. */
  function CollectDeclarations(e: Element): (r: seq<Declaration>)
    reads e`children, set n | n in ChildNodes(e)
    ensures e.children.Text? ==> r == []
  {
    Collect(ChildNodes(e))
  }

  /** The layouts the middleware recognises. */
  datatype Pattern = CenterPattern | StackPattern | InlinePattern

  /** `knownPatterns`, in the order they are tried. */
  const KnownPatterns: seq<Pattern> := [CenterPattern, StackPattern, InlinePattern]

  /** The at-rule suggested for a layout. */
  function Name(p: Pattern): string {
    match p
    case CenterPattern => "@honey-center"
    case StackPattern => "@honey-stack"
    case InlinePattern => "@honey-inline"
  }

  /** Some declaration of the list is `prop: value`. */
  predicate Has(ds: seq<Declaration>, prop: string, value: string) {
    Declaration(prop, value) in ds
  }

  /** The declarations a layout needs are all present. */
  predicate Matches(p: Pattern, ds: seq<Declaration>) {
    match p
    case CenterPattern =>
      Has(ds, "display", "flex") && Has(ds, "align-items", "center") && Has(ds, "justify-content", "center")
    case StackPattern =>
      Has(ds, "display", "flex") && Has(ds, "flex-direction", "column")
    case InlinePattern =>
      Has(ds, "display", "flex") && Has(ds, "align-items", "center")
  }

  /** The first layout of the list that matches. */
  function FirstMatch(ps: seq<Pattern>, ds: seq<Declaration>): (r: Option<Pattern>)
    ensures r.None? <==> forall p :: p in ps ==> !Matches(p, ds)
    ensures r.Some? ==> r.value in ps && Matches(r.value, ds)
  {
    if ps == [] then None
    else if Matches(ps[0], ds) then Some(ps[0])
    else
      assert forall p :: p in ps ==> p == ps[0] || p in ps[1..];
      FirstMatch(ps[1..], ds)
  }

  /** The layout found is the first that matches: none before it does. */
  lemma {:induction false} FirstMatchIsFirst(ps: seq<Pattern>, ds: seq<Declaration>)
    requires FirstMatch(ps, ds).Some?
    ensures exists i :: (0 <= i < |ps| && ps[i] == FirstMatch(ps, ds).value
                          && forall j :: 0 <= j < i ==> !Matches(ps[j], ds))
  {
    if !Matches(ps[0], ds) {
      FirstMatchIsFirst(ps[1..], ds);
      var i :| 0 <= i < |ps[1..]| && ps[1..][i] == FirstMatch(ps[1..], ds).value
        && forall j :: 0 <= j < i ==> !Matches(ps[1..][j], ds);
      assert ps[i + 1] == FirstMatch(ps, ds).value;
      forall j | 0 <= j < i + 1 ensures !Matches(ps[j], ds) {
        if j > 0 {
          assert ps[j] == ps[1..][j - 1];
        }
      }
    } else {
      assert ps[0] == FirstMatch(ps, ds).value;
    }
  }

  /** Whether `!element.children` lets the node through: an empty text is falsy, a node list never is. */
  predicate HasChildren(c: Children) {
    c.Nodes? || c.text != ""
  }

  /** What the middleware suggests for a node: nothing unless it is a rule with children. */
  function Suggestion(e: Element): (r: Option<string>)
    reads e`kind, e`children, set n | n in ChildNodes(e)
    ensures e.kind != "rule" || !HasChildren(e.children) ==> r.None?
    ensures r.Some? ==> exists p :: p in KnownPatterns && Matches(p, CollectDeclarations(e)) && r.value == Name(p)
  {
    if e.kind != "rule" || !HasChildren(e.children) then None
    else
      match FirstMatch(KnownPatterns, CollectDeclarations(e))
      case None => None
      case Some(p) => Some(Name(p))
  }

  /** The first match of a concatenation: in the first part if anything there matches, else in the second. */
  lemma {:induction false} FirstMatchAppend(a: seq<Pattern>, b: seq<Pattern>, ds: seq<Declaration>)
    ensures FirstMatch(a + b, ds) == if FirstMatch(a, ds).Some? then FirstMatch(a, ds) else FirstMatch(b, ds)
  {
    if a != [] {
      assert (a + b)[0] == a[0];
      assert (a + b)[1..] == a[1..] + b;
      FirstMatchAppend(a[1..], b, ds);
    } else {
      assert a + b == b;
    }
  }

  /**
   * The middleware applied to one node: the patterns are tried in order and the
   * loop stops at the first that matches. The node is not changed.
   */
  method Apply(e: Element) returns (r: Option<string>)
    ensures r == Suggestion(e)
  {
    if e.kind != "rule" || !HasChildren(e.children) {
      return None;
    }
    var declarations := CollectDeclarations(e);
    var found := FindPattern(KnownPatterns, declarations);
    r := if found.Some? then Some(Name(found.value)) else None;
  }

  /** The loop over the patterns: the first that matches, trying them in order and stopping there. */
  method FindPattern(patterns: seq<Pattern>, declarations: seq<Declaration>) returns (found: Option<Pattern>)
    ensures found == FirstMatch(patterns, declarations)
  {
    found := None;
    for i := 0 to |patterns|
      invariant FirstMatch(patterns[..i], declarations).None?
    {
      var pattern := patterns[i];
      assert patterns[..i + 1] == patterns[..i] + [pattern];
      FirstMatchAppend(patterns[..i], [pattern], declarations);
      if Matches(pattern, declarations) {
        assert patterns == patterns[..i + 1] + patterns[i + 1..];
        FirstMatchAppend(patterns[..i + 1], patterns[i + 1..], declarations);
        return Some(pattern);
      }
    }
    assert patterns[..|patterns|] == patterns;
  }

  // ---------------------------------------------------------------------------
  // properties

  /** The declarations of two runs of nodes are those of the first run followed by those of the second. */
  lemma {:induction false} CollectAppend(a: seq<Element>, b: seq<Element>)
    ensures Collect(a + b) == Collect(a) + Collect(b)
  {
    if a != [] {
      assert (a + b)[0] == a[0];
      assert (a + b)[1..] == a[1..] + b;
      CollectAppend(a[1..], b);
    } else {
      assert a + b == b;
    }
  }

  /** Every centred layout is also an inline one: center must be tried first to be suggested at all. */
  lemma CenterIsAlsoInline(ds: seq<Declaration>)
    requires Matches(CenterPattern, ds)
    ensures Matches(InlinePattern, ds)
  {
  }

  /** A rule that spells out the centred layout is told to use `@honey-center`, whatever else it holds. */
  lemma CenterWins(ds: seq<Declaration>)
    requires Matches(CenterPattern, ds)
    ensures FirstMatch(KnownPatterns, ds) == Some(CenterPattern)
  {
    assert KnownPatterns[0] == CenterPattern;
  }

  /** A flex column with centred items and no centred content is told to use `@honey-stack`, not `@honey-inline`. */
  lemma StackBeforeInline(ds: seq<Declaration>)
    requires Matches(StackPattern, ds) && Matches(InlinePattern, ds) && !Matches(CenterPattern, ds)
    ensures FirstMatch(KnownPatterns, ds) == Some(StackPattern)
  {
    assert KnownPatterns == [CenterPattern] + [StackPattern, InlinePattern];
    FirstMatchAppend([CenterPattern], [StackPattern, InlinePattern], ds);
  }

  /** Without `display: flex` nothing is suggested. */
  lemma NoFlexNoSuggestion(ds: seq<Declaration>)
    requires !Has(ds, "display", "flex")
    ensures FirstMatch(KnownPatterns, ds) == None
  {
    forall p | p in KnownPatterns ensures !Matches(p, ds) {
    }
  }

  /** A suggestion names one of the three expander at-rules. */
  lemma SuggestionIsExpander(e: Element)
    requires Suggestion(e).Some?
    ensures Suggestion(e).value in {"@honey-center", "@honey-stack", "@honey-inline"}
  {
  }
}

/**
 * `createAtRuleMiddleware`: the stylis middleware that replaces a custom
 * `@honey-<name>` at-rule nested in a rule by the CSS its transform returns.
 *
 * The middleware reads the arguments from the parentheses after the at-rule's
 * name, turns the node into a declaration and stores the compiled CSS as the
 * node's output, or empties the node's value when the transform gives nothing.
 */
module Factory {
  import opened Wrappers
  import opened Text
  import opened Ast
  import opened Themes
  import StackAtRule
  import InlineAtRule
  import CenterAtRule
  import EllipsisAtRule
  import AbsoluteFillAtRule
  import MediaAtRule

  /** The six at-rule middlewares, each with the options it was created with. */
  datatype AtRuleMiddleware =
    | Stack(theme: Option<Theme>)
    | Inline(theme: Option<Theme>)
    | Center
    | Ellipsis
    | AbsoluteFill
    | Media(theme: Option<Theme>)

  /** The `name` option: the at-rule's name without the `@honey-` prefix. */
  function Name(m: AtRuleMiddleware): string {
    match m
    case Stack(_) => "stack"
    case Inline(_) => "inline"
    case Center => "center"
    case Ellipsis => "ellipsis"
    case AbsoluteFill => "absolute-fill"
    case Media(_) => "media"
  }

  /** The node type the middleware handles. */
  function NodeType(m: AtRuleMiddleware): (r: string)
    ensures StartsWith(r, "@honey-") && r[0] == '@'
  {
    "@honey-" + Name(m)
  }

  // ---------------------------------------------------------------------------
  // the arguments

  /**
   * The capture group of `([^)]+?)` matched against the text between the
   * parentheses (never empty): the text without its surrounding whitespace;
   * when the text is only whitespace, the lazy group still has to take one
   * character, and it takes the last one.
   */
  function Group(inner: string): (r: string)
    requires inner != []
    ensures r != []
  {
    var t := Trim(inner);
    if t != [] then t else [inner[|inner| - 1]]
  }

  /**
   * `v.match(/^<kind>\s*\(\s*([^)]+?)\s*\)\s*;?$/i)` on an already trimmed
   * value, with the group it captures: the kind in any ASCII letter case, then
   * the parenthesised part.
   */
  function MatchArgs(kind: string, v: string): (r: Option<string>)
    ensures r.Some? ==> r.value != [] && ')' !in r.value
  {
    if |v| < |kind| || !EqualsIgnoreCase(v[..|kind|], kind) then None
    else MatchParens(v[|kind|..])
  }

  /** After the kind: optional whitespace, `(`, then the parenthesised text and what follows it. */
  function MatchParens(s: string): (r: Option<string>)
    ensures r.Some? ==> r.value != [] && ')' !in r.value
  {
    var rest := TrimStart(s);
    if rest == [] || rest[0] != '(' then None
    else MatchInside(rest[1..])
  }

  /**
   * After the `(`: a non-empty text up to the first `)`, then only whitespace
   * and at most one `;`.
   */
  function MatchInside(after: string): (r: Option<string>)
    ensures r.Some? ==> r.value != [] && ')' !in r.value
  {
    var k := IndexOf(after, ')');
    if k == |after| || k == 0 then None
    else
      var tail := TrimStart(after[k + 1..]);
      if tail != "" && tail != ";" then None
      else
        var inner := after[..k];
        assert forall j :: 0 <= j < |inner| ==> inner[j] != ')';
        TrimAvoids(inner, ')');
        Some(Group(inner))
  }

  /**
   * `args`: the group split on single spaces with the empty pieces dropped, or
   * no argument at all when the value does not match. Every argument is
   * non-empty and holds neither a space nor a `)`.
   */
  function ParseArgs(kind: string, value: string): (r: seq<string>)
    ensures forall i :: 0 <= i < |r| ==> r[i] != "" && ' ' !in r[i] && ')' !in r[i]
  {
    match MatchArgs(kind, Trim(value))
    case None => []
    case Some(g) =>
      SplitOnAvoids(g, ' ', ')');
      NonEmpty(SplitOn(g, ' '))
  }

  /** A character absent from the split string is absent from every piece, empty pieces dropped or not. */
  lemma {:induction false} SplitOnAvoids(s: string, c: char, d: char)
    requires d !in s
    ensures forall i :: 0 <= i < |SplitOn(s, c)| ==> d !in SplitOn(s, c)[i]
    ensures forall i :: 0 <= i < |NonEmpty(SplitOn(s, c))| ==> d !in NonEmpty(SplitOn(s, c))[i]
    decreases |s|
  {
    if s != [] {
      SplitOnAvoids(s[1..], c, d);
    }
  }

  // ---------------------------------------------------------------------------
  // the transforms

  /** The `transform` option of each middleware, for the given arguments. */
  function TransformCss(m: AtRuleMiddleware, args: seq<string>, e: Element, ser: Serializer): (r: Option<string>)
    reads e`parent, e`children, e.parent, set n | n in ChildNodes(e)
    ensures m.AbsoluteFill? ==> r == Some(AbsoluteFillAtRule.Declarations)
    ensures !m.AbsoluteFill? && e.parent == null ==> r == None
  {
    match m
    case Stack(theme) => StackAtRule.Transform(theme, args, e, ser)
    case Inline(theme) => InlineAtRule.Transform(theme, args, e, ser)
    case Center => CenterAtRule.Transform(args, e, ser)
    case Ellipsis => EllipsisAtRule.Transform(args, e, ser)
    case AbsoluteFill => AbsoluteFillAtRule.Transform(args, e, ser)
    case Media(theme) => MediaAtRule.MediaCss(theme, args, e, ser)
  }

  /** The middleware acts on a node of its own type whose parent is a rule with a selector. */
  predicate Matches(m: AtRuleMiddleware, e: Element)
    reads e`kind, e`parent, e.parent
  {
    e.parent != null && e.parent.value != "" && e.parent.kind == "rule" && e.kind == NodeType(m)
  }

  /**
   * The middleware applied to one node. A node it does not handle is left as
   * it is. Otherwise the node becomes a declaration; when the transform gives a
   * non-empty text, the node's output is that text compiled and serialised
   * with the middleware chain, and otherwise the node's value is emptied.
   *
   * A stylis tree has no cycles: the node is not one of its own children.
   */
  method Apply(m: AtRuleMiddleware, e: Element, ser: Serializer)
    requires e.children.Nodes? ==> e !in e.children.nodes
    modifies e`kind, e`output, e`value
    ensures !old(Matches(m, e)) ==> unchanged(e)
    ensures old(Matches(m, e)) ==>
      Rewritten(e, old(TransformCss(m, ParseArgs(NodeType(m), e.value), e, ser)), ser, old(e.value), old(e.output))
  {
    if !Matches(m, e) {
      return;
    }
    assert e.kind == NodeType(m);
    var args := ParseArgs(e.kind, e.value);
    // The source retypes the node before calling the transform; the transform
    // reads neither the node's type nor its value, so its result is the same.
    var css := TransformCss(m, args, e, ser);
    assert css == old(TransformCss(m, ParseArgs(NodeType(m), e.value), e, ser));
    Rewrite(e, css, ser);
  }

  /**
   * The node has become a declaration: its output is the rendered CSS when the
   * transform produced some, and otherwise its value is emptied so that stylis
   * drops it; the other of the two fields keeps its earlier content.
   */
  ghost predicate Rewritten(e: Element, css: Option<string>, ser: Serializer, value0: string, output0: string)
    reads e
  {
    && e.kind == "decl"
    && if css.Some? && css.value != "" then e.output == ser.render(css.value) && e.value == value0
       else e.value == "" && e.output == output0
  }

  method Rewrite(e: Element, css: Option<string>, ser: Serializer)
    modifies e`kind, e`output, e`value
    ensures Rewritten(e, css, ser, old(e.value), old(e.output))
  {
    e.kind := "decl";
    if css.Some? && css.value != "" {
      e.output := ser.render(css.value);
    } else {
      e.value := "";
    }
  }


  // ---------------------------------------------------------------------------
  // properties of the argument parsing

  /** The first `)` after a text without one is the one that follows it. */
  lemma IndexOfAfter(a: string, c: char, b: string)
    requires c !in a
    ensures IndexOf(a + [c] + b, c) == |a|
  {
    var t := a + [c] + b;
    assert t[|a|] == c;
    assert forall j :: 0 <= j < |a| ==> t[j] == a[j];
  }

  /** Cutting a concatenation where its first part ends. */
  lemma CutAt(a: string, b: string)
    ensures (a + b)[..|a|] == a && (a + b)[|a|..] == b
  {
  }

  /** The trimmed value, grouped the way the match reads it. */
  lemma Regroup(name: string, ws1: string, body: string, tail: string)
    ensures name + ws1 + "(" + body + ")" + tail == name + (ws1 + ("(" + (body + ")" + tail)))
  {
  }

  /** The match of a trimmed value: the name, whitespace, `(`, the body, `)` and what may follow it. */
  lemma MatchOf(kind: string, name: string, ws1: string, body: string, tail: string)
    requires EqualsIgnoreCase(name, kind) && AllSpace(ws1)
    requires body != [] && ')' !in body
    requires TrimStart(tail) == "" || TrimStart(tail) == ";"
    ensures MatchArgs(kind, name + ws1 + "(" + body + ")" + tail) == Some(Group(body))
  {
    var rest := ws1 + ("(" + (body + ")" + tail));
    Regroup(name, ws1, body, tail);
    CutAt(name, rest);
    ParensOf(ws1, body, tail);
  }

  /** The parenthesised part after leading whitespace. */
  lemma ParensOf(ws1: string, body: string, tail: string)
    requires AllSpace(ws1)
    requires body != [] && ')' !in body
    requires TrimStart(tail) == "" || TrimStart(tail) == ";"
    ensures MatchParens(ws1 + ("(" + (body + ")" + tail))) == Some(Group(body))
  {
    var after := body + ")" + tail;
    TrimStartSkips(ws1, "(" + after);
    CutAt("(", after);
    InsideOf(body, tail);
  }

  /** The text after the `(`: the body, `)` and what may follow it. */
  lemma InsideOf(body: string, tail: string)
    requires body != [] && ')' !in body
    requires TrimStart(tail) == "" || TrimStart(tail) == ";"
    ensures MatchInside(body + ")" + tail) == Some(Group(body))
  {
    var after := body + ")" + tail;
    IndexOfAfter(body, ')', tail);
    assert IndexOf(after, ')') == |body|;
    CutAt(body, ")" + tail);
    CutAt(")", tail);
    assert after[..|body|] == body;
    assert after[|body| + 1..] == tail;
  }

  /** What `trim()` leaves of a written value: everything from the name to the `)` or the `;`. */
  lemma TrimmedValue(ws0: string, name: string, ws1: string, body: string, ws4: string, semi: string, ws5: string)
    requires name != [] && !IsSpace(name[0])
    requires AllSpace(ws0) && AllSpace(ws4) && AllSpace(ws5) && (semi == "" || semi == ";")
    ensures Trim(ws0 + name + ws1 + "(" + body + ")" + ws4 + semi + ws5)
         == name + ws1 + "(" + body + ")" + (if semi == "" then "" else ws4 + ";")
  {
    var core := name + ws1 + "(" + body + ")";
    assert core[0] == name[0];
    var v := ws0 + name + ws1 + "(" + body + ")" + ws4 + semi + ws5;
    assert v == ws0 + core + ws4 + semi + ws5;
    if semi == "" {
      Regroup3(ws0, core, ws4, semi, ws5);
      assert AllSpace(ws4 + ws5);
      assert core[|core| - 1] == ')';
      TrimPadded(ws0, core, ws4 + ws5);
      assert Trim(v) == core;
      assert core + "" == core;
    } else {
      var t := core + (ws4 + ";");
      Regroup3(ws0, core, ws4, semi, ws5);
      assert t[0] == core[0] && t[|t| - 1] == ';';
      TrimPadded(ws0, t, ws5);
      assert Trim(v) == t;
    }
  }

  /** The written value split around its trimmed part. */
  lemma Regroup3(ws0: string, core: string, ws4: string, semi: string, ws5: string)
    ensures ws0 + core + ws4 + semi + ws5 == ws0 + (core + (ws4 + semi)) + ws5
    ensures semi == "" ==> ws0 + core + ws4 + semi + ws5 == ws0 + core + (ws4 + ws5)
  {
  }

  /** The written body between the parentheses. */
  lemma Regroup4(ws0: string, name: string, ws1: string, ws2: string, j: string, ws3: string, ws4: string, semi: string, ws5: string)
    ensures ws0 + name + ws1 + "(" + ws2 + j + ws3 + ")" + ws4 + semi + ws5
         == ws0 + name + ws1 + "(" + (ws2 + j + ws3) + ")" + ws4 + semi + ws5
  {
  }

  /**
   * Space-free words written between the parentheses are read back as the
   * arguments, whatever the letter case of the at-rule's name and whatever
   * whitespace surrounds the value, the parentheses and the words, and with or
   * without a closing `;`.
   */
  lemma ArgsRoundTrip(kind: string, name: string, words: seq<string>,
                      ws0: string, ws1: string, ws2: string, ws3: string, ws4: string, ws5: string, semi: string)
    requires kind != [] && kind[0] == '@' && EqualsIgnoreCase(name, kind)
    requires |words| >= 1 && forall i :: 0 <= i < |words| ==> words[i] != "" && NoSpace(words[i]) && ')' !in words[i]
    requires AllSpace(ws0) && AllSpace(ws1) && AllSpace(ws2) && AllSpace(ws3) && AllSpace(ws4) && AllSpace(ws5)
    requires semi == "" || semi == ";"
    ensures ParseArgs(kind, ws0 + name + ws1 + "(" + ws2 + Join(words, " ") + ws3 + ")" + ws4 + semi + ws5) == words
  {
    var j := Join(words, " ");
    var tail := if semi == "" then "" else ws4 + ";";
    var t := name + ws1 + "(" + (ws2 + j + ws3) + ")" + tail;
    WrittenTrimmed(kind, name, words, ws0, ws1, ws2, ws3, ws4, ws5, semi);
    assert TrimStart(tail) == "" || TrimStart(tail) == ";" by {
      if semi != "" {
        TrimStartSkips(ws4, ";");
      }
    }
    WrittenMatched(kind, name, words, ws1, ws2, ws3, tail);
    assert NonEmpty(SplitOn(j, ' ')) == words by {
      assert forall i :: 0 <= i < |words| ==> ' ' !in words[i];
      SplitOnJoin(words, ' ');
      NonEmptyKeepsAll(words);
    }
  }

  /** `trim()` of the written value keeps the name, the parentheses and the `;`. */
  lemma WrittenTrimmed(kind: string, name: string, words: seq<string>,
                       ws0: string, ws1: string, ws2: string, ws3: string, ws4: string, ws5: string, semi: string)
    requires kind != [] && kind[0] == '@' && EqualsIgnoreCase(name, kind)
    requires AllSpace(ws0) && AllSpace(ws4) && AllSpace(ws5)
    requires semi == "" || semi == ";"
    ensures Trim(ws0 + name + ws1 + "(" + ws2 + Join(words, " ") + ws3 + ")" + ws4 + semi + ws5)
         == name + ws1 + "(" + (ws2 + Join(words, " ") + ws3) + ")" + (if semi == "" then "" else ws4 + ";")
  {
    assert name[0] == '@' by {
      assert LowerChar(name[0]) == LowerChar(kind[0]);
    }
    Regroup4(ws0, name, ws1, ws2, Join(words, " "), ws3, ws4, semi, ws5);
    TrimmedValue(ws0, name, ws1, ws2 + Join(words, " ") + ws3, ws4, semi, ws5);
  }

  /** The trimmed value matches, capturing the words joined by spaces. */
  lemma WrittenMatched(kind: string, name: string, words: seq<string>, ws1: string, ws2: string, ws3: string, tail: string)
    requires EqualsIgnoreCase(name, kind)
    requires |words| >= 1 && forall i :: 0 <= i < |words| ==> words[i] != "" && NoSpace(words[i]) && ')' !in words[i]
    requires AllSpace(ws1) && AllSpace(ws2) && AllSpace(ws3)
    requires TrimStart(tail) == "" || TrimStart(tail) == ";"
    ensures MatchArgs(kind, name + ws1 + "(" + (ws2 + Join(words, " ") + ws3) + ")" + tail) == Some(Join(words, " "))
  {
    GroupOfWords(words, ws2, ws3);
    BodyAvoids(words, ws2, ws3);
    MatchOf(kind, name, ws1, ws2 + Join(words, " ") + ws3, tail);
  }

  /** Whitespace holds no character that is not whitespace. */
  lemma SpacesAvoid(ws: string, d: char)
    requires AllSpace(ws) && !IsSpace(d)
    ensures d !in ws
  {
  }

  /** The group captured around space-free words is the words joined by spaces. */
  lemma GroupOfWords(words: seq<string>, ws2: string, ws3: string)
    requires |words| >= 1 && forall i :: 0 <= i < |words| ==> words[i] != "" && NoSpace(words[i])
    requires AllSpace(ws2) && AllSpace(ws3)
    ensures Group(ws2 + Join(words, " ") + ws3) == Join(words, " ")
  {
    var j := Join(words, " ");
    JoinedWordsEnds(words);
    TrimPadded(ws2, j, ws3);
  }

  /** No `)` appears between the parentheses when none appears in the words. */
  lemma BodyAvoids(words: seq<string>, ws2: string, ws3: string)
    requires forall i :: 0 <= i < |words| ==> ')' !in words[i]
    requires AllSpace(ws2) && AllSpace(ws3)
    ensures ')' !in ws2 + Join(words, " ") + ws3
  {
    JoinAvoids(words, " ", ')');
    SpacesAvoid(ws2, ')');
    SpacesAvoid(ws3, ')');
  }

  /** Without a `(` in the value there are no arguments. */
  lemma NoParenthesesNoArgs(kind: string, value: string)
    requires '(' !in value
    ensures ParseArgs(kind, value) == []
  {
    TrimAvoids(value, '(');
    NoParenthesesNoMatch(kind, Trim(value));
  }

  lemma NoParenthesesNoMatch(kind: string, v: string)
    requires '(' !in v
    ensures MatchArgs(kind, v) == None
  {
    if |v| >= |kind| {
      SliceAvoids(v, |kind|, |v|, '(');
      NoParenthesesNoParens(v[|kind|..]);
    }
  }

  lemma NoParenthesesNoParens(s: string)
    requires '(' !in s
    ensures MatchParens(s) == None
  {
    var rest := TrimStart(s);
    SliceAvoids(s, |s| - |rest|, |s|, '(');
    assert rest == [] || rest[0] in rest;
  }

  /** Empty parentheses give no arguments: the group must take at least one character. */
  lemma EmptyParenthesesNoArgs(kind: string)
    requires kind != [] && !IsSpace(kind[0])
    ensures ParseArgs(kind, kind + "()") == []
  {
    var v := kind + "()";
    assert Trim(v) == v by {
      assert v[0] == kind[0] && v[|v| - 1] == ')';
      assert AllSpace("");
      TrimPadded("", v, "");
      assert "" + v + "" == v;
    }
    CutAt(kind, "()");
    assert EqualsIgnoreCase(kind, kind);
    EmptyParens();
  }

  lemma EmptyParens()
    ensures MatchParens("()") == None
  {
    assert AllSpace("") && "" + "()" == "()";
    TrimStartSkips("", "()");
    EmptyInside();
  }

  lemma EmptyInside()
    ensures MatchInside(")") == None
  {
    assert IndexOf(")", ')') == 0;
  }

  /** `@honey-stack(2)` gives the single argument `2`. */
  lemma StackArgsExample()
    ensures ParseArgs("@honey-stack", "@honey-stack" + "(" + "2" + ")") == ["2"]
  {
    var kind := "@honey-stack";
    OneWord("2");
    assert AllSpace("");
    assert EqualsIgnoreCase(kind, kind);
    ArgsRoundTrip(kind, kind, ["2"], "", "", "", "", "", "", "");
    Unpadded(kind, "2");
  }

  /** Upper case and spaces do not change the arguments: `@HONEY-STACK ( 2 ) ;` also gives `2`. */
  lemma UpperCaseStackArgsExample()
    ensures ParseArgs("@honey-stack", "@HONEY-STACK" + " " + "(" + " " + "2" + " " + ")" + " " + ";") == ["2"]
  {
    var kind, upper := "@honey-stack", "@HONEY-STACK";
    OneWord("2");
    assert AllSpace("") && AllSpace(" ");
    assert EqualsIgnoreCase(upper, kind);
    ArgsRoundTrip(kind, upper, ["2"], "", " ", " ", " ", " ", "", ";");
    Unpadded(upper, "2");
  }



  /** A single word is written as itself. */
  lemma OneWord(w: string)
    ensures Join([w], " ") == w
  {
  }

  /** Empty padding adds nothing. */
  lemma Unpadded(a: string, w: string)
    ensures "" + a + "" + "(" + "" + w + "" + ")" + "" + "" + "" == a + "(" + w + ")"
    ensures "" + a + " " + "(" + " " + w + " " + ")" + " " + ";" + "" == a + " " + "(" + " " + w + " " + ")" + " " + ";"
  {
  }
}

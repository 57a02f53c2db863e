/**
 * Interpolation resolution and tagged-template evaluation (`css`), plus the
 * rule and children helpers that the at-rule expanders build on.
 *
 * A style function `(context) => interpolation` is represented by the
 * interpolation it returns for the context being evaluated (`Fn(result)`),
 * so resolution is a function of the interpolation value alone.
 */
module Css {
  import opened Text
  import opened Kebab
  import opened Ast

  /** The value of one property of a style object. */
  datatype PropValue = PStr(s: string) | PNum(n: int) | PNull | PFalse | PUndefined

  /** The interpolation union accepted by `css` templates. */
  datatype Interpolation =
    | Str(s: string)
    | Num(n: int)
    | Bool(b: bool)
    | Null
    | Undefined
      /** A styled component, referenced by its component id. */
    | Component(id: string)
      /** A style function, by the interpolation it returns for the evaluation's context. */
    | Fn(result: Interpolation)
      /** A style object, by its entries in enumeration order. */
    | Obj(entries: seq<(string, PropValue)>)
    | List(items: seq<Interpolation>)

  /** The interpolations that resolve to nothing: `false`, `null`, `undefined` and `''`. */
  predicate IsAbsent(v: Interpolation) {
    v == Bool(false) || v == Null || v == Undefined || v == Str("")
  }

  /** `${v}` for a property value that was kept. */
  function PropText(v: PropValue): (r: string)
    requires !v.PFalse? && !v.PUndefined?
    ensures v.PStr? ==> r == v.s
    ensures v.PNum? ==> r == IntToString(v.n)
    ensures v.PNull? ==> r == "null"
  {
    match v
    case PStr(s) => s
    case PNum(n) => IntToString(n)
    case PNull => "null"
  }

  /** Entries with a value other than `undefined` or `false` are emitted. */
  predicate Kept(v: PropValue) { !v.PFalse? && !v.PUndefined? }

  /** The declaration line `<kebab-key>: <value>;` of one kept entry. */
  function DeclarationLine(k: string, v: PropValue): (r: string)
    requires Kept(v)
  {
    KebabCase(k) + ": " + PropText(v) + ";"
  }

  /** One line per kept entry, in entry order. */
  function ObjectLines(entries: seq<(string, PropValue)>): (r: seq<string>)
    ensures |r| <= |entries|
    ensures (forall i :: 0 <= i < |entries| ==> Kept(entries[i].1)) ==> |r| == |entries|
    ensures (forall i :: 0 <= i < |entries| ==> !Kept(entries[i].1)) ==> r == []
  {
    if entries == [] then []
    else
      var (k, v) := entries[0];
      (if Kept(v) then [DeclarationLine(k, v)] else []) + ObjectLines(entries[1..])
  }

  /** The kept entries, in order. */
  function KeptEntries(entries: seq<(string, PropValue)>): (r: seq<(string, PropValue)>)
    ensures forall i :: 0 <= i < |r| ==> Kept(r[i].1) && r[i] in entries
    ensures forall e :: e in entries && Kept(e.1) ==> e in r
    ensures |r| <= |entries|
  {
    if entries == [] then []
    else (if Kept(entries[0].1) then [entries[0]] else []) + KeptEntries(entries[1..])
  }

  /** The filter keeps entry order: the kept entries of a concatenation are those of each part, one after the other. */
  lemma {:induction false} KeptEntriesAppend(a: seq<(string, PropValue)>, b: seq<(string, PropValue)>)
    ensures KeptEntries(a + b) == KeptEntries(a) + KeptEntries(b)
  {
    if a == [] {
      assert a + b == b;
    } else {
      assert (a + b)[0] == a[0];
      assert (a + b)[1..] == a[1..] + b;
      KeptEntriesAppend(a[1..], b);
    }
  }

  /** `resolveCssInterpolation` of `src/css/css.ts`. */
  function Resolve(v: Interpolation): (r: string)
    ensures IsAbsent(v) ==> r == ""
    ensures v.Component? ==> r == "." + v.id
    ensures v.Fn? ==> r == Resolve(v.result)
    ensures v.Str? ==> r == v.s
    ensures v.Num? ==> r == IntToString(v.n)
    ensures v == Bool(true) ==> r == "true"
    ensures v.List? ==> r == Join(ResolveAll(v.items), "\n")
    ensures v.Obj? ==> r == Join(ObjectLines(v.entries), "\n")
  {
    if IsAbsent(v) then ""
    else match v
      case Component(id) => "." + id
      case Fn(result) => Resolve(result)
      case List(items) => Join(ResolveAll(items), "\n")
      case Obj(entries) => Join(ObjectLines(entries), "\n")
      case Str(s) => s
      case Num(n) => IntToString(n)
      case Bool(b) => "true"
      case Null => ""
      case Undefined => ""
  }

  /** The resolutions of a list's elements, in order. */
  function ResolveAll(items: seq<Interpolation>): (r: seq<string>)
    ensures |r| == |items|
    ensures forall i :: 0 <= i < |items| ==> r[i] == Resolve(items[i])
    decreases items, 0
  {
    seq(|items|, i requires 0 <= i < |items| => Resolve(items[i]))
  }

  /** `interpolations[index]`, which is `undefined` past the end. */
  function Arg(interps: seq<Interpolation>, i: nat): Interpolation {
    if i < |interps| then interps[i] else Undefined
  }

  /** The `reduce` of `css`: segment i is followed by the resolution of interpolation i, for the first n segments. */
  function Evaluate(strings: seq<string>, interps: seq<Interpolation>, n: nat): (r: string)
    requires n <= |strings|
  {
    if n == 0 then ""
    else Evaluate(strings, interps, n - 1) + strings[n - 1] + Resolve(Arg(interps, n - 1))
  }

  /** `css(strings, ...interpolations)(context)` of `src/css/css.ts`. */
  function EvaluateTemplate(strings: seq<string>, interps: seq<Interpolation>): string {
    Evaluate(strings, interps, |strings|)
  }

  /** The template read front to back: each segment followed by its resolved interpolation. */
  function Interleave(strings: seq<string>, interps: seq<Interpolation>, from: nat): (r: string)
    requires from <= |strings|
    decreases |strings| - from
  {
    if from == |strings| then ""
    else strings[from] + Resolve(Arg(interps, from)) + Interleave(strings, interps, from + 1)
  }

  /** The concatenation of the literal segments. */
  function Concat(strings: seq<string>): string {
    if strings == [] then "" else strings[0] + Concat(strings[1..])
  }

  // ---------------------------------------------------------------------------
  // properties of resolution and evaluation

  lemma {:induction false} EvaluateInterleave(strings: seq<string>, interps: seq<Interpolation>, n: nat)
    requires n <= |strings|
    ensures Evaluate(strings, interps, n) + Interleave(strings, interps, n) == Interleave(strings, interps, 0)
    decreases n
  {
    if n > 0 {
      EvaluateInterleave(strings, interps, n - 1);
    }
  }

  /** The left fold over segments equals the front-to-back concatenation of segment + resolution pairs. */
  lemma TemplateIsInterleaving(strings: seq<string>, interps: seq<Interpolation>)
    ensures EvaluateTemplate(strings, interps) == Interleave(strings, interps, 0)
  {
    EvaluateInterleave(strings, interps, |strings|);
  }

  lemma {:induction false} InterleaveAbsent(strings: seq<string>, interps: seq<Interpolation>, from: nat)
    requires from <= |strings|
    requires forall i :: from <= i < |interps| ==> IsAbsent(interps[i])
    ensures Interleave(strings, interps, from) == Concat(strings[from..])
    decreases |strings| - from
  {
    if from < |strings| {
      InterleaveAbsent(strings, interps, from + 1);
      assert strings[from..][1..] == strings[from + 1..];
    }
  }

  /** With every interpolation absent (or none at all) the template is its literal text. */
  lemma TemplateWithAbsentInterpolations(strings: seq<string>, interps: seq<Interpolation>)
    requires forall i :: 0 <= i < |interps| ==> IsAbsent(interps[i])
    ensures EvaluateTemplate(strings, interps) == Concat(strings)
  {
    TemplateIsInterleaving(strings, interps);
    InterleaveAbsent(strings, interps, 0);
    assert strings[0..] == strings;
  }

  /** The trailing segment has no interpolation: a one-segment template is that segment; `css\`\`` is `''`. */
  lemma SingleSegmentTemplate(s: string)
    ensures EvaluateTemplate([s], []) == s
  {
    assert Evaluate([s], [], 0) == "";
    assert Resolve(Arg([], 0)) == "";
  }

  /** `${0}` and `${[0]}` both print `0`: a number is written by its `toString`, also inside an array. */
  lemma ZeroInterpolation()
    ensures EvaluateTemplate([""], [Num(0)]) == "0"
    ensures EvaluateTemplate([""], [List([Num(0)])]) == "0"
  {
    assert IntToString(0) == "0";
    assert Resolve(List([Num(0)])) == Join(["0"], "\n");
    assert Evaluate([""], [Num(0)], 0) == "";
    assert Evaluate([""], [List([Num(0)])], 0) == "";
  }

  /** A list resolves to its elements' resolutions, one per line, when none of them spans lines. */
  lemma ListLines(items: seq<Interpolation>)
    requires |items| >= 1
    requires forall i :: 0 <= i < |items| ==> '\n' !in Resolve(items[i])
    ensures SplitOn(Resolve(List(items)), '\n') == ResolveAll(items)
  {
    if IsAbsent(List(items)) {
      assert false;
    }
    SplitOnJoin(ResolveAll(items), '\n');
  }

  lemma {:induction false} ObjectLinesMatchEntries(entries: seq<(string, PropValue)>)
    ensures |ObjectLines(entries)| == |KeptEntries(entries)|
    ensures forall i :: 0 <= i < |ObjectLines(entries)| ==>
      ObjectLines(entries)[i] == DeclarationLine(KeptEntries(entries)[i].0, KeptEntries(entries)[i].1)
  {
    if entries != [] {
      var rest := entries[1..];
      ObjectLinesMatchEntries(rest);
      var lines, kept := ObjectLines(entries), KeptEntries(entries);
      if Kept(entries[0].1) {
        assert lines == [DeclarationLine(entries[0].0, entries[0].1)] + ObjectLines(rest);
        assert kept == [entries[0]] + KeptEntries(rest);
        forall i | 0 <= i < |lines| ensures lines[i] == DeclarationLine(kept[i].0, kept[i].1) {
          if i > 0 {
            assert lines[i] == ObjectLines(rest)[i - 1] && kept[i] == KeptEntries(rest)[i - 1];
          }
        }
      } else {
        assert lines == ObjectLines(rest) && kept == KeptEntries(rest);
      }
    }
  }

  /** Splitting a declaration on newlines gives nothing new when its key and value have no newline. */
  lemma DeclarationLineHasNoNewline(k: string, v: PropValue)
    requires Kept(v) && '\n' !in k
    requires v.PStr? ==> '\n' !in v.s
    ensures '\n' !in DeclarationLine(k, v)
  {
    KebabCaseChars(k, '\n');
    if v.PNum? {
      var t := IntToString(v.n);
      forall j | 0 <= j < |t| ensures t[j] != '\n' {
        if v.n < 0 && j > 0 {
          assert t[j] == t[1..][j - 1];
        }
      }
    }
  }

  /**
   * A style object resolves to one `<kebab-key>: <value>;` line per entry whose value is
   * neither `undefined` nor `false`, in entry order.
   */
  lemma ObjectDeclarations(entries: seq<(string, PropValue)>)
    requires |KeptEntries(entries)| >= 1
    requires forall i :: 0 <= i < |entries| ==> '\n' !in entries[i].0
    requires forall i :: 0 <= i < |entries| ==> entries[i].1.PStr? ==> '\n' !in entries[i].1.s
    ensures |SplitOn(Resolve(Obj(entries)), '\n')| == |KeptEntries(entries)|
    ensures forall i :: 0 <= i < |KeptEntries(entries)| ==>
      SplitOn(Resolve(Obj(entries)), '\n')[i] == DeclarationLine(KeptEntries(entries)[i].0, KeptEntries(entries)[i].1)
  {
    var lines := ObjectLines(entries);
    var kept := KeptEntries(entries);
    ObjectLinesMatchEntries(entries);
    forall i | 0 <= i < |lines| ensures '\n' !in lines[i] {
      var e := kept[i];
      assert e in entries;
      var j :| 0 <= j < |entries| && entries[j] == e;
      DeclarationLineHasNoNewline(e.0, e.1);
    }
    assert Resolve(Obj(entries)) == Join(lines, ['\n']);
    SplitOnJoin(lines, '\n');
  }

  // ---------------------------------------------------------------------------
  // rules and children

  /** `createCssRule`: `selector{css}`. */
  function CreateCssRule(selector: string, css: string): (r: string)
    ensures |r| == |selector| + |css| + 2
    ensures r[..|selector|] == selector && r[|selector|] == '{' && r[|r| - 1] == '}'
    ensures r[|selector| + 1..|r| - 1] == css
  {
    selector + "{" + css + "}"
  }

  /** The selector and the body are recovered from a rule whose selector has no `{`. */
  lemma CssRuleSplit(selector: string, css: string)
    requires '{' !in selector
    ensures SplitOn(CreateCssRule(selector, css), '{')[0] == selector
  {
    var r := CreateCssRule(selector, css);
    assert r == selector + ['{'] + (css + "}");
    SplitOnFirst(selector, '{', css + "}");
  }

  /** `getChildrenCss`: a node's children serialised, or its text children as they are. */
  function ChildrenCss(e: Element, ser: Serializer): (r: string)
    reads e`children
    ensures e.children.Text? ==> r == e.children.text
    ensures e.children.Nodes? ==> r == ser.serialize(e.children.nodes)
  {
    match e.children
    case Text(t) => t
    case Nodes(ns) => ser.serialize(ns)
  }

  /** The declaration nodes among ns, in order. */
  function DeclsOf(ns: seq<Element>): (r: seq<Element>)
    reads set n | n in ns
    ensures forall e :: e in r ==> e in ns && e.kind == "decl"
    ensures forall e :: e in ns && e.kind == "decl" ==> e in r
    ensures |r| <= |ns|
  {
    if ns == [] then []
    else DeclsOf(ns[..|ns| - 1]) + (if ns[|ns| - 1].kind == "decl" then [ns[|ns| - 1]] else [])
  }

  /** The other nodes among ns, in order. */
  function OthersOf(ns: seq<Element>): (r: seq<Element>)
    reads set n | n in ns
    ensures forall e :: e in r ==> e in ns && e.kind != "decl"
    ensures forall e :: e in ns && e.kind != "decl" ==> e in r
    ensures |r| <= |ns|
  {
    if ns == [] then []
    else OthersOf(ns[..|ns| - 1]) + (if ns[|ns| - 1].kind != "decl" then [ns[|ns| - 1]] else [])
  }

  /** The two groups together hold every child exactly once. */
  lemma {:induction false} SplitIsPartition(ns: seq<Element>)
    ensures multiset(DeclsOf(ns)) + multiset(OthersOf(ns)) == multiset(ns)
    ensures |DeclsOf(ns)| + |OthersOf(ns)| == |ns|
  {
    if ns != [] {
      var init, last := ns[..|ns| - 1], ns[|ns| - 1];
      SplitIsPartition(init);
      assert multiset(ns) == multiset(init) + multiset{last} by {
        assert ns == init + [last];
      }
      var d, o := DeclsOf(init), OthersOf(init);
      if last.kind == "decl" {
        assert DeclsOf(ns) == d + [last] && OthersOf(ns) == o;
        assert multiset(d + [last]) == multiset(d) + multiset{last};
      } else {
        assert DeclsOf(ns) == d && OthersOf(ns) == o + [last];
        assert multiset(o + [last]) == multiset(o) + multiset{last};
      }
    }
  }

  /** One more child goes to the group its kind selects. */
  lemma SplitPrefix(ns: seq<Element>, i: nat)
    requires i < |ns|
    ensures DeclsOf(ns[..i + 1]) == DeclsOf(ns[..i]) + (if ns[i].kind == "decl" then [ns[i]] else [])
    ensures OthersOf(ns[..i + 1]) == OthersOf(ns[..i]) + (if ns[i].kind != "decl" then [ns[i]] else [])
  {
    assert ns[..i + 1][..i] == ns[..i] && ns[..i + 1][i] == ns[i];
  }

  /** `splitStylisChildren`: declarations and other nodes, each in the order met; text children give two empty groups. */
  method SplitStylisChildren(children: Children) returns (decls: seq<Element>, other: seq<Element>)
    ensures children.Text? ==> decls == [] && other == []
    ensures children.Nodes? ==> decls == DeclsOf(children.nodes) && other == OthersOf(children.nodes)
  {
    decls, other := [], [];
    if children.Text? || |children.nodes| == 0 {
      return;
    }
    var ns := children.nodes;
    var i := 0;
    while i < |ns|
      invariant 0 <= i <= |ns|
      invariant decls == DeclsOf(ns[..i]) && other == OthersOf(ns[..i])
    {
      var child := ns[i];
      SplitPrefix(ns, i);
      if child.kind == "decl" {
        decls := decls + [child];
      } else {
        other := other + [child];
      }
      i := i + 1;
    }
    assert ns[..|ns|] == ns;
  }
}

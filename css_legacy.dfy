/**
 * The earlier interpolation resolver and `css` template of `src/css.ts`.
 * It differs from the current one in where absent values are dropped:
 * the template skips absent top-level interpolations, while the resolver
 * itself only maps `null`/`undefined` to `''`, so a nested `false` prints
 * as `false`.
 */
module LegacyCss {
  import opened Text
  import opened Css

  /** `resolveCssInterpolation` of `src/css.ts`. */
  function ResolveLegacy(v: Interpolation): (r: string)
    ensures v == Null || v == Undefined ==> r == ""
    ensures v.Component? ==> r == "." + v.id
    ensures v.Fn? ==> r == ResolveLegacy(v.result)
    ensures v.Str? ==> r == v.s
    ensures v.Num? ==> r == IntToString(v.n)
    ensures v.Bool? ==> r == (if v.b then "true" else "false")
    ensures v.List? ==> r == Join(ResolveAllLegacy(v.items), "\n")
    ensures v.Obj? ==> r == Join(ObjectLines(v.entries), "\n")
  {
    match v
    case Component(id) => "." + id
    case Fn(result) => ResolveLegacy(result)
    case List(items) => Join(ResolveAllLegacy(items), "\n")
    case Obj(entries) => Join(ObjectLines(entries), "\n")
    case Str(s) => s
    case Num(n) => IntToString(n)
    case Bool(b) => if b then "true" else "false"
    case Null => ""
    case Undefined => ""
  }

  function ResolveAllLegacy(items: seq<Interpolation>): (r: seq<string>)
    ensures |r| == |items|
    ensures forall i :: 0 <= i < |items| ==> r[i] == ResolveLegacy(items[i])
    decreases items, 0
  {
    seq(|items|, i requires 0 <= i < |items| => ResolveLegacy(items[i]))
  }

  /** The `reduce` of the older `css`: an absent interpolation contributes only its segment. */
  function EvaluateLegacy(strings: seq<string>, interps: seq<Interpolation>, n: nat): (r: string)
    requires n <= |strings|
  {
    if n == 0 then ""
    else
      var prefix := EvaluateLegacy(strings, interps, n - 1) + strings[n - 1];
      var v := Arg(interps, n - 1);
      if IsAbsent(v) then prefix else prefix + ResolveLegacy(v)
  }

  /** `css(strings, ...interpolations)(context)` of `src/css.ts`. */
  function EvaluateTemplateLegacy(strings: seq<string>, interps: seq<Interpolation>): string {
    EvaluateLegacy(strings, interps, |strings|)
  }

  /** v has no `false` anywhere inside it (the top level included). */
  predicate FalseFree(v: Interpolation) {
    match v
    case Bool(b) => b
    case Fn(result) => FalseFree(result)
    case List(items) => forall i :: 0 <= i < |items| ==> FalseFree(items[i])
    case _ => true
  }

  /** Without a `false` inside, the two resolvers agree. */
  lemma {:induction false} ResolversAgree(v: Interpolation)
    requires FalseFree(v)
    ensures ResolveLegacy(v) == Resolve(v)
    decreases v
  {
    match v
    case Fn(result) =>
      ResolversAgree(result);
    case List(items) =>
      forall i | 0 <= i < |items| ensures ResolveLegacy(items[i]) == Resolve(items[i]) {
        ResolversAgree(items[i]);
      }
      assert ResolveAllLegacy(items) == ResolveAll(items);
    case _ =>
  }

  lemma {:induction false} EvaluationsAgree(strings: seq<string>, interps: seq<Interpolation>, n: nat)
    requires n <= |strings|
    requires forall i :: 0 <= i < |interps| ==> interps[i] == Bool(false) || FalseFree(interps[i])
    ensures EvaluateLegacy(strings, interps, n) == Evaluate(strings, interps, n)
  {
    if n > 0 {
      EvaluationsAgree(strings, interps, n - 1);
      var v := Arg(interps, n - 1);
      if !IsAbsent(v) {
        ResolversAgree(v);
      }
    }
  }

  /**
   * The two templates agree whenever no interpolation holds a `false` below the
   * top level; a top-level `false` is dropped by both.
   */
  lemma TemplatesAgree(strings: seq<string>, interps: seq<Interpolation>)
    requires forall i :: 0 <= i < |interps| ==> interps[i] == Bool(false) || FalseFree(interps[i])
    ensures EvaluateTemplateLegacy(strings, interps) == EvaluateTemplate(strings, interps)
  {
    EvaluationsAgree(strings, interps, |strings|);
  }

  /** A `false` inside a list is printed by the older resolver and dropped by the current one. */
  lemma NestedFalseDiffers()
    ensures EvaluateTemplateLegacy([""], [List([Bool(false)])]) == "false"
    ensures EvaluateTemplate([""], [List([Bool(false)])]) == ""
  {
    var v := List([Bool(false)]);
    assert ResolveAllLegacy([Bool(false)]) == ["false"];
    assert ResolveAll([Bool(false)]) == [""];
    assert EvaluateLegacy([""], [v], 0) == "";
    assert Evaluate([""], [v], 0) == "";
  }
}

/**
 * The earlier spacing middleware: instead of the theme's spacing base it
 * takes a `spacingMultiplier` option, does nothing when the multiplier is
 * absent or 0, and scales only unsigned numbers (`^(\d+|\d*\.\d+)$`).
 */
module SpacingLegacy {
  import opened Wrappers
  import opened Text
  import opened Ast
  import opened Numbers
  import Spacing

  /** A token after scaling by the multiplier: only an unsigned bare number is scaled. */
  function ScaleToken(t: string, multiplier: int): (r: string)
    ensures !IsLegacyNumber(t) ==> r == t
  {
    if IsLegacyNumber(t) then
      LegacyPatternIsUnsigned(t);
      ScaledPx(t, multiplier)
    else t
  }

  /** The tokens of a value after scaling, one for one. */
  function ScaleTokens(parts: seq<string>, multiplier: int): (r: seq<string>)
    ensures |r| == |parts|
    ensures forall i :: 0 <= i < |parts| ==> r[i] == ScaleToken(parts[i], multiplier)
  {
    if parts == [] then [] else [ScaleToken(parts[0], multiplier)] + ScaleTokens(parts[1..], multiplier)
  }

  /** Scaling one more token appends its scaled form. */
  lemma ScaleTokensSnoc(parts: seq<string>, t: string, multiplier: int)
    ensures ScaleTokens(parts + [t], multiplier) == ScaleTokens(parts, multiplier) + [ScaleToken(t, multiplier)]
  {
    var l, r := ScaleTokens(parts + [t], multiplier), ScaleTokens(parts, multiplier) + [ScaleToken(t, multiplier)];
    forall i | 0 <= i < |l| ensures l[i] == r[i] {
      assert (parts + [t])[i] == if i < |parts| then parts[i] else t;
    }
  }

  /** The scaled tokens of one more token of a list. */
  lemma ScaleTokensPrefix(parts: seq<string>, i: nat, multiplier: int)
    requires i < |parts|
    ensures ScaleTokens(parts[..i + 1], multiplier) == ScaleTokens(parts[..i], multiplier) + [ScaleToken(parts[i], multiplier)]
  {
    assert parts[..i + 1] == parts[..i] + [parts[i]];
    ScaleTokensSnoc(parts[..i], parts[i], multiplier);
  }

  /**
   * The middleware rewrites the node: a multiplier other than 0 is given, and
   * the node is a declaration of a spacing property whose value has no
   * parentheses.
   */
  predicate Rewrites(multiplier: Option<int>, e: Element)
    reads e
  {
    && multiplier.Some? && multiplier.value != 0
    && e.kind == "decl"
    && e.props.PropText? && e.props.text in Spacing.KebabSpacingProperties()
    && e.children.Text? && !Spacing.HasParentheses(e.children.text)
  }

  /** The text the middleware gives a rewritten declaration. */
  function SpacedDeclaration(prop: string, value: string, multiplier: int): string {
    prop + ":" + Join(ScaleTokens(Tokens(value), multiplier), " ") + ";"
  }

  /** The middleware applied to one node: a declaration it rewrites gets the scaled declaration as its output. */
  method Apply(multiplier: Option<int>, e: Element)
    modifies e`output
    ensures !old(Rewrites(multiplier, e)) ==> e.output == old(e.output)
    ensures old(Rewrites(multiplier, e)) ==> e.output == SpacedDeclaration(e.props.text, e.children.text, multiplier.value)
  {
    // The source checks the multiplier and node type, then the property and
    // the value's type, then the parentheses; each check returns on failure.
    if !Rewrites(multiplier, e) {
      return;
    }
    var prop, value := e.props.text, e.children.text;
    var transformed := ScaleAll(Tokens(value), multiplier.value);
    e.output := prop + ":" + Join(transformed, " ") + ";";
  }

  /** The loop over the value's tokens: every unsigned bare number is multiplied, the rest kept, in order. */
  method ScaleAll(parts: seq<string>, multiplier: int) returns (transformed: seq<string>)
    ensures transformed == ScaleTokens(parts, multiplier)
  {
    transformed := [];
    for i := 0 to |parts|
      invariant transformed == ScaleTokens(parts[..i], multiplier)
    {
      ScaleTokensPrefix(parts, i, multiplier);
      transformed := transformed + [ScaleToken(parts[i], multiplier)];
    }
    assert parts[..|parts|] == parts;
  }

  // ---------------------------------------------------------------------------
  // properties

  /** On a token without a leading `-` the two middlewares agree, the multiplier playing the base. */
  lemma AgreesOnUnsigned(t: string, multiplier: int)
    requires t == [] || t[0] != '-'
    ensures ScaleToken(t, multiplier) == Spacing.ScaleToken(t, multiplier)
  {
    LegacyPatternIsUnsigned(t);
  }

  /** So on values without a token starting with `-`, the declarations written are the same. */
  lemma AgreesWithoutNegatives(prop: string, value: string, multiplier: int)
    requires forall i :: 0 <= i < |Tokens(value)| ==> Tokens(value)[i] == [] || Tokens(value)[i][0] != '-'
    ensures SpacedDeclaration(prop, value, multiplier) == Spacing.SpacedDeclaration(prop, value, multiplier)
  {
    var parts := Tokens(value);
    forall i | 0 <= i < |parts| ensures ScaleToken(parts[i], multiplier) == Spacing.ScaleToken(parts[i], multiplier) {
      AgreesOnUnsigned(parts[i], multiplier);
    }
    assert ScaleTokens(parts, multiplier) == Spacing.ScaleTokens(parts, multiplier);
  }

  /** A negative number is left as it is by the earlier middleware, and scaled by the newer one. */
  lemma NegativeDiffers(n: nat, multiplier: int)
    ensures ScaleToken("-" + NatToString(n), multiplier) == "-" + NatToString(n)
    ensures Spacing.ScaleToken("-" + NatToString(n), multiplier) == IntToString(-(n * multiplier)) + "px"
  {
    var t := "-" + NatToString(n);
    ScaleNegativeInteger(n, multiplier);
    LegacyPatternIsUnsigned(t);
    assert !IsDigit(t[0]);
    forall i | 0 <= i < |t| ensures !PointAt(t, i) {
      if i > 0 {
        assert t[..i][0] == '-';
      }
    }
  }

  /** With base 0 the newer middleware still rewrites, writing every number as `0px`. */
  lemma ZeroBaseGivesZeroPx(n: nat)
    ensures Spacing.ScaleToken(NatToString(n), 0) == "0px"
  {
    ParseNatToString(n);
    ScaleInteger(n, 0);
    assert IntToString(0) == "0";
  }
}

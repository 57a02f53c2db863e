/**
 * Camel-case to kebab-case conversion of CSS property names
 * (`str.replace(/([a-z0-9])([A-Z])/g, '$1-$2').toLowerCase()`).
 */
module Kebab {
  import opened Text

  predicate IsLowerOrDigit(c: char) { IsLowerAscii(c) || IsDigit(c) }

  /** There is a boundary at i when a lower-case letter or digit is followed by an upper-case letter. */
  predicate BoundaryAt(s: string, i: int) {
    0 <= i && i + 1 < |s| && IsLowerOrDigit(s[i]) && IsUpperAscii(s[i + 1])
  }

  /**
   * The global replace: scanning left to right, each match `xY` becomes `x-Y`
   * and scanning resumes after `Y`.
   */
  function Hyphenate(s: string): (r: string)
    ensures |r| >= |s|
    decreases |s|
  {
    if |s| >= 2 && IsLowerOrDigit(s[0]) && IsUpperAscii(s[1]) then [s[0], '-', s[1]] + Hyphenate(s[2..])
    else if s == [] then []
    else [s[0]] + Hyphenate(s[1..])
  }

  /** `toKebabCase` */
  function KebabCase(s: string): (r: string)
    ensures HasNoUpperAscii(r)
  {
    LowerAscii(Hyphenate(s))
  }

  /** The only character Hyphenate introduces is `-`. */
  lemma {:induction false} HyphenateChars(s: string)
    ensures forall c :: c in Hyphenate(s) ==> c in s || c == '-'
    decreases |s|
  {
    if |s| >= 2 && IsLowerOrDigit(s[0]) && IsUpperAscii(s[1]) {
      HyphenateChars(s[2..]);
    } else if s != [] {
      HyphenateChars(s[1..]);
    }
  }

  /** Kebab-casing introduces no character other than `-` and lower-case letters. */
  lemma KebabCaseChars(s: string, c: char)
    requires c != '-' && !IsLetterAscii(c) && c !in s
    ensures c !in KebabCase(s)
  {
    var h := Hyphenate(s);
    HyphenateChars(s);
  }

  /** Without upper-case letters there is nothing to hyphenate. */
  lemma {:induction false} HyphenateNoUpper(s: string)
    requires HasNoUpperAscii(s)
    ensures Hyphenate(s) == s
    decreases |s|
  {
    if s != [] {
      assert !IsUpperAscii(s[0]);
      if |s| >= 2 {
        assert !IsUpperAscii(s[1]);
      }
      HyphenateNoUpper(s[1..]);
      assert s == [s[0]] + s[1..];
    }
  }

  /** Hyphens are inserted only at boundaries: with no boundary, Hyphenate changes nothing. */
  lemma {:induction false} HyphenateNoBoundary(s: string)
    requires forall i :: 0 <= i < |s| ==> !BoundaryAt(s, i)
    ensures Hyphenate(s) == s
    decreases |s|
  {
    if s != [] {
      assert !BoundaryAt(s, 0);
      forall i | 0 <= i < |s| - 1 ensures !BoundaryAt(s[1..], i) {
        assert !BoundaryAt(s, i + 1);
      }
      HyphenateNoBoundary(s[1..]);
      assert s == [s[0]] + s[1..];
    }
  }

  /** Converting twice is converting once. */
  lemma KebabCaseIdempotent(s: string)
    ensures KebabCase(KebabCase(s)) == KebabCase(s)
  {
    var k := KebabCase(s);
    HyphenateNoUpper(k);
    LowerAsciiIdempotent(k);
  }

  /** A name without boundaries is only lower-cased. */
  lemma KebabCaseWithoutBoundary(s: string)
    requires forall i :: 0 <= i < |s| ==> !BoundaryAt(s, i)
    ensures KebabCase(s) == LowerAscii(s)
  {
    HyphenateNoBoundary(s);
  }

  /** The scan at a match: `xY` is written `x-Y` and the scan resumes after `Y`. */
  lemma HyphenatePair(s: string)
    requires |s| >= 2 && IsLowerOrDigit(s[0]) && IsUpperAscii(s[1])
    ensures Hyphenate(s) == [s[0], '-', s[1]] + Hyphenate(s[2..])
  {
  }

  /** The scan elsewhere: the first character is kept and the scan resumes after it. */
  lemma HyphenateStep(s: string)
    requires s != [] && !(|s| >= 2 && IsLowerOrDigit(s[0]) && IsUpperAscii(s[1]))
    ensures Hyphenate(s) == [s[0]] + Hyphenate(s[1..])
  {
  }

  /**
   * The scan reaches a boundary between p and w fresh, whatever p holds: the
   * last character of p is not upper-case, so no earlier match consumes it.
   */
  lemma {:induction false} HyphenateAtBoundary(p: string, w: string)
    requires p != [] && IsLowerOrDigit(p[|p| - 1])
    requires w != [] && IsUpperAscii(w[0])
    ensures Hyphenate(p + w) == Hyphenate(p) + "-" + [w[0]] + Hyphenate(w[1..])
    decreases |p|, 1
  {
    if |p| == 1 {
      BoundaryAfterOne(p, w);
    } else if IsLowerOrDigit(p[0]) && IsUpperAscii(p[1]) {
      BoundaryAfterPair(p, w);
    } else {
      BoundaryAfterStep(p, w);
    }
  }

  /** A one-character p: the boundary is the first match. */
  lemma BoundaryAfterOne(p: string, w: string)
    requires |p| == 1 && IsLowerOrDigit(p[0])
    requires w != [] && IsUpperAscii(w[0])
    ensures Hyphenate(p + w) == Hyphenate(p) + "-" + [w[0]] + Hyphenate(w[1..])
  {
    var s := p + w;
    assert s[0] == p[0] && s[1] == w[0] && s[2..] == w[1..];
    HyphenatePair(s);
    assert p[1..] == [];
    HyphenateStep(p);
  }

  /** p starts with a match: both scans write it and resume after it. */
  lemma {:induction false} BoundaryAfterPair(p: string, w: string)
    requires |p| >= 2 && IsLowerOrDigit(p[|p| - 1]) && IsLowerOrDigit(p[0]) && IsUpperAscii(p[1])
    requires w != [] && IsUpperAscii(w[0])
    ensures Hyphenate(p + w) == Hyphenate(p) + "-" + [w[0]] + Hyphenate(w[1..])
    decreases |p|, 0
  {
    var s, q := p + w, p[2..];
    assert |p| != 2 by {
      assert !IsLowerOrDigit(p[1]);
    }
    assert q[|q| - 1] == p[|p| - 1];
    assert s[0] == p[0] && s[1] == p[1] && s[2..] == q + w;
    HyphenatePair(s);
    HyphenatePair(p);
    HyphenateAtBoundary(q, w);
    var head, hq, t := [p[0], '-', p[1]], Hyphenate(q), Hyphenate(w[1..]);
    assert head + (hq + "-" + [w[0]] + t) == (head + hq) + "-" + [w[0]] + t;
  }

  /** p starts without a match: both scans keep its first character and resume after it. */
  lemma {:induction false} BoundaryAfterStep(p: string, w: string)
    requires |p| >= 2 && IsLowerOrDigit(p[|p| - 1]) && !(IsLowerOrDigit(p[0]) && IsUpperAscii(p[1]))
    requires w != [] && IsUpperAscii(w[0])
    ensures Hyphenate(p + w) == Hyphenate(p) + "-" + [w[0]] + Hyphenate(w[1..])
    decreases |p|, 0
  {
    var s, q := p + w, p[1..];
    assert q[|q| - 1] == p[|p| - 1];
    assert s[0] == p[0] && s[1] == p[1] && s[1..] == q + w;
    HyphenateStep(s);
    HyphenateStep(p);
    HyphenateAtBoundary(q, w);
    var head, hq, t := [p[0]], Hyphenate(q), Hyphenate(w[1..]);
    assert head + (hq + "-" + [w[0]] + t) == (head + hq) + "-" + [w[0]] + t;
  }

  /** After its capital, a capitalised word holds no upper-case letter, so the scan leaves it alone. */
  lemma {:induction false} CapitalisedTail(w: string)
    requires w != [] && forall i :: 1 <= i < |w| ==> IsLowerAscii(w[i])
    ensures Hyphenate(w[1..]) == w[1..]
  {
    var tail := w[1..];
    assert HasNoUpperAscii(tail) by {
      forall i | 0 <= i < |tail| ensures !IsUpperAscii(tail[i]) {
        assert tail[i] == w[i + 1];
      }
    }
    HyphenateNoUpper(tail);
  }

  /** A capitalised word after a lower-case letter or digit gets one `-` before it, whatever precedes it. */
  lemma {:induction false} HyphenateBoundaryAppend(p: string, w: string)
    requires p != [] && IsLowerOrDigit(p[|p| - 1])
    requires w != [] && IsUpperAscii(w[0])
    requires forall i :: 1 <= i < |w| ==> IsLowerAscii(w[i])
    ensures Hyphenate(p + w) == Hyphenate(p) + "-" + w
  {
    HyphenateAtBoundary(p, w);
    CapitalisedTail(w);
    HyphenBeforeWord(Hyphenate(p), w);
  }

  /** A word is its first character followed by the rest. */
  lemma HyphenBeforeWord(h: string, w: string)
    requires w != []
    ensures h + "-" + [w[0]] + w[1..] == h + "-" + w
  {
    assert w == [w[0]] + w[1..];
  }

  /** Lower-casing works character by character, so it distributes over concatenation. */
  lemma {:induction false} LowerAsciiAppend(a: string, b: string)
    ensures LowerAscii(a + b) == LowerAscii(a) + LowerAscii(b)
  {
    assert forall i :: 0 <= i < |a| ==> (a + b)[i] == a[i];
    assert forall i :: |a| <= i < |a + b| ==> (a + b)[i] == b[i - |a|];
  }

  /** `toKebabCase(p + "Word") == toKebabCase(p) + "-word"` when p ends in a lower-case letter or digit. */
  lemma {:induction false} KebabCaseAppendWord(p: string, w: string)
    requires p != [] && IsLowerOrDigit(p[|p| - 1])
    requires w != [] && IsUpperAscii(w[0])
    requires forall i :: 1 <= i < |w| ==> IsLowerAscii(w[i])
    ensures KebabCase(p + w) == KebabCase(p) + "-" + LowerAscii(w)
  {
    HyphenateBoundaryAppend(p, w);
    LowerAsciiAppend(Hyphenate(p) + "-", w);
    LowerAsciiAppend(Hyphenate(p), "-");
  }

  /** `fontSize` becomes `font-size`. */
  lemma FontSizeExample()
    ensures KebabCase("font" + "Size") == "font" + "-" + "size"
  {
    var p, w := "font", "Size";
    assert forall i :: 0 <= i < |p| ==> IsLowerOrDigit(p[i]);
    assert forall i :: 1 <= i < |w| ==> IsLowerAscii(w[i]);
    KebabCaseAppendWord(p, w);
    assert KebabCase(p) == p by {
      HyphenateNoUpper(p);
      LowerAsciiIdempotent(p);
    }
    assert LowerAscii(w) == "size" by {
      assert LowerAscii(w) == [LowerChar('S')] + LowerAscii("ize");
    }
  }

  /** A lower-case name followed by two capitalised words (the first of two letters or more) gets a `-` before each word, and the words are lower-cased. */
  lemma KebabCaseTwoWords(p: string, w1: string, w2: string)
    requires p != [] && HasNoUpperAscii(p) && IsLowerOrDigit(p[|p| - 1])
    requires |w1| >= 2 && IsUpperAscii(w1[0]) && forall i :: 1 <= i < |w1| ==> IsLowerAscii(w1[i])
    requires w2 != [] && IsUpperAscii(w2[0]) && forall i :: 1 <= i < |w2| ==> IsLowerAscii(w2[i])
    ensures KebabCase(p + w1 + w2) == p + "-" + LowerAscii(w1) + "-" + LowerAscii(w2)
  {
    HyphenateNoUpper(p);
    LowerAsciiIdempotent(p);
    KebabCaseAppendWord(p, w1);
    var pw := p + w1;
    assert pw[|pw| - 1] == w1[|w1| - 1];
    assert IsLowerOrDigit(pw[|pw| - 1]);
    KebabCaseAppendWord(pw, w2);
  }

  /** Lower-casing a capitalised word lowers its capital only. */
  lemma LowerCapitalised(w: string)
    requires w != [] && forall i :: 1 <= i < |w| ==> IsLowerAscii(w[i])
    ensures LowerAscii(w) == [LowerChar(w[0])] + w[1..]
  {
  }

  /** A name with two boundaries: `paddingBlockStart` becomes `padding-block-start`. */
  lemma PaddingBlockStartExample()
    ensures KebabCase("padding" + "Block" + "Start") == "padding" + "-" + "block" + "-" + "start"
  {
    var p, w1, w2 := "padding", "Block", "Start";
    assert HasNoUpperAscii(p);
    assert forall i :: 1 <= i < |w1| ==> IsLowerAscii(w1[i]);
    assert forall i :: 1 <= i < |w2| ==> IsLowerAscii(w2[i]);
    KebabCaseTwoWords(p, w1, w2);
    LowerCapitalised(w1);
    LowerCapitalised(w2);
    assert LowerChar('B') == 'b' && LowerChar('S') == 's';
    assert [LowerChar(w1[0])] + w1[1..] == "block";
    assert [LowerChar(w2[0])] + w2[1..] == "start";
  }
}

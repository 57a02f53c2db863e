/**
 * The class-name helpers: `hashString`, the djb2-style hash (with XOR) that
 * names a style by its CSS text, and `makeClassName`, which joins the class
 * names a component ends up with.
 */
module Utils {
  import opened Wrappers
  import opened Text

  /** A JavaScript string is a sequence of UTF-16 code units; `charCodeAt` reads one. */
  type CodeUnit = bv16

  /**
   * The hash state after the code units s, as the 32-bit pattern JavaScript
   * keeps: `hash * 33` is exact in a double (|hash| < 2^31), and `^` truncates
   * it to its low 32 bits before the XOR, which is multiplication modulo 2^32.
   */
  function HashState(s: seq<CodeUnit>): bv32 {
    if s == [] then 5381 else (HashState(s[..|s| - 1]) * 33) ^ (s[|s| - 1] as bv32)
  }

  /**
   * `hashString`: the loop over the code units, then `(hash >>> 0).toString(36)`,
   * the unsigned value of the 32-bit state in base 36.
   */
  method HashString(s: seq<CodeUnit>) returns (r: string)
    ensures 1 <= |r| <= 7
    ensures forall i :: 0 <= i < |r| ==> IsDigit(r[i]) || IsLowerAscii(r[i])
    ensures ParseRadix(r, 36) == HashState(s) as nat
    ensures |r| > 1 ==> r[0] != '0'
    ensures r == NatToRadix(HashState(s) as nat, 36)
  {
    var hash: bv32 := 5381;
    for i := 0 to |s|
      invariant hash == HashState(s[..i])
    {
      assert s[..i + 1][..i] == s[..i];
      hash := (hash * 33) ^ (s[i] as bv32);
    }
    assert s[..|s|] == s;
    r := NatToRadix(hash as nat, 36);
    HashText(hash);
    RadixLeadingDigit(hash as nat, 36);
  }

  /** The base-36 text of a 32-bit state: 1 to 7 characters of `[0-9a-z]` that read back as the state. */
  lemma HashText(h: bv32)
    ensures var r := NatToRadix(h as nat, 36);
      && 1 <= |r| <= 7
      && (forall i :: 0 <= i < |r| ==> IsDigit(r[i]) || IsLowerAscii(r[i]))
      && ParseRadix(r, 36) == h as nat
  {
    assert Pow(36, 7) == 78364164096 by {
      assert Pow(36, 1) == 36;
      assert Pow(36, 2) == 1296;
      assert Pow(36, 3) == 46656;
      assert Pow(36, 4) == 1679616;
      assert Pow(36, 5) == 60466176;
      assert Pow(36, 6) == 2176782336;
    }
    RadixLength(h as nat, 36, 7);
    RadixRoundTrip(h as nat, 36);
  }

  /**
   * The first four ensures of HashString already fix its result: a base-36
   * text without a redundant leading `0` that reads back as the state is the
   * one `toString(36)` writes, so equal inputs give equal class names.
   */
  lemma HashTextUnique(s: seq<CodeUnit>, t: string)
    requires 1 <= |t| <= 7
    requires forall i :: 0 <= i < |t| ==> IsDigit(t[i]) || IsLowerAscii(t[i])
    requires ParseRadix(t, 36) == HashState(s) as nat
    requires |t| > 1 ==> t[0] != '0'
    ensures t == NatToRadix(HashState(s) as nat, 36)
  {
    RadixCanonical(t, 36);
  }

  /** The empty string hashes to the initial state 5381. */
  lemma EmptyHash()
    ensures HashState([]) == 5381
  {
  }

  /** One step of the loop: `a` (97) takes 5381 to 5381 * 33 XOR 97 = 177604. */
  lemma HashOfA()
    ensures HashState([97]) == 177604
  {
    assert [97 as CodeUnit][..0] == [];
  }

  // ---------------------------------------------------------------------------
  // makeClassName

  /** A class-name entry: `undefined` or a string. */
  type ClassNameEntry = Option<string>

  /** `classNames.filter(Boolean)`: `undefined` and `''` are falsy, every other string is kept, in order. */
  function PresentNames(classNames: seq<ClassNameEntry>): (r: seq<string>)
    ensures forall i :: 0 <= i < |r| ==> r[i] != ""
    ensures forall i :: 0 <= i < |classNames| && classNames[i].Some? && classNames[i].value != "" ==> classNames[i].value in r
    ensures forall i :: 0 <= i < |r| ==> Some(r[i]) in classNames
    ensures |r| <= |classNames|
  {
    if classNames == [] then []
    else
      var rest := PresentNames(classNames[1..]);
      assert forall i :: 1 <= i < |classNames| ==> classNames[i] == classNames[1..][i - 1];
      assert forall i :: 0 <= i < |rest| ==> Some(rest[i]) in classNames by {
        forall i | 0 <= i < |rest| ensures Some(rest[i]) in classNames {
          assert Some(rest[i]) in classNames[1..];
        }
      }
      match classNames[0]
      case Some(n) => if n != "" then [n] + rest else rest
      case None => rest
  }

  /** The filter keeps the given order: the names of a concatenation are those of each part, one after the other. */
  lemma {:induction false} PresentNamesAppend(a: seq<ClassNameEntry>, b: seq<ClassNameEntry>)
    ensures PresentNames(a + b) == PresentNames(a) + PresentNames(b)
  {
    if a == [] {
      assert a + b == b;
    } else {
      assert (a + b)[0] == a[0];
      assert (a + b)[1..] == a[1..] + b;
      PresentNamesAppend(a[1..], b);
    }
  }

  /** `makeClassName`: the present names joined by single spaces, trimmed. */
  function MakeClassName(classNames: seq<ClassNameEntry>): (r: string)
    ensures r == [] || (!IsSpace(r[0]) && !IsSpace(r[|r| - 1]))
  {
    Trim(Join(PresentNames(classNames), " "))
  }

  /** No names, or only falsy ones, give the empty class name. */
  lemma NoNamesEmpty(classNames: seq<ClassNameEntry>)
    requires forall i :: 0 <= i < |classNames| ==> classNames[i].None? || classNames[i].value == ""
    ensures MakeClassName(classNames) == ""
  {
  }

  /**
   * Class names without whitespace are written in order, one space apart, and
   * splitting the result at whitespace gives them back.
   */
  lemma ClassNamesRoundTrip(classNames: seq<ClassNameEntry>)
    requires forall i :: 0 <= i < |classNames| && classNames[i].Some? ==> NoSpace(classNames[i].value)
    requires PresentNames(classNames) != []
    ensures MakeClassName(classNames) == Join(PresentNames(classNames), " ")
    ensures SplitWs(MakeClassName(classNames)) == PresentNames(classNames)
  {
    var names := PresentNames(classNames);
    forall i | 0 <= i < |names| ensures NoSpace(names[i]) {
      var k :| 0 <= k < |classNames| && classNames[k] == Some(names[i]);
    }
    JoinedWordsTrimmed(names);
    SplitWsJoin(names);
  }
}

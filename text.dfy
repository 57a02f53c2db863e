/**
 * String primitives of the JavaScript runtime that the style pipeline leans on:
 * `Array.prototype.join`, `String.prototype.trim`, `split(/\s+/)`, `split(c)`,
 * `startsWith`, ASCII case mapping and `Number.prototype.toString(radix)`.
 * Strings are sequences of characters; the JavaScript whitespace class `\s`
 * (which is also the set `trim` removes) is spelled out in IsSpace.
 */
module Text {

  /** JavaScript `\s`: WhiteSpace and LineTerminator code points. */
  predicate IsSpace(c: char) {
    c == '\t' || c == '\n' || c == '\U{B}' || c == '\U{C}' || c == '\r' || c == ' '
    || c == '\U{A0}' || c == '\U{1680}' || ('\U{2000}' <= c <= '\U{200A}')
    || c == '\U{2028}' || c == '\U{2029}' || c == '\U{202F}' || c == '\U{205F}'
    || c == '\U{3000}' || c == '\U{FEFF}'
  }

  predicate NoSpace(s: string) {
    forall i :: 0 <= i < |s| ==> !IsSpace(s[i])
  }

  predicate IsDigit(c: char) { '0' <= c <= '9' }
  predicate IsUpperAscii(c: char) { 'A' <= c <= 'Z' }
  predicate IsLowerAscii(c: char) { 'a' <= c <= 'z' }
  predicate IsLetterAscii(c: char) { IsUpperAscii(c) || IsLowerAscii(c) }

  predicate AllDigits(s: string) {
    forall i :: 0 <= i < |s| ==> IsDigit(s[i])
  }

  predicate AllLetters(s: string) {
    forall i :: 0 <= i < |s| ==> IsLetterAscii(s[i])
  }

  predicate HasNoUpperAscii(s: string) {
    forall i :: 0 <= i < |s| ==> !IsUpperAscii(s[i])
  }

  /** `s.startsWith(p)` */
  predicate StartsWith(s: string, p: string) {
    |p| <= |s| && s[..|p|] == p
  }

  /** ASCII lower-casing of one character; every other character is kept. */
  function LowerChar(c: char): (r: char)
    ensures !IsUpperAscii(r)
    ensures IsUpperAscii(c) ==> IsLowerAscii(r) && r as int == c as int + 32
    ensures !IsUpperAscii(c) ==> r == c
  {
    if IsUpperAscii(c) then (c as int + 32) as char else c
  }

  /** `toLowerCase()` restricted to ASCII letters. */
  function LowerAscii(s: string): (r: string)
    ensures |r| == |s| && HasNoUpperAscii(r)
    ensures forall i :: 0 <= i < |s| ==> r[i] == LowerChar(s[i])
  {
    seq(|s|, i requires 0 <= i < |s| => LowerChar(s[i]))
  }

  /** Equality under ASCII case folding (the `i` flag of a non-Unicode regular expression on an ASCII pattern). */
  predicate EqualsIgnoreCase(a: string, b: string) {
    |a| == |b| && forall i :: 0 <= i < |a| ==> LowerChar(a[i]) == LowerChar(b[i])
  }

  lemma LowerAsciiIdempotent(s: string)
    requires HasNoUpperAscii(s)
    ensures LowerAscii(s) == s
  {
  }

  // ---------------------------------------------------------------------------
  // join

  /** `parts.join(sep)` */
  function Join(parts: seq<string>, sep: string): (r: string)
    ensures |parts| == 0 ==> r == ""
    ensures |parts| == 1 ==> r == parts[0]
  {
    if |parts| == 0 then ""
    else if |parts| == 1 then parts[0]
    else parts[0] + sep + Join(parts[1..], sep)
  }

  /** Joining one more part appends the separator and that part. */
  lemma {:induction false} JoinSnoc(parts: seq<string>, x: string, sep: string)
    requires |parts| > 0
    ensures Join(parts + [x], sep) == Join(parts, sep) + sep + x
  {
    if |parts| == 1 {
      assert parts + [x] == [parts[0], x];
    } else {
      assert (parts + [x])[1..] == parts[1..] + [x];
      JoinSnoc(parts[1..], x, sep);
    }
  }

  /** A join begins with its first part. */
  lemma {:induction false} JoinStartsWithFirst(parts: seq<string>, sep: string)
    requires |parts| > 0
    ensures StartsWith(Join(parts, sep), parts[0])
  {
  }

  /** Joining parts that carry no whitespace, with a whitespace-free separator, yields no whitespace. */
  lemma {:induction false} JoinNoSpace(parts: seq<string>, sep: string)
    requires NoSpace(sep)
    requires forall i :: 0 <= i < |parts| ==> NoSpace(parts[i])
    ensures NoSpace(Join(parts, sep))
  {
    if |parts| > 1 {
      JoinNoSpace(parts[1..], sep);
    }
  }

  /** Joining parts none of which contains character c, with a separator without c, gives no c. */
  lemma {:induction false} JoinAvoids(parts: seq<string>, sep: string, c: char)
    requires c !in sep
    requires forall i :: 0 <= i < |parts| ==> c !in parts[i]
    ensures c !in Join(parts, sep)
  {
    if |parts| > 1 {
      JoinAvoids(parts[1..], sep, c);
    }
  }

  // ---------------------------------------------------------------------------
  // trim

  /** `trimStart()` */
  function TrimStart(s: string): (r: string)
    ensures |r| <= |s| && r == s[|s| - |r|..]
    ensures r == [] || !IsSpace(r[0])
    ensures forall i :: 0 <= i < |s| - |r| ==> IsSpace(s[i])
    ensures s != [] && IsSpace(s[0]) ==> |r| < |s|
  {
    if s != [] && IsSpace(s[0]) then TrimStart(s[1..]) else s
  }

  /** `trimEnd()` */
  function TrimEnd(s: string): (r: string)
    ensures |r| <= |s| && r == s[..|r|]
    ensures r == [] || !IsSpace(r[|r| - 1])
    ensures forall i :: |r| <= i < |s| ==> IsSpace(s[i])
  {
    if s != [] && IsSpace(s[|s| - 1]) then TrimEnd(s[..|s| - 1]) else s
  }

  /** `trim()`: the longest slice of s with no whitespace at either end; what is cut off is whitespace. */
  function Trim(s: string): (r: string)
    ensures |r| <= |s|
    ensures r == [] || (!IsSpace(r[0]) && !IsSpace(r[|r| - 1]))
    ensures NoSpace(s) ==> r == s
  {
    TrimEnd(TrimStart(s))
  }

  /** A slice holds no character its sequence lacks. */
  lemma SliceAvoids(s: string, i: nat, j: nat, d: char)
    requires i <= j <= |s| && d !in s
    ensures d !in s[i..j]
  {
    forall k | 0 <= k < j - i ensures s[i..j][k] != d {
      assert s[i..j][k] == s[i + k];
    }
  }

  /** Trimming adds no character: one absent from s is absent from its trimmed form. */
  lemma TrimAvoids(s: string, d: char)
    requires d !in s
    ensures d !in Trim(s)
  {
    var a := TrimStart(s);
    SliceAvoids(s, |s| - |a|, |s|, d);
    SliceAvoids(a, 0, |TrimEnd(a)|, d);
  }

  /** Whitespace only (possibly empty). */
  predicate AllSpace(s: string) {
    forall i :: 0 <= i < |s| ==> IsSpace(s[i])
  }

  /** Leading whitespace before a non-space is skipped by `trimStart()`. */
  lemma {:induction false} TrimStartSkips(ws: string, rest: string)
    requires AllSpace(ws) && (rest == [] || !IsSpace(rest[0]))
    ensures TrimStart(ws + rest) == rest
    decreases |ws|
  {
    if ws != [] {
      assert (ws + rest)[1..] == ws[1..] + rest;
      TrimStartSkips(ws[1..], rest);
    } else {
      assert ws + rest == rest;
    }
  }

  /** Trailing whitespace after a non-space is dropped by `trimEnd()`. */
  lemma {:induction false} TrimEndSkips(s: string, ws: string)
    requires AllSpace(ws) && (s == [] || !IsSpace(s[|s| - 1]))
    ensures TrimEnd(s + ws) == s
    decreases |ws|
  {
    if ws != [] {
      assert (s + ws)[..|s + ws| - 1] == s + ws[..|ws| - 1];
      TrimEndSkips(s, ws[..|ws| - 1]);
    } else {
      assert s + ws == s;
    }
  }

  /** Whitespace around a string with non-space ends is what `trim()` removes. */
  lemma TrimPadded(ws1: string, s: string, ws2: string)
    requires AllSpace(ws1) && AllSpace(ws2)
    requires s != [] && !IsSpace(s[0]) && !IsSpace(s[|s| - 1])
    ensures Trim(ws1 + s + ws2) == s
  {
    assert ws1 + s + ws2 == ws1 + (s + ws2);
    TrimStartSkips(ws1, s + ws2);
    TrimEndSkips(s, ws2);
  }

  /** A string with non-space ends is its own trim. */
  lemma TrimUnpadded(s: string)
    requires s != [] && !IsSpace(s[0]) && !IsSpace(s[|s| - 1])
    ensures Trim(s) == s
  {
    assert AllSpace("") && "" + s + "" == s;
    TrimPadded("", s, "");
  }

  /** A join of non-empty parts starts with the first part's first character and ends with the last part's last. */
  lemma {:induction false} JoinEnds(parts: seq<string>, sep: string)
    requires |parts| > 0 && forall i :: 0 <= i < |parts| ==> parts[i] != []
    ensures var j := Join(parts, sep);
      j != [] && j[0] == parts[0][0] && j[|j| - 1] == parts[|parts| - 1][|parts[|parts| - 1]| - 1]
  {
    if |parts| > 1 {
      JoinEnds(parts[1..], sep);
    }
  }

  // ---------------------------------------------------------------------------
  // split

  /**
   * `s.split(/\s+/)`: the pieces between maximal runs of whitespace. A leading or
   * trailing run yields an empty first or last piece; the empty string yields [""].
   */
  function SplitWs(s: string): (r: seq<string>)
    ensures |r| >= 1
    ensures forall i :: 0 <= i < |r| ==> NoSpace(r[i])
    decreases |s|
  {
    if s == [] then [""]
    else if IsSpace(s[0]) then [""] + SplitWs(TrimStart(s))
    else
      var rest := SplitWs(s[1..]);
      [[s[0]] + rest[0]] + rest[1..]
  }

  /** `s.trim().split(/\s+/)`: whitespace tokens of a value. */
  function Tokens(s: string): (r: seq<string>)
    ensures |r| >= 1
    ensures forall i :: 0 <= i < |r| ==> NoSpace(r[i])
    ensures Trim(s) == "" ==> r == [""]
    ensures Trim(s) != "" ==> forall i :: 0 <= i < |r| ==> r[i] != ""
  {
    var t := Trim(s);
    SplitWsTrimmed(t);
    SplitWs(t)
  }

  /** The pieces of a string without whitespace at either end: [""] for the empty string, otherwise all non-empty. */
  lemma SplitWsTrimmed(t: string)
    requires t == [] || (!IsSpace(t[0]) && !IsSpace(t[|t| - 1]))
    ensures t == [] ==> SplitWs(t) == [""]
    ensures t != [] ==> forall i :: 0 <= i < |SplitWs(t)| ==> SplitWs(t)[i] != ""
  {
    if t != [] {
      SplitWsNonEmptyPieces(t);
    }
  }

  /** Without whitespace at its end, every piece after the first is non-empty, and so is the first when s starts with a non-space. */
  lemma {:induction false} SplitWsNonEmptyPieces(s: string)
    requires s == [] || !IsSpace(s[|s| - 1])
    ensures forall i :: 1 <= i < |SplitWs(s)| ==> SplitWs(s)[i] != ""
    ensures s != [] && !IsSpace(s[0]) ==> SplitWs(s)[0] != ""
    decreases |s|
  {
    if s == [] {
    } else if IsSpace(s[0]) {
      var t := TrimStart(s);
      assert !IsSpace(s[|s| - 1]);
      assert t != [];
      assert t[|t| - 1] == s[|s| - 1];
      SplitWsNonEmptyPieces(t);
    } else {
      SplitWsNonEmptyPieces(s[1..]);
    }
  }

  /** A string without whitespace is a single piece. */
  lemma {:induction false} SplitWsNoSpace(s: string)
    requires NoSpace(s)
    ensures SplitWs(s) == [s]
    decreases |s|
  {
    if s != [] {
      assert !IsSpace(s[0]);
      SplitWsNoSpace(s[1..]);
      assert s == [s[0]] + s[1..];
    }
  }

  /** A non-empty whitespace-free word followed by one space splits off as one piece. */
  lemma {:induction false} SplitWsWordSpace(t: string, u: string)
    requires t != [] && NoSpace(t)
    requires u == [] || !IsSpace(u[0])
    ensures SplitWs(t + " " + u) == [t] + SplitWs(u)
    decreases |t|
  {
    var s := t + " " + u;
    assert s[0] == t[0] && !IsSpace(s[0]);
    var rest := SplitWs(s[1..]);
    assert SplitWs(s) == [[s[0]] + rest[0]] + rest[1..];
    if |t| == 1 {
      var v := " " + u;
      assert s[1..] == v;
      assert TrimStart(v) == u;
      assert rest == [""] + SplitWs(u);
      assert rest[0] == "" && rest[1..] == SplitWs(u);
      assert t == [s[0]] + rest[0];
    } else {
      assert s[1..] == t[1..] + " " + u;
      SplitWsWordSpace(t[1..], u);
      assert rest == [t[1..]] + SplitWs(u);
      assert t == [s[0]] + t[1..];
    }
  }

  /** Words without whitespace, joined by single spaces, have nothing for `trim()` to remove. */
  lemma JoinedWordsTrimmed(words: seq<string>)
    requires |words| >= 1
    requires forall i :: 0 <= i < |words| ==> words[i] != "" && NoSpace(words[i])
    ensures Trim(Join(words, " ")) == Join(words, " ")
  {
    JoinedWordsEnds(words);
    TrimUnpadded(Join(words, " "));
  }

  /** Words without whitespace, joined by single spaces, start and end with a non-space. */
  lemma JoinedWordsEnds(words: seq<string>)
    requires |words| >= 1
    requires forall i :: 0 <= i < |words| ==> words[i] != "" && NoSpace(words[i])
    ensures var j := Join(words, " "); j != [] && !IsSpace(j[0]) && !IsSpace(j[|j| - 1])
  {
    var first, last := words[0], words[|words| - 1];
    assert !IsSpace(first[0]) && !IsSpace(last[|last| - 1]);
    JoinEnds(words, " ");
  }



  /** Round trip: splitting words joined by single spaces gives the words back. */
  lemma {:induction false} SplitWsJoin(words: seq<string>)
    requires |words| >= 1
    requires forall i :: 0 <= i < |words| ==> words[i] != "" && NoSpace(words[i])
    ensures SplitWs(Join(words, " ")) == words
  {
    if |words| == 1 {
      SplitWsNoSpace(words[0]);
    } else {
      var rest := Join(words[1..], " ");
      JoinStartsWithFirst(words[1..], " ");
      assert rest[0] == words[1][0];
      SplitWsWordSpace(words[0], rest);
      SplitWsJoin(words[1..]);
      assert words == [words[0]] + words[1..];
    }
  }

  /** `s.split(c)` for a one-character separator. */
  function SplitOn(s: string, c: char): (r: seq<string>)
    ensures |r| >= 1
    ensures forall i :: 0 <= i < |r| ==> c !in r[i]
    decreases |s|
  {
    if s == [] then [""]
    else
      var rest := SplitOn(s[1..], c);
      if s[0] == c then [""] + rest else [[s[0]] + rest[0]] + rest[1..]
  }

  /** The index of the first c in t, or |t|. */
  function IndexOf(t: string, c: char): (r: nat)
    ensures r <= |t| && (r < |t| ==> t[r] == c)
    ensures forall j :: 0 <= j < r ==> t[j] != c
  {
    if t == [] then 0
    else if t[0] == c then 0
    else 1 + IndexOf(t[1..], c)
  }

  /** `parts.filter(Boolean)` over strings: the non-empty parts, in order. */
  function NonEmpty(parts: seq<string>): (r: seq<string>)
    ensures |r| <= |parts|
    ensures forall i :: 0 <= i < |r| ==> r[i] != "" && r[i] in parts
    ensures forall p :: p in parts && p != "" ==> p in r
  {
    if parts == [] then []
    else (if parts[0] == "" then [] else [parts[0]]) + NonEmpty(parts[1..])
  }

  /** `filter(Boolean)` keeps the order: the pieces of a concatenation are those of each part, one after the other. */
  lemma {:induction false} NonEmptyAppend(a: seq<string>, b: seq<string>)
    ensures NonEmpty(a + b) == NonEmpty(a) + NonEmpty(b)
  {
    if a == [] {
      assert a + b == b;
    } else {
      assert (a + b)[0] == a[0];
      assert (a + b)[1..] == a[1..] + b;
      NonEmptyAppend(a[1..], b);
    }
  }

  /** Filtering parts that are all non-empty keeps them all. */
  lemma {:induction false} NonEmptyKeepsAll(parts: seq<string>)
    requires forall i :: 0 <= i < |parts| ==> parts[i] != ""
    ensures NonEmpty(parts) == parts
  {
    if parts != [] {
      NonEmptyKeepsAll(parts[1..]);
    }
  }

  /** A string without the separator splits into itself. */
  lemma {:induction false} SplitOnAbsent(s: string, c: char)
    requires c !in s
    ensures SplitOn(s, c) == [s]
    decreases |s|
  {
    if s != [] {
      assert s[0] != c;
      SplitOnAbsent(s[1..], c);
      assert s == [s[0]] + s[1..];
    }
  }

  /** A string is what comes before position i, the character at i, and what comes after it. */
  lemma SplitAround(t: string, i: nat)
    requires i < |t|
    ensures t == t[..i] + [t[i]] + t[i + 1..]
  {
  }

  /** Splitting `a + [c] + b` where a has no c: a, then the pieces of b. */
  lemma {:induction false} SplitOnFirst(a: string, c: char, b: string)
    requires c !in a
    ensures SplitOn(a + [c] + b, c) == [a] + SplitOn(b, c)
    decreases |a|
  {
    var s := a + [c] + b;
    if a == [] {
      assert s[0] == c && s[1..] == b;
    } else {
      assert s[0] == a[0] && a[0] != c;
      assert s[1..] == a[1..] + [c] + b;
      SplitOnFirst(a[1..], c, b);
      assert a == [a[0]] + a[1..];
    }
  }

  /** Splitting a join on its one-character separator gives the parts back, when no part contains it. */
  lemma {:induction false} SplitOnJoin(parts: seq<string>, c: char)
    requires |parts| >= 1
    requires forall i :: 0 <= i < |parts| ==> c !in parts[i]
    ensures SplitOn(Join(parts, [c]), c) == parts
    decreases |parts|
  {
    if |parts| == 1 {
      SplitOnAbsent(parts[0], c);
    } else {
      assert Join(parts, [c]) == parts[0] + [c] + Join(parts[1..], [c]);
      SplitOnFirst(parts[0], c, Join(parts[1..], [c]));
      SplitOnJoin(parts[1..], c);
      assert parts == [parts[0]] + parts[1..];
    }
  }

  // ---------------------------------------------------------------------------
  // numbers

  function Pow(b: nat, k: nat): (r: nat)
    ensures b >= 1 ==> r >= 1
  {
    if k == 0 then 1 else b * Pow(b, k - 1)
  }

  /** The digit alphabet of `toString(radix)`: 0-9 then a-z. */
  function DigitChar(d: nat): (c: char)
    requires d < 36
    ensures IsDigit(c) || IsLowerAscii(c)
    ensures d < 10 <==> IsDigit(c)
    ensures DigitValue(c) == d
  {
    if d < 10 then (48 + d) as char else (97 + d - 10) as char
  }

  function DigitValue(c: char): (d: nat)
    requires IsDigit(c) || IsLowerAscii(c)
    ensures d < 36
  {
    if IsDigit(c) then c as int - 48 else c as int - 97 + 10
  }

  predicate IsRadixDigit(c: char, radix: nat) {
    (IsDigit(c) || IsLowerAscii(c)) && DigitValue(c) < radix
  }

  /** `n.toString(radix)` for a non-negative integer. */
  function NatToRadix(n: nat, radix: nat): (r: string)
    requires 2 <= radix <= 36
    ensures |r| >= 1
    ensures forall i :: 0 <= i < |r| ==> IsRadixDigit(r[i], radix)
    decreases n
  {
    if n < radix then [DigitChar(n)]
    else
      var q, d := n / radix, n % radix;
      DivDecreases(n, radix);
      NatToRadix(q, radix) + [DigitChar(d)]
  }

  /** Dividing by the radix makes a number no smaller than it smaller, and leaves a remainder below it. */
  lemma DivDecreases(n: nat, radix: nat)
    requires 2 <= radix <= n
    ensures n / radix < n && n % radix < radix
  {
  }

  lemma MulNonNegative(a: nat, b: nat)
    ensures a * b >= 0
  {
  }

  /** The number a string of radix digits denotes. */
  function ParseRadix(s: string, radix: nat): nat
    requires 2 <= radix <= 36
    requires forall i :: 0 <= i < |s| ==> IsRadixDigit(s[i], radix)
  {
    if s == [] then 0
    else
      var prefix, last := s[..|s| - 1], s[|s| - 1];
      assert forall i :: 0 <= i < |prefix| ==> prefix[i] == s[i];
      assert IsRadixDigit(last, radix);
      var p := ParseRadix(prefix, radix);
      MulNonNegative(p, radix);
      p * radix + DigitValue(last)
  }

  /** toString(radix) loses nothing: parsing the digits gives the number back. */
  lemma {:induction false} RadixRoundTrip(n: nat, radix: nat)
    requires 2 <= radix <= 36
    ensures ParseRadix(NatToRadix(n, radix), radix) == n
    decreases n
  {
    if n < radix {
      assert NatToRadix(n, radix) == [] + [DigitChar(n)];
      ParseRadixSnoc([], DigitChar(n), radix);
    } else {
      var q, d := n / radix, n % radix;
      var init := NatToRadix(q, radix);
      assert NatToRadix(n, radix) == init + [DigitChar(d)];
      DivLess(n, radix);
      RadixRoundTrip(q, radix);
      ParseRadixSnoc(init, DigitChar(d), radix);
      assert ParseRadix(NatToRadix(n, radix), radix) == q * radix + d;
      DivMod(n, radix);
    }
  }

  lemma ParseRadixSnoc(s: string, c: char, radix: nat)
    requires 2 <= radix <= 36
    requires forall i :: 0 <= i < |s| ==> IsRadixDigit(s[i], radix)
    requires IsRadixDigit(c, radix)
    ensures ParseRadix(s + [c], radix) == ParseRadix(s, radix) * radix + DigitValue(c)
  {
    assert (s + [c])[..|s|] == s;
  }

  lemma DivLess(n: nat, d: nat)
    requires d >= 2 && n >= 1
    ensures n / d < n
  {
    DivMod(n, d);
  }

  lemma DivBelow(n: nat, d: nat, p: nat)
    requires d >= 1 && n < d * p
    ensures n / d < p
  {
    DivMod(n, d);
  }

  lemma DivMod(n: nat, d: nat)
    requires d > 0
    ensures (n / d) * d + n % d == n
  {
  }

  /** toString(radix) is injective. */
  lemma RadixInjective(m: nat, n: nat, radix: nat)
    requires 2 <= radix <= 36
    requires NatToRadix(m, radix) == NatToRadix(n, radix)
    ensures m == n
  {
    RadixRoundTrip(m, radix);
    RadixRoundTrip(n, radix);
  }

  /** toString(radix) writes no leading zero: only 0 itself starts with `0`. */
  lemma {:induction false} RadixLeadingDigit(n: nat, radix: nat)
    requires 2 <= radix <= 36
    ensures NatToRadix(n, radix)[0] == '0' <==> n == 0
    decreases n
  {
    if n < radix {
      assert DigitValue(DigitChar(n)) == n;
    } else {
      var q := n / radix;
      DivMod(n, radix);
      DivLess(n, radix);
      assert q >= 1;
      RadixLeadingDigit(q, radix);
      assert NatToRadix(n, radix)[0] == NatToRadix(q, radix)[0];
    }
  }

  /** A digit character is written back as itself. */
  lemma DigitCharOfValue(c: char)
    requires IsDigit(c) || IsLowerAscii(c)
    ensures DigitValue(c) < 36 && DigitChar(DigitValue(c)) == c
  {
  }

  /** Digits that do not start with a redundant `0` read back as a value greater than zero, unless they are `0` itself. */
  lemma {:induction false} ParseRadixPositive(t: string, radix: nat)
    requires 2 <= radix <= 36
    requires |t| >= 1 && t[0] != '0'
    requires forall i :: 0 <= i < |t| ==> IsRadixDigit(t[i], radix)
    ensures ParseRadix(t, radix) >= 1
    decreases |t|
  {
    var prefix := t[..|t| - 1];
    assert forall i :: 0 <= i < |prefix| ==> prefix[i] == t[i];
    if |t| == 1 {
      assert prefix == [];
      assert ParseRadix(t, radix) == DigitValue(t[0]);
    } else {
      ParseRadixPositive(prefix, radix);
      MulNonNegative(ParseRadix(prefix, radix), radix);
      assert ParseRadix(t, radix) == ParseRadix(prefix, radix) * radix + DigitValue(t[|t| - 1]);
      MulAtLeast(ParseRadix(prefix, radix), radix);
    }
  }

  lemma MulAtLeast(p: nat, radix: nat)
    requires p >= 1
    ensures p * radix >= radix
  {
  }

  /** `(p * radix + d) / radix == p` and `% radix == d` for a digit d. */
  lemma DivModOfDigit(p: nat, d: nat, radix: nat)
    requires 2 <= radix && d < radix
    ensures (p * radix + d) / radix == p && (p * radix + d) % radix == d
  {
    var n := p * radix + d;
    var q, m := n / radix, n % radix;
    DivMod(n, radix);
    if q > p {
      MulMonotone(p + 1, q, radix);
      assert false;
    } else if q < p {
      MulMonotone(q + 1, p, radix);
      assert false;
    }
  }

  lemma MulMonotone(a: nat, b: nat, radix: nat)
    requires a <= b
    ensures a * radix <= b * radix
  {
  }

  /**
   * The canonical form: digits without a redundant leading `0` are exactly the
   * text toString(radix) writes for the value they denote. With RadixLeadingDigit
   * this pins NatToRadix down as the one such text per number.
   */
  lemma {:induction false} RadixCanonical(t: string, radix: nat)
    requires 2 <= radix <= 36
    requires |t| >= 1 && (|t| > 1 ==> t[0] != '0')
    requires forall i :: 0 <= i < |t| ==> IsRadixDigit(t[i], radix)
    ensures NatToRadix(ParseRadix(t, radix), radix) == t
    decreases |t|
  {
    var prefix, last := t[..|t| - 1], t[|t| - 1];
    assert forall i :: 0 <= i < |prefix| ==> prefix[i] == t[i];
    DigitCharOfValue(last);
    var d := DigitValue(last);
    if |t| == 1 {
      assert prefix == [];
      assert ParseRadix(t, radix) == d;
      assert t == [last];
    } else {
      var p := ParseRadix(prefix, radix);
      ParseRadixPositive(prefix, radix);
      RadixCanonical(prefix, radix);
      var n := ParseRadix(t, radix);
      assert n == p * radix + d;
      MulAtLeast(p, radix);
      DivModOfDigit(p, d, radix);
      assert NatToRadix(n, radix) == NatToRadix(p, radix) + [DigitChar(d)];
      assert t == prefix + [last];
    }
  }

  /** A number below radix^k has at most k digits. */
  lemma {:induction false} RadixLength(n: nat, radix: nat, k: nat)
    requires 2 <= radix <= 36 && k >= 1
    requires n < Pow(radix, k)
    ensures |NatToRadix(n, radix)| <= k
    decreases n
  {
    assert Pow(radix, 1) == radix;
    if n >= radix {
      assert k >= 2;
      var q, p := n / radix, Pow(radix, k - 1);
      assert Pow(radix, k) == radix * p;
      DivLess(n, radix);
      DivBelow(n, radix, p);
      RadixLength(q, radix, k - 1);
    }
  }

  /** `String(n)` for an integer. */
  function NatToString(n: nat): (r: string)
    ensures |r| >= 1 && AllDigits(r)
  {
    var r := NatToRadix(n, 10);
    assert forall i :: 0 <= i < |r| ==> IsDigit(r[i]) by {
      forall i | 0 <= i < |r| ensures IsDigit(r[i]) {
        assert IsRadixDigit(r[i], 10);
      }
    }
    r
  }

  function IntToString(n: int): (r: string)
    ensures |r| >= 1
    ensures n < 0 <==> r[0] == '-'
    ensures n >= 0 ==> AllDigits(r)
    ensures n < 0 ==> AllDigits(r[1..])
  {
    if n < 0 then "-" + NatToString(-n) else NatToString(n)
  }
}

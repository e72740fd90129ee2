/** The JavaScript string operations the program relies on, written out:
    `toLowerCase`, `includes`, `trim`, `split`, relational comparison of
    strings, decimal rendering of numbers and the string-to-number
    conversion that loose equality (`==`) performs. */
module Text {
  import opened Basics

  // ---------------------------------------------------------------------
  // Case folding and substring search

  /** `toLowerCase` on one character, restricted to ASCII letters. */
  function LowerChar(c: char): (r: char)
    ensures !('A' <= r <= 'Z')
    ensures !('A' <= c <= 'Z') ==> r == c
  {
    if 'A' <= c <= 'Z' then (c as int + 32) as char else c
  }

  function Lower(s: string): (r: string)
    ensures |r| == |s|
    ensures forall i :: 0 <= i < |s| ==> r[i] == LowerChar(s[i])
  {
    if |s| == 0 then [] else [LowerChar(s[0])] + Lower(s[1..])
  }

  lemma LowerIdempotent(s: string)
    ensures Lower(Lower(s)) == Lower(s)
  {
  }

  predicate IsPrefix(needle: string, hay: string) {
    |needle| <= |hay| && hay[..|needle|] == needle
  }

  /** `hay.includes(needle)`: a needle is only found in text at least as
      long as itself. */
  predicate Contains(hay: string, needle: string): (b: bool)
    ensures b ==> |needle| <= |hay|
    decreases |hay|
  {
    IsPrefix(needle, hay) || (|hay| > 0 && Contains(hay[1..], needle))
  }

  /** The needle occurs in the haystack starting at position `i`. */
  predicate OccursAt(hay: string, needle: string, i: int) {
    0 <= i && i + |needle| <= |hay| && hay[i..i + |needle|] == needle
  }

  /** A needle found at a given position is found. */
  lemma {:induction false} ContainsAt(hay: string, needle: string, i: nat)
    requires OccursAt(hay, needle, i)
    ensures Contains(hay, needle)
    decreases i
  {
    if i > 0 {
      assert hay[1..][i - 1..i - 1 + |needle|] == needle;
      ContainsAt(hay[1..], needle, i - 1);
    }
  }

  /** `includes` finds the needle exactly when it occurs at some position. */
  lemma {:induction false} ContainsIffOccurs(hay: string, needle: string)
    ensures Contains(hay, needle) <==> exists i :: OccursAt(hay, needle, i)
    decreases |hay|
  {
    if Contains(hay, needle) {
      if IsPrefix(needle, hay) {
        assert OccursAt(hay, needle, 0);
      } else {
        ContainsIffOccurs(hay[1..], needle);
        var i :| OccursAt(hay[1..], needle, i);
        assert hay[i + 1..i + 1 + |needle|] == hay[1..][i..i + |needle|];
        assert OccursAt(hay, needle, i + 1);
      }
    }
    if exists i :: OccursAt(hay, needle, i) {
      var i :| OccursAt(hay, needle, i);
      ContainsAt(hay, needle, i);
    }
  }

  lemma {:induction false} ContainsEmpty(hay: string)
    ensures Contains(hay, "")
  {
    assert IsPrefix("", hay);
  }

  // ---------------------------------------------------------------------
  // Whitespace and trim

  /** The characters `String.prototype.trim` removes: the WhiteSpace and
      LineTerminator productions of ECMAScript. */
  predicate IsJsWhitespace(c: char) {
    c in {'\t', '\n', '\U{000B}', '\U{000C}', '\r', ' ', '\U{00A0}', '\U{1680}',
          '\U{2000}', '\U{2001}', '\U{2002}', '\U{2003}', '\U{2004}', '\U{2005}',
          '\U{2006}', '\U{2007}', '\U{2008}', '\U{2009}', '\U{200A}', '\U{2028}',
          '\U{2029}', '\U{202F}', '\U{205F}', '\U{3000}', '\U{FEFF}'}
  }

  predicate AllWhitespace(s: string) {
    forall i :: 0 <= i < |s| ==> IsJsWhitespace(s[i])
  }

  lemma AllWhitespaceConcat(a: string, b: string)
    requires AllWhitespace(a) && AllWhitespace(b)
    ensures AllWhitespace(a + b)
  {
    forall i | 0 <= i < |a + b| ensures IsJsWhitespace((a + b)[i]) {
      if i < |a| { assert (a + b)[i] == a[i]; } else { assert (a + b)[i] == b[i - |a|]; }
    }
  }

  lemma TrimStartStep(s: string, r: string)
    requires |s| > 0 && IsJsWhitespace(s[0])
    requires |r| <= |s| - 1 && r == s[1..][|s| - 1 - |r|..]
    requires AllWhitespace(s[1..][..|s| - 1 - |r|])
    ensures r == s[|s| - |r|..] && AllWhitespace(s[..|s| - |r|])
  {
    var k := |s| - |r|;
    assert s[1..][k - 1..] == s[k..];
    assert s[..k] == [s[0]] + s[1..][..k - 1];
    AllWhitespaceConcat([s[0]], s[1..][..k - 1]);
  }

  function TrimStart(s: string): (r: string)
    ensures |r| <= |s| && r == s[|s| - |r|..]
    ensures AllWhitespace(s[..|s| - |r|])
    ensures r == [] || !IsJsWhitespace(r[0])
    decreases |s|
  {
    if |s| > 0 && IsJsWhitespace(s[0]) then
      var r := TrimStart(s[1..]);
      TrimStartStep(s, r);
      r
    else
      assert s[..0] == [];
      s
  }

  lemma TrimEndStep(s: string, r: string)
    requires |s| > 0 && IsJsWhitespace(s[|s| - 1])
    requires |r| <= |s| - 1 && r == s[..|s| - 1][..|r|]
    requires AllWhitespace(s[..|s| - 1][|r|..])
    ensures r == s[..|r|] && AllWhitespace(s[|r|..])
  {
    var init := s[..|s| - 1];
    assert s[|r|..] == init[|r|..] + [s[|s| - 1]];
    AllWhitespaceConcat(init[|r|..], [s[|s| - 1]]);
  }

  function TrimEnd(s: string): (r: string)
    ensures |r| <= |s| && r == s[..|r|]
    ensures AllWhitespace(s[|r|..])
    ensures r == [] || !IsJsWhitespace(r[|r| - 1])
    decreases |s|
  {
    if |s| > 0 && IsJsWhitespace(s[|s| - 1]) then
      var r := TrimEnd(s[..|s| - 1]);
      TrimEndStep(s, r);
      r
    else
      assert s[|s|..] == [];
      s
  }

  /** The slices `trim` keeps and drops, located in the original string. */
  lemma TrimSlices(s: string, t: string, r: string)
    requires |t| <= |s| && t == s[|s| - |t|..]
    requires |r| <= |t| && r == t[..|r|]
    ensures s[|s| - |t|..|s| - |t| + |r|] == r
    ensures s[|s| - |t| + |r|..] == t[|r|..]
  {
  }

  /** `s.trim()`: the text without its leading and trailing whitespace; it
      neither starts nor ends with whitespace. */
  function Trim(s: string): (r: string)
    ensures |r| <= |s|
    ensures r == [] || (!IsJsWhitespace(r[0]) && !IsJsWhitespace(r[|r| - 1]))
  {
    TrimEnd(TrimStart(s))
  }

  /** What `trim` keeps is a slice of the text, and only whitespace is cut
      on either side of it. */
  lemma TrimCutsOnlyWhitespace(s: string)
    ensures exists i :: 0 <= i && i + |Trim(s)| <= |s| && s[i..i + |Trim(s)|] == Trim(s) &&
                        AllWhitespace(s[..i]) && AllWhitespace(s[i + |Trim(s)|..])
  {
    var t := TrimStart(s);
    var r := TrimEnd(t);
    TrimSlices(s, t, r);
    var i := |s| - |t|;
    assert 0 <= i && i + |r| <= |s| && s[i..i + |r|] == r &&
           AllWhitespace(s[..i]) && AllWhitespace(s[i + |r|..]);
  }

  lemma AllWhitespaceSuffix(s: string, i: nat)
    requires AllWhitespace(s) && i <= |s|
    ensures AllWhitespace(s[i..])
  {
    forall k | 0 <= k < |s[i..]| ensures IsJsWhitespace(s[i..][k]) {
      assert s[i..][k] == s[i + k];
    }
  }

  /** A string trims to the empty string exactly when it is all whitespace. */
  lemma TrimEmptyIffBlank(s: string)
    ensures Trim(s) == [] <==> AllWhitespace(s)
  {
    var t := TrimStart(s);
    var i := |s| - |t|;
    if AllWhitespace(s) {
      AllWhitespaceSuffix(s, i);
    } else if Trim(s) == [] {
      assert t[0..] == t;
      assert s == s[..i] + t;
      AllWhitespaceConcat(s[..i], t);
    }
  }

  lemma TrimIdempotent(s: string)
    ensures Trim(Trim(s)) == Trim(s)
  {
    var r := Trim(s);
    if r != [] {
      assert TrimStart(r) == r;
      assert TrimEnd(r) == r;
    }
  }

  // ---------------------------------------------------------------------
  // split and join

  function IndexOf(s: string, c: char): (i: int)
    ensures -1 <= i < |s|
    ensures i == -1 ==> c !in s
    ensures 0 <= i ==> s[i] == c && c !in s[..i]
  {
    if |s| == 0 then -1
    else if s[0] == c then 0
    else
      var j := IndexOf(s[1..], c);
      if j < 0 then -1 else j + 1
  }

  /** `s.split(sep)` for a one-character separator: the fields between
      separators, always at least one. */
  function Split(s: string, sep: char): (fields: seq<string>)
    ensures |fields| >= 1
    ensures forall k :: 0 <= k < |fields| ==> sep !in fields[k]
    decreases |s|
  {
    var i := IndexOf(s, sep);
    if i < 0 then [s] else [s[..i]] + Split(s[i + 1..], sep)
  }

  /** `fields.join(sep)`. */
  function Join(fields: seq<string>, sep: char): string
    decreases |fields|
  {
    if |fields| == 0 then ""
    else if |fields| == 1 then fields[0]
    else fields[0] + [sep] + Join(fields[1..], sep)
  }

  lemma JoinTwo(a: string, b: string, sep: char)
    ensures Join([a, b], sep) == a + [sep] + b
  {
    assert [a, b][1..] == [b];
  }

  lemma JoinCons(head: string, rest: seq<string>, sep: char)
    requires |rest| >= 1
    ensures Join([head] + rest, sep) == head + [sep] + Join(rest, sep)
  {
    var fields := [head] + rest;
    assert fields[0] == head && fields[1..] == rest;
  }

  lemma SplitAround(s: string, i: nat)
    requires i < |s|
    ensures s == s[..i] + [s[i]] + s[i + 1..]
  {
  }

  /** Joining the fields of a split restores the original string. */
  lemma {:induction false} JoinSplit(s: string, sep: char)
    ensures Join(Split(s, sep), sep) == s
    decreases |s|
  {
    var i := IndexOf(s, sep);
    if i >= 0 {
      var tail := s[i + 1..];
      JoinSplit(tail, sep);
      JoinCons(s[..i], Split(tail, sep), sep);
      SplitAround(s, i);
    }
  }

  /** Splitting a join of separator-free fields gives the fields back. */
  lemma {:induction false} SplitJoin(fields: seq<string>, sep: char)
    requires |fields| >= 1
    requires forall k :: 0 <= k < |fields| ==> sep !in fields[k]
    ensures Split(Join(fields, sep), sep) == fields
    decreases |fields|
  {
    var f0 := fields[0];
    if |fields| == 1 {
      assert IndexOf(f0, sep) == -1;
    } else {
      var tail := Join(fields[1..], sep);
      var s := f0 + [sep] + tail;
      IndexOfAfter(f0, sep, tail);
      assert s[..|f0|] == f0;
      assert s[|f0| + 1..] == tail;
      SplitJoin(fields[1..], sep);
      assert fields == [f0] + fields[1..];
    }
  }

  lemma IndexOfAfter(a: string, c: char, b: string)
    requires c !in a
    ensures IndexOf(a + [c] + b, c) == |a|
  {
    var s := a + [c] + b;
    assert s[|a|] == c;
    assert s[..|a|] == a;
  }

  // ---------------------------------------------------------------------
  // Relational comparison of strings

  /** `a < b` on strings: lexicographic order of characters, a proper
      prefix coming first. */
  predicate LexLess(a: string, b: string)
    decreases |a|
  {
    if |a| == 0 then |b| > 0
    else if |b| == 0 then false
    else if a[0] != b[0] then a[0] < b[0]
    else LexLess(a[1..], b[1..])
  }

  /** `a <= b` on strings, as JavaScript evaluates it: not `b < a`. Every
      string is at most itself, and the empty string is at most any. */
  predicate LexLessEq(a: string, b: string): (r: bool)
    ensures a == b ==> r
    ensures a == [] ==> r
  {
    LexLessIrreflexive(a);
    !LexLess(b, a)
  }

  lemma {:induction false} LexLessIrreflexive(a: string)
    ensures !LexLess(a, a)
    decreases |a|
  {
    if |a| > 0 {
      LexLessIrreflexive(a[1..]);
    }
  }

  lemma {:induction false} LexLessTransitive(a: string, b: string, c: string)
    requires LexLess(a, b) && LexLess(b, c)
    ensures LexLess(a, c)
    decreases |a|
  {
    if |a| > 0 && a[0] == b[0] && b[0] == c[0] {
      LexLessTransitive(a[1..], b[1..], c[1..]);
    }
  }

  /** Distinct strings are always ordered one way or the other. */
  lemma {:induction false} LexLessTotal(a: string, b: string)
    requires a != b
    ensures LexLess(a, b) || LexLess(b, a)
    decreases |a|
  {
    if |a| > 0 && |b| > 0 && a[0] == b[0] {
      assert a == [a[0]] + a[1..] && b == [b[0]] + b[1..];
      LexLessTotal(a[1..], b[1..]);
    }
  }

  /** `<=` on strings is a total order. */
  lemma LexLessEqTotalOrder(a: string, b: string, c: string)
    ensures LexLessEq(a, a)
    ensures LexLessEq(a, b) || LexLessEq(b, a)
    ensures LexLessEq(a, b) && LexLessEq(b, a) ==> a == b
    ensures LexLessEq(a, b) && LexLessEq(b, c) ==> LexLessEq(a, c)
  {
    LexLessIrreflexive(a);
    if LexLess(a, b) && LexLess(b, a) {
      LexLessTransitive(a, b, a);
    }
    if a != b {
      LexLessTotal(a, b);
    }
    if LexLessEq(a, b) && LexLessEq(b, c) && LexLess(c, a) && a != b {
      LexLessTotal(a, b);
      LexLessTransitive(c, a, b);
    }
  }

  // ---------------------------------------------------------------------
  // Numbers as text

  predicate IsDigit(c: char) {
    '0' <= c <= '9'
  }

  predicate AllDigits(s: string) {
    forall i :: 0 <= i < |s| ==> IsDigit(s[i])
  }

  function DigitChar(d: nat): (c: char)
    requires d < 10
    ensures IsDigit(c) && c as int - '0' as int == d
  {
    ('0' as int + d) as char
  }

  /** `String(n)` for a non-negative integer: its decimal digits. */
  function DecimalString(n: nat): (s: string)
    ensures |s| >= 1 && AllDigits(s)
  {
    if n < 10 then [DigitChar(n)] else DecimalString(n / 10) + [DigitChar(n % 10)]
  }

  /** The value of a string of decimal digits. */
  function DecimalValue(s: string): nat
    requires AllDigits(s)
  {
    if |s| == 0 then 0
    else DecimalValue(s[..|s| - 1]) * 10 + (s[|s| - 1] as int - '0' as int)
  }

  /** Reading back the decimal rendering of `n` gives `n`. */
  lemma {:induction false} DecimalRoundTrip(n: nat)
    ensures DecimalValue(DecimalString(n)) == n
  {
    if n >= 10 {
      var s := DecimalString(n);
      assert s[..|s| - 1] == DecimalString(n / 10);
      DecimalRoundTrip(n / 10);
    }
  }

  /** `String(i)` for an integer. */
  function IntString(i: int): (s: string)
    ensures |s| >= 1
    ensures i >= 0 ==> AllDigits(s)
    ensures i < 0 ==> |s| >= 2 && s[0] == '-' && AllDigits(s[1..])
  {
    if i < 0 then "-" + DecimalString(-i) else DecimalString(i)
  }

  /** What `Number(s)` yields, as loose equality and relational comparison
      apply it to a string: `None` stands for NaN. Covers blank text (0) and
      an optionally signed run of decimal digits. */
  function ToNumber(s: string): (r: Option<int>)
    ensures |Trim(s)| == 0 ==> r == Some(0)
  {
    var t := Trim(s);
    if |t| == 0 then Some(0)
    else if AllDigits(t) then Some(DecimalValue(t))
    else if |t| > 1 && t[0] == '-' && AllDigits(t[1..]) then Some(0 - DecimalValue(t[1..]))
    else if |t| > 1 && t[0] == '+' && AllDigits(t[1..]) then Some(DecimalValue(t[1..]))
    else None
  }

  /** Text with no whitespace at either end is left alone by `trim`. */
  lemma TrimNoop(s: string)
    requires |s| > 0 && !IsJsWhitespace(s[0]) && !IsJsWhitespace(s[|s| - 1])
    ensures Trim(s) == s
  {
    assert TrimStart(s) == s;
    assert TrimEnd(s) == s;
  }

  lemma DigitsNotWhitespace(s: string)
    requires |s| > 0 && AllDigits(s)
    ensures !IsJsWhitespace(s[0]) && !IsJsWhitespace(s[|s| - 1])
  {
    assert IsDigit(s[0]) && IsDigit(s[|s| - 1]);
  }

  /** A run of digits converts to its decimal value. */
  lemma ToNumberDigits(d: string)
    requires |d| > 0 && AllDigits(d)
    ensures ToNumber(d) == Some(DecimalValue(d))
  {
    DigitsNotWhitespace(d);
    TrimNoop(d);
  }

  /** A minus sign before a run of digits converts to the negated value. */
  lemma ToNumberNegative(d: string)
    requires |d| > 0 && AllDigits(d)
    ensures ToNumber("-" + d) == Some(0 - DecimalValue(d))
  {
    var s := "-" + d;
    assert s[1..] == d;
    DigitsNotWhitespace(d);
    assert s[|s| - 1] == d[|d| - 1];
    TrimNoop(s);
    assert !AllDigits(s) by { assert !IsDigit(s[0]); }
  }

  /** Converting the rendering of an integer back to a number gives it. */
  lemma IntStringToNumber(i: int)
    ensures ToNumber(IntString(i)) == Some(i)
  {
    if i < 0 {
      var d := DecimalString(-i);
      DecimalRoundTrip(-i);
      ToNumberNegative(d);
      assert IntString(i) == "-" + d;
      assert 0 - DecimalValue(d) == i;
    } else {
      DecimalRoundTrip(i);
      ToNumberDigits(DecimalString(i));
    }
  }

  /** Text with a minus sign after its first character and no exponent
      letter is no JavaScript numeric literal, so `Number` gives NaN; every
      `YYYY-MM-DD` date is such text. */
  lemma InnerMinusIsNaN(s: string, k: int)
    requires |s| > 0 && !IsJsWhitespace(s[0]) && !IsJsWhitespace(s[|s| - 1])
    requires 0 < k < |s| && s[k] == '-'
    requires forall i :: 0 <= i < |s| ==> s[i] != 'e' && s[i] != 'E'
    ensures ToNumber(s) == None
  {
    TrimNoop(s);
    assert !IsDigit(s[k]);
    assert s[1..][k - 1] == '-';
  }

  /** Within the modelled integer subset of `Number`, text with no
      whitespace at either end that is neither a run of digits nor a sign
      followed by one has no value. JavaScript also reads decimals and
      exponents ("1.5", "1e3"); `InnerMinusIsNaN` names text where it agrees. */
  lemma ToNumberNaN(s: string)
    requires |s| > 0 && !IsJsWhitespace(s[0]) && !IsJsWhitespace(s[|s| - 1])
    requires !AllDigits(s) && s[0] != '-' && s[0] != '+'
    ensures ToNumber(s) == None
  {
    TrimNoop(s);
  }
}

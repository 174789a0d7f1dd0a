/** ASCII character classes and the few pieces of Python string behaviour the
    core relies on: `str.isalnum`, `str.lower`, `str(int)` and `str(list)`. */
module Text {

  predicate IsDigit(c: char) { '0' <= c <= '9' }

  predicate IsUpper(c: char) { 'A' <= c <= 'Z' }

  predicate IsLower(c: char) { 'a' <= c <= 'z' }

  predicate IsAlnum(c: char) { IsDigit(c) || IsUpper(c) || IsLower(c) }

  /** The class `[A-Za-z0-9_]`. */
  predicate IsWordChar(c: char) { IsAlnum(c) || c == '_' }

  predicate IsHexLower(c: char) { IsDigit(c) || 'a' <= c <= 'f' }

  /** The bytes that `bytes.split()` with no argument treats as separators. */
  predicate IsSpace(c: char)
  {
    c == ' ' || c == '\t' || c == '\n' || c == '\r' || c == '\U{000B}' || c == '\U{000C}'
  }

  /** `c.lower()` restricted to ASCII. */
  function ToLowerChar(c: char): (d: char)
    ensures IsUpper(c) ==> IsLower(d) && d as int == c as int + 32
    ensures !IsUpper(c) ==> d == c
  {
    if IsUpper(c) then (c as int + 32) as char else c
  }

  function ToLower(s: string): (r: string)
    ensures |r| == |s|
    ensures forall i :: 0 <= i < |s| ==> r[i] == ToLowerChar(s[i])
  {
    if s == [] then [] else [ToLowerChar(s[0])] + ToLower(s[1..])
  }

  function DigitChar(d: nat): (c: char)
    requires d < 10
    ensures IsDigit(c) && DigitValue(c) == d
  {
    ('0' as int + d) as char
  }

  /** The value of one decimal digit. */
  function DigitValue(c: char): int
  {
    c as int - '0' as int
  }

  /** The value of a string of decimal digits, read from the left. */
  function DigitsValue(s: string): int
  {
    if s == [] then 0 else 10 * DigitsValue(s[..|s| - 1]) + DigitValue(s[|s| - 1])
  }

  /** Decimal digits of a natural number, as `str(n)` prints it. */
  function NatToString(n: nat): (s: string)
    ensures 0 < |s|
    ensures forall i :: 0 <= i < |s| ==> IsDigit(s[i])
    decreases n
  {
    if n < 10 then [DigitChar(n)] else NatToString(n / 10) + [DigitChar(n % 10)]
  }

  /** The digits read back give the number, and only zero is written with a
      leading `0`, so `NatToString(n)` is the canonical decimal text of `n`. */
  lemma {:induction false} NatToStringValue(n: nat)
    ensures DigitsValue(NatToString(n)) == n
    ensures NatToString(n)[0] == '0' <==> n == 0
    decreases n
  {
    if n >= 10 {
      NatToStringValue(n / 10);
      var s := NatToString(n);
      assert s[..|s| - 1] == NatToString(n / 10);
    }
  }

  /** A single digit is written as itself. */
  lemma OneDigit(d: nat)
    requires d < 10
    ensures IntToString(d) == [DigitChar(d)]
  {
  }

  /** `int(s)` for the text `str` produces: an optional `-`, then digits. */
  function ParseInt(s: string): int
  {
    if |s| > 0 && s[0] == '-' then -DigitsValue(s[1..]) else DigitsValue(s)
  }

  /** `str(i)` for an integer: an optional `-`, then the canonical digits of
      `|i|`; reading it back gives `i`. */
  function IntToString(i: int): (s: string)
    ensures 0 < |s|
    ensures i < 0 <==> s[0] == '-'
    ensures forall k :: (if i < 0 then 1 else 0) <= k < |s| ==> IsDigit(s[k])
    ensures (if i < 0 then 1 else 0) < |s|
    ensures s[if i < 0 then 1 else 0] == '0' <==> i == 0
    ensures ParseInt(s) == i
  {
    if i < 0 then
      NatToStringValue(-i);
      assert ("-" + NatToString(-i))[1..] == NatToString(-i);
      "-" + NatToString(-i)
    else
      NatToStringValue(i);
      NatToString(i)
  }

  /** `str(xs)` for a list of integers: `[8, 9]`, `[]`. Reading the text
      between the brackets back gives the list. */
  function ListToString(xs: seq<int>): (s: string)
    ensures 2 <= |s| && s[0] == '[' && s[|s| - 1] == ']'
    ensures s[1..|s| - 1] == JoinInts(xs)
    ensures ParseInts(s[1..|s| - 1]) == xs
  {
    JoinIntsRoundTrip(xs);
    var s := "[" + JoinInts(xs) + "]";
    assert s[1..|s| - 1] == JoinInts(xs);
    s
  }

  /** The elements of a list, each as `str` writes it, separated by `", "`. */
  function JoinInts(xs: seq<int>): string
  {
    if xs == [] then ""
    else if |xs| == 1 then IntToString(xs[0])
    else IntToString(xs[0]) + ", " + JoinInts(xs[1..])
  }

  /** Length of the leading run of characters other than `,`. */
  function CommaFree(s: string): (n: nat)
    ensures n <= |s|
    ensures forall i :: 0 <= i < n ==> s[i] != ','
    ensures n < |s| ==> s[n] == ','
  {
    if s == [] || s[0] == ',' then 0 else 1 + CommaFree(s[1..])
  }

  /** Reads `"a, b, c"` back into its integers. */
  function ParseInts(s: string): seq<int>
    decreases |s|
  {
    if s == [] then []
    else
      var n := CommaFree(s);
      [ParseInt(s[..n])] + (if n + 2 <= |s| then ParseInts(s[n + 2..]) else [])
  }

  /** `str(i)` has no comma. */
  lemma NoComma(i: int)
    ensures ',' !in IntToString(i)
  {
    var w := IntToString(i);
    forall k | 0 <= k < |w| ensures w[k] != ',' {
      if k > 0 || i >= 0 { assert IsDigit(w[k]); }
    }
  }

  /** One element read off the front of `w + ", " + rest`. */
  lemma ParseIntsCons(w: string, rest: string)
    requires w != [] && ',' !in w
    ensures ParseInts(w + ", " + rest) == [ParseInt(w)] + ParseInts(rest)
  {
    var s := w + ", " + rest;
    assert s[|w|] == ',' && s[..|w|] == w;
    assert CommaFree(s) == |w|;
    assert s[|w| + 2..] == rest;
    if rest == [] {
      assert ParseInts(rest) == [];
    }
  }

  /** The last element is read to the end of the text. */
  lemma ParseIntsLast(w: string)
    requires w != [] && ',' !in w
    ensures ParseInts(w) == [ParseInt(w)]
  {
    assert CommaFree(w) == |w|;
    assert w[..|w|] == w;
  }

  /** Splitting `JoinInts(xs)` at its commas gives back `xs`. */
  lemma {:induction false} JoinIntsRoundTrip(xs: seq<int>)
    ensures ParseInts(JoinInts(xs)) == xs
  {
    if xs != [] {
      NoComma(xs[0]);
      if |xs| == 1 {
        ParseIntsLast(IntToString(xs[0]));
      } else {
        JoinIntsRoundTrip(xs[1..]);
        ParseIntsCons(IntToString(xs[0]), JoinInts(xs[1..]));
        assert xs == [xs[0]] + xs[1..];
      }
    }
  }

  /** A one-element list of a single digit. */
  lemma OneDigitList(d: nat)
    requires d < 10
    ensures ListToString([d]) == ['[', DigitChar(d), ']']
  {
    OneDigit(d);
    assert JoinInts([d]) == [DigitChar(d)];
    ListToStringShape([d]);
  }

  /** `str(xs)` written out. */
  lemma ListToStringShape(xs: seq<int>)
    ensures ListToString(xs) == "[" + JoinInts(xs) + "]"
  {
  }
}

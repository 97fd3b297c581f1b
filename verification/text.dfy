/** Character-level string helpers: ASCII case folding, the case-insensitive
    prefix test behind `String.StartsWith(..., InvariantCultureIgnoreCase)`,
    the trailing-character test behind `String.EndsWith`, decimal rendering of
    naturals and joining with a separator. */
module Text {

  predicate IsUpperAscii(c: char) {
    'A' <= c <= 'Z'
  }

  predicate IsDigit(c: char) {
    '0' <= c <= '9'
  }

  /** Lower-cases ASCII letters and leaves every other character alone. */
  function FoldAscii(c: char): (d: char)
    ensures !IsUpperAscii(d)
    ensures !IsUpperAscii(c) ==> d == c
    ensures IsUpperAscii(c) ==> 'a' <= d <= 'z' && d as int - c as int == 'a' as int - 'A' as int
  {
    if IsUpperAscii(c) then (c as int - 'A' as int + 'a' as int) as char else c
  }

  /** Two characters are equal once ASCII case is ignored. */
  predicate SameIgnoringCase(a: char, b: char) {
    FoldAscii(a) == FoldAscii(b)
  }

  /** `prefix` is a prefix of `s` when ASCII case is ignored; the empty prefix
      matches every string, as with .NET's `StartsWith`. */
  function StartsWithIgnoreCase(s: string, prefix: string): (b: bool)
    ensures b <==> |prefix| <= |s| && forall i :: 0 <= i < |prefix| ==> SameIgnoringCase(s[i], prefix[i])
    decreases |prefix|
  {
    if |prefix| == 0 then true
    else if |s| == 0 then false
    else
      var rest := StartsWithIgnoreCase(s[1..], prefix[1..]);
      assert rest <==> |prefix[1..]| <= |s[1..]|
                       && forall i :: 0 <= i < |prefix[1..]| ==> SameIgnoringCase(s[1..][i], prefix[1..][i]);
      SameIgnoringCase(s[0], prefix[0]) && rest
  }

  /** An ordinary (case-sensitive) prefix is also a case-insensitive one. */
  lemma PrefixStartsWithIgnoreCase(s: string, prefix: string)
    requires prefix <= s
    ensures StartsWithIgnoreCase(s, prefix)
  {
  }

  /** The case-insensitive prefix relation is transitive: a category under
      "Setup/Basic" is also under "setup". */
  lemma StartsWithIgnoreCaseTransitive(s: string, p: string, q: string)
    requires StartsWithIgnoreCase(s, p) && StartsWithIgnoreCase(p, q)
    ensures StartsWithIgnoreCase(s, q)
  {
    forall i | 0 <= i < |q|
      ensures SameIgnoringCase(s[i], q[i])
    {
      assert SameIgnoringCase(s[i], p[i]);
    }
  }

  /** `s` ends with character `c` (an ordinal `EndsWith` of a one-character string). */
  predicate EndsWithChar(s: string, c: char) {
    |s| > 0 && s[|s| - 1] == c
  }

  /** `needle` occurs somewhere inside `s`. */
  predicate Contains(s: string, needle: string) {
    exists i :: 0 <= i <= |s| && OccursAt(s, needle, i)
  }

  /** `needle` occurs in `s` starting at position `i`. */
  predicate OccursAt(s: string, needle: string, i: int) {
    0 <= i <= |s| - |needle| && s[i..i + |needle|] == needle
  }

  lemma ContainsConcat(a: string, needle: string, b: string)
    ensures Contains(a + needle + b, needle)
  {
    var s := a + needle + b;
    assert s[|a|..|a| + |needle|] == needle;
    assert OccursAt(s, needle, |a|);
  }

  // ---------------------------------------------------------------------
  // Decimal rendering of naturals

  function DigitChar(d: nat): (c: char)
    requires d < 10
    ensures IsDigit(c) && c as int - '0' as int == d
  {
    ('0' as int + d) as char
  }

  predicate AllDigits(s: string) {
    forall i :: 0 <= i < |s| ==> IsDigit(s[i])
  }

  /** The decimal digits of `n`, most significant first, without leading zeros. */
  function NatToString(n: nat): (s: string)
    ensures |s| > 0 && AllDigits(s)
    ensures n >= 10 ==> s[0] != '0'
    decreases n
  {
    if n < 10 then [DigitChar(n)] else NatToString(n / 10) + [DigitChar(n % 10)]
  }

  /** The value of a string of decimal digits. */
  function DigitsValue(s: string): nat
    requires AllDigits(s)
  {
    if |s| == 0 then 0 else DigitsValue(s[..|s| - 1]) * 10 + (s[|s| - 1] as int - '0' as int)
  }

  /** Reading the rendered digits back gives the number. */
  lemma {:induction false} DigitsValueOfNatToString(n: nat)
    ensures DigitsValue(NatToString(n)) == n
    decreases n
  {
    if n >= 10 {
      var s := NatToString(n);
      DigitsValueOfNatToString(n / 10);
      assert s[..|s| - 1] == NatToString(n / 10);
    }
  }

  /** Distinct naturals render to distinct strings. */
  lemma NatToStringInjective(m: nat, n: nat)
    requires NatToString(m) == NatToString(n)
    ensures m == n
  {
    DigitsValueOfNatToString(m);
    DigitsValueOfNatToString(n);
  }

  // ---------------------------------------------------------------------
  // Joining with a separator

  /** `parts` joined by `sep`, as `String.Join` does. */
  function Join(parts: seq<string>, sep: char): string
  {
    if |parts| == 0 then ""
    else if |parts| == 1 then parts[0]
    else parts[0] + [sep] + Join(parts[1..], sep)
  }

  predicate Free(s: string, c: char) {
    forall i :: 0 <= i < |s| ==> s[i] != c
  }

  /** Splitting at the first occurrence of `c`: when neither left part contains
      `c`, equal concatenations have equal left parts and equal rests. */
  lemma SplitAtFirst(p: string, q: string, c: char, x: string, y: string)
    requires Free(p, c) && Free(q, c)
    requires p + [c] + x == q + [c] + y
    ensures p == q && x == y
  {
    var s := p + [c] + x;
    assert s[|p|] == c && s[|q|] == c;
    assert forall i :: 0 <= i < |p| ==> s[i] != c;
    assert forall i :: 0 <= i < |q| ==> s[i] != c;
    assert |p| == |q|;
    assert p == s[..|p|] == q;
    assert x == s[|p| + 1..] == y;
  }

  /** Joining two or more parts puts a separator right after the first part. */
  lemma JoinSeveralHasSeparator(parts: seq<string>, sep: char)
    requires |parts| > 1
    ensures !Free(Join(parts, sep), sep)
  {
    var s := Join(parts, sep);
    assert s[|parts[0]|] == sep;
  }

  /** Joining non-empty lists of separator-free parts is injective. */
  lemma {:induction false} JoinInjective(a: seq<string>, b: seq<string>, sep: char)
    requires |a| > 0 && |b| > 0
    requires forall i :: 0 <= i < |a| ==> Free(a[i], sep)
    requires forall i :: 0 <= i < |b| ==> Free(b[i], sep)
    requires Join(a, sep) == Join(b, sep)
    ensures a == b
    decreases |a|
  {
    if |a| == 1 || |b| == 1 {
      if |a| > 1 {
        JoinSeveralHasSeparator(a, sep);
      }
      if |b| > 1 {
        JoinSeveralHasSeparator(b, sep);
      }
    } else {
      SplitAtFirst(a[0], b[0], sep, Join(a[1..], sep), Join(b[1..], sep));
      JoinInjective(a[1..], b[1..], sep);
      assert a == [a[0]] + a[1..];
      assert b == [b[0]] + b[1..];
    }
  }
}

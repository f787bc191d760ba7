/**
  The parts of Python's built-in `str` type that the chat loop relies on:
  `strip()`, `lower()`, `str()` of a non-negative integer and `sep.join(parts)`.
  Strings are sequences of Unicode scalar values; Python's lone surrogates are not modelled.
 */
module PyStr {

  /** Python's `str.isspace()` for one character: the characters that `strip()` removes. */
  predicate IsSpace(c: char)
  {
    || ('\t' <= c <= '\r')
    || ('\U{1C}' <= c <= '\U{1F}')
    || c == ' '
    || c == '\U{85}'
    || c == '\U{A0}'
    || c == '\U{1680}'
    || ('\U{2000}' <= c <= '\U{200A}')
    || c == '\U{2028}'
    || c == '\U{2029}'
    || c == '\U{202F}'
    || c == '\U{205F}'
    || c == '\U{3000}'
  }

  predicate AllSpace(s: string)
  {
    forall i :: 0 <= i < |s| ==> IsSpace(s[i])
  }

  /** Length of the longest whitespace prefix of `s`. */
  function LeadingSpaces(s: string): (k: nat)
    ensures k <= |s|
    ensures AllSpace(s[..k])
    ensures k < |s| ==> !IsSpace(s[k])
  {
    if s == [] || !IsSpace(s[0]) then 0 else 1 + LeadingSpaces(s[1..])
  }

  /** Length of the longest whitespace suffix of `s`. */
  function TrailingSpaces(s: string): (k: nat)
    ensures k <= |s|
    ensures AllSpace(s[|s| - k..])
    ensures k < |s| ==> !IsSpace(s[|s| - 1 - k])
  {
    if s == [] || !IsSpace(s[|s| - 1]) then 0 else 1 + TrailingSpaces(s[..|s| - 1])
  }

  /**
    `s.strip()`: the result is a contiguous piece of `s`, everything before and
    after it is whitespace, and it neither starts nor ends with whitespace.
   */
  function Strip(s: string): (r: string)
    ensures r == [] || (!IsSpace(r[0]) && !IsSpace(r[|r| - 1]))
    ensures var a := LeadingSpaces(s);
      && a + |r| <= |s|
      && s[a..a + |r|] == r
      && AllSpace(s[..a])
      && AllSpace(s[a + |r|..])
  {
    var t := s[LeadingSpaces(s)..];
    t[..|t| - TrailingSpaces(t)]
  }

  /** `LeadingSpaces` is the only count with its two defining properties. */
  lemma {:induction false} LeadingSpacesExact(s: string, k: nat)
    requires k <= |s| && AllSpace(s[..k])
    requires k < |s| ==> !IsSpace(s[k])
    ensures LeadingSpaces(s) == k
  {
    if k > 0 {
      assert s[..k][0] == s[0];
      assert s[1..][..k - 1] == s[1..k];
      assert forall i :: 0 <= i < k - 1 ==> s[1..k][i] == s[..k][i + 1];
      LeadingSpacesExact(s[1..], k - 1);
    }
  }

  lemma {:induction false} TrailingSpacesExact(s: string, k: nat)
    requires k <= |s| && AllSpace(s[|s| - k..])
    requires k < |s| ==> !IsSpace(s[|s| - 1 - k])
    ensures TrailingSpaces(s) == k
  {
    if k > 0 {
      var t := s[..|s| - 1];
      assert IsSpace(s[|s| - 1]) by {
        assert s[|s| - k..][k - 1] == s[|s| - 1];
      }
      var u, v := t[|t| - (k - 1)..], s[|s| - k..];
      forall i | 0 <= i < k - 1
        ensures IsSpace(u[i])
      {
        assert u[i] == v[i];
      }
      if k < |s| {
        assert t[|t| - 1 - (k - 1)] == s[|s| - 1 - k];
      }
      TrailingSpacesExact(t, k - 1);
    }
  }

  /**
    Strip removes exactly the whitespace border: whatever whitespace surrounds a
    string that has no whitespace at either end, stripping gives that string back.
   */
  lemma {:induction false} StripExact(p: string, m: string, q: string)
    requires AllSpace(p) && AllSpace(q)
    requires m == [] || (!IsSpace(m[0]) && !IsSpace(m[|m| - 1]))
    ensures Strip(p + m + q) == m
  {
    var s := p + m + q;
    if m == [] {
      assert s == p + q;
      LeadingSpacesExact(s, |s|);
    } else {
      assert s[..|p|] == p;
      LeadingSpacesExact(s, |p|);
      var t := s[|p|..];
      assert t == m + q;
      assert t[|t| - |q|..] == q;
      TrailingSpacesExact(t, |q|);
      assert t[..|t| - |q|] == m;
    }
  }

  /** Stripping twice is stripping once. */
  lemma StripIdempotent(s: string)
    ensures Strip(Strip(s)) == Strip(s)
  {
    var r := Strip(s);
    assert [] + r + [] == r;
    StripExact([], r, []);
  }

  /** A string is stripped to nothing exactly when it is all whitespace. */
  lemma StripEmptyIff(s: string)
    ensures Strip(s) == [] <==> AllSpace(s)
  {
    if AllSpace(s) {
      assert s == s + [] + [];
      StripExact(s, [], []);
    }
    if Strip(s) == [] {
      var a := LeadingSpaces(s);
      assert a == |s|;
      assert s[..a] == s;
    }
  }

  /** Python's `str.lower()` on one character (ASCII letters only). */
  function LowerChar(c: char): char
  {
    if 'A' <= c <= 'Z' then (c as int + 32) as char else c
  }

  /** `s.lower()`, character by character. */
  function ToLower(s: string): (r: string)
  {
    seq(|s|, i requires 0 <= i < |s| => LowerChar(s[i]))
  }

  predicate IsLowerLetter(c: char)
  {
    'a' <= c <= 'z'
  }

  /** The upper-case partner of a lower-case ASCII letter. */
  function UpperChar(c: char): (u: char)
    requires IsLowerLetter(c)
  {
    (c as int - 32) as char
  }

  /** `s` spells `word` with each letter in either case. */
  predicate CaseVariantOf(s: string, word: string)
    requires forall i :: 0 <= i < |word| ==> IsLowerLetter(word[i])
  {
    |s| == |word| && forall i :: 0 <= i < |s| ==> s[i] == word[i] || s[i] == UpperChar(word[i])
  }

  /** `s.lower() == word` holds exactly for the case variants of a lower-case word. */
  lemma LowerEqualsIff(s: string, word: string)
    requires forall i :: 0 <= i < |word| ==> IsLowerLetter(word[i])
    ensures ToLower(s) == word <==> CaseVariantOf(s, word)
  {
    if CaseVariantOf(s, word) {
      assert forall i :: 0 <= i < |s| ==> ToLower(s)[i] == word[i];
    }
    if ToLower(s) == word {
      forall i | 0 <= i < |s|
        ensures s[i] == word[i] || s[i] == UpperChar(word[i])
      {
        assert LowerChar(s[i]) == word[i];
      }
    }
  }

  predicate IsDigit(c: char)
  {
    '0' <= c <= '9'
  }

  predicate AllDigits(s: string)
  {
    forall i :: 0 <= i < |s| ==> IsDigit(s[i])
  }

  function DigitChar(d: nat): (c: char)
    requires d < 10
    ensures IsDigit(c)
  {
    ('0' as int + d) as char
  }

  /** `str(n)` for a non-negative integer: decimal digits, no sign, no leading zero. */
  function NatToDecimal(n: nat): (r: string)
    ensures |r| >= 1 && AllDigits(r)
    ensures |r| > 1 ==> r[0] != '0'
  {
    if n < 10 then [DigitChar(n)] else NatToDecimal(n / 10) + [DigitChar(n % 10)]
  }

  /** The value of a string of decimal digits (`int(s)`). */
  function DecimalValue(s: string): nat
    requires AllDigits(s)
  {
    if s == [] then 0 else 10 * DecimalValue(s[..|s| - 1]) + (s[|s| - 1] as int - '0' as int)
  }

  /** Reading back what `str(n)` wrote gives `n`. */
  lemma {:induction false} DecimalRoundTrip(n: nat)
    ensures DecimalValue(NatToDecimal(n)) == n
  {
    if n >= 10 {
      DecimalRoundTrip(n / 10);
      var r := NatToDecimal(n);
      assert r[..|r| - 1] == NatToDecimal(n / 10);
    }
  }

  /** `sep.join(parts)`. */
  function Join(sep: string, parts: seq<string>): (r: string)
  {
    if |parts| == 0 then ""
    else if |parts| == 1 then parts[0]
    else Join(sep, parts[..|parts| - 1]) + sep + parts[|parts| - 1]
  }

  /** Where part `i` starts in `Join(sep, parts)`: every earlier part and one separator after each. */
  function Offset(sep: string, parts: seq<string>, i: nat): nat
    requires i <= |parts|
  {
    if i == 0 then 0 else Offset(sep, parts, i - 1) + |parts[i - 1]| + |sep|
  }

  /** Where part `i` ends in `Join(sep, parts)`, and its separator, if any, begins. */
  function PartEnd(sep: string, parts: seq<string>, i: nat): nat
    requires i < |parts|
  {
    Offset(sep, parts, i) + |parts[i]|
  }

  lemma {:induction false} OffsetPrefix(sep: string, parts: seq<string>, n: nat, i: nat)
    requires i <= n <= |parts|
    ensures Offset(sep, parts[..n], i) == Offset(sep, parts, i)
  {
    if i > 0 {
      OffsetPrefix(sep, parts, n, i - 1);
      assert parts[..n][i - 1] == parts[i - 1];
    }
  }

  lemma {:induction false} JoinLength(sep: string, parts: seq<string>)
    requires |parts| > 0
    ensures |Join(sep, parts)| == Offset(sep, parts, |parts| - 1) + |parts[|parts| - 1]|
  {
    var n := |parts|;
    if n > 1 {
      JoinLength(sep, parts[..n - 1]);
      OffsetPrefix(sep, parts, n - 1, n - 2);
    }
  }

  /** `part` stands in `r` starting at position `o`. */
  predicate StandsAt(r: string, o: nat, part: string)
  {
    o + |part| <= |r| && r[o..o + |part|] == part
  }

  /** Part `i` of a join stands at `Offset(sep, parts, i)`. */
  lemma {:induction false} JoinPartAt(sep: string, parts: seq<string>, i: nat)
    requires i < |parts|
    ensures StandsAt(Join(sep, parts), Offset(sep, parts, i), parts[i])
  {
    var n := |parts|;
    JoinLength(sep, parts);
    if n > 1 {
      var init := parts[..n - 1];
      var j := Join(sep, init);
      var r := Join(sep, parts);
      assert r == j + sep + parts[n - 1];
      JoinLength(sep, init);
      OffsetPrefix(sep, parts, n - 1, n - 2);
      if i < n - 1 {
        JoinPartAt(sep, init, i);
        OffsetPrefix(sep, parts, n - 1, i);
        var o := Offset(sep, parts, i);
        assert init[i] == parts[i];
        assert r[o..o + |parts[i]|] == j[o..o + |parts[i]|];
      } else {
        assert r[|j| + |sep|..] == parts[n - 1];
      }
    }
  }

  /** Just after every part but the last stands exactly one separator. */
  lemma {:induction false} JoinSeparatorAfter(sep: string, parts: seq<string>, i: nat)
    requires i + 1 < |parts|
    ensures StandsAt(Join(sep, parts), PartEnd(sep, parts, i), sep)
  {
    var n := |parts|;
    var init := parts[..n - 1];
    var j := Join(sep, init);
    var r := Join(sep, parts);
    assert r == j + sep + parts[n - 1];
    JoinLength(sep, init);
    OffsetPrefix(sep, parts, n - 1, i);
    assert init[i] == parts[i];
    var e := Offset(sep, parts, i) + |parts[i]|;
    if i + 1 < n - 1 {
      JoinSeparatorAfter(sep, init, i);
      assert r[e..e + |sep|] == j[e..e + |sep|];
    } else {
      assert e == |j|;
      assert r[|j|..|j| + |sep|] == sep;
    }
  }

  /**
    The layout of a join: the parts stand in order, part `i` at `Offset(sep, parts, i)`,
    each but the last followed by exactly one separator, and nothing before or after.
   */
  lemma {:induction false} JoinLayout(sep: string, parts: seq<string>)
    requires |parts| > 0
    ensures |Join(sep, parts)| == PartEnd(sep, parts, |parts| - 1)
    ensures forall i :: 0 <= i < |parts| ==> StandsAt(Join(sep, parts), Offset(sep, parts, i), parts[i])
    ensures forall i :: 0 <= i < |parts| - 1 ==> StandsAt(Join(sep, parts), PartEnd(sep, parts, i), sep)
  {
    JoinLength(sep, parts);
    forall i | 0 <= i < |parts| {
      JoinPartAt(sep, parts, i);
    }
    forall i | 0 <= i < |parts| - 1 {
      JoinSeparatorAfter(sep, parts, i);
    }
  }

  /** Joining two non-empty lists is joining each and putting one separator between them. */
  lemma {:induction false} JoinAppend(sep: string, a: seq<string>, b: seq<string>)
    requires |a| > 0 && |b| > 0
    ensures Join(sep, a + b) == Join(sep, a) + sep + Join(sep, b)
  {
    var ab := a + b;
    if |b| == 1 {
      assert ab[..|ab| - 1] == a;
    } else {
      var b' := b[..|b| - 1];
      JoinAppend(sep, a, b');
      assert ab[..|ab| - 1] == a + b';
    }
  }
}

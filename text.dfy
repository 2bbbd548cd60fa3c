/** Python string behaviour used by the listing pipeline, restricted to ASCII:
    character classes of `re` (`\d`, `\s`), ASCII case folding, `str.strip`,
    `str.capitalize`, `str.join`, the `in` substring test and `str(int)`. */
module Text {

  datatype Option<T> = None | Some(value: T)

  /** `\d`, restricted to ASCII digits. */
  predicate IsDigit(c: char) {
    '0' <= c <= '9'
  }

  /** `\s` and `str.isspace` on ASCII: space, tab to carriage return,
      and the four separators 0x1C to 0x1F. */
  predicate IsSpace(c: char) {
    var k := c as int;
    k == 32 || 9 <= k <= 13 || 28 <= k <= 31
  }

  predicate IsAsciiLetter(c: char) {
    'A' <= c <= 'Z' || 'a' <= c <= 'z'
  }

  function Lower(c: char): (r: char)
    ensures 'A' <= c <= 'Z' ==> 'a' <= r <= 'z' && r as int == c as int + 32
    ensures !('A' <= c <= 'Z') ==> r == c
  {
    if 'A' <= c <= 'Z' then (c as int + 32) as char else c
  }

  function Upper(c: char): (r: char)
    ensures 'a' <= c <= 'z' ==> 'A' <= r <= 'Z' && r as int == c as int - 32
    ensures !('a' <= c <= 'z') ==> r == c
  {
    if 'a' <= c <= 'z' then (c as int - 32) as char else c
  }

  /** Two characters are equal under `re.IGNORECASE` (ASCII letters only). */
  predicate SameIgnoringCase(a: char, b: char) {
    Lower(a) == Lower(b)
  }

  predicate AllDigits(s: string) {
    forall i :: 0 <= i < |s| ==> IsDigit(s[i])
  }

  predicate AllSpace(s: string) {
    forall i :: 0 <= i < |s| ==> IsSpace(s[i])
  }

  /** s[x..y] is a (possibly empty) run of digits. */
  predicate DigitsBetween(s: string, x: int, y: int) {
    0 <= x <= y <= |s| && forall t :: x <= t < y ==> IsDigit(s[t])
  }

  /** s[x..y] is a (possibly empty) run of whitespace. */
  predicate SpacesBetween(s: string, x: int, y: int) {
    0 <= x <= y <= |s| && forall t :: x <= t < y ==> IsSpace(s[t])
  }

  /** The literal `lit` occurs at position `p` of `s`, case-sensitively. */
  predicate LiteralAt(s: string, p: int, lit: string) {
    0 <= p && p + |lit| <= |s| && s[p..p + |lit|] == lit
  }

  /** The literal `lit` occurs at position `p` of `s` under `re.IGNORECASE`. */
  predicate LiteralAtIgnoringCase(s: string, p: int, lit: string) {
    0 <= p && p + |lit| <= |s| && forall t :: 0 <= t < |lit| ==> SameIgnoringCase(s[p + t], lit[t])
  }

  /** The end of the longest run of characters satisfying `inClass` that starts at `i`:
      what a greedy `[class]*` consumes from `i`. */
  function Span(s: string, i: nat, inClass: char -> bool): (j: nat)
    requires i <= |s|
    ensures i <= j <= |s|
    ensures forall t :: i <= t < j ==> inClass(s[t])
    ensures j == |s| || !inClass(s[j])
    decreases |s| - i
  {
    if i < |s| && inClass(s[i]) then Span(s, i + 1, inClass) else i
  }

  /** A run of characters in the class that ends where the class ends is the run
      `Span` reads. */
  lemma SpanIs(s: string, i: nat, j: nat, inClass: char -> bool)
    requires i <= j <= |s|
    requires forall t :: i <= t < j ==> inClass(s[t])
    requires j == |s| || !inClass(s[j])
    ensures Span(s, i, inClass) == j
  {
  }

  /** `\s?` read greedily from `q`. */
  function OptionalSpaceEnd(s: string, q: nat): (r: nat)
    requires q <= |s|
    ensures r == q || (q < |s| && r == q + 1 && IsSpace(s[q]))
  {
    if q < |s| && IsSpace(s[q]) then q + 1 else q
  }

  /** `s.lstrip()`: the suffix of `s` left after removing its leading whitespace. */
  function TrimStart(s: string): (r: string)
    ensures |r| <= |s| && r == s[|s| - |r|..]
    ensures AllSpace(s[..|s| - |r|])
    ensures r == [] || !IsSpace(r[0])
  {
    var j := Span(s, 0, IsSpace);
    assert forall i :: 0 <= i < j ==> s[..j][i] == s[i];
    s[j..]
  }

  /** `s.rstrip()`: the prefix of `s` left after removing its trailing whitespace. */
  function TrimEnd(s: string): (r: string)
    ensures |r| <= |s| && r == s[..|r|]
    ensures AllSpace(s[|r|..])
    ensures r == [] || !IsSpace(r[|r| - 1])
  {
    if |s| > 0 && IsSpace(s[|s| - 1]) then
      var r := TrimEnd(s[..|s| - 1]);
      assert s[|r|..] == s[..|s| - 1][|r|..] + [s[|s| - 1]];
      r
    else s
  }

  /** `s.strip()`. */
  function Strip(s: string): string {
    TrimEnd(TrimStart(s))
  }

  /** `strip` removes whitespace, and only whitespace, from both ends: what it keeps is
      the slice of `s` from `a` on, and neither starts nor ends with whitespace. */
  lemma StripCuts(s: string) returns (a: nat)
    ensures a + |Strip(s)| <= |s| && Strip(s) == s[a..a + |Strip(s)|]
    ensures AllSpace(s[..a]) && AllSpace(s[a + |Strip(s)|..])
    ensures Strip(s) == [] || (!IsSpace(Strip(s)[0]) && !IsSpace(Strip(s)[|Strip(s)| - 1]))
  {
    a := |s| - |TrimStart(s)|;
    StripSlice(s, a);
    StripPads(s, a);
    StripEnds(s);
  }

  lemma StripSlice(s: string, a: nat)
    requires a == |s| - |TrimStart(s)|
    ensures a + |Strip(s)| <= |s| && Strip(s) == s[a..a + |Strip(s)|]
  {
    var left := TrimStart(s);
    var r := TrimEnd(left);
    assert Strip(s) == r;
    PrefixOfSuffix(s, a, left, r);
  }

  lemma StripPads(s: string, a: nat)
    requires a == |s| - |TrimStart(s)|
    ensures a + |Strip(s)| <= |s|
    ensures AllSpace(s[..a]) && AllSpace(s[a + |Strip(s)|..])
  {
    var left := TrimStart(s);
    var r := TrimEnd(left);
    assert Strip(s) == r;
    PadsOfSuffix(s, a, left, r);
  }

  /** A prefix of a suffix of `s` is a slice of `s`. */
  lemma PrefixOfSuffix(s: string, a: nat, left: string, r: string)
    requires a + |left| == |s| && left == s[a..]
    requires |r| <= |left| && r == left[..|r|]
    ensures a + |r| <= |s| && r == s[a..a + |r|]
  {
  }

  /** What follows a prefix of a suffix of `s` is what follows the same slice of `s`. */
  lemma PadsOfSuffix(s: string, a: nat, left: string, r: string)
    requires a + |left| == |s| && left == s[a..]
    requires |r| <= |left| && AllSpace(left[|r|..])
    ensures AllSpace(s[a + |r|..])
  {
    assert s[a + |r|..] == left[|r|..];
  }

  lemma StripEnds(s: string)
    ensures Strip(s) == [] || (!IsSpace(Strip(s)[0]) && !IsSpace(Strip(s)[|Strip(s)| - 1]))
  {
    var left := TrimStart(s);
    var r := TrimEnd(left);
    assert r == [] || r[0] == left[0];
  }

  /** `strip` is `lstrip` followed by `rstrip`. */
  lemma StripTrims(s: string)
    ensures Strip(s) == TrimEnd(TrimStart(s))
  {
  }

  /** Stripping leaves alone a string that neither starts nor ends with whitespace. */
  lemma StripUnchanged(s: string)
    requires s == [] || (!IsSpace(s[0]) && !IsSpace(s[|s| - 1]))
    ensures Strip(s) == s
  {
    SpanIs(s, 0, 0, IsSpace);
    assert TrimStart(s) == s[0..] == s;
    assert TrimEnd(s) == s;
  }

  /** Leading whitespace in front of a word that ends in a non-space character
      is removed by `strip`, and the word survives at the front of the result. */
  lemma StripKeepsWord(pad: string, word: string, rest: string)
    requires AllSpace(pad)
    requires |word| > 0 && !IsSpace(word[0]) && !IsSpace(word[|word| - 1])
    ensures |word| <= |Strip(pad + word + rest)|
    ensures Strip(pad + word + rest)[..|word|] == word
  {
    assert pad + word + rest == pad + (word + rest);
    StripAfterPad(pad, word + rest);
    TrimEndKeepsPrefix(word, rest);
  }

  /** Stripping whitespace and then text that starts with another character is
      `rstrip` of that text. */
  lemma StripAfterPad(pad: string, x: string)
    requires AllSpace(pad) && |x| > 0 && !IsSpace(x[0])
    ensures Strip(pad + x) == TrimEnd(x)
  {
    TrimStartPad(pad, x);
    StripTrims(pad + x);
  }

  /** `rstrip` keeps a prefix that ends in a character other than whitespace. */
  lemma TrimEndKeepsPrefix(word: string, rest: string)
    requires |word| > 0 && !IsSpace(word[|word| - 1])
    ensures |word| <= |TrimEnd(word + rest)|
    ensures TrimEnd(word + rest)[..|word|] == word
  {
    var left := word + rest;
    var r := TrimEnd(left);
    assert left[|word| - 1] == word[|word| - 1];
    TrimEndKeeps(left, |word|);
    forall i | 0 <= i < |word|
      ensures r[i] == word[i]
    {
      assert r[i] == left[..|r|][i] == left[i];
    }
    assert r[..|word|] == word;
  }

  /** `rstrip` stops at the last character that is not whitespace. */
  lemma {:induction false} TrimEndKeeps(s: string, n: nat)
    requires 0 < n <= |s| && !IsSpace(s[n - 1])
    ensures n <= |TrimEnd(s)|
    decreases |s|
  {
    if IsSpace(s[|s| - 1]) {
      assert n < |s|;
      var front := s[..|s| - 1];
      assert front[n - 1] == s[n - 1];
      TrimEndKeeps(front, n);
    }
  }

  /** `lstrip` removes all of a whitespace prefix and stops at the first other character. */
  lemma TrimStartPad(pad: string, x: string)
    requires AllSpace(pad) && |x| > 0 && !IsSpace(x[0])
    ensures TrimStart(pad + x) == x
  {
    var s := pad + x;
    SpanIs(s, 0, |pad|, IsSpace);
    assert s[|pad|..] == x;
  }

  /** `s.capitalize()` on ASCII text: first character upper case, the rest lower case. */
  function Capitalize(s: string): (r: string)
    ensures |r| == |s|
    ensures |s| > 0 ==> r[0] == Upper(s[0])
    ensures forall i :: 0 < i < |s| ==> r[i] == Lower(s[i])
  {
    if |s| == 0 then "" else [Upper(s[0])] + seq(|s| - 1, i requires 0 <= i < |s| - 1 => Lower(s[i + 1]))
  }

  /** A word already in the form `capitalize` produces. */
  predicate IsCapitalized(w: string) {
    |w| > 0 && 'A' <= w[0] <= 'Z' && forall i :: 0 < i < |w| ==> !('A' <= w[i] <= 'Z')
  }

  /** Text matched case-insensitively against a capitalized word capitalizes to that word. */
  lemma CapitalizeMatched(m: string, w: string)
    requires IsCapitalized(w) && |m| == |w|
    requires forall i :: 0 <= i < |w| ==> SameIgnoringCase(m[i], w[i])
    ensures Capitalize(m) == w
  {
    var r := Capitalize(m);
    forall i | 0 <= i < |w|
      ensures r[i] == w[i]
    {
      assert SameIgnoringCase(m[i], w[i]);
      if i == 0 {
        assert IsAsciiLetter(m[0]) by {
          if !IsAsciiLetter(m[0]) { assert Lower(m[0]) == m[0]; }
        }
      }
    }
  }

  /** `sep.join(xs)`. */
  function Join(xs: seq<string>, sep: string): (r: string)
    ensures |xs| == 1 ==> r == xs[0]
    ensures |xs| == 0 ==> r == ""
  {
    if |xs| == 0 then "" else if |xs| == 1 then xs[0] else xs[0] + sep + Join(xs[1..], sep)
  }

  /** The total length of the strings in `xs`. */
  function TotalLength(xs: seq<string>): nat {
    if |xs| == 0 then 0 else |xs[0]| + TotalLength(xs[1..])
  }

  /** The joined text is the elements and one separator between each two of them. */
  lemma {:induction false} JoinLength(xs: seq<string>, sep: string)
    requires |xs| > 0
    ensures |Join(xs, sep)| == TotalLength(xs) + (|xs| - 1) * |sep|
  {
    if |xs| > 1 {
      JoinLength(xs[1..], sep);
    }
  }

  /** Every joined element occurs in the joined text. */
  lemma {:induction false} JoinContainsElements(xs: seq<string>, sep: string, k: nat)
    requires k < |xs|
    ensures Contains(Join(xs, sep), xs[k])
  {
    var j := Join(xs, sep);
    if |xs| == 1 {
      assert LiteralAt(j, 0, xs[0]);
    } else if k == 0 {
      assert j == xs[0] + (sep + Join(xs[1..], sep));
      assert LiteralAt(j, 0, xs[0]);
    } else {
      JoinContainsElements(xs[1..], sep, k - 1);
      var tail := Join(xs[1..], sep);
      var p :| LiteralAt(tail, p, xs[k]);
      var off := |xs[0] + sep|;
      assert j == (xs[0] + sep) + tail;
      assert j[off + p..off + p + |xs[k]|] == tail[p..p + |xs[k]|];
      assert LiteralAt(j, off + p, xs[k]);
    }
  }

  /** Every element of `xs` occurs in their join. */
  lemma JoinContainsAll(xs: seq<string>, sep: string)
    ensures forall k :: 0 <= k < |xs| ==> Contains(Join(xs, sep), xs[k])
  {
    forall k | 0 <= k < |xs|
      ensures Contains(Join(xs, sep), xs[k])
    {
      JoinContainsElements(xs, sep, k);
    }
  }

  /** What occurs inside a substring of `s` occurs in `s`. */
  lemma ContainsWithin(s: string, t: string, p: int, u: string)
    requires Contains(s, t) && LiteralAt(t, p, u)
    ensures Contains(s, u)
  {
    var q :| LiteralAt(s, q, t);
    assert t == s[q..q + |t|];
    forall k | q + p <= k < q + p + |u|
      ensures s[k] == u[k - q - p]
    {
      assert s[k] == t[k - q];
      assert t[k - q] == t[p..p + |u|][k - q - p];
    }
    assert s[q + p..q + p + |u|] == u;
    assert LiteralAt(s, q + p, u);
  }

  /** The middle part of a concatenation sits right after the first part. */
  lemma MiddleAt(a: string, b: string, c: string)
    ensures LiteralAt(a + b + c, |a|, b)
  {
    assert (a + b + c)[|a|..|a| + |b|] == b;
  }

  /** What occurs inside a substring of `s` occurs in `s`, at the shifted position. */
  lemma LiteralWithin(s: string, p: int, t: string, q: int, u: string)
    requires LiteralAt(s, p, t) && LiteralAt(t, q, u)
    ensures LiteralAt(s, p + q, u)
  {
    forall k | 0 <= k < |u|
      ensures s[p + q + k] == u[k]
    {
      assert s[p + q + k] == s[p..p + |t|][q + k] == t[q + k];
      assert t[q + k] == t[q..q + |u|][k];
    }
    assert s[p + q..p + q + |u|] == u;
  }

  /** Python's `t in s` on strings: `t` occurs in `s` as a contiguous substring. */
  ghost predicate Contains(s: string, t: string) {
    exists p :: LiteralAt(s, p, t)
  }

  /** The search behind `t in s`, scanning positions from `p` upwards. */
  function ContainsFrom(s: string, t: string, p: nat): (b: bool)
    requires p <= |s| + 1
    ensures b <==> exists q :: p <= q && LiteralAt(s, q, t)
    decreases |s| + 1 - p
  {
    if p + |t| > |s| then false
    else if s[p..p + |t|] == t then assert LiteralAt(s, p, t); true
    else ContainsFrom(s, t, p + 1)
  }

  function DigitChar(d: nat): (c: char)
    requires d < 10
    ensures IsDigit(c) && c as int - '0' as int == d
  {
    ('0' as int + d) as char
  }

  /** The value of a string of decimal digits. */
  function DecimalValue(s: string): nat
    requires AllDigits(s)
  {
    if |s| == 0 then 0 else 10 * DecimalValue(s[..|s| - 1]) + (s[|s| - 1] as int - '0' as int)
  }

  /** `str(n)` for a non-negative integer: its decimal digits, without leading zeros. */
  function NatToString(n: nat): (r: string)
    ensures |r| > 0 && AllDigits(r)
    ensures DecimalValue(r) == n
    ensures r[0] == '0' ==> n == 0 && r == "0"
  {
    var last := [DigitChar(n % 10)];
    if n < 10 then last
    else
      var front := NatToString(n / 10);
      var r := front + last;
      assert r[..|r| - 1] == front;
      r
  }

  /** `str(n)`: a minus sign exactly for a negative number, followed by the decimal
      digits of its magnitude, without leading zeros. */
  function IntToString(n: int): (r: string)
    ensures n >= 0 ==> r == NatToString(n)
    ensures n < 0 ==> r == "-" + NatToString(-n)
    ensures |r| > 0 && (r[0] == '-' <==> n < 0)
    ensures n >= 0 ==> AllDigits(r) && DecimalValue(r) == n && (r[0] == '0' ==> r == "0")
    ensures n < 0 ==> 1 < |r| && AllDigits(r[1..]) && DecimalValue(r[1..]) == -n && r[1] != '0'
  {
    if n < 0 then
      var r := "-" + NatToString(-n);
      assert r[1..] == NatToString(-n);
      r
    else NatToString(n)
  }
}

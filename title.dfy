/** The title pattern of the post-text extractor,
      ([A-Za-z0-9\s\-]+)\s+(is now available|now available|for sale|on sale|buy now)
    searched with `re.IGNORECASE`. The matcher below follows the backtracking order of
    Python's `re.search`: start positions from the left, group 1 from its greedy end
    downwards, `\s+` from its greedy end downwards. Its result is characterised by
    `MatchAt`: the leftmost start, and at that start the longest group 1. */
module TitleMatch {
  import opened Text

  /** The character class of group 1. */
  predicate IsTitleChar(c: char) {
    IsAsciiLetter(c) || IsDigit(c) || IsSpace(c) || c == '-'
  }

  /** One of the five alternatives of group 2 starts at `k`. */
  predicate PhraseAt(s: string, k: int) {
    || LiteralAtIgnoringCase(s, k, "is now available")
    || LiteralAtIgnoringCase(s, k, "now available")
    || LiteralAtIgnoringCase(s, k, "for sale")
    || LiteralAtIgnoringCase(s, k, "on sale")
    || LiteralAtIgnoringCase(s, k, "buy now")
  }

  /** `\s+(phrase)` matches at `e`: some non-empty run of whitespace from `e` ends where a phrase starts. */
  ghost predicate SeparatorAt(s: string, e: int) {
    exists k :: 0 <= e < k <= |s| && (forall t :: e <= t < k ==> IsSpace(s[t])) && PhraseAt(s, k)
  }

  /** The whole pattern matches from `i` with group 1 equal to `s[i..e]`. */
  ghost predicate MatchAt(s: string, i: int, e: int) {
    0 <= i < e <= |s| && (forall t :: i <= t < e ==> IsTitleChar(s[t])) && SeparatorAt(s, e)
  }

  /** `\s+` backtracking: the phrase is tried after `s[e..k]`, then after shorter runs. */
  function PhraseAfterSpaces(s: string, e: nat, k: nat): (b: bool)
    requires e <= k <= |s|
    ensures b <==> exists k' :: e < k' <= k && PhraseAt(s, k')
    decreases k
  {
    if k == e then false
    else if PhraseAt(s, k) then true
    else PhraseAfterSpaces(s, e, k - 1)
  }

  /** `\s+(phrase)` at `e`, starting from the greedy run of whitespace. */
  function SeparatorFrom(s: string, e: nat): (b: bool)
    requires e <= |s|
    ensures b <==> SeparatorAt(s, e)
  {
    var j := Span(s, e, IsSpace);
    SeparatorWithinSpan(s, e, j);
    PhraseAfterSpaces(s, e, j)
  }

  /** A phrase reached over whitespace from `e` starts within the whitespace run from `e`
      or right after it. */
  lemma SeparatorWithinSpan(s: string, e: nat, j: nat)
    requires e <= j <= |s|
    requires forall t :: e <= t < j ==> IsSpace(s[t])
    requires j == |s| || !IsSpace(s[j])
    ensures SeparatorAt(s, e) <==> exists k :: e < k <= j && PhraseAt(s, k)
  {
    if k :| e < k <= j && PhraseAt(s, k) {
      assert forall t :: e <= t < k ==> IsSpace(s[t]);
    }
    if SeparatorAt(s, e) {
      var k :| e < k <= |s| && (forall t :: e <= t < k ==> IsSpace(s[t])) && PhraseAt(s, k);
    }
  }

  /** Group 1 backtracking: the group ends at `e`, then one character earlier, down to `i + 1`.
      The result is the largest end in `(i, e]` after which the rest of the pattern matches. */
  function GroupEnd(s: string, i: nat, e: nat): (r: Option<nat>)
    requires i <= e <= |s|
    ensures r.Some? ==> i < r.value <= e && SeparatorAt(s, r.value)
    ensures r.Some? ==> forall e' :: r.value < e' <= e ==> !SeparatorAt(s, e')
    ensures r.None? ==> forall e' :: i < e' <= e ==> !SeparatorAt(s, e')
    decreases e
  {
    if e == i then None
    else if SeparatorFrom(s, e) then Some(e)
    else GroupEnd(s, i, e - 1)
  }

  /** `re.search` from position `i` onwards: the first start that matches, with its group 1 end. */
  function SearchFrom(s: string, i: nat): (r: Option<(nat, nat)>)
    requires i <= |s|
    ensures r.Some? ==> i <= r.value.0 && MatchAt(s, r.value.0, r.value.1)
    ensures r.Some? ==> forall i', e' :: i <= i' < r.value.0 ==> !MatchAt(s, i', e')
    ensures r.Some? ==> forall e' :: r.value.1 < e' ==> !MatchAt(s, r.value.0, e')
    ensures r.None? ==> forall i', e' :: i <= i' ==> !MatchAt(s, i', e')
    decreases |s| - i
  {
    if i == |s| then None
    else
      var j := Span(s, i, IsTitleChar);
      match GroupEnd(s, i, j)
      case Some(e) =>
        Some((i, e))
      case None =>
        SearchFrom(s, i + 1)
  }

  /** Group 1 of `re.search` over the whole text, stripped; "" when the pattern does not match. */
  function Title(s: string): (r: string)
  {
    match SearchFrom(s, 0)
    case Some((i, e)) => Strip(s[i..e])
    case None => ""
  }

  /** The title is the stripped group 1 of the leftmost match, taken as long as possible,
      and it is empty when no start position matches. */
  lemma TitleIsLeftmostLongest(s: string)
    ensures (forall i, e :: !MatchAt(s, i, e)) ==> Title(s) == ""
    ensures (exists i, e :: MatchAt(s, i, e)) ==>
      exists i, e :: && MatchAt(s, i, e)
                     && Title(s) == Strip(s[i..e])
                     && (forall i', e' :: 0 <= i' < i ==> !MatchAt(s, i', e'))
                     && (forall e' :: e < e' ==> !MatchAt(s, i, e'))
  {
    match SearchFrom(s, 0)
    case Some((i, e)) =>
    case None =>
  }

  /** One word of group-1 characters, without whitespace. */
  predicate IsWord(w: string) {
    |w| > 0 && forall t :: 0 <= t < |w| ==> IsTitleChar(w[t]) && !IsSpace(w[t])
  }

  /** A phrase that starts at `k` starts with its first letter. */
  lemma FirstLetterOfLiteral(s: string, k: int, lit: string)
    requires |lit| > 0
    ensures LiteralAtIgnoringCase(s, k, lit) ==> SameIgnoringCase(s[k], lit[0])
  {
    if LiteralAtIgnoringCase(s, k, lit) {
      assert SameIgnoringCase(s[k + 0], lit[0]);
    }
  }

  /** No phrase starts at a character that is not the first letter of one of them. */
  lemma NoPhraseAt(s: string, k: int)
    requires 0 <= k < |s|
    requires !SameIgnoringCase(s[k], 'i') && !SameIgnoringCase(s[k], 'n')
    requires !SameIgnoringCase(s[k], 'f') && !SameIgnoringCase(s[k], 'o')
    requires !SameIgnoringCase(s[k], 'b')
    ensures !PhraseAt(s, k)
  {
    FirstLetterOfLiteral(s, k, "is now available");
    FirstLetterOfLiteral(s, k, "now available");
    FirstLetterOfLiteral(s, k, "for sale");
    FirstLetterOfLiteral(s, k, "on sale");
    FirstLetterOfLiteral(s, k, "buy now");
  }

  /** An exact occurrence is also an occurrence under `re.IGNORECASE`. */
  lemma IgnoringCaseOfExact(s: string, p: int, lit: string)
    requires LiteralAt(s, p, lit)
    ensures LiteralAtIgnoringCase(s, p, lit)
  {
    forall t | 0 <= t < |lit|
      ensures SameIgnoringCase(s[p + t], lit[t])
    {
      assert s[p..p + |lit|][t] == s[p + t];
    }
  }

  /** Group 1 cannot end at `e` when `s[e]` is not whitespace. */
  lemma SeparatorStartsWithSpace(s: string, e: int)
    requires SeparatorAt(s, e)
    ensures e < |s| && IsSpace(s[e])
  {
  }

  /** The start `i` and group-1 end `e` of the leftmost-longest match, given a match
      `(0, e0)` and no match from start 0 ending after `e0`. */
  lemma SearchFindsMatch(s: string, e0: int)
    requires MatchAt(s, 0, e0)
    requires forall e :: e0 < e ==> !MatchAt(s, 0, e)
    ensures Title(s) == Strip(s[0..e0])
  {
    var r := SearchFrom(s, 0);
    assert r.Some?;
    assert r.value.0 == 0 && r.value.1 == e0;
  }

  /** "<word> is now available" gives the title "<word> is", not "<word>": the words
      of the phrase belong to the character class of group 1, "now available" is an
      alternative of its own, and group 1 is taken as long as possible. */
  lemma TitleKeepsIs(w: string, rest: string)
    requires IsWord(w)
    requires rest == [] || !IsTitleChar(rest[0])
    ensures Title(w + " is now available" + rest) == w + " is"
  {
    var s := w + " is now available" + rest;
    KeepsIsFound(w, rest);
    SplitAfterIs(w, rest);
    GroupText(w + " is", " now available" + rest, s);
    StripUnchanged(w + " is");
  }

  /** "<word> for sale" gives the title "<word>": no whitespace after the word leads to
      another phrase. */
  lemma TitleBeforeForSale(w: string, rest: string)
    requires IsWord(w)
    requires rest == [] || !IsTitleChar(rest[0])
    ensures Title(w + " for sale" + rest) == w
  {
    var s := w + " for sale" + rest;
    ForSaleFound(w, rest);
    Associate(w, " for sale", rest);
    GroupText(w, " for sale" + rest, s);
    StripUnchanged(w);
  }

  lemma KeepsIsFound(w: string, rest: string)
    requires IsWord(w)
    requires rest == [] || !IsTitleChar(rest[0])
    ensures var s := w + " is now available" + rest;
      |w| + 3 <= |s| && Title(s) == Strip(s[0..|w| + 3])
  {
    KeepsIsMatches(w, rest);
    KeepsIsLongest(w, rest);
    SearchFindsMatch(w + " is now available" + rest, |w| + 3);
  }

  lemma ForSaleFound(w: string, rest: string)
    requires IsWord(w)
    requires rest == [] || !IsTitleChar(rest[0])
    ensures var s := w + " for sale" + rest;
      |w| <= |s| && Title(s) == Strip(s[0..|w|])
  {
    ForSaleMatches(w, rest);
    ForSaleLongest(w, rest);
    SearchFindsMatch(w + " for sale" + rest, |w|);
  }

  lemma SplitAfterIs(w: string, rest: string)
    ensures w + " is now available" + rest == (w + " is") + (" now available" + rest)
  {
    assert " is now available" == " is" + " now available";
  }

  lemma Associate(a: string, b: string, c: string)
    ensures a + b + c == a + (b + c)
  {
  }

  /** The text of a group that covers the front part of a concatenation. */
  lemma GroupText(front: string, back: string, s: string)
    requires s == front + back
    ensures s[0..|front|] == front
  {
  }

  lemma ForSaleMatches(w: string, rest: string)
    requires IsWord(w)
    ensures MatchAt(w + " for sale" + rest, 0, |w|)
  {
    var s := w + " for sale" + rest;
    var n := |w|;
    assert forall t :: 0 <= t < n ==> s[t] == w[t];
    assert s[n] == ' ';
    assert s[n + 1..n + 9] == "for sale";
    IgnoringCaseOfExact(s, n + 1, "for sale");
    assert PhraseAt(s, n + 1);
    assert forall t :: n <= t < n + 1 ==> IsSpace(s[t]);
    assert SeparatorAt(s, n);
  }

  lemma ForSaleLongest(w: string, rest: string)
    requires IsWord(w)
    requires rest == [] || !IsTitleChar(rest[0])
    ensures forall e :: |w| < e ==> !MatchAt(w + " for sale" + rest, 0, e)
  {
    var s := w + " for sale" + rest;
    var n := |w|;
    assert s[n..n + 9] == " for sale";
    assert forall t :: n < t < n + 9 && t != n + 4 ==> !IsSpace(s[t]);
    assert s[n + 5] == 's';
    NoPhraseAt(s, n + 5);
    assert n + 9 == |s| || s[n + 9] == rest[0];
    OnlySeparatorAt(s, 0, n, n + 4, n + 9);
  }

  lemma KeepsIsMatches(w: string, rest: string)
    requires IsWord(w)
    ensures MatchAt(w + " is now available" + rest, 0, |w| + 3)
  {
    var tail := " is now available";
    var s := w + tail + rest;
    var n := |w|;
    assert forall t :: 0 <= t < n ==> s[t] == w[t];
    assert s[n..n + 3] == " is";
    assert s[n + 3] == ' ';
    assert s[n + 4..n + 17] == "now available";
    IgnoringCaseOfExact(s, n + 4, "now available");
    assert PhraseAt(s, n + 4);
    assert forall t :: n + 3 <= t < n + 4 ==> IsSpace(s[t]);
    assert SeparatorAt(s, n + 3);
    assert forall t :: 0 <= t < n + 3 ==> IsTitleChar(s[t]);
  }

  lemma KeepsIsLongest(w: string, rest: string)
    requires IsWord(w)
    requires rest == [] || !IsTitleChar(rest[0])
    ensures forall e :: |w| + 3 < e ==> !MatchAt(w + " is now available" + rest, 0, e)
  {
    var tail := " is now available";
    var s := w + tail + rest;
    var n := |w|;
    assert s[n + 3..n + 17] == " now available";
    assert forall t :: n + 3 < t < n + 17 && t != n + 7 ==> !IsSpace(s[t]);
    assert s[n + 8] == 'a';
    NoPhraseAt(s, n + 8);
    assert n + 17 == |s| || s[n + 17] == rest[0];
    OnlySeparatorAt(s, 0, n + 3, n + 7, n + 17);
  }

  /** Between `a` and the end `b` of a run of group-1 characters, let `m` be the only
      whitespace. Then a match from `i` whose group 1 ends after `a` ends at `m`,
      and a phrase starts right after `m`. */
  lemma OnlySeparatorAt(s: string, i: int, a: int, m: int, b: int)
    requires 0 <= i <= a < m && m + 1 < b <= |s|
    requires forall t :: a < t < b && t != m ==> !IsSpace(s[t])
    requires b == |s| || !IsTitleChar(s[b])
    ensures forall e :: a < e && MatchAt(s, i, e) ==> e == m && PhraseAt(s, m + 1)
  {
    forall e | a < e && MatchAt(s, i, e)
      ensures e == m && PhraseAt(s, m + 1)
    {
      SeparatorAtOnly(s, i, a, m, b, e);
    }
  }

  lemma SeparatorAtOnly(s: string, i: int, a: int, m: int, b: int, e: int)
    requires 0 <= i <= a < m && m + 1 < b <= |s|
    requires forall t :: a < t < b && t != m ==> !IsSpace(s[t])
    requires b == |s| || !IsTitleChar(s[b])
    requires a < e && MatchAt(s, i, e)
    ensures e == m && PhraseAt(s, m + 1)
  {
    SeparatorStartsWithSpace(s, e);
    assert b < |s| ==> !IsTitleChar(s[b]);
    assert e < b;
    PhraseRightAfter(s, m);
  }

  /** A separator that is a single whitespace character is followed by a phrase. */
  lemma PhraseRightAfter(s: string, m: int)
    requires SeparatorAt(s, m) && m + 1 < |s| && !IsSpace(s[m + 1])
    ensures PhraseAt(s, m + 1)
  {
    var k :| 0 <= m < k <= |s| && (forall t :: m <= t < k ==> IsSpace(s[t])) && PhraseAt(s, k);
    assert k == m + 1;
  }
}

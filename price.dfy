/** The price pattern of the post-text extractor,
      (Rs\.\s?\d{1,3}(?:,\d{3})*(?:\.\d{2})?)|(USD\s?\d+(\.\d{2})?)
    searched with `re.IGNORECASE`. At each start position the rupee branch is tried
    before the dollar branch. Every part after the first digit may match nothing,
    so the greedy first attempt of Python's backtracking matcher always succeeds.
    The matcher therefore reads greedily, and `TokenLongest` shows that this is the
    longest text the pattern matches at that position. */
module PriceMatch {
  import opened Text

  // ---------------------------------------------------------------------------
  // The pattern as a whole-text recognizer over s[x..y]

  /** `(?:\.\d{2})?` matches exactly s[x..y]. */
  predicate CentsBetween(s: string, x: int, y: int) {
    0 <= x <= y <= |s| && (x == y || (y == x + 3 && s[x] == '.' && DigitsBetween(s, x + 1, y)))
  }

  /** `(?:,\d{3})*(?:\.\d{2})?` matches exactly s[x..y]. */
  predicate GroupsThenCents(s: string, x: int, y: int)
    decreases y - x
  {
    0 <= x <= y <= |s| &&
    (CentsBetween(s, x, y) ||
     (x + 4 <= y && s[x] == ',' && DigitsBetween(s, x + 1, x + 4) && GroupsThenCents(s, x + 4, y)))
  }

  /** `\d{1,3}(?:,\d{3})*(?:\.\d{2})?` matches exactly s[x..y]. */
  ghost predicate RupeeAmount(s: string, x: int, y: int) {
    exists m :: x + 1 <= m <= x + 3 && DigitsBetween(s, x, m) && GroupsThenCents(s, m, y)
  }

  /** `\d+(\.\d{2})?` matches exactly s[x..y]. */
  ghost predicate DollarAmount(s: string, x: int, y: int) {
    exists m :: x + 1 <= m && DigitsBetween(s, x, m) && CentsBetween(s, m, y)
  }

  /** The rupee branch matches exactly s[p..y]. */
  ghost predicate IsRupeePrice(s: string, p: int, y: int) {
    LiteralAtIgnoringCase(s, p, "rs.") &&
    (RupeeAmount(s, p + 3, y) || (p + 3 < |s| && IsSpace(s[p + 3]) && RupeeAmount(s, p + 4, y)))
  }

  /** The dollar branch matches exactly s[p..y]. */
  ghost predicate IsDollarPrice(s: string, p: int, y: int) {
    LiteralAtIgnoringCase(s, p, "usd") &&
    (DollarAmount(s, p + 3, y) || (p + 3 < |s| && IsSpace(s[p + 3]) && DollarAmount(s, p + 4, y)))
  }

  /** The price pattern matches exactly s[p..y]. */
  ghost predicate PriceMatchAt(s: string, p: int, y: int) {
    IsRupeePrice(s, p, y) || IsDollarPrice(s, p, y)
  }

  // ---------------------------------------------------------------------------
  // The matcher

  /** `(?:\.\d{2})?` read greedily from `g`. */
  function CentsEnd(s: string, g: nat): (c: nat)
    requires g <= |s|
    ensures CentsBetween(s, g, c)
  {
    if g + 3 <= |s| && s[g] == '.' && IsDigit(s[g + 1]) && IsDigit(s[g + 2]) then g + 3 else g
  }

  /** `(?:,\d{3})*` read greedily from `d`. */
  function GroupsEnd(s: string, d: nat): (g: nat)
    requires d <= |s|
    ensures d <= g <= |s|
    ensures g == d || (d + 4 <= g && IsDigit(s[g - 1]))
    decreases |s| - d
  {
    if d + 4 <= |s| && s[d] == ',' && IsDigit(s[d + 1]) && IsDigit(s[d + 2]) && IsDigit(s[d + 3])
    then GroupsEnd(s, d + 4)
    else d
  }

  /** The rupee branch at `p`: the end of its match. */
  function RupeeEnd(s: string, p: nat): (r: Option<nat>)
    requires p <= |s|
  {
    if !LiteralAtIgnoringCase(s, p, "rs.") then None
    else
      var q := OptionalSpaceEnd(s, p + 3);
      var j := Span(s, q, IsDigit);
      var d := if j - q > 3 then q + 3 else j;
      if d == q then None else Some(CentsEnd(s, GroupsEnd(s, d)))
  }

  /** The dollar branch at `p`: the end of its match. */
  function DollarEnd(s: string, p: nat): (r: Option<nat>)
    requires p <= |s|
  {
    if !LiteralAtIgnoringCase(s, p, "usd") then None
    else
      var q := OptionalSpaceEnd(s, p + 3);
      var d := Span(s, q, IsDigit);
      if d == q then None else Some(CentsEnd(s, d))
  }

  /** The pattern at `p`: the rupee branch first, then the dollar branch. */
  function TokenEnd(s: string, p: nat): (r: Option<nat>)
    requires p <= |s|
  {
    if RupeeEnd(s, p).Some? then RupeeEnd(s, p) else DollarEnd(s, p)
  }

  /** The scan of `re.search`: `attempt` is tried at each start from `p` up to `n` in
      turn, and the first start where it succeeds is returned with the end it gives. */
  function FirstMatch(attempt: nat -> Option<nat>, p: nat, n: nat): (r: Option<(nat, nat)>)
    requires p <= n
    ensures r.Some? ==> p <= r.value.0 <= n && attempt(r.value.0) == Some(r.value.1)
    decreases n - p
  {
    match attempt(p)
    case Some(t) => Some((p, t))
    case None => if p == n then None else FirstMatch(attempt, p + 1, n)
  }

  /** The scan passes over every start before the one it returns, or every start when it
      returns nothing: the attempt fails at each of them. */
  lemma {:induction false} FirstMatchSkips(attempt: nat -> Option<nat>, p: nat, q: nat, n: nat)
    requires p <= q <= n
    requires FirstMatch(attempt, p, n).None? || q < FirstMatch(attempt, p, n).value.0
    ensures attempt(q).None?
    decreases q - p
  {
    if p < q {
      assert attempt(p).None? && FirstMatch(attempt, p, n) == FirstMatch(attempt, p + 1, n);
      FirstMatchSkips(attempt, p + 1, q, n);
    }
  }

  /** The pattern tried at a start of `s`; a start past the end never matches. */
  function Attempt(s: string): nat -> Option<nat> {
    (q: nat) => if q <= |s| then TokenEnd(s, q) else None
  }

  /** `re.search` from `p` onwards: the first start at which the pattern matches. */
  function SearchFrom(s: string, p: nat): (r: Option<(nat, nat)>)
    requires p <= |s|
    ensures r.Some? ==> p <= r.value.0 <= |s| && TokenEnd(s, r.value.0) == Some(r.value.1)
  {
    FirstMatch(Attempt(s), p, |s|)
  }

  /** The search passes over every start before the one it returns, or every start
      when it finds nothing: the pattern does not match at any of them. */
  lemma SearchSkips(s: string, p: nat, q: nat)
    requires p <= q <= |s|
    requires SearchFrom(s, p).None? || q < SearchFrom(s, p).value.0
    ensures TokenEnd(s, q).None?
  {
    FirstMatchSkips(Attempt(s), p, q, |s|);
    assert Attempt(s)(q) == TokenEnd(s, q);
  }

  /** `match.group(0).strip()` of the search, or "" when nothing matches. */
  function Price(s: string): string {
    match SearchFrom(s, 0)
    case Some((p, t)) => Strip(s[p..t])
    case None => ""
  }

  // ---------------------------------------------------------------------------
  // The matcher against the recognizer

  /** The greedy reading of `(?:,\d{3})*(?:\.\d{2})?` from `d` is a match, and no
      match from `d` is longer. */
  lemma {:induction false} GroupsLongest(s: string, d: nat)
    requires d <= |s|
    ensures GroupsThenCents(s, d, CentsEnd(s, GroupsEnd(s, d)))
    ensures forall y :: GroupsThenCents(s, d, y) ==> y <= CentsEnd(s, GroupsEnd(s, d))
    decreases |s| - d
  {
    if d + 4 <= |s| && s[d] == ',' && IsDigit(s[d + 1]) && IsDigit(s[d + 2]) && IsDigit(s[d + 3]) {
      GroupsLongest(s, d + 4);
      assert DigitsBetween(s, d + 1, d + 4);
    } else {
      forall y | GroupsThenCents(s, d, y)
        ensures y <= CentsEnd(s, d)
      {
        assert !(d + 4 <= y && s[d] == ',' && DigitsBetween(s, d + 1, d + 4));
      }
    }
  }

  /** The rupee branch, when it matches, ends where the longest exact match ends,
      and it fails only when nothing after "Rs." can be matched. */
  lemma RupeeLongest(s: string, p: nat)
    requires p <= |s|
    ensures RupeeEnd(s, p).Some? ==> IsRupeePrice(s, p, RupeeEnd(s, p).value)
    ensures RupeeEnd(s, p).Some? ==> forall y :: IsRupeePrice(s, p, y) ==> y <= RupeeEnd(s, p).value
    ensures RupeeEnd(s, p).None? ==> forall y :: !IsRupeePrice(s, p, y)
  {
    if LiteralAtIgnoringCase(s, p, "rs.") {
      var q := OptionalSpaceEnd(s, p + 3);
      var j := Span(s, q, IsDigit);
      var d := if j - q > 3 then q + 3 else j;
      GroupsLongest(s, d);
      var c := CentsEnd(s, GroupsEnd(s, d));
      forall y | IsRupeePrice(s, p, y)
        ensures d > q && y <= c
      {
        AmountStartsAt(s, p, y, q);
        var m :| q + 1 <= m <= q + 3 && DigitsBetween(s, q, m) && GroupsThenCents(s, m, y);
        LeadingDigits(s, q, m, d, y);
      }
      if d > q {
        assert DigitsBetween(s, q, d);
        assert RupeeAmount(s, q, c);
      }
    }
  }

  /** The amount of a rupee match starts after the optional whitespace, read greedily. */
  lemma AmountStartsAt(s: string, p: nat, y: int, q: nat)
    requires p + 3 <= |s| && q == OptionalSpaceEnd(s, p + 3)
    requires RupeeAmount(s, p + 3, y) || (p + 3 < |s| && IsSpace(s[p + 3]) && RupeeAmount(s, p + 4, y))
    ensures RupeeAmount(s, q, y)
  {
    if RupeeAmount(s, p + 3, y) {
      var m :| p + 4 <= m <= p + 6 && DigitsBetween(s, p + 3, m) && GroupsThenCents(s, m, y);
      assert IsDigit(s[p + 3]);
    }
  }

  /** A match of `\d{1,3}` followed by groups and cents uses as many leading digits as the
      greedy reading does (or ends inside them), so it ends no later than the greedy match. */
  lemma LeadingDigits(s: string, q: nat, m: nat, d: nat, y: int)
    requires q <= |s| && q + 1 <= m <= q + 3
    requires d == (if Span(s, q, IsDigit) - q > 3 then q + 3 else Span(s, q, IsDigit))
    requires DigitsBetween(s, q, m) && GroupsThenCents(s, m, y)
    requires forall y' :: GroupsThenCents(s, d, y') ==> y' <= CentsEnd(s, GroupsEnd(s, d))
    ensures d > q && y <= CentsEnd(s, GroupsEnd(s, d))
  {
    if m < d {
      // the character after the leading digits is a digit, which neither a group nor cents start with
      assert IsDigit(s[m]);
      assert y == m;
    }
  }

  /** The dollar branch, when it matches, ends where the longest exact match ends,
      and it fails only when nothing after "USD" can be matched. */
  lemma DollarLongest(s: string, p: nat)
    requires p <= |s|
    ensures DollarEnd(s, p).Some? ==> IsDollarPrice(s, p, DollarEnd(s, p).value)
    ensures DollarEnd(s, p).Some? ==> forall y :: IsDollarPrice(s, p, y) ==> y <= DollarEnd(s, p).value
    ensures DollarEnd(s, p).None? ==> forall y :: !IsDollarPrice(s, p, y)
  {
    if LiteralAtIgnoringCase(s, p, "usd") {
      var q := OptionalSpaceEnd(s, p + 3);
      var d := Span(s, q, IsDigit);
      var c := CentsEnd(s, d);
      forall y | IsDollarPrice(s, p, y)
        ensures d > q && y <= c
      {
        var m: int;
        if DollarAmount(s, p + 3, y) {
          m :| p + 4 <= m && DigitsBetween(s, p + 3, m) && CentsBetween(s, m, y);
          assert IsDigit(s[p + 3]);
        } else {
          m :| p + 5 <= m && DigitsBetween(s, p + 4, m) && CentsBetween(s, m, y);
        }
        assert q + 1 <= m <= d && DigitsBetween(s, q, m);
        if m < d {
          assert IsDigit(s[m]);
        }
      }
      if d > q {
        assert DigitsBetween(s, q, d);
        assert DollarAmount(s, q, c);
      }
    }
  }

  /** At a given start the pattern matches exactly when some text from there is a
      price, and it then takes the longest such text. */
  lemma TokenLongest(s: string, p: nat)
    requires p <= |s|
    ensures TokenEnd(s, p).Some? ==> PriceMatchAt(s, p, TokenEnd(s, p).value)
    ensures TokenEnd(s, p).Some? ==> forall y :: PriceMatchAt(s, p, y) ==> y <= TokenEnd(s, p).value
    ensures TokenEnd(s, p).None? ==> forall y :: !PriceMatchAt(s, p, y)
  {
    RupeeLongest(s, p);
    DollarLongest(s, p);
    FirstLetter(s, p, "rs.");
    FirstLetter(s, p, "usd");
  }

  lemma FirstLetter(s: string, p: nat, lit: string)
    requires |lit| > 0
    ensures LiteralAtIgnoringCase(s, p, lit) ==> SameIgnoringCase(s[p], lit[0])
  {
    if LiteralAtIgnoringCase(s, p, lit) {
      assert SameIgnoringCase(s[p + 0], lit[0]);
    }
  }

  /** A price text starts with a letter and ends with a digit. */
  lemma TokenShape(s: string, p: nat)
    requires p <= |s| && TokenEnd(s, p).Some?
    ensures p + 4 <= TokenEnd(s, p).value <= |s|
    ensures IsAsciiLetter(s[p]) && IsDigit(s[TokenEnd(s, p).value - 1])
  {
    FirstLetter(s, p, "rs.");
    FirstLetter(s, p, "usd");
  }

  /** The extracted price is "" when no text is a price; otherwise it is the longest
      price text at the leftmost position where one starts, unchanged by `strip`. */
  lemma PriceIsLeftmostLongest(s: string)
    ensures (forall p, y :: !PriceMatchAt(s, p, y)) ==> Price(s) == ""
    ensures (exists p, y :: PriceMatchAt(s, p, y)) ==>
      exists p, t :: && PriceMatchAt(s, p, t)
                     && Price(s) == s[p..t]
                     && (forall p', y :: p' < p ==> !PriceMatchAt(s, p', y))
                     && (forall y :: PriceMatchAt(s, p, y) ==> y <= t)
  {
    var r := SearchFrom(s, 0);
    if r.Some? {
      PriceFound(s, r.value.0, r.value.1);
    } else {
      forall p, y
        ensures !PriceMatchAt(s, p, y)
      {
        if 0 <= p <= |s| {
          SearchSkips(s, 0, p);
          TokenLongest(s, p);
        }
      }
    }
  }

  lemma PriceFound(s: string, p: nat, t: nat)
    requires SearchFrom(s, 0) == Some((p, t))
    ensures PriceMatchAt(s, p, t)
    ensures Price(s) == s[p..t]
    ensures forall p', y :: p' < p ==> !PriceMatchAt(s, p', y)
    ensures forall y :: PriceMatchAt(s, p, y) ==> y <= t
  {
    TokenLongest(s, p);
    NoPriceBefore(s, p, t);
    PriceUnstripped(s, p, t);
  }

  lemma NoPriceBefore(s: string, p: nat, t: nat)
    requires SearchFrom(s, 0) == Some((p, t))
    ensures forall p', y :: p' < p ==> !PriceMatchAt(s, p', y)
  {
    forall p', y | p' < p
      ensures !PriceMatchAt(s, p', y)
    {
      if 0 <= p' {
        SearchSkips(s, 0, p');
        TokenLongest(s, p');
      }
    }
  }

  lemma PriceUnstripped(s: string, p: nat, t: nat)
    requires p <= |s| && TokenEnd(s, p) == Some(t)
    ensures p < t <= |s| && Strip(s[p..t]) == s[p..t]
  {
    TokenShape(s, p);
    var u := s[p..t];
    assert u[0] == s[p] && u[|u| - 1] == s[t - 1];
    StripUnchanged(u);
  }

  // ---------------------------------------------------------------------------
  // Consequences of `\d{1,3}` and of the branch order

  /** `\d{1,3}` stops after three digits: in "Rs. 2500" the price is "Rs. 250". */
  lemma RupeeTakesThreeLeadingDigits(s: string)
    requires |s| >= 8 && LiteralAtIgnoringCase(s, 0, "rs.") && s[3] == ' ' && AllDigits(s[4..8])
    ensures Price(s) == s[..7]
  {
    assert IsDigit(s[4]) && IsDigit(s[7]);
    var j := Span(s, 4, IsDigit);
    assert j >= 8 by {
      if j < 8 { assert IsDigit(s[4..8][j - 4]); }
    }
    assert GroupsEnd(s, 7) == 7;
    assert RupeeEnd(s, 0) == Some(7);
    assert SearchFrom(s, 0) == Some((0, 7));
    PriceUnstripped(s, 0, 7);
  }

  /** Digit groups and cents are kept whole: text starting with "Rs. 1,200.50"
      has that as its price. */
  lemma RupeeKeepsGroupsAndCents(s: string)
    requires |s| >= 12 && s[..12] == "Rs. 1,200.50"
    ensures Price(s) == "Rs. 1,200.50"
  {
    assert s[0] == 'R' && s[1] == 's' && s[2] == '.' && s[3] == ' ';
    assert s[4] == '1' && s[5] == ',' && s[6] == '2' && s[7] == '0' && s[8] == '0';
    assert s[9] == '.' && s[10] == '5' && s[11] == '0';
    assert LiteralAtIgnoringCase(s, 0, "rs.");
    assert Span(s, 4, IsDigit) == 5;
    assert GroupsEnd(s, 9) == 9;
    assert GroupsEnd(s, 5) == 9;
    assert RupeeEnd(s, 0) == Some(12);
    assert SearchFrom(s, 0) == Some((0, 12));
    PriceUnstripped(s, 0, 12);
  }

  /** The dollar branch matches its prefix case-insensitively and takes two-digit cents:
      text starting with "usd 49.99" has that as its price. */
  lemma DollarIgnoresCase(s: string)
    requires |s| >= 9 && s[..9] == "usd 49.99"
    ensures Price(s) == "usd 49.99"
  {
    assert s[0] == 'u' && s[1] == 's' && s[2] == 'd' && s[3] == ' ';
    assert s[4] == '4' && s[5] == '9' && s[6] == '.' && s[7] == '9' && s[8] == '9';
    assert !SameIgnoringCase(s[0 + 0], "rs."[0]);
    assert RupeeEnd(s, 0) == None;
    assert LiteralAtIgnoringCase(s, 0, "usd");
    assert Span(s, 4, IsDigit) == 6;
    assert DollarEnd(s, 0) == Some(9);
    assert SearchFrom(s, 0) == Some((0, 9));
    PriceUnstripped(s, 0, 9);
  }
}

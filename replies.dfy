/** Reading the two generated replies of the listing step: the dimensions reply against
      (\d+)\s?cm\s*x\s*(\d+)\s?cm\s*x\s*(\d+)\s?cm
    and the weight reply against
      (\d+(\.\d{1,2})?)\s?kg
    both with `re.match`: anchored at the start of the stripped reply, not at its end,
    and case-sensitive, so "cm", "x" and "kg" must be lower case. An empty reply is
    first replaced by "0 cm x 0 cm x 0 cm" or "0 kg". When a pattern does not match the
    fields become "0".

    In both patterns every part that backtracking could shorten is followed by a
    character that the shorter reading cannot accept (a digit after `\d+`, a space
    after `\s*`), so the first reading a backtracking matcher tries is the only one
    that can succeed. The parsers read greedily, and the `...Sound`/`...Complete`
    lemmas show that they succeed exactly when the pattern matches, with the same
    groups. */
module GeneratedReplies {
  import opened Text

  // ---------------------------------------------------------------------------
  // Dimensions: the pattern as a recognizer over positions

  /** `(\d+)\s?cm` matches exactly s[x..y], with the group s[x..m]. */
  predicate MeasureAt(s: string, x: int, m: int, y: int) {
    x < m && DigitsBetween(s, x, m) &&
    ((y == m + 2 && LiteralAt(s, m, "cm")) ||
     (y == m + 3 && m < |s| && IsSpace(s[m]) && LiteralAt(s, m + 1, "cm")))
  }

  /** `\s*x\s*` matches exactly s[x..y]. */
  ghost predicate CrossAt(s: string, x: int, y: int) {
    exists c :: x <= c < y && SpacesBetween(s, x, c) && SpacesBetween(s, c + 1, y) && s[c] == 'x'
  }

  /** The dimensions pattern matches s[0..y] with groups h, w, l. */
  ghost predicate DimsMatch(s: string, y: int, h: string, w: string, l: string) {
    exists m1, e1, x2, m2, e2, x3, m3 ::
      && MeasureAt(s, 0, m1, e1) && CrossAt(s, e1, x2)
      && MeasureAt(s, x2, m2, e2) && CrossAt(s, e2, x3)
      && MeasureAt(s, x3, m3, y)
      && h == s[0..m1] && w == s[x2..m2] && l == s[x3..m3]
  }

  // ---------------------------------------------------------------------------
  // Dimensions: the parser

  /** `(\d+)\s?cm` read from `x`: the group's end and the match's end. */
  function ParseMeasure(s: string, x: nat): (r: Option<(nat, nat)>)
    requires x <= |s|
    ensures r.Some? ==> MeasureAt(s, x, r.value.0, r.value.1)
  {
    var m := Span(s, x, IsDigit);
    var c := OptionalSpaceEnd(s, m);
    if m == x then None
    else if LiteralAt(s, c, "cm") then Some((m, c + 2))
    else None
  }

  /** `\s*x\s*` read from `x`: the match's end. */
  function ParseCross(s: string, x: nat): (r: Option<nat>)
    requires x <= |s|
    ensures r.Some? ==> x < r.value <= |s| && CrossAt(s, x, r.value)
  {
    var c := Span(s, x, IsSpace);
    if c < |s| && s[c] == 'x' then
      var y := Span(s, c + 1, IsSpace);
      assert SpacesBetween(s, x, c) && SpacesBetween(s, c + 1, y);
      Some(y)
    else None
  }

  /** A group of `(\d+)`: one or more digits. */
  predicate IsDigitGroup(g: string) {
    |g| > 0 && AllDigits(g)
  }

  /** A non-empty run of digits in `s` is a digit group. */
  lemma GroupOf(s: string, x: int, m: int)
    requires x < m && DigitsBetween(s, x, m)
    ensures IsDigitGroup(s[x..m])
  {
    assert forall i :: 0 <= i < m - x ==> s[x..m][i] == s[x + i];
  }

  /** `re.match` of the dimensions pattern: the three groups, each a run of digits. */
  function ParseDims(s: string): (r: Option<(string, string, string)>)
    ensures r.Some? ==> IsDigitGroup(r.value.0) && IsDigitGroup(r.value.1) && IsDigitGroup(r.value.2)
  {
    match ParseMeasure(s, 0)
    case None => None
    case Some((m1, e1)) =>
      match ParseCross(s, e1)
      case None => None
      case Some(x2) =>
        match ParseMeasure(s, x2)
        case None => None
        case Some((m2, e2)) =>
          match ParseCross(s, e2)
          case None => None
          case Some(x3) =>
            match ParseMeasure(s, x3)
            case None => None
            case Some((m3, _)) =>
              GroupOf(s, 0, m1);
              GroupOf(s, x2, m2);
              GroupOf(s, x3, m3);
              Some((s[0..m1], s[x2..m2], s[x3..m3]))
  }

  // ---------------------------------------------------------------------------
  // Dimensions: the parser against the recognizer

  /** A match of `(\d+)\s?cm` from `x` is the one the parser reads. */
  lemma MeasureUnique(s: string, x: nat, m: int, y: int)
    requires x <= |s| && MeasureAt(s, x, m, y)
    ensures ParseMeasure(s, x) == Some((m, y))
  {
    assert m < |s| && !IsDigit(s[m]) by {
      if y == m + 2 { assert s[m] == s[m..m + 2][0]; }
    }
    assert Span(s, x, IsDigit) == m;
  }

  /** A match of `\s*x\s*` from `x` is the one the parser reads. */
  lemma CrossUnique(s: string, x: nat, y: int)
    requires x <= |s| && CrossAt(s, x, y)
    requires y == |s| || !IsSpace(s[y])
    ensures ParseCross(s, x) == Some(y)
  {
    var c :| x <= c < y && SpacesBetween(s, x, c) && SpacesBetween(s, c + 1, y) && s[c] == 'x';
    assert !IsSpace(s[c]);
    assert Span(s, x, IsSpace) == c;
    assert Span(s, c + 1, IsSpace) == y;
  }

  /** A measure is followed by "cm", whose last letter is not a space. */
  lemma MeasureEndsInM(s: string, x: int, m: int, y: int)
    requires MeasureAt(s, x, m, y)
    ensures 0 < y <= |s| && s[y - 1] == 'm'
  {
    assert s[y - 1] == s[y - 2..y][1];
  }

  /** Whatever the parser returns, the pattern matches with those groups. */
  lemma DimsSound(s: string)
    ensures ParseDims(s).Some? ==>
      exists y :: DimsMatch(s, y, ParseDims(s).value.0, ParseDims(s).value.1, ParseDims(s).value.2)
  {
    if ParseDims(s).Some? {
      var (m1, e1) := ParseMeasure(s, 0).value;
      var x2 := ParseCross(s, e1).value;
      var (m2, e2) := ParseMeasure(s, x2).value;
      var x3 := ParseCross(s, e2).value;
      var (m3, y) := ParseMeasure(s, x3).value;
      assert DimsMatch(s, y, s[0..m1], s[x2..m2], s[x3..m3]);
    }
  }

  /** Whenever the pattern matches, the parser returns its groups. */
  lemma DimsComplete(s: string, y: int, h: string, w: string, l: string)
    requires DimsMatch(s, y, h, w, l)
    ensures ParseDims(s) == Some((h, w, l))
  {
    var m1, e1, x2, m2, e2, x3, m3 :|
      && MeasureAt(s, 0, m1, e1) && CrossAt(s, e1, x2)
      && MeasureAt(s, x2, m2, e2) && CrossAt(s, e2, x3)
      && MeasureAt(s, x3, m3, y)
      && h == s[0..m1] && w == s[x2..m2] && l == s[x3..m3];
    DimsCompleteAt(s, m1, e1, x2, m2, e2, x3, m3, y, h, w, l);
  }

  /** The parser reads the three measures and two crosses the pattern matched. */
  lemma DimsCompleteAt(s: string, m1: int, e1: int, x2: int, m2: int, e2: int, x3: int, m3: int, y: int,
                       h: string, w: string, l: string)
    requires MeasureAt(s, 0, m1, e1) && CrossAt(s, e1, x2)
    requires MeasureAt(s, x2, m2, e2) && CrossAt(s, e2, x3)
    requires MeasureAt(s, x3, m3, y)
    requires 0 <= x2 <= m2 <= |s| && 0 <= x3 <= m3 <= |s|
    requires h == s[0..m1] && w == s[x2..m2] && l == s[x3..m3]
    ensures ParseDims(s) == Some((h, w, l))
  {
    MeasureThenCross(s, 0, m1, e1, x2, m2, e2);
    MeasureThenCross(s, x2, m2, e2, x3, m3, y);
    MeasureUnique(s, x3, m3, y);
  }

  /** A measure followed by a cross and another measure is read as such by the parser. */
  lemma MeasureThenCross(s: string, x: nat, m: int, e: int, x2: int, m2: int, e2: int)
    requires x <= |s| && MeasureAt(s, x, m, e) && CrossAt(s, e, x2) && MeasureAt(s, x2, m2, e2)
    ensures ParseMeasure(s, x) == Some((m, e)) && ParseCross(s, e) == Some(x2)
  {
    MeasureUnique(s, x, m, e);
    CrossFollowedByDigit(s, e, x2, m2, e2);
    CrossUnique(s, e, x2);
  }

  /** A cross is followed by a measure, which starts with a digit, not a space. */
  lemma CrossFollowedByDigit(s: string, x: int, y: int, m: int, z: int)
    requires CrossAt(s, x, y) && MeasureAt(s, y, m, z)
    ensures 0 <= x <= |s| && (y == |s| || !IsSpace(s[y]))
  {
    assert IsDigit(s[y]);
  }

  // ---------------------------------------------------------------------------
  // Weight: the pattern as a recognizer, the parser, and the two against each other

  /** `\d+(\.\d{1,2})?` matches exactly s[x..n]. */
  ghost predicate NumberBetween(s: string, x: int, n: int) {
    exists d :: x < d <= n && DigitsBetween(s, x, d) &&
      (d == n || (d + 2 <= n <= d + 3 && DigitsBetween(s, d + 1, n) && s[d] == '.'))
  }

  /** `\s?kg` matches exactly s[n..y]. */
  predicate KilogramsBetween(s: string, n: int, y: int) {
    (y == n + 2 && LiteralAt(s, n, "kg")) ||
    (y == n + 3 && 0 <= n < |s| && IsSpace(s[n]) && LiteralAt(s, n + 1, "kg"))
  }

  /** The weight pattern matches a prefix of `s` with group 1 equal to s[0..n]. */
  ghost predicate WeightMatch(s: string, n: int) {
    NumberBetween(s, 0, n) && exists y :: KilogramsBetween(s, n, y)
  }

  /** `(\.\d{1,2})?` read greedily from `d`: its end. */
  function FractionEnd(s: string, d: nat): (n: nat)
    requires d <= |s|
    ensures d <= n <= |s|
  {
    if d + 1 < |s| && s[d] == '.' && IsDigit(s[d + 1]) then
      if d + 2 < |s| && IsDigit(s[d + 2]) then d + 3 else d + 2
    else d
  }

  /** `re.match` of the weight pattern: the end of group 1. */
  function ParseWeight(s: string): (r: Option<nat>)
    ensures r.Some? ==> r.value <= |s|
  {
    var d := Span(s, 0, IsDigit);
    var n := FractionEnd(s, d);
    if d == 0 then None
    else if LiteralAt(s, OptionalSpaceEnd(s, n), "kg") then Some(n)
    else None
  }

  /** Whatever the parser returns, the pattern matches with that group. */
  lemma WeightSound(s: string)
    ensures ParseWeight(s).Some? ==> WeightMatch(s, ParseWeight(s).value)
  {
    if ParseWeight(s).Some? {
      var d := Span(s, 0, IsDigit);
      var n := FractionEnd(s, d);
      assert NumberBetween(s, 0, n) by {
        if n > d {
          assert DigitsBetween(s, d + 1, n);
        }
      }
      var c := OptionalSpaceEnd(s, n);
      assert KilogramsBetween(s, n, c + 2);
    }
  }

  /** Whenever the pattern matches, the parser returns its group: no shorter or longer
      number is followed by the unit. */
  lemma WeightComplete(s: string, n: int)
    requires WeightMatch(s, n)
    ensures ParseWeight(s) == Some(n)
  {
    var d :| 0 < d <= n && DigitsBetween(s, 0, d) &&
      (d == n || (d + 2 <= n <= d + 3 && DigitsBetween(s, d + 1, n) && s[d] == '.'));
    var y :| KilogramsBetween(s, n, y);
    assert s[n] == 'k' || IsSpace(s[n]) by {
      if y == n + 2 { assert s[n..n + 2][0] == 'k'; }
    }
    assert d < |s| && !IsDigit(s[d]);
    assert Span(s, 0, IsDigit) == d;
    if d < n {
      assert FractionEnd(s, d) == n by {
        if n == d + 2 && d + 2 < |s| { assert !IsDigit(s[d + 2]); }
      }
    }
    var c := OptionalSpaceEnd(s, n);
    assert LiteralAt(s, c, "kg") by {
      if y == n + 3 {
        assert c == n + 1;
      } else {
        assert s[n..n + 2][0] == 'k';
        assert c == n;
      }
    }
  }

  // ---------------------------------------------------------------------------
  // The replies as the listing step reads them

  const DefaultDimensions: string := "0 cm x 0 cm x 0 cm"
  const DefaultWeight: string := "0 kg"

  /** `reply.strip() or default`: with a default that is already stripped, the text
      read is never empty and never starts or ends with whitespace. */
  function StrippedOr(reply: string, default: string): (r: string)
    ensures Strip(reply) != "" ==> r == Strip(reply)
    ensures Strip(reply) == "" ==> r == default
    ensures Strip(default) == default && default != "" ==>
      r != "" && !IsSpace(r[0]) && !IsSpace(r[|r| - 1])
  {
    var stripped := Strip(reply);
    StripEnds(reply);
    StripEnds(default);
    if stripped == "" then default else stripped
  }

  /** Height, width and length read from the dimensions reply, in the order of the
      pattern's groups, or three "0" when it does not match: always three runs of digits. */
  function Dimensions(reply: string): (r: (string, string, string))
    ensures IsDigitGroup(r.0) && IsDigitGroup(r.1) && IsDigitGroup(r.2)
  {
    match ParseDims(StrippedOr(reply, DefaultDimensions))
    case Some(groups) => groups
    case None => ("0", "0", "0")
  }

  /** The weight value read from the weight reply, or "0" when it does not match:
      always digits, optionally with a point and one or two decimals. */
  function WeightKg(reply: string): (r: string)
    ensures IsWeightNumber(r)
  {
    var text := StrippedOr(reply, DefaultWeight);
    match ParseWeight(text)
    case Some(n) =>
      WeightSound(text);
      NumberIsWeightNumber(text, n);
      text[..n]
    case None =>
      assert AllDigits("0"[..1]);
      "0"
  }

  /** The text of a match of `\d+(\.\d{1,2})?` at the start is a weight number. */
  lemma NumberIsWeightNumber(s: string, n: int)
    requires NumberBetween(s, 0, n)
    ensures IsWeightNumber(s[..n])
  {
    var number := s[..n];
    var d :| 0 < d <= n && DigitsBetween(s, 0, d) &&
      (d == n || (d + 2 <= n <= d + 3 && DigitsBetween(s, d + 1, n) && s[d] == '.'));
    assert forall i :: 0 <= i < d ==> number[..d][i] == s[i];
    if d < n {
      assert forall i :: d + 1 <= i < n ==> number[d + 1..][i - d - 1] == s[i];
    }
  }

  /** The dimensions are the groups of the pattern's match on the stripped reply (or on
      the default text for an empty reply), and three "0" when nothing matches. */
  lemma DimensionsFollowPattern(reply: string, y: int, h: string, w: string, l: string)
    ensures DimsMatch(StrippedOr(reply, DefaultDimensions), y, h, w, l) ==> Dimensions(reply) == (h, w, l)
    ensures (forall y', h', w', l' :: !DimsMatch(StrippedOr(reply, DefaultDimensions), y', h', w', l'))
              ==> Dimensions(reply) == ("0", "0", "0")
  {
    var text := StrippedOr(reply, DefaultDimensions);
    DimsSound(text);
    if DimsMatch(text, y, h, w, l) {
      DimsComplete(text, y, h, w, l);
    }
  }

  /** The weight is group 1 of the pattern's match on the stripped reply (or on the
      default text for an empty reply), and "0" when nothing matches. */
  lemma WeightFollowsPattern(reply: string, n: int)
    ensures WeightMatch(StrippedOr(reply, DefaultWeight), n) ==> WeightKg(reply) == StrippedOr(reply, DefaultWeight)[..n]
    ensures (forall n' :: !WeightMatch(StrippedOr(reply, DefaultWeight), n')) ==> WeightKg(reply) == "0"
  {
    var text := StrippedOr(reply, DefaultWeight);
    WeightSound(text);
    if WeightMatch(text, n) {
      WeightComplete(text, n);
    }
  }

  /** The canonical form of a dimensions reply: "<h> cm x <w> cm x <l> cm". */
  function Canonical(h: string, w: string, l: string): string {
    h + " cm x " + w + " cm x " + l + " cm"
  }

  /** In text opening with the canonical form, h is a measure followed by a cross. */
  lemma CanonicalFirst(s: string, h: string, w: string, l: string)
    requires |h| > 0 && AllDigits(h) && LiteralAt(s, 0, Canonical(h, w, l))
    ensures MeasureAt(s, 0, |h|, |h| + 3) && s[0..|h|] == h && CrossAt(s, |h| + 3, |h| + 6)
  {
    var c := Canonical(h, w, l);
    assert c[0..|h|] == h && c[|h|..|h| + 6] == " cm x ";
    LiteralWithin(s, 0, c, 0, h);
    LiteralWithin(s, 0, c, |h|, " cm x ");
    MeasureThenCrossOf(s, 0, h);
  }

  /** In text opening with the canonical form, w is a measure followed by a cross. */
  lemma CanonicalSecond(s: string, h: string, w: string, l: string) returns (x2: int)
    requires |w| > 0 && AllDigits(w) && LiteralAt(s, 0, Canonical(h, w, l))
    ensures x2 == |h| + 6
    ensures MeasureAt(s, x2, x2 + |w|, x2 + |w| + 3) && s[x2..x2 + |w|] == w
    ensures CrossAt(s, x2 + |w| + 3, x2 + |w| + 6)
  {
    var c := Canonical(h, w, l);
    x2 := |h| + 6;
    assert c[x2..x2 + |w|] == w && c[x2 + |w|..x2 + |w| + 6] == " cm x ";
    LiteralWithin(s, 0, c, x2, w);
    LiteralWithin(s, 0, c, x2 + |w|, " cm x ");
    MeasureThenCrossOf(s, x2, w);
  }

  /** In text opening with the canonical form, l is a measure. */
  lemma CanonicalThird(s: string, h: string, w: string, l: string) returns (x3: int)
    requires |l| > 0 && AllDigits(l) && LiteralAt(s, 0, Canonical(h, w, l))
    ensures x3 == |h| + |w| + 12
    ensures MeasureAt(s, x3, x3 + |l|, x3 + |l| + 3) && s[x3..x3 + |l|] == l
  {
    var c := Canonical(h, w, l);
    x3 := |h| + |w| + 12;
    assert c[x3..x3 + |l|] == l && c[x3 + |l|..] == " cm";
    LiteralWithin(s, 0, c, x3, l);
    LiteralWithin(s, 0, c, x3 + |l|, " cm");
    MeasureOf(s, x3, l);
  }

  /** Digits followed by " cm" are a measure. */
  lemma MeasureOf(s: string, x: int, digits: string)
    requires |digits| > 0 && AllDigits(digits)
    requires LiteralAt(s, x, digits) && LiteralAt(s, x + |digits|, " cm")
    ensures MeasureAt(s, x, x + |digits|, x + |digits| + 3)
    ensures s[x..x + |digits|] == digits
  {
    var m := x + |digits|;
    assert forall t :: x <= t < m ==> s[t] == s[x..m][t - x];
    assert s[m] == s[m..m + 3][0] == ' ';
    assert s[m + 1..m + 3] == s[m..m + 3][1..];
  }

  /** Digits followed by " cm x " are a measure followed by a cross. */
  lemma MeasureThenCrossOf(s: string, x: int, digits: string)
    requires |digits| > 0 && AllDigits(digits)
    requires LiteralAt(s, x, digits) && LiteralAt(s, x + |digits|, " cm x ")
    ensures MeasureAt(s, x, x + |digits|, x + |digits| + 3)
    ensures s[x..x + |digits|] == digits
    ensures CrossAt(s, x + |digits| + 3, x + |digits| + 6)
  {
    var m := x + |digits|;
    assert LiteralAt(" cm x ", 0, " cm") && LiteralAt(" cm x ", 3, " x ");
    LiteralWithin(s, m, " cm x ", 0, " cm");
    LiteralWithin(s, m, " cm x ", 3, " x ");
    MeasureOf(s, x, digits);
    CrossOf(s, m + 3);
  }

  /** " x " is a cross. */
  lemma CrossOf(s: string, x: int)
    requires LiteralAt(s, x, " x ")
    ensures CrossAt(s, x, x + 3)
  {
    assert s[x] == " x "[0] && s[x + 1] == " x "[1] && s[x + 2] == " x "[2];
    assert SpacesBetween(s, x, x + 1) && SpacesBetween(s, x + 2, x + 3);
  }

  /** Reading the canonical form back gives the three groups it was written from. */
  lemma CanonicalReadBack(h: string, w: string, l: string)
    requires IsDigitGroup(h) && IsDigitGroup(w) && IsDigitGroup(l)
    ensures ParseDims(Canonical(h, w, l)) == Some((h, w, l))
  {
    var c := Canonical(h, w, l);
    assert c[0..|c|] == c;
    CanonicalDims(c, h, w, l);
  }

  /** Text opening with the canonical form gives the groups h, w and l, whatever
      follows. */
  lemma CanonicalDims(s: string, h: string, w: string, l: string)
    requires |h| > 0 && AllDigits(h) && |w| > 0 && AllDigits(w) && |l| > 0 && AllDigits(l)
    requires LiteralAt(s, 0, Canonical(h, w, l))
    ensures ParseDims(s) == Some((h, w, l))
  {
    CanonicalFirst(s, h, w, l);
    var x2 := CanonicalSecond(s, h, w, l);
    var x3 := CanonicalThird(s, h, w, l);
    DimsCompleteAt(s, |h|, |h| + 3, x2, x2 + |w|, x2 + |w| + 3, x3, x3 + |l|, x3 + |l| + 3, h, w, l);
  }

  /** A reply that strips to nothing gives three "0", read from the default text. */
  lemma EmptyDimensionsReply(reply: string)
    requires Strip(reply) == ""
    ensures Dimensions(reply) == ("0", "0", "0")
  {
    assert DefaultDimensions == Canonical("0", "0", "0");
    assert LiteralAt(DefaultDimensions, 0, DefaultDimensions);
    CanonicalDims(DefaultDimensions, "0", "0", "0");
  }

  /** A reply opening with "10 cm x 20 cm x 30 cm" gives height "10", width "20" and
      length "30", whatever follows. */
  lemma DimensionsInOrder(reply: string)
    requires |reply| >= 21 && reply[..21] == "10 cm x 20 cm x 30 cm"
    ensures Dimensions(reply) == ("10", "20", "30")
  {
    var d := StrippedStartsWith(reply, "10 cm x 20 cm x 30 cm", DefaultDimensions);
    DimensionsTenTwentyThirty(d);
  }

  lemma DimensionsTenTwentyThirty(d: string)
    requires LiteralAt(d, 0, "10 cm x 20 cm x 30 cm")
    ensures ParseDims(d) == Some(("10", "20", "30"))
  {
    assert Canonical("10", "20", "30") == "10 cm x 20 cm x 30 cm";
    CanonicalDims(d, "10", "20", "30");
  }

  /** A reply that opens with a word with no whitespace at either end still opens with
      that word once stripped. */
  lemma StrippedStartsWith(reply: string, word: string, default: string) returns (d: string)
    requires 0 < |word| <= |reply| && reply[..|word|] == word
    requires !IsSpace(word[0]) && !IsSpace(word[|word| - 1])
    ensures d == StrippedOr(reply, default) && LiteralAt(d, 0, word)
  {
    assert reply == [] + word + reply[|word|..];
    StripKeepsWord([], word, reply[|word|..]);
    d := StrippedOr(reply, default);
  }

  /** The error text of a failed generation call starts with a letter, so it gives
      three "0" and a weight of "0". */
  lemma ErrorReplyGivesZeros(detail: string)
    ensures Dimensions("Error generating content: " + detail) == ("0", "0", "0")
    ensures WeightKg("Error generating content: " + detail) == "0"
  {
    var reply := "Error generating content: " + detail;
    assert reply[..5] == "Error";
    var d := StrippedStartsWith(reply, "Error", DefaultDimensions);
    NoLeadingDigit(d, "Error");
    var t := StrippedStartsWith(reply, "Error", DefaultWeight);
    NoLeadingDigit(t, "Error");
  }

  /** Text opening with a word that does not start with a digit matches neither pattern. */
  lemma NoLeadingDigit(s: string, word: string)
    requires |word| > 0 && !IsDigit(word[0]) && LiteralAt(s, 0, word)
    ensures ParseDims(s) == None && ParseWeight(s) == None
  {
    assert s[0] == s[0..|word|][0];
    assert Span(s, 0, IsDigit) == 0;
  }

  /** The cross must be a lower-case "x": a reply opening with "10 cm X" gives three "0". */
  lemma UpperCaseCrossRejected(reply: string)
    requires |reply| >= 7 && reply[..7] == "10 cm X"
    ensures Dimensions(reply) == ("0", "0", "0")
  {
    var d := StrippedStartsWith(reply, "10 cm X", DefaultDimensions);
    UpperCaseCrossParse(d);
  }

  lemma UpperCaseCrossParse(d: string)
    requires LiteralAt(d, 0, "10 cm X")
    ensures ParseDims(d) == None
  {
    assert forall i :: 0 <= i < 7 ==> d[i] == d[0..7][i];
    assert d[0] == '1' && d[1] == '0' && d[2] == ' ' && d[3] == 'c' && d[4] == 'm' && d[5] == ' ' && d[6] == 'X';
    assert Span(d, 0, IsDigit) == 2;
    assert LiteralAt(d, 3, "cm");
    assert Span(d, 5, IsSpace) == 6;
    assert ParseCross(d, 5) == None;
  }

  /** A whole number, or one with one or two decimals, followed by " kg": the weight is
      that number, whatever follows. */
  lemma CanonicalWeight(s: string, number: string)
    requires IsWeightNumber(number) && LiteralAt(s, 0, number + " kg")
    ensures ParseWeight(s) == Some(|number|)
  {
    var n := |number|;
    assert forall t :: 0 <= t < n + 3 ==> s[t] == s[0..n + 3][t] == (number + " kg")[t];
    assert s[n] == ' ' && s[n + 1..n + 3] == "kg";
    assert KilogramsBetween(s, n, n + 3);
    var d :| 0 < d <= n && AllDigits(number[..d]) &&
      (d == n || (d + 2 <= n <= d + 3 && number[d] == '.' && AllDigits(number[d + 1..])));
    assert DigitsBetween(s, 0, d) by {
      assert forall t :: 0 <= t < d ==> s[t] == number[..d][t];
    }
    if d < n {
      assert DigitsBetween(s, d + 1, n) by {
        assert forall t :: d + 1 <= t < n ==> s[t] == number[d + 1..][t - d - 1];
      }
    }
    WeightComplete(s, n);
  }

  /** Digits, optionally followed by a point and one or two digits. */
  predicate IsWeightNumber(number: string) {
    exists d :: 0 < d <= |number| && AllDigits(number[..d]) &&
      (d == |number| || (d + 2 <= |number| <= d + 3 && number[d] == '.' && AllDigits(number[d + 1..])))
  }

  /** A reply that strips to nothing gives "0", read from the default text. */
  lemma EmptyWeightReply(reply: string)
    requires Strip(reply) == ""
    ensures WeightKg(reply) == "0"
  {
    assert AllDigits("0"[..1]);
    assert IsWeightNumber("0");
    assert LiteralAt(DefaultWeight, 0, "0" + " kg");
    CanonicalWeight(DefaultWeight, "0");
  }

  /** A reply opening with "2.5 kg" has the weight "2.5". */
  lemma WeightWithDecimal(reply: string)
    requires |reply| >= 6 && reply[..6] == "2.5 kg"
    ensures WeightKg(reply) == "2.5"
  {
    var t := StrippedStartsWith(reply, "2.5 kg", DefaultWeight);
    assert "2.5 kg" == "2.5" + " kg";
    assert AllDigits("2.5"[..1]) && AllDigits("2.5"[2..]);
    assert IsWeightNumber("2.5");
    CanonicalWeight(t, "2.5");
    assert t[..3] == t[0..6][..3] == "2.5";
  }

  /** Three decimals do not match: a reply opening with "2.555kg" has the weight "0". */
  lemma ThreeDecimalsRejected(reply: string)
    requires |reply| >= 7 && reply[..7] == "2.555kg"
    ensures WeightKg(reply) == "0"
  {
    var t := StrippedStartsWith(reply, "2.555kg", DefaultWeight);
    ThreeDecimalsParse(t);
  }

  lemma ThreeDecimalsParse(t: string)
    requires LiteralAt(t, 0, "2.555kg")
    ensures ParseWeight(t) == None
  {
    assert forall i :: 0 <= i < 7 ==> t[i] == t[0..7][i];
    assert t[0] == '2' && t[1] == '.' && t[2] == '5' && t[3] == '5' && t[4] == '5';
    assert Span(t, 0, IsDigit) == 1;
    assert FractionEnd(t, 1) == 4;
    assert OptionalSpaceEnd(t, 4) == 4;
    assert t[4..6][0] == '5';
  }
}

/** The attribute pattern of the post-text extractor,
      (Black|Grey|Blue|Red|Green|Yellow|Gold|Silver|Cotton|Silk|Polyester|Leather|Wool)
    run with `re.findall` and `re.IGNORECASE`, followed by `str.capitalize` on every
    match and a round trip through `set` to drop repeats. There are no word
    boundaries, so a word is found inside a longer one ("Reddish" gives "Red"). */
module AttributeMatch {
  import opened Text

  /** The thirteen alternatives, in the order the pattern lists them. */
  const Vocabulary: seq<string> := ["Black", "Grey", "Blue", "Red", "Green", "Yellow", "Gold",
    "Silver", "Cotton", "Silk", "Polyester", "Leather", "Wool"]

  /** No two words of `words` match at the same position of any text. */
  ghost predicate OneMatchPerPosition(words: seq<string>) {
    forall s: string, p: int, i, j ::
      0 <= i < |words| && 0 <= j < |words| &&
      LiteralAtIgnoringCase(s, p, words[i]) && LiteralAtIgnoringCase(s, p, words[j])
      ==> i == j
  }

  /** What the scan below relies on in its alternatives: each is a non-empty word in
      the form `capitalize` produces, and at most one of them matches anywhere. */
  ghost predicate GoodAlternatives(words: seq<string>) {
    (forall k :: 0 <= k < |words| ==> IsCapitalized(words[k])) && OneMatchPerPosition(words)
  }

  /** No two vocabulary words match at the same position: each differs from every
      other in one of its first four letters, ignoring case, and none is a prefix of
      another. So the order of the alternatives never decides which word is found. */
  lemma OneWordAt(s: string, p: int, i: nat, j: nat)
    requires i < |Vocabulary| && j < |Vocabulary|
    requires LiteralAtIgnoringCase(s, p, Vocabulary[i]) && LiteralAtIgnoringCase(s, p, Vocabulary[j])
    ensures i == j
  {
    WordIndexAt(s, p, i);
    WordIndexAt(s, p, j);
  }

  /** Which vocabulary word can match at `p`, read off its first four letters. */
  function IndexFromLetters(s: string, p: nat): int
    requires p + 3 <= |s|
  {
    var c0, c1, c2 := Lower(s[p]), Lower(s[p + 1]), Lower(s[p + 2]);
    var c3 := if p + 3 < |s| then Lower(s[p + 3]) else ' ';
    if c0 == 'b' then (if c2 == 'a' then 0 else 2)
    else if c0 == 'g' then (if c1 == 'o' then 6 else if c3 == 'y' then 1 else 4)
    else if c0 == 'r' then 3
    else if c0 == 'y' then 5
    else if c0 == 's' then (if c3 == 'v' then 7 else 9)
    else if c0 == 'c' then 8
    else if c0 == 'p' then 10
    else if c0 == 'l' then 11
    else 12
  }

  /** The word matching at `p` is the one its first letters name. */
  lemma WordIndexAt(s: string, p: int, k: nat)
    requires k < |Vocabulary| && LiteralAtIgnoringCase(s, p, Vocabulary[k])
    ensures p + 3 <= |s| && IndexFromLetters(s, p) == k
  {
    var w := Vocabulary[k];
    WordLength(k);
    assert Lower(s[p + 0]) == Lower(w[0]);
    assert Lower(s[p + 1]) == Lower(w[1]);
    assert Lower(s[p + 2]) == Lower(w[2]);
    assert |w| > 3 ==> Lower(s[p + 3]) == Lower(w[3]);
    assert k == 0 || k == 1 || k == 2 || k == 3 || k == 4 || k == 5 || k == 6 || k == 7 || k == 8
        || k == 9 || k == 10 || k == 11 || k == 12;
  }

  lemma WordLength(k: nat)
    requires k < |Vocabulary|
    ensures 3 <= |Vocabulary[k]| <= 9
  {
  }

  lemma VocabularyCapitalized(k: nat)
    requires k < |Vocabulary|
    ensures IsCapitalized(Vocabulary[k])
  {
  }

  lemma VocabularyIsGood()
    ensures GoodAlternatives(Vocabulary)
  {
    forall s: string, p: int, i, j |
      0 <= i < |Vocabulary| && 0 <= j < |Vocabulary| &&
      LiteralAtIgnoringCase(s, p, Vocabulary[i]) && LiteralAtIgnoringCase(s, p, Vocabulary[j])
      ensures i == j
    {
      OneWordAt(s, p, i, j);
    }
  }

  /** The alternatives from index `k` on, tried in order at `p`: the index of one that
      matches there, if any does. */
  function FirstWordFrom(words: seq<string>, s: string, p: nat, k: nat): (r: Option<nat>)
    requires k <= |words|
    ensures r.Some? ==> k <= r.value < |words| && LiteralAtIgnoringCase(s, p, words[r.value])
    ensures r.None? ==> forall i :: k <= i < |words| ==> !LiteralAtIgnoringCase(s, p, words[i])
    decreases |words| - k
  {
    if k == |words| then None
    else if LiteralAtIgnoringCase(s, p, words[k]) then Some(k)
    else FirstWordFrom(words, s, p, k + 1)
  }

  /** The alternation at `p`: the index of the word matching there. */
  function WordAt(words: seq<string>, s: string, p: nat): (r: Option<nat>)
    ensures r.Some? ==> r.value < |words| && LiteralAtIgnoringCase(s, p, words[r.value])
    ensures r.None? ==> forall i :: 0 <= i < |words| ==> !LiteralAtIgnoringCase(s, p, words[i])
  {
    FirstWordFrom(words, s, p, 0)
  }

  /** Where `re.findall` resumes after matching `w` at `p`: at the end of the match, so
      matches never overlap, but one step on after an empty match. */
  function Resume(p: nat, w: string): (q: nat)
    ensures p < q && (|w| > 0 ==> q == p + |w|)
  {
    if |w| == 0 then p + 1 else p + |w|
  }

  /** `re.findall` from `p`: the matched texts, left to right. */
  function FindAll(words: seq<string>, s: string, p: nat): seq<string>
    requires p <= |s|
    decreases |s| - p
  {
    if p == |s| then []
    else match WordAt(words, s, p)
      case Some(k) => [s[p..p + |words[k]|]] + FindAll(words, s, Resume(p, words[k]))
      case None => FindAll(words, s, p + 1)
  }

  function CapitalizeAll(xs: seq<string>): (r: seq<string>)
    ensures |r| == |xs| && forall i :: 0 <= i < |xs| ==> r[i] == Capitalize(xs[i])
  {
    seq(|xs|, i requires 0 <= i < |xs| => Capitalize(xs[i]))
  }

  predicate NoDuplicates(xs: seq<string>) {
    forall i, j :: 0 <= i < j < |xs| ==> xs[i] != xs[j]
  }

  /** `list(set(xs))`. A set has no order; this keeps first occurrences. */
  function Dedup(xs: seq<string>): (r: seq<string>)
    ensures forall x :: x in r <==> x in xs
    ensures NoDuplicates(r)
  {
    if |xs| == 0 then []
    else
      var r := Dedup(xs[..|xs| - 1]);
      assert forall x :: x in xs <==> x in xs[..|xs| - 1] || x == xs[|xs| - 1];
      if xs[|xs| - 1] in r then r else r + [xs[|xs| - 1]]
  }

  /** The `attributes` field of the extracted record. When nothing matches it keeps
      its initial value `[]`, which is what `Dedup` gives for no matches too. */
  function Attributes(s: string): seq<string> {
    Dedup(CapitalizeAll(FindAll(Vocabulary, s, 0)))
  }

  // ---------------------------------------------------------------------------
  // Properties of the scan, for any set of alternatives

  /** Every text `findall` returns is one of the words, matched case-insensitively at a
      position at or after `p`: the lemma names that position and word. */
  lemma {:induction false} FindAllSound(words: seq<string>, s: string, p: nat, m: string)
    returns (q: nat, k: nat)
    requires p <= |s| && m in FindAll(words, s, p)
    ensures p <= q && k < |words| && LiteralAtIgnoringCase(s, q, words[k])
    ensures m == s[q..q + |words[k]|]
    decreases |s| - p
  {
    match WordAt(words, s, p)
    case Some(i) =>
      var rest := FindAll(words, s, Resume(p, words[i]));
      assert FindAll(words, s, p) == [s[p..p + |words[i]|]] + rest;
      if m == s[p..p + |words[i]|] {
        q, k := p, i;
      } else {
        assert m in rest;
        q, k := FindAllSound(words, s, Resume(p, words[i]), m);
      }
    case None =>
      q, k := FindAllSound(words, s, p + 1, m);
  }

  /** No word matches at a position in [lo, p) and reaches past `p`. */
  ghost predicate NothingAcross(words: seq<string>, s: string, lo: int, p: int) {
    forall q, i :: lo <= q < p && 0 <= i < |words| && p < q + |words[i]| ==>
      !LiteralAtIgnoringCase(s, q, words[i])
  }

  /** A word matching at `p` is found when the scan from `p0` cannot skip `p`, that is,
      when no word matches at an earlier position and reaches past `p`. */
  lemma {:induction false} FindAllComplete(words: seq<string>, s: string, p0: nat, p: nat, k: nat)
    requires GoodAlternatives(words)
    requires p0 <= p <= |s| && k < |words| && LiteralAtIgnoringCase(s, p, words[k])
    requires NothingAcross(words, s, p0, p)
    ensures s[p..p + |words[k]|] in FindAll(words, s, p0)
    decreases |s| - p0
  {
    if p0 == p {
      FoundAtStart(words, s, p, k);
    } else {
      var next := ScanStep(words, s, p0, p);
      FindAllComplete(words, s, next, p, k);
    }
  }

  /** A word matching where the scan starts is its first find. */
  lemma FoundAtStart(words: seq<string>, s: string, p: nat, k: nat)
    requires GoodAlternatives(words)
    requires p <= |s| && k < |words| && LiteralAtIgnoringCase(s, p, words[k])
    ensures |FindAll(words, s, p)| > 0 && FindAll(words, s, p)[0] == s[p..p + |words[k]|]
  {
    var i := WordAt(words, s, p).value;
    assert i == k && p < |s|;
  }

  /** One step of the scan from `p0` does not pass `p` when nothing reaches across `p`,
      and what the step skips is not found again later. */
  lemma ScanStep(words: seq<string>, s: string, p0: nat, p: nat) returns (next: nat)
    requires p0 < p <= |s| && NothingAcross(words, s, p0, p)
    ensures p0 < next <= p && NothingAcross(words, s, next, p)
    ensures forall m :: m in FindAll(words, s, next) ==> m in FindAll(words, s, p0)
  {
    match WordAt(words, s, p0)
    case Some(i) =>
      next := Resume(p0, words[i]);
      assert FindAll(words, s, p0) == [s[p0..p0 + |words[i]|]] + FindAll(words, s, next);
    case None =>
      next := p0 + 1;
  }

  // ---------------------------------------------------------------------------
  // Properties of the attribute list

  /** The attribute list has no repeats. */
  lemma AttributesDistinct(s: string)
    ensures NoDuplicates(Attributes(s))
  {
  }

  /** The text matched at `q` against a capitalized word capitalizes to that word. */
  lemma CapitalizeFound(s: string, q: int, w: string)
    requires IsCapitalized(w) && LiteralAtIgnoringCase(s, q, w)
    ensures Capitalize(s[q..q + |w|]) == w
  {
    var m := s[q..q + |w|];
    assert forall i :: 0 <= i < |w| ==> m[i] == s[q + i];
    CapitalizeMatched(m, w);
  }

  /** The attributes are the capitalized texts `findall` returns. */
  lemma AttributesAreFinds(s: string)
    ensures forall a :: a in Attributes(s) <==>
      exists m :: m in FindAll(Vocabulary, s, 0) && a == Capitalize(m)
  {
    var found := FindAll(Vocabulary, s, 0);
    var caps := CapitalizeAll(found);
    forall a
      ensures a in caps <==> exists m :: m in found && a == Capitalize(m)
    {
      if a in caps {
        var i :| 0 <= i < |caps| && caps[i] == a;
        assert found[i] in found;
      }
      if exists m :: m in found && a == Capitalize(m) {
        var m :| m in found && a == Capitalize(m);
        var i :| 0 <= i < |found| && found[i] == m;
        assert caps[i] == a;
      }
    }
  }

  /** Every attribute is a vocabulary word that occurs in the text, ignoring case. */
  lemma AttributesSound(s: string)
    ensures forall a :: a in Attributes(s) ==>
      a in Vocabulary && exists q :: LiteralAtIgnoringCase(s, q, a)
  {
    AttributesAreFinds(s);
    forall a | a in Attributes(s)
      ensures a in Vocabulary && exists q :: LiteralAtIgnoringCase(s, q, a)
    {
      var m :| m in FindAll(Vocabulary, s, 0) && a == Capitalize(m);
      var q, k := FoundIsVocabulary(s, m);
      assert LiteralAtIgnoringCase(s, q, a);
      WordInVocabulary(k);
    }
  }

  lemma WordInVocabulary(k: nat)
    requires k < |Vocabulary|
    ensures Vocabulary[k] in Vocabulary
  {
  }

  /** A text `findall` returns capitalizes to the vocabulary word it matched. */
  lemma FoundIsVocabulary(s: string, m: string) returns (q: nat, k: nat)
    requires m in FindAll(Vocabulary, s, 0)
    ensures k < |Vocabulary| && Capitalize(m) == Vocabulary[k] && LiteralAtIgnoringCase(s, q, Vocabulary[k])
  {
    q, k := FindAllSound(Vocabulary, s, 0, m);
    VocabularyCapitalized(k);
    CapitalizeFound(s, q, Vocabulary[k]);
  }

  /** A vocabulary word occurring in the text, ignoring case, is an attribute unless a
      match starting earlier overlaps its first letter. */
  lemma AttributesComplete(s: string, p: nat, k: nat)
    requires k < |Vocabulary| && LiteralAtIgnoringCase(s, p, Vocabulary[k])
    requires NothingAcross(Vocabulary, s, 0, p)
    ensures Vocabulary[k] in Attributes(s)
  {
    VocabularyIsGood();
    AttributesAreFinds(s);
    FindAllComplete(Vocabulary, s, 0, p, k);
    VocabularyCapitalized(k);
    CapitalizeFound(s, p, Vocabulary[k]);
  }

  // ---------------------------------------------------------------------------
  // Consequences of having no word boundaries

  /** The first letters of the vocabulary words, ignoring case. */
  predicate StartsSomeWord(c: char) {
    var l := Lower(c);
    l == 'b' || l == 'g' || l == 'r' || l == 'y' || l == 's' || l == 'c' || l == 'p' || l == 'l' || l == 'w'
  }

  /** A vocabulary word starts with one of nine letters and has at least three. */
  lemma WordAtShape(s: string, p: nat)
    ensures WordAt(Vocabulary, s, p).Some? ==> p + 3 <= |s| && StartsSomeWord(s[p])
  {
    if WordAt(Vocabulary, s, p).Some? {
      var k := WordAt(Vocabulary, s, p).value;
      WordLength(k);
      assert SameIgnoringCase(s[p + 0], Vocabulary[k][0]);
    }
  }

  /** A word is found inside a longer one: "Reddish" has the attribute "Red". */
  lemma WordInsideWord()
    ensures "Red" in Attributes("Reddish")
  {
    assert LiteralAtIgnoringCase("Reddish", 0, Vocabulary[3]);
    AttributesComplete("Reddish", 0, 3);
  }

  /** The scan passes over a position where no vocabulary word can start. */
  lemma SkipPosition(s: string, p: nat)
    requires p < |s| && (|s| < p + 3 || !StartsSomeWord(s[p]))
    ensures FindAll(Vocabulary, s, p) == FindAll(Vocabulary, s, p + 1)
  {
    WordAtShape(s, p);
  }

  /** The scan passes over a stretch where no vocabulary word can start. */
  lemma {:induction false} SkipRun(s: string, p: nat, q: nat)
    requires p <= q <= |s|
    requires forall i :: p <= i < q ==> |s| < i + 3 || !StartsSomeWord(s[i])
    ensures FindAll(Vocabulary, s, p) == FindAll(Vocabulary, s, q)
    decreases q - p
  {
    if p < q {
      SkipPosition(s, p);
      SkipRun(s, p + 1, q);
    }
  }

  /** The scan at a position where vocabulary word `k` matches finds it and resumes
      after it. */
  lemma TakeWord(s: string, p: nat, k: nat)
    requires p <= |s| && k < |Vocabulary| && LiteralAtIgnoringCase(s, p, Vocabulary[k])
    ensures p + |Vocabulary[k]| <= |s|
    ensures FindAll(Vocabulary, s, p) == [s[p..p + |Vocabulary[k]|]] + FindAll(Vocabulary, s, p + |Vocabulary[k]|)
  {
    WordLength(k);
    WordAtIs(s, p, k);
  }

  /** The alternation at a position where vocabulary word `k` matches picks `k`. */
  lemma WordAtIs(s: string, p: nat, k: nat)
    requires k < |Vocabulary| && LiteralAtIgnoringCase(s, p, Vocabulary[k])
    ensures WordAt(Vocabulary, s, p) == Some(k)
  {
    var i := WordAt(Vocabulary, s, p).value;
    OneWordAt(s, p, i, k);
  }

  /** Matches differing only in case become one attribute: "BLACK black" gives ["Black"]. */
  lemma CaseVariantsMerge()
    ensures Attributes("BLACK black") == ["Black"]
  {
    var s := "BLACK black";
    var found := BlackTwiceFinds(s);
    var caps := CapitalizeBoth(s, found);
    DedupPair(caps);
  }

  lemma DedupPair(xs: seq<string>)
    requires |xs| == 2 && xs[0] == xs[1]
    ensures Dedup(xs) == [xs[0]]
  {
    var first := xs[..1];
    assert first[..0] == [];
    assert Dedup(first) == [xs[0]];
    assert xs[..|xs| - 1] == first;
  }

  lemma BlackTwiceFinds(s: string) returns (found: seq<string>)
    requires s == "BLACK black"
    ensures found == FindAll(Vocabulary, s, 0)
    ensures |found| == 2 && found[0] == s[0..5] && found[1] == s[6..11]
  {
    var second := BlackSecond(s);
    BlackGap(s);
    found := BlackFirst(s);
    PairFound(found, s[0..5], FindAll(Vocabulary, s, 5), s[6..11]);
  }

  lemma BlackGap(s: string)
    requires s == "BLACK black"
    ensures FindAll(Vocabulary, s, 5) == FindAll(Vocabulary, s, 6)
  {
    assert s[5] == ' ' && |s| == 11;
    SkipPosition(s, 5);
  }

  lemma PairFound(found: seq<string>, a: string, rest: seq<string>, b: string)
    requires found == [a] + rest && rest == [b]
    ensures |found| == 2 && found[0] == a && found[1] == b
  {
  }

  lemma BlackFirst(s: string) returns (found: seq<string>)
    requires s == "BLACK black"
    ensures found == FindAll(Vocabulary, s, 0) == [s[0..5]] + FindAll(Vocabulary, s, 5)
  {
    BlackAt(s);
    TakeWord(s, 0, 0);
    found := FindAll(Vocabulary, s, 0);
  }

  lemma BlackSecond(s: string) returns (second: seq<string>)
    requires s == "BLACK black"
    ensures second == FindAll(Vocabulary, s, 6)
    ensures |second| == 1 && second[0] == s[6..11]
  {
    assert |s| == 11 && FindAll(Vocabulary, s, 11) == [];
    BlackAt(s);
    TakeWord(s, 6, 0);
    second := FindAll(Vocabulary, s, 6);
  }

  lemma CapitalizeBoth(s: string, found: seq<string>) returns (caps: seq<string>)
    requires s == "BLACK black"
    requires |found| == 2 && found[0] == s[0..5] && found[1] == s[6..11]
    ensures caps == CapitalizeAll(found) && |caps| == 2 && caps[0] == caps[1] == "Black"
  {
    VocabularyCapitalized(0);
    BlackAt(s);
    CapitalizeFound(s, 0, Vocabulary[0]);
    CapitalizeFound(s, 6, Vocabulary[0]);
    caps := CapitalizeAll(found);
  }

  lemma BlackAt(s: string)
    requires s == "BLACK black"
    ensures LiteralAtIgnoringCase(s, 0, Vocabulary[0]) && LiteralAtIgnoringCase(s, 6, Vocabulary[0])
    ensures |Vocabulary[0]| == 5
  {
  }

  /** A match hides the words it overlaps: "YelloWool" contains "Wool" from its sixth
      letter on, yet its only attribute is "Yellow". */
  lemma OverlapHidesWord()
    ensures LiteralAtIgnoringCase("YelloWool", 5, "Wool")
    ensures Attributes("YelloWool") == ["Yellow"]
  {
    var s := "YelloWool";
    assert LiteralAtIgnoringCase(s, 5, Vocabulary[12]);
    YellowFinds(s);
    CapitalizeYellow(s);
    assert Dedup(["Yellow"]) == ["Yellow"];
  }

  /** A word matching at `p` is the only find from `p` when nothing is found after it. */
  lemma FindsOnly(s: string, p: nat, k: nat)
    requires p <= |s| && k < |Vocabulary| && LiteralAtIgnoringCase(s, p, Vocabulary[k])
    requires FindAll(Vocabulary, s, p + |Vocabulary[k]|) == []
    ensures FindAll(Vocabulary, s, p) == [s[p..p + |Vocabulary[k]|]]
  {
    TakeWord(s, p, k);
  }

  lemma YellowFinds(s: string)
    requires s == "YelloWool"
    ensures FindAll(Vocabulary, s, 0) == [s[0..|Vocabulary[5]|]]
  {
    YellowTail(s);
    YellowAt(s);
    FindsOnly(s, 0, 5);
  }

  lemma YellowAt(s: string)
    requires s == "YelloWool"
    ensures LiteralAtIgnoringCase(s, 0, Vocabulary[5]) && |Vocabulary[5]| == 6
  {
  }

  lemma YellowTail(s: string)
    requires s == "YelloWool"
    ensures FindAll(Vocabulary, s, 6) == []
  {
    assert |s| == 9 && FindAll(Vocabulary, s, 9) == [];
    assert s[6] == 'o';
    SkipRun(s, 6, 9);
  }

  lemma CapitalizeYellow(s: string)
    requires s == "YelloWool"
    ensures CapitalizeAll([s[0..|Vocabulary[5]|]]) == ["Yellow"]
  {
    VocabularyCapitalized(5);
    YellowAt(s);
    CapitalizeFound(s, 0, Vocabulary[5]);
    var caps := CapitalizeAll([s[0..6]]);
    assert caps[0] == "Yellow";
  }
}

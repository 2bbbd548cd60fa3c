/** The post-text extractor: it fills a product record from the text of a post with
    the title, price and attribute patterns, fixed category and brand, and a
    description sentence built from the other fields. It cannot fail. */
module ProductExtraction {
  import opened Text
  import TitleMatch
  import PriceMatch
  import AttributeMatch

  datatype ProductDetails = ProductDetails(
    title: string,
    price: string,
    category: string,
    description: string,
    brand: string,
    attributes: seq<string>)

  const DefaultCategory: string := "General"
  const DefaultBrand: string := "Unknown"
  const NoAttributesText: string := "Various features available."

  /** The text the description uses for the attributes: the list joined with ", ",
      or a fixed sentence when the list is empty. */
  function AttributesText(attributes: seq<string>): (r: string)
    ensures |attributes| == 0 ==> r == NoAttributesText
    ensures forall k :: 0 <= k < |attributes| ==> Contains(r, attributes[k])
  {
    JoinContainsAll(attributes, ", ");
    if |attributes| > 0 then Join(attributes, ", ") else NoAttributesText
  }

  /** The lead of the description, up to the attribute text. */
  function DescriptionLead(title: string, price: string): string {
    title + " is now available at a price of " + price + ". Features include: "
  }

  function Describe(title: string, price: string, attributes: seq<string>): string {
    DescriptionLead(title, price) + AttributesText(attributes) + "."
  }

  /** The record `parse_tweet_for_product_details` returns. */
  function ParseTweet(text: string): (r: ProductDetails)
    ensures r.category == "General" && r.brand == "Unknown"
    ensures r.description == Describe(r.title, r.price, r.attributes)
  {
    var title := TitleMatch.Title(text);
    var price := PriceMatch.Price(text);
    var attributes := AttributeMatch.Attributes(text);
    ProductDetails(title, price, DefaultCategory, Describe(title, price, attributes), DefaultBrand, attributes)
  }

  // ---------------------------------------------------------------------------
  // Properties

  /** The description starts with the title and price sentence, ends with a full stop,
      names every attribute, and with no attributes ends in the fixed sentence
      followed by the closing full stop. */
  lemma DescriptionShape(title: string, price: string, attributes: seq<string>)
    ensures var d := Describe(title, price, attributes);
      && LiteralAt(d, 0, DescriptionLead(title, price))
      && LiteralAt(d, 0, title)
      && d[|d| - 1] == '.'
      && (|attributes| == 0 ==> LiteralAt(d, |d| - 28, "Various features available.."))
      && forall k :: 0 <= k < |attributes| ==> Contains(d, attributes[k])
  {
    var d := Describe(title, price, attributes);
    var lead := DescriptionLead(title, price);
    var middle := AttributesText(attributes);
    assert d == lead + (middle + ".");
    assert d[..|lead|] == lead;
    assert lead[..|title|] == title;
    if |attributes| == 0 {
      assert |NoAttributesText| == 27;
      assert d[|d| - 28..] == NoAttributesText + ".";
    }
    forall k | 0 <= k < |attributes|
      ensures Contains(d, attributes[k])
    {
      JoinContainsElements(attributes, ", ", k);
      var p :| LiteralAt(middle, p, attributes[k]);
      assert d[|lead| + p..|lead| + p + |attributes[k]|] == middle[p..p + |attributes[k]|];
      assert LiteralAt(d, |lead| + p, attributes[k]);
    }
  }

  /** The title is empty when the title pattern finds nothing, and otherwise it is the
      stripped text of the leftmost match, taken as long as possible. */
  lemma ParseTweetTitle(text: string)
    ensures var title := ParseTweet(text).title;
      && ((forall i, e :: !TitleMatch.MatchAt(text, i, e)) ==> title == "")
      && ((exists i, e :: TitleMatch.MatchAt(text, i, e)) ==>
            exists i, e :: && TitleMatch.MatchAt(text, i, e)
                           && title == Strip(text[i..e])
                           && (forall i', e' :: 0 <= i' < i ==> !TitleMatch.MatchAt(text, i', e'))
                           && (forall e' :: e < e' ==> !TitleMatch.MatchAt(text, i, e')))
  {
    TitleMatch.TitleIsLeftmostLongest(text);
  }

  /** The price is empty when the price pattern finds nothing, and otherwise it is the
      longest price text at the leftmost position where one starts. */
  lemma ParseTweetPrice(text: string)
    ensures var price := ParseTweet(text).price;
      && ((forall p, y :: !PriceMatch.PriceMatchAt(text, p, y)) ==> price == "")
      && ((exists p, y :: PriceMatch.PriceMatchAt(text, p, y)) ==>
            exists p, t :: && PriceMatch.PriceMatchAt(text, p, t)
                           && price == text[p..t]
                           && (forall p', y :: p' < p ==> !PriceMatch.PriceMatchAt(text, p', y))
                           && (forall y :: PriceMatch.PriceMatchAt(text, p, y) ==> y <= t))
  {
    PriceMatch.PriceIsLeftmostLongest(text);
  }

  /** The attributes are distinct vocabulary words that occur in the post. */
  lemma ParseTweetAttributes(text: string)
    ensures var attributes := ParseTweet(text).attributes;
      && AttributeMatch.NoDuplicates(attributes)
      && forall a :: a in attributes ==>
           a in AttributeMatch.Vocabulary && exists q :: LiteralAtIgnoringCase(text, q, a)
  {
    AttributeMatch.AttributesDistinct(text);
    AttributeMatch.AttributesSound(text);
  }

  /** The description opens with the title and price sentence and names every attribute. */
  lemma ParseTweetDescription(text: string)
    ensures var r := ParseTweet(text);
      && LiteralAt(r.description, 0, DescriptionLead(r.title, r.price))
      && forall k :: 0 <= k < |r.attributes| ==> Contains(r.description, r.attributes[k])
  {
    var r := ParseTweet(text);
    DescriptionShape(r.title, r.price, r.attributes);
  }
}

/** The listing step: it extracts the product record from the post text, reads the
    dimensions and the weight from the two generated replies, and assembles the
    listing record, including a markdown summary of the product. */
module ListingAssembly {
  import opened Text
  import ProductExtraction
  import GeneratedReplies

  datatype Measurements = Measurements(height: string, length: string, unit: string, width: string)
  datatype ItemWeight = ItemWeight(unit: string, value: string)
  datatype PriceTag = PriceTag(amount: string, currency: string)

  /** The record `generate_product_listing_from_tweet` returns, field for field. */
  datatype Listing = Listing(
    asin: string,
    availability: string,
    brand: string,
    category: string,
    countryOfOrigin: string,
    description: string,
    dimensions: Measurements,
    generatedListing: string,
    itemPackageQuantity: int,
    itemWeight: ItemWeight,
    keywords: seq<string>,
    price: PriceTag,
    title: string)

  /** The currency is inferred from the price text by a case-sensitive test for "Rs". */
  function Currency(amount: string): (c: string)
    ensures c == "INR" <==> Contains(amount, "Rs")
    ensures c == "INR" || c == "USD"
  {
    if ContainsFrom(amount, "Rs", 0) then "INR" else "USD"
  }

  /** The attribute line of the summary: the list joined with ", ", or "N/A". */
  function AttributesLine(attributes: seq<string>): (r: string)
    ensures |attributes| == 0 ==> r == "N/A"
    ensures forall k :: 0 <= k < |attributes| ==> Contains(r, attributes[k])
  {
    JoinContainsAll(attributes, ", ");
    if |attributes| > 0 then Join(attributes, ", ") else "N/A"
  }

  /** The dimensions line of the summary: height, width and length, in that order, in
      the form the dimensions pattern reads. */
  function DimensionsLine(height: string, width: string, length: string): string {
    GeneratedReplies.Canonical(height, width, length)
  }

  /** The sections of the markdown summary, in order. */
  function SummarySections(r: ProductExtraction.ProductDetails, height: string, width: string,
                           length: string, weight: string): (sections: seq<string>)
    ensures |sections| == 11
  {
    [ "\n## Product Listing: " + r.title,
      "\n\n**Title:** " + r.title,
      "\n\n**Price:** " + r.price,
      "\n\n**Availability:** In Stock",
      "\n\n**Brand:** " + r.brand,
      "\n\n**Category:** " + r.category,
      "\n\n**Attributes:** " + AttributesLine(r.attributes),
      "\n\n**Description:**\n" + r.description,
      "\n\n**Dimensions (L x W x H):**\n" + DimensionsLine(height, width, length),
      "\n\n**Weight:**\n" + weight + " kg",
      "\n\n**Call to Action:**\nBuy Now! [Link to Product Page]\n" ]
  }

  function Summary(r: ProductExtraction.ProductDetails, height: string, width: string,
                   length: string, weight: string): string {
    Join(SummarySections(r, height, width, length, weight), "")
  }

  /** The listing record built from the extracted product record and the values read
      from the two replies. */
  function Assemble(r: ProductExtraction.ProductDetails, height: string, width: string,
                    length: string, weight: string): (l: Listing)
    ensures l.title == r.title && l.price.amount == r.price && l.description == r.description
    ensures l.dimensions == Measurements(height, length, "cm", width)
    ensures l.itemWeight == ItemWeight("kg", weight)
    ensures l.price.currency == Currency(l.price.amount)
    ensures l.itemPackageQuantity == 1
  {
    Listing(
      "DefaultASIN",
      "In Stock",
      r.brand,
      r.category,
      "Unknown",
      r.description,
      Measurements(height, length, "cm", width),
      Summary(r, height, width, length, weight),
      1,
      ItemWeight("kg", weight),
      [r.title, r.category, "product", "sale"],
      PriceTag(r.price, Currency(r.price)),
      r.title)
  }

  /** The listing for a post text, given the replies of the two generation calls. */
  function GenerateListing(text: string, dimensionsReply: string, weightReply: string): (l: Listing)
    ensures l.title == ProductExtraction.ParseTweet(text).title
    ensures l.price.amount == ProductExtraction.ParseTweet(text).price
    ensures l.price.currency == Currency(l.price.amount)
    ensures var d := GeneratedReplies.Dimensions(dimensionsReply);
      l.dimensions == Measurements(d.0, d.2, "cm", d.1)
    ensures l.itemWeight == ItemWeight("kg", GeneratedReplies.WeightKg(weightReply))
    ensures GeneratedReplies.IsDigitGroup(l.dimensions.height) && GeneratedReplies.IsDigitGroup(l.dimensions.width)
      && GeneratedReplies.IsDigitGroup(l.dimensions.length)
    ensures GeneratedReplies.IsWeightNumber(l.itemWeight.value)
  {
    var (height, width, length) := GeneratedReplies.Dimensions(dimensionsReply);
    Assemble(ProductExtraction.ParseTweet(text), height, width, length, GeneratedReplies.WeightKg(weightReply))
  }

  // ---------------------------------------------------------------------------
  // Properties

  /** The fixed fields: the identifiers, the availability, the origin, and the brand and
      category of every extracted product. */
  lemma ListingConstants(text: string, dimensionsReply: string, weightReply: string)
    ensures var l := GenerateListing(text, dimensionsReply, weightReply);
      && l.asin == "DefaultASIN" && l.availability == "In Stock" && l.countryOfOrigin == "Unknown"
      && l.brand == "Unknown" && l.category == "General"
  {
    var r := ProductExtraction.ParseTweet(text);
    var dims := GeneratedReplies.Dimensions(dimensionsReply);
    AssembleKeywords(r, dims.0, dims.1, dims.2, GeneratedReplies.WeightKg(weightReply));
  }

  /** The keywords are the title, "General", "product" and "sale". */
  lemma ListingKeywords(text: string, dimensionsReply: string, weightReply: string)
    ensures var l := GenerateListing(text, dimensionsReply, weightReply);
      l.keywords == [l.title, "General", "product", "sale"]
  {
    var r := ProductExtraction.ParseTweet(text);
    var dims := GeneratedReplies.Dimensions(dimensionsReply);
    AssembleKeywords(r, dims.0, dims.1, dims.2, GeneratedReplies.WeightKg(weightReply));
  }

  lemma AssembleKeywords(r: ProductExtraction.ProductDetails, height: string, width: string,
                         length: string, weight: string)
    ensures var l := Assemble(r, height, width, length, weight);
      && l.asin == "DefaultASIN" && l.availability == "In Stock" && l.countryOfOrigin == "Unknown"
      && l.brand == r.brand && l.category == r.category
      && l.keywords == [r.title, r.category, "product", "sale"]
  {
  }

  /** The currency is "INR" exactly when the price text holds "Rs", and "USD" otherwise. */
  lemma CurrencyFollowsPrice(text: string, dimensionsReply: string, weightReply: string)
    ensures var l := GenerateListing(text, dimensionsReply, weightReply);
      && (l.price.currency == "INR" <==> Contains(l.price.amount, "Rs"))
      && (l.price.currency == "USD" <==> !Contains(l.price.amount, "Rs"))
  {
  }

  /** A price text in which no "R" is followed by "s" is in dollars. */
  lemma {:induction false} DollarsWithoutRs(amount: string)
    requires forall i :: 0 <= i < |amount| - 1 ==> amount[i] != 'R' || amount[i + 1] != 's'
    ensures Currency(amount) == "USD"
  {
    forall p
      ensures !LiteralAt(amount, p, "Rs")
    {
      if 0 <= p && p + 2 <= |amount| {
        assert amount[p..p + 2][0] == amount[p] && amount[p..p + 2][1] == amount[p + 1];
      }
    }
  }

  /** The test is case-sensitive: "rs. 100" and "RS. 100" are in dollars, as is an empty
      price, and only the exact "Rs" gives "INR". */
  lemma CurrencyIsCaseSensitive()
    ensures Currency("rs. 100") == "USD"
    ensures Currency("RS. 100") == "USD"
    ensures Currency("") == "USD"
    ensures Currency("Rs. 100") == "INR"
  {
    DollarsWithoutRs("rs. 100");
    DollarsWithoutRs("RS. 100");
    DollarsWithoutRs("");
    assert LiteralAt("Rs. 100", 0, "Rs");
  }

  /** The dimensions are stored by name: the first group is the height, the second the
      width and the third the length. */
  lemma DimensionsByName(text: string, dimensionsReply: string, weightReply: string)
    requires |dimensionsReply| >= 21 && dimensionsReply[..21] == "10 cm x 20 cm x 30 cm"
    ensures GenerateListing(text, dimensionsReply, weightReply).dimensions == Measurements("10", "30", "cm", "20")
  {
    GeneratedReplies.DimensionsInOrder(dimensionsReply);
  }

  /** When both generation calls fail, the listing still comes out, with zero
      dimensions and a zero weight. */
  lemma FailedGeneration(text: string, detail1: string, detail2: string)
    ensures var l := GenerateListing(text, "Error generating content: " + detail1,
                                     "Error generating content: " + detail2);
      && l.dimensions == Measurements("0", "0", "cm", "0")
      && l.itemWeight == ItemWeight("kg", "0")
  {
    GeneratedReplies.ErrorReplyGivesZeros(detail1);
    GeneratedReplies.ErrorReplyGivesZeros(detail2);
  }

  /** The dimensions line written into the summary reads back, under the dimensions
      pattern, as the listing's height, width and length. */
  lemma DimensionsLineReadsBack(text: string, dimensionsReply: string, weightReply: string)
    ensures var m := GenerateListing(text, dimensionsReply, weightReply).dimensions;
      GeneratedReplies.ParseDims(DimensionsLine(m.height, m.width, m.length)) == Some((m.height, m.width, m.length))
  {
    var m := GenerateListing(text, dimensionsReply, weightReply).dimensions;
    GeneratedReplies.CanonicalReadBack(m.height, m.width, m.length);
  }

  /** A part of one section of the summary occurs in the summary. */
  lemma SectionPart(sections: seq<string>, k: nat, head: string, part: string)
    requires k < |sections| && sections[k] == head + part
    ensures Contains(Join(sections, ""), part)
  {
    JoinContainsElements(sections, "", k);
    MiddleAt(head, part, "");
    assert head + part + "" == sections[k];
    ContainsWithin(Join(sections, ""), sections[k], |head|, part);
  }

  /** The summary opens with the product heading. */
  lemma SummaryHeading(r: ProductExtraction.ProductDetails, height: string, width: string,
                       length: string, weight: string)
    ensures LiteralAt(Summary(r, height, width, length, weight), 0, "\n## Product Listing: " + r.title)
  {
    var sections := SummarySections(r, height, width, length, weight);
    var g := Join(sections, "");
    assert g == sections[0] + "" + Join(sections[1..], "");
    assert g[..|sections[0]|] == sections[0];
  }

  /** The summary names the title, the price, the description, the dimensions line,
      the weight and every attribute. */
  lemma SummaryNames(r: ProductExtraction.ProductDetails, height: string, width: string,
                     length: string, weight: string)
    ensures var g := Summary(r, height, width, length, weight);
      && Contains(g, r.title) && Contains(g, r.price) && Contains(g, r.description)
      && Contains(g, DimensionsLine(height, width, length))
      && Contains(g, weight + " kg")
      && forall k :: 0 <= k < |r.attributes| ==> Contains(g, r.attributes[k])
  {
    var sections := SummarySections(r, height, width, length, weight);
    var g := Join(sections, "");
    SectionPart(sections, 1, "\n\n**Title:** ", r.title);
    SectionPart(sections, 2, "\n\n**Price:** ", r.price);
    SectionPart(sections, 7, "\n\n**Description:**\n", r.description);
    SectionPart(sections, 8, "\n\n**Dimensions (L x W x H):**\n", DimensionsLine(height, width, length));
    assert sections[9] == "\n\n**Weight:**\n" + (weight + " kg");
    SectionPart(sections, 9, "\n\n**Weight:**\n", weight + " kg");
    SectionPart(sections, 6, "\n\n**Attributes:** ", AttributesLine(r.attributes));
    forall k | 0 <= k < |r.attributes|
      ensures Contains(g, r.attributes[k])
    {
      JoinContainsElements(r.attributes, ", ", k);
      var p :| LiteralAt(AttributesLine(r.attributes), p, r.attributes[k]);
      ContainsWithin(g, AttributesLine(r.attributes), p, r.attributes[k]);
    }
  }

  /** The listing's summary opens with the product heading and names the title, the
      price, the description, every attribute, the dimensions and the weight. */
  lemma SummaryMentions(text: string, dimensionsReply: string, weightReply: string)
    ensures var l := GenerateListing(text, dimensionsReply, weightReply);
      var g := l.generatedListing;
      && LiteralAt(g, 0, "\n## Product Listing: " + l.title)
      && Contains(g, l.title) && Contains(g, l.price.amount) && Contains(g, l.description)
      && Contains(g, DimensionsLine(l.dimensions.height, l.dimensions.width, l.dimensions.length))
      && Contains(g, l.itemWeight.value + " kg")
      && forall k :: 0 <= k < |ProductExtraction.ParseTweet(text).attributes| ==>
           Contains(g, ProductExtraction.ParseTweet(text).attributes[k])
  {
    var r := ProductExtraction.ParseTweet(text);
    var dims := GeneratedReplies.Dimensions(dimensionsReply);
    var weight := GeneratedReplies.WeightKg(weightReply);
    var l := Assemble(r, dims.0, dims.1, dims.2, weight);
    assert GenerateListing(text, dimensionsReply, weightReply) == l;
    SummaryHeading(r, dims.0, dims.1, dims.2, weight);
    SummaryNames(r, dims.0, dims.1, dims.2, weight);
  }
}

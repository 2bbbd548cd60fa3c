# Tweet-to-listing core, modelled in Dafny

The application turns a social-media post into a product listing for an online store,
in three steps:

- It fetches the post from the Twitter API. It retries with exponential backoff on
  network failures and waits out rate limits.
- It extracts a product record from the post text: a title, a price, a fixed category
  and brand, a list of colour and material attributes, and a description sentence.
  Three regular expressions do the extraction.
- It asks a text generator for typical dimensions and a typical weight. It reads
  those out of the two replies with two more regular expressions, and assembles the
  listing record with a markdown summary.

The model covers these steps as follows:

- **Replies and responses as inputs.** The generator's replies are plain string
  inputs, so the listing is a total function of the post text and the two replies.
- **The fetch loop.** It is an imperative method proved against a recursive reference
  function. The response to each request and the clock reading taken with it are
  inputs, and every sleep is recorded in a log instead of being taken.
- **The regular expressions.** Each is a hand-written matcher that follows the
  backtracking order of Python's `re`:
  - leftmost start;
  - greedy quantifiers that give back one step at a time;
  - alternatives tried in order;
  - ASCII case folding under `re.IGNORECASE`.

  Each matcher has a declarative partner that says which texts match the pattern.
  Lemmas then prove that the matcher returns the leftmost match, and at that start the
  longest one, or that it is sound and complete for an anchored pattern.

Modules (one per file):

| file | module | models |
|---|---|---|
| text.dfy | `Text` | the Python string operations used: `strip`, `capitalize`, `join`, `in`, `str(int)` |
| title.dfy | `TitleMatch` | the title pattern |
| price.dfy | `PriceMatch` | the price pattern |
| attributes.dfy | `AttributeMatch` | the attribute `findall`, capitalization and de-duplication |
| extraction.dfy | `ProductExtraction` | `parse_tweet_for_product_details` |
| replies.dfy | `GeneratedReplies` | reading dimensions and weight from the generated replies |
| listing.dfy | `ListingAssembly` | `generate_product_listing_from_tweet` |
| fetch.dfy | `PostFetch` | the retry loop of `fetch_twitter_post` |

For a post reading "Blue Cotton Jacket is now available ..." the title is "Blue Cotton
Jacket is", for two reasons: the words of the phrase belong to group 1's character
class, and "now available" is an alternative of its own. `TitleMatch.TitleKeepsIs`
proves this.

## Model

| member | source | states |
|---|---|---|
| PostFetch.FetchPost | app.py:46-99 | The loop's result, its sleep log and its request count are exactly those of the reference `Run` from 5 retries and a backoff of 5; at most 5 requests are sent, and there is at most one sleep per request |
| PostFetch.TryStep | app.py:53-98 | One pass through the loop either hands over to the next try, with the sleep logged, one retry less and the backoff doubled, or ends the fetch with the sleeps taken so far |
| PostFetch.RetryStep | app.py:62-66 | A try that ends in a sleep continues with one retry less and the backoff doubled, and its sleep joins the log |
| PostFetch.FinalStep | app.py:68-92 | A try that stops the loop fixes the result, the sleep log and the request count |
| PostFetch.EndStep | app.py:53 | With no retries left the fetch ends with the "Max retries reached" error and no further sleep |
| PostFetch.Try | app.py:55-98 | A URL without an id raises before any request, only a network failure or a 429 leads to another try, and a network failure sleeps the current backoff |
| PostFetch.NetworkFailureRetries | app.py:94-98 | A network failure with retries left sleeps the current backoff and continues with one retry less and the backoff doubled |
| PostFetch.Run | app.py:53-99 | The reference fetch sends at most one request per retry and sleeps at most once per request sent |
| PostFetch.StatusIdFrom | app.py:55 | The id search finds nothing exactly when no `status/` followed by a digit occurs, and what it finds is a non-empty digit run |
| PostFetch.StatusId | app.py:55 | There is no id exactly when no `status/` followed by a digit occurs anywhere in the URL |
| PostFetch.StatusIdLeftmost | app.py:55 | The id is the whole digit run after the leftmost `status/` that a digit follows |
| PostFetch.StatusIdExample | app.py:55 | "x.com/a/status/42?s=20" has the id "42", and "x.com/a" has none |
| PostFetch.Truncate | app.py:60 | `int()` of a clock reading rounds toward zero, for negative readings too |
| PostFetch.Wait | app.py:60-61 | The wait is the reset header less the clock; with no header and a non-negative clock it is never positive |
| PostFetch.ReadPost | app.py:71-90 | An empty media list raises IndexError and nothing else does; a post has no comments, comes from "Twitter", and its content is the text or "No content available"; its image is the first media URL, and none without media; its likes and shares are the metric values, and 0 when the metrics or the field are missing |
| PostFetch.InvalidUrlRaises | app.py:55 | A URL without a post id raises AttributeError before any request and without sleeping |
| PostFetch.NetworkFailuresOnly | app.py:94-99 | When every remaining try fails on the network, each sleeps the current backoff, which then doubles, and the fetch ends with "Max retries reached" after one request per retry |
| PostFetch.FiveNetworkFailures | app.py:50-51 | Five network failures in a row sleep 5, 10, 20, 40 and 80 seconds and end with "Max retries reached" |
| PostFetch.Backoffs | app.py:96-97 | The backoff sleeps form a list of the given length that starts at the initial backoff |
| PostFetch.BackoffsDouble | app.py:97 | Each backoff sleep is twice the one before |
| PostFetch.RateLimitWaits | app.py:59-67 | A 429 whose reset lies ahead sleeps until the reset plus one second and continues with one retry less and the backoff doubled |
| PostFetch.RateLimitPassed | app.py:68-70 | A 429 whose reset has passed, or that has no reset header, ends the fetch at once with "Max retries reached" |
| PostFetch.OtherStatusFails | app.py:91-92 | Any status other than 200 and 429 ends the fetch at once with "Error fetching Twitter post: " followed by the code |
| PostFetch.SuccessReadsPost | app.py:71-90 | A 200 ends the fetch after that request, without sleeping, with the post read from the body: its text (or "No content available"), no comments, and likes and shares equal to the metric values, or 0 when missing |
| PostFetch.SleepsArePositive | app.py:61-64 | Every logged sleep is positive |
| TitleMatch.PhraseAfterSpaces | app.py:112 | The backtracking `\s+` succeeds exactly when some phrase starts after a non-empty part of the whitespace run |
| TitleMatch.SeparatorFrom | app.py:112 | The matcher for `\s+(phrase)` agrees with its declarative definition |
| TitleMatch.SeparatorWithinSpan | app.py:112 | A phrase reached over whitespace starts inside the whitespace run or right after it |
| TitleMatch.GroupEnd | app.py:112 | Backtracking group 1 returns the longest end after which the rest of the pattern matches, or fails when there is none |
| TitleMatch.SearchFrom | app.py:112 | The search returns the leftmost start at which the pattern matches, with the longest group 1 there, and fails only when no start matches |
| TitleMatch.TitleIsLeftmostLongest | app.py:112-114 | The title is "" when the pattern matches nowhere; otherwise it is the stripped group 1 of the leftmost match, taken as long as possible |
| TitleMatch.SearchFindsMatch | app.py:112-114 | A match at the start with no longer one there gives the stripped group as the title |
| TitleMatch.TitleKeepsIs | app.py:112-114 | "<word> is now available" gives the title "<word> is" |
| TitleMatch.TitleBeforeForSale | app.py:112-114 | "<word> for sale" gives the title "<word>" |
| TitleMatch.OnlySeparatorAt | app.py:112 | Inside a run of group-1 characters with a single whitespace, a match can only end group 1 at that whitespace |
| TitleMatch.NoPhraseAt | app.py:112 | No phrase starts at a letter that begins none of the five phrases |
| TitleMatch.SeparatorStartsWithSpace | app.py:112 | Group 1 can only end in front of whitespace |
| PriceMatch.CentsEnd | app.py:117 | The greedy `(?:\.\d{2})?` ends at a place the optional cents allow |
| PriceMatch.GroupsEnd | app.py:117 | The greedy `(?:,\d{3})*` stays in the text and, when it takes a group, ends on a digit |
| PriceMatch.FirstMatch | app.py:117 | The scan returns a start where the pattern matches, with the end it gives |
| PriceMatch.FirstMatchSkips | app.py:117 | The pattern matches at no start that the scan passes over |
| PriceMatch.SearchFrom | app.py:117 | The search returns a start in the text where the pattern matches |
| PriceMatch.SearchSkips | app.py:117 | The pattern matches at no start before the one the search returns, or at no start at all when it returns nothing |
| PriceMatch.RupeeLongest | app.py:117 | The "Rs." branch matches exactly when some text from there is a rupee price, and then it takes the longest one |
| PriceMatch.DollarLongest | app.py:117 | The "USD" branch matches exactly when some text from there is a dollar price, and then it takes the longest one |
| PriceMatch.LeadingDigits | app.py:117 | No reading of `\d{1,3}` followed by groups and cents ends after the greedy reading |
| PriceMatch.TokenLongest | app.py:117 | At a start, the pattern matches exactly when some text from there is a price, and it takes the longest one |
| PriceMatch.TokenShape | app.py:117 | A price text starts with a letter and ends with a digit |
| PriceMatch.PriceIsLeftmostLongest | app.py:117-119 | The price is "" when no text is a price; otherwise it is the longest price text at the leftmost start where one begins |
| PriceMatch.PriceFound | app.py:117-119 | The text the search finds is the price, the leftmost and the longest |
| PriceMatch.PriceUnstripped | app.py:119 | `strip` leaves a matched price unchanged |
| PriceMatch.RupeeTakesThreeLeadingDigits | app.py:117-119 | In "Rs. 2500" the price is "Rs. 250" |
| PriceMatch.RupeeKeepsGroupsAndCents | app.py:117-119 | Text opening with "Rs. 1,200.50" has that whole text as its price |
| PriceMatch.DollarIgnoresCase | app.py:117-119 | Text opening with "usd 49.99" has that as its price |
| AttributeMatch.OneWordAt | app.py:122 | No two vocabulary words match at the same position, so the order of the alternatives never decides which word is found |
| AttributeMatch.WordIndexAt | app.py:122 | The word matching at a position is determined by the letters there |
| AttributeMatch.VocabularyIsGood | app.py:122 | The thirteen words are capitalized, and no two of them match at the same position |
| AttributeMatch.FirstWordFrom | app.py:122 | Trying the alternatives in order finds one that matches, or shows that none does |
| AttributeMatch.WordAt | app.py:122 | The alternation at a position returns a matching word, or fails only when none matches |
| AttributeMatch.Resume | app.py:122 | `findall` resumes at the end of a match, so matches never overlap |
| AttributeMatch.CapitalizeAll | app.py:124 | Every found text is capitalized, in place |
| AttributeMatch.Dedup | app.py:124 | De-duplication keeps exactly the same elements and leaves no repeats |
| AttributeMatch.FindAllSound | app.py:122 | Every text `findall` returns matches a vocabulary word at some position |
| AttributeMatch.FindAllComplete | app.py:122 | A word occurring at a position that no earlier occurrence reaches across is found by the scan |
| AttributeMatch.FoundAtStart | app.py:122 | A word matching where the scan starts is its first find |
| AttributeMatch.ScanStep | app.py:122 | A step of the scan does not pass a position that nothing reaches across, and what it skips is not found later |
| AttributeMatch.AttributesDistinct | app.py:124 | The attribute list has no repeats |
| AttributeMatch.CapitalizeFound | app.py:124 | Text matched against a vocabulary word capitalizes to that word |
| AttributeMatch.AttributesAreFinds | app.py:122-124 | The attributes are exactly the capitalized finds |
| AttributeMatch.AttributesSound | app.py:122-124 | Every attribute is a vocabulary word that occurs in the text, ignoring case |
| AttributeMatch.FoundIsVocabulary | app.py:122-124 | Each find capitalizes to the vocabulary word it matched |
| AttributeMatch.AttributesComplete | app.py:122-124 | A vocabulary word that occurs in the text, and is not overlapped by an earlier match, is an attribute |
| AttributeMatch.WordInsideWord | app.py:122-124 | Without word boundaries, "Reddish" has the attribute "Red" |
| AttributeMatch.CaseVariantsMerge | app.py:122-124 | "BLACK black" gives exactly one attribute, "Black" |
| AttributeMatch.OverlapHidesWord | app.py:122-124 | A match hides the words it overlaps: "YelloWool" contains "Wool", yet its only attribute is "Yellow" |
| AttributeMatch.SkipPosition | app.py:122 | The scan passes over a position where no vocabulary word can start |
| AttributeMatch.SkipRun | app.py:122 | The scan passes over a run of positions where no vocabulary word can start |
| AttributeMatch.TakeWord | app.py:122 | At a position where a vocabulary word matches, the scan takes it and resumes after it |
| ProductExtraction.AttributesText | app.py:127 | With no attributes the description uses "Various features available.", and otherwise the text names every attribute |
| ProductExtraction.ParseTweet | app.py:101-133 | The category is always "General", the brand always "Unknown", and the description is built from the extracted title, price and attributes |
| ProductExtraction.DescriptionShape | app.py:127-131 | The description opens with the title and price sentence, ends with a full stop, names every attribute, and with no attributes ends in "Various features available.." |
| ProductExtraction.ParseTweetTitle | app.py:111-114 | The title is "" when the title pattern matches nowhere, and otherwise the stripped group 1 of the leftmost match, taken as long as possible |
| ProductExtraction.ParseTweetPrice | app.py:116-119 | The price is "" when no text is a price, and otherwise the longest price text at the leftmost start where one begins |
| ProductExtraction.ParseTweetAttributes | app.py:121-124 | The attributes are distinct vocabulary words occurring in the post |
| ProductExtraction.ParseTweetDescription | app.py:126-131 | The description opens with the title and price sentence and names every attribute |
| GeneratedReplies.ParseMeasure | app.py:147 | What the measure reader returns is a match of `(\d+)\s?cm` |
| GeneratedReplies.ParseCross | app.py:147 | What the cross reader returns is a non-empty match of `\s*x\s*` |
| GeneratedReplies.MeasureUnique | app.py:147 | A match of `(\d+)\s?cm` is the one the reader returns |
| GeneratedReplies.CrossUnique | app.py:147 | A match of `\s*x\s*` that stops before a non-space is the one the reader returns |
| GeneratedReplies.ParseDims | app.py:147-149 | The three groups the dimensions parser returns are non-empty runs of digits |
| GeneratedReplies.DimsSound | app.py:147-149 | Whatever the dimensions parser returns, the pattern matches with exactly those three groups |
| GeneratedReplies.DimsComplete | app.py:147-149 | Whenever the dimensions pattern matches, the parser returns its three groups |
| GeneratedReplies.DimsCompleteAt | app.py:147-149 | The parser reads the three measures and two crosses the pattern matched |
| GeneratedReplies.MeasureThenCross | app.py:147 | A measure followed by a cross and a measure is read as such |
| GeneratedReplies.CanonicalDims | app.py:147-149 | Text opening with "<h> cm x <w> cm x <l> cm" gives the groups h, w and l, whatever follows |
| GeneratedReplies.CanonicalReadBack | app.py:147-149 | The line "<h> cm x <w> cm x <l> cm" written from three digit runs reads back as h, w and l |
| GeneratedReplies.FractionEnd | app.py:154 | The greedy `(\.\d{1,2})?` stays within the text |
| GeneratedReplies.ParseWeight | app.py:154 | The weight group the parser returns lies within the reply |
| GeneratedReplies.WeightSound | app.py:154-155 | Whatever the weight parser returns, the pattern matches with that group |
| GeneratedReplies.WeightComplete | app.py:154-155 | Whenever the weight pattern matches, the parser returns its group |
| GeneratedReplies.CanonicalWeight | app.py:154-155 | A whole number, or one with one or two decimals, followed by " kg" gives that number, whatever follows |
| GeneratedReplies.StrippedOr | app.py:143-144 | A reply is stripped, and a reply that strips to nothing is replaced by the default; with a stripped non-empty default the text read is never empty and has no whitespace at either end |
| GeneratedReplies.Dimensions | app.py:143-151 | Height, width and length are always non-empty runs of digits |
| GeneratedReplies.WeightKg | app.py:144-155 | The weight is always digits, optionally followed by a point and one or two decimals |
| GeneratedReplies.NumberIsWeightNumber | app.py:154-155 | The text of group 1 of the weight pattern is such a number |
| GeneratedReplies.DimensionsFollowPattern | app.py:143-151 | The dimensions are the groups of the pattern's match on the stripped reply, or on the default for an empty reply, and three "0" when nothing matches |
| GeneratedReplies.WeightFollowsPattern | app.py:144-155 | The weight is group 1 of the pattern's match on the stripped reply, or on the default for an empty reply, and "0" when nothing matches |
| GeneratedReplies.EmptyDimensionsReply | app.py:143-149 | An empty reply gives three "0", read from "0 cm x 0 cm x 0 cm" |
| GeneratedReplies.DimensionsInOrder | app.py:143-149 | A reply opening with "10 cm x 20 cm x 30 cm" gives height "10", width "20" and length "30" |
| GeneratedReplies.ErrorReplyGivesZeros | app.py:143-155 | The "Error generating content: ..." text gives three "0" and a weight of "0" |
| GeneratedReplies.NoLeadingDigit | app.py:147-155 | Text that does not open with a digit matches neither pattern |
| GeneratedReplies.UpperCaseCrossRejected | app.py:147-151 | The cross must be a lower-case "x": "10 cm X" gives three "0" |
| GeneratedReplies.EmptyWeightReply | app.py:144-155 | An empty reply gives "0", read from "0 kg" |
| GeneratedReplies.WeightWithDecimal | app.py:144-155 | A reply opening with "2.5 kg" has the weight "2.5" |
| GeneratedReplies.ThreeDecimalsRejected | app.py:154-155 | A reply opening with "2.555kg" has the weight "0" |
| ListingAssembly.Currency | app.py:205 | The currency is "INR" exactly when the price contains "Rs", and "USD" otherwise |
| ListingAssembly.AttributesLine | app.py:183 | With no attributes the summary's attribute line is "N/A", and otherwise it names every attribute |
| ListingAssembly.Assemble | app.py:157-208 | The listing carries the extracted title, price and description, the height, width and length under their own names in "cm", the weight in "kg", the currency inferred from the price, and a package quantity of 1 |
| ListingAssembly.GenerateListing | app.py:135-209 | The listing's title and price are those extracted from the post, its currency is inferred from that price, its dimensions are the groups read from the dimensions reply stored by name, and its weight is the one read from the weight reply; the dimensions are digit runs and the weight a number with at most two decimals |
| ListingAssembly.DimensionsLineReadsBack | app.py:188-189 | The dimensions line the summary prints reads back, under the dimensions pattern, as the listing's height, width and length |
| ListingAssembly.ListingConstants | app.py:157-162 | The identifier, availability, origin, brand and category are the fixed "DefaultASIN", "In Stock", "Unknown", "Unknown" and "General" |
| ListingAssembly.ListingKeywords | app.py:202 | The keywords are exactly the title, "General", "product" and "sale" |
| ListingAssembly.CurrencyFollowsPrice | app.py:203-206 | The listing's currency is "INR" exactly when its price contains "Rs", and "USD" exactly when it does not |
| ListingAssembly.DollarsWithoutRs | app.py:205 | A price in which no "R" is followed by "s" is in dollars |
| ListingAssembly.CurrencyIsCaseSensitive | app.py:205 | "rs. 100", "RS. 100" and "" are in dollars, and "Rs. 100" in rupees |
| ListingAssembly.DimensionsByName | app.py:149-168 | A reply opening with "10 cm x 20 cm x 30 cm" stores height "10", width "20" and length "30" |
| ListingAssembly.FailedGeneration | app.py:143-201 | When both generation calls fail, the listing still comes out, with zero dimensions and a zero weight |
| ListingAssembly.SummaryHeading | app.py:170-171 | The summary opens with the product heading |
| ListingAssembly.SummaryNames | app.py:170-196 | The summary names the title, the price, the description, the dimensions line, the weight and every attribute |
| ListingAssembly.SummaryMentions | app.py:170-196 | The listing's summary opens with the product heading and names its title, price, description, dimensions, weight and every attribute |
| Text.StripCuts | app.py:114 | `strip` removes whitespace, and only whitespace, from both ends, and what it keeps neither starts nor ends with whitespace |
| Text.StripEnds | app.py:114 | What `strip` keeps is empty or starts and ends with a non-whitespace character |
| Text.StripUnchanged | app.py:119 | `strip` leaves text without whitespace at its ends unchanged |
| Text.TrimStart | app.py:143 | `lstrip` keeps a suffix and removes only whitespace in front of it |
| Text.TrimEnd | app.py:143 | `rstrip` keeps a prefix and removes only whitespace after it |
| Text.Capitalize | app.py:124 | `capitalize` upper-cases the first character and lower-cases the rest |
| Text.CapitalizeMatched | app.py:124 | Text equal to a capitalized word up to case capitalizes to that word |
| Text.JoinLength | app.py:127 | The joined text is as long as the elements together plus one separator between each two |
| Text.JoinContainsAll | app.py:127 | Every element occurs in the joined text |
| Text.JoinContainsElements | app.py:127 | Every joined element occurs in the result |
| Text.ContainsFrom | app.py:205 | The substring test succeeds exactly when the needle occurs at some position |
| Text.NatToString | app.py:92 | `str` of a natural number is its decimal digits without leading zeros |
| Text.IntToString | app.py:92 | `str` of an integer starts with "-" exactly when it is negative; the rest is the decimal digits of its magnitude, without leading zeros |

## Left out

- The Flask route `generate_listing`, `app.run` and the environment setup are left out. They are HTTP and configuration plumbing.
- `extract_text_from_image` is left out. It is a network fetch plus OCR in foreign libraries, and its output is never used.
- `generate_content_with_gemini` is a foreign API call. Its reply is an arbitrary input string, which may be the "Error generating content: ..." text.
- The prompt texts are left out. The model does not use them, because the replies are inputs.
- `requests.get`, JSON decoding, `time.time`, `time.sleep` and `print` are left out. They become an abstract response per request, a clock reading per request, and a log of requested sleeps.
- The request URL and headers are left out. Only the post id they carry is modelled.
- Decoded responses are modelled without JSON typing. The metric values are integers, and a body without a `data` part reads as a post with no text and no metrics.
- PostFetch.Try reads the clock once per try, where the source calls `time.time()` twice on a 429 with no reset header; the two readings are taken as equal.
- PostFetch.Try takes the reset header already parsed as an integer. A header that `int()` cannot parse would raise ValueError, and that is not modelled.
- PostFetch.Try ends the fetch directly on a 429 whose reset has passed. The source sets `retries` to 0 and leaves the loop. Both give the same result, sleeps and request count.
- AttributeMatch.Dedup keeps first occurrences. `list(set(...))` has no defined order, so only membership and the absence of repeats are claimed.
- The matchers, and `Text.Strip`, `Text.TrimStart` and `Text.TrimEnd`, treat only ASCII digits as `\d` and only ten characters as whitespace: tab to carriage return, 0x1C to 0x1F, and space. They fold only ASCII letters under `re.IGNORECASE`. Python's other Unicode whitespace and digits are left out.
- `Text.Capitalize` changes case only for ASCII letters.
- The exact bytes of the markdown summary are not claimed. Only its opening heading and the fields it names are proved, because the attribute order comes from a set.
- The summary labels its dimensions line "(L x W x H)", but the line prints height, width and length in that order. The model keeps that order (`ListingAssembly.DimensionsLine`).

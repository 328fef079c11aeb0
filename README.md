# Data-card product search, modelled in Dafny

This project models `core/datacard_search.py`. That module finds mobile data-card products in
one shop's listing page. It runs in four steps, and the model covers each one:

- **Keyword classification** (module `Classifier`). The *effective term* is the first carrier
  token (移动, 联通, 广电, in that order) that occurs in the keyword, or else the keyword itself.
  The page path is `/producten/tyindex/<shop id>` when the raw keyword equals a province name,
  ignoring case. Otherwise it is `/ProductEn/Index/<shop id>`.
- **Matching and deduplication** (module `Listing`). One pass walks the list items in document
  order. It keeps an item when four things hold:
  - the item has a heading;
  - the heading contains the effective term as a literal, case-insensitive substring;
  - the heading's name has not been seen before;
  - the item has a non-empty href, and the resolved link has not been seen before.

  The pass keeps a set of seen names and a set of seen links.
- **Field extraction** (module `Extractor`). Each kept item becomes a record with these fields:
  an image cell in markdown, the name, general data, targeted data, call minutes and age.
  The three quota fields get a default when their markup is missing, and so does the age
  when `div.b1` has no `span.xl`. A missing `dt` or `div.b1`, or an `img` without `src`,
  raises instead (see below).
- **Result shaping** (module `Search`). The search returns either the "not found" dictionary or
  the "found" dictionary. The found dictionary holds one record per kept item, with its detail
  link.

The source builds its results by changing objects in place: the carrier scan assigns a
local, the matching pass adds to its two seen sets (lines 75 and 84) and appends to its
product list (line 86), the span loop assigns into the `flow_data` dictionary (lines 112-121),
and the results loop sets a key on each record and appends it (lines 145-146). Each of these
objects is created by the call that changes it and is never shared while it changes. So each
object is a local variable of a value type that the loop reassigns. Each loop is a Dafny
`method` with a `while` loop: `CoreKeyword`, `MatchPage`, `ExtractProductData` and
`ShapeResults`. Each method's `ensures` equates its result with a specification function:
`EffectiveTerm`, `Matches`, `ExtractSpec` and `Shape`. `GetAllProducts` and `SearchDataCards`
wrap the loops and are proved equal to `AllProducts` and `SearchSpec`. The lemmas then prove
what the source promises about those functions.

The model has three collaborators, and each is a parameter:

- `fetch: string -> Option<seq<Item>>` stands for the HTTP GET plus the HTML parse. It maps a
  URL to the page's list items, flattened over every `div.new_lst` and `ul.fa > li`. `None`
  stands for a request that raises or returns a non-success status.
- `resolve: string -> string` stands for `urljoin(BASE_URL, ·)`. The page URL, the detail links
  and the image sources all go through it. Every general property is proved for any such
  function. Three concrete scenarios require `resolve` to map two hrefs to different links:
  `RepeatedLinkStillMarksName` (`/p/1` and `/p/2`), and `TwoMatchPage` and `TwoMatchScenario`
  (`/a` and `/b`).
- An `Item` is the part of an `li` that the scraper reads:
  - the stripped text of its first `h1`;
  - the `href` of its first `a`;
  - its `dt` and that element's `img` and `src`;
  - its `div.b1`, with a `span.zhutui` flag and the text of its `span.xl`;
  - the stripped texts of the `span`s in its `div.b2`.

Exceptions that escape `extract_product_data` are modelled as `Failure(Fault)` values, not as
preconditions. The search passes them on unchanged. `SearchFaultIff` states exactly when that
happens.

Extraction is a function, so extracting the same item twice gives the same record.

### Behaviour of the code worth knowing

- **When a name is marked seen.** The code marks the name as soon as the heading matches
  (line 75), before it checks the href and the link (lines 78-84). An item dropped for a
  missing href or a repeated link therefore still blocks every later item with the same name.
  See `CandidateNameBlocksLater`, `MissingHrefBlocksName`, `RepeatedLinkStillMarksName` and
  `ItemKeptIff`.
- **The promoted flag.** The comment at line 99 announces it, and line 101 computes it, but
  the returned dictionary never includes it. `PromotedFlagIgnored` proves that it has no effect.
- **When extraction raises.** Extraction raises on a missing `dt` (line 96), a missing heading
  (line 97), a missing `div.b1` (line 101) and an `img` without `src` (line 123). A missing
  heading can never reach the extractor, because the matcher keeps only items that have a
  heading.

## Model

| member | source | states |
|---|---|---|
| `Classifier.CoreKeyword` | core/datacard_search.py:27-32 | the carrier scan with its early exit returns the effective term |
| `Classifier.EffectiveTermIsFirstCarrier` | core/datacard_search.py:22-32 | the effective term is the earliest of 移动, 联通, 广电 that occurs in the keyword; when none occurs, it is the keyword unchanged |
| `Classifier.EffectiveTermInKeyword` | core/datacard_search.py:28-32 | the effective term always occurs in the keyword |
| `Classifier.EffectiveTermWidensMatch` | core/datacard_search.py:27-32 | a name that contains the raw keyword (ignoring case) also contains the effective term, so narrowing to a carrier token never loses an item |
| `Classifier.PagePath` | core/datacard_search.py:36-43 | the path is the province index with the shop id exactly when the raw keyword is a province (ignoring case); otherwise it is the product index |
| `Classifier.ProvincesArePlain` | core/datacard_search.py:10-20 | every province name is written in CJK ideographs only, with none of 移, 联 or 电 |
| `Classifier.ProvinceIsExactName` | core/datacard_search.py:36-37 | the case-insensitive province test accepts exactly the spellings in the table |
| `Classifier.PlainNameHasNoCarrier` | core/datacard_search.py:23 | a name made only of such ideographs contains none of the carrier tokens |
| `Classifier.ProvinceKeywordIsItsOwnTerm` | core/datacard_search.py:10-37 | for a province keyword, the effective term is the keyword itself |
| `Classifier.BeijingIsProvince` | core/datacard_search.py:36-43 | both 北京 and 北京市 select the province index |
| `Classifier.CarrierKeywordUsesProductIndex` | core/datacard_search.py:28-43 | 广东移动 is matched against 移动 and selects the product index: the path depends on the raw keyword |
| `Text.SplitEmptyIff` | core/datacard_search.py:110-116 | whitespace splitting yields no token exactly when the text is blank |
| `Text.SplitIsSqueeze` | core/datacard_search.py:110-116 | whitespace splitting followed by joining with single spaces equals the text trimmed with each run of whitespace shrunk to one space, as a separate character-by-character definition gives it: every text is its tokens separated by runs of whitespace |
| `Text.SplitJoinSpaced` | core/datacard_search.py:110-116 | splitting undoes joining with single spaces, for non-empty tokens without whitespace |
| `Listing.GetAllProducts` | core/datacard_search.py:26-50 | classify the keyword, fetch the chosen page (nothing when the fetch fails), then walk it; returns what `AllProducts` specifies |
| `Listing.MatchPage` | core/datacard_search.py:53-91 | the walk in document order with its two seen sets; returns what `Matches` specifies |
| `Listing.FetchFailureYieldsNothing` | core/datacard_search.py:45-50 | a failed fetch yields no products |
| `Listing.NoCandidateNoMatch` | core/datacard_search.py:62-70 | an item without a heading, or whose heading lacks the term, is never kept |
| `Listing.MatchFromFresh` | core/datacard_search.py:62-89 | every kept item has a heading containing the term (ignoring case) and a non-empty href, and its detail link is that href resolved; its name and link had not been seen |
| `Listing.MatchFromDistinct` | core/datacard_search.py:73-84 | kept names are pairwise distinct, and so are kept links |
| `Listing.MatchFromSubsequence` | core/datacard_search.py:60-89 | the kept items are the page's items with some left out, in document order |
| `Listing.SubsequenceNoLonger` | core/datacard_search.py:60-89 | a subsequence is no longer than its sequence, so there are never more products than items |
| `Listing.MatchFromAppend` | core/datacard_search.py:60-89 | the pass over a concatenation is the pass over the first part, then the second part continued from the seen sets the first part left |
| `Listing.SeenAfterIs` | core/datacard_search.py:73-84 | after a pass, the seen names are every heading that contained the term, kept or not; the seen links are only the links of kept items |
| `Listing.ItemKeptIff` | core/datacard_search.py:61-89 | item i is kept if and only if it has a heading containing the term, a name that no earlier candidate had, an href, and a link that no earlier kept item had; otherwise the output does not change |
| `Listing.CandidateNameBlocksLater` | core/datacard_search.py:73-75 | once a heading containing the term has been met, whether or not its item was kept, every later item with that heading is dropped |
| `Listing.MissingHrefBlocksName` | core/datacard_search.py:73-80 | if the first item with a given name matches but has no href, no item with that name is ever kept |
| `Listing.RepeatedLinkStillMarksName` | core/datacard_search.py:73-84 | an item dropped for a repeated link still blocks a later item with its name and a fresh link |
| `Listing.MatchesProperties` | core/datacard_search.py:53-91 | for a whole page, all of the above together: every kept item is acceptable, names and links are distinct, order is kept, and the length is bounded |
| `Listing.AllProductsProperties` | core/datacard_search.py:26-91 | the same properties for the products of a search, against the effective term of its keyword |
| `Extractor.LabelledTextHasToken` | core/datacard_search.py:111-116 | a span text that contains a label has at least one token, so taking its last token cannot fail |
| `Extractor.LastToken` | core/datacard_search.py:112 | the value taken from a labelled span is non-empty and contains no whitespace |
| `Extractor.ExtractProductData` | core/datacard_search.py:94-126 | the lookups, the defaults, and the span loop that overwrites them; returns what `ExtractSpec` specifies |
| `Extractor.ExtractSucceedsIff` | core/datacard_search.py:96-123 | extraction succeeds exactly when the item has its `dt`, its heading, its `div.b1`, and a `src` on any image |
| `Extractor.ApplySpanOtherFields` | core/datacard_search.py:109-116 | a span changes only the field its first matching label names (the `elif` chain) |
| `Extractor.UnlabelledFieldKeepsDefault` | core/datacard_search.py:106-116 | a field that no span is labelled for keeps its default |
| `Extractor.LastLabelledSpanWins` | core/datacard_search.py:106-116 | a field takes the last token of the last span labelled for it; later spans with other labels do not change it |
| `Extractor.DefaultsWhenMarkupMissing` | core/datacard_search.py:106-121 | without `div.b2`, the quota fields are "0G", "0G" and "0分钟"; the age is the `span.xl` text when there is one, and "年龄不限" otherwise |
| `Extractor.MissingImageRendersNone` | core/datacard_search.py:123 | without an image, the image cell is the literal text `![图片](None)` |
| `Extractor.PresentImageRendersLink` | core/datacard_search.py:123 | with an image, the image cell wraps the resolved `src` in `![图片](…)` |
| `Extractor.PromotedFlagIgnored` | core/datacard_search.py:100-126 | the promoted flag is read but has no effect on the result |
| `Extractor.GeneralSpanExample` | core/datacard_search.py:109-116 | the span "通用流量 10G" sets general data to "10G" and leaves the other fields at their defaults |
| `Search.SearchDataCards` | core/datacard_search.py:129-130 | get the products, then shape them; returns what `SearchSpec` specifies |
| `Search.ShapeResults` | core/datacard_search.py:131-155 | if there are no products, return "not found"; otherwise extract each product in a loop and append its record; returns what `Shape` specifies |
| `Search.FailureSticks` | core/datacard_search.py:143-146 | once one product's extraction raises, the whole results loop raises with that fault |
| `Search.ExtractAllSucceedsIff` | core/datacard_search.py:143-146 | the results loop succeeds exactly when every product can be read |
| `Search.ExtractAllRecords` | core/datacard_search.py:143-146 | when it succeeds, the loop gives one record per product, in order, holding the product's extracted fields and its detail link |
| `Search.ExtractAllFirstFault` | core/datacard_search.py:143-146 | when it fails, the fault is that of the first product that cannot be read, and every earlier product could be read |
| `Search.ExtractAllSpec` | core/datacard_search.py:143-146 | the results loop succeeds exactly when every product can be read; it then gives one record per product, in order, with that product's detail link; otherwise it fails with the fault of the first product that cannot be read |
| `Search.NotFoundIffNoMatch` | core/datacard_search.py:130-140 | the result is the "not found" dictionary with message `未找到包含 '<keyword>' 的产品` exactly when nothing matched; then `success` is false and `results` is empty; a failed fetch gives that dictionary |
| `Search.ShapeFound` | core/datacard_search.py:141-155 | for a non-empty, readable list of products with distinct names and links: the found dictionary, total_count equal to the number of products and of records, record i with product i's name and detail link, names and links distinct |
| `Search.FoundShape` | core/datacard_search.py:141-155 | when something matched and every product can be read, the result is the found dictionary: total_count equals the number of products and of records; record i carries product i's name and detail link; names and links are distinct |
| `Search.ShapeFaultIff` | core/datacard_search.py:94-146 | for products that all have a heading, the shaping raises exactly when some product cannot be read, and never because of a missing heading |
| `Search.SearchFaultIff` | core/datacard_search.py:94-146 | the search raises exactly when some product cannot be read, and never because of a missing heading |
| `Search.ShopLinkIsProductIndex` | core/datacard_search.py:137-152 | both dictionaries carry the product-index shop link, even when the province index was fetched |
| `Search.CommandInfosDiffer` | core/datacard_search.py:138-153 | the two guidance texts differ |
| `Search.PriceKeywordIsItsOwnTerm` | core/datacard_search.py:28-32 | 9元 contains no carrier token, so it is matched as it is |
| `Search.NoMatchScenario` | core/datacard_search.py:129-140 | keyword 9元 against a page with no matching heading gives the "not found" dictionary for 9元 |
| `Search.TwoMatchScenario` | core/datacard_search.py:129-155 | keyword 移动 against two matching items with different links gives total_count 2 and their two records, in document order |

## Left out

- The HTTP request, its headers, `raise_for_status` and the `print` of the error (lines 45-50) are not modelled. The fetch outcome is the parameter `fetch`.
- HTML parsing and CSS selection (BeautifulSoup) are not modelled. An item is the `Item` datatype. The nested loops over `div.new_lst` containers and their `ul.fa > li` items are flattened into one sequence in document order.
- URL resolution (section 5.2 of RFC 3986, `urljoin`) is not modelled. It is the opaque parameter `resolve`.
- `resolve` is total, but `urljoin` raises `ValueError` on some malformed hrefs and srcs, for example a bracketed host that is not closed, such as `//[x`. At lines 81 and 123 it is called outside the `try` of lines 45-50, so that exception escapes `search_data_cards`. The model does not capture it. So `SearchFaultIff` and `ExtractSucceedsIff` characterise exactly the faults of the extractor's lookups, not this one. The call at line 46 is inside the `try` and takes a fixed-form path.
- Case folding is ASCII-only. `re.I` and `str.lower` fold all of Unicode. On the province table the two agree, because province names contain no cased characters.
- `get_text(strip=True)` is not modelled: headings, span texts and `span.xl` texts are given already stripped. Whitespace splitting uses exactly the characters for which Python's `str.isspace` is true.
- `is_number` (line 35), `zhutui` (line 101) and `receive_span` (line 103) are not modelled beyond the fact that they do not reach the output. The promoted flag appears only as a field of `B1`.
- The default argument values (`keyword="19元"`, `llkshop_id='3abcd2e80b9b4694'`) are not modelled: callers pass both.
- The results are Dafny datatypes, not dictionaries. Key order and JSON encoding are not modelled. In the "not found" shape, `success` is false and `results` is empty (`SearchResult.Success`, `SearchResult.Results`; see `NotFoundIffNoMatch`).
- `div.b1` is looked up twice (lines 100 and 117). Both lookups return the same element, so the model reads it once.

/**
 * The public search (core/datacard_search.py, search_data_cards, lines 128-155): classify,
 * fetch and match, then either the "not found" dictionary or one record per matched item.
 */
module Search {
  import opened Wrappers
  import opened Text
  import opened Classifier
  import opened Listing
  import opened Extractor

  const ShopLinkPrefix: string := "https://172.lot-ml.com/ProductEn/Index/"
  const NotFoundCommandInfo: string := "流量卡< $元 > 例如：流量卡9元\n流量卡< 省 > 例如：流量卡广东"
  const FoundCommandInfo: string := "流量卡<$元> 例如：流量卡9元\n流量卡<省> 例如：流量卡广东"

  /** One entry of `results`: the extracted fields and the 详情链接 detail link. */
  datatype Record = Record(fields: Fields, detailLink: string)

  /** The two dictionary shapes; `success` is false with an empty `results` list, or true. */
  datatype SearchResult =
    | NotFound(message: string, shopLink: string, commandInfo: string)
    | Found(totalCount: nat, keyword: string, shopLink: string, commandInfo: string, results: seq<Record>)
  {
    predicate Success() { Found? }

    function Results(): (r: seq<Record>) {
      if Found? then results else []
    }
  }

  function NotFoundMessage(keyword: string): (r: string) {
    "未找到包含 '" + keyword + "' 的产品"
  }

  /** The shop link is always the generic product index, whatever path was fetched. */
  function ShopLink(shopId: string): (r: string) {
    ShopLinkPrefix + shopId
  }

  /** The records of the matched items in order, or the fault of the first item that cannot be read. */
  function ExtractAll(ms: seq<Match>, resolve: string -> string): (r: Result<seq<Record>, Fault>)
    decreases |ms|
  {
    if ms == [] then Success([])
    else
      match ExtractAll(ms[..|ms| - 1], resolve)
      case Failure(e) => Failure(e)
      case Success(rs) =>
        match ExtractSpec(ms[|ms| - 1].element, resolve)
        case Failure(e) => Failure(e)
        case Success(f) => Success(rs + [Record(f, ms[|ms| - 1].detailLink)])
  }

  /**
   * Lines 130-155 for the products get_all_products returned: the "not found" dictionary when
   * there are none, otherwise the "found" dictionary, or the fault of the first unreadable item.
   */
  function Shape(keyword: string, shopId: string, matched: seq<Match>, resolve: string -> string): (r: Result<SearchResult, Fault>)
    ensures matched == [] ==> r == Success(NotFound(NotFoundMessage(keyword), ShopLink(shopId), NotFoundCommandInfo))
    ensures r.Success? && r.value.Found? ==> r.value.totalCount == |matched| && r.value.keyword == keyword
  {
    if matched == [] then Success(NotFound(NotFoundMessage(keyword), ShopLink(shopId), NotFoundCommandInfo))
    else
      match ExtractAll(matched, resolve)
      case Failure(e) => Failure(e)
      case Success(results) => Success(Found(|matched|, keyword, ShopLink(shopId), FoundCommandInfo, results))
  }

  /** What search_data_cards returns, or the fault that escapes it. */
  function SearchSpec(keyword: string, shopId: string, fetch: string -> Option<seq<Item>>,
                      resolve: string -> string): (r: Result<SearchResult, Fault>)
  {
    Shape(keyword, shopId, AllProducts(keyword, shopId, fetch, resolve), resolve)
  }

  /** Once a prefix has failed, the whole sequence fails with the same fault. */
  lemma {:induction false} FailureSticks(ms: seq<Match>, i: nat, resolve: string -> string)
    requires i <= |ms| && ExtractAll(ms[..i], resolve).Failure?
    ensures ExtractAll(ms, resolve) == ExtractAll(ms[..i], resolve)
    decreases |ms| - i
  {
    if i == |ms| {
      assert ms[..i] == ms;
    } else {
      var init := ms[..|ms| - 1];
      assert init[..i] == ms[..i];
      FailureSticks(init, i, resolve);
    }
  }

  /** The search: the products are matched, then shaped. */
  method SearchDataCards(keyword: string, shopId: string, fetch: string -> Option<seq<Item>>,
                         resolve: string -> string) returns (r: Result<SearchResult, Fault>)
    ensures r == SearchSpec(keyword, shopId, fetch, resolve)
  {
    var matchedProducts := GetAllProducts(keyword, shopId, fetch, resolve);
    r := ShapeResults(keyword, shopId, matchedProducts, resolve);
  }

  /** Lines 130-155: the empty test, then the products extracted one by one and appended to `results`. */
  method ShapeResults(keyword: string, shopId: string, matchedProducts: seq<Match>, resolve: string -> string)
    returns (r: Result<SearchResult, Fault>)
    ensures r == Shape(keyword, shopId, matchedProducts, resolve)
  {
    if |matchedProducts| == 0 {
      return Success(NotFound(NotFoundMessage(keyword), ShopLink(shopId), NotFoundCommandInfo));
    }
    var results: seq<Record> := [];
    var i := 0;
    while i < |matchedProducts|
      invariant 0 <= i <= |matchedProducts|
      invariant ExtractAll(matchedProducts[..i], resolve) == Success(results)
    {
      var product := matchedProducts[i];
      var data := ExtractProductData(product.element, resolve);
      assert matchedProducts[..i + 1][..i] == matchedProducts[..i];
      if data.Failure? {
        FailureSticks(matchedProducts, i + 1, resolve);
        return Failure(data.error);
      }
      results := results + [Record(data.value, product.detailLink)];
      i := i + 1;
    }
    assert matchedProducts[..i] == matchedProducts;
    r := Success(Found(|matchedProducts|, keyword, ShopLink(shopId), FoundCommandInfo, results));
  }

  /** Extraction of all matches succeeds exactly when every item is readable. */
  lemma {:induction false} ExtractAllSucceedsIff(ms: seq<Match>, resolve: string -> string)
    ensures ExtractAll(ms, resolve).Success? <==> forall k :: 0 <= k < |ms| ==> Extractable(ms[k].element)
    decreases |ms|
  {
    if ms != [] {
      var init := ms[..|ms| - 1];
      ExtractAllSucceedsIff(init, resolve);
      assert forall k :: 0 <= k < |init| ==> init[k] == ms[k];
      ExtractSucceedsIff(ms[|ms| - 1].element, resolve);
    }
  }

  /** A successful extraction yields one record per match, in order, with the match's detail link. */
  lemma {:induction false} ExtractAllRecords(ms: seq<Match>, resolve: string -> string)
    requires ExtractAll(ms, resolve).Success?
    ensures var rs := ExtractAll(ms, resolve).value;
      |rs| == |ms| && forall k :: 0 <= k < |ms| ==>
        ExtractSpec(ms[k].element, resolve) == Success(rs[k].fields) && rs[k].detailLink == ms[k].detailLink
    decreases |ms|
  {
    if ms != [] {
      var init := ms[..|ms| - 1];
      ExtractAllRecords(init, resolve);
      assert forall k :: 0 <= k < |init| ==> init[k] == ms[k];
    }
  }

  /** A failed extraction carries the fault of the first unreadable match. */
  lemma {:induction false} ExtractAllFirstFault(ms: seq<Match>, resolve: string -> string)
    requires ExtractAll(ms, resolve).Failure?
    ensures exists k :: (0 <= k < |ms| && !Extractable(ms[k].element) &&
      ExtractSpec(ms[k].element, resolve) == Failure(ExtractAll(ms, resolve).error) &&
      forall j :: 0 <= j < k ==> Extractable(ms[j].element))
    decreases |ms|
  {
    var init, last := ms[..|ms| - 1], ms[|ms| - 1];
    ExtractSucceedsIff(last.element, resolve);
    if ExtractAll(init, resolve).Failure? {
      ExtractAllFirstFault(init, resolve);
      var k :| 0 <= k < |init| && !Extractable(init[k].element) &&
        ExtractSpec(init[k].element, resolve) == Failure(ExtractAll(init, resolve).error) &&
        forall j :: 0 <= j < k ==> Extractable(init[j].element);
      assert ms[k] == init[k];
      assert forall j :: 0 <= j < k ==> ms[j] == init[j];
    } else {
      ExtractAllSucceedsIff(init, resolve);
      assert forall j :: 0 <= j < |init| ==> ms[j] == init[j];
      assert !Extractable(ms[|ms| - 1].element);
    }
  }

  /**
   * Extraction of all matches succeeds exactly when every item is readable; it then yields one
   * record per match, in order, each carrying its match's detail link; otherwise it fails with
   * the fault of the first unreadable item.
   */
  lemma ExtractAllSpec(ms: seq<Match>, resolve: string -> string)
    ensures ExtractAll(ms, resolve).Success? <==> forall k :: 0 <= k < |ms| ==> Extractable(ms[k].element)
    ensures ExtractAll(ms, resolve).Success? ==>
      var rs := ExtractAll(ms, resolve).value;
      |rs| == |ms| && forall k :: 0 <= k < |ms| ==>
        rs[k] == Record(ExtractSpec(ms[k].element, resolve).value, ms[k].detailLink)
    ensures ExtractAll(ms, resolve).Failure? ==>
      exists k :: 0 <= k < |ms| && !Extractable(ms[k].element) &&
        ExtractSpec(ms[k].element, resolve) == Failure(ExtractAll(ms, resolve).error) &&
        forall j :: 0 <= j < k ==> Extractable(ms[j].element)
  {
    ExtractAllSucceedsIff(ms, resolve);
    if ExtractAll(ms, resolve).Success? {
      ExtractAllRecords(ms, resolve);
    } else {
      ExtractAllFirstFault(ms, resolve);
    }
  }

  /** A failed fetch, or a page without a match, gives the "not found" dictionary for the keyword. */
  lemma NotFoundIffNoMatch(keyword: string, shopId: string, fetch: string -> Option<seq<Item>>,
                           resolve: string -> string)
    ensures SearchSpec(keyword, shopId, fetch, resolve) ==
              Success(NotFound("未找到包含 '" + keyword + "' 的产品", ShopLink(shopId), NotFoundCommandInfo))
            <==> AllProducts(keyword, shopId, fetch, resolve) == []
    ensures AllProducts(keyword, shopId, fetch, resolve) == [] ==>
      SearchSpec(keyword, shopId, fetch, resolve).Success? &&
      !SearchSpec(keyword, shopId, fetch, resolve).value.Success() &&
      SearchSpec(keyword, shopId, fetch, resolve).value.Results() == []
    ensures fetch(resolve(PagePath(keyword, shopId))).None? ==>
      SearchSpec(keyword, shopId, fetch, resolve).Success? && !SearchSpec(keyword, shopId, fetch, resolve).value.Success()
  {
  }

  /**
   * The shaping of a non-empty, readable, duplicate-free product list: as many records as
   * products, in order, each with its product's name and detail link.
   */
  lemma ShapeFound(keyword: string, shopId: string, matched: seq<Match>, resolve: string -> string)
    requires matched != []
    requires forall k :: 0 <= k < |matched| ==> Extractable(matched[k].element)
    requires DistinctNamesAndLinks(matched)
    ensures Shape(keyword, shopId, matched, resolve).Success?
    ensures var res := Shape(keyword, shopId, matched, resolve).value;
      && res.Found?
      && res.totalCount == |res.results| == |matched|
      && res.keyword == keyword
      && res.commandInfo == FoundCommandInfo
      && (forall k :: 0 <= k < |matched| ==>
            res.results[k].detailLink == matched[k].detailLink &&
            res.results[k].fields.name == Name(matched[k]))
      && (forall j, k :: 0 <= j < k < |matched| ==>
            res.results[j].fields.name != res.results[k].fields.name &&
            res.results[j].detailLink != res.results[k].detailLink)
  {
    ExtractAllSucceedsIff(matched, resolve);
    ExtractAllRecords(matched, resolve);
  }

  /**
   * When something matched and every match can be read, the search reports as many records as
   * matched products, in the matcher's order, each with its product's name and detail link;
   * names and links are distinct.
   */
  lemma FoundShape(keyword: string, shopId: string, fetch: string -> Option<seq<Item>>,
                   resolve: string -> string)
    requires AllProducts(keyword, shopId, fetch, resolve) != []
    requires forall m :: m in AllProducts(keyword, shopId, fetch, resolve) ==> Extractable(m.element)
    ensures SearchSpec(keyword, shopId, fetch, resolve).Success?
    ensures var res := SearchSpec(keyword, shopId, fetch, resolve).value;
      var matched := AllProducts(keyword, shopId, fetch, resolve);
      && res.Found?
      && res.totalCount == |res.results| == |matched|
      && res.keyword == keyword
      && res.commandInfo == FoundCommandInfo
      && (forall k :: 0 <= k < |matched| ==>
            res.results[k].detailLink == matched[k].detailLink &&
            res.results[k].fields.name == Name(matched[k]))
      && (forall j, k :: 0 <= j < k < |matched| ==>
            res.results[j].fields.name != res.results[k].fields.name &&
            res.results[j].detailLink != res.results[k].detailLink)
  {
    var matched := AllProducts(keyword, shopId, fetch, resolve);
    forall k | 0 <= k < |matched| ensures Extractable(matched[k].element) {
      assert matched[k] in matched;
    }
    AllProductsProperties(keyword, shopId, fetch, resolve);
    ShapeFound(keyword, shopId, matched, resolve);
  }

  /**
   * The shaping raises exactly when some product cannot be read; when every product has a
   * heading, the fault is never the missing heading.
   */
  lemma ShapeFaultIff(keyword: string, shopId: string, matched: seq<Match>, resolve: string -> string)
    requires forall k :: 0 <= k < |matched| ==> matched[k].element.heading.Some?
    ensures Shape(keyword, shopId, matched, resolve).Failure? <==>
      exists k :: 0 <= k < |matched| && !Extractable(matched[k].element)
    ensures Shape(keyword, shopId, matched, resolve).Failure? ==>
      Shape(keyword, shopId, matched, resolve).error != NoHeading
  {
    ExtractAllSucceedsIff(matched, resolve);
    if ExtractAll(matched, resolve).Failure? {
      ExtractAllFirstFault(matched, resolve);
    }
  }

  /**
   * The search raises exactly when some matched item lacks its dt, its b1 block or its image's
   * src; a missing heading never raises, since the matcher keeps only items with a heading.
   */
  lemma SearchFaultIff(keyword: string, shopId: string, fetch: string -> Option<seq<Item>>,
                       resolve: string -> string)
    ensures var matched := AllProducts(keyword, shopId, fetch, resolve);
      SearchSpec(keyword, shopId, fetch, resolve).Failure? <==>
        exists k :: 0 <= k < |matched| && !Extractable(matched[k].element)
    ensures SearchSpec(keyword, shopId, fetch, resolve).Failure? ==>
      SearchSpec(keyword, shopId, fetch, resolve).error != NoHeading
  {
    var matched := AllProducts(keyword, shopId, fetch, resolve);
    AllProductsProperties(keyword, shopId, fetch, resolve);
    forall k | 0 <= k < |matched| ensures matched[k].element.heading.Some? {
      assert Acceptable(matched[k], EffectiveTerm(keyword), resolve);
    }
    ShapeFaultIff(keyword, shopId, matched, resolve);
  }

  /** Both shapes carry the generic product-index shop link, even when the province index was fetched. */
  lemma ShopLinkIsProductIndex(keyword: string, shopId: string, fetch: string -> Option<seq<Item>>,
                               resolve: string -> string)
    requires SearchSpec(keyword, shopId, fetch, resolve).Success?
    ensures SearchSpec(keyword, shopId, fetch, resolve).value.shopLink == "https://172.lot-ml.com/ProductEn/Index/" + shopId
  {
  }

  /** The guidance text of the two shapes differs in its spacing. */
  lemma CommandInfosDiffer()
    ensures NotFoundCommandInfo != FoundCommandInfo
  {
    assert NotFoundCommandInfo[4] != FoundCommandInfo[4];
  }

  lemma PriceKeywordIsItsOwnTerm()
    ensures EffectiveTerm("9元") == "9元"
  {
    forall j | 0 <= j < |Operators| ensures !Contains("9元", Operators[j]) {
      forall i | 0 <= i <= 2 ensures !OccursAt("9元", Operators[j], i) {
        if i == 0 { assert "9元"[0..2][0] != Operators[j][0]; }
      }
    }
    EffectiveTermIsFirstCarrier("9元");
  }

  /** Keyword "9元" against a page with no heading containing it: the "not found" dictionary. */
  lemma NoMatchScenario(shopId: string, fetch: string -> Option<seq<Item>>, resolve: string -> string, page: seq<Item>)
    requires fetch(resolve(PagePath("9元", shopId))) == Some(page)
    requires forall k :: 0 <= k < |page| ==> page[k].heading.None? || !ContainsIgnoreCase(page[k].heading.value, "9元")
    ensures SearchSpec("9元", shopId, fetch, resolve) ==
      Success(NotFound("未找到包含 '9元' 的产品", "https://172.lot-ml.com/ProductEn/Index/" + shopId, NotFoundCommandInfo))
  {
    PriceKeywordIsItsOwnTerm();
    NoCandidateNoMatch(page, "9元", resolve, Seen({}, {}));
    assert AllProducts("9元", shopId, fetch, resolve) == Matches(page, "9元", resolve) == [];
    assert NotFoundMessage("9元") == "未找到包含 '9元' 的产品";
  }

  /** A readable item with a heading and an href, no image, no quota spans and no age label. */
  function PlainItem(name: string, href: string): (r: Item) {
    Item(Some(name), Some(href), Some(Dt(None)), Some(B1(false, None)), None)
  }

  /** The record such an item yields: defaults everywhere, the None image cell. */
  function PlainRecord(name: string, link: string): (r: Record) {
    Record(Fields("![图片](None)", name, "0G", "0G", "0分钟", "年龄不限"), link)
  }

  /**
   * Keyword "移动" against a page with two such items with different links: two records,
   * in document order.
   */
  lemma TwoMatchScenario(shopId: string, fetch: string -> Option<seq<Item>>, resolve: string -> string)
    requires resolve("/a") != resolve("/b")
    requires fetch(resolve(PagePath("移动", shopId))) == Some([PlainItem("移动19元套餐", "/a"), PlainItem("移动29元套餐", "/b")])
    ensures SearchSpec("移动", shopId, fetch, resolve) ==
      Success(Found(2, "移动", "https://172.lot-ml.com/ProductEn/Index/" + shopId, FoundCommandInfo,
                    [PlainRecord("移动19元套餐", resolve("/a")), PlainRecord("移动29元套餐", resolve("/b"))]))
  {
    assert OccursAt("移动", Operators[0], 0);
    EffectiveTermIsFirstCarrier("移动");
    TwoMatchPage(resolve);
    TwoMatchShape(shopId, resolve);
  }

  /** Both items of the two-item page are kept, in order. */
  lemma TwoMatchPage(resolve: string -> string)
    requires resolve("/a") != resolve("/b")
    ensures Matches([PlainItem("移动19元套餐", "/a"), PlainItem("移动29元套餐", "/b")], "移动", resolve) ==
      [Match(PlainItem("移动19元套餐", "/a"), resolve("/a")), Match(PlainItem("移动29元套餐", "/b"), resolve("/b"))]
  {
    var page := [PlainItem("移动19元套餐", "/a"), PlainItem("移动29元套餐", "/b")];
    assert OccursAt(Lower("移动19元套餐"), Lower("移动"), 0);
    assert OccursAt(Lower("移动29元套餐"), Lower("移动"), 0);
    assert page[1..][1..] == [];
  }

  /** The two kept items give two default records with their links. */
  lemma TwoMatchShape(shopId: string, resolve: string -> string)
    ensures Shape("移动", shopId,
      [Match(PlainItem("移动19元套餐", "/a"), resolve("/a")), Match(PlainItem("移动29元套餐", "/b"), resolve("/b"))], resolve) ==
      Success(Found(2, "移动", "https://172.lot-ml.com/ProductEn/Index/" + shopId, FoundCommandInfo,
                    [PlainRecord("移动19元套餐", resolve("/a")), PlainRecord("移动29元套餐", resolve("/b"))]))
  {
    var matched := [Match(PlainItem("移动19元套餐", "/a"), resolve("/a")), Match(PlainItem("移动29元套餐", "/b"), resolve("/b"))];
    assert ImageMarkdown(None, resolve) == "![图片](None)";
    assert ExtractSpec(matched[0].element, resolve) == Success(PlainRecord("移动19元套餐", resolve("/a")).fields);
    assert ExtractSpec(matched[1].element, resolve) == Success(PlainRecord("移动29元套餐", resolve("/b")).fields);
    ExtractAllSucceedsIff(matched, resolve);
    ExtractAllRecords(matched, resolve);
    var rs := ExtractAll(matched, resolve).value;
    assert |rs| == 2 && rs == [rs[0], rs[1]];
    assert ExtractAll(matched, resolve) ==
      Success([PlainRecord("移动19元套餐", resolve("/a")), PlainRecord("移动29元套餐", resolve("/b"))]);
  }
}

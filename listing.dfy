/**
 * The listing matcher (core/datacard_search.py, get_all_products, lines 26-91): one pass over
 * the page's list items that keeps those whose heading contains the effective term and
 * removes repeats by name and by resolved detail link.
 */
module Listing {
  import opened Wrappers
  import opened Text
  import opened Classifier

  /** The `img` inside an item's `dt`; `src` is its source attribute, when it has one. */
  datatype Img = Img(src: Option<string>)

  /** An item's `dt` element and the first `img` inside it. */
  datatype Dt = Dt(img: Option<Img>)

  /** The `div.b1` block: whether it holds a `span.zhutui`, and the text of its `span.xl`. */
  datatype B1 = B1(hasZhutui: bool, xl: Option<string>)

  /**
   * One `li` of a `div.new_lst ul.fa` list, reduced to what the scraper reads from it:
   * the stripped text of its first `h1`, the `href` of its first `a`, its `dt`, its
   * `div.b1` and the stripped texts of the `span`s in its `div.b2`.
   */
  datatype Item = Item(
    heading: Option<string>,
    href: Option<string>,
    dt: Option<Dt>,
    b1: Option<B1>,
    b2: Option<seq<string>>)

  /** An accepted item with its absolute detail link. */
  datatype Match = Match(element: Item, detailLink: string)

  /** The names and resolved links seen so far by the pass. */
  datatype Seen = Seen(names: set<string>, links: set<string>)

  /** The first anchor exists and has a non-empty href. */
  predicate HasHref(x: Item) {
    x.href.Some? && x.href.value != ""
  }

  /** The name of an accepted item: its heading text. */
  function Name(m: Match): (r: string) {
    if m.element.heading.Some? then m.element.heading.value else ""
  }

  /**
   * The loop body of lines 61-89 for one item: what it appends, if anything, and the seen
   * sets afterwards. The name is recorded before the href and link checks.
   */
  function Step(x: Item, term: string, resolve: string -> string, seen: Seen): (r: (Option<Match>, Seen)) {
    match x.heading
    case None => (None, seen)
    case Some(name) =>
      if !ContainsIgnoreCase(name, term) || name in seen.names then (None, seen)
      else
        var seen1 := seen.(names := seen.names + {name});
        if !HasHref(x) then (None, seen1)
        else
          var link := resolve(x.href.value);
          if link in seen.links then (None, seen1)
          else (Some(Match(x, link)), seen1.(links := seen.links + {link}))
  }

  /** The items appended by the pass over `items`, starting from the seen sets `seen`. */
  function MatchFrom(items: seq<Item>, term: string, resolve: string -> string, seen: Seen): (r: seq<Match>)
    decreases |items|
  {
    if items == [] then []
    else
      var (m, seen') := Step(items[0], term, resolve, seen);
      (if m.Some? then [m.value] else []) + MatchFrom(items[1..], term, resolve, seen')
  }

  /** The seen sets after the pass over `items`. */
  function SeenAfter(items: seq<Item>, term: string, resolve: string -> string, seen: Seen): (r: Seen)
    decreases |items|
  {
    if items == [] then seen
    else SeenAfter(items[1..], term, resolve, Step(items[0], term, resolve, seen).1)
  }

  /** The pass over a whole page, from empty seen sets. */
  function Matches(page: seq<Item>, term: string, resolve: string -> string): (r: seq<Match>) {
    MatchFrom(page, term, resolve, Seen({}, {}))
  }

  /**
   * What get_all_products returns: nothing when the fetch of the chosen page fails,
   * otherwise the matches of the page against the effective term.
   */
  function AllProducts(keyword: string, shopId: string, fetch: string -> Option<seq<Item>>,
                       resolve: string -> string): (r: seq<Match>)
  {
    match fetch(resolve(PagePath(keyword, shopId)))
    case None => []
    case Some(page) => Matches(page, EffectiveTerm(keyword), resolve)
  }

  /** The chosen page fetched, then walked against the effective term. */
  method GetAllProducts(keyword: string, shopId: string, fetch: string -> Option<seq<Item>>,
                        resolve: string -> string) returns (products: seq<Match>)
    ensures products == AllProducts(keyword, shopId, fetch, resolve)
  {
    var core := CoreKeyword(keyword);
    var path := PagePath(keyword, shopId);
    var response := fetch(resolve(path));
    if response.None? {
      return [];
    }
    products := MatchPage(response.value, core, resolve);
  }

  /** The walk of lines 60-89: the items in document order, with the two seen sets as local state. */
  method MatchPage(page: seq<Item>, core: string, resolve: string -> string) returns (products: seq<Match>)
    ensures products == Matches(page, core, resolve)
  {
    products := [];
    var seenLinks: set<string> := {};
    var seenNames: set<string> := {};
    var i := 0;
    while i < |page|
      invariant 0 <= i <= |page|
      invariant products + MatchFrom(page[i..], core, resolve, Seen(seenNames, seenLinks)) == Matches(page, core, resolve)
    {
      var li := page[i];
      ghost var step := Step(li, core, resolve, Seen(seenNames, seenLinks));
      MatchFromUnfold(page[i..], core, resolve, Seen(seenNames, seenLinks));
      assert page[i..][0] == li && page[i..][1..] == page[i + 1..];
      i := i + 1;
      if li.heading.None? {
        assert step == (None, Seen(seenNames, seenLinks));
        continue;
      }
      var name := li.heading.value;
      if !ContainsIgnoreCase(name, core) || name in seenNames {
        assert step == (None, Seen(seenNames, seenLinks));
        continue;
      }
      seenNames := seenNames + {name};
      if !HasHref(li) {
        assert step == (None, Seen(seenNames, seenLinks));
        continue;
      }
      var link := resolve(li.href.value);
      if link in seenLinks {
        assert step == (None, Seen(seenNames, seenLinks));
        continue;
      }
      seenLinks := seenLinks + {link};
      assert step == (Some(Match(li, link)), Seen(seenNames, seenLinks));
      products := products + [Match(li, link)];
    }
  }

  /** One step of the pass: the first item's outcome, then the pass over the rest. */
  lemma MatchFromUnfold(items: seq<Item>, term: string, resolve: string -> string, seen: Seen)
    requires items != []
    ensures var step := Step(items[0], term, resolve, seen);
      && (step.0.None? ==> MatchFrom(items, term, resolve, seen) == MatchFrom(items[1..], term, resolve, step.1))
      && (step.0.Some? ==> MatchFrom(items, term, resolve, seen) == [step.0.value] + MatchFrom(items[1..], term, resolve, step.1))
  {
    var step := Step(items[0], term, resolve, seen);
    if step.0.None? {
      assert [] + MatchFrom(items[1..], term, resolve, step.1) == MatchFrom(items[1..], term, resolve, step.1);
    }
  }

  /** The items of a sequence of matches, in order. */
  function Elements(ms: seq<Match>): (items: seq<Item>)
    ensures |items| == |ms| && forall k :: 0 <= k < |ms| ==> items[k] == ms[k].element
  {
    seq(|ms|, k requires 0 <= k < |ms| => ms[k].element)
  }

  /** `a` is `b` with some items left out, the rest kept in order. */
  predicate IsSubsequence(a: seq<Item>, b: seq<Item>)
    decreases |b|
  {
    a == [] || (b != [] && ((a[0] == b[0] && IsSubsequence(a[1..], b[1..])) || IsSubsequence(a, b[1..])))
  }

  lemma {:induction false} SubsequenceNoLonger(a: seq<Item>, b: seq<Item>)
    requires IsSubsequence(a, b)
    ensures |a| <= |b|
    decreases |b|
  {
    if a != [] {
      if a[0] == b[0] && IsSubsequence(a[1..], b[1..]) {
        SubsequenceNoLonger(a[1..], b[1..]);
      } else {
        SubsequenceNoLonger(a, b[1..]);
      }
    }
  }

  /** No two matches share a name, and no two share a link. */
  predicate DistinctNamesAndLinks(ms: seq<Match>) {
    forall j, k :: 0 <= j < k < |ms| ==> Name(ms[j]) != Name(ms[k]) && ms[j].detailLink != ms[k].detailLink
  }

  /** What every accepted item satisfies: a heading containing the term, an href, and its link. */
  predicate Acceptable(m: Match, term: string, resolve: string -> string) {
    && m.element.heading.Some?
    && ContainsIgnoreCase(m.element.heading.value, term)
    && HasHref(m.element)
    && m.detailLink == resolve(m.element.href.value)
  }

  /** The names of the items whose heading contains the term: every name the pass marks as seen. */
  function CandidateNames(items: seq<Item>, term: string): (r: set<string>) {
    set k | 0 <= k < |items| && items[k].heading.Some? && ContainsIgnoreCase(items[k].heading.value, term)
      :: items[k].heading.value
  }

  /** The links of a sequence of matches. */
  function LinksOf(ms: seq<Match>): (r: set<string>) {
    set k | 0 <= k < |ms| :: ms[k].detailLink
  }

  /**
   * Every accepted item has a heading that contains the term, ignoring case, and a non-empty href
   * whose resolution is its detail link; its name and link were not seen when the pass started.
   */
  lemma {:induction false} MatchFromFresh(items: seq<Item>, term: string, resolve: string -> string, seen: Seen)
    ensures forall k :: 0 <= k < |MatchFrom(items, term, resolve, seen)| ==>
      var m := MatchFrom(items, term, resolve, seen)[k];
      Acceptable(m, term, resolve) && Name(m) !in seen.names && m.detailLink !in seen.links
    decreases |items|
  {
    if items != [] {
      var (m, seen') := Step(items[0], term, resolve, seen);
      assert seen.names <= seen'.names && seen.links <= seen'.links;
      MatchFromFresh(items[1..], term, resolve, seen');
    }
  }

  /** Accepted names are pairwise distinct, and so are accepted links. */
  lemma {:induction false} MatchFromDistinct(items: seq<Item>, term: string, resolve: string -> string, seen: Seen)
    ensures DistinctNamesAndLinks(MatchFrom(items, term, resolve, seen))
    decreases |items|
  {
    if items != [] {
      var (m, seen') := Step(items[0], term, resolve, seen);
      var rest := MatchFrom(items[1..], term, resolve, seen');
      MatchFromDistinct(items[1..], term, resolve, seen');
      if m.Some? {
        MatchFromFresh(items[1..], term, resolve, seen');
        assert Name(m.value) in seen'.names && m.value.detailLink in seen'.links;
        var out := [m.value] + rest;
        assert MatchFrom(items, term, resolve, seen) == out;
        forall j, k | 0 <= j < k < |out| ensures Name(out[j]) != Name(out[k]) && out[j].detailLink != out[k].detailLink {
          assert out[k] == rest[k - 1];
          assert Name(rest[k - 1]) !in seen'.names && rest[k - 1].detailLink !in seen'.links;
          if j > 0 {
            assert out[j] == rest[j - 1];
          } else {
            assert out[j] == m.value;
          }
        }
      }
    }
  }

  /** The accepted items are the input items with some left out, in document order. */
  lemma {:induction false} MatchFromSubsequence(items: seq<Item>, term: string, resolve: string -> string, seen: Seen)
    ensures IsSubsequence(Elements(MatchFrom(items, term, resolve, seen)), items)
    decreases |items|
  {
    if items != [] {
      var (m, seen') := Step(items[0], term, resolve, seen);
      var rest := MatchFrom(items[1..], term, resolve, seen');
      MatchFromSubsequence(items[1..], term, resolve, seen');
      if m.Some? {
        assert m.value.element == items[0];
        assert Elements([m.value] + rest) == [items[0]] + Elements(rest);
        assert Elements([m.value] + rest)[1..] == Elements(rest);
      } else {
        assert MatchFrom(items, term, resolve, seen) == rest;
      }
    }
  }

  /** The pass over a concatenation is the pass over the first part, then the second part from where it left off. */
  lemma {:induction false} MatchFromAppend(pre: seq<Item>, post: seq<Item>, term: string, resolve: string -> string, seen: Seen)
    ensures MatchFrom(pre + post, term, resolve, seen) ==
      MatchFrom(pre, term, resolve, seen) + MatchFrom(post, term, resolve, SeenAfter(pre, term, resolve, seen))
    decreases |pre|
  {
    if pre == [] {
      assert pre + post == post;
    } else {
      var seen' := Step(pre[0], term, resolve, seen).1;
      assert (pre + post)[0] == pre[0] && (pre + post)[1..] == pre[1..] + post;
      MatchFromAppend(pre[1..], post, term, resolve, seen');
    }
  }

  /**
   * After a pass, the seen names are every candidate name met, accepted or not, while the
   * seen links are only the links of accepted items.
   */
  lemma {:induction false} SeenAfterIs(items: seq<Item>, term: string, resolve: string -> string, seen: Seen)
    ensures SeenAfter(items, term, resolve, seen) ==
      Seen(seen.names + CandidateNames(items, term), seen.links + LinksOf(MatchFrom(items, term, resolve, seen)))
    decreases |items|
  {
    if items != [] {
      var x := items[0];
      var (m, seen') := Step(x, term, resolve, seen);
      var rest := MatchFrom(items[1..], term, resolve, seen');
      SeenAfterIs(items[1..], term, resolve, seen');
      CandidateNamesCons(items, term);
      assert seen'.names == seen.names + CandidateHead(x, term);
      var out := (if m.Some? then [m.value] else []) + rest;
      assert seen'.links == seen.links + (if m.Some? then {m.value.detailLink} else {});
      assert MatchFrom(items, term, resolve, seen) == out;
      if m.Some? {
        LinksOfCons(out);
        assert out[1..] == rest;
      } else {
        assert out == rest;
      }
      assert seen.names + CandidateNames(items, term) == seen'.names + CandidateNames(items[1..], term);
      assert seen.links + LinksOf(out) == seen'.links + LinksOf(rest);
    }
  }

  /** The name a single item contributes to the seen names, if its heading contains the term. */
  function CandidateHead(x: Item, term: string): (r: set<string>)
    ensures r == {} || (x.heading.Some? && r == {x.heading.value})
  {
    if x.heading.Some? && ContainsIgnoreCase(x.heading.value, term) then {x.heading.value} else {}
  }

  lemma CandidateNamesCons(items: seq<Item>, term: string)
    requires items != []
    ensures CandidateNames(items, term) == CandidateHead(items[0], term) + CandidateNames(items[1..], term)
  {
    forall n | n in CandidateNames(items, term) ensures n in CandidateHead(items[0], term) + CandidateNames(items[1..], term) {
      var k :| 0 <= k < |items| && items[k].heading.Some? && ContainsIgnoreCase(items[k].heading.value, term)
        && n == items[k].heading.value;
      if k > 0 { assert items[k] == items[1..][k - 1]; }
    }
    forall n | n in CandidateNames(items[1..], term) ensures n in CandidateNames(items, term) {
      var k :| 0 <= k < |items[1..]| && items[1..][k].heading.Some? && ContainsIgnoreCase(items[1..][k].heading.value, term)
        && n == items[1..][k].heading.value;
      assert items[1..][k] == items[k + 1];
    }
  }

  lemma LinksOfCons(ms: seq<Match>)
    requires ms != []
    ensures LinksOf(ms) == {ms[0].detailLink} + LinksOf(ms[1..])
  {
    forall l | l in LinksOf(ms) ensures l in {ms[0].detailLink} + LinksOf(ms[1..]) {
      var k :| 0 <= k < |ms| && l == ms[k].detailLink;
      if k > 0 { assert ms[k] == ms[1..][k - 1]; }
    }
    forall l | l in LinksOf(ms[1..]) ensures l in LinksOf(ms) {
      var k :| 0 <= k < |ms[1..]| && l == ms[1..][k].detailLink;
      assert ms[1..][k] == ms[k + 1];
    }
  }

  /**
   * Whether the item at position i of a page is kept: it needs a heading containing the term,
   * a name that no EARLIER CANDIDATE had (kept or not), an href, and a link that no earlier
   * KEPT item had. When it is not kept, the output so far does not change.
   */
  lemma ItemKeptIff(page: seq<Item>, term: string, resolve: string -> string, i: nat)
    requires i < |page|
    ensures var x := page[i];
      var kept := && x.heading.Some?
                  && ContainsIgnoreCase(x.heading.value, term)
                  && x.heading.value !in CandidateNames(page[..i], term)
                  && HasHref(x)
                  && resolve(x.href.value) !in LinksOf(Matches(page[..i], term, resolve));
      Matches(page[..i + 1], term, resolve) ==
        Matches(page[..i], term, resolve) + (if kept then [Match(x, resolve(x.href.value))] else [])
  {
    var empty := Seen({}, {});
    assert page[..i + 1] == page[..i] + [page[i]];
    MatchFromAppend(page[..i], [page[i]], term, resolve, empty);
    SeenAfterIs(page[..i], term, resolve, empty);
    assert [page[i]][1..] == [];
  }

  /**
   * The name is marked before the href and link checks: once an item whose heading contains
   * the term has been met, whether or not it was kept, every later item with that heading is dropped.
   */
  lemma CandidateNameBlocksLater(page: seq<Item>, term: string, resolve: string -> string, i: nat, j: nat)
    requires i < j < |page|
    requires page[i].heading.Some? && ContainsIgnoreCase(page[i].heading.value, term)
    requires page[j].heading == page[i].heading
    ensures Matches(page[..j + 1], term, resolve) == Matches(page[..j], term, resolve)
  {
    assert page[..j][i] == page[i];
    assert page[i].heading.value in CandidateNames(page[..j], term);
    ItemKeptIff(page, term, resolve, j);
  }

  /**
   * If the first item with a given heading matches the term but has no usable href, no item
   * with that name is ever kept, however many later items carry it with fresh links.
   */
  lemma {:induction false} MissingHrefBlocksName(items: seq<Item>, term: string, resolve: string -> string, seen: Seen, i: nat)
    requires i < |items| && items[i].heading.Some? && ContainsIgnoreCase(items[i].heading.value, term)
    requires !HasHref(items[i])
    requires forall k :: 0 <= k < i ==> items[k].heading != items[i].heading
    ensures forall m :: m in MatchFrom(items, term, resolve, seen) ==> Name(m) != items[i].heading.value
    decreases i
  {
    var n := items[i].heading.value;
    var (m0, seen') := Step(items[0], term, resolve, seen);
    if i == 0 {
      assert n in seen'.names;
      MatchFromFresh(items[1..], term, resolve, seen');
    } else {
      assert items[1..][i - 1] == items[i];
      MissingHrefBlocksName(items[1..], term, resolve, seen', i - 1);
      assert items[0].heading != Some(n);
    }
  }

  /** An item whose heading is missing or lacks the term is never kept: a page without one yields nothing. */
  lemma {:induction false} NoCandidateNoMatch(items: seq<Item>, term: string, resolve: string -> string, seen: Seen)
    requires forall k :: 0 <= k < |items| ==> items[k].heading.None? || !ContainsIgnoreCase(items[k].heading.value, term)
    ensures MatchFrom(items, term, resolve, seen) == []
    decreases |items|
  {
    if items != [] {
      assert forall k :: 0 <= k < |items[1..]| ==> items[1..][k] == items[k + 1];
      NoCandidateNoMatch(items[1..], term, resolve, seen);
    }
  }

  /** Properties of the pass over a whole page. */
  lemma MatchesProperties(page: seq<Item>, term: string, resolve: string -> string)
    ensures var out := Matches(page, term, resolve);
      && (forall k :: 0 <= k < |out| ==> Acceptable(out[k], term, resolve))
      && DistinctNamesAndLinks(out)
      && IsSubsequence(Elements(out), page)
      && |out| <= |page|
  {
    var empty := Seen({}, {});
    var out := MatchFrom(page, term, resolve, empty);
    assert Matches(page, term, resolve) == out;
    MatchFromFresh(page, term, resolve, empty);
    MatchFromDistinct(page, term, resolve, empty);
    MatchFromSubsequence(page, term, resolve, empty);
    SubsequenceNoLonger(Elements(Matches(page, term, resolve)), page);
  }

  /** A fetch that fails yields no products. */
  lemma FetchFailureYieldsNothing(keyword: string, shopId: string, fetch: string -> Option<seq<Item>>,
                                  resolve: string -> string)
    requires fetch(resolve(PagePath(keyword, shopId))).None?
    ensures AllProducts(keyword, shopId, fetch, resolve) == []
  {
  }

  /**
   * Every product of a search has a heading containing the effective term and a usable href;
   * the products have distinct names and distinct links and appear in page order.
   */
  lemma AllProductsProperties(keyword: string, shopId: string, fetch: string -> Option<seq<Item>>,
                              resolve: string -> string)
    ensures var out := AllProducts(keyword, shopId, fetch, resolve);
      && (forall k :: 0 <= k < |out| ==> Acceptable(out[k], EffectiveTerm(keyword), resolve))
      && DistinctNamesAndLinks(out)
      && (fetch(resolve(PagePath(keyword, shopId))).Some? ==>
            IsSubsequence(Elements(out), fetch(resolve(PagePath(keyword, shopId))).value))
  {
    if fetch(resolve(PagePath(keyword, shopId))).Some? {
      assert AllProducts(keyword, shopId, fetch, resolve) ==
        Matches(fetch(resolve(PagePath(keyword, shopId))).value, EffectiveTerm(keyword), resolve);
      MatchesProperties(fetch(resolve(PagePath(keyword, shopId))).value, EffectiveTerm(keyword), resolve);
    }
  }

  /**
   * An item dropped for a repeated link still marks its name: here the second item is dropped
   * because its link repeats the first one's, and the third, with a fresh link, because its
   * name repeats the second one's.
   */
  lemma RepeatedLinkStillMarksName(resolve: string -> string)
    requires resolve("/p/2") != resolve("/p/1")
    ensures var page := [
        Item(Some("移动A"), Some("/p/1"), None, None, None),
        Item(Some("移动B"), Some("/p/1"), None, None, None),
        Item(Some("移动B"), Some("/p/2"), None, None, None)];
      Matches(page, "移动", resolve) == [Match(page[0], resolve("/p/1"))]
  {
    var page := [
        Item(Some("移动A"), Some("/p/1"), None, None, None),
        Item(Some("移动B"), Some("/p/1"), None, None, None),
        Item(Some("移动B"), Some("/p/2"), None, None, None)];
    assert OccursAt(Lower("移动A"), Lower("移动"), 0);
    assert OccursAt(Lower("移动B"), Lower("移动"), 0);
    assert page[1..][1..] == [page[2]];
    assert page[2..] == [page[2]];
  }
}

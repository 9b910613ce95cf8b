/**
 * Case-insensitive line search over the pages (`App::execute_search`):
 * every `(page, line)` whose lower-cased line contains the lower-cased
 * query, in page order and, within a page, in line order.
 */
module LineSearch {
  import opened Text

  /** One hit: a page index and a line index within that page, both 0-based. */
  datatype SearchResult = SearchResult(page: nat, line: nat)

  /** `a` comes strictly before `b` in reading order. */
  predicate Before(a: SearchResult, b: SearchResult) {
    a.page < b.page || (a.page == b.page && a.line < b.line)
  }

  /** Every result comes strictly before every later one. */
  predicate StrictlyOrdered(rs: seq<SearchResult>) {
    forall i, j :: 0 <= i < j < |rs| ==> Before(rs[i], rs[j])
  }

  /** Line `line` of page `page` exists and contains the query `ql` once lower-cased. */
  predicate IsHit(pages: seq<string>, ql: string, r: SearchResult) {
    && r.page < |pages|
    && r.line < |Lines(pages[r.page])|
    && Contains(Lower(Lines(pages[r.page])[r.line]), ql)
  }

  /** The hits among the lines `ls` of page `page`, in line order. */
  function LineHits(page: nat, ls: seq<string>, ql: string): (r: seq<SearchResult>)
    ensures |r| <= |ls|
  {
    if ls == [] then []
    else
      var l := |ls| - 1;
      LineHits(page, ls[..l], ql)
      + (if Contains(Lower(ls[l]), ql) then [SearchResult(page, l)] else [])
  }

  /** The hits in `pages`, page after page. */
  function PageHits(pages: seq<string>, ql: string): seq<SearchResult> {
    if pages == [] then []
    else
      var p := |pages| - 1;
      PageHits(pages[..p], ql) + LineHits(p, Lines(pages[p]), ql)
  }

  /** The result list `execute_search` builds for a query. */
  function SearchHits(pages: seq<string>, query: string): seq<SearchResult> {
    PageHits(pages, Lower(query))
  }

  /** The hits of one page are exactly its matching lines. */
  lemma {:induction false} LineHitsMembers(page: nat, ls: seq<string>, ql: string)
    ensures forall r :: r in LineHits(page, ls, ql) <==>
      r.page == page && r.line < |ls| && Contains(Lower(ls[r.line]), ql)
  {
    if ls != [] {
      var l := |ls| - 1;
      LineHitsMembers(page, ls[..l], ql);
      assert forall k :: 0 <= k < l ==> ls[..l][k] == ls[k];
    }
  }

  /** The hits of one page come in strictly increasing line order. */
  lemma {:induction false} LineHitsOrdered(page: nat, ls: seq<string>, ql: string)
    ensures StrictlyOrdered(LineHits(page, ls, ql))
  {
    if ls != [] {
      var l := |ls| - 1;
      LineHitsOrdered(page, ls[..l], ql);
      LineHitsMembers(page, ls[..l], ql);
      var prefix := LineHits(page, ls[..l], ql);
      assert forall i :: 0 <= i < |prefix| ==> prefix[i] in prefix;
    }
  }

  /** The hits over all pages are exactly the matching lines. */
  lemma {:induction false} PageHitsMembers(pages: seq<string>, ql: string)
    ensures forall r :: r in PageHits(pages, ql) <==> IsHit(pages, ql, r)
  {
    if pages != [] {
      var p := |pages| - 1;
      assert PageHits(pages, ql) == PageHits(pages[..p], ql) + LineHits(p, Lines(pages[p]), ql);
      PageHitsMembers(pages[..p], ql);
      LineHitsMembers(p, Lines(pages[p]), ql);
      forall r ensures r in PageHits(pages, ql) <==> IsHit(pages, ql, r) {
        if r.page < p {
          assert pages[..p][r.page] == pages[r.page];
        }
      }
    }
  }

  /** The hits over all pages come in strictly increasing (page, line) order. */
  lemma {:induction false} PageHitsOrdered(pages: seq<string>, ql: string)
    ensures StrictlyOrdered(PageHits(pages, ql))
  {
    if pages != [] {
      var p := |pages| - 1;
      var front, back := PageHits(pages[..p], ql), LineHits(p, Lines(pages[p]), ql);
      PageHitsOrdered(pages[..p], ql);
      LineHitsOrdered(p, Lines(pages[p]), ql);
      PageHitsMembers(pages[..p], ql);
      LineHitsMembers(p, Lines(pages[p]), ql);
      assert forall i :: 0 <= i < |front| ==> front[i] in front;
      assert forall j :: 0 <= j < |back| ==> back[j] in back;
    }
  }

  /**
   * A result is in the list exactly when its line exists and contains the
   * query, ignoring (ASCII) case.
   */
  lemma SearchMembers(pages: seq<string>, query: string)
    ensures forall r :: r in SearchHits(pages, query) <==> IsHit(pages, Lower(query), r)
  {
    PageHitsMembers(pages, Lower(query));
  }

  /** Results are in strictly increasing (page, line) order, so no line is reported twice. */
  lemma SearchOrdered(pages: seq<string>, query: string)
    ensures StrictlyOrdered(SearchHits(pages, query))
  {
    PageHitsOrdered(pages, Lower(query));
  }

  /** Every result points at an existing page and line. */
  lemma SearchBounds(pages: seq<string>, query: string)
    ensures forall k :: 0 <= k < |SearchHits(pages, query)| ==>
      SearchHits(pages, query)[k].page < |pages| &&
      SearchHits(pages, query)[k].line < |Lines(pages[SearchHits(pages, query)[k].page])|
  {
    var rs := SearchHits(pages, query);
    SearchMembers(pages, query);
    assert forall k :: 0 <= k < |rs| ==> rs[k] in rs;
  }
}

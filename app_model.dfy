/**
 * The viewer's state and its operations as values: the fields of `App`
 * and what each of its methods does to them. `Viewer.App` runs these
 * operations in place; the properties are proved here.
 */
module AppModel {
  import opened Text
  import opened LineSearch

  /** What keystrokes currently do: navigate, type a page number, or type a search term. */
  datatype InputMode = Normal | PageJump | Search

  /**
   * The status line, as the message it shows rather than its wording:
   * `NoMessage` is the empty message.
   */
  datatype Status =
    | NoMessage
    | EnterPageNumber
    | EnterSearchTerm
    | JumpedTo(page: nat)
    | InvalidPageNumber(page: nat)
    | InvalidPageInput
    | EmptyQuery
    | NoResults(query: string)
    | ResultOf(position: nat, total: nat, query: string)
    | SearchCleared

  datatype AppState = AppState(
    pages: seq<string>,
    currentPage: nat,
    scrollOffset: nat,
    shouldQuit: bool,
    inputMode: InputMode,
    inputBuffer: string,
    searchQuery: string,
    searchResults: seq<SearchResult>,
    currentSearchResult: nat,
    status: Status)

  /** The largest `usize` on a 64-bit target. */
  const UsizeMax: nat := 0xFFFF_FFFF_FFFF_FFFF

  /** Lines of context kept above a search result when jumping to it. */
  const ResultContext: nat := 5

  /** `usize::saturating_sub`. */
  function SatSub(a: nat, b: nat): (r: nat)
    ensures r + b >= a && (a >= b ==> r + b == a) && (a < b ==> r == 0)
  {
    if a >= b then a - b else 0
  }

  /**
   * What holds of every state the viewer reaches: the page index is in
   * range (0 when there are no pages), the input buffer is empty outside
   * the input modes and holds only digits while a page number is typed,
   * the results are those of the active query (none without one), and
   * the result cursor points at a result whenever there is one.
   */
  ghost predicate Inv(s: AppState) {
    && (if s.pages == [] then s.currentPage == 0 else s.currentPage < |s.pages|)
    && (s.inputMode == Normal ==> s.inputBuffer == [])
    && (s.inputMode == PageJump ==> AllDigits(s.inputBuffer))
    && (s.searchQuery == [] ==> s.searchResults == [])
    && (s.searchQuery != [] ==> s.searchResults == SearchHits(s.pages, s.searchQuery))
    && (s.searchResults != [] ==> s.currentSearchResult < |s.searchResults|)
  }

  /** `App::new`: first page, top of it, no input, no search. */
  function Init(pages: seq<string>): (s: AppState)
    ensures Inv(s) && s.pages == pages && s.currentPage == 0 && s.scrollOffset == 0
    ensures !s.shouldQuit && s.inputMode == Normal && s.searchQuery == [] && s.status == NoMessage
  {
    AppState(pages, 0, 0, false, Normal, [], [], [], 0, NoMessage)
  }

  // ----- paging and scrolling -----

  function NextPage(s: AppState): (r: AppState)
    ensures Inv(s) ==> Inv(r)
  {
    if s.currentPage < SatSub(|s.pages|, 1) then s.(currentPage := s.currentPage + 1, scrollOffset := 0)
    else s
  }

  function PrevPage(s: AppState): (r: AppState)
    ensures Inv(s) ==> Inv(r)
  {
    if s.currentPage > 0 then s.(currentPage := s.currentPage - 1, scrollOffset := 0)
    else s
  }

  function ScrollDown(s: AppState): (r: AppState)
    ensures Inv(s) ==> Inv(r)
  {
    s.(scrollOffset := s.scrollOffset + 1)
  }

  function ScrollUp(s: AppState): (r: AppState)
    ensures Inv(s) ==> Inv(r)
  {
    s.(scrollOffset := SatSub(s.scrollOffset, 1))
  }

  /** The Home key. */
  function GoHome(s: AppState): (r: AppState)
    ensures Inv(s) ==> Inv(r)
  {
    s.(currentPage := 0, scrollOffset := 0)
  }

  /** The End key. */
  function GoEnd(s: AppState): (r: AppState)
    ensures Inv(s) ==> Inv(r)
  {
    s.(currentPage := SatSub(|s.pages|, 1), scrollOffset := 0)
  }

  function Quit(s: AppState): (r: AppState)
    ensures Inv(s) ==> Inv(r)
  {
    s.(shouldQuit := true)
  }

  /** `jump_to_page`: `n` counts pages from 1. */
  function JumpToPage(s: AppState, n: nat): (r: AppState)
    ensures Inv(s) ==> Inv(r)
  {
    if n > 0 && n <= |s.pages| then
      s.(currentPage := n - 1, scrollOffset := 0, status := JumpedTo(n))
    else
      s.(status := InvalidPageNumber(n))
  }

  // ----- input modes -----

  function StartPageJump(s: AppState): (r: AppState)
    ensures Inv(s) ==> Inv(r)
  {
    s.(inputMode := PageJump, inputBuffer := [], status := EnterPageNumber)
  }

  function StartSearch(s: AppState): (r: AppState)
    ensures Inv(s) ==> Inv(r)
  {
    s.(inputMode := Search, inputBuffer := [], status := EnterSearchTerm)
  }

  function CancelInput(s: AppState): (r: AppState)
    ensures Inv(s) ==> Inv(r)
  {
    s.(inputMode := Normal, inputBuffer := [], status := NoMessage)
  }

  /** A typed character: digits only while a page number is typed, anything in a search. */
  function HandleInput(s: AppState, c: char): (r: AppState)
    ensures Inv(s) ==> Inv(r)
  {
    match s.inputMode
    case PageJump => if IsDigit(c) then s.(inputBuffer := s.inputBuffer + [c]) else s
    case Search => s.(inputBuffer := s.inputBuffer + [c])
    case Normal => s
  }

  /** `String::pop` on the input buffer. */
  function Backspace(s: AppState): (r: AppState)
    ensures Inv(s) ==> Inv(r)
  {
    if s.inputBuffer == [] then s
    else s.(inputBuffer := s.inputBuffer[..|s.inputBuffer| - 1])
  }

  /** The text after an optional leading `+` sign. */
  function Unsigned(s: string): string {
    if s != [] && s[0] == '+' then s[1..] else s
  }

  /**
   * `str::parse::<usize>`: an optional `+`, then one or more decimal
   * digits, whose value fits in a `usize`. Anything else, the empty text
   * and a value past `usize::MAX` included, is an error.
   */
  function ParseUsize(s: string): (r: Option<nat>)
    ensures r.Some? <==> Unsigned(s) != [] && AllDigits(Unsigned(s)) && DigitsValue(Unsigned(s)) <= UsizeMax
    ensures r.Some? ==> r.value == DigitsValue(Unsigned(s)) <= UsizeMax
    ensures s == [] ==> r.None?
  {
    var digits := Unsigned(s);
    match ParseNat(digits)
    case Some(n) => if n <= UsizeMax then Some(n) else None
    case None => None
  }

  function SubmitInput(s: AppState): (r: AppState)
    ensures Inv(s) ==> Inv(r)
  {
    match s.inputMode
    case PageJump =>
      var t := match ParseUsize(s.inputBuffer)
               case Some(n) => JumpToPage(s, n)
               case None => s.(status := InvalidPageInput);
      t.(inputMode := Normal, inputBuffer := [])
    case Search =>
      ExecuteSearch(s).(inputMode := Normal, inputBuffer := [])
    case Normal => s
  }

  // ----- search -----

  /**
   * `execute_search`: an empty buffer is refused; otherwise the buffer
   * becomes the query, the results are recomputed, and the view moves to
   * the first result if there is one.
   */
  function ExecuteSearch(s: AppState): (r: AppState)
    ensures Inv(s) ==> Inv(r)
  {
    if s.inputBuffer == [] then s.(status := EmptyQuery)
    else
      var q := s.inputBuffer;
      var t := s.(searchQuery := q, searchResults := SearchHits(s.pages, q));
      if t.searchResults == [] then t.(status := NoResults(q))
      else GoToSearchResult(t.(currentSearchResult := 0))
  }

  /** Show the result under the cursor, a few lines of context above it. */
  function GoToSearchResult(s: AppState): (r: AppState)
    ensures Inv(s) ==> Inv(r)
  {
    if s.currentSearchResult < |s.searchResults| then
      SearchBounds(s.pages, s.searchQuery);
      var hit := s.searchResults[s.currentSearchResult];
      s.(currentPage := hit.page,
         scrollOffset := SatSub(hit.line, ResultContext),
         status := ResultOf(s.currentSearchResult + 1, |s.searchResults|, s.searchQuery))
    else s
  }

  function NextSearchResult(s: AppState): (r: AppState)
    ensures Inv(s) ==> Inv(r)
  {
    if s.searchResults != [] then
      GoToSearchResult(s.(currentSearchResult := (s.currentSearchResult + 1) % |s.searchResults|))
    else s
  }

  function PrevSearchResult(s: AppState): (r: AppState)
    ensures Inv(s) ==> Inv(r)
  {
    if s.searchResults != [] then
      var c := if s.currentSearchResult == 0 then |s.searchResults| - 1 else s.currentSearchResult - 1;
      GoToSearchResult(s.(currentSearchResult := c))
    else s
  }

  function ClearSearch(s: AppState): (r: AppState)
    ensures Inv(s) ==> Inv(r)
  {
    s.(searchQuery := [], searchResults := [], currentSearchResult := 0, status := SearchCleared)
  }

  // ----- properties of paging and scrolling -----

  function Min(a: nat, b: nat): nat {
    if a <= b then a else b
  }

  /** `k` presses of next-page. */
  function NextPages(s: AppState, k: nat): AppState {
    if k == 0 then s else NextPage(NextPages(s, k - 1))
  }

  /** `k` presses of previous-page. */
  function PrevPages(s: AppState, k: nat): AppState {
    if k == 0 then s else PrevPage(PrevPages(s, k - 1))
  }

  /** `k` presses of scroll-up. */
  function ScrollUps(s: AppState, k: nat): AppState {
    if k == 0 then s else ScrollUp(ScrollUps(s, k - 1))
  }

  /**
   * Next-page moves one page forward until the last page and then stays
   * there: after `k` presses the page is `min(p + k, last)`, nothing but
   * the page and the scroll offset changes, the offset is back at the
   * top once the page has moved, and a press that cannot move the page
   * changes nothing at all.
   */
  lemma {:induction false} NextPagesReach(s: AppState, k: nat)
    requires Inv(s) && s.pages != []
    ensures NextPages(s, k).currentPage == Min(s.currentPage + k, |s.pages| - 1)
    ensures NextPages(s, k) == s.(currentPage := NextPages(s, k).currentPage,
                                  scrollOffset := NextPages(s, k).scrollOffset)
    ensures NextPages(s, k).currentPage != s.currentPage ==> NextPages(s, k).scrollOffset == 0
    ensures NextPages(s, k).currentPage == s.currentPage ==> NextPages(s, k) == s
  {
    if k > 0 {
      NextPagesReach(s, k - 1);
      var before := NextPages(s, k - 1);
      assert NextPages(s, k) == NextPage(before);
      if before.currentPage == s.currentPage {
        assert before == s;
      }
    }
  }

  /**
   * Previous-page moves one page back until the first page and then stays
   * there: after `k` presses the page is `p - k` saturated at 0, the
   * offset is back at the top once the page has moved, and a press that
   * cannot move the page changes nothing at all.
   */
  lemma {:induction false} PrevPagesReach(s: AppState, k: nat)
    requires Inv(s)
    ensures PrevPages(s, k).currentPage == SatSub(s.currentPage, k)
    ensures PrevPages(s, k) == s.(currentPage := PrevPages(s, k).currentPage,
                                  scrollOffset := PrevPages(s, k).scrollOffset)
    ensures PrevPages(s, k).currentPage != s.currentPage ==> PrevPages(s, k).scrollOffset == 0
    ensures PrevPages(s, k).currentPage == s.currentPage ==> PrevPages(s, k) == s
  {
    if k > 0 {
      PrevPagesReach(s, k - 1);
      var before := PrevPages(s, k - 1);
      assert PrevPages(s, k) == PrevPage(before);
      if before.currentPage == s.currentPage {
        assert before == s;
      }
    }
  }

  /** Going forward a page and back again returns to the same page, at its top. */
  lemma PrevAfterNext(s: AppState)
    requires Inv(s) && s.currentPage + 1 < |s.pages|
    ensures PrevPage(NextPage(s)) == s.(scrollOffset := 0)
  {
  }

  /**
   * Home and End land on the first and the last page, where previous-page
   * and next-page respectively change nothing more.
   */
  lemma HomeEndAreEnds(s: AppState)
    requires Inv(s)
    ensures GoHome(s).currentPage == 0 && PrevPage(GoHome(s)) == GoHome(s)
    ensures s.pages != [] ==> GoEnd(s).currentPage == |s.pages| - 1
    ensures NextPage(GoEnd(s)) == GoEnd(s)
  {
  }

  /** Scrolling up `k` times from offset `o` reaches `o - k`, never below 0. */
  lemma {:induction false} ScrollUpsSaturate(s: AppState, k: nat)
    ensures ScrollUps(s, k) == s.(scrollOffset := SatSub(s.scrollOffset, k))
  {
    if k > 0 {
      ScrollUpsSaturate(s, k - 1);
    }
  }

  /** Scrolling up undoes scrolling down exactly. */
  lemma ScrollUpAfterDown(s: AppState)
    ensures ScrollUp(ScrollDown(s)) == s
  {
  }

  /**
   * A jump succeeds exactly for a page number from 1 to the page count;
   * then it shows that page from its top, and otherwise only the status
   * changes.
   */
  lemma JumpToPageIff(s: AppState, n: nat)
    ensures JumpToPage(s, n).status == JumpedTo(n) <==> 1 <= n <= |s.pages|
    ensures 1 <= n <= |s.pages| ==>
      JumpToPage(s, n) == s.(currentPage := n - 1, scrollOffset := 0, status := JumpedTo(n))
    ensures !(1 <= n <= |s.pages|) ==> JumpToPage(s, n) == s.(status := InvalidPageNumber(n))
  {
  }

  // ----- properties of the input modes -----

  /** Type the characters of `t` one by one. */
  function TypeText(s: AppState, t: string): AppState
    decreases |t|
  {
    if t == [] then s else TypeText(HandleInput(s, t[0]), t[1..])
  }

  /** In search mode every character typed lands at the end of the buffer. */
  lemma {:induction false} TypeTextSearch(s: AppState, t: string)
    requires s.inputMode == Search
    ensures TypeText(s, t) == s.(inputBuffer := s.inputBuffer + t)
    decreases |t|
  {
    if t != [] {
      TypeTextSearch(HandleInput(s, t[0]), t[1..]);
      assert s.inputBuffer + [t[0]] + t[1..] == s.inputBuffer + t;
    }
  }

  /** In page-number mode digits land at the end of the buffer and anything else is dropped. */
  lemma {:induction false} TypeTextPageJump(s: AppState, t: string)
    requires s.inputMode == PageJump
    ensures TypeText(s, t) == s.(inputBuffer := s.inputBuffer + Digits(t))
    decreases |t|
  {
    if t != [] {
      var next := HandleInput(s, t[0]);
      var d := if IsDigit(t[0]) then [t[0]] else [];
      assert next == s.(inputBuffer := s.inputBuffer + d);
      TypeTextPageJump(next, t[1..]);
      assert Digits(t) == d + Digits(t[1..]);
      assert s.inputBuffer + d + Digits(t[1..]) == s.inputBuffer + Digits(t);
    }
  }

  /** The digits of `t`, in order. */
  function Digits(t: string): (r: string)
    ensures AllDigits(r) && |r| <= |t|
  {
    if t == [] then [] else (if IsDigit(t[0]) then [t[0]] else []) + Digits(t[1..])
  }

  /** Outside the input modes typing changes nothing. */
  lemma {:induction false} TypeTextNormal(s: AppState, t: string)
    requires s.inputMode == Normal
    ensures TypeText(s, t) == s
    decreases |t|
  {
    if t != [] {
      TypeTextNormal(HandleInput(s, t[0]), t[1..]);
    }
  }

  /** Backspace takes back the character just typed. */
  lemma BackspaceUndoesInput(s: AppState, c: char)
    requires s.inputMode == Search || (s.inputMode == PageJump && IsDigit(c))
    ensures Backspace(HandleInput(s, c)) == s
  {
    assert (s.inputBuffer + [c])[..|s.inputBuffer|] == s.inputBuffer;
  }

  /** Backspace removes exactly the last character of the buffer, if any. */
  lemma BackspaceRemovesLast(s: AppState)
    ensures s.inputBuffer == [] ==> Backspace(s) == s
    ensures s.inputBuffer != [] ==>
      Backspace(s).inputBuffer + [s.inputBuffer[|s.inputBuffer| - 1]] == s.inputBuffer &&
      Backspace(s) == s.(inputBuffer := Backspace(s).inputBuffer)
  {
  }

  /** Submitting and cancelling both leave the input modes with an empty buffer. */
  lemma SubmitCancelEndNormal(s: AppState)
    requires s.inputMode != Normal
    ensures SubmitInput(s).inputMode == Normal && SubmitInput(s).inputBuffer == []
    ensures CancelInput(s).inputMode == Normal && CancelInput(s).inputBuffer == []
  {
  }

  /**
   * Enter on a page-number buffer that does not parse (empty, or past
   * `usize::MAX`) only reports the invalid input and leaves input mode:
   * the page, the offset and the search stay as they were.
   */
  lemma SubmitInvalidPage(s: AppState)
    requires s.inputMode == PageJump && ParseUsize(s.inputBuffer).None?
    ensures SubmitInput(s) == s.(status := InvalidPageInput, inputMode := Normal, inputBuffer := [])
  {
  }

  /** Enter on an empty page-number buffer is such an invalid input. */
  lemma SubmitEmptyPage(s: AppState)
    requires s.inputMode == PageJump && s.inputBuffer == []
    ensures SubmitInput(s) == s.(status := InvalidPageInput, inputMode := Normal, inputBuffer := [])
  {
    SubmitInvalidPage(s);
  }

  /** A digit string whose value is past `usize::MAX` does not parse. */
  lemma ParseUsizeOverflow(d: string)
    requires d != [] && AllDigits(d) && DigitsValue(d) > UsizeMax
    ensures ParseUsize(d).None?
  {
    assert d[0] != '+' by {
      assert IsDigit(d[0]);
    }
  }

  /** The decimal digits of a number in range parse back to that number. */
  lemma ParseUsizeShowNat(n: nat)
    requires n <= UsizeMax
    ensures ParseUsize(ShowNat(n)) == Some(n)
  {
    var t := ShowNat(n);
    assert !(t[0] == '+') by {
      assert IsDigit(t[0]);
    }
    ParseShowNat(n);
  }

  /**
   * Typing `g`, the digits of page `n` and Enter shows page `n` from its
   * top when `n` is a page of the document, and otherwise reports the
   * invalid number and stays put; either way the input mode is over.
   */
  lemma PageJumpScenario(s: AppState, n: nat)
    requires Inv(s) && n <= UsizeMax
    ensures var r := SubmitInput(TypeText(StartPageJump(s), ShowNat(n)));
            && r.inputMode == Normal && r.inputBuffer == []
            && (1 <= n <= |s.pages| ==> r.currentPage == n - 1 && r.scrollOffset == 0 && r.status == JumpedTo(n))
            && (!(1 <= n <= |s.pages|) ==> r.currentPage == s.currentPage && r.status == InvalidPageNumber(n))
  {
    var t := StartPageJump(s);
    var digits := ShowNat(n);
    TypeTextPageJump(t, digits);
    DigitsOfDigits(digits);
    assert [] + digits == digits;
    var typed := t.(inputBuffer := digits);
    assert TypeText(t, digits) == typed;
    ParseUsizeShowNat(n);
    assert SubmitInput(typed) == JumpToPage(typed, n).(inputMode := Normal, inputBuffer := []);
  }

  lemma {:induction false} DigitsOfDigits(t: string)
    requires AllDigits(t)
    ensures Digits(t) == t
  {
    if t != [] {
      DigitsOfDigits(t[1..]);
      assert [t[0]] + t[1..] == t;
    }
  }

  /**
   * Typing `/`, a non-empty query and Enter makes it the active query with
   * exactly its hits as results; with no hit the view stays where it was,
   * otherwise it moves to the first hit, a few lines of context above it.
   * Either way the whole new state is stated.
   */
  lemma SearchScenario(s: AppState, q: string)
    requires q != []
    ensures var r, hits := SubmitInput(TypeText(StartSearch(s), q)), SearchHits(s.pages, q);
            && (hits == [] ==>
                  r == s.(inputMode := Normal, inputBuffer := [], searchQuery := q, searchResults := [],
                          status := NoResults(q)))
            && (hits != [] ==>
                  r == s.(inputMode := Normal, inputBuffer := [], searchQuery := q, searchResults := hits,
                          currentSearchResult := 0, currentPage := hits[0].page,
                          scrollOffset := SatSub(hits[0].line, ResultContext), status := ResultOf(1, |hits|, q)))
    ensures var r := SubmitInput(TypeText(StartSearch(s), q));
            && r.inputMode == Normal && r.inputBuffer == []
            && r.searchQuery == q
            && (forall h :: h in r.searchResults <==> IsHit(s.pages, Lower(q), h))
            && StrictlyOrdered(r.searchResults)
            && (r.searchResults == [] ==>
                  r.currentPage == s.currentPage && r.scrollOffset == s.scrollOffset && r.status == NoResults(q))
            && (r.searchResults != [] ==>
                  r.currentSearchResult == 0 && r.currentPage == r.searchResults[0].page)
  {
    var typed := TypeText(StartSearch(s), q);
    assert typed == s.(inputMode := Search, inputBuffer := q, status := EnterSearchTerm) by {
      TypeTextSearch(StartSearch(s), q);
      assert [] + q == q;
    }
    ExecuteSearchExact(typed);
    SearchMembers(s.pages, q);
    SearchOrdered(s.pages, q);
  }

  // ----- properties of search -----

  /**
   * An empty buffer changes nothing but the status; otherwise the buffer
   * becomes the query and the results are exactly the lines containing
   * it (ignoring case), in reading order.
   */
  lemma ExecuteSearchResults(s: AppState)
    ensures s.inputBuffer == [] ==> ExecuteSearch(s) == s.(status := EmptyQuery)
    ensures s.inputBuffer != [] ==>
      && ExecuteSearch(s).searchQuery == s.inputBuffer
      && (forall h :: h in ExecuteSearch(s).searchResults <==> IsHit(s.pages, Lower(s.inputBuffer), h))
      && StrictlyOrdered(ExecuteSearch(s).searchResults)
  {
    if s.inputBuffer != [] {
      SearchMembers(s.pages, s.inputBuffer);
      SearchOrdered(s.pages, s.inputBuffer);
    }
  }

  /**
   * The whole state after a search on a non-empty buffer: the buffer
   * becomes the query and its hits the results; with no hit only the
   * status changes besides, otherwise the cursor and the view go to the
   * first hit.
   */
  lemma ExecuteSearchExact(s: AppState)
    requires s.inputBuffer != []
    ensures var q, hits := s.inputBuffer, SearchHits(s.pages, s.inputBuffer);
            && (hits == [] ==>
                  ExecuteSearch(s) == s.(searchQuery := q, searchResults := [], status := NoResults(q)))
            && (hits != [] ==>
                  ExecuteSearch(s) == s.(searchQuery := q, searchResults := hits, currentSearchResult := 0,
                                         currentPage := hits[0].page,
                                         scrollOffset := SatSub(hits[0].line, ResultContext),
                                         status := ResultOf(1, |hits|, q)))
  {
  }

  /**
   * Going to a result shows its page, scrolled so that the matching line
   * is `ResultContext` lines below the top (or at the top when it is closer
   * to it than that); only the page, the offset and the status change.
   */
  lemma GoToSearchResultShowsHit(s: AppState)
    requires Inv(s) && s.searchResults != []
    ensures var r, hit := GoToSearchResult(s), s.searchResults[s.currentSearchResult];
            && r == s.(currentPage := hit.page,
                       scrollOffset := SatSub(hit.line, ResultContext),
                       status := ResultOf(s.currentSearchResult + 1, |s.searchResults|, s.searchQuery))
            && r.currentPage == hit.page < |s.pages|
            && r.scrollOffset <= hit.line <= r.scrollOffset + ResultContext
            && hit.line < |Lines(s.pages[hit.page])|
            && r.status == ResultOf(s.currentSearchResult + 1, |s.searchResults|, s.searchQuery)
  {
    SearchBounds(s.pages, s.searchQuery);
  }

  /** `k` presses of next-result. */
  function NextResults(s: AppState, k: nat): AppState {
    if k == 0 then s else NextSearchResult(NextResults(s, k - 1))
  }

  /** Going to a result does not depend on where the view was. */
  lemma GoToForgetsView(s: AppState, page: nat, offset: nat, status: Status)
    ensures GoToSearchResult(s.(currentPage := page, scrollOffset := offset, status := status))
            == if s.currentSearchResult < |s.searchResults| then GoToSearchResult(s)
               else s.(currentPage := page, scrollOffset := offset, status := status)
  {
  }

  /** `x mod m` for `x` below `m`, and `m mod m`. */
  lemma ModSmall(x: nat, m: nat)
    requires x <= m && m > 0
    ensures x % m == if x < m then x else 0
  {
  }

  /** Moving the cursor to `e` and showing that result. */
  lemma NextShows(s: AppState, e: nat)
    requires s.searchResults != [] && e == (s.currentSearchResult + 1) % |s.searchResults|
    ensures NextSearchResult(s) == GoToSearchResult(s.(currentSearchResult := e))
  {
  }

  /** The result after `d` among `m`, wrapping from the last to the first. */
  function Succ(d: nat, m: nat): nat {
    if d + 1 < m then d + 1 else 0
  }

  /** The result `k` places after `c` among `m`, for `c < m` and `k <= m`. */
  function Advance(c: nat, k: nat, m: nat): nat {
    if c + k < m then c + k else c + k - m
  }

  lemma AdvanceStep(c: nat, k: nat, m: nat)
    requires c < m && 1 <= k <= m
    ensures Succ(Advance(c, k - 1, m), m) == Advance(c, k, m)
  {
  }

  /**
   * Next-result cycles through the results: after `k` presses, `1 <= k <= n`,
   * the cursor has moved `k` places forward, wrapping from the last result
   * to the first, and the view shows that result.
   */
  lemma {:induction false} NextResultsCycle(s: AppState, k: nat)
    requires s.currentSearchResult < |s.searchResults| && 1 <= k <= |s.searchResults|
    ensures NextResults(s, k)
            == GoToSearchResult(s.(currentSearchResult := Advance(s.currentSearchResult, k, |s.searchResults|)))
  {
    var m, c := |s.searchResults|, s.currentSearchResult;
    AdvanceStep(c, k, m);
    if k == 1 {
      assert Advance(c, 0, m) == c;
      assert s.(currentSearchResult := c) == s;
      CycleStep(s, s, c);
    } else {
      NextResultsCycle(s, k - 1);
      CycleStep(s, NextResults(s, k - 1), Advance(c, k - 1, m));
    }
  }

  /**
   * Any number `k >= 1` of next-result presses: the cursor has moved `k`
   * places forward modulo the number of results, and the view shows that
   * result.
   */
  lemma {:induction false} NextResultsCycleMod(s: AppState, k: nat)
    requires s.currentSearchResult < |s.searchResults| && 1 <= k
    ensures NextResults(s, k)
            == GoToSearchResult(s.(currentSearchResult := (s.currentSearchResult + k) % |s.searchResults|))
  {
    if k > 1 {
      NextResultsCycleMod(s, k - 1);
    }
    NextResultsStepMod(s, k);
  }

  /** The step of `NextResultsCycleMod`: from `k - 1` presses to `k`. */
  lemma NextResultsStepMod(s: AppState, k: nat)
    requires s.currentSearchResult < |s.searchResults| && 1 <= k
    requires k == 1 || NextResults(s, k - 1)
      == GoToSearchResult(s.(currentSearchResult := (s.currentSearchResult + (k - 1)) % |s.searchResults|))
    ensures NextResults(s, k)
            == GoToSearchResult(s.(currentSearchResult := (s.currentSearchResult + k) % |s.searchResults|))
  {
    var prev := NextResults(s, k - 1);
    if k == 1 {
      ModSmall(s.currentSearchResult, |s.searchResults|);
      assert prev == s.(currentSearchResult := (s.currentSearchResult + (k - 1)) % |s.searchResults|);
    }
    CycleStepMod(s, prev, s.currentSearchResult + (k - 1), s.currentSearchResult + k);
    assert NextResults(s, k) == NextSearchResult(prev);
  }

  /** One more press after the result at `x mod m` shows the one at `y mod m`, `y = x + 1`. */
  lemma CycleStepMod(s: AppState, prev: AppState, x: nat, y: nat)
    requires |s.searchResults| > 0 && y == x + 1
    requires var here := s.(currentSearchResult := x % |s.searchResults|);
             prev == GoToSearchResult(here) || prev == here
    ensures NextSearchResult(prev)
            == GoToSearchResult(s.(currentSearchResult := y % |s.searchResults|))
  {
    CycleStep(s, prev, x % |s.searchResults|);
    SuccMod(x, |s.searchResults|);
  }

  /** The result after `x mod m` is `(x + 1) mod m`. */
  lemma SuccMod(x: nat, m: nat)
    requires m > 0
    ensures Succ(x % m, m) == (x + 1) % m
  {
    var q, r := x / m, x % m;
    assert x == q * m + r;
    if r + 1 < m {
      assert x + 1 == q * m + (r + 1);
      ModOfMultiple(q, m, r + 1);
    } else {
      assert x + 1 == (q + 1) * m;
      ModOfMultiple(q + 1, m, 0);
    }
  }

  /** `(q * m + r) mod m` is `r` for `r < m`. */
  lemma ModOfMultiple(q: nat, m: nat, r: nat)
    requires r < m
    ensures (q * m + r) % m == r
  {
    DivUnique(q * m + r, m, q, r);
  }

  /**
   * From the view of result `d` (or any view of the same results), next-result
   * shows the result after `d`.
   */
  lemma CycleStep(s: AppState, prev: AppState, d: nat)
    requires d < |s.searchResults|
    requires prev == GoToSearchResult(s.(currentSearchResult := d)) || prev == s.(currentSearchResult := d)
    ensures NextSearchResult(prev) == GoToSearchResult(s.(currentSearchResult := Succ(d, |s.searchResults|)))
  {
    var e := Succ(d, |s.searchResults|);
    ModSmall(d + 1, |s.searchResults|);
    NextShows(prev, e);
    GoToForgetsView(s.(currentSearchResult := e), prev.currentPage, prev.scrollOffset, prev.status);
    assert prev.(currentSearchResult := e)
        == s.(currentSearchResult := e).(currentPage := prev.currentPage,
                                          scrollOffset := prev.scrollOffset,
                                          status := prev.status);
  }

  /**
   * Pressing next-result as many times as there are results comes back to
   * the result the cursor started at.
   */
  lemma NextResultsFullCycle(s: AppState)
    requires s.currentSearchResult < |s.searchResults|
    ensures NextResults(s, |s.searchResults|) == GoToSearchResult(s)
  {
    NextResultsCycle(s, |s.searchResults|);
    assert Advance(s.currentSearchResult, |s.searchResults|, |s.searchResults|) == s.currentSearchResult;
    assert s.(currentSearchResult := s.currentSearchResult) == s;
  }

  /** The result before `d` among `m`, wrapping from the first to the last. */
  function Pred(d: nat, m: nat): nat
    requires m > 0
  {
    if d == 0 then m - 1 else d - 1
  }

  /**
   * From the view of result `d` (or any view of the same results),
   * previous-result shows the result before `d`.
   */
  lemma PrevStep(s: AppState, prev: AppState, d: nat)
    requires d < |s.searchResults|
    requires prev == GoToSearchResult(s.(currentSearchResult := d)) || prev == s.(currentSearchResult := d)
    ensures PrevSearchResult(prev) == GoToSearchResult(s.(currentSearchResult := Pred(d, |s.searchResults|)))
  {
    var e := Pred(d, |s.searchResults|);
    GoToForgetsView(s.(currentSearchResult := e), prev.currentPage, prev.scrollOffset, prev.status);
    assert prev.(currentSearchResult := e)
        == s.(currentSearchResult := e).(currentPage := prev.currentPage,
                                          scrollOffset := prev.scrollOffset,
                                          status := prev.status);
  }

  /** Previous-result undoes next-result, and next-result undoes previous-result. */
  lemma PrevNextResultInverse(s: AppState)
    requires s.currentSearchResult < |s.searchResults|
    ensures PrevSearchResult(NextSearchResult(s)) == GoToSearchResult(s)
    ensures NextSearchResult(PrevSearchResult(s)) == GoToSearchResult(s)
  {
    var m, c := |s.searchResults|, s.currentSearchResult;
    assert s.(currentSearchResult := c) == s;
    assert Pred(Succ(c, m), m) == c && Succ(Pred(c, m), m) == c;
    CycleStep(s, s, c);
    PrevStep(s, NextSearchResult(s), Succ(c, m));
    PrevStep(s, s, c);
    CycleStep(s, PrevSearchResult(s), Pred(c, m));
  }

  /** With no results, moving between results changes nothing. */
  lemma NoResultsNoMove(s: AppState)
    requires s.searchResults == []
    ensures NextSearchResult(s) == s && PrevSearchResult(s) == s && GoToSearchResult(s) == s
  {
  }
}

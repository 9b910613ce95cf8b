/**
 * The viewer object `App`: its fields are updated in place by its
 * methods, each of which is proved to do what the corresponding
 * operation of `AppModel` does to the state.
 */
module Viewer {
  import opened Text
  import opened LineSearch
  import opened AppModel
  import opened KeyDispatch

  /**
   * The hits in the lines `ls` of page `page`, found by scanning the
   * lines in order.
   */
  method ScanLines(page: nat, ls: seq<string>, ql: string) returns (hits: seq<SearchResult>)
    ensures hits == LineHits(page, ls, ql)
  {
    hits := [];
    var i := 0;
    while i < |ls|
      invariant i <= |ls|
      invariant hits == LineHits(page, ls[..i], ql)
    {
      if Contains(Lower(ls[i]), ql) {
        hits := hits + [SearchResult(page, i)];
      }
      assert ls[..i + 1][..i] == ls[..i];
      i := i + 1;
    }
    assert ls[..i] == ls;
  }

  /** The hits in all pages, found by scanning page after page. */
  method ScanPages(pages: seq<string>, ql: string) returns (hits: seq<SearchResult>)
    ensures hits == PageHits(pages, ql)
  {
    hits := [];
    var p := 0;
    while p < |pages|
      invariant p <= |pages|
      invariant hits == PageHits(pages[..p], ql)
    {
      var pageHits := ScanLines(p, Lines(pages[p]), ql);
      hits := hits + pageHits;
      assert pages[..p + 1][..p] == pages[..p];
      p := p + 1;
    }
    assert pages[..p] == pages;
  }

  class App {
    /** The text of each page; never changed after construction. */
    const pages: seq<string>
    var currentPage: nat
    var scrollOffset: nat
    var shouldQuit: bool
    var inputMode: InputMode
    var inputBuffer: string
    var searchQuery: string
    var searchResults: seq<SearchResult>
    var currentSearchResult: nat
    var status: Status

    /** The fields as one value. */
    ghost function State(): AppState
      reads this
    {
      AppState(pages, currentPage, scrollOffset, shouldQuit, inputMode, inputBuffer,
               searchQuery, searchResults, currentSearchResult, status)
    }

    /** `App::new`. */
    constructor(pdfContent: seq<string>)
      ensures State() == Init(pdfContent) && Inv(State())
    {
      pages := pdfContent;
      currentPage := 0;
      scrollOffset := 0;
      shouldQuit := false;
      inputMode := Normal;
      inputBuffer := [];
      searchQuery := [];
      searchResults := [];
      currentSearchResult := 0;
      status := NoMessage;
    }

    method NextPage()
      modifies this
      ensures State() == AppModel.NextPage(old(State()))
    {
      if currentPage < SatSub(|pages|, 1) {
        currentPage := currentPage + 1;
        scrollOffset := 0;
      }
    }

    method PrevPage()
      modifies this
      ensures State() == AppModel.PrevPage(old(State()))
    {
      if currentPage > 0 {
        currentPage := currentPage - 1;
        scrollOffset := 0;
      }
    }

    method ScrollDown()
      modifies this
      ensures State() == AppModel.ScrollDown(old(State()))
    {
      scrollOffset := scrollOffset + 1;
    }

    method ScrollUp()
      modifies this
      ensures State() == AppModel.ScrollUp(old(State()))
    {
      scrollOffset := SatSub(scrollOffset, 1);
    }

    method Quit()
      modifies this
      ensures State() == AppModel.Quit(old(State()))
    {
      shouldQuit := true;
    }

    method JumpToPage(pageNum: nat)
      modifies this
      ensures State() == AppModel.JumpToPage(old(State()), pageNum)
    {
      if pageNum > 0 && pageNum <= |pages| {
        currentPage := pageNum - 1;
        scrollOffset := 0;
        status := JumpedTo(pageNum);
      } else {
        status := InvalidPageNumber(pageNum);
      }
    }

    method StartPageJump()
      modifies this
      ensures State() == AppModel.StartPageJump(old(State()))
    {
      inputMode := PageJump;
      inputBuffer := [];
      status := EnterPageNumber;
    }

    method StartSearch()
      modifies this
      ensures State() == AppModel.StartSearch(old(State()))
    {
      inputMode := Search;
      inputBuffer := [];
      status := EnterSearchTerm;
    }

    method ExecuteSearch()
      modifies this
      ensures State() == AppModel.ExecuteSearch(old(State()))
    {
      if inputBuffer == [] {
        status := EmptyQuery;
        return;
      }
      searchQuery := inputBuffer;
      searchResults := [];
      var queryLower := Lower(searchQuery);
      var hits := ScanPages(pages, queryLower);
      searchResults := searchResults + hits;
      if searchResults == [] {
        status := NoResults(searchQuery);
      } else {
        currentSearchResult := 0;
        GoToSearchResult();
      }
    }

    method GoToSearchResult()
      modifies this
      ensures State() == AppModel.GoToSearchResult(old(State()))
    {
      if currentSearchResult < |searchResults| {
        var result := searchResults[currentSearchResult];
        currentPage := result.page;
        scrollOffset := SatSub(result.line, ResultContext);
        status := ResultOf(currentSearchResult + 1, |searchResults|, searchQuery);
      }
    }

    method NextSearchResult()
      modifies this
      ensures State() == AppModel.NextSearchResult(old(State()))
    {
      if searchResults != [] {
        currentSearchResult := (currentSearchResult + 1) % |searchResults|;
        GoToSearchResult();
      }
    }

    method PrevSearchResult()
      modifies this
      ensures State() == AppModel.PrevSearchResult(old(State()))
    {
      if searchResults != [] {
        currentSearchResult := if currentSearchResult == 0 then |searchResults| - 1
                               else currentSearchResult - 1;
        GoToSearchResult();
      }
    }

    method CancelInput()
      modifies this
      ensures State() == AppModel.CancelInput(old(State()))
    {
      inputMode := Normal;
      inputBuffer := [];
      status := NoMessage;
    }

    method ClearSearch()
      modifies this
      ensures State() == AppModel.ClearSearch(old(State()))
    {
      searchQuery := [];
      searchResults := [];
      currentSearchResult := 0;
      status := SearchCleared;
    }

    method HandleInput(c: char)
      modifies this
      ensures State() == AppModel.HandleInput(old(State()), c)
    {
      match inputMode
      case PageJump =>
        if IsDigit(c) {
          inputBuffer := inputBuffer + [c];
        }
      case Search =>
        inputBuffer := inputBuffer + [c];
      case Normal =>
    }

    method SubmitInput()
      modifies this
      ensures State() == AppModel.SubmitInput(old(State()))
    {
      match inputMode
      case PageJump =>
        match ParseUsize(inputBuffer) {
          case Some(pageNum) =>
            JumpToPage(pageNum);
          case None =>
            status := InvalidPageInput;
        }
        inputMode := Normal;
        inputBuffer := [];
      case Search =>
        ExecuteSearch();
        inputMode := Normal;
        inputBuffer := [];
      case Normal =>
    }

    method Backspace()
      modifies this
      ensures State() == AppModel.Backspace(old(State()))
    {
      if inputBuffer != [] {
        inputBuffer := inputBuffer[..|inputBuffer| - 1];
      }
    }

    /**
     * One key event of the event loop: presses are dispatched by input
     * mode, everything else is ignored. The invariant of the viewer's
     * state survives every event.
     */
    method HandleKey(kind: KeyEventKind, code: KeyCode)
      modifies this
      ensures State() == Step(old(State()), kind, code)
      ensures Inv(old(State())) ==> Inv(State())
    {
      if kind != Press {
        return;
      }
      if inputMode == Normal {
        match code
        case Char('q') => Quit();
        case Esc =>
          if searchQuery != [] {
            ClearSearch();
          } else {
            Quit();
          }
        case Right => NextPage();
        case Char('n') => NextPage();
        case Left => PrevPage();
        case Char('p') => PrevPage();
        case Down => ScrollDown();
        case Char('j') => ScrollDown();
        case Up => ScrollUp();
        case Char('k') => ScrollUp();
        case Char('g') => StartPageJump();
        case Char('/') => StartSearch();
        case Char('F') => NextSearchResult();
        case Char('B') => PrevSearchResult();
        case Home =>
          currentPage := 0;
          scrollOffset := 0;
        case End =>
          currentPage := SatSub(|pages|, 1);
          scrollOffset := 0;
        case _ =>
      } else {
        match code
        case Enter => SubmitInput();
        case Esc => CancelInput();
        case Backspace => Backspace();
        case Char(c) => HandleInput(c);
        case _ =>
      }
    }
  }
}

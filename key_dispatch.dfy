/**
 * The viewer's key bindings (the key handling in `run_app`): which
 * operation each key press triggers in each input mode.
 */
module KeyDispatch {
  import opened Text
  import opened AppModel

  /** The keys the viewer distinguishes; every other key is `Other`. */
  datatype KeyCode =
    | Char(c: char)
    | Esc
    | Enter
    | Backspace
    | Left
    | Right
    | Up
    | Down
    | Home
    | End
    | Other

  /** Only presses are acted on; repeats and releases are ignored. */
  datatype KeyEventKind = Press | Repeat | Release

  /** A key pressed while navigating. */
  function NormalKey(s: AppState, code: KeyCode): (r: AppState)
    ensures Inv(s) ==> Inv(r)
  {
    match code
    case Char('q') => Quit(s)
    case Esc => if s.searchQuery != [] then ClearSearch(s) else Quit(s)
    case Right => NextPage(s)
    case Char('n') => NextPage(s)
    case Left => PrevPage(s)
    case Char('p') => PrevPage(s)
    case Down => ScrollDown(s)
    case Char('j') => ScrollDown(s)
    case Up => ScrollUp(s)
    case Char('k') => ScrollUp(s)
    case Char('g') => StartPageJump(s)
    case Char('/') => StartSearch(s)
    case Char('F') => NextSearchResult(s)
    case Char('B') => PrevSearchResult(s)
    case Home => GoHome(s)
    case End => GoEnd(s)
    case _ => s
  }

  /** A key pressed while a page number or a search term is typed. */
  function InputKey(s: AppState, code: KeyCode): (r: AppState)
    ensures Inv(s) ==> Inv(r)
  {
    match code
    case Enter => SubmitInput(s)
    case Esc => CancelInput(s)
    case Backspace => AppModel.Backspace(s)
    case Char(c) => HandleInput(s, c)
    case _ => s
  }

  /** One key event. */
  function Step(s: AppState, kind: KeyEventKind, code: KeyCode): (r: AppState)
    ensures Inv(s) ==> Inv(r)
  {
    if kind != Press then s
    else if s.inputMode == Normal then NormalKey(s, code)
    else InputKey(s, code)
  }

  /** Repeats and releases change nothing. */
  lemma NonPressIgnored(s: AppState, kind: KeyEventKind, code: KeyCode)
    requires kind != Press
    ensures Step(s, kind, code) == s
  {
  }

  /**
   * Esc while navigating clears an active search and otherwise quits; in
   * the input modes it abandons the input and keeps everything else.
   */
  lemma EscRule(s: AppState)
    ensures s.inputMode == Normal && s.searchQuery != [] ==>
      Step(s, Press, Esc) == s.(searchQuery := [], searchResults := [], currentSearchResult := 0,
                                status := SearchCleared)
    ensures s.inputMode == Normal && s.searchQuery == [] ==> Step(s, Press, Esc) == s.(shouldQuit := true)
    ensures s.inputMode != Normal ==>
      Step(s, Press, Esc) == s.(inputMode := Normal, inputBuffer := [], status := NoMessage)
  {
  }

  /**
   * The viewer is asked to quit by exactly two presses: `q` while
   * navigating, and Esc while navigating with no active search.
   */
  lemma QuitIff(s: AppState, kind: KeyEventKind, code: KeyCode)
    requires !s.shouldQuit
    ensures Step(s, kind, code).shouldQuit <==>
      kind == Press && s.inputMode == Normal && (code == Char('q') || (code == Esc && s.searchQuery == []))
  {
  }

  /**
   * While typing, no key other than Enter moves the view or touches the
   * search: only the input mode, the buffer and the status can change.
   */
  lemma InputKeysKeepView(s: AppState, code: KeyCode)
    requires s.inputMode != Normal && code != Enter
    ensures var r := Step(s, Press, code);
            r == s.(inputMode := r.inputMode, inputBuffer := r.inputBuffer, status := r.status)
  {
  }

  /** Home and End show the first and the last page from the top. */
  lemma HomeEndKeys(s: AppState)
    requires s.inputMode == Normal
    ensures Step(s, Press, Home) == s.(currentPage := 0, scrollOffset := 0)
    ensures Step(s, Press, End) == s.(currentPage := if s.pages == [] then 0 else |s.pages| - 1, scrollOffset := 0)
  {
  }

  /**
   * While a page number is typed, digits are appended to the buffer and
   * every other character is dropped.
   */
  lemma PageJumpTakesDigits(s: AppState, c: char)
    requires s.inputMode == PageJump
    ensures Step(s, Press, Char(c)) == if IsDigit(c) then s.(inputBuffer := s.inputBuffer + [c]) else s
  {
  }
}

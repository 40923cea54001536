/**
 The main window's bookkeeping (MushafViewer): which page is shown, whether
 pages are drawn inverted for dark mode, what the page label and the page spin
 box show, and the two-key settings file that carries the page and the theme
 from one session to the next. Drawing the page itself is not modelled; only
 whether fetching the page succeeds decides what else a render changes.
 */
module MushafViewer {
  import opened Wrappers
  import opened Utils

  /** config.json as load_settings finds it: each of its two keys present or absent. */
  datatype Settings = Settings(lastPage: Option<int>, darkMode: Option<bool>)

  /** The record save_settings writes. */
  function SavedRecord(pageIdx: int, darkMode: bool): Settings {
    Settings(Some(pageIdx), Some(darkMode))
  }

  /** page_info's text before any page has been shown. */
  const PlaceholderLabel: string := "الصفحة: -"
  /** The page spin box's maximum before a document is opened. */
  const InitialSpinMax: int := 604

  datatype ViewState = ViewState(
    pageIdx: int,                 // current_page_idx, 0-based
    darkMode: bool,               // is_dark_mode
    pageCount: nat,               // len(pdf_document); 0 while no document is open
    pageLabel: string,            // page_info's text
    spinMax: int,                 // page_spin's maximum; its minimum is always 1
    spinValue: int,               // page_spin's value
    configFile: Option<Settings>  // config.json; None when it is missing or unreadable
  )

  /** QSpinBox.setValue keeps the value within the box's range [1, max]. */
  function ClampSpin(v: int, max: int): int {
    if v < 1 then 1 else if v > max then max else v
  }

  /** `self.pdf_document[self.current_page_idx]` returns a page rather than raising. */
  predicate PageLoads(s: ViewState) {
    0 <= s.pageIdx < s.pageCount
  }

  /** save_settings */
  function SaveSettings(s: ViewState): ViewState {
    s.(configFile := Some(SavedRecord(s.pageIdx, s.darkMode)))
  }

  /** load_settings: a missing or unreadable file changes nothing; a missing key reads as its default. */
  function LoadSettings(s: ViewState): ViewState {
    match s.configFile
    case None => s
    case Some(f) => s.(pageIdx := f.lastPage.GetOr(0), darkMode := f.darkMode.GetOr(false))
  }

  /**
   render_page: nothing without a document; when fetching the page raises, the
   rest of the method does not run; otherwise the label and the spin box show
   the 1-based page and the settings are saved.
   */
  function RenderPage(s: ViewState): ViewState {
    if s.pageCount == 0 || !PageLoads(s) then s
    else SaveSettings(s.(pageLabel := FormatPageNumber(s.pageIdx + 1, s.pageCount),
                         spinValue := ClampSpin(s.pageIdx + 1, s.spinMax)))
  }

  /** go_to_page: the surah number is ignored and the page is not clamped. */
  function GoToPage(s: ViewState, surahNum: int, pageNum: int): ViewState {
    RenderPage(s.(pageIdx := pageNum - 1))
  }

  /** next_page */
  function NextPage(s: ViewState): ViewState {
    if s.pageCount > 0 && s.pageIdx < s.pageCount - 1 then RenderPage(s.(pageIdx := s.pageIdx + 1)) else s
  }

  /** prev_page */
  function PrevPage(s: ViewState): ViewState {
    if s.pageCount > 0 && s.pageIdx > 0 then RenderPage(s.(pageIdx := s.pageIdx - 1)) else s
  }

  /** on_page_spin_changed, after the user has set the spin box to `value`. */
  function OnPageSpinChanged(s: ViewState, value: int): ViewState {
    RenderPage(s.(spinValue := value, pageIdx := value - 1))
  }

  /** toggle_theme; the button icon and the style sheet are not modelled. */
  function ToggleTheme(s: ViewState): ViewState {
    RenderPage(s.(darkMode := !s.darkMode))
  }

  /** The fields __init__ sets before it loads the settings. */
  function Initial(config: Option<Settings>): ViewState {
    ViewState(0, false, 0, PlaceholderLabel, InitialSpinMax, 1, config)
  }

  /** __init__ up to load_pdf: the defaults, then load_settings. */
  function Startup(config: Option<Settings>): ViewState {
    LoadSettings(Initial(config))
  }

  /**
   load_pdf once the document has opened with `n` pages: the spin box's range
   becomes [1, n] (Qt keeps the maximum at least the minimum), which signals a
   value change when it has to move the value, and then the page is rendered.
   */
  function LoadPdf(s: ViewState, n: nat): ViewState {
    var max := if n < 1 then 1 else n;
    var t := s.(pageCount := n, spinMax := max, spinValue := ClampSpin(s.spinValue, max));
    var u := if t.spinValue != s.spinValue then OnPageSpinChanged(t, t.spinValue) else t;
    RenderPage(u)
  }

  /** A page on screen and everything that follows from it agree. */
  predicate Shown(s: ViewState) {
    && s.pageCount > 0
    && 0 <= s.pageIdx < s.pageCount
    && s.spinMax == s.pageCount
    && s.pageLabel == FormatPageNumber(s.pageIdx + 1, s.pageCount)
    && s.spinValue == s.pageIdx + 1
    && s.configFile == Some(SavedRecord(s.pageIdx, s.darkMode))
  }

  // ---------------------------------------------------------------------------
  // Properties of the operations

  /** A render that fetches its page shows `idx + 1` in the label and the spin box and saves `{idx, dark}`. */
  lemma RenderShowsAndSaves(s: ViewState)
    requires PageLoads(s) && s.spinMax == s.pageCount
    ensures var r := RenderPage(s);
      && r.pageIdx == s.pageIdx && r.darkMode == s.darkMode && r.pageCount == s.pageCount
      && r.pageLabel == FormatPageNumber(s.pageIdx + 1, s.pageCount)
      && r.spinValue == s.pageIdx + 1
      && r.configFile == Some(SavedRecord(s.pageIdx, s.darkMode))
      && Shown(r)
  {
  }

  /** next_page moves exactly one page forward when there is one, and otherwise changes nothing. */
  lemma NextPageStep(s: ViewState)
    ensures s.pageCount > 0 && s.pageIdx < s.pageCount - 1 ==>
      NextPage(s).pageIdx == s.pageIdx + 1 && NextPage(s).darkMode == s.darkMode
    ensures !(s.pageCount > 0 && s.pageIdx < s.pageCount - 1) ==> NextPage(s) == s
  {
  }

  /** prev_page moves exactly one page back when there is one, and otherwise changes nothing. */
  lemma PrevPageStep(s: ViewState)
    ensures s.pageCount > 0 && s.pageIdx > 0 ==>
      PrevPage(s).pageIdx == s.pageIdx - 1 && PrevPage(s).darkMode == s.darkMode
    ensures !(s.pageCount > 0 && s.pageIdx > 0) ==> PrevPage(s) == s
  {
  }

  /** Forward then back from any page but the last restores the whole view, not just the index. */
  lemma NextThenPrevRestores(s: ViewState)
    requires Shown(s) && s.pageIdx < s.pageCount - 1
    ensures PrevPage(NextPage(s)) == s
  {
  }

  /** Back then forward from any page but the first restores the whole view. */
  lemma PrevThenNextRestores(s: ViewState)
    requires Shown(s) && s.pageIdx > 0
    ensures NextPage(PrevPage(s)) == s
  {
  }

  /** go_to_page sets the index to `page - 1` whatever the surah number, with no clamping. */
  lemma GoToPageUnclamped(s: ViewState, surahNum: int, otherNum: int, pageNum: int)
    ensures GoToPage(s, surahNum, pageNum).pageIdx == pageNum - 1
    ensures GoToPage(s, surahNum, pageNum) == GoToPage(s, otherNum, pageNum)
    ensures s.pageCount > 0 && pageNum > s.pageCount ==>
      var r := GoToPage(s, surahNum, pageNum);
      r.pageIdx >= r.pageCount && r.pageLabel == s.pageLabel && r.configFile == s.configFile
  {
  }

  /** Going to the same page twice is going there once. */
  lemma GoToPageIdempotent(s: ViewState, a: int, b: int, pageNum: int)
    ensures GoToPage(GoToPage(s, a, pageNum), b, pageNum) == GoToPage(s, a, pageNum)
  {
  }

  /** A spin box value within [1, page count] selects page `value - 1` and shows it. */
  lemma SpinChangeShowsPage(s: ViewState, value: int)
    requires s.pageCount > 0 && s.spinMax == s.pageCount && 1 <= value <= s.pageCount
    ensures OnPageSpinChanged(s, value).pageIdx == value - 1
    ensures Shown(OnPageSpinChanged(s, value))
  {
  }

  /** Toggling twice restores the theme, and the whole view when a page is shown or none can be. */
  lemma ToggleThemeTwice(s: ViewState)
    ensures ToggleTheme(s).darkMode == !s.darkMode
    ensures ToggleTheme(ToggleTheme(s)).darkMode == s.darkMode
    ensures Shown(s) || !PageLoads(s) ==> ToggleTheme(ToggleTheme(s)) == s
  {
  }

  /** Reading back the record just written changes nothing. */
  lemma SaveThenLoad(s: ViewState)
    ensures LoadSettings(SaveSettings(s)) == SaveSettings(s)
  {
  }

  /** Missing keys read as page index 0 and light mode; a missing file leaves the defaults of __init__. */
  lemma LoadSettingsDefaults(config: Option<Settings>)
    ensures config == Some(Settings(None, None)) || config == None ==>
      Startup(config).pageIdx == 0 && !Startup(config).darkMode
    ensures config.Some? && config.value.lastPage.Some? ==> Startup(config).pageIdx == config.value.lastPage.value
    ensures config.Some? && config.value.darkMode.Some? ==> Startup(config).darkMode == config.value.darkMode.value
  {
  }

  /**
   Quitting while a page is shown and starting again on the same document brings
   back exactly the same view: page, theme, label, spin box and settings file.
   */
  lemma SessionRestores(s: ViewState)
    requires Shown(s)
    ensures LoadPdf(Startup(s.configFile), s.pageCount) == s
  {
  }

  /** The events a user can send the window. */
  datatype Event = Next | Prev | Toggle | Spin(value: int) | SelectSurah(surahNum: int, pageNum: int)

  function Apply(s: ViewState, e: Event): ViewState {
    match e
    case Next => NextPage(s)
    case Prev => PrevPage(s)
    case Toggle => ToggleTheme(s)
    case Spin(v) => OnPageSpinChanged(s, v)
    case SelectSurah(num, page) => GoToPage(s, num, page)
  }

  function Run(s: ViewState, events: seq<Event>): ViewState
    decreases |events|
  {
    if events == [] then s else Run(Apply(s, events[0]), events[1..])
  }

  /** Spin values and surah start pages within [1, n] keep a shown page shown, in particular its index in [0, n). */
  predicate InBounds(e: Event, n: nat) {
    match e
    case Spin(v) => 1 <= v <= n
    case SelectSurah(_, page) => 1 <= page <= n
    case _ => true
  }

  /** One in-bounds event keeps a shown page shown. */
  lemma ApplyKeepsShown(s: ViewState, e: Event)
    requires Shown(s) && InBounds(e, s.pageCount)
    ensures Shown(Apply(s, e)) && Apply(s, e).pageCount == s.pageCount
  {
    if e.Spin? {
      SpinChangeShowsPage(s, e.value);
    }
  }

  lemma {:induction false} SessionKeepsPageShown(s: ViewState, events: seq<Event>)
    requires Shown(s)
    requires forall i :: 0 <= i < |events| ==> InBounds(events[i], s.pageCount)
    ensures Shown(Run(s, events)) && Run(s, events).pageCount == s.pageCount
    decreases |events|
  {
    if events != [] {
      ApplyKeepsShown(s, events[0]);
      SessionKeepsPageShown(Apply(s, events[0]), events[1..]);
    }
  }

  /** Page turns alone, from any index in [0, n), keep the index in [0, n). */
  lemma {:induction false} PageTurnsStayInRange(s: ViewState, events: seq<Event>)
    requires 0 <= s.pageIdx < s.pageCount
    requires forall i :: 0 <= i < |events| ==> events[i] == Next || events[i] == Prev
    ensures 0 <= Run(s, events).pageIdx < s.pageCount && Run(s, events).pageCount == s.pageCount
    decreases |events|
  {
    if events != [] {
      PageTurnsStayInRange(Apply(s, events[0]), events[1..]);
    }
  }

  // ---------------------------------------------------------------------------
  // The window itself

  class Viewer {
    var currentPageIdx: int
    var isDarkMode: bool
    var pageCount: nat
    var pageInfo: string
    var spinMax: int
    var spinValue: int
    var configFile: Option<Settings>

    function State(): ViewState
      reads this
    {
      ViewState(currentPageIdx, isDarkMode, pageCount, pageInfo, spinMax, spinValue, configFile)
    }

    /** __init__ up to load_pdf, with the settings file as the previous session left it. */
    constructor (config: Option<Settings>)
      ensures State() == Startup(config)
    {
      currentPageIdx, isDarkMode, pageCount := 0, false, 0;
      pageInfo, spinMax, spinValue := PlaceholderLabel, InitialSpinMax, 1;
      configFile := config;
      new;
      LoadSettingsMethod();
    }

    method LoadSettingsMethod()
      modifies this
      ensures State() == LoadSettings(old(State()))
    {
      if configFile.Some? {
        currentPageIdx := configFile.value.lastPage.GetOr(0);
        isDarkMode := configFile.value.darkMode.GetOr(false);
      }
    }

    method SaveSettingsMethod()
      modifies this
      ensures State() == SaveSettings(old(State()))
    {
      configFile := Some(SavedRecord(currentPageIdx, isDarkMode));
    }

    method Render()
      modifies this
      ensures State() == RenderPage(old(State()))
    {
      if pageCount == 0 {
        return;
      }
      if !(0 <= currentPageIdx < pageCount) {
        return;
      }
      pageInfo := FormatPageNumber(currentPageIdx + 1, pageCount);
      spinValue := ClampSpin(currentPageIdx + 1, spinMax);
      SaveSettingsMethod();
    }

    method OpenDocument(n: nat)
      modifies this
      ensures State() == LoadPdf(old(State()), n)
    {
      var before := spinValue;
      pageCount := n;
      spinMax := if n < 1 then 1 else n;
      spinValue := ClampSpin(spinValue, spinMax);
      if spinValue != before {
        OnPageSpinChangedMethod(spinValue);
      }
      Render();
    }

    method GoToPageMethod(surahNum: int, pageNum: int)
      modifies this
      ensures State() == GoToPage(old(State()), surahNum, pageNum)
    {
      currentPageIdx := pageNum - 1;
      Render();
    }

    method NextPageMethod()
      modifies this
      ensures State() == NextPage(old(State()))
    {
      if pageCount > 0 && currentPageIdx < pageCount - 1 {
        currentPageIdx := currentPageIdx + 1;
        Render();
      }
    }

    method PrevPageMethod()
      modifies this
      ensures State() == PrevPage(old(State()))
    {
      if pageCount > 0 && currentPageIdx > 0 {
        currentPageIdx := currentPageIdx - 1;
        Render();
      }
    }

    method OnPageSpinChangedMethod(value: int)
      modifies this
      ensures State() == OnPageSpinChanged(old(State()), value)
    {
      spinValue := value;
      currentPageIdx := value - 1;
      Render();
    }

    method ToggleThemeMethod()
      modifies this
      ensures State() == ToggleTheme(old(State()))
    {
      isDarkMode := !isDarkMode;
      Render();
    }
  }
}

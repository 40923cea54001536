# QuranUnix reader core in Dafny

QuranUnix is a desktop reader for the Madinah Mushaf: it shows one PDF page at a
time, with a side list of the 114 surahs, a search box and a dark mode. This
project models the logic underneath the widgets:

- `utils.dfy` (module `Utils`) covers the helpers in `utils.py`:
  - the two surah lookups by page: the title from a reverse scan and the table index from a forward scan;
  - the conversion of Arabic-Indic digits to ASCII digits;
  - the normalisation of Arabic text for searching;
  - the page label.
- `strings.dfy` (module `PyStrings`) states once the Python `str` builtins these helpers use:
  - `replace` with a one-character pattern, `strip`, ASCII `lower`;
  - the `in` substring test;
  - `str()` of an integer, with its read-back.
- `keyboard.dfy` (module `ArabicLineEdit`) covers the search box's key handling. Latin keys are remapped through the QWERTY-to-Arabic table `EN_TO_AR_MAP`. When Ctrl or Alt is held, the key is passed through to `QLineEdit`.
- `surah_list.dfy` (module `SurahListWidget`) covers the surah list and its live search. The search sets a hidden flag on each row in place.
- `viewer.dfy` (module `MushafViewer`) covers the main window's bookkeeping:
  - the current page index and the dark-mode flag;
  - the page label and the page spin box;
  - the settings file (`last_page`, `dark_mode`);
  - what each page turn, spin-box change, surah selection, theme toggle, start-up and document load does to these.

  The state is a `ViewState` value with one function per operation. The class
  `Viewer` holds the same fields, and each of its methods is proved equal to
  its function.

The surah table comes from `config.py`, which is not part of this model. It is a parameter: a sequence of `Surah(num, name, page, verses)` records. Where a property needs it, the table's start pages are required to be strictly increasing.

Points where the code behaves differently from what one might expect, modelled as written:
- `go_to_page` does not clamp the page. An index past the document makes the page fetch raise, so the label, the spin box and the settings file keep their old values.
- The surah search matches the query as a substring of the row's 1-based position written in decimal. So "2" keeps rows 2, 12, 20–29 and so on visible.
- `get_surah_by_page` returns the empty string, not the first surah, for a page below every start page. `get_surah_index_by_page` falls back to index 0 there.

## Model

| member | source | states |
|---|---|---|
| PyStrings.Strip | utils.py:165 | `str.strip()`: the result has no whitespace at either end and takes its characters from the input. An all-whitespace input gives "". An input without edge whitespace is returned unchanged. |
| PyStrings.Lower | main.py:178 | `str.lower()` on ASCII letters: the length is kept and each character is lower-cased independently. |
| PyStrings.StripLower | main.py:178 | Stripping and lower-casing commute, so `strip().lower()` and `lower().strip()` agree. |
| PyStrings.ReplaceChar | utils.py:139 | `str.replace` with a one-character pattern: every character of the result comes from the replacement or is an input character other than the pattern. |
| PyStrings.ReplaceCharAppend | utils.py:139 | Replacing over a concatenation is the concatenation of the replacements. |
| PyStrings.ReplaceCharByOne | utils.py:160-163 | Replacing a character by one character keeps the length and rewrites exactly the positions holding the pattern. |
| PyStrings.Contains | main.py:181 | Python's `needle in s` for strings: the needle is a prefix of `s` or occurs in `s` after its first character. |
| PyStrings.ContainsSlice | main.py:181 | `needle in s` holds whenever `needle` occurs at some position of `s`. |
| PyStrings.ContainsHasSlice | main.py:181 | Conversely, when `needle in s` holds, the lemma returns a position of `s` where `needle` occurs. |
| PyStrings.ContainsIff | main.py:181 | `needle in s` holds exactly when `needle` occurs at some position of `s`; it fails exactly when `needle` occurs nowhere. |
| PyStrings.NatToDecimal | main.py:181 | `str(n)` for n ≥ 0 is a non-empty string of decimal digits, with a leading zero only for 0. |
| PyStrings.DecimalRoundTrip | main.py:181 | Reading back `str(n)` gives `n`. |
| PyStrings.IntToDecimal | utils.py:74 | `str(i)` for any integer is non-empty and contains no space. |
| PyStrings.IntDecimalRoundTrip | utils.py:74 | Reading back `str(i)`, with its minus sign, gives `i`. |
| Utils.SurahTitle | utils.py:101-104 | What `get_surah_by_page` returns: "سورة " followed by the name of the entry LastStartAtOrBelow finds, or "" when there is none. |
| Utils.LastStartAtOrBelow | utils.py:101-104 | The entry the reverse scan stops at: the last one in table order whose start page is at or below the page. There is none exactly when every start page is above the page. |
| Utils.GetSurahByPage | utils.py:90-104 | The reverse loop returns "سورة " + that entry's name. It returns "" exactly when every start page is above the page. |
| Utils.ScanFrom | utils.py:118-122 | The forward scan returns the first entry whose range `[start_i, start_{i+1})` holds the page (the last entry's range is unbounded), or 0 when no entry does. |
| Utils.SurahIndex | utils.py:118-122 | On a non-empty table the index is within the table. |
| Utils.GetSurahIndexByPage | utils.py:107-122 | The forward loop returns that index. It lies within a non-empty table and is 0 when no range holds the page. |
| Utils.CoversIsLastStart | utils.py:118-121 | On an increasing table, entry `i`'s range holds the page exactly when `i` is the last entry starting at or below the page. |
| Utils.IndexAgreesWithTitle | utils.py:101-121 | From the first start page on, the index is the greatest entry starting at or below the page, and the title names that same entry. |
| Utils.BeforeFirstStart | utils.py:101-122 | Below the first start page the title is "" and the index is 0. |
| Utils.TitleFromPageOne | utils.py:101-103 | When the table starts on page 1, every page from 1 on has a non-empty title. |
| Utils.IndexMonotone | utils.py:118-121 | On an increasing table the index never decreases as the page grows. |
| Utils.WesternDigits | utils.py:135-141 | The digit conversion keeps the length. Its output has no Arabic-Indic digit, every other character is unchanged, and each converted digit becomes an ASCII digit. |
| Utils.WesternDigitsIdempotent | utils.py:135-141 | Converting twice is converting once. |
| Utils.DigitTables | utils.py:135-136 | The two ten-character tables pair U+0660+k with '0'+k. |
| Utils.ArabicToEnglishNumbers | utils.py:125-141 | The loop of ten `replace` calls computes the digit conversion. |
| Utils.FoldLetters | utils.py:160-163 | The letter folding acts on each character: أ, إ and آ become ا, ة becomes ه, and everything else is kept. |
| Utils.RemoveChars | utils.py:155-157 | Removing marks leaves only input characters that are not marks. |
| Utils.RemoveOneMore | utils.py:156-157 | Each further `replace(c, "")` removes one more mark. |
| Utils.RemoveNothing | utils.py:155-157 | Removing no marks leaves the text as it was. |
| Utils.Normalized | utils.py:155-165 | What `normalize_arabic_text` returns: the eight marks removed, the letters folded, then `lower()` and `strip()`, in that order. |
| Utils.NormalizeArabicText | utils.py:144-165 | The method performs the eight removals, the four foldings, `lower` and `strip`, and computes the normalised text. |
| Utils.NormalizedIsClean | utils.py:155-165 | Normalised text has no tashkeel, no hamza or madda alef, no ta marbuta and no edge whitespace. |
| Utils.NormalizedIdempotent | utils.py:144-165 | Normalising twice is normalising once. |
| Utils.CleanIsFixed | utils.py:155-165 | Text with no tashkeel, no folded letter, no ASCII capital and no edge whitespace is returned unchanged. |
| Utils.TashkeelTable | utils.py:155 | The eight-mark string holds exactly U+064B to U+0652. |
| Utils.FormatPageNumber | utils.py:63-74 | The label "الصفحة: " + `str(page)` + " / " + `str(total)`. |
| Utils.FormatPageNumberInjective | utils.py:63-74 | The page label "الصفحة: p / t" determines both `p` and `t`. |
| Utils.SplitAtSeparator | utils.py:74 | A label splits uniquely at its " / " separator when the part before it has no space. |
| ArabicLineEdit.ArabicKey | main.py:56-63 | `EN_TO_AR_MAP` as a function of the key character: each of the 66 keys maps to its entry, and any other character maps to None. |
| ArabicLineEdit.InTable | main.py:76 | `char in EN_TO_AR_MAP`: the event text is a single character that is a key of the table. |
| ArabicLineEdit.KeyPress | main.py:71-82 | keyPressEvent: with Ctrl or Alt held, the event is passed on; otherwise a table key inserts its entry and any other text is passed on. |
| ArabicLineEdit.KeyTableShape | main.py:56-63 | Every table entry inserts one or two characters. 'b', 'T', 'G' and 'B' insert the lam-alef pairs. |
| ArabicLineEdit.KeyPressReplacesTableKeys | main.py:71-82 | With Ctrl or Alt held, the event is passed on. Otherwise the box inserts text itself exactly when the event text is a single key in the table, and then it inserts that key's mapped text. |
| ArabicLineEdit.KeyText | main.py:76-82 | What one unmodified press leaves in the box: a table key's entry, or the key itself when it is not in the table. Either way it is one or two characters. |
| ArabicLineEdit.KeyTextIsKeyPress | main.py:71-82 | KeyText agrees with keyPressEvent: for a table key the box inserts the entry itself, and any other key is passed on to QLineEdit. |
| ArabicLineEdit.InsertAll | main.py:79 | What a run of key presses leaves in an empty box when each press inserts its text at the end. |
| ArabicLineEdit.InsertAllSnoc | main.py:79 | One more press appends its own text. |
| ArabicLineEdit.InsertAllAppend | main.py:79 | Two runs of presses leave their two texts one after the other, whatever each press inserts. |
| ArabicLineEdit.InsertAllLength | main.py:79 | When every press inserts one or two characters, a run of `n` presses inserts between `n` and `2n`. |
| ArabicLineEdit.Typed | main.py:71-82 | A run of unmodified key presses types between one and two characters per key. |
| ArabicLineEdit.TypedSnoc | main.py:71-82 | Each further key appends exactly its own text to the text typed so far. |
| ArabicLineEdit.TypedAppend | main.py:71-82 | Typing two runs of keys gives the two typed texts one after the other. |
| ArabicLineEdit.TypedFatiha | main.py:56-63 | Typing "hgthjpm" on the Latin layout gives الفاتحة. |
| ArabicLineEdit.TypedLamAlef | main.py:56-63 | The one key "b" and the two keys "gh" both type لا. |
| SurahListWidget.SearchKey | main.py:178 | The query as search_surah compares it: `text.strip().lower()`. |
| SurahListWidget.RowMatches | main.py:180-181 | A row matches when the key is in its lower-cased name or in its 1-based position written in decimal. |
| SurahListWidget.HiddenFlags | main.py:179-185 | Row `i` is hidden exactly when the search key occurs neither in the lower-cased name nor in the decimal `i+1`. There is one flag per row. |
| SurahListWidget.SurahList.constructor | main.py:165-171 | One visible row per surah, in table order. |
| SurahListWidget.SurahList.SearchSurah | main.py:177-185 | Every row's hidden flag ends up as the search result for the stripped, lower-cased query. Rows are never added, removed or reordered. |
| SurahListWidget.SurahList.FilterRows | main.py:179-185 | The loop over the rows sets each hidden flag in place to the result for the search key. |
| SurahListWidget.BlankQueryShowsAll | main.py:178-185 | An empty or all-whitespace query unhides every row. |
| SurahListWidget.PositionMatchIsSubstring | main.py:181 | The query "2" keeps rows 2 and 12 visible whatever their names. |
| SurahListWidget.RowHiddenIff | main.py:179-185 | A row is hidden exactly when the key occurs at no position of its lower-cased name and at no position of its decimal position. |
| SurahListWidget.QueryHidesNonMatchingRow | main.py:179-185 | The query "3" hides row 2 whenever that row's name has no '3' in it. |
| SurahListWidget.SearchKeyIgnoresCase | main.py:178 | Lower-casing the query first does not change the search key. |
| SurahListWidget.SearchIgnoresQueryCase | main.py:177-185 | The search result does not depend on the case of the query. |
| MushafViewer.SaveSettings | main.py:445-453 | save_settings: the settings file becomes `{last_page: idx, dark_mode: dark}`; nothing else changes. |
| MushafViewer.LoadSettings | main.py:435-443 | load_settings: with no readable file nothing changes; otherwise the index and dark mode are read from the file, defaulting to 0 and light mode. |
| MushafViewer.RenderPage | main.py:330-349 | render_page: no change without a document or when the page fetch raises; otherwise the label and the spin box (clamped to its range) show `idx+1` and the settings are saved. |
| MushafViewer.GoToPage | main.py:351-353 | go_to_page: the index becomes `page-1` and the page is rendered; the surah number is not used. |
| MushafViewer.NextPage | main.py:355-358 | next_page: with a document open and a later page, one page forward and render; otherwise no change. |
| MushafViewer.PrevPage | main.py:360-363 | prev_page: with a document open and an earlier page, one page back and render; otherwise no change. |
| MushafViewer.OnPageSpinChanged | main.py:365-367 | on_page_spin_changed: the spin box holds the value, the index becomes `value-1` and the page is rendered. |
| MushafViewer.ToggleTheme | main.py:378-382 | toggle_theme: dark mode flips and the page is rendered again. |
| MushafViewer.Startup | main.py:193-206 | `__init__` up to load_pdf: index 0, light mode, no document, the placeholder label, spin range 1 to 604 with value 1, then load_settings. |
| MushafViewer.LoadPdf | main.py:318-328 | load_pdf once the document has opened: the spin range becomes 1 to `n` (at least 1), a value moved by the new range signals on_page_spin_changed, then the page is rendered. |
| MushafViewer.RenderShowsAndSaves | main.py:330-349 | When the page is fetched, the label shows `idx+1` of the page count and the spin box shows `idx+1`. The settings file then holds `{last_page: idx, dark_mode}` and the view is consistent. |
| MushafViewer.NextPageStep | main.py:355-358 | `next_page` adds exactly 1 to the index when a document is open and the page is not the last. Otherwise it changes nothing. |
| MushafViewer.PrevPageStep | main.py:360-363 | `prev_page` subtracts exactly 1 from the index when a document is open and the page is not the first. Otherwise it changes nothing. |
| MushafViewer.NextThenPrevRestores | main.py:355-363 | From a shown page other than the last, next then previous restores the whole view. |
| MushafViewer.PrevThenNextRestores | main.py:355-363 | From a shown page other than the first, previous then next restores the whole view. |
| MushafViewer.PageTurnsStayInRange | main.py:355-363 | Starting from an index in `[0, n)`, any run of page turns keeps the index in `[0, n)`. |
| MushafViewer.GoToPageUnclamped | main.py:351-353 | `go_to_page` sets the index to `page-1` whatever the surah number, without clamping. Past the last page, the label and the settings file are left as they were. |
| MushafViewer.GoToPageIdempotent | main.py:351-353 | Going to the same page twice is going there once. |
| MushafViewer.SpinChangeShowsPage | main.py:365-367 | A spin value in `[1, page count]` selects and shows page index `value-1`. |
| MushafViewer.ToggleThemeTwice | main.py:378-382 | A toggle negates dark mode. Two toggles restore it, and restore the whole view when a page is shown or none can be fetched. |
| MushafViewer.SaveThenLoad | main.py:435-453 | Loading the record just saved changes nothing. |
| MushafViewer.LoadSettingsDefaults | main.py:435-443 | A missing key reads as index 0 or light mode, a missing file keeps those defaults, and a present key is read as stored. |
| MushafViewer.SessionRestores | main.py:193-208 | Quitting with a page shown and starting again on the same document gives back exactly the same view. |
| MushafViewer.ApplyKeepsShown | main.py:351-382 | One user event with its spin value or selected page in `[1, page count]` keeps a shown page shown. |
| MushafViewer.SessionKeepsPageShown | main.py:351-382 | Any run of user events with spin values and selected pages in `[1, page count]` keeps a shown page shown. |
| MushafViewer.Viewer.constructor | main.py:193-206 | `__init__` sets the defaults and then loads the settings. |
| MushafViewer.Viewer.LoadSettingsMethod | main.py:435-443 | Updates the fields as `load_settings` does. |
| MushafViewer.Viewer.SaveSettingsMethod | main.py:445-453 | Writes the record as `save_settings` does. |
| MushafViewer.Viewer.Render | main.py:330-349 | Updates the fields as `render_page` does. |
| MushafViewer.Viewer.OpenDocument | main.py:324-326 | Sets the spin range to `[1, n]`, reacts to a clamped value, and renders. |
| MushafViewer.Viewer.GoToPageMethod | main.py:351-353 | Updates the fields as `go_to_page` does. |
| MushafViewer.Viewer.NextPageMethod | main.py:355-358 | Updates the fields as `next_page` does. |
| MushafViewer.Viewer.PrevPageMethod | main.py:360-363 | Updates the fields as `prev_page` does. |
| MushafViewer.Viewer.OnPageSpinChangedMethod | main.py:365-367 | Updates the fields as `on_page_spin_changed` does. |
| MushafViewer.Viewer.ToggleThemeMethod | main.py:378-382 | Updates the fields as `toggle_theme` does. |

## Left out

- Drawing the page is not modelled: the pixmap, the inversion of pixels for dark mode, the zoom, the window, its style sheets, icons, shortcuts and message boxes. Only whether the page fetch succeeds matters to the state.
- `load_pdf`'s file-existence test and the opening of the PDF are file I/O. The model starts once a document with a given page count is open.
- The page fetch succeeds exactly when `0 <= idx < page count`. PyMuPDF's own handling of negative page numbers is not modelled. Negative indexes only arise from a settings file or a page number below 1, neither of which the reader writes itself.
- The model keeps the state as it stands when `render_page` raises. What PyQt does afterwards with an exception escaping a slot is not modelled.
- Reading and writing `config.json` are I/O. Their outcome is a parameter: `None` stands for a missing, unreadable or malformed file. A failed write is not modelled (the model assumes every save succeeds). Values of the wrong JSON type are not modelled.
- `str.lower()` is modelled for ASCII letters only. Arabic script has no case, and the surah names are Arabic.
- `QLineEdit.insert` is modelled as insertion at the end of the text (`ArabicLineEdit.Typed`). The cursor position and the selection are not modelled.
- ArabicLineEdit.Typed: a key that keyPressEvent passes on is modelled as QLineEdit inserting the key's own text, which is what QLineEdit does for a printable character. Editing keys (Backspace, Delete, the arrows) and shortcuts are not modelled.
- `config.py` (the surah table, themes, shortcuts, application name) is not part of this model. `_setup_items` unpacks three fields per surah, while `utils.py` unpacks four. The model uses the four-field record of `utils.py`.
- `format_zoom_percent`, the path and config-directory helpers and `is_dark_mode_preferred` in `utils.py` are floating point or environment probing. They are not modelled.

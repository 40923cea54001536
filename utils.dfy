/**
 The reader's helper functions: which surah a page belongs to, Arabic-Indic
 digits to ASCII digits, the search normalisation of Arabic text, and the
 page label.
 */
module Utils {
  import opened Wrappers
  import opened PyStrings

  /** One row of the surah table: number, name, first page, verse count. */
  datatype Surah = Surah(num: int, name: string, page: int, verses: int)

  /** The shape the table is meant to have: start pages strictly increase along it. */
  predicate StartPagesIncreasing(surahs: seq<Surah>) {
    forall i, j :: 0 <= i < j < |surahs| ==> surahs[i].page < surahs[j].page
  }

  // ---------------------------------------------------------------------------
  // get_surah_by_page

  const SurahPrefix: string := "سورة "

  /** The last entry, in table order, whose start page is at or below `pageNum`. */
  function LastStartAtOrBelow(surahs: seq<Surah>, pageNum: int): (r: Option<nat>)
    ensures r.Some? ==> r.value < |surahs| && surahs[r.value].page <= pageNum
    ensures r.Some? ==> forall j :: r.value < j < |surahs| ==> pageNum < surahs[j].page
    ensures r.None? <==> forall j :: 0 <= j < |surahs| ==> pageNum < surahs[j].page
  {
    if surahs == [] then None
    else if surahs[|surahs| - 1].page <= pageNum then Some(|surahs| - 1)
    else LastStartAtOrBelow(surahs[..|surahs| - 1], pageNum)
  }

  /** What get_surah_by_page returns: the titled name of that entry, or "" when there is none. */
  function SurahTitle(surahs: seq<Surah>, pageNum: int): string
  {
    match LastStartAtOrBelow(surahs, pageNum)
    case Some(i) => SurahPrefix + surahs[i].name
    case None => ""
  }

  /** The reverse scan of get_surah_by_page. */
  method GetSurahByPage(pageNum: int, surahs: seq<Surah>) returns (title: string)
    ensures title == SurahTitle(surahs, pageNum)
    ensures title == "" <==> forall j :: 0 <= j < |surahs| ==> pageNum < surahs[j].page
  {
    var k := |surahs|;
    while k > 0
      invariant 0 <= k <= |surahs|
      invariant forall j :: k <= j < |surahs| ==> pageNum < surahs[j].page
    {
      k := k - 1;
      if pageNum >= surahs[k].page {
        assert LastStartAtOrBelow(surahs, pageNum) == Some(k);
        return SurahPrefix + surahs[k].name;
      }
    }
    return "";
  }

  // ---------------------------------------------------------------------------
  // get_surah_index_by_page

  /** Entry `i`'s page range `[start_i, start_{i+1})` holds `pageNum`; the last entry's range is unbounded. */
  predicate Covers(surahs: seq<Surah>, i: nat, pageNum: int)
    requires i < |surahs|
  {
    surahs[i].page <= pageNum && (i == |surahs| - 1 || pageNum < surahs[i + 1].page)
  }

  /** The forward scan from position `from`: the first covering entry, or 0 when none covers. */
  function ScanFrom(surahs: seq<Surah>, pageNum: int, from: nat): (r: nat)
    requires from <= |surahs|
    ensures (exists j :: from <= j < |surahs| && Covers(surahs, j, pageNum)) ==>
      from <= r < |surahs| && Covers(surahs, r, pageNum)
      && forall j :: from <= j < r ==> !Covers(surahs, j, pageNum)
    ensures (forall j :: from <= j < |surahs| ==> !Covers(surahs, j, pageNum)) ==> r == 0
    decreases |surahs| - from
  {
    if from == |surahs| then 0
    else if Covers(surahs, from, pageNum) then from
    else ScanFrom(surahs, pageNum, from + 1)
  }

  /** What get_surah_index_by_page returns. */
  function SurahIndex(surahs: seq<Surah>, pageNum: int): (r: nat)
    ensures |surahs| > 0 ==> r < |surahs|
  {
    ScanFrom(surahs, pageNum, 0)
  }

  /** The forward scan of get_surah_index_by_page. */
  method GetSurahIndexByPage(pageNum: int, surahs: seq<Surah>) returns (index: nat)
    ensures index == SurahIndex(surahs, pageNum)
    ensures |surahs| > 0 ==> index < |surahs|
    ensures (forall j :: 0 <= j < |surahs| ==> !Covers(surahs, j, pageNum)) ==> index == 0
  {
    var i := 0;
    while i < |surahs|
      invariant 0 <= i <= |surahs|
      invariant forall j :: 0 <= j < i ==> !Covers(surahs, j, pageNum)
    {
      if pageNum >= surahs[i].page {
        if i == |surahs| - 1 || pageNum < surahs[i + 1].page {
          assert Covers(surahs, i, pageNum);
          return i;
        }
      }
      i := i + 1;
    }
    return 0;
  }

  /** On an increasing table an entry covers a page exactly when it is the last one starting at or below it. */
  lemma CoversIsLastStart(surahs: seq<Surah>, i: nat, pageNum: int)
    requires StartPagesIncreasing(surahs) && i < |surahs|
    ensures Covers(surahs, i, pageNum) <==> LastStartAtOrBelow(surahs, pageNum) == Some(i)
  {
    var last := LastStartAtOrBelow(surahs, pageNum);
    if last == Some(i) && i < |surahs| - 1 {
      assert pageNum < surahs[i + 1].page;
    }
  }

  /**
   On an increasing table whose first start page is reached, the forward index is the
   greatest entry starting at or below the page, and the reverse scan names that same entry.
   */
  lemma IndexAgreesWithTitle(surahs: seq<Surah>, pageNum: int)
    requires StartPagesIncreasing(surahs) && |surahs| > 0 && surahs[0].page <= pageNum
    ensures var i := SurahIndex(surahs, pageNum);
      && surahs[i].page <= pageNum
      && (i == |surahs| - 1 || pageNum < surahs[i + 1].page)
      && (forall j :: i < j < |surahs| ==> pageNum < surahs[j].page)
      && SurahTitle(surahs, pageNum) == SurahPrefix + surahs[i].name
  {
    var last := LastStartAtOrBelow(surahs, pageNum);
    assert last.Some?;
    CoversIsLastStart(surahs, last.value, pageNum);
    var i := SurahIndex(surahs, pageNum);
    CoversIsLastStart(surahs, i, pageNum);
  }

  /** Below the first start page the title is "" and the index falls back to 0. */
  lemma BeforeFirstStart(surahs: seq<Surah>, pageNum: int)
    requires StartPagesIncreasing(surahs) && |surahs| > 0 && pageNum < surahs[0].page
    ensures SurahTitle(surahs, pageNum) == "" && SurahIndex(surahs, pageNum) == 0
  {
    assert forall j :: 0 <= j < |surahs| ==> pageNum < surahs[j].page;
  }

  /** With the table starting on page 1, every page from 1 on has a non-empty title. */
  lemma TitleFromPageOne(surahs: seq<Surah>, pageNum: int)
    requires |surahs| > 0 && surahs[0].page == 1 && pageNum >= 1
    ensures SurahTitle(surahs, pageNum) == SurahPrefix + surahs[LastStartAtOrBelow(surahs, pageNum).value].name
  {
    assert !(pageNum < surahs[0].page);
  }

  /** Turning pages forward never moves the surah index backwards. */
  lemma IndexMonotone(surahs: seq<Surah>, p1: int, p2: int)
    requires StartPagesIncreasing(surahs) && p1 <= p2
    ensures SurahIndex(surahs, p1) <= SurahIndex(surahs, p2)
  {
    if |surahs| > 0 && surahs[0].page <= p1 {
      IndexAgreesWithTitle(surahs, p1);
      IndexAgreesWithTitle(surahs, p2);
    }
  }

  // ---------------------------------------------------------------------------
  // arabic_to_english_numbers

  const ArabicDigits: string := "\U{0660}\U{0661}\U{0662}\U{0663}\U{0664}\U{0665}\U{0666}\U{0667}\U{0668}\U{0669}"
  const EnglishDigits: string := "0123456789"

  /** U+0660 ARABIC-INDIC DIGIT ZERO through U+0669 ARABIC-INDIC DIGIT NINE. */
  predicate IsArabicDigit(c: char) {
    '\U{0660}' <= c <= '\U{0669}'
  }

  /** The ASCII digit of the same value for an Arabic-Indic digit; any other character as it is. */
  function WesternDigit(c: char): char {
    if IsArabicDigit(c) then (c as int - 0x0660 + '0' as int) as char else c
  }

  /** What arabic_to_english_numbers returns, stated character by character. */
  function WesternDigits(s: string): (r: string)
    ensures |r| == |s|
    ensures forall i :: 0 <= i < |r| ==> !IsArabicDigit(r[i])
    ensures forall i :: 0 <= i < |s| && !IsArabicDigit(s[i]) ==> r[i] == s[i]
    ensures forall i :: 0 <= i < |s| && IsArabicDigit(s[i]) ==> IsDigit(r[i])
  {
    seq(|s|, i requires 0 <= i < |s| => WesternDigit(s[i]))
  }

  lemma WesternDigitsIdempotent(s: string)
    ensures WesternDigits(WesternDigits(s)) == WesternDigits(s)
  {
  }

  lemma DigitTables(k: nat)
    requires k < 10
    ensures |ArabicDigits| == 10 && |EnglishDigits| == 10
    ensures ArabicDigits[k] as int == 0x0660 + k && EnglishDigits[k] as int == '0' as int + k
  {
  }

  /** The loop of arabic_to_english_numbers: one `replace` per digit pair. */
  method ArabicToEnglishNumbers(text: string) returns (r: string)
    ensures r == WesternDigits(text)
  {
    r := text;
    var k := 0;
    while k < 10
      invariant 0 <= k <= 10 && |r| == |text|
      invariant forall i :: 0 <= i < |r| ==>
        r[i] == (if '\U{0660}' as int <= text[i] as int < 0x0660 + k then WesternDigit(text[i]) else text[i])
    {
      DigitTables(k);
      ReplaceCharByOne(r, ArabicDigits[k], EnglishDigits[k]);
      r := ReplaceChar(r, ArabicDigits[k], [EnglishDigits[k]]);
      k := k + 1;
    }
  }

  // ---------------------------------------------------------------------------
  // normalize_arabic_text

  /** The eight marks removed: fathatan, dammatan, kasratan, fatha, damma, kasra, shadda, sukun. */
  const Tashkeel: string := "\U{064B}\U{064C}\U{064D}\U{064E}\U{064F}\U{0650}\U{0651}\U{0652}"

  predicate IsTashkeel(c: char) {
    '\U{064B}' <= c <= '\U{0652}'
  }

  const AlefHamzaAbove: char := 'أ'
  const AlefHamzaBelow: char := 'إ'
  const AlefMadda: char := 'آ'
  const Alef: char := 'ا'
  const TaMarbuta: char := 'ة'
  const Ha: char := 'ه'

  /** The letter folding: the three hamza/madda alef forms to bare alef, ta marbuta to ha. */
  function FoldLetter(c: char): char {
    if c == AlefHamzaAbove || c == AlefHamzaBelow || c == AlefMadda then Alef
    else if c == TaMarbuta then Ha
    else c
  }

  predicate IsFoldedAway(c: char) {
    c == AlefHamzaAbove || c == AlefHamzaBelow || c == AlefMadda || c == TaMarbuta
  }

  function FoldLetters(s: string): (r: string)
    ensures |r| == |s|
    ensures forall i :: 0 <= i < |s| ==> r[i] == FoldLetter(s[i])
  {
    seq(|s|, i requires 0 <= i < |s| => FoldLetter(s[i]))
  }

  /** `s` with every character that occurs in `marks` removed. */
  function RemoveChars(s: string, marks: string): (r: string)
    ensures forall x :: x in r ==> x in s && x !in marks
  {
    if s == [] then [] else (if s[0] in marks then [] else [s[0]]) + RemoveChars(s[1..], marks)
  }

  /** One more `replace(c, "")` removes one more character. */
  lemma {:induction false} RemoveOneMore(s: string, marks: string, c: char)
    ensures ReplaceChar(RemoveChars(s, marks), c, "") == RemoveChars(s, marks + [c])
  {
    if s != [] {
      var head := if s[0] in marks then [] else [s[0]];
      ReplaceCharAppend(head, RemoveChars(s[1..], marks), c, "");
      RemoveOneMore(s[1..], marks, c);
      if s[0] !in marks {
        assert ReplaceChar(head, c, "") == ReplaceChar([], c, "") + (if s[0] == c then "" else [s[0]]);
      }
    }
  }

  /** What normalize_arabic_text returns. */
  function Normalized(s: string): string {
    Strip(Lower(FoldLetters(RemoveChars(s, Tashkeel))))
  }

  /** The steps of normalize_arabic_text: eight removals, four foldings, then lower and strip. */
  method NormalizeArabicText(text: string) returns (r: string)
    ensures r == Normalized(text)
  {
    r := text;
    var k := 0;
    assert Tashkeel[..0] == [];
    assert RemoveChars(text, []) == text by { RemoveNothing(text); }
    while k < |Tashkeel|
      invariant 0 <= k <= |Tashkeel|
      invariant r == RemoveChars(text, Tashkeel[..k])
    {
      RemoveOneMore(text, Tashkeel[..k], Tashkeel[k]);
      assert Tashkeel[..k] + [Tashkeel[k]] == Tashkeel[..k + 1];
      r := ReplaceChar(r, Tashkeel[k], "");
      k := k + 1;
    }
    assert Tashkeel[..k] == Tashkeel;
    ghost var stripped := r;
    ReplaceCharByOne(r, AlefHamzaAbove, Alef);
    r := ReplaceChar(r, AlefHamzaAbove, [Alef]);
    ReplaceCharByOne(r, AlefHamzaBelow, Alef);
    r := ReplaceChar(r, AlefHamzaBelow, [Alef]);
    ReplaceCharByOne(r, AlefMadda, Alef);
    r := ReplaceChar(r, AlefMadda, [Alef]);
    ReplaceCharByOne(r, TaMarbuta, Ha);
    r := ReplaceChar(r, TaMarbuta, [Ha]);
    assert r == FoldLetters(stripped);
    r := Strip(Lower(r));
  }

  lemma {:induction false} RemoveNothing(s: string)
    ensures RemoveChars(s, []) == s
  {
    if s != [] {
      RemoveNothing(s[1..]);
    }
  }

  /** A character normalisation never leaves behind: a mark, a folded letter or an ASCII capital. */
  predicate CleanChar(c: char) {
    !IsTashkeel(c) && !IsFoldedAway(c) && !('A' <= c <= 'Z')
  }

  lemma PreStripClean(s: string, lowered: string)
    requires lowered == Lower(FoldLetters(RemoveChars(s, Tashkeel)))
    ensures forall j :: 0 <= j < |lowered| ==> CleanChar(lowered[j])
  {
    var removed := RemoveChars(s, Tashkeel);
    forall j | 0 <= j < |lowered|
      ensures CleanChar(lowered[j])
    {
      assert removed[j] in removed;
      TashkeelTable(removed[j]);
      assert lowered[j] == LowerChar(FoldLetter(removed[j]));
    }
  }

  /** What the search compares: no tashkeel, no hamza/madda alef, no ta marbuta, no edge whitespace. */
  lemma NormalizedIsClean(s: string)
    ensures var r := Normalized(s);
      && NoEdgeSpace(r)
      && (forall i :: 0 <= i < |r| ==> !IsTashkeel(r[i]) && !IsFoldedAway(r[i]))
  {
    NormalizedClean(s);
  }

  lemma NormalizedClean(s: string)
    ensures forall i :: 0 <= i < |Normalized(s)| ==> CleanChar(Normalized(s)[i])
  {
    var lowered := Lower(FoldLetters(RemoveChars(s, Tashkeel)));
    PreStripClean(s, lowered);
    StripKeepsClean(lowered);
  }

  lemma StripKeepsClean(t: string)
    requires forall j :: 0 <= j < |t| ==> CleanChar(t[j])
    ensures forall i :: 0 <= i < |Strip(t)| ==> CleanChar(Strip(t)[i])
  {
    var r := Strip(t);
    forall i | 0 <= i < |r| ensures CleanChar(r[i]) {
      assert r[i] in t;
    }
  }

  lemma TashkeelTable(c: char)
    ensures c in Tashkeel <==> IsTashkeel(c)
  {
    if IsTashkeel(c) {
      assert c == Tashkeel[c as int - 0x064B];
    }
  }

  /** Normalising twice is normalising once. */
  lemma NormalizedIdempotent(s: string)
    ensures Normalized(Normalized(s)) == Normalized(s)
  {
    NormalizedClean(s);
    NormalizedIsClean(s);
    CleanIsFixed(Normalized(s));
  }

  /** Clean text without edge whitespace is left as it is by every step of the normalisation. */
  lemma CleanIsFixed(r: string)
    requires NoEdgeSpace(r)
    requires forall i :: 0 <= i < |r| ==> CleanChar(r[i])
    ensures Normalized(r) == r
  {
    forall x | x in r ensures x !in Tashkeel { TashkeelTable(x); }
    RemoveAbsent(r, Tashkeel);
    CleanUnchanged(r);
  }

  lemma CleanUnchanged(r: string)
    requires forall i :: 0 <= i < |r| ==> CleanChar(r[i])
    ensures FoldLetters(r) == r && Lower(r) == r
  {
    assert FoldLetters(r) == r;
  }

  lemma {:induction false} RemoveAbsent(s: string, marks: string)
    requires forall x :: x in s ==> x !in marks
    ensures RemoveChars(s, marks) == s
  {
    if s != [] {
      RemoveAbsent(s[1..], marks);
    }
  }

  // ---------------------------------------------------------------------------
  // format_page_number

  const PageLabelPrefix: string := "الصفحة: "
  const PageLabelSeparator: string := " / "

  /** What format_page_number returns. */
  function FormatPageNumber(page: int, total: int): string {
    PageLabelPrefix + IntToDecimal(page) + PageLabelSeparator + IntToDecimal(total)
  }

  /** The label determines both numbers it was made from. */
  lemma FormatPageNumberInjective(p1: int, t1: int, p2: int, t2: int)
    requires FormatPageNumber(p1, t1) == FormatPageNumber(p2, t2)
    ensures p1 == p2 && t1 == t2
  {
    var a1, b1, a2, b2 := IntToDecimal(p1), IntToDecimal(t1), IntToDecimal(p2), IntToDecimal(t2);
    var n := |PageLabelPrefix|;
    assert (PageLabelPrefix + a1 + PageLabelSeparator + b1)[n..] == a1 + PageLabelSeparator + b1;
    assert (PageLabelPrefix + a2 + PageLabelSeparator + b2)[n..] == a2 + PageLabelSeparator + b2;
    SplitAtSeparator(a1, b1, a2, b2);
    IntDecimalRoundTrip(p1);
    IntDecimalRoundTrip(p2);
    IntDecimalRoundTrip(t1);
    IntDecimalRoundTrip(t2);
  }

  lemma SplitAtSeparator(a1: string, b1: string, a2: string, b2: string)
    requires ' ' !in a1 && ' ' !in a2
    requires a1 + PageLabelSeparator + b1 == a2 + PageLabelSeparator + b2
    ensures a1 == a2 && b1 == b2
  {
    var x := a1 + PageLabelSeparator + b1;
    FirstSpaceAfter(a1, PageLabelSeparator + b1);
    FirstSpaceAfter(a2, PageLabelSeparator + b2);
    assert a1 + (PageLabelSeparator + b1) == x;
    assert a2 + (PageLabelSeparator + b2) == x;
    assert a1 == x[..|a1|] == a2;
    assert b1 == x[|a1| + 3..] == b2;
  }

  /** Position of the first space in `s`, or `|s|` when there is none. */
  function FirstSpace(s: string): nat {
    if s == [] || s[0] == ' ' then 0 else 1 + FirstSpace(s[1..])
  }

  lemma {:induction false} FirstSpaceAfter(a: string, rest: string)
    requires ' ' !in a && rest != [] && rest[0] == ' '
    ensures FirstSpace(a + rest) == |a|
  {
    if a == [] {
      assert a + rest == rest;
    } else {
      assert (a + rest)[1..] == a[1..] + rest;
      FirstSpaceAfter(a[1..], rest);
    }
  }
}

/**
 The surah list in the side bar (SurahListWidget): one row per surah, in table
 order, and a live search that hides the rows the query does not match.
 */
module SurahListWidget {
  import opened PyStrings
  import opened Utils

  /** The query search_surah compares with: stripped, then lower-cased. */
  function SearchKey(text: string): string {
    Lower(Strip(text))
  }

  /** A row stays visible when the key occurs in its lower-cased name or in its 1-based position written in decimal. */
  predicate RowMatches(key: string, name: string, position: nat) {
    Contains(Lower(name), key) || Contains(NatToDecimal(position), key)
  }

  /** The hidden flag search_surah leaves on each row for the search key `key`. */
  function HiddenFlags(surahs: seq<Surah>, key: string): (r: seq<bool>)
    ensures |r| == |surahs|
    ensures forall i :: 0 <= i < |r| ==> (r[i] <==> !RowMatches(key, surahs[i].name, i + 1))
  {
    seq(|surahs|, i requires 0 <= i < |surahs| => !RowMatches(key, surahs[i].name, i + 1))
  }

  class SurahList {
    /** The table the rows were made from (SURAHS). */
    const surahs: seq<Surah>
    /** Each row's hidden flag; the rows themselves are never added, removed or reordered. */
    const hidden: array<bool>

    ghost predicate Valid()
      reads this
    {
      hidden.Length == |surahs|
    }

    /** _setup_items: one visible row per surah, in table order. */
    constructor (surahs: seq<Surah>)
      ensures Valid() && this.surahs == surahs && fresh(hidden)
      ensures forall i :: 0 <= i < hidden.Length ==> !hidden[i]
    {
      this.surahs := surahs;
      hidden := new bool[|surahs|](i => false);
    }

    /** search_surah: computes the search key, then sets every row's hidden flag from it. */
    method SearchSurah(text: string)
      requires Valid()
      modifies hidden
      ensures hidden[..] == HiddenFlags(surahs, SearchKey(text))
    {
      var key := Lower(Strip(text));
      FilterRows(key);
    }

    /** The loop of search_surah: each row's hidden flag is set in place, one row at a time. */
    method FilterRows(key: string)
      requires Valid()
      modifies hidden
      ensures hidden[..] == HiddenFlags(surahs, key)
    {
      var i := 0;
      while i < hidden.Length
        invariant 0 <= i <= hidden.Length
        invariant forall j :: 0 <= j < i ==> hidden[j] == !RowMatches(key, surahs[j].name, j + 1)
      {
        var surahName := Lower(surahs[i].name);
        if Contains(surahName, key) || Contains(NatToDecimal(i + 1), key) {
          hidden[i] := false;
        } else {
          hidden[i] := true;
        }
        i := i + 1;
      }
    }
  }

  /** An empty or all-whitespace query shows every row. */
  lemma BlankQueryShowsAll(surahs: seq<Surah>, text: string)
    requires forall k :: 0 <= k < |text| ==> IsSpace(text[k])
    ensures forall i :: 0 <= i < |surahs| ==> !HiddenFlags(surahs, SearchKey(text))[i]
  {
    assert SearchKey(text) == [];
  }

  /**
   The position test is a substring test, not an equality: the query "2" keeps
   row 2 and also row 12 visible, whatever their names.
   */
  lemma PositionMatchIsSubstring(surahs: seq<Surah>)
    requires |surahs| >= 12
    ensures !HiddenFlags(surahs, SearchKey("2"))[1] && !HiddenFlags(surahs, SearchKey("2"))[11]
  {
    assert Strip("2") == "2";
    assert Lower("2") == "2";
    assert NatToDecimal(2) == "2";
    assert NatToDecimal(12) == NatToDecimal(1) + [DigitChar(2)] == "12";
    assert "12"[1..] == "2";
    assert Contains("12", "2");
  }

  /** A row is hidden exactly when the key occurs at no position of its lower-cased name and at none of its position string. */
  lemma RowHiddenIff(surahs: seq<Surah>, key: string, i: nat)
    requires i < |surahs|
    ensures HiddenFlags(surahs, key)[i] <==>
      OccursNowhere(Lower(surahs[i].name), key) && OccursNowhere(NatToDecimal(i + 1), key)
  {
    ContainsIff(Lower(surahs[i].name), key);
    ContainsIff(NatToDecimal(i + 1), key);
  }

  /** The query "3" hides row 2 when its name has no '3' in it. */
  lemma QueryHidesNonMatchingRow(surahs: seq<Surah>)
    requires |surahs| >= 2 && '3' !in surahs[1].name
    ensures HiddenFlags(surahs, SearchKey("3"))[1]
  {
    assert Strip("3") == "3";
    assert Lower("3") == "3";
    var name := Lower(surahs[1].name);
    if Contains(name, "3") {
      var j := ContainsHasSlice(name, "3");
      assert false;
    }
    assert NatToDecimal(2) == "2";
    if Contains("2", "3") {
      var j := ContainsHasSlice("2", "3");
      assert false;
    }
  }

  lemma SearchKeyIgnoresCase(text: string)
    ensures SearchKey(Lower(text)) == SearchKey(text)
  {
    StripLower(text);
    LowerIdempotent(Strip(text));
  }

  /** The search ignores the case of the query. */
  lemma SearchIgnoresQueryCase(surahs: seq<Surah>, text: string)
    ensures HiddenFlags(surahs, SearchKey(Lower(text))) == HiddenFlags(surahs, SearchKey(text))
  {
    SearchKeyIgnoresCase(text);
  }
}

/**
 The handful of Python `str` builtins the reader's helpers are made of:
 `str.replace` with a one-character pattern, `str.strip()`, `str.lower()`
 (ASCII letters only), the `in` substring test and `str(n)` for integers.
 Each is stated here once, with the facts the other modules rely on.
 */
module PyStrings {

  /** Python's `str.isspace` for one character (the full Unicode list). */
  predicate IsSpace(c: char) {
    ('\t' <= c <= '\r') || ('\U{001C}' <= c <= '\U{001F}') || c == ' '
    || c == '\U{0085}' || c == '\U{00A0}' || c == '\U{1680}'
    || ('\U{2000}' <= c <= '\U{200A}') || c == '\U{2028}' || c == '\U{2029}'
    || c == '\U{202F}' || c == '\U{205F}' || c == '\U{3000}'
  }

  predicate NoEdgeSpace(s: string) {
    s == [] || (!IsSpace(s[0]) && !IsSpace(s[|s| - 1]))
  }

  /** Drops leading whitespace: the result is the longest suffix that does not start with a space. */
  function TrimLeft(s: string): (r: string)
    ensures |r| <= |s| && r == s[|s| - |r|..]
    ensures r == [] || !IsSpace(r[0])
    ensures forall k :: 0 <= k < |s| - |r| ==> IsSpace(s[k])
  {
    if s != [] && IsSpace(s[0]) then TrimLeft(s[1..]) else s
  }

  /** Drops trailing whitespace: the result is the longest prefix that does not end with a space. */
  function TrimRight(s: string): (r: string)
    ensures |r| <= |s| && r == s[..|r|]
    ensures r == [] || !IsSpace(r[|r| - 1])
    ensures forall k :: |r| <= k < |s| ==> IsSpace(s[k])
  {
    if s != [] && IsSpace(s[|s| - 1]) then TrimRight(s[..|s| - 1]) else s
  }

  /** `s.strip()` */
  function Strip(s: string): (r: string)
    ensures NoEdgeSpace(r)
    ensures forall i :: 0 <= i < |r| ==> r[i] in s
    ensures (forall k :: 0 <= k < |s| ==> IsSpace(s[k])) ==> r == []
    ensures NoEdgeSpace(s) ==> r == s
  {
    StripNoEdgeSpace(s);
    StripTakesFrom(s);
    StripKeepsTrimmed(s);
    TrimRight(TrimLeft(s))
  }

  lemma StripNoEdgeSpace(s: string)
    ensures NoEdgeSpace(TrimRight(TrimLeft(s)))
  {
    var l := TrimLeft(s);
    var r := TrimRight(l);
    if r != [] {
      assert r[0] == l[0];
    }
  }

  lemma StripTakesFrom(s: string)
    ensures forall i :: 0 <= i < |TrimRight(TrimLeft(s))| ==> TrimRight(TrimLeft(s))[i] in s
  {
    var l := TrimLeft(s);
    var r := TrimRight(l);
    var d := |s| - |l|;
    forall i | 0 <= i < |r|
      ensures r[i] in s
    {
      assert r[i] == l[i];
      assert l[i] == s[d..][i] == s[d + i];
      CharAt(s, d + i);
    }
  }

  lemma CharAt(s: string, k: nat)
    requires k < |s|
    ensures s[k] in s
  {
  }

  lemma StripKeepsTrimmed(s: string)
    ensures NoEdgeSpace(s) ==> TrimRight(TrimLeft(s)) == s
  {
    if NoEdgeSpace(s) && s != [] {
      assert TrimLeft(s) == s;
    }
  }

  function LowerChar(c: char): (d: char)
  {
    if 'A' <= c <= 'Z' then (c as int - 'A' as int + 'a' as int) as char else c
  }

  /** `s.lower()` restricted to ASCII case folding (Arabic script has no case). */
  function Lower(s: string): (r: string)
    ensures |r| == |s|
    ensures forall i :: 0 <= i < |s| ==> r[i] == LowerChar(s[i])
  {
    seq(|s|, i requires 0 <= i < |s| => LowerChar(s[i]))
  }

  lemma LowerIdempotent(s: string)
    ensures Lower(Lower(s)) == Lower(s)
  {
  }

  lemma {:induction false} LowerTrimLeft(s: string)
    ensures TrimLeft(Lower(s)) == Lower(TrimLeft(s))
  {
    if s != [] {
      assert Lower(s)[1..] == Lower(s[1..]);
      LowerTrimLeft(s[1..]);
    }
  }

  lemma {:induction false} LowerTrimRight(s: string)
    ensures TrimRight(Lower(s)) == Lower(TrimRight(s))
  {
    if s != [] {
      assert Lower(s)[..|s| - 1] == Lower(s[..|s| - 1]);
      LowerTrimRight(s[..|s| - 1]);
    }
  }

  /** Lower-casing and stripping commute: case folding never turns a space into a non-space or back. */
  lemma StripLower(s: string)
    ensures Strip(Lower(s)) == Lower(Strip(s))
  {
    LowerTrimLeft(s);
    LowerTrimRight(TrimLeft(s));
  }

  /** `s.replace(pat, rep)` where the pattern `pat` is a single character. */
  function ReplaceChar(s: string, pat: char, rep: string): (r: string)
    ensures forall x :: x in r ==> x in rep || (x in s && x != pat)
  {
    if s == [] then [] else (if s[0] == pat then rep else [s[0]]) + ReplaceChar(s[1..], pat, rep)
  }

  lemma {:induction false} ReplaceCharAppend(a: string, b: string, pat: char, rep: string)
    ensures ReplaceChar(a + b, pat, rep) == ReplaceChar(a, pat, rep) + ReplaceChar(b, pat, rep)
  {
    if a != [] {
      assert (a + b)[1..] == a[1..] + b;
      ReplaceCharAppend(a[1..], b, pat, rep);
    } else {
      assert a + b == b;
    }
  }

  /** Replacing a character by one character keeps every position and rewrites it in place. */
  lemma {:induction false} ReplaceCharByOne(s: string, pat: char, rep: char)
    ensures |ReplaceChar(s, pat, [rep])| == |s|
    ensures forall i :: 0 <= i < |s| ==>
      ReplaceChar(s, pat, [rep])[i] == (if s[i] == pat then rep else s[i])
  {
    if s != [] {
      ReplaceCharByOne(s[1..], pat, rep);
    }
  }

  /** `needle in s`: `needle` occurs in `s` as a contiguous piece. */
  predicate Contains(s: string, needle: string) {
    needle <= s || (s != [] && Contains(s[1..], needle))
  }

  /** `needle` occurs in `s` starting at position `i`. */
  predicate OccursAt(s: string, needle: string, i: nat) {
    i + |needle| <= |s| && s[i..i + |needle|] == needle
  }

  /** An occurrence at any position makes `needle in s` true. */
  lemma {:induction false} ContainsSlice(s: string, needle: string, i: nat)
    requires OccursAt(s, needle, i)
    ensures Contains(s, needle)
  {
    if i > 0 {
      assert s[1..][i - 1..i - 1 + |needle|] == needle;
      ContainsSlice(s[1..], needle, i - 1);
    }
  }

  /** `needle in s` only when `needle` occurs at some position of `s`, which is returned. */
  lemma {:induction false} ContainsHasSlice(s: string, needle: string) returns (i: nat)
    requires Contains(s, needle)
    ensures OccursAt(s, needle, i)
  {
    if needle <= s {
      assert s[..|needle|] == needle;
      i := 0;
    } else {
      var j := ContainsHasSlice(s[1..], needle);
      assert s[1..][j..j + |needle|] == s[j + 1..j + 1 + |needle|];
      i := j + 1;
    }
  }

  /** `needle` occurs at no position of `s`. */
  predicate OccursNowhere(s: string, needle: string) {
    forall i: nat | i <= |s| :: !OccursAt(s, needle, i)
  }

  /** `needle in s` holds exactly when `needle` occurs at some position of `s`. */
  lemma ContainsIff(s: string, needle: string)
    ensures Contains(s, needle) <==> exists i: nat :: OccursAt(s, needle, i)
    ensures !Contains(s, needle) <==> OccursNowhere(s, needle)
  {
    if Contains(s, needle) {
      var i := ContainsHasSlice(s, needle);
    }
    if exists i: nat :: OccursAt(s, needle, i) {
      var i: nat :| OccursAt(s, needle, i);
      ContainsSlice(s, needle, i);
    }
  }

  predicate IsDigit(c: char) {
    '0' <= c <= '9'
  }

  function DigitChar(d: nat): (c: char)
    requires d < 10
    ensures IsDigit(c)
  {
    (d + '0' as int) as char
  }

  /** `str(n)` for a natural number: decimal digits, no leading zero. */
  function NatToDecimal(n: nat): (r: string)
    ensures |r| >= 1
    ensures forall i :: 0 <= i < |r| ==> IsDigit(r[i])
    ensures r[0] == '0' ==> n == 0
  {
    if n < 10 then [DigitChar(n)] else NatToDecimal(n / 10) + [DigitChar(n % 10)]
  }

  /** Reads back a string of decimal digits. */
  function DecimalToNat(s: string): nat
  {
    if s == [] then 0 else 10 * DecimalToNat(s[..|s| - 1]) + (s[|s| - 1] as int - '0' as int) % 10
  }

  lemma {:induction false} DecimalRoundTrip(n: nat)
    ensures DecimalToNat(NatToDecimal(n)) == n
  {
    var r := NatToDecimal(n);
    if n >= 10 {
      DecimalRoundTrip(n / 10);
      assert r[..|r| - 1] == NatToDecimal(n / 10);
    }
  }

  /** `str(i)` for any integer: a minus sign before the digits of a negative value. */
  function IntToDecimal(i: int): (r: string)
    ensures |r| >= 1 && ' ' !in r
  {
    if i < 0 then "-" + NatToDecimal(-i) else NatToDecimal(i)
  }

  /** Reads back what IntToDecimal writes. */
  function DecimalToInt(s: string): int
  {
    if s != [] && s[0] == '-' then -(DecimalToNat(s[1..]) as int) else DecimalToNat(s)
  }

  lemma IntDecimalRoundTrip(i: int)
    ensures DecimalToInt(IntToDecimal(i)) == i
  {
    if i < 0 {
      DecimalRoundTrip(-i);
      assert ("-" + NatToDecimal(-i))[1..] == NatToDecimal(-i);
    } else {
      DecimalRoundTrip(i);
      assert NatToDecimal(i)[0] != '-';
    }
  }
}

/** Character classes and string operations shared by the whole model.

    Python's `str.isalpha`, `str.isspace`, `\s`, `\w` and `\d` are Unicode-aware;
    this model restricts them to ASCII: a character at or above U+0080 is neither
    a letter, a digit, whitespace nor a word character. */
module Strings {
  import opened Wrappers

  predicate IsUpper(c: char) { 'A' <= c <= 'Z' }
  predicate IsLower(c: char) { 'a' <= c <= 'z' }
  predicate IsLetter(c: char) { IsUpper(c) || IsLower(c) }
  predicate IsDigit(c: char) { '0' <= c <= '9' }
  predicate IsAlnum(c: char) { IsLetter(c) || IsDigit(c) }
  /** `\w`: letters, digits and the underscore. */
  predicate IsWordChar(c: char) { IsAlnum(c) || c == '_' }
  /** `str.isspace` / `\s` on ASCII: space, \t \n \v \f \r and the separators U+001C..U+001F. */
  predicate IsSpace(c: char) { c == ' ' || '\t' <= c <= '\r' || '\U{1C}' <= c <= '\U{1F}' }
  /** The characters at which `str.splitlines` ends a line (ASCII part). */
  predicate IsLineBreak(c: char) { '\n' <= c <= '\r' || '\U{1C}' <= c <= '\U{1E}' }

  function ToLower(c: char): (r: char)
    ensures IsLetter(c) ==> IsLower(r)
    ensures !IsUpper(c) ==> r == c
  {
    if IsUpper(c) then (c as int + 32) as char else c
  }

  predicate StartsWith(s: string, p: string) { |p| <= |s| && s[..|p|] == p }

  /** `p` occurs in `s` at position `k`. */
  predicate OccursAt(s: string, p: string, k: nat) { k + |p| <= |s| && s[k..k + |p|] == p }

  /** `p in s`. */
  predicate Contains(s: string, p: string) { exists k: nat | k <= |s| :: OccursAt(s, p, k) }

  predicate NoSpace(s: string) { forall i :: 0 <= i < |s| ==> !IsSpace(s[i]) }

  /** No two adjacent whitespace characters. */
  ghost predicate NoDoubleSpace(s: string)
  {
    forall i, j :: 0 <= i < j < |s| && j == i + 1 ==> !(IsSpace(s[i]) && IsSpace(s[j]))
  }

  // ---------------------------------------------------------------------------
  // strip / lstrip

  /** How many whitespace characters `s` starts with. */
  function LeadingSpaces(s: string): (n: nat)
    ensures n <= |s| && (n < |s| ==> !IsSpace(s[n]))
  {
    if s != [] && IsSpace(s[0]) then 1 + LeadingSpaces(s[1..]) else 0
  }

  /** How many whitespace characters `s` ends with. */
  function TrailingSpaces(s: string): (n: nat)
    ensures n <= |s| && (n < |s| ==> !IsSpace(s[|s| - 1 - n]))
  {
    if s != [] && IsSpace(s[|s| - 1]) then 1 + TrailingSpaces(s[..|s| - 1]) else 0
  }

  /** `s.lstrip()`. */
  function TrimLeft(s: string): string
  {
    s[LeadingSpaces(s)..]
  }

  /** `s.rstrip()`. */
  function TrimRight(s: string): string
  {
    s[..|s| - TrailingSpaces(s)]
  }

  /** `s.strip()`. */
  function Strip(s: string): (r: string)
    ensures r == [] || (!IsSpace(r[0]) && !IsSpace(r[|r| - 1]))
  {
    TrimRight(TrimLeft(s))
  }

  lemma {:induction false} LeadingAreSpaces(s: string)
    ensures forall i :: 0 <= i < LeadingSpaces(s) ==> IsSpace(s[i])
  {
    if s != [] && IsSpace(s[0]) {
      LeadingAreSpaces(s[1..]);
      forall i | 1 <= i < LeadingSpaces(s) ensures IsSpace(s[i]) {
        assert s[i] == s[1..][i - 1];
      }
    }
  }

  lemma {:induction false} TrailingAreSpaces(s: string)
    ensures forall i :: |s| - TrailingSpaces(s) <= i < |s| ==> IsSpace(s[i])
  {
    if s != [] && IsSpace(s[|s| - 1]) {
      TrailingAreSpaces(s[..|s| - 1]);
      forall i | |s| - TrailingSpaces(s) <= i < |s| - 1 ensures IsSpace(s[i]) {
        assert s[i] == s[..|s| - 1][i];
      }
    }
  }

  /** Stripping keeps a window of the string and drops only whitespace around it. */
  lemma StripWindow(s: string) returns (a: nat, b: nat)
    ensures a <= b <= |s| && Strip(s) == s[a..b]
    ensures forall i :: 0 <= i < a ==> IsSpace(s[i])
    ensures forall i :: b <= i < |s| ==> IsSpace(s[i])
  {
    var t := s[LeadingSpaces(s)..];
    a := LeadingSpaces(s);
    b := |s| - TrailingSpaces(t);
    assert Strip(s) == t[..|t| - TrailingSpaces(t)] == s[a..b];
    LeadingAreSpaces(s);
    TrailingAreSpaces(t);
    forall i | b <= i < |s| ensures IsSpace(s[i]) {
      assert s[i] == t[i - a];
    }
  }

  /** A string with no whitespace at either end is its own strip. */
  lemma StripNoEnds(s: string)
    requires s == [] || (!IsSpace(s[0]) && !IsSpace(s[|s| - 1]))
    ensures Strip(s) == s
  {
  }

  /** `s.rfind(c)`, or `None` for -1. */
  function LastIndex(s: string, c: char): (r: Option<nat>)
    ensures r.Some? ==> r.value < |s| && s[r.value] == c && c !in s[r.value + 1..]
    ensures r.None? ==> c !in s
  {
    if s == [] then None
    else if s[|s| - 1] == c then Some(|s| - 1)
    else
      var r := LastIndex(s[..|s| - 1], c);
      if r.Some? then
        assert s[r.value + 1..] == s[..|s| - 1][r.value + 1..] + [s[|s| - 1]];
        r
      else
        assert s == s[..|s| - 1] + [s[|s| - 1]];
        r
  }

  /** `LastIndex` finds the last occurrence. */
  lemma {:induction false} LastIndexIs(s: string, c: char, i: nat)
    requires i < |s| && s[i] == c && c !in s[i + 1..]
    ensures LastIndex(s, c) == Some(i)
  {
    if i < |s| - 1 {
      assert s[|s| - 1] == s[i + 1..][|s| - 2 - i];
      assert s[..|s| - 1][i + 1..] == s[i + 1..][..|s| - 2 - i];
      LastIndexIs(s[..|s| - 1], c, i);
    }
  }

  // ---------------------------------------------------------------------------
  // split / join

  /** `s.split(c)` for a one-character separator. */
  function SplitOn(s: string, c: char): (r: seq<string>)
    ensures |r| >= 1
  {
    if s == [] then [[]]
    else
      var rest := SplitOn(s[1..], c);
      if s[0] == c then [[]] + rest else [[s[0]] + rest[0]] + rest[1..]
  }

  /** The lines of `s`: a line ends at every line-break character, which is dropped. */
  function SplitLines(s: string): (r: seq<string>)
    ensures |r| >= 1
  {
    if s == [] then [[]]
    else
      var rest := SplitLines(s[1..]);
      if IsLineBreak(s[0]) then [[]] + rest else [[s[0]] + rest[0]] + rest[1..]
  }

  /** `sep.join(parts)`. */
  function Join(sep: string, parts: seq<string>): string
  {
    if parts == [] then [] else if |parts| == 1 then parts[0] else parts[0] + sep + Join(sep, parts[1..])
  }

  lemma {:induction false} JoinAppend(sep: string, parts: seq<string>, x: string)
    ensures Join(sep, parts + [x]) == if parts == [] then x else Join(sep, parts) + sep + x
  {
    if |parts| > 1 {
      assert (parts + [x])[1..] == parts[1..] + [x];
      JoinAppend(sep, parts[1..], x);
    } else if |parts| == 1 {
      assert (parts + [x])[1..] == [x];
    }
  }

  /** Joining the pieces of a split with the separator gives back the string. */
  lemma {:induction false} JoinSplit(s: string, c: char)
    ensures Join([c], SplitOn(s, c)) == s
  {
    if s != [] {
      var rest := SplitOn(s[1..], c);
      JoinSplit(s[1..], c);
      assert s == [s[0]] + s[1..];
      if s[0] == c {
        assert SplitOn(s, c) == [[]] + rest;
        assert ([[]] + rest)[1..] == rest;
        assert Join([c], SplitOn(s, c)) == [] + [c] + Join([c], rest);
      } else {
        var first := [s[0]] + rest[0];
        assert SplitOn(s, c) == [first] + rest[1..];
        if |rest| > 1 {
          assert ([first] + rest[1..])[1..] == rest[1..];
          assert Join([c], rest) == rest[0] + [c] + Join([c], rest[1..]);
          assert Join([c], SplitOn(s, c)) == first + [c] + Join([c], rest[1..]);
        } else {
          assert Join([c], SplitOn(s, c)) == first;
        }
      }
    }
  }

  /** No piece of a split contains the separator. */
  lemma {:induction false} SplitOnPiecesClean(s: string, c: char, k: nat, i: nat)
    requires k < |SplitOn(s, c)| && i < |SplitOn(s, c)[k]|
    ensures SplitOn(s, c)[k][i] != c
  {
    if s != [] {
      if s[0] == c {
        SplitOnPiecesClean(s[1..], c, k - 1, i);
      } else if k == 0 {
        if i > 0 { SplitOnPiecesClean(s[1..], c, 0, i - 1); }
      } else {
        SplitOnPiecesClean(s[1..], c, k, i);
      }
    }
  }

  /** No line contains a line-break character. */
  lemma {:induction false} SplitLinesClean(s: string, k: nat, i: nat)
    requires k < |SplitLines(s)| && i < |SplitLines(s)[k]|
    ensures !IsLineBreak(SplitLines(s)[k][i])
  {
    if s != [] {
      if IsLineBreak(s[0]) {
        SplitLinesClean(s[1..], k - 1, i);
      } else if k == 0 {
        if i > 0 { SplitLinesClean(s[1..], 0, i - 1); }
      } else {
        SplitLinesClean(s[1..], k, i);
      }
    }
  }

  lemma {:induction false} SplitOnNoBreak(s: string, c: char)
    requires forall i :: 0 <= i < |s| ==> s[i] != c
    ensures SplitOn(s, c) == [s]
  {
    if s != [] {
      SplitOnNoBreak(s[1..], c);
      assert s == [s[0]] + s[1..];
    }
  }

  lemma {:induction false} SplitLinesNoBreak(s: string)
    requires forall i :: 0 <= i < |s| ==> !IsLineBreak(s[i])
    ensures SplitLines(s) == [s]
  {
    if s != [] {
      SplitLinesNoBreak(s[1..]);
      assert s == [s[0]] + s[1..];
    }
  }

  lemma {:induction false} SplitAfterBreak(a: string, c: char, b: string)
    requires forall i :: 0 <= i < |a| ==> a[i] != c
    ensures SplitOn(a + [c] + b, c) == [a] + SplitOn(b, c)
  {
    if a == [] {
      assert a + [c] + b == [c] + b;
      assert ([c] + b)[1..] == b;
    } else {
      assert (a + [c] + b)[1..] == a[1..] + [c] + b;
      SplitAfterBreak(a[1..], c, b);
      assert [a[0]] + a[1..] == a;
    }
  }

  /** Splitting a join of pieces free of the separator gives back the pieces. */
  lemma {:induction false} SplitJoin(parts: seq<string>, c: char)
    requires |parts| >= 1
    requires forall k, i :: 0 <= k < |parts| && 0 <= i < |parts[k]| ==> parts[k][i] != c
    ensures SplitOn(Join([c], parts), c) == parts
  {
    if |parts| == 1 {
      SplitOnNoBreak(parts[0], c);
    } else {
      SplitJoin(parts[1..], c);
      SplitAfterBreak(parts[0], c, Join([c], parts[1..]));
      assert [parts[0]] + parts[1..] == parts;
    }
  }

  // ---------------------------------------------------------------------------
  // str.replace

  /** `s.replace(pat, rep)`: one left-to-right pass over non-overlapping occurrences. */
  function ReplaceAll(s: string, pat: string, rep: string): string
    requires pat != []
    decreases |s|
  {
    if s == [] then []
    else if StartsWith(s, pat) then rep + ReplaceAll(s[|pat|..], pat, rep)
    else [s[0]] + ReplaceAll(s[1..], pat, rep)
  }

  /** Replacing a pattern that does not occur changes nothing. */
  lemma {:induction false} ReplaceAbsent(s: string, pat: string, rep: string)
    requires pat != [] && !Contains(s, pat)
    ensures ReplaceAll(s, pat, rep) == s
  {
    if s != [] {
      assert !OccursAt(s, pat, 0);
      if Contains(s[1..], pat) {
        var k: nat :| k <= |s[1..]| && OccursAt(s[1..], pat, k);
        var j := k + 1;
        assert j + |pat| <= |s|;
        assert s[j..j + |pat|] == s[1..][k..k + |pat|];
        assert OccursAt(s, pat, j);
      }
      ReplaceAbsent(s[1..], pat, rep);
    }
  }

  // ---------------------------------------------------------------------------
  // decimal numbers

  predicate AllDigits(s: string) { forall i :: 0 <= i < |s| ==> IsDigit(s[i]) }

  function DigitValue(c: char): nat requires IsDigit(c) { c as int - '0' as int }

  function DigitChar(n: nat): (c: char)
    requires n < 10
    ensures IsDigit(c) && DigitValue(c) == n
  {
    ('0' as int + n) as char
  }

  /** The value of a run of decimal digits (`int(d)`). */
  function DigitsValue(d: string): nat
    requires AllDigits(d)
  {
    if d == [] then 0 else DigitsValue(d[..|d| - 1]) * 10 + DigitValue(d[|d| - 1])
  }

  /** `str(n)` for a natural number: no leading zero except for 0 itself. */
  function DecimalString(n: nat): (r: string)
    ensures |r| >= 1 && AllDigits(r)
    ensures r[0] != '0' || r == "0"
  {
    if n < 10 then [DigitChar(n)] else DecimalString(n / 10) + [DigitChar(n % 10)]
  }

  /** The length of the leading run of digits of `s`. */
  function DigitRun(s: string): (k: nat)
    ensures k <= |s| && AllDigits(s[..k])
    ensures k < |s| ==> !IsDigit(s[k])
  {
    if s != [] && IsDigit(s[0]) then
      var k := 1 + DigitRun(s[1..]);
      assert s[..k] == [s[0]] + s[1..][..k - 1];
      k
    else 0
  }

  lemma {:induction false} ValueAtLeastOne(d: string)
    requires |d| >= 1 && AllDigits(d) && d[0] != '0'
    ensures DigitsValue(d) >= 1
  {
    if |d| > 1 {
      ValueAtLeastOne(d[..|d| - 1]);
    }
  }

  /** A digit string without a superfluous leading zero is the decimal form of its value. */
  lemma {:induction false} DecimalOfValue(d: string)
    requires |d| >= 1 && AllDigits(d) && (d[0] != '0' || |d| == 1)
    ensures DecimalString(DigitsValue(d)) == d
  {
    if |d| > 1 {
      var init := d[..|d| - 1];
      ValueAtLeastOne(init);
      DecimalOfValue(init);
      var n := DigitsValue(d);
      assert n / 10 == DigitsValue(init) && n % 10 == DigitValue(d[|d| - 1]);
      assert DigitChar(n % 10) == d[|d| - 1];
      assert init + [d[|d| - 1]] == d;
    } else {
      assert DigitChar(DigitValue(d[0])) == d[0];
    }
  }

  /** Leading zeros do not change the value of a digit string. */
  lemma {:induction false} ZerosDoNotCount(d: string)
    requires |d| >= 1 && AllDigits(d) && d[0] == '0'
    ensures DigitsValue(d) == DigitsValue(d[1..])
  {
    if |d| > 1 {
      assert d[..|d| - 1][1..] == d[1..][..|d[1..]| - 1];
      ZerosDoNotCount(d[..|d| - 1]);
    }
  }

  /** Drops leading '0's but keeps the last digit: "007" -> "7", "00" -> "0". */
  function DropLeadingZeros(d: string): (r: string)
    requires |d| >= 1 && AllDigits(d)
    ensures 1 <= |r| <= |d| && AllDigits(r) && (r[0] != '0' || |r| == 1)
    ensures r == d[|d| - |r|..]
    ensures DigitsValue(r) == DigitsValue(d)
  {
    if |d| > 1 && d[0] == '0' then
      ZerosDoNotCount(d);
      DropLeadingZeros(d[1..])
    else d
  }

  /** Dropping leading zeros is exactly `str(int(d))`. */
  lemma DropLeadingZerosIsDecimal(d: string)
    requires |d| >= 1 && AllDigits(d)
    ensures DropLeadingZeros(d) == DecimalString(DigitsValue(d))
  {
    DecimalOfValue(DropLeadingZeros(d));
  }

  /** `int(str(n)) == n`. */
  lemma {:induction false} ValueOfDecimal(n: nat)
    ensures DigitsValue(DecimalString(n)) == n
  {
    var d := DecimalString(n);
    if n >= 10 {
      ValueOfDecimal(n / 10);
      assert d[..|d| - 1] == DecimalString(n / 10);
    } else {
      assert d[..|d| - 1] == [];
    }
  }

  // ---------------------------------------------------------------------------
  // Python's ordering of strings (code point by code point)

  predicate StrLe(a: string, b: string)
  {
    a == [] || (b != [] && (a[0] < b[0] || (a[0] == b[0] && StrLe(a[1..], b[1..]))))
  }

  lemma {:induction false} StrLeTotal(a: string, b: string)
    ensures StrLe(a, b) || StrLe(b, a)
  {
    if a != [] && b != [] && a[0] == b[0] {
      StrLeTotal(a[1..], b[1..]);
    }
  }

  lemma {:induction false} StrLeTrans(a: string, b: string, c: string)
    requires StrLe(a, b) && StrLe(b, c)
    ensures StrLe(a, c)
  {
    if a != [] && a[0] == b[0] && b[0] == c[0] {
      StrLeTrans(a[1..], b[1..], c[1..]);
    }
  }

  lemma {:induction false} StrLeAntisym(a: string, b: string)
    requires StrLe(a, b) && StrLe(b, a)
    ensures a == b
  {
    if a != [] {
      StrLeAntisym(a[1..], b[1..]);
      assert a == [a[0]] + a[1..] && b == [b[0]] + b[1..];
    }
  }
}

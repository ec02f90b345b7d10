/** `extract_clean_paragraphs`: keeps the lines of a page that look like prose
    and flows them into one paragraph with single spaces. */
module Paragraphs {
  import opened Strings

  /** Three ASCII letters in a row start at position `i` of `s`. */
  predicate LettersAt(s: string, i: nat)
  {
    i + 3 <= |s| && IsLetter(s[i]) && IsLetter(s[i + 1]) && IsLetter(s[i + 2])
  }

  /** `re.search(r'[A-Za-z]{3}', s)`. */
  predicate HasThreeLetters(s: string)
  {
    exists i: nat | i <= |s| :: LettersAt(s, i)
  }

  /** `re.match(r'^\s*\d+\s*$', t)` on a stripped line: a non-empty run of digits. */
  predicate IsPageNumber(t: string)
  {
    |t| > 0 && AllDigits(t)
  }

  /** The checks the loop applies to a stripped line before keeping it. */
  predicate KeepStripped(t: string)
  {
    !IsPageNumber(t) && |t| >= 3
  }

  /** The generator inside `filter_lines_with_three_letters`. */
  function LetterLines(lines: seq<string>): (r: seq<string>)
    ensures |r| <= |lines|
  {
    if lines == [] then []
    else
      var init := LetterLines(lines[..|lines| - 1]);
      var last := lines[|lines| - 1];
      if HasThreeLetters(last) then init + [last] else init
  }

  /** The stripped lines the loop appends to `cleaned_lines`, in order. */
  function Kept(lines: seq<string>): (r: seq<string>)
    ensures |r| <= |lines|
  {
    if lines == [] then []
    else
      var init := Kept(lines[..|lines| - 1]);
      var t := Strip(lines[|lines| - 1]);
      if KeepStripped(t) then init + [t] else init
  }

  /** `re.sub(r'\s+', ' ', s)`: every run of whitespace becomes one space
      (each whitespace character followed by another is dropped, and the last
      one of a run becomes ' '). */
  function CollapseSpaces(s: string): (r: string)
    ensures |r| <= |s| && (r == [] <==> s == [])
  {
    if s == [] then []
    else if IsSpace(s[0]) && |s| > 1 && IsSpace(s[1]) then CollapseSpaces(s[1..])
    else [if IsSpace(s[0]) then ' ' else s[0]] + CollapseSpaces(s[1..])
  }

  /** After collapsing, every whitespace character is ' ', no two are adjacent,
      and the first character keeps its kind (and its value if not whitespace). */
  lemma {:induction false} CollapseShape(s: string)
    ensures var r := CollapseSpaces(s);
      && (s != [] ==> (IsSpace(r[0]) <==> IsSpace(s[0])))
      && (s != [] && !IsSpace(s[0]) ==> r[0] == s[0])
      && (forall i :: 0 <= i < |r| && IsSpace(r[i]) ==> r[i] == ' ')
      && NoDoubleSpace(r)
  {
    if s != [] {
      CollapseShape(s[1..]);
      var r := CollapseSpaces(s);
      var rt := CollapseSpaces(s[1..]);
      if !(IsSpace(s[0]) && |s| > 1 && IsSpace(s[1])) {
        assert r == [if IsSpace(s[0]) then ' ' else s[0]] + rt;
        forall i | 0 <= i < |r| && IsSpace(r[i]) ensures r[i] == ' ' {
          if i > 0 { assert r[i] == rt[i - 1]; }
        }
        forall i, j | 0 <= i < j < |r| && j == i + 1 ensures !(IsSpace(r[i]) && IsSpace(r[j])) {
          if i > 0 {
            assert r[i] == rt[i - 1] && r[j] == rt[j - 1];
          } else {
            assert r[j] == rt[0];
          }
        }
      }
    }
  }

  /** The whole function, with the library calls (`splitlines`, `join`,
      `split`, `re.sub`, `strip`) written as functions. */
  function CleanParagraphs(text: string): string
  {
    var filtered := Join("\n", LetterLines(SplitLines(text)));
    var lines := SplitOn(filtered, '\n');
    Strip(CollapseSpaces(Join(" ", Kept(lines))))
  }

  /** The loop of `extract_clean_paragraphs` over the filtered lines. */
  method ExtractCleanParagraphs(text: string) returns (r: string)
    ensures r == CleanParagraphs(text)
  {
    var filtered := Join("\n", LetterLines(SplitLines(text)));
    var lines := SplitOn(filtered, '\n');
    var cleaned: seq<string> := [];
    var i := 0;
    while i < |lines|
      invariant 0 <= i <= |lines|
      invariant cleaned == Kept(lines[..i])
    {
      assert lines[..i + 1][..i] == lines[..i];
      var stripped := Strip(lines[i]);
      i := i + 1;
      // a page number is dropped, and so is anything shorter than three characters
      if !IsPageNumber(stripped) && |stripped| >= 3 {
        cleaned := cleaned + [stripped];
      }
    }
    assert lines[..i] == lines;
    r := Strip(CollapseSpaces(Join(" ", cleaned)));
  }

  // ---------------------------------------------------------------------------
  // Shape of the output

  /** One paragraph: whitespace only as single ' ' characters, none at either end. */
  ghost predicate Tidy(s: string)
  {
    && (forall i :: 0 <= i < |s| && IsSpace(s[i]) ==> s[i] == ' ')
    && NoDoubleSpace(s)
    && (s == [] || (!IsSpace(s[0]) && !IsSpace(s[|s| - 1])))
  }

  /** Stripping a collapsed string leaves a tidy paragraph. */
  lemma StripTidy(c: string)
    requires forall i :: 0 <= i < |c| && IsSpace(c[i]) ==> c[i] == ' '
    requires NoDoubleSpace(c)
    ensures Tidy(Strip(c))
  {
    var a, b := StripWindow(c);
    var o := Strip(c);
    forall i | 0 <= i < |o| && IsSpace(o[i]) ensures o[i] == ' ' {
      assert o[i] == c[a + i];
    }
    forall i, j | 0 <= i < j < |o| && j == i + 1 ensures !(IsSpace(o[i]) && IsSpace(o[j])) {
      assert o[i] == c[a + i] && o[j] == c[a + j];
    }
  }

  /** The output holds no whitespace at either end, no two adjacent whitespace
      characters, and no whitespace other than ' ' (so no newline). */
  lemma CleanParagraphsTidy(text: string)
    ensures Tidy(CleanParagraphs(text))
  {
    var joined := Join(" ", Kept(SplitOn(Join("\n", LetterLines(SplitLines(text))), '\n')));
    CollapseShape(joined);
    StripTidy(CollapseSpaces(joined));
  }

  /** A tidy paragraph has no line-break character. */
  lemma TidyNoBreak(o: string)
    requires Tidy(o)
    ensures forall i :: 0 <= i < |o| ==> !IsLineBreak(o[i])
  {
  }

  // ---------------------------------------------------------------------------
  // Which text survives

  /** The lines that survive both filters, stripped, in input order. */
  function Survivors(lines: seq<string>): (r: seq<string>)
    ensures |r| <= |lines|
  {
    if lines == [] then []
    else
      var init := Survivors(lines[..|lines| - 1]);
      var last := lines[|lines| - 1];
      if HasThreeLetters(last) && KeepStripped(Strip(last)) then init + [Strip(last)] else init
  }

  lemma {:induction false} KeptOfLetterLines(lines: seq<string>)
    ensures Kept(LetterLines(lines)) == Survivors(lines)
  {
    if lines != [] {
      var init := lines[..|lines| - 1];
      var last := lines[|lines| - 1];
      KeptOfLetterLines(init);
      if HasThreeLetters(last) {
        var ll := LetterLines(init) + [last];
        assert ll[..|ll| - 1] == LetterLines(init);
      }
    }
  }

  lemma {:induction false} SurvivorsMembers(lines: seq<string>, t: string)
    ensures t in Survivors(lines) <==>
      exists k :: 0 <= k < |lines| && HasThreeLetters(lines[k]) && KeepStripped(Strip(lines[k])) && t == Strip(lines[k])
  {
    if lines != [] {
      var init := lines[..|lines| - 1];
      SurvivorsMembers(init, t);
      if t in Survivors(lines) && t !in Survivors(init) {
        assert t == Strip(lines[|lines| - 1]);
      }
      if exists k :: 0 <= k < |lines| && HasThreeLetters(lines[k]) && KeepStripped(Strip(lines[k])) && t == Strip(lines[k]) {
        var k :| 0 <= k < |lines| && HasThreeLetters(lines[k]) && KeepStripped(Strip(lines[k])) && t == Strip(lines[k]);
        if k < |lines| - 1 {
          assert lines[k] == init[k];
        }
      }
    }
  }

  /** The "\n".join / split("\n") round trip in the source gives back the
      filtered lines, so the lines the loop keeps are the survivors of both filters. */
  lemma LinesRoundTrip(text: string)
    ensures Kept(SplitOn(Join("\n", LetterLines(SplitLines(text))), '\n')) == Survivors(SplitLines(text))
  {
    KeptOfLetterLines(SplitLines(text));
    SplitFiltered(text);
  }

  lemma SplitFiltered(text: string)
    ensures var ll := LetterLines(SplitLines(text));
      Kept(SplitOn(Join("\n", ll), '\n')) == Kept(ll)
  {
    var ll := LetterLines(SplitLines(text));
    if ll == [] {
      var empty: string := [];
      assert SplitOn(Join("\n", ll), '\n') == [empty];
      assert Kept([empty]) == [];
    } else {
      LetterLinesNoNewline(text, ll);
      SplitJoin(ll, '\n');
    }
  }

  /** Every line the filter keeps is one of its input lines. */
  lemma {:induction false} LetterLinesMembers(lines: seq<string>, k: nat)
    requires k < |LetterLines(lines)|
    ensures LetterLines(lines)[k] in lines
  {
    var init := lines[..|lines| - 1];
    var li := LetterLines(init);
    if k < |li| {
      LetterLinesMembers(init, k);
      assert li[k] in init;
    }
  }

  lemma LetterLinesNoNewline(text: string, ll: seq<string>)
    requires ll == LetterLines(SplitLines(text))
    ensures forall k, i :: 0 <= k < |ll| && 0 <= i < |ll[k]| ==> ll[k][i] != '\n'
  {
    var lines := SplitLines(text);
    forall k, i | 0 <= k < |ll| && 0 <= i < |ll[k]| ensures ll[k][i] != '\n' {
      LetterLinesMembers(lines, k);
      var m :| 0 <= m < |lines| && lines[m] == ll[k];
      SplitLinesClean(text, m, i);
    }
  }

  /** The output is the survivors of both filters, stripped and in input order,
      flowed into one paragraph; a stripped line survives exactly when its raw
      line has three letters in a row and the stripped line is not a page
      number and has at least three characters. */
  lemma CleanParagraphsText(text: string, t: string)
    ensures CleanParagraphs(text) == Strip(CollapseSpaces(Join(" ", Survivors(SplitLines(text)))))
    ensures t in Survivors(SplitLines(text)) <==>
      exists k :: 0 <= k < |SplitLines(text)| && HasThreeLetters(SplitLines(text)[k])
        && KeepStripped(Strip(SplitLines(text)[k])) && t == Strip(SplitLines(text)[k])
  {
    LinesRoundTrip(text);
    SurvivorsMembers(SplitLines(text), t);
  }

  // ---------------------------------------------------------------------------
  // Idempotence

  lemma WindowKeepsLetters(s: string, a: nat, b: nat, i: nat)
    requires a <= b <= |s| && LettersAt(s, i)
    requires forall j :: 0 <= j < a ==> IsSpace(s[j])
    requires forall j :: b <= j < |s| ==> IsSpace(s[j])
    ensures a <= i && LettersAt(s[a..b], i - a)
  {
    assert !IsSpace(s[i]) && !IsSpace(s[i + 2]);
  }

  /** Three letters at the very start survive the collapse. */
  lemma CollapseKeepsFirstLetters(s: string)
    requires LettersAt(s, 0)
    ensures LettersAt(CollapseSpaces(s), 0)
  {
    var r2 := CollapseSpaces(s[2..]);
    CollapseShape(s[2..]);
    assert CollapseSpaces(s[1..]) == [s[1]] + r2;
    assert CollapseSpaces(s) == [s[0]] + ([s[1]] + r2);
  }

  /** Collapsing the tail shifts a position by at most one. */
  lemma CollapseStep(s: string, j: nat) returns (j': nat)
    requires s != [] && LettersAt(CollapseSpaces(s[1..]), j)
    ensures LettersAt(CollapseSpaces(s), j')
  {
    if IsSpace(s[0]) && |s| > 1 && IsSpace(s[1]) {
      j' := j;
    } else {
      assert CollapseSpaces(s) == [if IsSpace(s[0]) then ' ' else s[0]] + CollapseSpaces(s[1..]);
      j' := j + 1;
    }
  }

  /** Three letters in a row survive the collapse of whitespace. */
  lemma {:induction false} CollapseKeepsLetters(s: string, i: nat) returns (j: nat)
    requires LettersAt(s, i)
    ensures LettersAt(CollapseSpaces(s), j)
  {
    if i == 0 {
      CollapseKeepsFirstLetters(s);
      j := 0;
    } else {
      assert LettersAt(s[1..], i - 1);
      var j' := CollapseKeepsLetters(s[1..], i - 1);
      j := CollapseStep(s, j');
    }
  }

  /** Collapsing whitespace changes nothing in a tidy paragraph. */
  lemma {:induction false} CollapseTidy(s: string)
    requires forall i :: 0 <= i < |s| && IsSpace(s[i]) ==> s[i] == ' '
    requires NoDoubleSpace(s)
    ensures CollapseSpaces(s) == s
  {
    if s != [] {
      CollapseTidy(s[1..]);
      if |s| > 1 {
        assert !(IsSpace(s[0]) && IsSpace(s[1]));
      }
      assert s == [s[0]] + s[1..];
    }
  }

  lemma JoinKeepsFirst(parts: seq<string>, p: nat)
    requires parts != [] && LettersAt(parts[0], p)
    ensures LettersAt(Join(" ", parts), p)
  {
    var joined := Join(" ", parts);
    if |parts| > 1 {
      assert joined == parts[0] + (" " + Join(" ", parts[1..]));
    }
    assert joined[..|parts[0]|] == parts[0];
  }

  /** The first surviving line keeps three letters in a row after stripping. */
  lemma FirstSurvivorLetters(lines: seq<string>) returns (p: nat)
    requires Survivors(lines) != []
    ensures LettersAt(Survivors(lines)[0], p)
  {
    var sv := Survivors(lines);
    SurvivorsMembers(lines, sv[0]);
    var k :| 0 <= k < |lines| && HasThreeLetters(lines[k]) && KeepStripped(Strip(lines[k])) && sv[0] == Strip(lines[k]);
    var i: nat :| i <= |lines[k]| && LettersAt(lines[k], i);
    var a, b := StripWindow(lines[k]);
    WindowKeepsLetters(lines[k], a, b, i);
    p := i - a;
  }

  /** A non-empty output keeps the three letters in a row of its first line. */
  lemma NonEmptyHasLetters(text: string)
    ensures CleanParagraphs(text) != [] ==> HasThreeLetters(CleanParagraphs(text))
  {
    var sv := Survivors(SplitLines(text));
    CleanParagraphsText(text, []);
    if sv != [] {
      var p := FirstSurvivorLetters(SplitLines(text));
      JoinKeepsFirst(sv, p);
      var j := CollapseKeepsLetters(Join(" ", sv), p);
      var c := CollapseSpaces(Join(" ", sv));
      var a, b := StripWindow(c);
      WindowKeepsLetters(c, a, b, j);
      assert LettersAt(CleanParagraphs(text), j - a);
    } else {
      assert Join(" ", sv) == [];
    }
  }

  /** A tidy paragraph that is empty or has three letters in a row is one
      surviving line. */
  lemma TidySurvives(o: string)
    requires Tidy(o) && (o == [] || HasThreeLetters(o))
    ensures Survivors(SplitLines(o)) == if o == [] then [] else [o]
  {
    TidyNoBreak(o);
    SplitLinesNoBreak(o);
    var one: seq<string> := [o];
    var none: seq<string> := [];
    assert one[..0] == none;
    if o != [] {
      StripNoEnds(o);
      var i: nat :| i <= |o| && LettersAt(o, i);
      assert !IsDigit(o[i]);
      assert KeepStripped(o);
    }
  }

  /** Cleaning a tidy paragraph that is empty or has three letters in a row
      gives it back. */
  lemma TidyFixed(o: string)
    requires Tidy(o) && (o == [] || HasThreeLetters(o))
    ensures CleanParagraphs(o) == o
  {
    CleanParagraphsText(o, []);
    TidySurvives(o);
    if o != [] {
      assert Join(" ", [o]) == o;
      CollapseTidy(o);
      StripNoEnds(o);
    }
  }

  /** Cleaning an already cleaned text changes nothing. */
  lemma CleanParagraphsIdempotent(text: string)
    ensures CleanParagraphs(CleanParagraphs(text)) == CleanParagraphs(text)
  {
    CleanParagraphsTidy(text);
    NonEmptyHasLetters(text);
    TidyFixed(CleanParagraphs(text));
  }
}

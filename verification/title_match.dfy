/** `insert_period_after_title_match`: scans a section's text for the letters of
    its title, in order and ignoring case, and puts a '.' right where the scan
    stopped, so that a title run into the first sentence is closed off. */
module TitleMatch {
  import opened Wrappers
  import opened Strings

  /** The letters of `s`, lower-cased, in order (`[c for c in s.lower() if c.isalpha()]`). */
  function LowerLetters(s: string): (r: seq<char>)
    ensures |r| <= |s|
  {
    if s == [] then []
    else
      var c := s[|s| - 1];
      LowerLetters(s[..|s| - 1]) + (if IsLetter(c) then [ToLower(c)] else [])
  }

  /** How many characters of `s` are not whitespace. */
  function NonSpaceCount(s: string): (n: nat)
    ensures n <= |s|
  {
    if s == [] then 0
    else NonSpaceCount(s[..|s| - 1]) + (if IsSpace(s[|s| - 1]) then 0 else 1)
  }

  /** The new match length after the letter `c`: one more on a match, otherwise
      back to 1 if `c` is the title's first letter, else back to 0. */
  function MatchStep(letters: seq<char>, m: nat, c: char): (m': nat)
    requires m < |letters|
    ensures m' <= m + 1 && m' <= |letters|
    ensures m' == m + 1 <==> ToLower(c) == letters[m]
    ensures m' == 0 || ToLower(c) == letters[m' - 1]
  {
    if ToLower(c) == letters[m] then m + 1
    else if ToLower(c) == letters[0] then 1
    else 0
  }

  /** The match length after scanning `c`: letters step the match, other
      characters leave it alone. */
  function NextMatch(letters: seq<char>, m: nat, c: char): (m': nat)
    requires m < |letters|
    ensures m' <= |letters|
  {
    if IsLetter(c) then MatchStep(letters, m, c) else m
  }

  /** The count after scanning `c`: letters and other non-whitespace
      characters count, whitespace does not. */
  function NextCount(count: nat, c: char): (n: nat)
    ensures n == count + (if IsSpace(c) then 0 else 1)
  {
    if IsLetter(c) then count + 1 else if !IsSpace(c) then count + 1 else count
  }

  /** Where the scan stopped, how many title letters it had matched, and
      whether it stopped because the `max_scan` budget ran out. */
  datatype Stop = Stop(pos: nat, matched: nat, cut: bool)

  /** The scan loop, from match length `m`, non-space count `count` and
      position `i` on. */
  function Scan(letters: seq<char>, content: string, maxScan: Option<int>, m: nat, count: nat, i: nat): (r: Stop)
    requires m <= |letters|
    ensures i <= r.pos
    decreases |content| - i
  {
    if m >= |letters| || i >= |content| then Stop(i, m, false)
    else
      var m' := NextMatch(letters, m, content[i]);
      var count' := NextCount(count, content[i]);
      if maxScan.Some? && count' >= maxScan.value then Stop(i, m', true)
      else Scan(letters, content, maxScan, m', count', i + 1)
  }

  /** Where the '.' goes, if anywhere: at the stop position, when every title
      letter was matched and that position holds a character other than '.'. */
  function InsertionPoint(title: string, content: string, maxScan: Option<int>, start: nat): Option<nat>
  {
    var letters := LowerLetters(title);
    var s := Scan(letters, content, maxScan, 0, 0, start);
    if s.matched == |letters| && s.pos < |content| && content[s.pos] != '.' then Some(s.pos) else None
  }

  /** The whole function. */
  function InsertPeriod(title: string, content: string, maxScan: Option<int>, start: nat): (r: string)
  {
    match InsertionPoint(title, content, maxScan, start)
    case None => content
    case Some(p) => content[..p] + "." + content[p..]
  }

  /** The loop of the source, with its three counters. */
  method InsertPeriodAfterTitleMatch(title: string, content: string, maxScan: Option<int>, start: nat) returns (r: string)
    ensures r == InsertPeriod(title, content, maxScan, start)
  {
    var letters := LowerLetters(title);
    var matchLength: nat := 0;
    var letterIndex: nat := 0;
    var i := start;
    while matchLength < |letters| && i < |content|
      invariant matchLength <= |letters|
      invariant Scan(letters, content, maxScan, matchLength, letterIndex, i) == Scan(letters, content, maxScan, 0, 0, start)
      decreases |content| - i
    {
      var c := content[i];
      if IsLetter(c) {
        if ToLower(c) == letters[matchLength] {
          matchLength := matchLength + 1;
        } else {
          matchLength := 0;
          if letters != [] && ToLower(c) == letters[0] {
            matchLength := 1;
          }
        }
        letterIndex := letterIndex + 1;
      } else if !IsSpace(c) {
        letterIndex := letterIndex + 1;
      }
      if maxScan.Some? && letterIndex >= maxScan.value {
        break;
      }
      i := i + 1;
    }
    if matchLength == |letters| && i < |content| && content[i] != '.' {
      r := content[..i] + "." + content[i..];
    } else {
      r := content;
    }
  }

  // ---------------------------------------------------------------------------
  // Shape of the result

  /** Putting one '.' in at `p` and deleting it again gives the text back. */
  lemma InsertDot(content: string, p: nat)
    requires p <= |content|
    ensures var r := content[..p] + "." + content[p..];
      && |r| == |content| + 1 && r[p] == '.'
      && r[..p] == content[..p] && r[p + 1..] == content[p..]
      && r[..p] + r[p + 1..] == content
  {
    var r := content[..p] + "." + content[p..];
    assert r[..p] == content[..p];
    assert r[p + 1..] == content[p..];
    assert content[..p] + content[p..] == content;
  }

  /** The result is the content unchanged, or the content with one '.' put in
      at a position inside it that does not already hold '.'; deleting that
      '.' gives the content back. */
  lemma InsertPeriodShape(title: string, content: string, maxScan: Option<int>, start: nat)
    ensures var r := InsertPeriod(title, content, maxScan, start);
      match InsertionPoint(title, content, maxScan, start)
      case None => r == content
      case Some(p) =>
        && start <= p < |content| && content[p] != '.'
        && |r| == |content| + 1 && r[p] == '.'
        && r[..p] == content[..p] && r[p + 1..] == content[p..]
        && r[..p] + r[p + 1..] == content
  {
    match InsertionPoint(title, content, maxScan, start)
    case None =>
    case Some(p) => InsertDot(content, p);
  }

  // ---------------------------------------------------------------------------
  // What the scan has matched

  /** `t` ends with `u`. */
  predicate EndsWith<T(==)>(t: seq<T>, u: seq<T>)
  {
    |u| <= |t| && t[|t| - |u|..] == u
  }

  lemma LowerLettersSnoc(s: string, c: char)
    ensures LowerLetters(s + [c]) == LowerLetters(s) + (if IsLetter(c) then [ToLower(c)] else [])
  {
    assert (s + [c])[..|s|] == s;
  }

  lemma NonSpaceCountSnoc(s: string, c: char)
    ensures NonSpaceCount(s + [c]) == NonSpaceCount(s) + (if IsSpace(c) then 0 else 1)
  {
    assert (s + [c])[..|s|] == s;
  }

  /** One step of the scan keeps the matched title prefix a suffix of the
      letters scanned so far. */
  lemma MatchStepSuffix(letters: seq<char>, m: nat, proj: seq<char>, c: char)
    requires m < |letters| && IsLetter(c) && EndsWith(proj, letters[..m])
    ensures EndsWith(proj + [ToLower(c)], letters[..MatchStep(letters, m, c)])
  {
    var m' := MatchStep(letters, m, c);
    var t := proj + [ToLower(c)];
    if m' == m + 1 {
      assert letters[..m'] == letters[..m] + [letters[m]];
      assert t[|t| - m'..] == proj[|proj| - m..] + [ToLower(c)];
    } else if m' == 1 {
      assert t[|t| - 1..] == [ToLower(c)];
    }
  }

  /** What a stop of the scan promises: the matched part of the title is a
      suffix of the lower-cased letters of the scanned text, which ends at the
      stop position, or one character later when `max_scan` cut the scan; and
      past `start`, the non-whitespace characters before the stop position
      stay under the `max_scan` budget. */
  ghost predicate StopMatches(letters: seq<char>, content: string, maxScan: Option<int>, start: nat, r: Stop)
    requires start <= r.pos
  {
    var scanned := if r.cut then r.pos + 1 else r.pos;
    && r.matched <= |letters| && scanned <= |content|
    && EndsWith(LowerLetters(content[start..scanned]), letters[..r.matched])
    && (maxScan.Some? && r.pos > start ==> NonSpaceCount(content[start..r.pos]) < maxScan.value)
  }

  /** The scan's invariant, carried from position `i` to wherever it stops. */
  lemma {:induction false} ScanMatches(letters: seq<char>, content: string, maxScan: Option<int>, m: nat, count: nat, start: nat, i: nat)
    requires m <= |letters| && start <= i <= |content|
    requires EndsWith(LowerLetters(content[start..i]), letters[..m])
    requires count == NonSpaceCount(content[start..i])
    requires maxScan.Some? && i > start ==> count < maxScan.value
    ensures StopMatches(letters, content, maxScan, start, Scan(letters, content, maxScan, m, count, i))
    decreases |content| - i
  {
    if m < |letters| && i < |content| {
      ScanStep(letters, content, m, count, start, i);
      var m' := NextMatch(letters, m, content[i]);
      var count' := NextCount(count, content[i]);
      if !(maxScan.Some? && count' >= maxScan.value) {
        ScanMatches(letters, content, maxScan, m', count', start, i + 1);
        ScanContinues(letters, content, maxScan, m, count, i);
      } else {
        ScanCut(letters, content, maxScan, m, count, start, i);
      }
    }
  }

  lemma ScanContinues(letters: seq<char>, content: string, maxScan: Option<int>, m: nat, count: nat, i: nat)
    requires m < |letters| && i < |content|
    requires !(maxScan.Some? && NextCount(count, content[i]) >= maxScan.value)
    ensures Scan(letters, content, maxScan, m, count, i)
      == Scan(letters, content, maxScan, NextMatch(letters, m, content[i]), NextCount(count, content[i]), i + 1)
  {
  }

  lemma ScanCut(letters: seq<char>, content: string, maxScan: Option<int>, m: nat, count: nat, start: nat, i: nat)
    requires m < |letters| && start <= i < |content|
    requires maxScan.Some? && NextCount(count, content[i]) >= maxScan.value
    requires EndsWith(LowerLetters(content[start..i + 1]), letters[..NextMatch(letters, m, content[i])])
    requires count == NonSpaceCount(content[start..i])
    requires i > start ==> count < maxScan.value
    ensures StopMatches(letters, content, maxScan, start, Scan(letters, content, maxScan, m, count, i))
  {
    assert Scan(letters, content, maxScan, m, count, i) == Stop(i, NextMatch(letters, m, content[i]), true);
  }

  /** One step of the scan keeps the invariant of `ScanMatches`. */
  lemma ScanStep(letters: seq<char>, content: string, m: nat, count: nat, start: nat, i: nat)
    requires m < |letters| && start <= i < |content|
    requires EndsWith(LowerLetters(content[start..i]), letters[..m])
    requires count == NonSpaceCount(content[start..i])
    ensures EndsWith(LowerLetters(content[start..i + 1]), letters[..NextMatch(letters, m, content[i])])
    ensures NextCount(count, content[i]) == NonSpaceCount(content[start..i + 1])
  {
    var c := content[i];
    assert content[start..i + 1] == content[start..i] + [c];
    LowerLettersSnoc(content[start..i], c);
    NonSpaceCountSnoc(content[start..i], c);
    if IsLetter(c) {
      MatchStepSuffix(letters, m, LowerLetters(content[start..i]), c);
    }
  }

  /** A '.' is put in only after every title letter has been met, in order and
      ignoring case, among the letters of the content from `start` on (other
      characters skipped): the lower-cased letters of the scanned text end with
      the title's letters. The scanned text ends at the '.' unless `max_scan`
      cut the scan, in which case it takes in one more character. Past `start`,
      fewer than `max_scan` non-whitespace characters precede the '.'. */
  lemma InsertedAfterTitle(title: string, content: string, maxScan: Option<int>, start: nat)
    requires InsertionPoint(title, content, maxScan, start).Some?
    ensures var p := InsertionPoint(title, content, maxScan, start).value;
      var s := Scan(LowerLetters(title), content, maxScan, 0, 0, start);
      && p == s.pos
      && EndsWith(LowerLetters(content[start..if s.cut then p + 1 else p]), LowerLetters(title))
      && (maxScan.Some? && p > start ==> NonSpaceCount(content[start..p]) < maxScan.value)
  {
    var letters := LowerLetters(title);
    ScanFromStart(letters, content, maxScan, start);
    assert letters[..|letters|] == letters;
  }

  /** With no `max_scan`, a content whose letters from `start` on begin with
      the title's letters is matched: the scan stops right after the last of
      those letters, so the text before the '.' holds exactly the title's
      letters. */
  lemma {:induction false} ScanFindsLeadingTitle(letters: seq<char>, content: string, m: nat, count: nat, i: nat)
    requires m <= |letters| && i <= |content|
    requires |letters| - m <= |LowerLetters(content[i..])|
    requires LowerLetters(content[i..])[..|letters| - m] == letters[m..]
    ensures var r := Scan(letters, content, None, m, count, i);
      r.matched == |letters| && r.pos <= |content| && LowerLetters(content[i..r.pos]) == letters[m..]
    decreases |content| - i
  {
    if m == |letters| {
      assert content[i..i] == [];
    } else {
      LeadingStep(letters, content, m, i);
      var m' := NextMatch(letters, m, content[i]);
      var count' := NextCount(count, content[i]);
      ScanFindsLeadingTitle(letters, content, m', count', i + 1);
      ScanContinues(letters, content, None, m, count, i);
      var r := Scan(letters, content, None, m', count', i + 1);
      LeadingBack(letters, content, m, i, r.pos);
    }
  }

  /** One step of a leading match: the next character exists, and after it the
      rest of the title's letters still lead. */
  lemma LeadingStep(letters: seq<char>, content: string, m: nat, i: nat)
    requires m < |letters| && i <= |content|
    requires |letters| - m <= |LowerLetters(content[i..])|
    requires LowerLetters(content[i..])[..|letters| - m] == letters[m..]
    ensures i < |content|
    ensures var m' := NextMatch(letters, m, content[i]);
      && |letters| - m' <= |LowerLetters(content[i + 1..])|
      && LowerLetters(content[i + 1..])[..|letters| - m'] == letters[m'..]
      && (m' == m + 1 <==> IsLetter(content[i]))
      && (m' == m || m' == m + 1)
  {
    var c := content[i];
    LowerLettersCons(c, content[i + 1..]);
    assert content[i..] == [c] + content[i + 1..];
    if IsLetter(c) {
      assert ToLower(c) == letters[m];
      assert letters[m..] == [letters[m]] + letters[m + 1..];
    }
  }

  /** Going back one step of a leading match. */
  lemma LeadingBack(letters: seq<char>, content: string, m: nat, i: nat, pos: nat)
    requires m < |letters| && i < pos <= |content|
    requires var m' := NextMatch(letters, m, content[i]);
      && (m' == m + 1 <==> IsLetter(content[i])) && (m' == m || m' == m + 1)
      && LowerLetters(content[i + 1..pos]) == letters[m'..]
    ensures LowerLetters(content[i..pos]) == letters[m..]
  {
    var c := content[i];
    assert content[i..pos] == [c] + content[i + 1..pos];
    LowerLettersCons(c, content[i + 1..pos]);
    if IsLetter(c) {
      assert letters[m..] == [letters[m]] + letters[m + 1..];
    }
  }

  lemma {:induction false} LowerLettersCons(c: char, s: string)
    ensures LowerLetters([c] + s) == (if IsLetter(c) then [ToLower(c)] else []) + LowerLetters(s)
    decreases |s|
  {
    if s == [] {
      assert [c] + s == [c];
      assert [c][..0] == [];
    } else {
      var init := s[..|s| - 1];
      var last := s[|s| - 1];
      LowerLettersCons(c, init);
      assert [c] + s == ([c] + init) + [last];
      LowerLettersSnoc([c] + init, last);
      LowerLettersSnoc(init, last);
      assert init + [last] == s;
    }
  }

  /** A title with no letters matches at once: the '.' goes at `start` when
      that position is inside the content and does not hold '.'. */
  lemma NoLetterTitle(title: string, content: string, maxScan: Option<int>, start: nat)
    requires LowerLetters(title) == []
    ensures InsertPeriod(title, content, maxScan, start) ==
      if start < |content| && content[start] != '.' then content[..start] + "." + content[start..] else content
  {
  }

  /** With no `max_scan`, when the letters of the content from `start` on
      begin with the title's letters, the '.' goes right after the last of
      them (when that position exists and does not hold '.'). */
  lemma LeadingTitleGetsPeriod(title: string, content: string, start: nat)
    requires start <= |content|
    requires |LowerLetters(title)| <= |LowerLetters(content[start..])|
    requires LowerLetters(content[start..])[..|LowerLetters(title)|] == LowerLetters(title)
    ensures var p := Scan(LowerLetters(title), content, None, 0, 0, start).pos;
      && start <= p <= |content|
      && LowerLetters(content[start..p]) == LowerLetters(title)
      && InsertionPoint(title, content, None, start) == if p < |content| && content[p] != '.' then Some(p) else None
  {
    var letters := LowerLetters(title);
    assert letters[0..] == letters;
    ScanFindsLeadingTitle(letters, content, 0, 0, start);
  }

  // ---------------------------------------------------------------------------
  // The `max_scan` cut

  /** As written, when the `max_scan` budget runs out on the very letter that
      completes the title, the scan breaks before moving past that letter and
      the '.' lands in front of it: title "ab", content "abc", budget 2 gives
      "a.bc". */
  lemma CutSplitsLastLetter()
    ensures InsertPeriod("ab", "abc", Some(2), 0) == "a.bc"
  {
    var letters := LowerLetters("ab");
    LettersOfAb();
    var s1 := Scan(letters, "abc", Some(2), 1, 1, 1);
    assert s1 == Stop(1, 2, true) by {
      assert "abc"[1] == 'b';
      assert NextCount(1, 'b') == 2;
      assert NextMatch(letters, 1, 'b') == 2;
    }
    assert Scan(letters, "abc", Some(2), 0, 0, 0) == s1 by {
      assert "abc"[0] == 'a';
      assert NextCount(0, 'a') == 1;
      assert NextMatch(letters, 0, 'a') == 1;
    }
    assert InsertionPoint("ab", "abc", Some(2), 0) == Some(1);
    assert "abc"[..1] + "." + "abc"[1..] == "a.bc";
  }

  lemma LettersOfAb()
    ensures LowerLetters("ab") == "ab"
  {
    assert "ab"[..1] == "a";
    assert "a"[..0] == "";
    assert LowerLetters("a") == "a";
  }

  /** Where the '.' evidently belongs: after the character the scan stopped
      on when the budget cut it, since that character was scanned. */
  function CorrectedInsertionPoint(title: string, content: string, maxScan: Option<int>, start: nat): Option<nat>
  {
    var letters := LowerLetters(title);
    var s := Scan(letters, content, maxScan, 0, 0, start);
    var p := if s.cut then s.pos + 1 else s.pos;
    if s.matched == |letters| && p < |content| && content[p] != '.' then Some(p) else None
  }

  function InsertPeriodCorrected(title: string, content: string, maxScan: Option<int>, start: nat): (r: string)
  {
    match CorrectedInsertionPoint(title, content, maxScan, start)
    case None => content
    case Some(p) => content[..p] + "." + content[p..]
  }

  /** With the correction, the lower-cased letters of the text before the '.'
      always end with the title's letters, budget or not. */
  lemma CorrectedAfterTitle(title: string, content: string, maxScan: Option<int>, start: nat)
    requires CorrectedInsertionPoint(title, content, maxScan, start).Some?
    ensures var p := CorrectedInsertionPoint(title, content, maxScan, start).value;
      && start <= p < |content| && content[p] != '.'
      && EndsWith(LowerLetters(content[start..p]), LowerLetters(title))
  {
    var letters := LowerLetters(title);
    var s := Scan(letters, content, maxScan, 0, 0, start);
    ScanFromStart(letters, content, maxScan, start);
    assert StopMatches(letters, content, maxScan, start, s);
    assert letters[..|letters|] == letters;
  }

  /** With the correction, the '.' is still the only change. */
  lemma CorrectedShape(title: string, content: string, maxScan: Option<int>, start: nat)
    requires CorrectedInsertionPoint(title, content, maxScan, start).Some?
    ensures var p := CorrectedInsertionPoint(title, content, maxScan, start).value;
      var r := InsertPeriodCorrected(title, content, maxScan, start);
      p < |content| && r[p] == '.' && r[..p] + r[p + 1..] == content
  {
    InsertDot(content, CorrectedInsertionPoint(title, content, maxScan, start).value);
  }

  /** `ScanMatches` from the start of the scan. */
  lemma ScanFromStart(letters: seq<char>, content: string, maxScan: Option<int>, start: nat)
    requires start <= |content|
    ensures StopMatches(letters, content, maxScan, start, Scan(letters, content, maxScan, 0, 0, start))
  {
    assert content[start..start] == [];
    ScanMatches(letters, content, maxScan, 0, 0, start, start);
  }

  /** A scan without a budget is never cut. */
  lemma {:induction false} UncutWithoutBudget(letters: seq<char>, content: string, m: nat, count: nat, i: nat)
    requires m <= |letters|
    ensures !Scan(letters, content, None, m, count, i).cut
    decreases |content| - i
  {
    if m < |letters| && i < |content| {
      UncutWithoutBudget(letters, content, NextMatch(letters, m, content[i]), NextCount(count, content[i]), i + 1);
    }
  }

  /** Without a budget, which is how the extraction calls it, the corrected
      function and the function as written agree. */
  lemma CorrectedAgreesWithoutBudget(title: string, content: string, start: nat)
    ensures InsertPeriodCorrected(title, content, None, start) == InsertPeriod(title, content, None, start)
  {
    UncutWithoutBudget(LowerLetters(title), content, 0, 0, start);
  }
}

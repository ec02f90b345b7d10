/** `remove_capital`: finds runs of capitals and symbols with the pattern
    `\b(?:(?:[A-Z]|[^\w\s.])+\s?)+\b` and closes each long enough run with a
    '.', keeping its characters and their case. */
module Capitals {
  import opened Wrappers
  import opened Strings

  // ---------------------------------------------------------------------------
  // The pattern

  /** `[A-Z]|[^\w\s.]`: an upper-case letter, or a symbol, that is a character
      that is neither a word character, whitespace nor '.'. */
  predicate IsRunChar(c: char)
  {
    IsUpper(c) || (!IsWordChar(c) && !IsSpace(c) && c != '.')
  }

  /** `\b` at position `k` of `t`: a word character on exactly one side. */
  predicate Boundary(t: string, k: nat)
    requires k <= |t|
  {
    (k > 0 && IsWordChar(t[k - 1])) != (k < |t| && IsWordChar(t[k]))
  }

  /** The strings `(?:(?:[A-Z]|[^\w\s.])+\s?)+` matches: a run character
      first, then run characters and whitespace, never two whitespace
      characters in a row. */
  ghost predicate IsRun(w: string)
  {
    && |w| > 0 && IsRunChar(w[0])
    && (forall k :: 0 <= k < |w| ==> IsRunChar(w[k]) || IsSpace(w[k]))
    && NoDoubleSpace(w)
  }

  /** The whole pattern matches `t[s..e]`. */
  ghost predicate MatchesAt(t: string, s: nat, e: nat)
  {
    s < e <= |t| && Boundary(t, s) && Boundary(t, e) && IsRun(t[s..e])
  }

  /** Where the longest run that starts with the run character at `i` ends. */
  function RunEnd(t: string, i: nat): (e: nat)
    requires i < |t| && IsRunChar(t[i])
    ensures i < e <= |t|
    decreases |t| - i
  {
    if i + 1 < |t| && IsRunChar(t[i + 1]) then RunEnd(t, i + 1)
    else if i + 2 < |t| && IsSpace(t[i + 1]) && IsRunChar(t[i + 2]) then RunEnd(t, i + 2)
    else if i + 1 < |t| && IsSpace(t[i + 1]) then i + 2
    else i + 1
  }

  /** The last position in `(lo, e]` with a word boundary. */
  function LastBoundary(t: string, lo: nat, e: nat): (r: Option<nat>)
    requires e <= |t|
    ensures r.Some? ==> lo < r.value <= e
    decreases e
  {
    if e <= lo then None
    else if Boundary(t, e) then Some(e)
    else LastBoundary(t, lo, e - 1)
  }

  /** Where a match that starts at `s` ends, if one does. The pattern is
      greedy throughout and backtracks one position at a time, so the match
      is the longest run from `s` that ends at a word boundary. */
  function MatchAt(t: string, s: nat): (r: Option<nat>)
    ensures r.Some? ==> s < r.value <= |t|
  {
    if s < |t| && IsRunChar(t[s]) && Boundary(t, s) then LastBoundary(t, s, RunEnd(t, s)) else None
  }

  /** A match: where it starts and where it ends. */
  datatype Span = Span(start: nat, end: nat)

  /** The next match at or after `pos` (what `finditer` yields next). */
  function FindMatch(t: string, pos: nat): (r: Option<Span>)
    ensures r.Some? ==> pos <= r.value.start < r.value.end <= |t|
    decreases |t| - pos
  {
    if pos >= |t| then None
    else match MatchAt(t, pos)
      case Some(e) => Some(Span(pos, e))
      case None => FindMatch(t, pos + 1)
  }

  // ---------------------------------------------------------------------------
  // The scanner finds exactly the matches of the pattern

  lemma IsRunPrefix(w: string, k: nat)
    requires IsRun(w) && 0 < k <= |w|
    ensures IsRun(w[..k])
  {
    var v := w[..k];
    forall i, j | 0 <= i < j < |v| && j == i + 1 ensures !(IsSpace(v[i]) && IsSpace(v[j])) {
      assert v[i] == w[i] && v[j] == w[j];
    }
  }

  /** Gluing a run character in front of a run. */
  lemma IsRunCons(c: char, w: string)
    requires IsRunChar(c) && IsRun(w)
    ensures IsRun([c] + w)
  {
    var v := [c] + w;
    forall i, j | 0 <= i < j < |v| && j == i + 1 ensures !(IsSpace(v[i]) && IsSpace(v[j])) {
      if i > 0 { assert v[i] == w[i - 1] && v[j] == w[j - 1]; }
    }
    forall k | 0 <= k < |v| ensures IsRunChar(v[k]) || IsSpace(v[k]) {
      if k > 0 { assert v[k] == w[k - 1]; }
    }
  }

  /** Gluing a run character and one whitespace character in front of a run. */
  lemma IsRunCons2(c: char, d: char, w: string)
    requires IsRunChar(c) && IsSpace(d) && IsRun(w)
    ensures IsRun([c, d] + w)
  {
    var v := [c, d] + w;
    forall i, j | 0 <= i < j < |v| && j == i + 1 ensures !(IsSpace(v[i]) && IsSpace(v[j])) {
      if i > 1 { assert v[i] == w[i - 2] && v[j] == w[j - 2]; }
      if i == 1 { assert v[j] == w[0]; }
    }
    forall k | 0 <= k < |v| ensures IsRunChar(v[k]) || IsSpace(v[k]) {
      if k > 1 { assert v[k] == w[k - 2]; }
    }
  }

  /** The tail of a run after its first character, when that tail starts with a
      run character. */
  lemma IsRunTail(w: string, k: nat)
    requires IsRun(w) && 0 < k < |w| && IsRunChar(w[k])
    ensures IsRun(w[k..])
  {
    var v := w[k..];
    forall i, j | 0 <= i < j < |v| && j == i + 1 ensures !(IsSpace(v[i]) && IsSpace(v[j])) {
      assert v[i] == w[k + i] && v[j] == w[k + j];
    }
    forall i | 0 <= i < |v| ensures IsRunChar(v[i]) || IsSpace(v[i]) {
      assert v[i] == w[k + i];
    }
  }

  /** `RunEnd` is right: from a run character at `s`, the text up to `e` is a
      run exactly when `e` is at most `RunEnd(t, s)`. */
  lemma {:induction false} RunEndExact(t: string, s: nat, e: nat)
    requires s < e <= |t| && IsRunChar(t[s])
    ensures IsRun(t[s..e]) <==> e <= RunEnd(t, s)
    decreases |t| - s
  {
    var w := t[s..e];
    if e == s + 1 {
      assert w == [t[s]];
    } else if IsRunChar(t[s + 1]) {
      RunEndExact(t, s + 1, e);
      assert w == [t[s]] + t[s + 1..e];
      if IsRun(t[s + 1..e]) {
        IsRunCons(t[s], t[s + 1..e]);
      }
      if IsRun(w) {
        assert w[1..] == t[s + 1..e];
        IsRunTail(w, 1);
      }
    } else if IsSpace(t[s + 1]) {
      if e == s + 2 {
        assert w == [t[s], t[s + 1]];
      } else if IsRunChar(t[s + 2]) {
        RunEndExact(t, s + 2, e);
        assert w == [t[s], t[s + 1]] + t[s + 2..e];
        if IsRun(t[s + 2..e]) {
          IsRunCons2(t[s], t[s + 1], t[s + 2..e]);
        }
        if IsRun(w) {
          assert w[2..] == t[s + 2..e];
          IsRunTail(w, 2);
        }
      } else {
        assert w[1] == t[s + 1] && w[2] == t[s + 2];
      }
    } else {
      assert w[1] == t[s + 1];
    }
  }

  lemma {:induction false} LastBoundaryExact(t: string, lo: nat, e: nat)
    requires e <= |t|
    ensures match LastBoundary(t, lo, e)
      case Some(k) => Boundary(t, k) && forall j :: k < j <= e ==> !Boundary(t, j)
      case None => forall j :: lo < j <= e ==> !Boundary(t, j)
    decreases e
  {
    if e > lo && !Boundary(t, e) {
      LastBoundaryExact(t, lo, e - 1);
    }
  }

  /** `MatchAt` finds the longest match of the pattern that starts at `s`, and
      finds none when there is none. */
  lemma MatchAtExact(t: string, s: nat)
    ensures match MatchAt(t, s)
      case Some(e) => MatchesAt(t, s, e) && forall e' :: e < e' ==> !MatchesAt(t, s, e')
      case None => forall e' :: !MatchesAt(t, s, e')
  {
    if s < |t| && IsRunChar(t[s]) && Boundary(t, s) {
      var end := RunEnd(t, s);
      LastBoundaryExact(t, s, end);
      forall e' | s < e' <= |t| ensures IsRun(t[s..e']) <==> e' <= end {
        RunEndExact(t, s, e');
      }
    } else if s < |t| && !IsRunChar(t[s]) {
      forall e': nat | s < e' <= |t| ensures !IsRun(t[s..e']) {
        assert t[s..e'][0] == t[s];
      }
    }
  }

  /** `FindMatch` yields the leftmost match at or after `pos`, and the longest
      one at that start; it yields nothing when no match is left. */
  lemma {:induction false} FindMatchExact(t: string, pos: nat)
    ensures match FindMatch(t, pos)
      case Some(m) =>
        && MatchesAt(t, m.start, m.end)
        && (forall e' :: m.end < e' ==> !MatchesAt(t, m.start, e'))
        && (forall s', e' :: pos <= s' < m.start ==> !MatchesAt(t, s', e'))
      case None => forall s', e' :: pos <= s' ==> !MatchesAt(t, s', e')
    decreases |t| - pos
  {
    MatchAtExact(t, pos);
    if pos < |t| && MatchAt(t, pos).None? {
      FindMatchExact(t, pos + 1);
    }
  }

  // ---------------------------------------------------------------------------
  // The replacement of one match

  /** The length of the leading run of non-whitespace characters. */
  function WordLen(s: string): (k: nat)
    ensures k <= |s| && (s != [] && !IsSpace(s[0]) ==> k >= 1)
    ensures forall i :: 0 <= i < k ==> !IsSpace(s[i])
  {
    if s == [] || IsSpace(s[0]) then 0 else 1 + WordLen(s[1..])
  }

  /** `s.split()`: the maximal runs of non-whitespace characters. */
  function Words(s: string): (r: seq<string>)
    ensures |r| <= |s|
    ensures forall j :: 0 <= j < |r| ==> r[j] != [] && forall i :: 0 <= i < |r[j]| ==> !IsSpace(r[j][i])
    decreases |s|
  {
    if s == [] then []
    else if IsSpace(s[0]) then Words(s[1..])
    else
      var k := WordLen(s);
      [s[..k]] + Words(s[k..])
  }

  /** `len(re.sub(r'[^A-Za-z0-9]', '', s))`. */
  function AlnumCount(s: string): (n: nat)
    ensures n == 0 <==> forall i :: 0 <= i < |s| ==> !IsAlnum(s[i])
    ensures n == |s| <==> forall i :: 0 <= i < |s| ==> IsAlnum(s[i])
    ensures n <= |s|
  {
    if s == [] then 0 else (if IsAlnum(s[0]) then 1 else 0) + AlnumCount(s[1..])
  }

  /** `s.rstrip('.')`. */
  function RStripDots(s: string): (r: string)
    ensures |r| <= |s| && r == s[..|r|]
    ensures forall i :: |r| <= i < |s| ==> s[i] == '.'
    ensures r == [] || r[|r| - 1] != '.'
  {
    if s != [] && s[|s| - 1] == '.' then RStripDots(s[..|s| - 1]) else s
  }

  /** The words of the matched block. */
  function BlockWords(t: string, s: nat, e: nat): seq<string>
    requires s <= e <= |t|
  {
    Words(Strip(t[s..e]))
  }

  /** The block ends in a one-character word other than "." after at least one
      other word: that character is moved behind the period. */
  predicate HasTrailingSingle(words: seq<string>)
  {
    |words| >= 2 && |words[|words| - 1]| == 1 && words[|words| - 1] != "."
  }

  /** The words the period closes. */
  function CoreWords(words: seq<string>): (r: seq<string>)
    ensures r <= words
  {
    if HasTrailingSingle(words) then words[..|words| - 1] else words
  }

  /** The block closed by a period, with a trailing single character put
      behind the period. */
  function Closed(words: seq<string>): string
  {
    Join(" ", CoreWords(words)) + "." + (if HasTrailingSingle(words) then " " + words[|words| - 1] else "")
  }

  /** The replacement is skipped: the block is a single letter, or has at most
      `minLength` letters and digits before its trailing single character. */
  predicate Skipped(words: seq<string>, minLength: nat)
  {
    || (|words| == 1 && |words[0]| == 1 && IsLetter(words[0][0]))
    || AlnumCount(Join(" ", CoreWords(words))) <= minLength
  }

  /** The spacing around the closed block `rep` at the end `e` of the match:
      its period is dropped when `t` has one right after the match, and a
      space is added unless a space or a period follows. */
  function Finish(rep: string, t: string, e: nat): string
    requires e <= |t|
  {
    var rep' := if e < |t| && t[e] == '.' then RStripDots(rep) else rep;
    if e >= |t| || (t[e] != ' ' && t[e] != '.') then rep' + " " else rep'
  }

  /** What replaces the match `t[s..e]`, or `None` when it stays as it is. */
  function Replacement(t: string, s: nat, e: nat, minLength: nat): Option<string>
    requires s <= e <= |t|
  {
    var words := BlockWords(t, s, e);
    if Skipped(words, minLength) then None else Some(Finish(Closed(words), t, e))
  }

  // ---------------------------------------------------------------------------
  // The whole text

  /** The text from `lastEnd` on, with the replacements of the matches found
      from `pos` on, where `t[lastEnd..pos]` is still to be copied. */
  function Rewrite(t: string, pos: nat, lastEnd: nat, minLength: nat): string
    requires lastEnd <= pos <= |t|
    decreases |t| - pos
  {
    match FindMatch(t, pos)
    case None => t[lastEnd..]
    case Some(m) =>
      match Replacement(t, m.start, m.end, minLength)
      case None => Rewrite(t, m.end, lastEnd, minLength)
      case Some(rep) => t[lastEnd..m.start] + rep + Rewrite(t, m.end, m.end, minLength)
  }

  /** `remove_capital(text, min_length)`. */
  function RemoveCapital(t: string, minLength: nat): string
  {
    Rewrite(t, 0, 0, minLength)
  }

  /** One step of `Rewrite` at the match `m`, whose replacement is `rep`. */
  lemma RewriteAt(t: string, pos: nat, lastEnd: nat, minLength: nat, m: Span, rep: Option<string>)
    requires lastEnd <= pos <= |t| && FindMatch(t, pos) == Some(m)
    requires rep == Replacement(t, m.start, m.end, minLength)
    ensures rep.None? ==> Rewrite(t, pos, lastEnd, minLength) == Rewrite(t, m.end, lastEnd, minLength)
    ensures rep.Some? ==>
      Rewrite(t, pos, lastEnd, minLength) == t[lastEnd..m.start] + rep.value + Rewrite(t, m.end, m.end, minLength)
  {
  }

  /** `''.join` of the pieces after two more are appended. */
  lemma JoinPush2(parts: seq<string>, a: string, b: string, rest: string)
    ensures Join("", parts) + (a + b + rest) == Join("", parts + [a, b]) + rest
  {
    JoinAppend("", parts, a);
    JoinAppend("", parts + [a], b);
    assert parts + [a] + [b] == parts + [a, b];
  }

  /** One turn of the loop below keeps its invariant. */
  lemma LoopStep(t: string, minLength: nat, parts: seq<string>, pos: nat, lastEnd: nat, m: Span, rep: Option<string>,
                 goal: string)
    requires lastEnd <= pos <= |t| && FindMatch(t, pos) == Some(m)
    requires rep == Replacement(t, m.start, m.end, minLength)
    requires Join("", parts) + Rewrite(t, pos, lastEnd, minLength) == goal
    ensures rep.None? ==> Join("", parts) + Rewrite(t, m.end, lastEnd, minLength) == goal
    ensures rep.Some? ==> Join("", parts + [t[lastEnd..m.start], rep.value]) + Rewrite(t, m.end, m.end, minLength) == goal
  {
    RewriteAt(t, pos, lastEnd, minLength, m, rep);
    if rep.Some? {
      JoinPush2(parts, t[lastEnd..m.start], rep.value, Rewrite(t, m.end, m.end, minLength));
    }
  }

  /** When no match is left, the loop's pieces and the rest make the result. */
  lemma LoopDone(t: string, minLength: nat, parts: seq<string>, pos: nat, lastEnd: nat, goal: string)
    requires lastEnd <= pos <= |t| && FindMatch(t, pos) == None
    requires Join("", parts) + Rewrite(t, pos, lastEnd, minLength) == goal
    ensures Join("", parts + [t[lastEnd..]]) == goal
  {
    JoinAppend("", parts, t[lastEnd..]);
  }

  /** The loop over the matches: the pieces collected so far, then the rest. */
  method RemoveCapitalLoop(text: string, minLength: nat) returns (r: string)
    ensures r == RemoveCapital(text, minLength)
  {
    var result: seq<string> := [];
    var lastEnd: nat := 0;
    var pos: nat := 0;
    var next := FindMatch(text, pos);
    while next.Some?
      invariant lastEnd <= pos <= |text|
      invariant next == FindMatch(text, pos)
      invariant Join("", result) + Rewrite(text, pos, lastEnd, minLength) == RemoveCapital(text, minLength)
      decreases |text| - pos
    {
      var m := next.value;
      var replacement := Replacement(text, m.start, m.end, minLength);
      LoopStep(text, minLength, result, pos, lastEnd, m, replacement, RemoveCapital(text, minLength));
      if replacement.Some? {
        result := result + [text[lastEnd..m.start], replacement.value];
        lastEnd := m.end;
      }
      pos := m.end;
      next := FindMatch(text, pos);
    }
    LoopDone(text, minLength, result, pos, lastEnd, RemoveCapital(text, minLength));
    result := result + [text[lastEnd..]];
    r := Join("", result);
  }

  // ---------------------------------------------------------------------------
  // What the rewrite keeps

  /** The characters that are neither whitespace nor '.', in order. */
  function Visible(s: string): (r: string)
    ensures |r| <= |s|
  {
    if s == [] then []
    else (if IsSpace(s[0]) || s[0] == '.' then [] else [s[0]]) + Visible(s[1..])
  }

  lemma {:induction false} VisibleConcat(a: string, b: string)
    ensures Visible(a + b) == Visible(a) + Visible(b)
  {
    if a == [] {
      assert a + b == b;
    } else {
      assert (a + b)[0] == a[0];
      assert (a + b)[1..] == a[1..] + b;
      VisibleConcat(a[1..], b);
    }
  }

  lemma {:induction false} VisibleBlank(s: string)
    requires forall i :: 0 <= i < |s| ==> IsSpace(s[i])
    ensures Visible(s) == []
  {
    if s != [] {
      VisibleBlank(s[1..]);
    }
  }

  lemma VisibleStrip(s: string)
    ensures Visible(Strip(s)) == Visible(s)
  {
    var a, b := StripWindow(s);
    var x, y, z := s[..a], s[a..b], s[b..];
    forall i | 0 <= i < |x| ensures IsSpace(x[i]) {
      assert x[i] == s[i];
    }
    forall i | 0 <= i < |z| ensures IsSpace(z[i]) {
      assert z[i] == s[b + i];
    }
    VisibleBlank(x);
    VisibleBlank(z);
    assert s == x + y + z;
    VisibleConcat(x + y, z);
    VisibleConcat(x, y);
  }

  lemma {:induction false} VisibleRStripDots(s: string)
    ensures Visible(RStripDots(s)) == Visible(s)
    decreases |s|
  {
    if s != [] && s[|s| - 1] == '.' {
      var u := s[..|s| - 1];
      assert s == u + ".";
      VisibleConcat(u, ".");
      VisibleRStripDots(u);
    }
  }

  /** Joining the words of `s` with single spaces keeps its visible characters. */
  lemma {:induction false} WordsVisible(s: string)
    ensures Visible(Join(" ", Words(s))) == Visible(s)
    decreases |s|
  {
    if s != [] {
      if IsSpace(s[0]) {
        WordsVisible(s[1..]);
      } else {
        var k := WordLen(s);
        var w, rest := s[..k], Words(s[k..]);
        assert Words(s) == [w] + rest;
        WordsVisible(s[k..]);
        assert s == w + s[k..];
        VisibleConcat(w, s[k..]);
        if rest != [] {
          assert ([w] + rest)[1..] == rest;
          assert Join(" ", Words(s)) == w + " " + Join(" ", rest);
          VisibleConcat(w + " ", Join(" ", rest));
          VisibleConcat(w, " ");
        }
      }
    }
  }

  /** Closing the block with a period moves no visible character. */
  lemma ClosedVisible(words: seq<string>)
    ensures Visible(Closed(words)) == Visible(Join(" ", words))
  {
    var core := Join(" ", CoreWords(words));
    if HasTrailingSingle(words) {
      var last := words[|words| - 1];
      assert words == CoreWords(words) + [last];
      JoinAppend(" ", CoreWords(words), last);
      assert Closed(words) == (core + ".") + (" " + last);
      VisibleConcat(core + ".", " " + last);
      VisibleConcat(core, ".");
      VisibleConcat(core + " ", last);
      VisibleConcat(core, " ");
      VisibleConcat(" ", last);
    } else {
      assert Closed(words) == core + ".";
      VisibleConcat(core, ".");
    }
  }

  lemma FinishVisible(rep: string, t: string, e: nat)
    requires e <= |t|
    ensures Visible(Finish(rep, t, e)) == Visible(rep)
  {
    VisibleRStripDots(rep);
    var rep' := if e < |t| && t[e] == '.' then RStripDots(rep) else rep;
    VisibleConcat(rep', " ");
  }

  /** A replacement has the visible characters of the match it replaces. */
  lemma ReplacementVisible(t: string, s: nat, e: nat, minLength: nat)
    requires s <= e <= |t| && Replacement(t, s, e, minLength).Some?
    ensures Visible(Replacement(t, s, e, minLength).value) == Visible(t[s..e])
  {
    var words := BlockWords(t, s, e);
    ClosedVisible(words);
    WordsVisible(Strip(t[s..e]));
    VisibleStrip(t[s..e]);
    FinishVisible(Closed(words), t, e);
  }

  lemma SliceSplit(t: string, lo: nat, s: nat, e: nat)
    requires lo <= s <= e <= |t|
    ensures t[lo..] == t[lo..s] + t[s..e] + t[e..]
  {
    assert t[lo..s] + t[s..e] == t[lo..e];
  }

  lemma Visible3(x: string, y: string, z: string)
    ensures Visible(x + y + z) == Visible(x) + Visible(y) + Visible(z)
  {
    VisibleConcat(x + y, z);
    VisibleConcat(x, y);
  }

  /** Replacing `t[s..e]` by `rep`, with `rest` after it, keeps the visible
      characters when `rep` and `rest` keep those of what they stand for. */
  lemma SpliceVisible(t: string, lo: nat, s: nat, e: nat, rep: string, rest: string)
    requires lo <= s <= e <= |t|
    requires Visible(rep) == Visible(t[s..e]) && Visible(rest) == Visible(t[e..])
    ensures Visible(t[lo..s] + rep + rest) == Visible(t[lo..])
  {
    Visible3(t[lo..s], rep, rest);
    Visible3(t[lo..s], t[s..e], t[e..]);
    SliceSplit(t, lo, s, e);
  }

  /** `Rewrite` keeps the visible characters of what it covers. */
  lemma {:induction false} RewriteVisible(t: string, pos: nat, lastEnd: nat, minLength: nat)
    requires lastEnd <= pos <= |t|
    ensures Visible(Rewrite(t, pos, lastEnd, minLength)) == Visible(t[lastEnd..])
    decreases |t| - pos
  {
    var next := FindMatch(t, pos);
    if next.Some? {
      var m := next.value;
      var replacement := Replacement(t, m.start, m.end, minLength);
      RewriteAt(t, pos, lastEnd, minLength, m, replacement);
      if replacement.None? {
        RewriteVisible(t, m.end, lastEnd, minLength);
      } else {
        RewriteVisible(t, m.end, m.end, minLength);
        ReplacementVisible(t, m.start, m.end, minLength);
        SpliceVisible(t, lastEnd, m.start, m.end, replacement.value, Rewrite(t, m.end, m.end, minLength));
      }
    }
  }

  /** `remove_capital` only adds and removes whitespace and periods: every other
      character, capitals included, stays, in the same order. */
  lemma RemoveCapitalVisible(t: string, minLength: nat)
    ensures Visible(RemoveCapital(t, minLength)) == Visible(t)
  {
    RewriteVisible(t, 0, 0, minLength);
    assert t[0..] == t;
  }

  lemma {:induction false} NoRunCharNoMatch(t: string, pos: nat)
    requires forall i :: 0 <= i < |t| ==> !IsRunChar(t[i])
    ensures FindMatch(t, pos) == None
    decreases |t| - pos
  {
    if pos < |t| {
      NoRunCharNoMatch(t, pos + 1);
    }
  }

  /** Text without capitals and symbols is left as it is. */
  lemma RemoveCapitalNoRun(t: string, minLength: nat)
    requires forall i :: 0 <= i < |t| ==> !IsRunChar(t[i])
    ensures RemoveCapital(t, minLength) == t
  {
    NoRunCharNoMatch(t, 0);
  }

  // ---------------------------------------------------------------------------
  // What a replacement looks like

  lemma NoDotStrip(s: string)
    requires '.' !in s
    ensures '.' !in Strip(s)
  {
    var a, b := StripWindow(s);
  }

  lemma {:induction false} WordsNoDot(s: string)
    requires '.' !in s
    ensures forall w :: w in Words(s) ==> '.' !in w
    decreases |s|
  {
    if s != [] {
      if IsSpace(s[0]) {
        WordsNoDot(s[1..]);
      } else {
        var k := WordLen(s);
        WordsNoDot(s[k..]);
      }
    }
  }

  lemma {:induction false} JoinNoDot(ws: seq<string>)
    requires forall w :: w in ws ==> '.' !in w
    ensures '.' !in Join(" ", ws)
  {
    if |ws| > 1 {
      JoinNoDot(ws[1..]);
    }
  }

  /** The block a match closes has no period of its own. */
  lemma CoreNoDot(t: string, s: nat, e: nat)
    requires s <= e <= |t| && '.' !in t[s..e]
    ensures '.' !in Join(" ", CoreWords(BlockWords(t, s, e)))
  {
    NoDotStrip(t[s..e]);
    WordsNoDot(Strip(t[s..e]));
    var words := BlockWords(t, s, e);
    forall w | w in CoreWords(words) ensures '.' !in w {
      var i :| 0 <= i < |CoreWords(words)| && CoreWords(words)[i] == w;
      assert w == words[i];
    }
    JoinNoDot(CoreWords(words));
  }

  /** A match has no period in it. */
  lemma MatchHasNoDot(t: string, s: nat, e: nat)
    requires MatchesAt(t, s, e)
    ensures '.' !in t[s..e]
  {
    var w := t[s..e];
    forall i | 0 <= i < |w| ensures w[i] != '.' {
      assert IsRunChar(w[i]) || IsSpace(w[i]);
    }
  }

  /** `Finish` on a block `core + "." + tail` whose period is its only one at
      the end keeps the block, up to the period the text already has. */
  lemma FinishLayout(core: string, tail: string, t: string, e: nat)
    requires e <= |t| && core != [] && core[|core| - 1] != '.'
    requires tail == [] || tail[|tail| - 1] != '.'
    ensures StartsWith(Finish(core + "." + tail, t, e) + t[e..], core + "." + tail)
    ensures var r := Finish(core + "." + tail, t, e);
      r != [] && (r[|r| - 1] == ' ' || (e < |t| && (t[e] == ' ' || t[e] == '.')))
  {
    var rep := core + "." + tail;
    if tail == [] {
      assert rep[..|rep| - 1] == core;
      assert RStripDots(rep) == core;
    } else {
      assert rep[|rep| - 1] == tail[|tail| - 1];
    }
  }

  /** What follows a replaced match in the output starts with the closed
      block: its words, the period, then the trailing single character if
      there is one; the period is the one already in the text when the match
      is followed by one and there is no trailing character. The replacement
      ends in a space unless the text goes on with a space or a period. */
  lemma ReplacementLayout(t: string, s: nat, e: nat, minLength: nat)
    requires s <= e <= |t| && '.' !in t[s..e]
    requires Replacement(t, s, e, minLength).Some?
    ensures StartsWith(Replacement(t, s, e, minLength).value + t[e..], Closed(BlockWords(t, s, e)))
    ensures var rep := Replacement(t, s, e, minLength).value;
      rep != [] && (rep[|rep| - 1] == ' ' || (e < |t| && (t[e] == ' ' || t[e] == '.')))
  {
    var words := BlockWords(t, s, e);
    var core := Join(" ", CoreWords(words));
    var tail := if HasTrailingSingle(words) then " " + words[|words| - 1] else "";
    assert core != [];
    CoreNoDot(t, s, e);
    assert core[|core| - 1] in core;
    assert Closed(words) == core + "." + tail;
    FinishLayout(core, tail, t, e);
  }

  lemma {:induction false} AlnumConcat(a: string, b: string)
    ensures AlnumCount(a + b) == AlnumCount(a) + AlnumCount(b)
  {
    if a == [] {
      assert a + b == b;
    } else {
      assert (a + b)[0] == a[0];
      assert (a + b)[1..] == a[1..] + b;
      AlnumConcat(a[1..], b);
    }
  }

  lemma {:induction false} AlnumVisible(s: string)
    ensures AlnumCount(Visible(s)) == AlnumCount(s)
  {
    if s != [] {
      AlnumVisible(s[1..]);
      var head := if IsSpace(s[0]) || s[0] == '.' then [] else [s[0]];
      AlnumConcat(head, Visible(s[1..]));
    }
  }

  /** A one-character word joined after others adds its letter or digit, if
      it is one. */
  lemma AlnumLastWord(core: seq<string>, last: string)
    requires |last| == 1
    ensures AlnumCount(Join(" ", core + [last])) ==
      AlnumCount(Join(" ", core)) + (if IsAlnum(last[0]) then 1 else 0)
  {
    JoinAppend(" ", core, last);
    if core != [] {
      AlnumConcat(Join(" ", core) + " ", last);
      AlnumConcat(Join(" ", core), " ");
      assert AlnumCount(" ") == 0;
    }
    assert AlnumCount(last) == AlnumCount(last[1..]) + (if IsAlnum(last[0]) then 1 else 0);
  }

  /** Dropping the trailing single character drops its letter or digit, if
      it is one, and nothing else. */
  lemma CoreAlnum(words: seq<string>)
    ensures AlnumCount(Join(" ", CoreWords(words))) + (if HasTrailingSingle(words) && IsAlnum(words[|words| - 1][0]) then 1 else 0)
      == AlnumCount(Join(" ", words))
  {
    if HasTrailingSingle(words) {
      var core, last := words[..|words| - 1], words[|words| - 1];
      assert words == core + [last];
      AlnumLastWord(core, last);
    }
  }

  /** The words of a block have its letters and digits. */
  lemma BlockAlnum(t: string, s: nat, e: nat)
    requires s <= e <= |t|
    ensures AlnumCount(Join(" ", BlockWords(t, s, e))) == AlnumCount(t[s..e])
  {
    WordsVisible(Strip(t[s..e]));
    VisibleStrip(t[s..e]);
    AlnumVisible(Join(" ", BlockWords(t, s, e)));
    AlnumVisible(t[s..e]);
  }

  /** The skip rule read on the matched text: a match is left alone exactly
      when it is a single letter, or has at most `minLength` letters and
      digits once the letter or digit of a trailing single-character word is
      set aside. */
  lemma SkipRule(t: string, s: nat, e: nat, minLength: nat)
    requires s <= e <= |t|
    ensures var words := BlockWords(t, s, e);
      Replacement(t, s, e, minLength) == None <==>
        || (|words| == 1 && |words[0]| == 1 && IsLetter(words[0][0]))
        || AlnumCount(t[s..e]) - (if HasTrailingSingle(words) && IsAlnum(words[|words| - 1][0]) then 1 else 0) <= minLength
  {
    BlockAlnum(t, s, e);
    CoreAlnum(BlockWords(t, s, e));
  }

  /** A match with at most `minLength` letters and digits is left alone. */
  lemma ShortBlockKept(t: string, s: nat, e: nat, minLength: nat)
    requires s <= e <= |t| && AlnumCount(t[s..e]) <= minLength
    ensures Replacement(t, s, e, minLength) == None
  {
    BlockAlnum(t, s, e);
    CoreAlnum(BlockWords(t, s, e));
  }
}

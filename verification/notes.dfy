/** The markdown helpers of the study-notes scripts (`scripts/config.py`):
    tidying a generated answer before it is written (`remove_unwanted_lines`,
    `clean`), reading the sections of a written notes file back
    (`extract_sections` with `unclean`) and the lecture number of a notes file
    (`process_file`).

    Python's `str.replace` is `Strings.ReplaceAll`; the chained replacements of
    `clean` and `unclean` are described line by line: a replacement of
    "\n" + p works on every line but the first. */
module Notes {
  import opened Wrappers
  import opened Strings

  // ---------------------------------------------------------------------------
  // lines

  /** A line: text without a '\n'. */
  predicate Line(l: string) { forall i :: 0 <= i < |l| ==> l[i] != '\n' }

  predicate AllLines(ls: seq<string>) { forall k :: 0 <= k < |ls| ==> Line(ls[k]) }

  /** `text.split('\n')`. */
  function Lines(text: string): (r: seq<string>)
    ensures |r| >= 1 && Join("\n", r) == text
  {
    JoinSplit(text, '\n');
    SplitOn(text, '\n')
  }

  /** The lines after the first, each written after its '\n'. */
  function Continued(ls: seq<string>): string
  {
    if ls == [] then [] else "\n" + (ls[0] + Continued(ls[1..]))
  }

  lemma LinesAreLines(text: string)
    ensures AllLines(Lines(text))
  {
    forall k | 0 <= k < |Lines(text)| ensures Line(Lines(text)[k]) {
      forall i | 0 <= i < |Lines(text)[k]| ensures Lines(text)[k][i] != '\n' {
        SplitOnPiecesClean(text, '\n', k, i);
      }
    }
  }

  lemma TailLines(ls: seq<string>)
    requires ls != [] && AllLines(ls)
    ensures Line(ls[0]) && AllLines(ls[1..])
  {
    assert Line(ls[0]);
    forall k | 0 <= k < |ls[1..]| ensures Line(ls[1..][k]) {
      assert ls[1..][k] == ls[k + 1];
    }
  }

  /** `'\n'.join(ls)` is the first line and then the others after their breaks. */
  lemma {:induction false} JoinContinued(ls: seq<string>)
    requires ls != []
    ensures Join("\n", ls) == ls[0] + Continued(ls[1..])
  {
    if |ls| > 1 {
      JoinContinued(ls[1..]);
      assert ls[1..][1..] == ls[2..];
      assert Continued(ls[1..]) == "\n" + (ls[1] + Continued(ls[2..]));
    }
  }

  /** Splitting the join of lines gives the lines back. */
  lemma LinesOfJoin(ls: seq<string>)
    requires ls != [] && AllLines(ls)
    ensures Lines(Join("\n", ls)) == ls
  {
    forall k, i | 0 <= k < |ls| && 0 <= i < |ls[k]| ensures ls[k][i] != '\n' {
      assert Line(ls[k]);
    }
    SplitJoin(ls, '\n');
  }

  /** A text is its first line and then its other lines after their breaks. */
  lemma TextOfLines(text: string)
    ensures AllLines(Lines(text))
    ensures text == Lines(text)[0] + Continued(Lines(text)[1..])
  {
    LinesAreLines(text);
    JoinSplit(text, '\n');
    JoinContinued(Lines(text));
  }

  // ---------------------------------------------------------------------------
  // replacements that start at a line break

  /** How `replace("\n" + p, "\n" + q)` rewrites a line that follows a break. */
  function Rewrite(l: string, p: string, q: string): string
  {
    if StartsWith(l, p) then q + l[|p|..] else l
  }

  function RewriteAll(ls: seq<string>, p: string, q: string): (r: seq<string>)
    ensures |r| == |ls|
  {
    if ls == [] then [] else [Rewrite(ls[0], p, q)] + RewriteAll(ls[1..], p, q)
  }

  lemma {:induction false} RewriteAllLines(ls: seq<string>, p: string, q: string)
    requires AllLines(ls) && Line(q)
    ensures AllLines(RewriteAll(ls, p, q))
  {
    if ls != [] {
      TailLines(ls);
      RewriteAllLines(ls[1..], p, q);
      var r := RewriteAll(ls, p, q);
      var l := Rewrite(ls[0], p, q);
      assert Line(l) by {
        if StartsWith(ls[0], p) {
          forall i | 0 <= i < |l| ensures l[i] != '\n' {
            if i >= |q| { assert l[i] == ls[0][i - |q| + |p|]; }
          }
        }
      }
      forall k | 0 <= k < |r| ensures Line(r[k]) {
        if k > 0 { assert r[k] == RewriteAll(ls[1..], p, q)[k - 1]; }
      }
    }
  }

  lemma StartsWithCons(c: char, s: string, p: string)
    ensures StartsWith([c] + s, [c] + p) <==> StartsWith(s, p)
  {
    if |p| <= |s| {
      assert ([c] + s)[..|p| + 1] == [c] + s[..|p|];
      assert ([c] + s[..|p|])[1..] == s[..|p|];
      assert ([c] + p)[1..] == p;
    }
  }

  /** A prefix without a break is found in the first line alone. */
  lemma PrefixInLine(l: string, rest: seq<string>, p: string)
    requires Line(l) && Line(p)
    ensures StartsWith(l + Continued(rest), p) <==> StartsWith(l, p)
  {
    var s := l + Continued(rest);
    if |p| > |l| && |p| <= |s| {
      assert s[|l|] == '\n';
      assert s[..|p|][|l|] == s[|l|];
    }
    if |p| <= |l| {
      assert s[..|p|] == l[..|p|];
    }
  }

  /** A replacement whose pattern starts with a break passes over a line. */
  lemma {:induction false} ReplaceSkips(a: string, x: string, pat: string, rep: string)
    requires pat != [] && pat[0] == '\n' && Line(a)
    ensures ReplaceAll(a + x, pat, rep) == a + ReplaceAll(x, pat, rep)
  {
    if a != [] {
      assert (a + x)[0] == a[0];
      assert (a + x)[1..] == a[1..] + x;
      ReplaceSkips(a[1..], x, pat, rep);
      assert a == [a[0]] + a[1..];
    } else {
      assert a + x == x;
    }
  }

  lemma LineSuffix(l: string, k: nat)
    requires Line(l) && k <= |l|
    ensures Line(l[k..])
  {
    forall i | 0 <= i < |l[k..]| ensures l[k..][i] != '\n' { assert l[k..][i] == l[i + k]; }
  }

  /** Behind a break, the pattern "\n" + p matches exactly when the line starts with p. */
  lemma BreakPrefix(l: string, rest: seq<string>, p: string)
    requires Line(l) && Line(p)
    ensures StartsWith("\n" + (l + Continued(rest)), "\n" + p) <==> StartsWith(l, p)
  {
    PrefixInLine(l, rest, p);
    StartsWithCons('\n', l + Continued(rest), p);
  }

  lemma ReplaceMatchAtBreak(l: string, c: string, p: string, q: string)
    requires |p| <= |l| && Line(l[|p|..]) && StartsWith("\n" + (l + c), "\n" + p)
    ensures ReplaceAll("\n" + (l + c), "\n" + p, "\n" + q)
      == "\n" + ((q + l[|p|..]) + ReplaceAll(c, "\n" + p, "\n" + q))
  {
    var s := "\n" + (l + c);
    var pat, rep := "\n" + p, "\n" + q;
    ReplaceSkips(l[|p|..], c, pat, rep);
    assert s[|pat|..] == l[|p|..] + c;
  }

  lemma ReplaceNoMatchAtBreak(l: string, c: string, p: string, q: string)
    requires Line(l) && !StartsWith("\n" + (l + c), "\n" + p)
    ensures ReplaceAll("\n" + (l + c), "\n" + p, "\n" + q)
      == "\n" + (l + ReplaceAll(c, "\n" + p, "\n" + q))
  {
    var s := "\n" + (l + c);
    ReplaceSkips(l, c, "\n" + p, "\n" + q);
    assert s[1..] == l + c;
  }

  /** One line after a break under `replace("\n" + p, "\n" + q)`. */
  lemma ReplaceAtBreak(l: string, rest: seq<string>, p: string, q: string)
    requires Line(l) && Line(p)
    ensures ReplaceAll("\n" + (l + Continued(rest)), "\n" + p, "\n" + q)
      == "\n" + (Rewrite(l, p, q) + ReplaceAll(Continued(rest), "\n" + p, "\n" + q))
  {
    BreakPrefix(l, rest, p);
    if StartsWith(l, p) {
      LineSuffix(l, |p|);
      ReplaceMatchAtBreak(l, Continued(rest), p, q);
    } else {
      ReplaceNoMatchAtBreak(l, Continued(rest), p, q);
    }
  }

  /** `replace("\n" + p, "\n" + q)` rewrites each line that follows a break. */
  lemma {:induction false} ReplaceLines(ls: seq<string>, p: string, q: string)
    requires AllLines(ls) && Line(p)
    ensures ReplaceAll(Continued(ls), "\n" + p, "\n" + q) == Continued(RewriteAll(ls, p, q))
  {
    if ls != [] {
      TailLines(ls);
      ReplaceLines(ls[1..], p, q);
      ReplaceAtBreak(ls[0], ls[1..], p, q);
      assert RewriteAll(ls, p, q)[1..] == RewriteAll(ls[1..], p, q);
    }
  }

  /** The same after a first line, which the replacement leaves alone. */
  lemma ReplaceLinesAfter(h: string, ls: seq<string>, p: string, q: string)
    requires Line(h) && AllLines(ls) && Line(p)
    ensures ReplaceAll(h + Continued(ls), "\n" + p, "\n" + q) == h + Continued(RewriteAll(ls, p, q))
  {
    ReplaceSkips(h, Continued(ls), "\n" + p, "\n" + q);
    ReplaceLines(ls, p, q);
  }

  // ---------------------------------------------------------------------------
  // remove_unwanted_lines

  /** The marker of lines that `remove_unwanted_lines` drops. */
  const StudyNoteMark: string := "# Study Note"

  /** First step of `remove_unwanted_lines`: an answer that does not start
      with a heading opened with a chatty line, so its first and last lines
      go when it has more than two. */
  function DropChatter(text: string): string
  {
    if StartsWith(Strip(text), "#") then text
    else
      var lines := Lines(text);
      Join("\n", if |lines| > 2 then lines[1..|lines| - 1] else lines)
  }

  /** The lines that do not contain the marker, in order. */
  function WithoutMarker(ls: seq<string>): (r: seq<string>)
    ensures |r| <= |ls|
  {
    if ls == [] then []
    else (if Contains(ls[0], StudyNoteMark) then [] else [ls[0]]) + WithoutMarker(ls[1..])
  }

  /** `remove_unwanted_lines`. */
  function RemoveUnwantedLines(text: string): string
  {
    Join("\n", WithoutMarker(Lines(DropChatter(text))))
  }

  /** The lines after the first step: all of them, or all but the first and
      the last for a chatty answer of more than two lines. */
  lemma DropChatterLines(text: string)
    ensures var ls := Lines(text);
      Lines(DropChatter(text)) == if !StartsWith(Strip(text), "#") && |ls| > 2 then ls[1..|ls| - 1] else ls
  {
    var ls := Lines(text);
    LinesAreLines(text);
    JoinSplit(text, '\n');
    if !StartsWith(Strip(text), "#") && |ls| > 2 {
      var inner := ls[1..|ls| - 1];
      forall k | 0 <= k < |inner| ensures Line(inner[k]) {
        assert inner[k] == ls[k + 1];
      }
      LinesOfJoin(inner);
    }
  }

  /** A line is kept exactly when it is one of the given lines and holds no marker. */
  lemma {:induction false} WithoutMarkerMembers(ls: seq<string>, x: string)
    ensures x in WithoutMarker(ls) <==> x in ls && !Contains(x, StudyNoteMark)
  {
    if ls != [] {
      WithoutMarkerMembers(ls[1..], x);
      assert ls == [ls[0]] + ls[1..];
    }
  }

  /** Lines without the marker are all kept, in their order. */
  lemma {:induction false} WithoutMarkerKeepsAll(ls: seq<string>)
    requires forall k :: 0 <= k < |ls| ==> !Contains(ls[k], StudyNoteMark)
    ensures WithoutMarker(ls) == ls
  {
    if ls != [] {
      WithoutMarkerKeepsAll(ls[1..]);
      assert ls == [ls[0]] + ls[1..];
    }
  }

  lemma WithoutMarkerLines(ls: seq<string>)
    requires AllLines(ls)
    ensures AllLines(WithoutMarker(ls))
  {
    var r := WithoutMarker(ls);
    forall k | 0 <= k < |r| ensures Line(r[k]) {
      WithoutMarkerMembers(ls, r[k]);
      var j :| 0 <= j < |ls| && ls[j] == r[k];
      assert Line(ls[j]);
    }
  }

  /** The lines of the result are the lines of the first step that do not
      contain "# Study Note", in their order; when none is left the result is
      empty. */
  lemma RemoveUnwantedLinesLines(text: string)
    ensures var kept := WithoutMarker(Lines(DropChatter(text)));
      && (kept != [] ==> Lines(RemoveUnwantedLines(text)) == kept)
      && (kept == [] ==> RemoveUnwantedLines(text) == [])
  {
    var kept := WithoutMarker(Lines(DropChatter(text)));
    LinesAreLines(DropChatter(text));
    WithoutMarkerLines(Lines(DropChatter(text)));
    if kept != [] {
      LinesOfJoin(kept);
    }
  }

  /** No line of the result contains "# Study Note". */
  lemma NoStudyNoteLine(text: string, l: string)
    requires l in Lines(RemoveUnwantedLines(text))
    ensures !Contains(l, StudyNoteMark)
  {
    var kept := WithoutMarker(Lines(DropChatter(text)));
    RemoveUnwantedLinesLines(text);
    if kept != [] {
      WithoutMarkerMembers(Lines(DropChatter(text)), l);
    } else {
      assert Lines([]) == [[]];
      assert l == [];
      assert !OccursAt(l, StudyNoteMark, 0);
    }
  }

  /** A text that starts with a heading and has no marker comes out unchanged. */
  lemma RemoveUnwantedLinesKeeps(text: string)
    requires StartsWith(Strip(text), "#")
    requires forall k :: 0 <= k < |Lines(text)| ==> !Contains(Lines(text)[k], StudyNoteMark)
    ensures RemoveUnwantedLines(text) == text
  {
    WithoutMarkerKeepsAll(Lines(text));
    JoinSplit(text, '\n');
  }

  // ---------------------------------------------------------------------------
  // clean

  /** The heading shift `clean` applies to the start of a line: "# " and
      "## " become "### ", any other line starting with '#' gains one '#',
      and other lines are left alone. */
  function ShiftHeading(l: string): string
  {
    var t := if StartsWith(l, "#") then "#" + l else l;
    if StartsWith(t, "## ") then "#" + t else t
  }

  lemma ShiftHeadingMeaning(l: string)
    ensures StartsWith(l, "# ") ==> ShiftHeading(l) == "### " + l[2..]
    ensures StartsWith(l, "## ") ==> ShiftHeading(l) == "### " + l[3..]
    ensures StartsWith(l, "#") && !StartsWith(l, "# ") ==> ShiftHeading(l) == "#" + l
    ensures !StartsWith(l, "#") ==> ShiftHeading(l) == l
  {
    if StartsWith(l, "#") {
      var t := "#" + l;
      if |l| >= 2 {
        assert t[..3] == ['#', '#', l[1]];
      }
      if StartsWith(l, "# ") {
        assert StartsWith(t, "## ");
        assert "#" + t == "### " + l[2..];
      } else {
        assert !StartsWith(t, "## ");
        if StartsWith(l, "## ") {
          assert l == "## " + l[3..];
        }
      }
    }
  }

  lemma ShiftHeadingLine(l: string)
    requires Line(l)
    ensures Line(ShiftHeading(l))
  {
    var h := ShiftHeading(l);
    if StartsWith(l, "#") {
      forall i | 0 <= i < |h| ensures h[i] != '\n' {
        if StartsWith("#" + l, "## ") {
          if i >= 2 { assert h[i] == l[i - 2]; }
        } else if i >= 1 {
          assert h[i] == l[i - 1];
        }
      }
    }
  }

  function ShiftAll(ls: seq<string>): (r: seq<string>)
    ensures |r| == |ls|
  {
    if ls == [] then [] else [ShiftHeading(ls[0])] + ShiftAll(ls[1..])
  }

  /** `clean`: drop unwanted lines, shift the first heading, then the three
      replacements and a strip. */
  function Clean(text: string): string
  {
    var t := ShiftHeading(RemoveUnwantedLines(text));
    Strip(ReplaceAll(ReplaceAll(ReplaceAll(t, "\n---\n", "\n"), "\n#", "\n##"), "\n## ", "\n### "))
  }

  /** The lines after the first once `replace('\n---\n', '\n')` has run: a
      rule line "---" with a line after it is dropped, except straight after a
      dropped rule, whose break the previous match consumed. */
  function DropRules(ls: seq<string>): (r: seq<string>)
    ensures |r| <= |ls|
  {
    if |ls| >= 2 && ls[0] == "---" then [ls[1]] + DropRules(ls[2..])
    else if ls == [] then [] else [ls[0]] + DropRules(ls[1..])
  }

  lemma {:induction false} DropRulesLines(ls: seq<string>)
    requires AllLines(ls)
    ensures AllLines(DropRules(ls))
  {
    if ls != [] {
      TailLines(ls);
      var r := DropRules(ls);
      if |ls| >= 2 && ls[0] == "---" {
        TailLines(ls[1..]);
        assert ls[1..][1..] == ls[2..];
        DropRulesLines(ls[2..]);
        forall k | 0 <= k < |r| ensures Line(r[k]) {
          if k > 0 { assert r[k] == DropRules(ls[2..])[k - 1]; }
        }
      } else {
        DropRulesLines(ls[1..]);
        forall k | 0 <= k < |r| ensures Line(r[k]) {
          if k > 0 { assert r[k] == DropRules(ls[1..])[k - 1]; }
        }
      }
    }
  }

  lemma RuleNeedsDashes(l: string, rest: seq<string>)
    requires Line(l) && !StartsWith(l, "---")
    ensures !StartsWith("\n" + (l + Continued(rest)), "\n---\n")
  {
    var s := "\n" + (l + Continued(rest));
    BreakPrefix(l, rest, "---");
    assert "\n" + "---" == "\n---";
    if |s| >= 5 {
      assert s[..4] == s[..5][..4];
    }
  }

  lemma RuleNeedsBreak(l: string, rest: seq<string>)
    requires Line(l) && |l| > 3
    ensures !StartsWith("\n" + (l + Continued(rest)), "\n---\n")
  {
    var s := "\n" + (l + Continued(rest));
    assert s[4] == l[3];
  }

  /** The rule pattern matches at a break exactly when the line after it is
      "---" and another line follows. */
  lemma RuleAt(l: string, rest: seq<string>)
    requires Line(l)
    ensures StartsWith("\n" + (l + Continued(rest)), "\n---\n") <==> l == "---" && rest != []
  {
    if l == "---" && rest != [] {
      var s := "\n" + (l + Continued(rest));
      assert Continued(rest) == "\n" + (rest[0] + Continued(rest[1..]));
      assert s == "\n---\n" + (rest[0] + Continued(rest[1..]));
      assert s[..5] == "\n---\n";
    } else if !StartsWith(l, "---") {
      RuleNeedsDashes(l, rest);
    } else if |l| == 3 {
      assert l == l[..3];
      assert rest == [];
    } else {
      RuleNeedsBreak(l, rest);
    }
  }

  /** A rule with a line after it goes, with the break after it. */
  lemma RuleDropped(next: string, rest: seq<string>)
    requires Line(next)
    ensures ReplaceAll(Continued(["---", next] + rest), "\n---\n", "\n")
      == "\n" + (next + ReplaceAll(Continued(rest), "\n---\n", "\n"))
  {
    var ls := ["---", next] + rest;
    assert ls[1..] == [next] + rest && ls[1..][1..] == rest;
    var s := Continued(ls);
    assert s == "\n" + ("---" + Continued(ls[1..]));
    assert Continued(ls[1..]) == "\n" + (next + Continued(rest));
    assert s == "\n---\n" + (next + Continued(rest));
    assert StartsWith(s, "\n---\n");
    assert s[5..] == next + Continued(rest);
    ReplaceSkips(next, Continued(rest), "\n---\n", "\n");
  }

  /** Any other line is kept. */
  lemma NoRuleKept(l: string, rest: seq<string>)
    requires Line(l) && !(l == "---" && rest != [])
    ensures ReplaceAll("\n" + (l + Continued(rest)), "\n---\n", "\n")
      == "\n" + (l + ReplaceAll(Continued(rest), "\n---\n", "\n"))
  {
    var c := Continued(rest);
    var pat, rep := "\n---\n", "\n";
    var s := "\n" + (l + c);
    RuleAt(l, rest);
    assert s[1..] == l + c;
    ReplaceSkips(l, c, pat, rep);
  }

  /** `replace('\n---\n', '\n')` drops the rules `DropRules` drops. */
  lemma {:induction false} ReplaceRules(ls: seq<string>)
    requires AllLines(ls)
    ensures ReplaceAll(Continued(ls), "\n---\n", "\n") == Continued(DropRules(ls))
  {
    if ls != [] {
      TailLines(ls);
      if |ls| >= 2 && ls[0] == "---" {
        TailLines(ls[1..]);
        assert ls[1..][1..] == ls[2..];
        assert ls == ["---", ls[1]] + ls[2..];
        ReplaceRules(ls[2..]);
        RuleDropped(ls[1], ls[2..]);
        assert Continued(DropRules(ls)) == "\n" + (ls[1] + Continued(DropRules(ls[2..])));
      } else {
        ReplaceRules(ls[1..]);
        NoRuleKept(ls[0], ls[1..]);
        assert Continued(DropRules(ls)) == "\n" + (ls[0] + Continued(DropRules(ls[1..])));
      }
    }
  }

  /** The first step of the shift: a '#' before a text starting with '#'. */
  function HashFirst(t: string): string
  {
    if StartsWith(t, "#") then "#" + t else t
  }

  lemma HashFirstLine(l: string, rest: seq<string>)
    requires Line(l)
    ensures HashFirst(l + Continued(rest)) == HashFirst(l) + Continued(rest)
    ensures Line(HashFirst(l))
  {
    PrefixInLine(l, rest, "#");
    if StartsWith(l, "#") {
      assert "#" + (l + Continued(rest)) == ("#" + l) + Continued(rest);
      forall i | 0 <= i < |"#" + l| ensures ("#" + l)[i] != '\n' {
        if i > 0 { assert ("#" + l)[i] == l[i - 1]; }
      }
    }
  }

  /** Shifting the whole text shifts its first line. */
  lemma ShiftFirstLine(l: string, rest: seq<string>)
    requires Line(l)
    ensures ShiftHeading(l + Continued(rest)) == ShiftHeading(l) + Continued(rest)
  {
    HashFirstLine(l, rest);
    var t := HashFirst(l);
    assert ShiftHeading(l) == if StartsWith(t, "## ") then "#" + t else t;
    assert ShiftHeading(l + Continued(rest)) == if StartsWith(t + Continued(rest), "## ") then "#" + (t + Continued(rest)) else t + Continued(rest);
    PrefixInLine(t, rest, "## ");
    assert "#" + (t + Continued(rest)) == ("#" + t) + Continued(rest);
  }

  /** The two heading replacements together shift each line like the first. */
  lemma {:induction false} RewritesShift(ls: seq<string>)
    ensures RewriteAll(RewriteAll(ls, "#", "##"), "## ", "### ") == ShiftAll(ls)
  {
    if ls != [] {
      RewritesShift(ls[1..]);
      var l := ls[0];
      var t := Rewrite(l, "#", "##");
      if StartsWith(l, "#") {
        assert t == "#" + l;
      }
      if StartsWith(t, "## ") {
        assert Rewrite(t, "## ", "### ") == "#" + t;
      }
    }
  }

  /** The three replacements of `clean` after a first line they leave alone. */
  lemma CleanReplacements(h: string, rest: seq<string>)
    requires Line(h) && AllLines(rest)
    ensures ReplaceAll(ReplaceAll(ReplaceAll(h + Continued(rest), "\n---\n", "\n"), "\n#", "\n##"), "\n## ", "\n### ")
      == h + Continued(ShiftAll(DropRules(rest)))
  {
    ReplaceSkips(h, Continued(rest), "\n---\n", "\n");
    ReplaceRules(rest);
    var d := DropRules(rest);
    DropRulesLines(rest);
    assert "\n" + "#" == "\n#" && "\n" + "##" == "\n##";
    ReplaceLinesAfter(h, d, "#", "##");
    var r1 := RewriteAll(d, "#", "##");
    RewriteAllLines(d, "#", "##");
    assert "\n" + "## " == "\n## " && "\n" + "### " == "\n### ";
    ReplaceLinesAfter(h, r1, "## ", "### ");
    RewritesShift(d);
  }

  /** `clean` line by line: of the lines left by `remove_unwanted_lines`, the
      rules "---" that `DropRules` names go, every line gets the heading shift,
      and the joined text is stripped. */
  lemma CleanLines(text: string)
    ensures var ls := Lines(RemoveUnwantedLines(text));
      Clean(text) == Strip(Join("\n", ShiftAll([ls[0]] + DropRules(ls[1..]))))
  {
    var ls := Lines(RemoveUnwantedLines(text));
    TextOfLines(RemoveUnwantedLines(text));
    TailLines(ls);
    ShiftFirstLine(ls[0], ls[1..]);
    var h := ShiftHeading(ls[0]);
    ShiftHeadingLine(ls[0]);
    CleanReplacements(h, ls[1..]);
    var d := DropRules(ls[1..]);
    assert ShiftAll([ls[0]] + d) == [h] + ShiftAll(d);
    JoinContinued([h] + ShiftAll(d));
    assert ([h] + ShiftAll(d))[1..] == ShiftAll(d);
  }

  // ---------------------------------------------------------------------------
  // unclean

  /** `unclean`: one leading '#' goes from a text starting with "##", and every
      "\n##" becomes "\n#". */
  function Unclean(t: string): string
  {
    ReplaceAll(if StartsWith(t, "##") then t[1..] else t, "\n##", "\n#")
  }

  /** `unclean` line by line: every line starting with "##", the first
      included, loses one '#'. */
  lemma UncleanLines(t: string)
    ensures Unclean(t) == Join("\n", RewriteAll(Lines(t), "##", "#"))
  {
    var ls := Lines(t);
    TextOfLines(t);
    TailLines(ls);
    var l, c := ls[0], Continued(ls[1..]);
    PrefixInLine(l, ls[1..], "##");
    var h := Rewrite(l, "##", "#");
    if StartsWith(l, "##") {
      assert t[1..] == l[1..] + c;
      assert l == "##" + l[2..];
      assert h == l[1..];
      LineSuffix(l, 1);
    }
    assert "\n" + "##" == "\n##" && "\n" + "#" == "\n#";
    ReplaceLinesAfter(h, ls[1..], "##", "#");
    assert RewriteAll(ls, "##", "#") == [h] + RewriteAll(ls[1..], "##", "#");
    JoinContinued(RewriteAll(ls, "##", "#"));
  }

  /** `unclean` undoes `clean`'s heading shift on a line that is not a
      level-one heading. */
  lemma UncleanUndoesShift(l: string)
    requires !StartsWith(l, "# ")
    ensures Rewrite(ShiftHeading(l), "##", "#") == l
  {
    ShiftHeadingMeaning(l);
    if StartsWith(l, "#") {
      assert ("#" + l)[..2] == "##";
      assert ("#" + l)[2..] == l[1..];
      assert l == "#" + l[1..];
    }
  }

  lemma {:induction false} UncleanUndoesShiftAll(ls: seq<string>)
    requires forall k :: 0 <= k < |ls| ==> !StartsWith(ls[k], "# ")
    ensures RewriteAll(ShiftAll(ls), "##", "#") == ls
  {
    if ls != [] {
      UncleanUndoesShiftAll(ls[1..]);
      UncleanUndoesShift(ls[0]);
    }
  }

  lemma {:induction false} ShiftAllLines(ls: seq<string>)
    requires AllLines(ls)
    ensures AllLines(ShiftAll(ls))
  {
    if ls != [] {
      TailLines(ls);
      ShiftAllLines(ls[1..]);
      ShiftHeadingLine(ls[0]);
      var r := ShiftAll(ls);
      forall k | 0 <= k < |r| ensures Line(r[k]) {
        if k > 0 { assert r[k] == ShiftAll(ls[1..])[k - 1]; }
      }
    }
  }

  /** Reading a section back undoes the heading shift of the lines written
      into it, unless a line is a level-one heading. */
  lemma UncleanAfterShift(ls: seq<string>)
    requires ls != [] && AllLines(ls)
    requires forall k :: 0 <= k < |ls| ==> !StartsWith(ls[k], "# ")
    ensures Unclean(Join("\n", ShiftAll(ls))) == Join("\n", ls)
  {
    ShiftAllLines(ls);
    LinesOfJoin(ShiftAll(ls));
    UncleanLines(Join("\n", ShiftAll(ls)));
    UncleanUndoesShiftAll(ls);
  }

  // ---------------------------------------------------------------------------
  // re.search(pre + r"(.*?)" + suf, md, re.DOTALL)

  /** The two suffix patterns of `extract`: r"\n\n" for the title and the
      default r"(\n\n<br>|$)". */
  datatype Ending = BlankLine | BreakOrEnd

  /** The suffix matches at position `e`. Without MULTILINE, `$` matches at
      the end and before a final '\n'. */
  predicate EndsAt(s: string, e: nat, ending: Ending)
    requires e <= |s|
  {
    match ending
    case BlankLine => OccursAt(s, "\n\n", e)
    case BreakOrEnd => OccursAt(s, "\n\n<br>", e) || e == |s| || (e + 1 == |s| && s[e] == '\n')
  }

  /** The lazy `(.*?)`: the first position from `from` on where the suffix matches. */
  function FirstEnd(s: string, from: nat, ending: Ending): (r: Option<nat>)
    requires from <= |s|
    ensures r.Some? ==> from <= r.value <= |s| && EndsAt(s, r.value, ending)
    decreases |s| - from
  {
    if EndsAt(s, from, ending) then Some(from)
    else if from == |s| then None
    else FirstEnd(s, from + 1, ending)
  }

  /** The bounds of group 1 of the leftmost match from position `i` on. */
  function SearchFrom(s: string, pre: string, ending: Ending, i: nat): (r: Option<(nat, nat)>)
    requires i <= |s|
    ensures r.Some? ==> r.value.0 <= r.value.1 <= |s|
    decreases |s| - i
  {
    if OccursAt(s, pre, i) && FirstEnd(s, i + |pre|, ending).Some? then
      Some((i + |pre|, FirstEnd(s, i + |pre|, ending).value))
    else if i == |s| then None
    else SearchFrom(s, pre, ending, i + 1)
  }

  function Search(s: string, pre: string, ending: Ending): (r: Option<(nat, nat)>)
    ensures r.Some? ==> r.value.0 <= r.value.1 <= |s|
  {
    SearchFrom(s, pre, ending, 0)
  }

  /** The whole pattern matches with its prefix at `i`. */
  ghost predicate MatchAt(s: string, pre: string, ending: Ending, i: nat)
  {
    OccursAt(s, pre, i) && exists e :: i + |pre| <= e <= |s| && EndsAt(s, e, ending)
  }

  lemma {:induction false} FirstEndIsFirst(s: string, from: nat, ending: Ending)
    requires from <= |s|
    ensures FirstEnd(s, from, ending).Some? ==>
      forall e :: from <= e < FirstEnd(s, from, ending).value ==> !EndsAt(s, e, ending)
    ensures FirstEnd(s, from, ending).None? ==> forall e :: from <= e <= |s| ==> !EndsAt(s, e, ending)
    decreases |s| - from
  {
    if !EndsAt(s, from, ending) && from < |s| {
      FirstEndIsFirst(s, from + 1, ending);
    }
  }

  lemma {:induction false} FirstEndAt(s: string, from: nat, e: nat, ending: Ending)
    requires from <= e <= |s| && EndsAt(s, e, ending)
    requires forall e' :: from <= e' < e ==> !EndsAt(s, e', ending)
    ensures FirstEnd(s, from, ending) == Some(e)
    decreases e - from
  {
    if from < e {
      FirstEndAt(s, from + 1, e, ending);
    }
  }

  /** The regex engine's test at one start position is `MatchAt`. */
  lemma MatchHere(s: string, pre: string, ending: Ending, i: nat)
    requires i <= |s|
    ensures MatchAt(s, pre, ending, i) <==> OccursAt(s, pre, i) && FirstEnd(s, i + |pre|, ending).Some?
  {
    if OccursAt(s, pre, i) {
      FirstEndIsFirst(s, i + |pre|, ending);
      if FirstEnd(s, i + |pre|, ending).Some? {
        var e := FirstEnd(s, i + |pre|, ending).value;
        assert i + |pre| <= e <= |s| && EndsAt(s, e, ending);
      }
    }
  }

  lemma {:induction false} SearchFromFinds(s: string, pre: string, ending: Ending, i: nat)
    requires i <= |s|
    ensures SearchFrom(s, pre, ending, i).Some? <==> exists j :: i <= j <= |s| && MatchAt(s, pre, ending, j)
    decreases |s| - i
  {
    MatchHere(s, pre, ending, i);
    if !MatchAt(s, pre, ending, i) && i < |s| {
      SearchFromFinds(s, pre, ending, i + 1);
      if exists j :: i <= j <= |s| && MatchAt(s, pre, ending, j) {
        var j :| i <= j <= |s| && MatchAt(s, pre, ending, j);
        assert i + 1 <= j;
      }
    }
  }

  /** Group 1 spans `[b, e)` in the leftmost match, with the lazy group as
      short as the suffix allows. */
  ghost predicate FirstMatch(s: string, pre: string, ending: Ending, b: nat, e: nat)
  {
    && |pre| <= b <= e <= |s| && MatchAt(s, pre, ending, b - |pre|)
    && (forall i :: 0 <= i < b - |pre| ==> !MatchAt(s, pre, ending, i))
    && EndsAt(s, e, ending) && (forall e' :: b <= e' < e ==> !EndsAt(s, e', ending))
  }

  lemma FirstMatchHere(s: string, pre: string, ending: Ending, i: nat)
    requires i <= |s| && OccursAt(s, pre, i) && FirstEnd(s, i + |pre|, ending).Some?
    requires forall i' :: 0 <= i' < i ==> !MatchAt(s, pre, ending, i')
    ensures FirstMatch(s, pre, ending, i + |pre|, FirstEnd(s, i + |pre|, ending).value)
  {
    FirstEndIsFirst(s, i + |pre|, ending);
    MatchHere(s, pre, ending, i);
  }

  lemma {:induction false} SearchFromIsLeftmost(s: string, pre: string, ending: Ending, i: nat)
    requires i <= |s|
    requires forall i' :: 0 <= i' < i ==> !MatchAt(s, pre, ending, i')
    ensures SearchFrom(s, pre, ending, i).Some? ==>
      FirstMatch(s, pre, ending, SearchFrom(s, pre, ending, i).value.0, SearchFrom(s, pre, ending, i).value.1)
    decreases |s| - i
  {
    MatchHere(s, pre, ending, i);
    if MatchAt(s, pre, ending, i) {
      FirstMatchHere(s, pre, ending, i);
    } else if i < |s| {
      assert SearchFrom(s, pre, ending, i) == SearchFrom(s, pre, ending, i + 1);
      SearchFromIsLeftmost(s, pre, ending, i + 1);
    }
  }

  /** `re.search` finds a match exactly when the pattern matches somewhere;
      group 1 of the match found is preceded by the leftmost occurrence of the
      prefix that a suffix follows, and is the shortest text up to a suffix. */
  lemma SearchIsLeftmostShortest(s: string, pre: string, ending: Ending)
    ensures Search(s, pre, ending).Some? <==> exists j :: 0 <= j <= |s| && MatchAt(s, pre, ending, j)
    ensures Search(s, pre, ending).Some? ==>
      FirstMatch(s, pre, ending, Search(s, pre, ending).value.0, Search(s, pre, ending).value.1)
  {
    SearchFromFinds(s, pre, ending, 0);
    SearchFromIsLeftmost(s, pre, ending, 0);
  }

  /** With the default suffix, which `$` always satisfies at the end, a match
      is found exactly when the prefix occurs, and it follows the first
      occurrence. */
  lemma SearchToEnd(s: string, pre: string)
    ensures Search(s, pre, BreakOrEnd).Some? <==> Contains(s, pre)
    ensures Search(s, pre, BreakOrEnd).Some? ==>
      var b := Search(s, pre, BreakOrEnd).value.0;
      b >= |pre| && OccursAt(s, pre, b - |pre|) && forall i :: 0 <= i < b - |pre| ==> !OccursAt(s, pre, i)
  {
    SearchIsLeftmostShortest(s, pre, BreakOrEnd);
    forall i: nat | OccursAt(s, pre, i) ensures MatchAt(s, pre, BreakOrEnd, i) {
      assert EndsAt(s, |s|, BreakOrEnd);
    }
    if Contains(s, pre) {
      var k: nat :| k <= |s| && OccursAt(s, pre, k);
      assert MatchAt(s, pre, BreakOrEnd, k);
    }
  }

  // ---------------------------------------------------------------------------
  // extract_sections

  /** One call of `extract`: the key, the prefix, the suffix and whether
      `unclean` applies. */
  datatype Section = Section(key: string, marker: string, ending: Ending, uncleaned: bool)

  /** The five calls of `extract_sections`, in their order. */
  const SectionTable: seq<Section> := [
    Section("title", "## ", BlankLine, false),
    Section("questions", "## Questions\n\n", BreakOrEnd, true),
    Section("answers", "## Answers\n\n", BreakOrEnd, true),
    Section("key_points", "### Key Points\n\n", BreakOrEnd, true),
    Section("study_notes", "## Study Notes\n\n", BreakOrEnd, true)
  ]

  /** `group(1).replace('<br>','').strip()`, then `unclean` when asked. */
  function Tidy(v: string, uncleaned: bool): string
  {
    var c := Strip(ReplaceAll(v, "<br>", ""));
    if uncleaned then Unclean(c) else c
  }

  /** What `extract` stores under the section's key, if anything. */
  function Extracted(md: string, sec: Section): Option<string>
  {
    match Search(md, sec.marker, sec.ending)
    case Some((b, e)) => Some(Tidy(md[b..e], sec.uncleaned))
    case None => None
  }

  /** The dictionary after one call of `extract`. */
  function Store(m: map<string, string>, md: string, sec: Section): map<string, string>
  {
    match Extracted(md, sec)
    case Some(v) => m[sec.key := v]
    case None => m
  }

  /** The dictionary after the given calls of `extract`, in their order. */
  function Collect(md: string, secs: seq<Section>): map<string, string>
  {
    if secs == [] then map[] else Store(Collect(md, secs[..|secs| - 1]), md, secs[|secs| - 1])
  }

  lemma CollectPrefix(md: string, secs: seq<Section>, k: nat)
    requires 0 < k <= |secs|
    ensures Collect(md, secs[..k]) == Store(Collect(md, secs[..k - 1]), md, secs[k - 1])
  {
    assert secs[..k][..k - 1] == secs[..k - 1];
  }

  /** `extract`: stores the section when the pattern matches. */
  method Extract(sections: map<string, string>, md: string, sec: Section) returns (r: map<string, string>)
    ensures r == Store(sections, md, sec)
  {
    var found := Extracted(md, sec);
    if found.Some? {
      r := sections[sec.key := found.value];
    } else {
      r := sections;
    }
  }

  /** `extract_sections`. */
  method ExtractSections(md: string) returns (sections: map<string, string>)
    ensures sections == Collect(md, SectionTable)
  {
    sections := map[];
    assert sections == Collect(md, SectionTable[..0]);
    sections := Extract(sections, md, SectionTable[0]);
    CollectPrefix(md, SectionTable, 1);
    sections := Extract(sections, md, SectionTable[1]);
    CollectPrefix(md, SectionTable, 2);
    sections := Extract(sections, md, SectionTable[2]);
    CollectPrefix(md, SectionTable, 3);
    sections := Extract(sections, md, SectionTable[3]);
    CollectPrefix(md, SectionTable, 4);
    sections := Extract(sections, md, SectionTable[4]);
    CollectPrefix(md, SectionTable, 5);
    assert SectionTable[..5] == SectionTable;
  }

  predicate DistinctKeys(secs: seq<Section>)
  {
    forall i, j :: 0 <= i < j < |secs| ==> secs[i].key != secs[j].key
  }

  /** Only the keys of the given calls are ever stored. */
  lemma {:induction false} CollectKeys(md: string, secs: seq<Section>, k: string)
    requires k in Collect(md, secs)
    ensures exists j :: 0 <= j < |secs| && secs[j].key == k
  {
    var last := |secs| - 1;
    if k != secs[last].key || Extracted(md, secs[last]).None? {
      CollectKeys(md, secs[..last], k);
      var j :| 0 <= j < last && secs[..last][j].key == k;
      assert secs[j].key == k;
    } else {
      assert secs[last].key == k;
    }
  }

  /** With distinct keys, a section's key is present exactly when its
      pattern matched, and holds what `extract` made of the match. */
  lemma {:induction false} CollectLookup(md: string, secs: seq<Section>, j: nat)
    requires DistinctKeys(secs) && j < |secs|
    ensures secs[j].key in Collect(md, secs) <==> Extracted(md, secs[j]).Some?
    ensures secs[j].key in Collect(md, secs) ==> Collect(md, secs)[secs[j].key] == Extracted(md, secs[j]).value
  {
    var last := |secs| - 1;
    if j < last {
      var init := secs[..last];
      assert DistinctKeys(init) by {
        forall a, b | 0 <= a < b < |init| ensures init[a].key != init[b].key { assert init[a] == secs[a] && init[b] == secs[b]; }
      }
      assert init[j] == secs[j];
      assert secs[j].key != secs[last].key;
      CollectLookup(md, init, j);
    } else {
      forall j' | 0 <= j' < last ensures secs[..last][j'].key != secs[last].key {
        assert secs[..last][j'] == secs[j'];
      }
      KeyAbsent(md, secs[..last], secs[last].key);
    }
  }

  /** A key no call uses is never stored. */
  lemma {:induction false} KeyAbsent(md: string, secs: seq<Section>, k: string)
    requires forall j :: 0 <= j < |secs| ==> secs[j].key != k
    ensures k !in Collect(md, secs)
  {
    if secs != [] {
      var last := |secs| - 1;
      forall j | 0 <= j < last ensures secs[..last][j].key != k {
        assert secs[..last][j] == secs[j];
      }
      KeyAbsent(md, secs[..last], k);
    }
  }

  /** `extract_sections` stores only title, questions, answers, key_points
      and study_notes, and each exactly when its pattern matches, with what
      `extract` made of the match. */
  lemma SectionsStored(md: string, j: nat, k: string)
    requires j < |SectionTable|
    ensures var m := Collect(md, SectionTable);
      && (k in m ==> k in {"title", "questions", "answers", "key_points", "study_notes"})
      && (SectionTable[j].key in m <==> Extracted(md, SectionTable[j]).Some?)
      && (SectionTable[j].key in m ==> m[SectionTable[j].key] == Extracted(md, SectionTable[j]).value)
  {
    assert DistinctKeys(SectionTable);
    CollectLookup(md, SectionTable, j);
    if k in Collect(md, SectionTable) {
      CollectKeys(md, SectionTable, k);
    }
  }

  /** A section with the default suffix is stored exactly when its marker
      occurs. */
  lemma SectionPresentIffMarker(md: string, j: nat)
    requires 1 <= j < |SectionTable|
    ensures SectionTable[j].key in Collect(md, SectionTable) <==> Contains(md, SectionTable[j].marker)
  {
    var sec := SectionTable[j];
    assert sec.ending == BreakOrEnd;
    SectionsStored(md, j, sec.key);
    ExtractedToEnd(md, sec);
  }

  /** With the default suffix a section is extracted exactly when its marker occurs. */
  lemma ExtractedToEnd(md: string, sec: Section)
    requires sec.ending == BreakOrEnd
    ensures Extracted(md, sec).Some? <==> Contains(md, sec.marker)
  {
    SearchToEnd(md, sec.marker);
  }

  // ---------------------------------------------------------------------------
  // process_file

  /** `os.path.basename`: the text after the last '/'. */
  function Basename(path: string): (r: string)
    ensures '/' !in r
  {
    match LastIndex(path, '/')
    case Some(k) => path[k + 1..]
    case None => path
  }

  /** `process_file`, given what reading the file gave (`None` when it failed):
      the lecture number from the leading digits of the file name, and the
      sections of the text. */
  function ProcessFile(path: string, text: Option<string>): Option<(nat, map<string, string>)>
  {
    var name := Basename(path);
    var n := DigitRun(name);
    if n == 0 || text.None? then None
    else Some((DigitsValue(name[..n]), Collect(text.value, SectionTable)))
  }

  /** The number read back from a file name that starts with a decimal
      number is that number, wherever the file is. */
  lemma ProcessFileNumber(dir: string, digits: string, rest: string, text: string)
    requires |digits| >= 1 && AllDigits(digits)
    requires rest == [] || !IsDigit(rest[0])
    requires '/' !in rest
    ensures ProcessFile(dir + "/" + (digits + rest), Some(text)) == Some((DigitsValue(digits), Collect(text, SectionTable)))
  {
    var name := digits + rest;
    assert '/' !in digits by {
      forall i | 0 <= i < |digits| ensures digits[i] != '/' { assert IsDigit(digits[i]); }
    }
    assert '/' !in name;
    BasenameAfterSlash(dir, name);
    DigitRunOf(digits, rest);
    assert name[..|digits|] == digits;
  }

  lemma BasenameAfterSlash(dir: string, name: string)
    requires '/' !in name
    ensures Basename(dir + "/" + name) == name
  {
    var path := dir + "/" + name;
    assert path[|dir|] == '/';
    assert path[|dir| + 1..] == name;
    LastIndexIs(path, '/', |dir|);
  }

  lemma {:induction false} DigitRunOf(digits: string, rest: string)
    requires AllDigits(digits)
    requires rest == [] || !IsDigit(rest[0])
    ensures DigitRun(digits + rest) == |digits|
  {
    if digits != [] {
      assert (digits + rest)[1..] == digits[1..] + rest;
      DigitRunOf(digits[1..], rest);
    } else {
      assert digits + rest == rest;
    }
  }

  /** No number is read from a file name that does not start with a digit. */
  lemma ProcessFileNeedsDigit(path: string, text: Option<string>)
    requires Basename(path) == [] || !IsDigit(Basename(path)[0])
    ensures ProcessFile(path, text) == None
  {
  }
}

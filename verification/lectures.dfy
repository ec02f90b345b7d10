/** The lecture script `scripts/3_call_api.py` without its network calls:
    renumbering the lectures, choosing the ones to process, and the name and
    layout of the notes file written for each lecture, as read back by
    `extract_sections` and `process_file` of `scripts/config.py`. */
module Lectures {
  import opened Wrappers
  import opened Strings
  import opened Sorting
  import Outline
  import opened Notes

  /** One entry of `Lectures.json`. */
  datatype Lecture = Lecture(index: int, title: string, content: string)

  // ---------------------------------------------------------------------------
  // renumbering: `sorted(lectures, key=lambda x: x['index'])`, then
  // `lecture['index'] = start_index + offset`

  /** By index, and among equal indices by position: the order of the stable sort. */
  predicate ByIndex(a: (Lecture, nat), b: (Lecture, nat))
  {
    a.0.index < b.0.index || (a.0.index == b.0.index && a.1 <= b.1)
  }

  lemma ByIndexTotal()
    ensures TotalPreorder(ByIndex)
  {
  }

  /** The positions in `lectures` of the entries of `lectures_sorted`, in order. */
  function SortedOrder(ls: seq<Lecture>): (order: seq<nat>)
    ensures |order| == |ls|
  {
    var pairs := SortBy(Outline.Positioned(ls), ByIndex);
    seq(|pairs|, r requires 0 <= r < |pairs| => pairs[r].1)
  }

  /** The sorted list holds every lecture exactly once. */
  lemma OrderIsPermutation(ls: seq<Lecture>)
    ensures var order := SortedOrder(ls);
      && (forall r :: 0 <= r < |order| ==> order[r] < |ls|)
      && (forall r, r' :: 0 <= r < r' < |order| ==> order[r] != order[r'])
      && (forall p :: 0 <= p < |ls| ==> p in order)
  {
    var pairs := SortBy(Outline.Positioned(ls), ByIndex);
    var order := SortedOrder(ls);
    forall r | 0 <= r < |order| ensures order[r] < |ls| && pairs[r] == (ls[order[r]], order[r]) {
      assert pairs[r] in multiset(pairs);
      Outline.PositionedMember(ls, pairs[r]);
    }
    assert Distinct(Outline.Positioned(ls));
    PermutationDistinct(pairs, Outline.Positioned(ls));
    forall p | 0 <= p < |ls| ensures p in order {
      var x := (ls[p], p);
      assert x == Outline.Positioned(ls)[p];
      assert x in multiset(Outline.Positioned(ls));
      assert x in multiset(pairs);
      var r :| 0 <= r < |pairs| && pairs[r] == x;
      assert order[r] == p;
    }
  }

  /** The sorted list is in ascending index order, and lectures with equal
      indices keep their relative order. */
  lemma OrderSorted(ls: seq<Lecture>, r: nat, r': nat)
    requires r < r' < |ls|
    ensures var order := SortedOrder(ls);
      order[r] < |ls| && order[r'] < |ls| && (
      || ls[order[r]].index < ls[order[r']].index
      || (ls[order[r]].index == ls[order[r']].index && order[r] < order[r']))
  {
    var pairs := SortBy(Outline.Positioned(ls), ByIndex);
    var order := SortedOrder(ls);
    OrderIsPermutation(ls);
    ByIndexTotal();
    SortSorted(Outline.Positioned(ls), ByIndex);
    assert ByIndex(pairs[r], pairs[r']);
    forall q | q in {r, r'} ensures pairs[q] == (ls[order[q]], order[q]) {
      assert pairs[q] in multiset(pairs);
      Outline.PositionedMember(ls, pairs[q]);
    }
  }

  /** The position of lecture `p` in the sorted list. */
  lemma RankOf(ls: seq<Lecture>, p: nat) returns (r: nat)
    requires p < |ls|
    ensures r < |ls| && SortedOrder(ls)[r] == p
  {
    OrderIsPermutation(ls);
    var order := SortedOrder(ls);
    assert p in order;
    r :| 0 <= r < |order| && order[r] == p;
  }

  /** The lecture at rank `r` of the sorted order has index `start + r`, and
      is otherwise unchanged. */
  ghost predicate Renumbered(before: seq<Lecture>, after: seq<Lecture>, order: seq<nat>, start: int)
  {
    && |after| == |before| == |order|
    && forall r :: 0 <= r < |order| ==> order[r] < |before| && after[order[r]] == before[order[r]].(index := start + r)
  }

  /** The renumbering at the top of the script. `lectures_sorted` holds the
      same dictionaries as `lectures`, so an update through the sorted list
      is an update of the original list: here both are views of one array,
      the sorted one through `order`. An empty list fails at
      `lectures_sorted[0]`, hence the precondition. */
  method Renumber(lectures: array<Lecture>) returns (order: seq<nat>, start: int)
    requires lectures.Length > 0
    modifies lectures
    ensures order == SortedOrder(old(lectures[..]))
    ensures order[0] < lectures.Length && start == old(lectures[..])[order[0]].index
    ensures Renumbered(old(lectures[..]), lectures[..], order, start)
  {
    ghost var before := lectures[..];
    order := SortedOrder(lectures[..]);
    OrderIsPermutation(before);
    start := lectures[order[0]].index;
    for offset := 0 to |order|
      invariant forall r :: 0 <= r < |order| ==>
        lectures[order[r]] == if r < offset then before[order[r]].(index := start + r) else before[order[r]]
    {
      lectures[order[offset]] := lectures[order[offset]].(index := start + offset);
    }
  }

  /** After renumbering, every lecture keeps its title and content; the
      indices are `start` to `start + n - 1`, each used once; `start` was the
      smallest index; and the new indices follow the old order, ties broken
      by position in the list. */
  lemma RenumberedMeaning(before: seq<Lecture>, after: seq<Lecture>, start: int)
    requires before != []
    requires Renumbered(before, after, SortedOrder(before), start)
    requires start == before[SortedOrder(before)[0]].index
    ensures forall i :: 0 <= i < |before| ==> after[i].title == before[i].title && after[i].content == before[i].content
    ensures forall i :: 0 <= i < |before| ==> start <= after[i].index < start + |before|
    ensures forall i :: 0 <= i < |before| ==> start <= before[i].index
    ensures forall i, j :: 0 <= i < |before| && 0 <= j < |before| && i != j ==> after[i].index != after[j].index
    ensures forall i, j :: 0 <= i < |before| && 0 <= j < |before| && before[i].index < before[j].index ==>
      after[i].index < after[j].index
    ensures forall i, j :: 0 <= i < j < |before| && before[i].index == before[j].index ==>
      after[i].index < after[j].index
  {
    var order := SortedOrder(before);
    forall i | 0 <= i < |before|
      ensures after[i].title == before[i].title && after[i].content == before[i].content
      ensures start <= after[i].index < start + |before| && start <= before[i].index
    {
      var r := RankOf(before, i);
      if r > 0 { OrderSorted(before, 0, r); }
    }
    forall i, j | 0 <= i < |before| && 0 <= j < |before| && i != j
      ensures after[i].index != after[j].index
      ensures before[i].index < before[j].index ==> after[i].index < after[j].index
      ensures i < j && before[i].index == before[j].index ==> after[i].index < after[j].index
    {
      var ri := RankOf(before, i);
      var rj := RankOf(before, j);
      if ri < rj { OrderSorted(before, ri, rj); } else if rj < ri { OrderSorted(before, rj, ri); }
    }
  }

  // ---------------------------------------------------------------------------
  // the processing window: `START <= id < START + NUM_LECS`

  /** `START <= id < START + NUM_LECS`, with both bounds taken from the flags
      (0 and 100 unless `flags.py` overrides them). */
  predicate InWindow(f: Flags, index: int) { f.start <= index < f.start + f.numLecs }

  /** Renumbered from `first`, the lecture at rank `r` of the sorted order is
      processed exactly when `first + r` falls in the window; in particular,
      when the lowest index is `START`, the lectures processed are the first
      `NUM_LECS` of the sorted order. */
  lemma WindowIsFirstRanks(before: seq<Lecture>, after: seq<Lecture>, first: int, f: Flags, r: nat)
    requires Renumbered(before, after, SortedOrder(before), first)
    requires r < |before|
    ensures InWindow(f, after[SortedOrder(before)[r]].index) <==> f.start - first <= r < f.start - first + f.numLecs
    ensures first == f.start ==> (InWindow(f, after[SortedOrder(before)[r]].index) <==> r < f.numLecs)
  {
  }

  // ---------------------------------------------------------------------------
  // clean_title: re.sub(r'^0*(\d+)\s+', ..., title, count=1)

  /** The pattern matches: the title starts with digits followed by whitespace. */
  predicate NumberPrefix(t: string)
  {
    0 < DigitRun(t) < |t| && IsSpace(t[DigitRun(t)])
  }

  /** `clean_title`: `0*` takes the leading zeros but leaves `(\d+)` at least
      one digit, and the whole whitespace run after the number becomes one
      space. */
  function CleanTitle(t: string): string
  {
    if NumberPrefix(t) then DropLeadingZeros(t[..DigitRun(t)]) + " " + TrimLeft(t[DigitRun(t)..]) else t
  }

  /** `lstrip` of whitespace followed by text that does not start with
      whitespace leaves that text. */
  lemma {:induction false} TrimSpaces(ws: string, rest: string)
    requires forall i :: 0 <= i < |ws| ==> IsSpace(ws[i])
    requires rest == [] || !IsSpace(rest[0])
    ensures LeadingSpaces(ws + rest) == |ws|
  {
    if ws != [] {
      assert (ws + rest)[1..] == ws[1..] + rest;
      TrimSpaces(ws[1..], rest);
    } else {
      assert ws + rest == rest;
    }
  }

  /** A title made of a number, whitespace and text not starting with
      whitespace becomes `str(int(number))`, one space and that text. */
  lemma CleanTitleNumber(digits: string, ws: string, rest: string)
    requires |digits| >= 1 && AllDigits(digits)
    requires |ws| >= 1 && forall i :: 0 <= i < |ws| ==> IsSpace(ws[i])
    requires rest == [] || !IsSpace(rest[0])
    ensures CleanTitle(digits + ws + rest) == DecimalString(DigitsValue(digits)) + " " + rest
  {
    var after := ws + rest;
    assert digits + ws + rest == digits + after;
    TrimLeftSpaces(ws, rest);
    NumberThenSpace(digits, after);
    CleanTitleAt(digits + after, |digits|);
    DropLeadingZerosIsDecimal(digits);
  }

  lemma TrimLeftSpaces(ws: string, rest: string)
    requires |ws| >= 1 && forall i :: 0 <= i < |ws| ==> IsSpace(ws[i])
    requires rest == [] || !IsSpace(rest[0])
    ensures TrimLeft(ws + rest) == rest && IsSpace((ws + rest)[0])
  {
    TrimSpaces(ws, rest);
    SplitAt(ws, rest);
  }

  lemma NumberThenSpace(digits: string, after: string)
    requires |digits| >= 1 && AllDigits(digits)
    requires after != [] && IsSpace(after[0])
    ensures var t := digits + after;
      DigitRun(t) == |digits| && t[..|digits|] == digits && t[|digits|..] == after && IsSpace(t[|digits|])
  {
    SplitAt(digits, after);
    DigitRunOf(digits, after);
  }

  lemma SplitAt(a: string, b: string)
    ensures (a + b)[..|a|] == a && (a + b)[|a|..] == b
  {
  }

  lemma CleanTitleAt(t: string, d: nat)
    requires d == DigitRun(t) && 0 < d < |t| && IsSpace(t[d])
    ensures CleanTitle(t) == DropLeadingZeros(t[..d]) + " " + TrimLeft(t[d..])
  {
  }

  /** A title that does not start with digits followed by whitespace is kept. */
  lemma CleanTitleKeepsOthers(t: string)
    requires DigitRun(t) == 0 || DigitRun(t) == |t| || !IsSpace(t[DigitRun(t)])
    ensures CleanTitle(t) == t
  {
  }

  /** Cleaning a cleaned title changes nothing. */
  lemma CleanTitleIdempotent(t: string)
    ensures CleanTitle(CleanTitle(t)) == CleanTitle(t)
  {
    if NumberPrefix(t) {
      var n := DropLeadingZeros(t[..DigitRun(t)]);
      var w := t[DigitRun(t)..];
      var rest := TrimLeft(w);
      assert rest == [] || !IsSpace(rest[0]);
      CleanTitleNumber(n, " ", rest);
      DecimalOfValue(n);
    }
  }

  // ---------------------------------------------------------------------------
  // the file name: f"{id:02d} {re.sub(r'[<>:"/\\|?*\x00-\x1F]', '', title)}.md"

  /** A character the file name may not hold. */
  predicate Forbidden(c: char)
  {
    c in "<>:\"/\\|?*" || c <= '\U{1F}'
  }

  /** The title with every forbidden character removed. */
  function Sanitize(t: string): string
  {
    if t == [] then [] else (if Forbidden(t[0]) then [] else [t[0]]) + Sanitize(t[1..])
  }

  /** Sanitizing keeps exactly the allowed characters of the title. */
  lemma {:induction false} SanitizeMembers(t: string, c: char)
    ensures c in Sanitize(t) <==> c in t && !Forbidden(c)
  {
    if t != [] {
      SanitizeMembers(t[1..], c);
      assert t == [t[0]] + t[1..];
    }
  }

  /** A title without forbidden characters is kept as it is. */
  lemma {:induction false} SanitizeKeepsClean(t: string)
    requires forall i :: 0 <= i < |t| ==> !Forbidden(t[i])
    ensures Sanitize(t) == t
  {
    if t != [] {
      SanitizeKeepsClean(t[1..]);
      assert t == [t[0]] + t[1..];
    }
  }

  /** `f"{id:02d}"`: at least two digits, zero-padded; a negative number is
      its sign and digits. */
  function TwoDigits(id: int): string
  {
    if id < 0 then "-" + DecimalString(-id)
    else if id < 10 then "0" + DecimalString(id)
    else DecimalString(id)
  }

  /** A non-negative id is written as at least two digits whose value is the
      id, with a leading zero only to reach two digits; a negative one starts
      with '-'. */
  lemma TwoDigitsMeaning(id: int)
    ensures id >= 0 ==> var r := TwoDigits(id);
      |r| >= 2 && AllDigits(r) && DigitsValue(r) == id && (|r| == 2 || r[0] != '0')
    ensures id < 0 ==> TwoDigits(id)[0] == '-'
  {
    if id >= 0 {
      ValueOfDecimal(id);
      if id < 10 {
        ZerosDoNotCount("0" + DecimalString(id));
        assert ("0" + DecimalString(id))[1..] == DecimalString(id);
      } else {
        assert DecimalString(id) == DecimalString(id / 10) + [DigitChar(id % 10)];
      }
    }
  }

  /** The name of the notes file of a lecture: the number, then a space, the
      sanitized title and ".md". */
  function FileName(id: int, title: string): string
  {
    TwoDigits(id) + AfterNumber(title)
  }

  function AfterNumber(title: string): string
  {
    " " + Sanitize(title) + ".md"
  }

  /** `os.path.join("outputs", ...)`. */
  function OutputPath(id: int, title: string): string
  {
    "outputs" + "/" + FileName(id, title)
  }

  /** A notes file written for a non-negative id is read back by
      `process_file` under that id, whatever the title. */
  lemma OutputPathReadBack(id: int, title: string, md: string)
    requires id >= 0
    ensures ProcessFile(OutputPath(id, title), Some(md)) == Some((id, Collect(md, SectionTable)))
  {
    var digits := TwoDigits(id);
    var rest := AfterNumber(title);
    TwoDigitsMeaning(id);
    AfterNumberHasNoSlash(title);
    assert OutputPath(id, title) == "outputs" + "/" + (digits + rest);
    ProcessFileNumber("outputs", digits, rest, md);
  }

  /** Every notes file name ends in ".md", the files `load_md_to_dict` reads. */
  lemma OutputPathIsMarkdown(id: int, title: string)
    ensures var path := OutputPath(id, title);
      |path| >= 3 && path[|path| - 3..] == ".md"
  {
    EndsWith("outputs" + "/", TwoDigits(id), " " + Sanitize(title), ".md");
  }

  lemma EndsWith(p: string, d: string, s: string, m: string)
    ensures var x := p + (d + (s + m));
      |x| >= |m| && x[|x| - |m|..] == m
  {
    var x := p + (d + (s + m));
    assert x == (p + d + s) + m;
    SplitAt(p + d + s, m);
  }

  lemma AfterNumberHasNoSlash(title: string)
    ensures '/' !in AfterNumber(title) && AfterNumber(title)[0] == ' '
  {
    SanitizeMembers(title, '/');
  }

  /** A notes file written for a negative id is never read back. */
  lemma OutputPathNegative(id: int, title: string, text: Option<string>)
    requires id < 0
    ensures ProcessFile(OutputPath(id, title), text) == None
  {
    var name := FileName(id, title);
    TwoDigitsMeaning(id);
    SanitizeMembers(title, '/');
    assert '/' !in name by {
      assert name == "-" + DecimalString(-id) + AfterNumber(title);
      var ds := DecimalString(-id);
      assert '/' !in ds by {
        forall i | 0 <= i < |ds| ensures ds[i] != '/' {
          assert IsDigit(ds[i]);
        }
      }
    }
    BasenameAfterSlash("outputs", name);
    ProcessFileNeedsDigit(OutputPath(id, title), text);
  }

  // ---------------------------------------------------------------------------
  // the notes file

  const Sep: string := "\n\n\n\n<br>\n\n"
  const KeyPointsLink: string := "[Key Points](#key-points)\n\n"
  const StudyNotesLink: string := "[Study Notes](#study-notes)\n\n"
  const QuestionsHeading: string := "## Questions\n\n"
  const AnswersHeading: string := "## Answers\n\n"
  const KeyPointsHeading: string := "## Key Points\n\n"
  const StudyNotesHeading: string := "## Study Notes\n\n"

  /** What one lecture's notes file is made of: the study notes of step 1, and
      the questions, answers and key points when `results` holds them. */
  datatype Texts = Texts(notes: string, questions: Option<string>, answers: Option<string>, keyPoints: Option<string>)

  /** One section of the file: `lead`, its heading and its cleaned text, or
      nothing when the text is missing. */
  function Part(lead: string, heading: string, text: Option<string>): string
  {
    match text
    case Some(v) => lead + heading + Clean(v)
    case None => ""
  }

  /** The title heading and the two links. */
  function Header(title: string): string
  {
    "## " + CleanTitle(title) + "\n\n" + KeyPointsLink + StudyNotesLink
  }

  /** The text of the notes file: the title heading and the two links, the
      questions, answers and key points when present, the study notes last,
      and SEP before every section but the questions. */
  function Document(title: string, t: Texts): string
  {
    Header(title) + Part("", QuestionsHeading, t.questions) + Part(Sep, AnswersHeading, t.answers)
      + Part(Sep, KeyPointsHeading, t.keyPoints) + Part(Sep, StudyNotesHeading, Some(t.notes))
  }

  /** The two `f.write` calls of one optional section. */
  method WritePart(md: string, lead: string, heading: string, text: Option<string>) returns (r: string)
    ensures r == md + Part(lead, heading, text)
  {
    r := md;
    if text.Some? {
      var body := Clean(text.value);
      r := r + (lead + heading);
      r := r + body;
      Appended(md, lead + heading, body);
    }
  }

  lemma Appended(md: string, x: string, y: string)
    ensures md + x + y == md + (x + y)
  {
  }

  /** The `f.write` calls of `process_lecture`, in their order. */
  method WriteNotes(title: string, t: Texts) returns (md: string)
    ensures md == Document(title, t)
  {
    var heading := "## " + CleanTitle(title) + "\n\n";
    md := "";
    md := md + heading;
    assert md == heading;
    md := md + KeyPointsLink;
    md := md + StudyNotesLink;
    md := WritePart(md, "", QuestionsHeading, t.questions);
    md := WritePart(md, Sep, AnswersHeading, t.answers);
    md := WritePart(md, Sep, KeyPointsHeading, t.keyPoints);
    md := WritePart(md, Sep, StudyNotesHeading, Some(t.notes));
  }

  // ---------------------------------------------------------------------------
  // reading the notes file back

  /** A section put between two texts occurs where it was put. */
  lemma PartOccurs(before: string, lead: string, heading: string, body: string, after: string)
    ensures OccursAt(before + (lead + heading + body) + after, heading, |before| + |lead|)
  {
    var md := before + (lead + heading + body) + after;
    assert md[|before| + |lead|..|before| + |lead| + |heading|] == heading;
  }

  /** A text holding a section's heading has that section read back. */
  lemma FoundIn(before: string, lead: string, j: nat, body: string, after: string)
    requires 1 <= j < |SectionTable|
    ensures SectionTable[j].key in Collect(before + (lead + SectionTable[j].marker + body) + after, SectionTable)
  {
    PartOccurs(before, lead, SectionTable[j].marker, body, after);
    SectionPresentIffMarker(before + (lead + SectionTable[j].marker + body) + after, j);
  }

  /** The same, for the last section of a text. */
  lemma FoundLast(before: string, lead: string, j: nat, body: string)
    requires 1 <= j < |SectionTable|
    ensures SectionTable[j].key in Collect(before + (lead + SectionTable[j].marker + body), SectionTable)
  {
    var md := before + (lead + SectionTable[j].marker + body);
    PartOccurs(before, lead, SectionTable[j].marker, body, "");
    assert md + "" == md;
    SectionPresentIffMarker(md, j);
  }

  /** The file in five pieces. */
  lemma DocumentPieces(title: string, t: Texts)
    ensures var q := Part("", QuestionsHeading, t.questions);
      var a := Part(Sep, AnswersHeading, t.answers);
      var k := Part(Sep, KeyPointsHeading, t.keyPoints);
      var n := Sep + StudyNotesHeading + Clean(t.notes);
      Document(title, t) == Header(title) + q + a + k + n
  {
  }

  /** The sections written are found by `extract_sections` under the
      heading the file uses: the study notes always, the questions and the
      answers whenever they were written. */
  lemma SectionsFound(title: string, t: Texts)
    ensures var m := Collect(Document(title, t), SectionTable);
      && "study_notes" in m
      && (t.questions.Some? ==> "questions" in m)
      && (t.answers.Some? ==> "answers" in m)
  {
    var h := Header(title);
    var q := Part("", QuestionsHeading, t.questions);
    var a := Part(Sep, AnswersHeading, t.answers);
    var k := Part(Sep, KeyPointsHeading, t.keyPoints);
    DocumentPieces(title, t);
    Regroup(h, q, a, k, Sep + StudyNotesHeading + Clean(t.notes));
    FoundLast(h + q + a + k, Sep, 4, Clean(t.notes));
    if t.questions.Some? {
      FoundIn(h, "", 1, Clean(t.questions.value), a + k + (Sep + StudyNotesHeading + Clean(t.notes)));
    }
    if t.answers.Some? {
      FoundIn(h + q, Sep, 2, Clean(t.answers.value), k + (Sep + StudyNotesHeading + Clean(t.notes)));
    }
  }

  /** The file starts with the title heading and the links, and ends with
      the study notes after SEP. */
  lemma DocumentLayout(title: string, t: Texts)
    ensures var md := Document(title, t);
      var tail := Sep + StudyNotesHeading + Clean(t.notes);
      && StartsWith(md, "## " + CleanTitle(title) + "\n\n" + KeyPointsLink + StudyNotesLink)
      && |tail| <= |md| && md[|md| - |tail|..] == tail
  {
    var q := Part("", QuestionsHeading, t.questions);
    var a := Part(Sep, AnswersHeading, t.answers);
    var k := Part(Sep, KeyPointsHeading, t.keyPoints);
    DocumentPieces(title, t);
    Regroup(Header(title), q, a, k, Sep + StudyNotesHeading + Clean(t.notes));
    EndsWithLast(Header(title), q + a + k, Sep + StudyNotesHeading + Clean(t.notes));
  }

  lemma EndsWithLast(a: string, b: string, c: string)
    ensures a + b + c == a + (b + c) && (a + b + c)[..|a|] == a && (a + b + c)[|a + b|..] == c
  {
  }

  /** The title is read back as written when its cleaned form is one line
      without "<br>" and without whitespace at either end. */
  lemma TitleReadBack(title: string, t: Texts)
    requires Line(CleanTitle(title)) && !Contains(CleanTitle(title), "<br>")
    requires CleanTitle(title) == [] || (!IsSpace(CleanTitle(title)[0]) && !IsSpace(CleanTitle(title)[|CleanTitle(title)| - 1]))
    ensures var m := Collect(Document(title, t), SectionTable);
      "title" in m && m["title"] == CleanTitle(title)
  {
    var q := Part("", QuestionsHeading, t.questions);
    var a := Part(Sep, AnswersHeading, t.answers);
    var k := Part(Sep, KeyPointsHeading, t.keyPoints);
    var n := Sep + StudyNotesHeading + Clean(t.notes);
    DocumentPieces(title, t);
    Regroup(Header(title), q, a, k, n);
    HeaderFirst("## " + CleanTitle(title) + "\n\n", KeyPointsLink, StudyNotesLink, q + a + k + n);
    TitleOfText(CleanTitle(title), KeyPointsLink + StudyNotesLink + (q + a + k + n));
  }

  lemma HeaderFirst(h: string, l1: string, l2: string, rest: string)
    ensures h + l1 + l2 + rest == h + (l1 + l2 + rest)
  {
  }

  lemma Regroup(h: string, q: string, a: string, k: string, n: string)
    ensures h + q + a + k + n == h + q + (a + k + n)
    ensures h + q + a + k + n == h + q + a + (k + n)
    ensures h + q + a + k + n == h + (q + a + k + n)
    ensures h + q + a + k + n == h + (q + a + k) + n
  {
  }

  /** The title search of `extract_sections` on a text that starts with a
      heading line. */
  lemma TitleOfText(title: string, rest: string)
    requires Line(title) && !Contains(title, "<br>")
    requires title == [] || (!IsSpace(title[0]) && !IsSpace(title[|title| - 1]))
    ensures var m := Collect("## " + title + "\n\n" + rest, SectionTable);
      "title" in m && m["title"] == title
  {
    var md := "## " + title + "\n\n" + rest;
    var e := 3 + |title|;
    assert md[..3] == "## ";
    assert OccursAt(md, "## ", 0);
    assert md[e..e + 2] == "\n\n";
    forall e' | 3 <= e' < e ensures !EndsAt(md, e', BlankLine) {
      assert md[e'] == title[e' - 3];
    }
    FirstEndAt(md, 3, e, BlankLine);
    assert Search(md, "## ", BlankLine) == Some((3, e));
    assert md[3..e] == title;
    ReplaceAbsent(title, "<br>", "");
    StripNoEnds(title);
    SectionsStored(md, 0, "title");
  }

  // ---------------------------------------------------------------------------
  // the key points heading: written as "## Key Points", searched as
  // "### Key Points\n\n"

  /** No three '#' in a row, and no '#' at the end. */
  ghost predicate HashSafe(s: string)
  {
    && (forall k :: 0 <= k < |s| - 2 ==> !(s[k] == '#' && s[k + 1] == '#' && s[k + 2] == '#'))
    && (s == [] || s[|s| - 1] != '#')
  }

  lemma HashSafeConcat(a: string, b: string)
    requires HashSafe(a) && HashSafe(b)
    ensures HashSafe(a + b)
  {
    var s := a + b;
    forall k | 0 <= k < |s| - 2 ensures !(s[k] == '#' && s[k + 1] == '#' && s[k + 2] == '#') {
      if k + 2 < |a| {
        assert s[k] == a[k] && s[k + 1] == a[k + 1] && s[k + 2] == a[k + 2];
      } else if k >= |a| {
        assert s[k] == b[k - |a|] && s[k + 1] == b[k - |a| + 1] && s[k + 2] == b[k - |a| + 2];
      } else {
        assert s[|a| - 1] == a[|a| - 1];
      }
    }
  }

  lemma HashFree(s: string)
    requires '#' !in s
    ensures HashSafe(s)
  {
  }

  /** A single '#' inside text without '#'. */
  lemma OneHash(a: string, b: string)
    requires '#' !in a && '#' !in b && b != []
    ensures HashSafe(a + "#" + b)
  {
    var s := a + "#" + b;
    forall k | 0 <= k < |s| - 2 ensures !(s[k] == '#' && s[k + 1] == '#' && s[k + 2] == '#') {
      if k < |a| {
        assert s[k] == a[k];
      } else {
        assert s[k + 1] == b[k - |a|];
      }
    }
    assert s[|s| - 1] == b[|b| - 1];
  }

  /** The fixed texts of the file never hold three '#' in a row. */
  lemma LinksHashSafe()
    ensures HashSafe(KeyPointsLink) && HashSafe(StudyNotesLink)
  {
    KeyPointsLinkHashSafe();
    StudyNotesLinkHashSafe();
  }

  lemma KeyPointsLinkHashSafe()
    ensures HashSafe(KeyPointsLink)
  {
    assert KeyPointsLink == "[Key Points](" + "#" + "key-points)\n\n";
    OneHash("[Key Points](", "key-points)\n\n");
  }

  lemma StudyNotesLinkHashSafe()
    ensures HashSafe(StudyNotesLink)
  {
    assert StudyNotesLink == "[Study Notes](" + "#" + "study-notes)\n\n";
    OneHash("[Study Notes](", "study-notes)\n\n");
  }

  lemma SeparatorsHashSafe()
    ensures HashSafe("## ") && HashSafe("\n\n") && HashSafe(Sep)
  {
  }

  lemma HeadingsHashSafe()
    ensures HashSafe(QuestionsHeading) && HashSafe(AnswersHeading)
    ensures HashSafe(KeyPointsHeading) && HashSafe(StudyNotesHeading)
  {
  }

  /** A text without three '#' in a row holds no "### Key Points\n\n". */
  lemma NoKeyPointsMarker(s: string)
    requires HashSafe(s)
    ensures !Contains(s, SectionTable[3].marker)
  {
    var m := SectionTable[3].marker;
    assert |m| == 16 && m[0] == '#' && m[1] == '#' && m[2] == '#';
    forall k: nat | k <= |s| ensures !OccursAt(s, m, k) {
      if k + |m| <= |s| {
        var w := s[k..k + |m|];
        assert w[0] == s[k] && w[1] == s[k + 1] && w[2] == s[k + 2];
      }
    }
  }

  /** The text of a section has no '#' once cleaned. */
  predicate Plain(text: Option<string>)
  {
    text.None? || '#' !in Clean(text.value)
  }

  lemma PartHashSafe(lead: string, heading: string, text: Option<string>)
    requires HashSafe(lead) && HashSafe(heading) && Plain(text)
    ensures HashSafe(Part(lead, heading, text))
  {
    if text.Some? {
      HashFree(Clean(text.value));
      HashSafeConcat(lead, heading);
      HashSafeConcat(lead + heading, Clean(text.value));
    }
  }

  lemma DocumentHashSafe(title: string, t: Texts)
    requires '#' !in CleanTitle(title)
    requires Plain(Some(t.notes)) && Plain(t.questions) && Plain(t.answers) && Plain(t.keyPoints)
    ensures HashSafe(Document(title, t))
  {
    LinksHashSafe();
    SeparatorsHashSafe();
    HeadingsHashSafe();
    HashFree(CleanTitle(title));
    HashSafeConcat("## ", CleanTitle(title));
    HashSafeConcat("## " + CleanTitle(title), "\n\n");
    HashSafeConcat("## " + CleanTitle(title) + "\n\n", KeyPointsLink);
    HashSafeConcat("## " + CleanTitle(title) + "\n\n" + KeyPointsLink, StudyNotesLink);
    var h := Header(title);
    var q := Part("", QuestionsHeading, t.questions);
    var a := Part(Sep, AnswersHeading, t.answers);
    var k := Part(Sep, KeyPointsHeading, t.keyPoints);
    var n := Part(Sep, StudyNotesHeading, Some(t.notes));
    assert HashSafe("");
    PartHashSafe("", QuestionsHeading, t.questions);
    PartHashSafe(Sep, AnswersHeading, t.answers);
    PartHashSafe(Sep, KeyPointsHeading, t.keyPoints);
    PartHashSafe(Sep, StudyNotesHeading, Some(t.notes));
    HashSafeConcat(h, q);
    HashSafeConcat(h + q, a);
    HashSafeConcat(h + q + a, k);
    HashSafeConcat(h + q + a + k, n);
  }

  /** As written: a file with a Key Points section whose texts hold no '#'
      has that section written under "## Key Points", yet `extract_sections`,
      searching for "### Key Points\n\n", reads no key points back. */
  lemma KeyPointsLost(title: string, t: Texts)
    requires t.keyPoints.Some?
    requires '#' !in CleanTitle(title)
    requires Plain(Some(t.notes)) && Plain(t.questions) && Plain(t.answers) && Plain(t.keyPoints)
    ensures Contains(Document(title, t), KeyPointsHeading)
    ensures "key_points" !in Collect(Document(title, t), SectionTable)
  {
    var md := Document(title, t);
    var h := Header(title);
    var q := Part("", QuestionsHeading, t.questions);
    var a := Part(Sep, AnswersHeading, t.answers);
    var n := Sep + StudyNotesHeading + Clean(t.notes);
    DocumentPieces(title, t);
    PartOccurs(h + q + a, Sep, KeyPointsHeading, Clean(t.keyPoints.value), n);
    DocumentHashSafe(title, t);
    NoKeyPointsMarker(md);
    SectionsStored(md, 3, "key_points");
    ExtractedToEnd(md, SectionTable[3]);
  }

  /** The reader with the key points marker the writer uses. */
  const FixedSectionTable: seq<Section> := SectionTable[3 := Section("key_points", KeyPointsHeading, BreakOrEnd, true)]

  lemma FixedTableKeys()
    ensures DistinctKeys(FixedSectionTable)
    ensures FixedSectionTable[3] == Section("key_points", KeyPointsHeading, BreakOrEnd, true)
  {
  }

  /** With distinct keys, a section with the default suffix is read back
      whenever its marker occurs. */
  lemma FoundWithTable(md: string, table: seq<Section>, j: nat)
    requires DistinctKeys(table) && j < |table| && table[j].ending == BreakOrEnd
    requires Contains(md, table[j].marker)
    ensures table[j].key in Collect(md, table)
  {
    CollectLookup(md, table, j);
    ExtractedToEnd(md, table[j]);
  }

  /** Corrected: with the writer's heading as the marker, a file with a Key
      Points section always has its key points read back. */
  lemma KeyPointsKept(title: string, t: Texts)
    requires t.keyPoints.Some?
    ensures "key_points" in Collect(Document(title, t), FixedSectionTable)
  {
    var h := Header(title);
    var q := Part("", QuestionsHeading, t.questions);
    var a := Part(Sep, AnswersHeading, t.answers);
    var n := Sep + StudyNotesHeading + Clean(t.notes);
    DocumentPieces(title, t);
    PartOccurs(h + q + a, Sep, KeyPointsHeading, Clean(t.keyPoints.value), n);
    FixedTableKeys();
    FoundWithTable(Document(title, t), FixedSectionTable, 3);
  }

  // ---------------------------------------------------------------------------
  // process_lecture

  /** The flags of `config.py`: the window of lecture numbers to process, and
      where each text comes from. */
  datatype Flags = Flags(start: int, numLecs: int, getQAndA: bool, getKeyPoints: bool, tryReuseNotes: bool)

  /** What the model answers to the prompts of steps 1 and 2. */
  datatype Replies = Replies(notes: string, questions: string, answers: string, keyPoints: string)

  /** `history.get(id, {}).get(key)`, where `history` maps the numbers
      `process_file` read to the sections it found. */
  function Saved(history: map<nat, map<string, string>>, id: int, key: string): Option<string>
  {
    if id >= 0 && id as nat in history && key in history[id as nat] then Some(history[id as nat][key]) else None
  }

  /** Steps 1 and 2: the study notes are reused when asked and saved, else
      generated; questions and answers, and key points, are generated when
      their flag is set and otherwise taken from the saved notes, if there. */
  function Gather(f: Flags, history: map<nat, map<string, string>>, id: int, g: Replies): Texts
  {
    var saved := if f.tryReuseNotes then Saved(history, id, "study_notes") else None;
    Texts(
      if saved.Some? then saved.value else g.notes,
      if f.getQAndA then Some(g.questions) else Saved(history, id, "questions"),
      if f.getQAndA then Some(g.answers) else Saved(history, id, "answers"),
      if f.getKeyPoints then Some(g.keyPoints) else Saved(history, id, "key_points"))
  }

  /** `process_lecture`: nothing for a lecture outside the window, else the
      path and the text of its notes file. */
  function ProcessLecture(l: Lecture, f: Flags, history: map<nat, map<string, string>>, g: Replies): Option<(string, string)>
  {
    if InWindow(f, l.index) then Some((OutputPath(l.index, l.title), Document(l.title, Gather(f, history, l.index, g))))
    else None
  }

  /** A lecture is written exactly when it is in the window; the notes file
      of a lecture with a non-negative number is read back under that number
      with the study notes found, and that of a negative number (a window
      with a negative `START`) is not read back. */
  lemma ProcessLectureReadBack(l: Lecture, f: Flags, history: map<nat, map<string, string>>, g: Replies)
    ensures ProcessLecture(l, f, history, g).Some? <==> InWindow(f, l.index)
    ensures ProcessLecture(l, f, history, g).Some? && l.index >= 0 ==>
      var (path, md) := ProcessLecture(l, f, history, g).value;
      && ProcessFile(path, Some(md)) == Some((l.index as nat, Collect(md, SectionTable)))
      && "study_notes" in Collect(md, SectionTable)
    ensures ProcessLecture(l, f, history, g).Some? && l.index < 0 ==>
      ProcessFile(ProcessLecture(l, f, history, g).value.0, Some(ProcessLecture(l, f, history, g).value.1)) == None
  {
    if InWindow(f, l.index) && l.index >= 0 {
      var md := Document(l.title, Gather(f, history, l.index, g));
      OutputPathReadBack(l.index, l.title, md);
      SectionsFound(l.title, Gather(f, history, l.index, g));
    } else if InWindow(f, l.index) {
      OutputPathNegative(l.index, l.title, Some(Document(l.title, Gather(f, history, l.index, g))));
    }
  }

  /** What reading the notes files back gives for one lecture's file. */
  function HistoryOf(id: int, md: string, table: seq<Section>): map<nat, map<string, string>>
    requires id >= 0
  {
    map[id as nat := Collect(md, table)]
  }

  /** Processing a lecture again with its notes file read back: the study
      notes are reused when asked, and questions and answers that were
      written are there again, whatever the flags. */
  lemma RerunKeepsSections(l: Lecture, t: Texts, f: Flags, g: Replies)
    requires l.index >= 0
    ensures var m := Collect(Document(l.title, t), SectionTable);
      var again := Gather(f, HistoryOf(l.index, Document(l.title, t), SectionTable), l.index, g);
      && "study_notes" in m
      && (f.tryReuseNotes ==> again.notes == m["study_notes"])
      && (t.questions.Some? ==> again.questions.Some?)
      && (t.answers.Some? ==> again.answers.Some?)
  {
    SectionsFound(l.title, t);
  }

  /** As written: when key points are not regenerated, a second run over a
      file whose texts hold no '#' loses its Key Points section. */
  lemma RerunLosesKeyPoints(l: Lecture, t: Texts, f: Flags, g: Replies)
    requires l.index >= 0 && !f.getKeyPoints && t.keyPoints.Some?
    requires '#' !in CleanTitle(l.title)
    requires Plain(Some(t.notes)) && Plain(t.questions) && Plain(t.answers) && Plain(t.keyPoints)
    ensures Gather(f, HistoryOf(l.index, Document(l.title, t), SectionTable), l.index, g).keyPoints == None
  {
    KeyPointsLost(l.title, t);
  }

  /** Corrected: with the writer's heading as the marker, the second run
      keeps the Key Points section. */
  lemma RerunKeepsKeyPoints(l: Lecture, t: Texts, f: Flags, g: Replies)
    requires l.index >= 0 && t.keyPoints.Some?
    ensures Gather(f, HistoryOf(l.index, Document(l.title, t), FixedSectionTable), l.index, g).keyPoints.Some?
  {
    KeyPointsKept(l.title, t);
  }
}

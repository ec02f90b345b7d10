/** The rest of `extract_all_toc_entries_with_content`: the page walk that
    gives each section of `toc_flat` its end page and its text, and the second
    pass that re-applies the title fix for the deeper bookmarks. The document
    is the list of its pages' texts. */
module Segment {
  import opened Wrappers
  import opened Strings
  import opened Paragraphs
  import opened TitleMatch
  import opened Normalize
  import opened Outline
  import opened Capitals

  /** `doc.load_page(k).get_text()`: pages outside the document do not load. */
  function LoadPage(doc: seq<string>, k: int): (r: Option<string>)
    ensures r.Some? <==> 0 <= k < |doc|
  {
    if 0 <= k < |doc| then Some(doc[k]) else None
  }

  /** Every page number in `[from, to)` loads as `doc.load_page(page_num - 1)`. */
  predicate PagesLoad(doc: seq<string>, from: int, to: int)
  {
    from >= to || (1 <= from && to - 1 <= |doc|)
  }

  // ---------------------------------------------------------------------------
  // the page walk of one section

  /** The walk's variables before a page: `chapter_text` and `previous_page_content`. */
  datatype Walk = Walk(text: string, last: Option<string>)

  /** `previous_page_content and is_similar_content(previous_page_content, current_page_cleaned)`. */
  predicate Skips(last: Option<string>, cleaned: string)
  {
    last.Some? && last.value != [] && IsSimilarContent(last.value, cleaned)
  }

  /** The cleaned text of the page at index `i`. */
  function CleanedAt(cl: seq<string>, i: nat): string
    requires i < |cl|
  {
    cl[i]
  }

  /** `cl` holds `extract_clean_paragraphs` of every page of the document. */
  predicate CleanOf(doc: seq<string>, cl: seq<string>)
  {
    |cl| == |doc| && forall i: nat {:trigger CleanedAt(cl, i)} :: i < |doc| ==> CleanedAt(cl, i) == CleanParagraphs(doc[i])
  }

  /** `extract_clean_paragraphs` of every page of the document, in order. */
  function CleanedPages(doc: seq<string>): (cl: seq<string>)
    ensures CleanOf(doc, cl)
  {
    seq(|doc|, k requires 0 <= k < |doc| => CleanParagraphs(doc[k]))
  }

  /** The walk's variables once the pages `from .. q - 1` are done; `cl[i]` is
      the cleaned text of the page at index `i`. */
  function WalkTo(doc: seq<string>, cl: seq<string>, from: int, q: int): Walk
    requires |cl| == |doc| && from <= q && PagesLoad(doc, from, q)
    decreases q - from
  {
    if q == from then Walk("", None)
    else
      var w := WalkTo(doc, cl, from, q - 1);
      if Skips(w.last, cl[q - 2]) then w else Walk(w.text + doc[q - 2], Some(cl[q - 2]))
  }

  /** The text a section gathers from the pages `[from, to)`, or `None` when one
      of them does not load (the exception ends the whole extraction). */
  function Chapter(doc: seq<string>, cl: seq<string>, from: int, to: int): Option<string>
    requires |cl| == |doc|
  {
    if !PagesLoad(doc, from, to) then None
    else if to <= from then Some("")
    else Some(WalkTo(doc, cl, from, to).text)
  }

  lemma WalkStep(doc: seq<string>, cl: seq<string>, from: int, p: int, text: string, last: Option<string>)
    requires |cl| == |doc| && from <= p && PagesLoad(doc, from, p + 1)
    requires Walk(text, last) == WalkTo(doc, cl, from, p)
    ensures WalkTo(doc, cl, from, p + 1) ==
      if Skips(last, cl[p - 1]) then Walk(text, last) else Walk(text + doc[p - 1], Some(cl[p - 1]))
  {
  }

  /** One turn of the inner loop: page `p` is cleaned and, unless it is
      similar to the last page kept, appended to the chapter. */
  method WalkPage(doc: seq<string>, ghost cl: seq<string>, from: int, p: int, text: string, last: Option<string>)
    returns (text': string, last': Option<string>)
    requires CleanOf(doc, cl) && from <= p && PagesLoad(doc, from, p + 1)
    requires Walk(text, last) == WalkTo(doc, cl, from, p)
    ensures Walk(text', last') == WalkTo(doc, cl, from, p + 1)
  {
    var page := doc[p - 1];
    var cleaned := ExtractCleanParagraphs(page);
    assert cleaned == CleanedAt(cl, p - 1);
    WalkStep(doc, cl, from, p, text, last);
    if !(last.Some? && last.value != [] && IsSimilarContent(last.value, cleaned)) {
      text', last' := text + page, Some(cleaned);
    } else {
      text', last' := text, last;
    }
  }

  /** The inner `for page_num in range(...)` loop. */
  method ChapterText(doc: seq<string>, ghost cl: seq<string>, from: int, to: int) returns (r: Option<string>)
    requires CleanOf(doc, cl)
    ensures r == Chapter(doc, cl, from, to)
  {
    if to <= from {
      return Some("");
    }
    var text := "";
    var last: Option<string> := None;
    var p := from;
    while p < to
      invariant from <= p <= to && PagesLoad(doc, from, p)
      invariant Walk(text, last) == WalkTo(doc, cl, from, p)
    {
      if LoadPage(doc, p - 1).None? {
        return None;
      }
      text, last := WalkPage(doc, cl, from, p, text, last);
      p := p + 1;
    }
    r := Some(text);
  }

  /** Whether the walk keeps page `p`. */
  predicate PageKept(doc: seq<string>, cl: seq<string>, from: int, p: int)
    requires |cl| == |doc| && from <= p && PagesLoad(doc, from, p + 1)
  {
    !Skips(WalkTo(doc, cl, from, p).last, cl[p - 1])
  }

  /** The pages in `[from, q)` the walk keeps, in order. */
  function KeptPages(doc: seq<string>, cl: seq<string>, from: int, q: int): seq<int>
    requires |cl| == |doc| && from <= q && PagesLoad(doc, from, q)
    decreases q - from
  {
    if q == from then []
    else KeptPages(doc, cl, from, q - 1) + (if PageKept(doc, cl, from, q - 1) then [q - 1] else [])
  }

  predicate InDocument(doc: seq<string>, ks: seq<int>)
  {
    forall i :: 0 <= i < |ks| ==> 1 <= ks[i] <= |doc|
  }

  /** The texts of the pages `ks`, one after the other. */
  function Gather(doc: seq<string>, ks: seq<int>): string
    requires InDocument(doc, ks)
  {
    if ks == [] then "" else Gather(doc, ks[..|ks| - 1]) + doc[ks[|ks| - 1] - 1]
  }

  /** The cleaned text of the last of the pages `ks`. */
  function LastCleaned(cl: seq<string>, ks: seq<int>): Option<string>
    requires InDocument(cl, ks)
  {
    if ks == [] then None else Some(cl[ks[|ks| - 1] - 1])
  }

  predicate PagesWithin(ks: seq<int>, from: int, q: int)
  {
    && (forall i :: 0 <= i < |ks| ==> from <= ks[i] < q)
    && (forall i, j :: 0 <= i < j < |ks| ==> ks[i] < ks[j])
  }

  lemma SnocWithin(ks: seq<int>, tail: seq<int>, from: int, q: int)
    requires from < q && PagesWithin(ks, from, q - 1) && (tail == [] || tail == [q - 1])
    ensures PagesWithin(ks + tail, from, q)
  {
  }

  /** The kept pages lie in `[from, q)`, in increasing order. */
  lemma {:induction false} KeptPagesRange(doc: seq<string>, cl: seq<string>, from: int, q: int)
    requires |cl| == |doc| && from <= q && PagesLoad(doc, from, q)
    ensures PagesWithin(KeptPages(doc, cl, from, q), from, q)
  {
    if q > from {
      KeptPagesRange(doc, cl, from, q - 1);
      var tail := if PageKept(doc, cl, from, q - 1) then [q - 1] else [];
      assert KeptPages(doc, cl, from, q) == KeptPages(doc, cl, from, q - 1) + tail;
      SnocWithin(KeptPages(doc, cl, from, q - 1), tail, from, q);
    }
  }

  /** The first page of a non-empty range is always kept. */
  lemma {:induction false} FirstPageKept(doc: seq<string>, cl: seq<string>, from: int, q: int)
    requires |cl| == |doc| && from < q && PagesLoad(doc, from, q)
    ensures KeptPages(doc, cl, from, q) != [] && KeptPages(doc, cl, from, q)[0] == from
  {
    var tail := if PageKept(doc, cl, from, q - 1) then [q - 1] else [];
    assert KeptPages(doc, cl, from, q) == KeptPages(doc, cl, from, q - 1) + tail;
    if q - 1 == from {
      assert WalkTo(doc, cl, from, from).last == None;
    } else {
      FirstPageKept(doc, cl, from, q - 1);
    }
  }

  lemma KeptInDocument(doc: seq<string>, cl: seq<string>, from: int, q: int)
    requires |cl| == |doc| && from <= q && PagesLoad(doc, from, q)
    ensures InDocument(doc, KeptPages(doc, cl, from, q))
  {
    KeptPagesRange(doc, cl, from, q);
  }

  /** The walk's text is the kept pages' texts in order, and its remembered
      content is the cleaned text of the last kept page. */
  lemma {:induction false} WalkMeaning(doc: seq<string>, cl: seq<string>, from: int, q: int)
    requires |cl| == |doc| && from <= q && PagesLoad(doc, from, q)
    ensures InDocument(doc, KeptPages(doc, cl, from, q))
    ensures WalkTo(doc, cl, from, q).text == Gather(doc, KeptPages(doc, cl, from, q))
    ensures WalkTo(doc, cl, from, q).last == LastCleaned(cl, KeptPages(doc, cl, from, q))
  {
    KeptInDocument(doc, cl, from, q);
    if q > from {
      WalkMeaning(doc, cl, from, q - 1);
      var ks := KeptPages(doc, cl, from, q - 1);
      if PageKept(doc, cl, from, q - 1) {
        assert (ks + [q - 1])[..|ks|] == ks;
      } else {
        assert KeptPages(doc, cl, from, q) == ks;
      }
    }
  }

  /** A page is left out exactly when its cleaned text is similar to that of
      the last page kept before it. */
  lemma PageKeptRule(doc: seq<string>, cl: seq<string>, from: int, p: int)
    requires |cl| == |doc| && from <= p && PagesLoad(doc, from, p + 1)
    ensures InDocument(doc, KeptPages(doc, cl, from, p))
    ensures var ks := KeptPages(doc, cl, from, p);
      PageKept(doc, cl, from, p) <==> (ks == [] || !IsSimilarContent(cl[ks[|ks| - 1] - 1], cl[p - 1]))
  {
    WalkMeaning(doc, cl, from, p);
  }

  /** The walk fails exactly when the section reaches outside the document. */
  lemma ChapterFails(doc: seq<string>, cl: seq<string>, from: int, to: int)
    requires |cl| == |doc|
    ensures Chapter(doc, cl, from, to).None? <==> from < to && (from < 1 || to - 1 > |doc|)
  {
  }

  // ---------------------------------------------------------------------------
  // the first pass: end pages and contents

  /** `next_start`: the next section's start page, or one past the last page. */
  function NextStart(flat: seq<Section>, pageCount: int, i: nat): int
    requires i < |flat|
  {
    if i + 1 < |flat| then flat[i + 1].startPage else pageCount + 1
  }

  /** The text a section ends up with: `extract_clean_paragraphs`, then
      `insert_period_after_title_match` with its defaults, then `normalize_text`. */
  function SectionText(table: Table, title: string, chapter: string): string
    requires KeysNonEmpty(table)
  {
    Normalized(table, InsertPeriod(title, CleanParagraphs(chapter), None, 0))
  }

  predicate ChapterLoads(doc: seq<string>, flat: seq<Section>, i: nat)
    requires i < |flat|
  {
    PagesLoad(doc, flat[i].startPage, NextStart(flat, |doc|, i))
  }

  predicate AllChaptersLoad(doc: seq<string>, flat: seq<Section>)
  {
    forall i :: 0 <= i < |flat| ==> ChapterLoads(doc, flat, i)
  }

  /** A section once the first pass has filled it in, given where the next
      section starts. */
  function Fill(doc: seq<string>, table: Table, s: Section, next: int): Section
    requires KeysNonEmpty(table) && PagesLoad(doc, s.startPage, next)
  {
    var chapter := Chapter(doc, CleanedPages(doc), s.startPage, next).value;
    s.(endPage := Some(next - 1), content := Some(SectionText(table, s.title, chapter)))
  }

  lemma FillKeeps(doc: seq<string>, table: Table, s: Section, next: int)
    requires KeysNonEmpty(table) && PagesLoad(doc, s.startPage, next)
    ensures var f := Fill(doc, table, s, next);
      f.index == s.index && f.level == s.level && f.startPage == s.startPage && f.title == s.title
      && f.content.Some? && f.endPage == Some(next - 1)
  {
  }

  function FirstPass(doc: seq<string>, table: Table, flat: seq<Section>): Option<seq<Section>>
    requires KeysNonEmpty(table)
  {
    if AllChaptersLoad(doc, flat) then
      Some(seq(|flat|, i requires 0 <= i < |flat| && ChapterLoads(doc, flat, i) =>
        Fill(doc, table, flat[i], NextStart(flat, |doc|, i))))
    else None
  }

  /** The sections before `i` are filled in, the others are as flattened. */
  predicate FilledUpTo(doc: seq<string>, table: Table, flat: seq<Section>, sections: seq<Section>, i: nat)
    requires KeysNonEmpty(table)
  {
    && i <= |flat| == |sections|
    && (forall k :: 0 <= k < i ==>
          ChapterLoads(doc, flat, k) && sections[k] == Fill(doc, table, flat[k], NextStart(flat, |doc|, k)))
    && (forall k :: i <= k < |flat| ==> sections[k] == flat[k])
  }

  lemma FillStep(doc: seq<string>, table: Table, flat: seq<Section>, sections: seq<Section>, i: nat, v: Section)
    requires KeysNonEmpty(table) && FilledUpTo(doc, table, flat, sections, i) && i < |flat|
    requires ChapterLoads(doc, flat, i) && v == Fill(doc, table, flat[i], NextStart(flat, |doc|, i))
    ensures FilledUpTo(doc, table, flat, sections[i := v], i + 1)
  {
  }

  lemma FillDone(doc: seq<string>, table: Table, flat: seq<Section>, sections: seq<Section>)
    requires KeysNonEmpty(table) && FilledUpTo(doc, table, flat, sections, |flat|)
    ensures FirstPass(doc, table, flat) == Some(sections)
  {
    assert AllChaptersLoad(doc, flat);
    var r := FirstPass(doc, table, flat).value;
    forall k | 0 <= k < |flat| ensures r[k] == sections[k] {
    }
    assert r == sections;
  }

  /** The body of the first pass for one section: its chapter text, cleaned,
      with the title fix and `normalize_text` applied. */
  method FillSection(doc: seq<string>, table: Table, current: Section, next: int) returns (r: Option<Section>)
    requires KeysNonEmpty(table)
    ensures r.Some? <==> PagesLoad(doc, current.startPage, next)
    ensures r.Some? ==> r.value == Fill(doc, table, current, next)
  {
    var chapter := ChapterText(doc, CleanedPages(doc), current.startPage, next);
    if chapter.None? {
      return None;
    }
    var cleaned := ExtractCleanParagraphs(chapter.value);
    var fixed := InsertPeriodAfterTitleMatch(current.title, cleaned, None, 0);
    fixed := NormalizeText(table, fixed);
    r := Some(current.(endPage := Some(next - 1), content := Some(fixed)));
  }

  /** The `for i in range(len(toc_flat))` loop, which fills in `toc_flat` in place. */
  method FillSections(doc: seq<string>, table: Table, flat: seq<Section>) returns (r: Option<seq<Section>>)
    requires KeysNonEmpty(table)
    ensures r == FirstPass(doc, table, flat)
  {
    var sections := flat;
    for i := 0 to |flat|
      invariant FilledUpTo(doc, table, flat, sections, i)
    {
      var current := sections[i];
      var next := if i + 1 < |sections| then sections[i + 1].startPage else |doc| + 1;
      assert current == flat[i] && next == NextStart(flat, |doc|, i);
      var filled := FillSection(doc, table, current, next);
      if filled.None? {
        assert !ChapterLoads(doc, flat, i);
        return None;
      }
      FillStep(doc, table, flat, sections, i, filled.value);
      sections := sections[i := filled.value];
    }
    FillDone(doc, table, flat, sections);
    r := Some(sections);
  }

  /** A section of the filled list holds the pages from its start page to its
      end page. */
  predicate Holds(s: Section, page: int)
  {
    s.endPage.Some? && s.startPage <= page <= s.endPage.value
  }

  /** Each section ends one page before the next one starts. */
  predicate Chained(sections: seq<Section>)
  {
    forall k :: 0 <= k < |sections| - 1 ==>
      sections[k].endPage.Some? && sections[k].endPage.value == sections[k + 1].startPage - 1
  }

  /** `r` is `flat` with every section given a text and the end page one
      before the next section's start (the document's last page for the last). */
  predicate Laid(flat: seq<Section>, pageCount: int, r: seq<Section>)
  {
    && |r| == |flat|
    && forall i :: 0 <= i < |r| ==>
         && r[i].index == flat[i].index && r[i].level == flat[i].level && r[i].startPage == flat[i].startPage
         && r[i].title == flat[i].title && r[i].content.Some?
         && r[i].endPage == Some(NextStart(flat, pageCount, i) - 1)
  }

  /** After the first pass every section keeps its number, level, start page
      and title, gets a text, and ends where `Laid` says. */
  lemma FirstPassShape(doc: seq<string>, table: Table, flat: seq<Section>)
    requires KeysNonEmpty(table) && FirstPass(doc, table, flat).Some?
    ensures Laid(flat, |doc|, FirstPass(doc, table, flat).value)
  {
    var r := FirstPass(doc, table, flat).value;
    forall i | 0 <= i < |r|
      ensures r[i].index == flat[i].index && r[i].level == flat[i].level && r[i].startPage == flat[i].startPage
      ensures r[i].title == flat[i].title && r[i].content.Some?
      ensures r[i].endPage == Some(NextStart(flat, |doc|, i) - 1)
    {
      assert ChapterLoads(doc, flat, i);
      FillKeeps(doc, table, flat[i], NextStart(flat, |doc|, i));
    }
  }

  /** Laid sections follow one another without gap or overlap, and the last
      one ends on the last page. */
  lemma LaidChained(flat: seq<Section>, pageCount: int, r: seq<Section>)
    requires Laid(flat, pageCount, r)
    ensures Chained(r) && (|r| > 0 ==> r[|r| - 1].endPage == Some(pageCount))
  {
    forall k | 0 <= k < |r| - 1
      ensures r[k].endPage.Some? && r[k].endPage.value == r[k + 1].startPage - 1
    {
      assert NextStart(flat, pageCount, k) == flat[k + 1].startPage;
    }
  }

  /** A section with no pages gets an empty text. */
  lemma EmptyChapterText(table: Table, title: string)
    requires KeysNonEmpty(table)
    ensures SectionText(table, title, "") == ""
  {
    assert CleanParagraphs("") == "";
    assert InsertPeriod(title, "", None, 0) == "";
    forall i | 0 <= i < |table| ensures !Contains("", table[i].0) {
    }
    ApplyAllUntouched(table, "");
    assert CollapseDots("") == "";
    assert RemoveCapital("", 4) == "";
  }

  /** A last section that starts after the document's last page ends before
      it starts and gets an empty text. */
  lemma LastBeyondEnd(doc: seq<string>, table: Table, flat: seq<Section>)
    requires KeysNonEmpty(table) && FirstPass(doc, table, flat).Some?
    requires flat != [] && flat[|flat| - 1].startPage > |doc|
    ensures var r := FirstPass(doc, table, flat).value;
      r[|r| - 1].endPage.value < r[|r| - 1].startPage && r[|r| - 1].content == Some("")
  {
    var r := FirstPass(doc, table, flat).value;
    var i := |flat| - 1;
    assert ChapterLoads(doc, flat, i);
    assert r[i] == Fill(doc, table, flat[i], |doc| + 1);
    EmptyChapterText(table, flat[i].title);
  }

  /** The first pass fails exactly when some section's pages reach outside
      the document. */
  lemma FirstPassFails(doc: seq<string>, table: Table, flat: seq<Section>)
    requires KeysNonEmpty(table)
    ensures FirstPass(doc, table, flat).None? <==>
      exists i :: 0 <= i < |flat| && Chapter(doc, CleanedPages(doc), flat[i].startPage, NextStart(flat, |doc|, i)).None?
  {
    if FirstPass(doc, table, flat).None? {
      var i :| 0 <= i < |flat| && !ChapterLoads(doc, flat, i);
      assert Chapter(doc, CleanedPages(doc), flat[i].startPage, NextStart(flat, |doc|, i)).None?;
    } else {
      forall i | 0 <= i < |flat| ensures Chapter(doc, CleanedPages(doc), flat[i].startPage, NextStart(flat, |doc|, i)).Some? {
        assert ChapterLoads(doc, flat, i);
      }
    }
  }

  predicate StartsIncrease(sections: seq<Section>)
  {
    forall a, b :: 0 <= a < b < |sections| ==> sections[a].startPage < sections[b].startPage
  }

  lemma EndBeforeStart(sections: seq<Section>, i: nat, j: nat)
    requires Chained(sections) && StartsIncrease(sections) && i < j < |sections|
    ensures sections[i].endPage.Some? && sections[i].endPage.value < sections[j].startPage
  {
    if i + 1 < j {
      assert sections[i + 1].startPage < sections[j].startPage;
    }
  }

  /** With start pages increasing, no page lies in two sections. */
  lemma HoldsUnique(sections: seq<Section>, page: int, i: nat, j: nat)
    requires Chained(sections) && StartsIncrease(sections) && i < |sections| && j < |sections|
    ensures Holds(sections[i], page) && Holds(sections[j], page) ==> i == j
  {
    if i < j {
      EndBeforeStart(sections, i, j);
    } else if j < i {
      EndBeforeStart(sections, j, i);
    }
  }

  // ---------------------------------------------------------------------------
  // the second pass over the deeper bookmarks

  /** The index of the first section that holds `page`. */
  function FirstHolding(sections: seq<Section>, page: int): (r: Option<nat>)
    ensures r.Some? ==> r.value < |sections| && Holds(sections[r.value], page)
    ensures r.Some? ==> forall k :: 0 <= k < r.value ==> !Holds(sections[k], page)
    ensures r.None? ==> forall k :: 0 <= k < |sections| ==> !Holds(sections[k], page)
  {
    if sections == [] then None
    else if Holds(sections[0], page) then Some(0)
    else match FirstHolding(sections[1..], page)
      case None => None
      case Some(k) => Some(k + 1)
  }

  function ContentOf(s: Section): string
  {
    if s.content.Some? then s.content.value else ""
  }

  /** The title fix and `normalize_text` applied again to a section's text. */
  function Retitle(table: Table, title: string, s: Section): Section
    requires KeysNonEmpty(table)
  {
    s.(content := Some(Normalized(table, InsertPeriod(title, ContentOf(s), None, 0))))
  }

  /** One bookmark's turn in the second pass: a bookmark of level 2 or deeper
      whose page loads updates the first section holding that page. */
  function Revisit(doc: seq<string>, table: Table, sections: seq<Section>, e: TocEntry): (r: seq<Section>)
    requires KeysNonEmpty(table)
    ensures |r| == |sections|
  {
    if e.level >= 2 && LoadPage(doc, e.startPage - 1).Some? then
      match FirstHolding(sections, e.startPage)
      case None => sections
      case Some(k) => sections[k := Retitle(table, e.title, sections[k])]
    else sections
  }

  /** The second pass over the bookmarks `entries`, in order. */
  function SecondPass(doc: seq<string>, table: Table, sections: seq<Section>, entries: seq<TocEntry>): (r: seq<Section>)
    requires KeysNonEmpty(table)
    ensures |r| == |sections|
  {
    if entries == [] then sections
    else Revisit(doc, table, SecondPass(doc, table, sections, entries[..|entries| - 1]), entries[|entries| - 1])
  }

  /** The body of the `for entry in toc_entries` loop: the inner search over
      the sections with its `break`. */
  method RevisitEntry(doc: seq<string>, table: Table, sections: seq<Section>, entry: TocEntry)
    returns (r: seq<Section>)
    requires KeysNonEmpty(table)
    ensures r == Revisit(doc, table, sections, entry)
  {
    r := sections;
    if entry.level >= 2 {
      var page := entry.startPage;
      var loaded := LoadPage(doc, page - 1);
      if loaded.Some? {
        var k := 0;
        while k < |r| && !Holds(r[k], page)
          invariant 0 <= k <= |r|
          invariant forall k' :: 0 <= k' < k ==> !Holds(r[k'], page)
        {
          k := k + 1;
        }
        if k < |r| {
          var updated := InsertPeriodAfterTitleMatch(entry.title, ContentOf(r[k]), None, 0);
          updated := NormalizeText(table, updated);
          r := r[k := r[k].(content := Some(updated))];
        }
      }
    }
  }

  /** The `for entry in toc_entries` loop of the second pass. */
  method RevisitSections(doc: seq<string>, table: Table, filled: seq<Section>, entries: seq<TocEntry>)
    returns (sections: seq<Section>)
    requires KeysNonEmpty(table)
    ensures sections == SecondPass(doc, table, filled, entries)
  {
    sections := filled;
    for n := 0 to |entries|
      invariant sections == SecondPass(doc, table, filled, entries[..n])
    {
      assert entries[..n + 1][..n] == entries[..n];
      sections := RevisitEntry(doc, table, sections, entries[n]);
    }
    assert entries[..|entries|] == entries;
  }

  /** A bookmark's turn changes at most one section: the first one holding its
      page, and only when the bookmark is of level 2 or deeper and its page loads. */
  lemma RevisitTarget(doc: seq<string>, table: Table, sections: seq<Section>, e: TocEntry, k: nat)
    requires KeysNonEmpty(table) && k < |sections|
    ensures Revisit(doc, table, sections, e)[k] != sections[k] ==>
      e.level >= 2 && LoadPage(doc, e.startPage - 1).Some? && FirstHolding(sections, e.startPage) == Some(k)
  {
  }

  /** `after` differs from `before` at most in the sections' texts, and every
      section that had a text still has one. */
  predicate SameSkeleton(after: seq<Section>, before: seq<Section>)
  {
    |after| == |before| &&
    forall k :: 0 <= k < |after| ==>
      && after[k].index == before[k].index && after[k].level == before[k].level
      && after[k].startPage == before[k].startPage && after[k].endPage == before[k].endPage
      && after[k].title == before[k].title && (before[k].content.Some? ==> after[k].content.Some?)
  }

  /** The second pass changes only texts, and only the text of a section that
      holds the start page of some bookmark of level 2 or deeper. */
  lemma {:induction false} SecondPassTouches(doc: seq<string>, table: Table, sections: seq<Section>, entries: seq<TocEntry>, k: nat)
    requires KeysNonEmpty(table) && k < |sections| && sections[k].content.Some?
    requires forall i :: 0 <= i < |entries| ==> !(entries[i].level >= 2 && Holds(sections[k], entries[i].startPage))
    ensures SecondPass(doc, table, sections, entries)[k] == sections[k]
  {
    if entries != [] {
      var init := entries[..|entries| - 1];
      SecondPassTouches(doc, table, sections, init, k);
      SecondPassSkeleton(doc, table, sections, init);
    }
  }

  lemma RevisitSkeleton(doc: seq<string>, table: Table, sections: seq<Section>, e: TocEntry)
    requires KeysNonEmpty(table)
    ensures SameSkeleton(Revisit(doc, table, sections, e), sections)
  {
  }

  lemma SkeletonTrans(a: seq<Section>, b: seq<Section>, c: seq<Section>)
    requires SameSkeleton(a, b) && SameSkeleton(b, c)
    ensures SameSkeleton(a, c)
  {
  }

  /** The second pass changes only the sections' texts. */
  lemma {:induction false} SecondPassSkeleton(doc: seq<string>, table: Table, sections: seq<Section>, entries: seq<TocEntry>)
    requires KeysNonEmpty(table)
    ensures SameSkeleton(SecondPass(doc, table, sections, entries), sections)
  {
    if entries != [] {
      var before := SecondPass(doc, table, sections, entries[..|entries| - 1]);
      SecondPassSkeleton(doc, table, sections, entries[..|entries| - 1]);
      RevisitSkeleton(doc, table, before, entries[|entries| - 1]);
      SkeletonTrans(SecondPass(doc, table, sections, entries), before, sections);
    }
  }

  // ---------------------------------------------------------------------------
  // the whole extraction

  datatype ExtractError = NoOutline | PageMissing

  /** `extract_all_toc_entries_with_content` over a document and its outline,
      with the replacement table of the copy at hand. */
  function ExtractAll(doc: seq<string>, toc: seq<TocEntry>, table: Table): Result<seq<Section>, ExtractError>
    requires KeysNonEmpty(table)
  {
    if toc == [] then Err(NoOutline)
    else match FirstPass(doc, table, Flatten(toc))
      case None => Err(PageMissing)
      case Some(filled) => Ok(SecondPass(doc, table, filled, Entries(toc)))
  }

  method ExtractAllEntries(doc: seq<string>, toc: seq<TocEntry>, table: Table) returns (r: Result<seq<Section>, ExtractError>)
    requires KeysNonEmpty(table)
    ensures r == ExtractAll(doc, toc, table)
  {
    if toc == [] {
      return Err(NoOutline);
    }
    var flat := FlattenToc(toc);
    var filled := FillSections(doc, table, flat);
    if filled.None? {
      return Err(PageMissing);
    }
    var sections := RevisitSections(doc, table, filled.value, Entries(toc));
    r := Ok(sections);
  }

  /** A successful extraction gives one section per start page of the level-1
      and level-2 bookmarks, numbered consecutively from the outline's base,
      in strictly increasing page order, each with a text, each ending where
      the next begins and the last on the last page. */
  lemma ExtractShape(doc: seq<string>, toc: seq<TocEntry>, table: Table)
    requires KeysNonEmpty(table) && ExtractAll(doc, toc, table).Ok?
    ensures var r := ExtractAll(doc, toc, table).value;
      && toc != []
      && |r| == |Flatten(toc)|
      && (forall k :: 0 <= k < |r| ==> r[k].index == k + Base(toc) && r[k].content.Some? && r[k].endPage.Some?)
      && (forall i, j :: 0 <= i < j < |r| ==> r[i].startPage < r[j].startPage)
      && (forall k :: 0 <= k < |r| - 1 ==> r[k].endPage.value == r[k + 1].startPage - 1)
      && (|r| > 0 ==> r[|r| - 1].endPage.value == |doc|)
  {
    var flat := Flatten(toc);
    FlattenIndices(toc);
    FlattenIncreasing(toc);
    FirstPassShape(doc, table, flat);
    LaidChained(flat, |doc|, FirstPass(doc, table, flat).value);
    SecondPassSkeleton(doc, table, FirstPass(doc, table, flat).value, Entries(toc));
  }

  /** An empty outline is the only way to fail without touching a page. */
  lemma ExtractNoOutline(doc: seq<string>, toc: seq<TocEntry>, table: Table)
    requires KeysNonEmpty(table)
    ensures ExtractAll(doc, toc, table) == Err(NoOutline) <==> toc == []
  {
  }

  // ---------------------------------------------------------------------------
  // what is handed on: index, title and content

  /** One lecture of the output: the section without level and page numbers. */
  datatype Lecture = Lecture(index: int, title: string, content: string)

  function Project(sections: seq<Section>): (r: seq<Lecture>)
    ensures |r| == |sections|
    ensures forall k :: 0 <= k < |r| ==>
      r[k].index == sections[k].index && r[k].title == sections[k].title && r[k].content == ContentOf(sections[k])
  {
    seq(|sections|, k requires 0 <= k < |sections| => Lecture(sections[k].index, sections[k].title, ContentOf(sections[k])))
  }

  /** The projection loop of `extract_content_from_pdf`. */
  method ProjectSections(sections: seq<Section>) returns (result: seq<Lecture>)
    ensures result == Project(sections)
  {
    result := [];
    for k := 0 to |sections|
      invariant result == Project(sections[..k])
    {
      result := result + [Lecture(sections[k].index, sections[k].title, ContentOf(sections[k]))];
    }
    assert sections[..|sections|] == sections;
  }
}

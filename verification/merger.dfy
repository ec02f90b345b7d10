/** Building the outline of the merged lecture PDF: `merge_pdfs` of the backend
    service and `main` of the merge script. Every input PDF with pages becomes
    one level-1 bookmark at the page where its pages begin in the merged
    document. The PDF library is replaced by what it reports about each file. */
module Merger {
  import opened Wrappers
  import opened Strings
  import opened Sorting
  import opened Outline

  /** What processing a file gives: `strip_bookmarks` cannot open it (it
      returns None), it has `count` pages, or processing it raises `reason`. */
  datatype PdfFile = Unreadable | Pages(count: nat) | Broken(reason: string)

  /** One input: its file name and its file. */
  datatype Upload = Upload(name: string, file: PdfFile)

  // ---------------------------------------------------------------------------
  // file names and bookmark titles

  /** `os.path.splitext(name)[0]`: the name without its last extension, which
      starts at the last '.' after the last '/', unless only dots precede that
      '.' in the last path component. */
  function Stem(name: string): (r: string)
    ensures |r| <= |name| && r == name[..|r|]
  {
    var start := match LastIndex(name, '/') case Some(k) => k + 1 case None => 0;
    match LastIndex(name, '.')
    case Some(d) =>
      if d >= start && start + LeadingDots(name[start..d]) < d then name[..d] else name
    case None => name
  }

  /** How many '.' characters `s` starts with. */
  function LeadingDots(s: string): (n: nat)
    ensures n <= |s| && (n < |s| ==> s[n] != '.')
  {
    if s != [] && s[0] == '.' then 1 + LeadingDots(s[1..]) else 0
  }

  /** The text that `.*` matches at the start of `s`: up to the first newline. */
  function LineHead(s: string): (r: string)
    ensures |r| <= |s| && r == s[..|r|] && '\n' !in r
    ensures |r| < |s| ==> s[|r|] == '\n'
  {
    if s == [] || s[0] == '\n' then []
    else
      var r := [s[0]] + LineHead(s[1..]);
      assert r == s[..|r|];
      r
  }

  /** The number of the title: `str(int(raw))` when `raw` has more than one
      digit and starts with '0', `raw` itself otherwise. */
  function NumberPart(raw: string): string
    requires |raw| >= 1 && AllDigits(raw)
  {
    if |raw| > 1 && raw[0] == '0' then DecimalString(DigitsValue(raw)) else raw
  }

  /** The bookmark title of a file: its stem, with a leading number
      renumbered and followed by ". " unless the rest already starts with '.'. */
  function BookmarkTitle(name: string): string
  {
    NumberedTitle(Stem(name))
  }

  /** The `re.match(r'^(\d+)(.*)', stem)` branch of the title rule. */
  function NumberedTitle(stem: string): string
  {
    var n := DigitRun(stem);
    if n == 0 then stem
    else
      JoinTitle(NumberPart(stem[..n]), TrimLeft(LineHead(stem[n..])))
  }

  /** The title from its number and the rest of the stem after it. */
  function JoinTitle(number: string, rest: string): string
  {
    if StartsWith(rest, ".") then number + rest else number + ". " + rest
  }

  /** The renumbering only drops superfluous leading zeros: it keeps the value
      and leaves no leading zero except in "0". */
  lemma NumberPartDropsZeros(raw: string)
    requires |raw| >= 1 && AllDigits(raw)
    ensures NumberPart(raw) == DropLeadingZeros(raw)
  {
    if |raw| > 1 && raw[0] == '0' {
      DropLeadingZerosIsDecimal(raw);
    }
  }

  /** A file name with a non-empty base and one extension has the base as stem. */
  lemma StemDropsExtension(base: string, ext: string)
    requires base != [] && base[0] != '.' && '/' !in base && '/' !in ext && '.' !in ext
    ensures Stem(base + "." + ext) == base
  {
    var name := base + "." + ext;
    assert name[|base|] == '.' && name[|base| + 1..] == ext;
    LastIndexIs(name, '.', |base|);
    NoSlash(base, ext);
    assert name[0] != '.';
    assert name[..|base|] == base;
  }

  lemma NoSlash(base: string, ext: string)
    requires '/' !in base && '/' !in ext
    ensures LastIndex(base + "." + ext, '/') == None
  {
    var name := base + "." + ext;
    assert '/' !in name by {
      assert name == base + ("." + ext);
    }
  }

  /** A title made from a stem with a leading number starts with that number
      without superfluous zeros, directly followed by a '.'; any other stem
      is the title unchanged. */
  lemma TitleKeepsNumber(stem: string)
    ensures var n := DigitRun(stem); var title := NumberedTitle(stem);
      && (n == 0 ==> title == stem)
      && (n > 0 ==>
            && DigitRun(title) < |title| && title[DigitRun(title)] == '.'
            && title[..DigitRun(title)] == DropLeadingZeros(stem[..n]))
  {
    var n := DigitRun(stem);
    if n > 0 {
      NumberPartDropsZeros(stem[..n]);
      JoinTitleKeepsNumber(NumberPart(stem[..n]), TrimLeft(LineHead(stem[n..])));
    }
  }

  lemma JoinTitleKeepsNumber(number: string, rest: string)
    requires AllDigits(number)
    ensures var t := JoinTitle(number, rest);
      DigitRun(t) == |number| < |t| && t[|number|] == '.' && t[..|number|] == number
  {
    var tail := if StartsWith(rest, ".") then rest else ". " + rest;
    assert JoinTitle(number, rest) == number + tail;
    RunOfDigitsThenDot(number, tail);
    assert (number + tail)[..|number|] == number;
  }

  lemma {:induction false} RunOfDigitsThenDot(d: string, tail: string)
    requires AllDigits(d) && tail != [] && tail[0] == '.'
    ensures DigitRun(d + tail) == |d|
  {
    if d != [] {
      assert (d + tail)[1..] == d[1..] + tail;
      RunOfDigitsThenDot(d[1..], tail);
    }
  }

  // ---------------------------------------------------------------------------
  // the merged outline

  /** A file that adds pages to the merged document. */
  predicate Contributes(u: Upload) { u.file.Pages? && u.file.count > 0 }

  /** The pages a file adds to the merged document. */
  function PagesOf(u: Upload): nat { if Contributes(u) then u.file.count else 0 }

  /** The files that add pages, in order: those the loop does not skip. */
  function Contributing(us: seq<Upload>): seq<Upload>
  {
    if us == [] then [] else (if Contributes(us[0]) then [us[0]] else []) + Contributing(us[1..])
  }

  /** The pages the files add together. */
  function Total(us: seq<Upload>): nat
  {
    if us == [] then 0 else PagesOf(us[0]) + Total(us[1..])
  }

  /** The bookmarks of the contributing files `cs` when `base` pages come
      before them: each one is titled by `title` from the file name and starts
      on the page after the pages before it. The merge uses `BookmarkTitle`. */
  function Bookmarks(cs: seq<Upload>, base: nat, title: string -> string): (r: seq<TocEntry>)
    ensures |r| == |cs|
  {
    if cs == [] then []
    else [TocEntry(1, title(cs[0].name), base + 1)] + Bookmarks(cs[1..], base + PagesOf(cs[0]), title)
  }

  /** The first file whose processing raises. */
  function FirstBroken(us: seq<Upload>): (r: Option<Upload>)
    ensures r.Some? ==> r.value.file.Broken?
  {
    if us == [] then None
    else if us[0].file.Broken? then Some(us[0])
    else FirstBroken(us[1..])
  }

  datatype MergeError = NoFiles | FileFailed(name: string, reason: string) | NoContent

  /** The outline set on the merged document and its page count. */
  datatype Merged = Merged(toc: seq<TocEntry>, pageCount: nat)

  /** The loop over the files in the order given, with the check after it. */
  function MergeInOrder(us: seq<Upload>): Result<Merged, MergeError>
  {
    match FirstBroken(us)
    case Some(b) => Err(FileFailed(b.name, b.file.reason))
    case None =>
      var cs := Contributing(us);
      if Total(cs) == 0 then Err(NoContent) else Ok(Merged(Bookmarks(cs, 0, BookmarkTitle), Total(cs)))
  }

  /** By name, and among equal names by position: a stable sort by name
      orders the pairs this way. */
  predicate ByName(a: (Upload, nat), b: (Upload, nat))
  {
    (StrLe(a.0.name, b.0.name) && a.0.name != b.0.name) || (a.0.name == b.0.name && a.1 <= b.1)
  }

  lemma ByNameTotal()
    ensures TotalPreorder(ByName)
  {
    forall a: (Upload, nat), b: (Upload, nat) ensures ByName(a, b) || ByName(b, a) {
      StrLeTotal(a.0.name, b.0.name);
    }
    forall a: (Upload, nat), b: (Upload, nat), c: (Upload, nat) | ByName(a, b) && ByName(b, c)
      ensures ByName(a, c)
    {
      if a.0.name != b.0.name && b.0.name != c.0.name {
        StrLeTrans(a.0.name, b.0.name, c.0.name);
        if a.0.name == c.0.name {
          StrLeAntisym(a.0.name, b.0.name);
        }
      }
    }
  }

  /** `sorted(files, key=lambda x: x[0])`. */
  function SortedByName(files: seq<Upload>): (r: seq<Upload>)
    ensures |r| == |files|
  {
    Firsts(SortBy(Positioned(files), ByName))
  }

  /** `merge_pdfs` over the uploaded files. */
  function Merge(files: seq<Upload>): Result<Merged, MergeError>
  {
    if files == [] then Err(NoFiles) else MergeInOrder(SortedByName(files))
  }

  /** The `HTTPException` detail of each failure; all three have status 400. */
  function Detail(e: MergeError): string
  {
    match e
    case NoFiles => "No PDF files provided"
    case FileFailed(name, reason) => "Error processing file '" + name + "': " + reason
    case NoContent => "No valid PDF content found to merge"
  }

  /** The bookmarks still to come from the files from `i` on, after `pages`
      pages. */
  ghost function Later(us: seq<Upload>, i: nat, pages: nat, title: string -> string): seq<TocEntry>
    requires i <= |us|
  {
    Bookmarks(Contributing(us[i..]), pages, title)
  }

  /** The pages still to come from the files from `i` on. */
  ghost function LaterPages(us: seq<Upload>, i: nat): nat
    requires i <= |us|
  {
    Total(Contributing(us[i..]))
  }

  /** The loop over the sorted files: it appends one bookmark per file with
      pages to `toc` and advances `page_counter`, and stops at the first file
      whose processing raises, which it returns. */
  method AddFiles(sorted: seq<Upload>) returns (toc: seq<TocEntry>, pageCounter: nat, broken: Option<Upload>)
    ensures broken == FirstBroken(sorted)
    ensures broken.None? ==>
      toc == Bookmarks(Contributing(sorted), 0, BookmarkTitle) && pageCounter == Total(Contributing(sorted))
  {
    toc := [];
    pageCounter := 0;
    Ends(sorted, 0, BookmarkTitle);
    for i := 0 to |sorted|
      invariant FirstBroken(sorted[i..]) == FirstBroken(sorted)
      invariant toc + Later(sorted, i, pageCounter, BookmarkTitle) == Later(sorted, 0, 0, BookmarkTitle)
      invariant pageCounter + LaterPages(sorted, i) == LaterPages(sorted, 0)
    {
      var u := sorted[i];
      Advance(sorted, i, toc, pageCounter, BookmarkTitle);
      if u.file.Broken? {
        return toc, pageCounter, Some(u);
      }
      if u.file.Pages? && u.file.count > 0 {
        toc := toc + [TocEntry(1, BookmarkTitle(u.name), pageCounter + 1)];
        pageCounter := pageCounter + u.file.count;
      }
    }
    Ends(sorted, pageCounter, BookmarkTitle);
    assert toc + [] == toc;
    broken := None;
  }

  /** The loop over the sorted files, the `HTTPException` raised for a file
      that fails, and the check after the loop. */
  method BuildOutline(sorted: seq<Upload>) returns (r: Result<Merged, MergeError>)
    ensures r == MergeInOrder(sorted)
  {
    var toc, pageCounter, broken := AddFiles(sorted);
    if broken.Some? {
      return Err(FileFailed(broken.value.name, broken.value.file.reason));
    }
    if pageCounter == 0 {
      return Err(NoContent);
    }
    r := Ok(Merged(toc, pageCounter));
  }

  /** The files from `i` on are the file at `i` and those after it. */
  lemma LaterStep(us: seq<Upload>, i: nat, pages: nat, title: string -> string)
    requires i < |us|
    ensures var u := us[i];
      && FirstBroken(us[i..]) == (if u.file.Broken? then Some(u) else FirstBroken(us[i + 1..]))
      && LaterPages(us, i) == PagesOf(u) + LaterPages(us, i + 1)
      && (Contributes(u) ==>
            Later(us, i, pages, title) == [TocEntry(1, title(u.name), pages + 1)] + Later(us, i + 1, pages + PagesOf(u), title))
      && (!Contributes(u) ==> Later(us, i, pages, title) == Later(us, i + 1, pages, title))
  {
    var u := us[i];
    var rest := Contributing(us[i + 1..]);
    assert us[i..][0] == u && us[i..][1..] == us[i + 1..];
    if Contributes(u) {
      assert Contributing(us[i..]) == [u] + rest;
      assert ([u] + rest)[1..] == rest;
    } else {
      assert Contributing(us[i..]) == rest;
    }
  }

  /** One turn of the loop keeps its invariant. */
  lemma Advance(us: seq<Upload>, i: nat, toc: seq<TocEntry>, pages: nat, title: string -> string)
    requires i < |us|
    requires toc + Later(us, i, pages, title) == Later(us, 0, 0, title)
    requires pages + LaterPages(us, i) == LaterPages(us, 0)
    ensures var u := us[i];
      && FirstBroken(us[i..]) == (if u.file.Broken? then Some(u) else FirstBroken(us[i + 1..]))
      && (if Contributes(u) then toc + [TocEntry(1, title(u.name), pages + 1)] else toc)
           + Later(us, i + 1, pages + PagesOf(u), title) == Later(us, 0, 0, title)
      && pages + PagesOf(u) + LaterPages(us, i + 1) == LaterPages(us, 0)
  {
    var u := us[i];
    LaterStep(us, i, pages, title);
    if Contributes(u) {
      var e := TocEntry(1, title(u.name), pages + 1);
      var after := Later(us, i + 1, pages + PagesOf(u), title);
      assert toc + [e] + after == toc + ([e] + after);
    }
  }

  /** Before the loop all files are still to come, after it none. */
  lemma Ends(us: seq<Upload>, pages: nat, title: string -> string)
    ensures Later(us, |us|, pages, title) == [] && LaterPages(us, |us|) == 0 && FirstBroken(us[|us|..]) == None
    ensures FirstBroken(us[0..]) == FirstBroken(us)
    ensures Later(us, 0, 0, title) == Bookmarks(Contributing(us), 0, title)
    ensures LaterPages(us, 0) == Total(Contributing(us))
  {
    assert us[|us|..] == [];
    assert us[0..] == us;
  }

  /** `merge_pdfs`: rejects an empty list, then builds the outline over the
      files in name order. */
  method MergePdfs(files: seq<Upload>) returns (r: Result<Merged, MergeError>)
    ensures r == Merge(files)
  {
    if files == [] {
      return Err(NoFiles);
    }
    var sorted := SortedByName(files);
    r := BuildOutline(sorted);
  }

  // ---------------------------------------------------------------------------
  // properties of the outline

  /** The k-th bookmark belongs to the k-th contributing file and starts one
      page after the pages of the files before it. */
  lemma {:induction false} BookmarkAt(cs: seq<Upload>, base: nat, title: string -> string, k: nat)
    requires k < |cs|
    ensures Bookmarks(cs, base, title)[k] == TocEntry(1, title(cs[k].name), base + Total(cs[..k]) + 1)
  {
    if k > 0 {
      BookmarkAt(cs[1..], base + PagesOf(cs[0]), title, k - 1);
      assert cs[..k][0] == cs[0] && cs[..k][1..] == cs[1..][..k - 1];
      assert cs[1..][k - 1] == cs[k];
    } else {
      assert cs[..0] == [];
    }
  }

  /** The pages of a list are those of its two parts. */
  lemma {:induction false} TotalSplit(cs: seq<Upload>, k: nat)
    requires k <= |cs|
    ensures Total(cs) == Total(cs[..k]) + Total(cs[k..])
  {
    if k > 0 {
      TotalSplit(cs[1..], k - 1);
      assert cs[..k][0] == cs[0] && cs[..k][1..] == cs[1..][..k - 1];
      assert cs[1..][k - 1..] == cs[k..];
    } else {
      assert cs[..0] == [] && cs[0..] == cs;
    }
  }

  /** A prefix of the files adds no more pages than a longer one. */
  lemma TotalPrefix(cs: seq<Upload>, i: nat, j: nat)
    requires i <= j <= |cs|
    ensures Total(cs[..i]) <= Total(cs[..j])
  {
    TotalSplit(cs[..j], i);
    assert cs[..j][..i] == cs[..i];
  }

  /** The pages up to and including the file at `k`. */
  lemma TotalStep(cs: seq<Upload>, k: nat)
    requires k < |cs|
    ensures Total(cs[..k + 1]) == Total(cs[..k]) + PagesOf(cs[k])
  {
    TotalSplit(cs[..k + 1], k);
    assert cs[..k + 1][..k] == cs[..k];
    assert cs[..k + 1][k..] == [cs[k]];
  }

  /** The first bookmark starts on page 1. */
  lemma BookmarksFromOne(cs: seq<Upload>, title: string -> string)
    requires |cs| > 0
    ensures Bookmarks(cs, 0, title)[0].startPage == 1
  {
    BookmarkAt(cs, 0, title, 0);
  }

  /** With every file contributing, the bookmarks start on strictly
      increasing pages. */
  lemma BookmarksIncrease(cs: seq<Upload>, title: string -> string)
    requires forall k :: 0 <= k < |cs| ==> Contributes(cs[k])
    ensures forall i, j :: 0 <= i < j < |cs| ==> Bookmarks(cs, 0, title)[i].startPage < Bookmarks(cs, 0, title)[j].startPage
  {
    forall i, j | 0 <= i < j < |cs|
      ensures Bookmarks(cs, 0, title)[i].startPage < Bookmarks(cs, 0, title)[j].startPage
    {
      BookmarkAt(cs, 0, title, i);
      BookmarkAt(cs, 0, title, j);
      TotalStep(cs, i);
      TotalPrefix(cs, i + 1, j);
    }
  }

  /** Every file's pages lie within the merged document. */
  lemma BookmarksWithin(cs: seq<Upload>, title: string -> string)
    ensures forall k :: 0 <= k < |cs| ==> Bookmarks(cs, 0, title)[k].startPage + PagesOf(cs[k]) - 1 <= Total(cs)
  {
    forall k | 0 <= k < |cs|
      ensures Bookmarks(cs, 0, title)[k].startPage + PagesOf(cs[k]) - 1 <= Total(cs)
    {
      BookmarkAt(cs, 0, title, k);
      TotalStep(cs, k);
      TotalPrefix(cs, k + 1, |cs|);
      assert cs[..|cs|] == cs;
    }
  }

  /** The contributing files of a list are those of its two parts. */
  lemma {:induction false} ContributingConcat(s: seq<Upload>, t: seq<Upload>)
    ensures Contributing(s + t) == Contributing(s) + Contributing(t)
  {
    if s != [] {
      ContributingConcat(s[1..], t);
      assert (s + t)[0] == s[0] && (s + t)[1..] == s[1..] + t;
    } else {
      assert s + t == t;
    }
  }

  /** The first file that raises in a list is the first in its first part,
      or else the first in its second part. */
  lemma {:induction false} FirstBrokenConcat(s: seq<Upload>, t: seq<Upload>)
    ensures FirstBroken(s + t) == if FirstBroken(s).Some? then FirstBroken(s) else FirstBroken(t)
  {
    if s != [] {
      FirstBrokenConcat(s[1..], t);
      assert (s + t)[0] == s[0] && (s + t)[1..] == s[1..] + t;
    } else {
      assert s + t == t;
    }
  }

  /** A file that neither contributes nor raises leaves the merge as it is,
      wherever it stands. */
  lemma SkippedInvisible(s: seq<Upload>, u: Upload, t: seq<Upload>)
    requires !Contributes(u) && !u.file.Broken?
    ensures MergeInOrder(s + [u] + t) == MergeInOrder(s + t)
  {
    ContributingConcat(s + [u], t);
    ContributingConcat(s, [u]);
    ContributingConcat(s, t);
    assert Contributing([u]) == [];
    assert Contributing(s + [u]) == Contributing(s);
    FirstBrokenConcat(s + [u], t);
    FirstBrokenConcat(s, [u]);
    FirstBrokenConcat(s, t);
    assert FirstBroken([u]) == None;
    assert FirstBroken(s + [u] + t) == FirstBroken(s + t);
  }

  /** The first file that raises is a file of the list, and every file
      before it processes. */
  lemma {:induction false} FirstBrokenAt(us: seq<Upload>) returns (i: nat)
    requires FirstBroken(us).Some?
    ensures i < |us| && us[i] == FirstBroken(us).value
    ensures forall k :: 0 <= k < i ==> !us[k].file.Broken?
  {
    if us[0].file.Broken? {
      i := 0;
    } else {
      var j := FirstBrokenAt(us[1..]);
      i := j + 1;
      assert forall k :: 1 <= k < i ==> us[k] == us[1..][k - 1];
    }
  }

  /** No file raises exactly when there is no first file that raises. */
  lemma {:induction false} NoneBroken(us: seq<Upload>)
    ensures FirstBroken(us).None? <==> forall k :: 0 <= k < |us| ==> !us[k].file.Broken?
  {
    if us != [] {
      NoneBroken(us[1..]);
      assert forall k :: 1 <= k < |us| ==> us[k] == us[1..][k - 1];
    }
  }

  /** The contributing files are the files with pages. */
  lemma {:induction false} ContributingMembers(us: seq<Upload>, x: Upload)
    ensures x in Contributing(us) <==> x in us && Contributes(x)
  {
    if us != [] {
      ContributingMembers(us[1..], x);
      assert us == [us[0]] + us[1..];
    }
  }

  /** The merge succeeds exactly when the list is not empty, no file raises
      and some file has pages; it fails on the first file in name order that
      raises. */
  lemma MergeOutcome(files: seq<Upload>)
    ensures Merge(files) == Err(NoFiles) <==> files == []
    ensures Merge(files).Ok? <==>
      && files != []
      && (forall k :: 0 <= k < |files| ==> !files[k].file.Broken?)
      && Total(Contributing(SortedByName(files))) > 0
    ensures files != [] && FirstBroken(SortedByName(files)).Some? ==>
      var b := FirstBroken(SortedByName(files)).value;
      Merge(files) == Err(FileFailed(b.name, b.file.reason))
  {
    NoneBroken(SortedByName(files));
    SortedSameFiles(files);
  }

  /** A successful merge sets one level-1 bookmark per file with pages, in
      name order, on strictly increasing pages, and the merged document has
      their pages together. */
  lemma MergeOutline(files: seq<Upload>)
    requires Merge(files).Ok?
    ensures var cs := Contributing(SortedByName(files));
      var m := Merge(files).value;
      && |m.toc| == |cs| && m.pageCount == Total(cs)
      && (forall k :: 0 <= k < |cs| ==> m.toc[k] == TocEntry(1, BookmarkTitle(cs[k].name), Total(cs[..k]) + 1))
      && (forall i, j :: 0 <= i < j < |m.toc| ==> m.toc[i].startPage < m.toc[j].startPage)
  {
    var cs := Contributing(SortedByName(files));
    MergeOk(files);
    ContributingContribute(SortedByName(files));
    BookmarksLaidOut(cs, BookmarkTitle);
  }

  lemma MergeOk(files: seq<Upload>)
    requires Merge(files).Ok?
    ensures var cs := Contributing(SortedByName(files));
      Merge(files).value == Merged(Bookmarks(cs, 0, BookmarkTitle), Total(cs))
  {
  }

  /** The bookmarks of files that all have pages: one per file, titled from
      its name, each starting after the pages of the files before it, on
      strictly increasing pages. */
  lemma BookmarksLaidOut(cs: seq<Upload>, title: string -> string)
    requires forall k :: 0 <= k < |cs| ==> Contributes(cs[k])
    ensures forall k :: 0 <= k < |cs| ==> Bookmarks(cs, 0, title)[k] == TocEntry(1, title(cs[k].name), Total(cs[..k]) + 1)
    ensures forall i, j :: 0 <= i < j < |cs| ==> Bookmarks(cs, 0, title)[i].startPage < Bookmarks(cs, 0, title)[j].startPage
  {
    BookmarksIncrease(cs, title);
    forall k | 0 <= k < |cs| ensures Bookmarks(cs, 0, title)[k] == TocEntry(1, title(cs[k].name), Total(cs[..k]) + 1) {
      BookmarkAt(cs, 0, title, k);
    }
  }

  /** Every contributing file has pages. */
  lemma {:induction false} ContributingContribute(us: seq<Upload>)
    ensures forall k :: 0 <= k < |Contributing(us)| ==> Contributes(Contributing(us)[k])
  {
    if us != [] {
      ContributingContribute(us[1..]);
    }
  }

  /** No file of the sorted list raises exactly when no uploaded file does. */
  lemma SortedSameFiles(files: seq<Upload>)
    ensures (forall k :: 0 <= k < |files| ==> !files[k].file.Broken?) <==>
            (forall k :: 0 <= k < |files| ==> !SortedByName(files)[k].file.Broken?)
  {
    SortedByNameOrdered(files);
    var sorted := SortedByName(files);
    forall k | 0 <= k < |files| ensures sorted[k] in multiset(files) {
      assert sorted[k] in multiset(sorted);
    }
    forall k | 0 <= k < |files| ensures files[k] in multiset(sorted) {
      assert files[k] in multiset(files);
    }
  }

  /** The files are taken in name order: the sorted list is ordered by name
      and holds the same files. */
  lemma SortedByNameOrdered(files: seq<Upload>)
    ensures forall i, j :: 0 <= i < j < |files| ==> StrLe(SortedByName(files)[i].name, SortedByName(files)[j].name)
    ensures multiset(SortedByName(files)) == multiset(files)
  {
    var pairs := SortBy(Positioned(files), ByName);
    ByNameTotal();
    SortSorted(Positioned(files), ByName);
    forall i, j | 0 <= i < j < |files|
      ensures StrLe(SortedByName(files)[i].name, SortedByName(files)[j].name)
    {
      assert ByName(pairs[i], pairs[j]);
      if pairs[i].0.name == pairs[j].0.name {
        StrLeTotal(pairs[i].0.name, pairs[j].0.name);
      }
    }
    FirstsPermutation(Positioned(files), pairs);
    PositionedFirsts(files);
  }

  lemma {:induction false} FirstsPermutation<T>(a: seq<(T, nat)>, b: seq<(T, nat)>)
    requires multiset(a) == multiset(b)
    ensures multiset(Firsts(a)) == multiset(Firsts(b))
    decreases |a|
  {
    if a != [] {
      var x := a[0];
      assert x in multiset(b);
      var k :| 0 <= k < |b| && b[k] == x;
      var b' := b[..k] + b[k + 1..];
      TakeOne(a, b, k);
      FirstsPermutation(a[1..], b');
      assert a == [x] + a[1..];
      assert b == b[..k] + [x] + b[k + 1..];
      FirstsConcat([x], a[1..]);
      FirstsConcat(b[..k] + [x], b[k + 1..]);
      FirstsConcat(b[..k], [x]);
      FirstsConcat(b[..k], b[k + 1..]);
    }
  }

  lemma TakeOne<T>(a: seq<T>, b: seq<T>, k: nat)
    requires multiset(a) == multiset(b) && a != [] && k < |b| && b[k] == a[0]
    ensures multiset(a[1..]) == multiset(b[..k] + b[k + 1..])
  {
    assert a == [a[0]] + a[1..];
    assert b == b[..k] + [b[k]] + b[k + 1..];
    assert multiset(a[1..]) == multiset(a) - multiset{a[0]};
    assert multiset(b[..k] + b[k + 1..]) == multiset(b) - multiset{b[k]};
  }

  lemma FirstsConcat<T>(a: seq<(T, nat)>, b: seq<(T, nat)>)
    ensures Firsts(a + b) == Firsts(a) + Firsts(b)
  {
  }

  lemma PositionedFirsts<T>(s: seq<T>)
    ensures Firsts(Positioned(s)) == s
  {
  }

  // ---------------------------------------------------------------------------
  // the merge script

  /** `f.lower().endswith('.pdf')`. */
  predicate IsPdfName(f: string)
  {
    |f| >= 4 && ToLower(f[|f| - 4]) == '.' && ToLower(f[|f| - 3]) == 'p'
    && ToLower(f[|f| - 2]) == 'd' && ToLower(f[|f| - 1]) == 'f'
  }

  predicate IsPdf(u: Upload) { IsPdfName(u.name) }

  /** `main` of the merge script over the `slides/` folder (`None` when it is
      missing): the outline of `Lectures.pdf`, or nothing when the folder
      holds no PDF, nothing has pages or a file raises. */
  function MergeSlides(folder: Option<seq<Upload>>): Option<Merged>
  {
    if folder.None? then None
    else
      var pdfs := Filter(folder.value, IsPdf);
      if pdfs == [] then None
      else match MergeInOrder(SortedByName(pdfs))
        case Ok(m) => Some(m)
        case Err(_) => None
  }

  method MergeSlidesMain(folder: Option<seq<Upload>>) returns (r: Option<Merged>)
    ensures r == MergeSlides(folder)
  {
    if folder.None? {
      return None;
    }
    var pdfs := Filter(folder.value, IsPdf);
    if pdfs == [] {
      return None;
    }
    var merged := BuildOutline(SortedByName(pdfs));
    r := if merged.Ok? then Some(merged.value) else None;
  }

  /** The script writes an outline exactly when the backend service would
      merge its PDF files; every bookmark comes from a file whose name ends in
      ".pdf" in any case. */
  lemma SlidesLikeService(folder: Option<seq<Upload>>)
    ensures MergeSlides(folder).Some? <==>
      folder.Some? && Merge(Filter(folder.value, IsPdf)).Ok?
    ensures MergeSlides(folder).Some? ==>
      MergeSlides(folder).value == Merge(Filter(folder.value, IsPdf)).value
    ensures MergeSlides(folder).Some? ==>
      forall k :: 0 <= k < |MergeSlides(folder).value.toc| ==>
        exists u :: u in folder.value && IsPdfName(u.name) && MergeSlides(folder).value.toc[k].title == BookmarkTitle(u.name)
  {
    if MergeSlides(folder).Some? {
      var pdfs := Filter(folder.value, IsPdf);
      var sorted := SortedByName(pdfs);
      var cs := Contributing(sorted);
      MergeOutline(pdfs);
      SortedByNameOrdered(pdfs);
      forall k | 0 <= k < |MergeSlides(folder).value.toc|
        ensures exists u :: u in folder.value && IsPdfName(u.name) && MergeSlides(folder).value.toc[k].title == BookmarkTitle(u.name)
      {
        var u := cs[k];
        ContributingMembers(sorted, u);
        assert u in multiset(sorted);
        FilterMembers(folder.value, IsPdf, u);
      }
    }
  }
}

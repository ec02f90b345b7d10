# Lecture pipeline: merging, extraction and study notes, in Dafny

The system turns a folder of lecture slide PDFs into study notes in four steps.

1. **Merge.** The slide PDFs are merged into one document with one level-1 bookmark per file. This is `merge_pdfs` of the web service and `main` of the merge script.
2. **Extract.** The bookmarks of that document are flattened into numbered sections. Each section gets the cleaned text of its pages. This is `extract_all_toc_entries_with_content`, called by `extract_content_from_pdf` of the service and by `save_content_json` of the extraction script. The text is cleaned by:
   - a paragraph filter;
   - a scanner that closes a title run into the first sentence with a period;
   - a typographic table;
   - a period collapse;
   - a rewrite of all-capital runs.
3. **Write notes.** The lecture script renumbers the extracted lectures and keeps those in its window. It writes one markdown notes file per lecture from generated texts, in a fixed section order.
4. **Read notes back.** The helpers of `scripts/config.py` tidy each generated text before it is written. They also read the sections and the lecture number of a notes file back.

The PDF library is replaced by what it reports:
- a document is the sequence of its pages' texts;
- an outline is a sequence of `(level, title, start page)` bookmarks;
- an input file of the merge is its name and either its page count or the error it raises.

Generated texts and saved notes are parameters. The modules follow the program:

| module | file | models |
|---|---|---|
| `Strings` | strings.dfy | ASCII character classes, `strip`, `split`, `join`, `replace`, decimal digits |
| `Sorting` | sorting.dfy | a stable sort by key (insertion sort over `(value, position)` pairs) |
| `Paragraphs` | paragraphs.dfy | `extract_clean_paragraphs` |
| `TitleMatch` | title_match.dfy | `insert_period_after_title_match` |
| `Capitals` | capitals.dfy | `remove_capital` and its run pattern |
| `Normalize` | normalize.dfy | `normalize_text` (both tables) and `is_similar_content` |
| `Outline` | outline.dfy | the head of `extract_all_toc_entries_with_content`: outline to numbered sections |
| `Segment` | segment.dfy | the page walk, the first pass and the second pass of the same function |
| `Extraction` | extraction.dfy | `extract_content_from_pdf` and `save_content_json` |
| `Merger` | merger.dfy | the bookmark title rule, `merge_pdfs` and the merge script's `main` |
| `Notes` | notes.dfy | `remove_unwanted_lines`, `clean`, `extract_sections` with `unclean`, `process_file` |
| `Lectures` | lectures.dfy | the lecture script: renumbering, window, `clean_title`, file name, `process_lecture` and its writes |

The service and the scripts carry copies of the same text functions. One definition serves both. Where they differ, the model takes that difference as a parameter:
- the replacement table, `BackendTable` or `ScriptTable`;
- the error handling, in `Extraction` and `Merger.MergeSlides`.

## Model

| member | source | states |
|---|---|---|
| `Paragraphs.ExtractCleanParagraphs` | backend/app/services/content_extractor.py:10-31 | The loop over the filtered lines computes `CleanParagraphs`: keep stripped lines, join with spaces, collapse whitespace, strip. |
| `Paragraphs.LinesRoundTrip` | backend/app/services/content_extractor.py:15-18 | The `"\n".join` of the letter lines followed by `split('\n')` gives those lines back, so the loop sees exactly the lines that survive both filters. |
| `Paragraphs.CleanParagraphsText` | backend/app/services/content_extractor.py:13-27 | A stripped line is kept iff its input line has three ASCII letters in a row and the stripped line is not a bare number and has at least 3 characters. Kept lines stay in input order. |
| `Paragraphs.CleanParagraphsTidy` | backend/app/services/content_extractor.py:29-31 | The output has no whitespace at either end, no two adjacent whitespace characters, and no whitespace but ' ' (so no newline). |
| `Paragraphs.TidyNoBreak` | backend/app/services/content_extractor.py:29-31 | A tidy paragraph holds no line-break character. |
| `Paragraphs.NonEmptyHasLetters` | backend/app/services/content_extractor.py:15 | A non-empty output still has three ASCII letters in a row. |
| `Paragraphs.CleanParagraphsIdempotent` | scripts/2_extract_content.py:11-31 | Cleaning twice equals cleaning once. |
| `Paragraphs.CollapseShape` | backend/app/services/content_extractor.py:30 | `re.sub(r'\s+', ' ', ...)`: every whitespace left is ' ' and no two are adjacent. |
| `Paragraphs.TidyFixed` | scripts/2_extract_content.py:21-31 | A tidy paragraph that is empty or has three letters in a row is its own cleaning. |
| `TitleMatch.InsertPeriodAfterTitleMatch` | backend/app/services/content_extractor.py:33-60 | The loop, with its match length, non-whitespace count and position, computes `InsertPeriod`. |
| `TitleMatch.MatchStep` | backend/app/services/content_extractor.py:42-48 | A letter extends the match iff it equals the next title letter ignoring case. Otherwise the match drops to 1 if it equals the first title letter, else to 0. |
| `TitleMatch.InsertPeriodShape` | backend/app/services/content_extractor.py:57-60 | The result is the content unchanged, or the content with one '.' at the scan's stop. That point is inside the content and does not hold '.', and deleting the '.' gives the content back. |
| `TitleMatch.InsertedAfterTitle` | backend/app/services/content_extractor.py:40-55 | Where a '.' is inserted, the letters scanned end with the title's letters. Fewer than `max_scan` non-whitespace characters precede the '.'. |
| `TitleMatch.LeadingTitleGetsPeriod` | scripts/2_extract_content.py:33-59 | When the content's letters start with the title's letters, the scan stops right after them. The '.' goes there unless that is the end or an existing '.'. |
| `TitleMatch.ScanFindsLeadingTitle` | scripts/2_extract_content.py:39-54 | Without a budget, a scan whose remaining title letters lead the rest of the content matches them all. |
| `TitleMatch.NoLetterTitle` | backend/app/services/content_extractor.py:35-40 | A title with no letters puts '.' at `start_offset` when that position exists and does not hold '.'. |
| `TitleMatch.CutSplitsLastLetter` | backend/app/services/content_extractor.py:53-55 | As written, title "ab", content "abc" and `max_scan` 2 give "a.bc": the break skips `i += 1`. |
| `TitleMatch.CorrectedAfterTitle` | scripts/2_extract_content.py:52-54 | Corrected: with or without a budget, the letters before the '.' end with the title's letters. |
| `TitleMatch.CorrectedShape` | scripts/2_extract_content.py:56-59 | Corrected: the '.' is still the only change. |
| `TitleMatch.CorrectedAgreesWithoutBudget` | backend/app/services/content_extractor.py:217 | The extraction passes no budget, and there the corrected and the as-written functions agree. |
| `Capitals.FindMatch` | backend/app/services/content_extractor.py:64-69 | The next match of `finditer` lies at or after the position searched from. |
| `Capitals.MatchAtExact` | backend/app/services/content_extractor.py:64 | At a start position, `MatchAt` finds the longest text that matches the run pattern, and finds none when none matches. |
| `Capitals.FindMatchExact` | scripts/2_extract_content.py:65-70 | `FindMatch` yields the leftmost match at or after the position and the longest at that start. It yields nothing when no match is left. |
| `Capitals.RemoveCapitalLoop` | backend/app/services/content_extractor.py:66-110 | The loop over the matches, with `result` and `last_end`, computes `RemoveCapital`. |
| `Capitals.RemoveCapitalVisible` | backend/app/services/content_extractor.py:103-110 | Only whitespace and periods are added or removed. Every other character, capitals included and case unchanged, stays in order. |
| `Capitals.RemoveCapitalNoRun` | scripts/2_extract_content.py:61-112 | A text without capitals or symbols is returned unchanged. |
| `Capitals.ShortBlockKept` | backend/app/services/content_extractor.py:85-87 | A match with at most `min_length` ASCII letters and digits is left alone. |
| `Capitals.SkipRule` | backend/app/services/content_extractor.py:74-87 | A match is left alone exactly when its words are one letter, or its ASCII letters and digits, less the one of a trailing single-character word, number at most `min_length`. |
| `Capitals.CoreAlnum` | backend/app/services/content_extractor.py:79-86 | Setting a trailing single-character word aside removes exactly its letter or digit from the count, if it is one. |
| `Capitals.ReplacementLayout` | backend/app/services/content_extractor.py:89-101 | A replacement starts the closed block (core words, '.', re-attached single character) up to the period already following. It ends in a space unless the text goes on with ' ' or '.'. |
| `Capitals.ReplacementVisible` | backend/app/services/content_extractor.py:71-92 | A replacement has the visible characters of the match it replaces. |
| `Capitals.MatchHasNoDot` | backend/app/services/content_extractor.py:64 | A match of the pattern never contains '.'. |
| `Capitals.CoreNoDot` | backend/app/services/content_extractor.py:82-83 | The core block of such a match has no '.' of its own. |
| `Capitals.Words` | backend/app/services/content_extractor.py:72 | `block.split()` yields non-empty words without whitespace, no more of them than there are characters. |
| `Capitals.AlnumCount` | backend/app/services/content_extractor.py:86 | The count is 0 exactly when the text has no ASCII letter or digit, and is the text's length exactly when it has nothing else. |
| `Capitals.RStripDots` | backend/app/services/content_extractor.py:97 | `rstrip('.')` leaves a prefix that does not end in '.', and drops only periods. |
| `Normalize.ApplyTable` | backend/app/services/content_extractor.py:123-124 | The loop of `replace` calls computes the table applied entry by entry in order. |
| `Normalize.ScriptTableCleans` | scripts/2_extract_content.py:116-127 | After the script's table, none of its keys is left: no curly single quote, dash, ellipsis, thin or no-break space, prime or angle quote. |
| `Normalize.ApplyAllRemovesKeys` | scripts/2_extract_content.py:126-127 | A table whose replacements are ASCII removes every one-character key. |
| `Normalize.ApplyAllUntouched` | scripts/2_extract_content.py:126-127 | A text with none of the keys passes through. |
| `Normalize.ScriptKeepsDoubleQuotes` | scripts/2_extract_content.py:116-125 | The double quotes left as comments in the table (curly, low, reversed, double prime, angle) pass through unchanged. |
| `Normalize.BackendKeepsCurlyQuote` | backend/app/services/content_extractor.py:115-122 | As written, the service's table leaves U+2019 unchanged. |
| `Normalize.ScriptStraightensCurlyQuote` | scripts/2_extract_content.py:118 | The script's table maps U+2019 to "'". |
| `Normalize.DotGap` | backend/app/services/content_extractor.py:127 | `\.\s+\.` matches at the start exactly when a period, one or more whitespace characters and a period open the text, and the match ends after that second period. |
| `Normalize.CollapseDotsVisible` | backend/app/services/content_extractor.py:127 | The period collapse removes only periods and whitespace. |
| `Normalize.CollapseDotsNoDot` | scripts/2_extract_content.py:130 | A text without '.' is not changed by the collapse. |
| `Normalize.NormalizeText` | backend/app/services/content_extractor.py:112-132 | The three steps, in order (table, period collapse, `remove_capital`), compute `Normalized`. |
| `Normalize.NormalizedVisible` | scripts/2_extract_content.py:114-135 | After the table, normalizing only adds and removes whitespace and periods. |
| `Normalize.SimilarSymmetric` | backend/app/services/content_extractor.py:134-149 | `is_similar_content` with the default threshold is symmetric. |
| `Normalize.SimilarReflexive` | backend/app/services/content_extractor.py:145-146 | A non-empty page is similar to itself. |
| `Normalize.SimilarMeans` | backend/app/services/content_extractor.py:136-146 | Similar pages are equal after stripping, and neither is longer than 5/4 of the other. |
| `Normalize.DifferentNotSimilar` | scripts/2_extract_content.py:148-153 | Pages that differ after stripping are never similar. |
| `Outline.Base` | backend/app/services/content_extractor.py:167-168 | The index offset is 0 when the stripped first title opens with a number of value 0, else 1. |
| `Outline.ZeroIndexedMeans` | backend/app/services/content_extractor.py:168 | The zero-indexed pattern (one or more '0', then the end or a non-digit) matches the stripped first title iff it opens with a digit run of value 0. |
| `Outline.SortedTop` | backend/app/services/content_extractor.py:176-177 | Sorting keeps every level-1 and level-2 bookmark (same count). |
| `Outline.SortedPairHas` | backend/app/services/content_extractor.py:177 | The sorted list holds every level-1/2 bookmark at some place. |
| `Outline.FlattenToc` | backend/app/services/content_extractor.py:179-194 | The `seen_pages` loop and the numbering loop compute `Flatten`. |
| `Outline.DropRepeatedPages` | scripts/2_extract_content.py:176-181 | The `seen_pages` loop keeps the first bookmark of every start page, in order. |
| `Outline.NumberSections` | scripts/2_extract_content.py:183-191 | Section k gets index k + base, with end page and content unset. |
| `Outline.DedupIncreasing` | backend/app/services/content_extractor.py:181-184 | Over a list sorted by page, the kept pages strictly increase. |
| `Outline.DedupFirst` | backend/app/services/content_extractor.py:182 | Each kept element is the first in the list with its page. |
| `Outline.DedupCovers` | backend/app/services/content_extractor.py:179-184 | Every page not already seen is kept once. |
| `Outline.FlattenIndices` | backend/app/services/content_extractor.py:186-194 | Sections are numbered consecutively from 0 when the raw first bookmark's title is zero-indexed, else from 1. |
| `Outline.FlattenIncreasing` | scripts/2_extract_content.py:173-181 | Start pages strictly increase along the sections: they are sorted and pairwise distinct. |
| `Outline.FlattenSource` | scripts/2_extract_content.py:167-191 | Each section is the first level-1/2, non-"Blank Page" bookmark, in outline order, on its start page. It has that bookmark's level, title and page. |
| `Outline.FlattenCovers` | backend/app/services/content_extractor.py:170-184 | Every level-1/2 non-blank bookmark's page starts some section. |
| `Outline.TopEntriesKept` | backend/app/services/content_extractor.py:170-176 | The bookmarks sections come from are of level 1 or 2, not titled "Blank Page", and from the outline. |
| `Segment.LoadPage` | backend/app/services/content_extractor.py:205 | A page loads iff its index lies in the document. |
| `Segment.CleanedPages` | backend/app/services/content_extractor.py:207 | The cleaned text of every page, in order. |
| `Segment.WalkPage` | backend/app/services/content_extractor.py:205-214 | One turn of the page loop advances the walk by that page. |
| `Segment.ChapterText` | backend/app/services/content_extractor.py:201-214 | The page loop computes `Chapter`: the chapter text, or failure when a page does not load. |
| `Segment.KeptPagesRange` | scripts/2_extract_content.py:201-211 | The pages kept lie in the section's range, in increasing order. |
| `Segment.FirstPageKept` | backend/app/services/content_extractor.py:202-214 | The first page of a non-empty range is always kept. |
| `Segment.WalkMeaning` | backend/app/services/content_extractor.py:210-214 | The chapter text is the kept pages' raw texts in order. The remembered content is the cleaned text of the last kept page: it moves on only when a page is kept. |
| `Segment.PageKeptRule` | backend/app/services/content_extractor.py:209-211 | A page is skipped iff a page was kept before it and that page's cleaned text is similar to this page's. |
| `Segment.ChapterFails` | scripts/2_extract_content.py:201-202 | The walk fails iff its range is non-empty and reaches outside the document. |
| `Segment.FillSection` | backend/app/services/content_extractor.py:197-219 | One section of the first pass: its end page is the next start minus one, and its text is `normalize_text(insert_period(title, clean(chapter)))`. |
| `Segment.FillSections` | backend/app/services/content_extractor.py:196-219 | The first-pass loop, which updates `toc_flat` in place, computes `FirstPass`. |
| `Segment.FirstPassShape` | scripts/2_extract_content.py:193-216 | The first pass keeps every section's index, level, start page and title, gives it a text, and sets its end page to the next start minus one. |
| `Segment.LaidChained` | backend/app/services/content_extractor.py:198-199 | Each section ends the page before the next begins, and the last ends on the last page. |
| `Segment.EmptyChapterText` | backend/app/services/content_extractor.py:216-218 | A section with no pages gets an empty text. |
| `Segment.LastBeyondEnd` | scripts/2_extract_content.py:195-216 | A last section starting after the last page ends before it starts and gets an empty text. |
| `Segment.FirstPassFails` | scripts/2_extract_content.py:201-202 | The first pass fails iff some section's pages reach outside the document. |
| `Segment.HoldsUnique` | backend/app/services/content_extractor.py:229-230 | With chained sections, no page lies in two of them. |
| `Segment.FirstHolding` | backend/app/services/content_extractor.py:229-234 | The inner search with `break` finds the first section whose range holds the page, or none. |
| `Segment.Revisit` | backend/app/services/content_extractor.py:221-234 | One bookmark's turn of the second pass keeps the number of sections. |
| `Segment.SecondPass` | scripts/2_extract_content.py:218-231 | The second pass keeps the number of sections. |
| `Segment.RevisitEntry` | scripts/2_extract_content.py:219-231 | The body of the second pass for one bookmark computes `Revisit`. |
| `Segment.RevisitSections` | backend/app/services/content_extractor.py:221-234 | The second-pass loop computes `SecondPass`. |
| `Segment.RevisitTarget` | scripts/2_extract_content.py:219-224 | A bookmark changes a section only when it is of level 2 or deeper, its page loads, and the section is the first holding that page. A page that does not load is skipped. |
| `Segment.SecondPassTouches` | scripts/2_extract_content.py:226-231 | A section whose range holds no level-2+ bookmark's page keeps its first-pass content. |
| `Segment.SecondPassSkeleton` | scripts/2_extract_content.py:218-233 | The second pass never changes the number, order, index, level, title, start page or end page of sections. |
| `Segment.ExtractAllEntries` | scripts/2_extract_content.py:160-233 | The whole extraction computes `ExtractAll`. |
| `Segment.ExtractShape` | backend/app/services/content_extractor.py:156-237 | On success the outline is non-empty. There is one section per kept start page, with indices from the base, texts and end pages, start pages increasing, and end pages chained up to the page count. |
| `Segment.ExtractNoOutline` | backend/app/services/content_extractor.py:164-165 | The extraction fails for lack of an outline iff the outline is empty. |
| `Segment.Project` | scripts/2_extract_content.py:246 | The projection keeps each section's index, title and content, in order, and drops level and pages. |
| `Segment.ProjectSections` | backend/app/services/content_extractor.py:260-266 | The projection loop computes `Project`. |
| `Extraction.Reason` | backend/app/services/content_extractor.py:275 | `str(e)` of the missing-outline exception is "400: " and its detail. For a page that does not load it is the library's message. |
| `Extraction.ExtractContentFromPdf` | backend/app/services/content_extractor.py:246-275 | The service answers the projected sections, or 500 with the prefixed reason for any failure. |
| `Extraction.NoOutlineAnswered500` | backend/app/services/content_extractor.py:274-275 | As written, a PDF without an outline is answered 500 with "400: ..." inside the detail. |
| `Extraction.AsWrittenNever400` | backend/app/services/content_extractor.py:256-275 | As written, every error answer is a 500. |
| `Extraction.ServiceAnswers` | backend/app/services/content_extractor.py:164-165 | Corrected: an error iff the extraction fails. It is 400 exactly for an empty outline and 500 otherwise; a success answers the projected sections. |
| `Extraction.ServiceLectures` | backend/app/services/content_extractor.py:260-266 | The lectures answered are numbered consecutively from the outline's base, one per kept start page. |
| `Extraction.SaveContentWrites` | scripts/2_extract_content.py:235-251 | The script writes iff the PDF exists, the outline is non-empty and every page loads. What it writes is each section's index, title and text, in order. |
| `Merger.Stem` | backend/app/services/pdf_merger.py:75 | `os.path.splitext(name)[0]` is a prefix of the name. |
| `Merger.StemDropsExtension` | scripts/1_merge_slides.py:49 | A name made of a base (not starting with '.') and one extension has the base as stem. |
| `Merger.LeadingDots` | backend/app/services/pdf_merger.py:75 | Counts the dots that open a name, which `splitext` does not take for an extension. |
| `Merger.LineHead` | backend/app/services/pdf_merger.py:76 | `(.*)` stops at the first newline. |
| `Merger.NumberPartDropsZeros` | backend/app/services/pdf_merger.py:81-85 | The renumbering is `str(int(raw))` when there is more than one digit and the first is '0', else the raw digits. This is exactly dropping superfluous leading zeros. |
| `Merger.TitleKeepsNumber` | backend/app/services/pdf_merger.py:76-90 | A stem without a leading digit is the title. Otherwise the title opens with the renumbered digits followed by '.'. |
| `Merger.RunOfDigitsThenDot` | scripts/1_merge_slides.py:61-64 | When the rest starts with '.', the digits are followed by the rest as it is. |
| `Merger.Bookmarks` | backend/app/services/pdf_merger.py:92 | One bookmark per contributing file. |
| `Merger.BookmarkAt` | backend/app/services/pdf_merger.py:92-93 | The k-th bookmark is level 1, titled from the k-th contributing file, at 1 + the pages of the files before it. |
| `Merger.BookmarksFromOne` | scripts/1_merge_slides.py:66 | The first bookmark starts on page 1. |
| `Merger.BookmarksIncrease` | backend/app/services/pdf_merger.py:93 | Bookmarks of contributing files start on strictly increasing pages. |
| `Merger.BookmarksWithin` | scripts/1_merge_slides.py:67 | Every file's pages lie within the merged document. |
| `Merger.BookmarksLaidOut` | scripts/1_merge_slides.py:66-67 | Each bookmark at 1 + the earlier pages, strictly increasing. |
| `Merger.SortedByName` | backend/app/services/pdf_merger.py:46 | The sort keeps every file (same count). |
| `Merger.SortedByNameOrdered` | backend/app/services/pdf_merger.py:45-46 | The files are taken in ascending name order, as a permutation of the input. |
| `Merger.SortedSameFiles` | backend/app/services/pdf_merger.py:55 | No sorted file raises iff no uploaded file does. |
| `Merger.FirstBroken` | backend/app/services/pdf_merger.py:97-99 | The first file that raises is one of the files. |
| `Merger.FirstBrokenAt` | backend/app/services/pdf_merger.py:55-99 | Every file before the first that raises is processed. |
| `Merger.ContributingMembers` | backend/app/services/pdf_merger.py:68-70 | The contributing files are the readable files with pages. |
| `Merger.SkippedInvisible` | backend/app/services/pdf_merger.py:8-30 | A file that cannot be opened (`strip_bookmarks` returns None) or has no pages changes nothing, wherever it stands. |
| `Merger.AddFiles` | backend/app/services/pdf_merger.py:55-99 | The file loop returns the first file that raises, or else the bookmarks and the page counter of the contributing files. |
| `Merger.BuildOutline` | backend/app/services/pdf_merger.py:54-104 | The loop, the per-file `HTTPException` and the final check compute `MergeInOrder`. |
| `Merger.MergePdfs` | backend/app/services/pdf_merger.py:42-104 | `merge_pdfs` computes `Merge`. |
| `Merger.MergeOutcome` | backend/app/services/pdf_merger.py:97-102 | "No PDF files" iff the list is empty. Success iff no file raises and some file contributes a page. Otherwise the first failing file in name order is named. |
| `Merger.MergeOutline` | backend/app/services/pdf_merger.py:92-104 | On success: one bookmark per contributing file, at 1 + the earlier pages, increasing; the page count is the sum. |
| `Merger.MergeOk` | backend/app/services/pdf_merger.py:101-104 | A successful merge is the bookmarks and total of the contributing files. |
| `Merger.MergeSlidesMain` | scripts/1_merge_slides.py:17-75 | The script's `main` computes `MergeSlides`. |
| `Merger.SlidesLikeService` | scripts/1_merge_slides.py:21-32 | The script writes iff the folder exists and the service would merge its ".pdf" files (any case). It then writes the same outline, whose titles come from PDF names of the folder. |
| `Notes.Lines` | scripts/config.py:25 | `split('\n')` yields at least one line, and joining them with '\n' gives the text back. |
| `Notes.LinesOfJoin` | scripts/config.py:31-33 | Splitting the join of lines gives them back. |
| `Notes.DropChatterLines` | scripts/config.py:24-28 | When the stripped text does not start with '#' and has more than two lines, the first and last lines go; otherwise all stay. |
| `Notes.WithoutMarkerMembers` | scripts/config.py:32 | A line is kept iff it is a line of the text without "# Study Note". |
| `Notes.WithoutMarkerKeepsAll` | scripts/config.py:32-33 | Lines without the marker are all kept, in order. |
| `Notes.RemoveUnwantedLinesLines` | scripts/config.py:21-35 | The result's lines are the surviving lines, in order. |
| `Notes.NoStudyNoteLine` | scripts/config.py:30-33 | No line of the result contains "# Study Note". |
| `Notes.RemoveUnwantedLinesKeeps` | scripts/config.py:24 | A text that starts with a heading and has no marker is unchanged. |
| `Notes.ShiftHeadingMeaning` | scripts/config.py:39-42 | A leading "# " or "## " becomes "### ". A deeper heading gains one '#'. A line without '#' is unchanged. |
| `Notes.ReplaceLines` | scripts/config.py:43 | `replace("\n" + p, "\n" + q)` rewrites each line after a break. |
| `Notes.RuleAt` | scripts/config.py:43 | "\n---\n" matches at a break iff the line after it is "---" and another line follows. |
| `Notes.ReplaceRules` | scripts/config.py:43 | `replace('\n---\n', '\n')` drops those rule lines in one left-to-right pass. |
| `Notes.RewritesShift` | scripts/config.py:43 | The two heading replacements shift each body line like the first line. |
| `Notes.CleanReplacements` | scripts/config.py:43 | The three chained replacements drop rules and shift headings after the first line. |
| `Notes.CleanLines` | scripts/config.py:37-43 | `clean` is: the first line and the body with rules dropped, every line's heading shifted, joined and stripped. |
| `Notes.UncleanLines` | scripts/config.py:196-199 | `unclean` removes one '#' from every line that starts with "##", the first included. |
| `Notes.UncleanUndoesShift` | scripts/config.py:197-199 | `unclean` undoes the heading shift on a line that is not a level-one heading. |
| `Notes.UncleanAfterShift` | scripts/config.py:205 | Reading a section back undoes the shift of its lines, unless a line is a level-one heading. |
| `Notes.SearchIsLeftmostShortest` | scripts/config.py:202 | The lazy `re.search` finds a match iff one exists. It takes the leftmost marker and the shortest text up to a suffix. |
| `Notes.SearchToEnd` | scripts/config.py:201-203 | With the default suffix, a match exists iff the marker occurs. The text starts right after its first occurrence. |
| `Notes.Extract` | scripts/config.py:201-205 | `extract` stores the tidied group under its key when the pattern matches. |
| `Notes.ExtractSections` | scripts/config.py:193-216 | The five calls of `extract` compute `Collect` over the section table. |
| `Notes.CollectKeys` | scripts/config.py:205 | Only keys of the calls are stored. |
| `Notes.CollectLookup` | scripts/config.py:203-205 | With distinct keys, a key is present iff its pattern matched, and it holds the tidied group. |
| `Notes.KeyAbsent` | scripts/config.py:194 | A key no call uses is never stored. |
| `Notes.SectionsStored` | scripts/config.py:210-214 | Only title, questions, answers, key_points and study_notes can be present, each iff its pattern matched. |
| `Notes.SectionPresentIffMarker` | scripts/config.py:211-214 | Questions, answers, key_points and study_notes are present iff their marker occurs. |
| `Notes.ExtractedToEnd` | scripts/config.py:201 | A section with the default suffix is extracted iff its marker occurs. |
| `Notes.Basename` | scripts/config.py:219 | The base name holds no '/'. |
| `Notes.ProcessFileNumber` | scripts/config.py:218-229 | A file whose name starts with a digit run is read back under that run's integer value, wherever it is, with its sections. |
| `Notes.ProcessFileNeedsDigit` | scripts/config.py:220-222 | A name not starting with a digit gives None. |
| `Lectures.Renumber` | scripts/3_call_api.py:63-66 | The loop over the stably sorted lectures writes `start + offset` into each shared lecture. It returns the sort order and the start. |
| `Lectures.OrderIsPermutation` | scripts/3_call_api.py:63 | The sorted list holds every lecture exactly once. |
| `Lectures.OrderSorted` | scripts/3_call_api.py:63 | The sorted list ascends by index, and equal indices keep their list order. |
| `Lectures.RenumberedMeaning` | scripts/3_call_api.py:64-66 | Titles and contents are kept. The new indices are distinct and contiguous from the lowest old index, and they keep the old order, ties broken by list position. |
| `Lectures.WindowIsFirstRanks` | scripts/3_call_api.py:91-92 | After renumbering from the lowest index, the lecture at rank r is processed exactly when that index plus r lies in `[START, START + NUM_LECS)`. When the lowest index is `START`, these are the first `NUM_LECS` in sorted order. |
| `Lectures.CleanTitleNumber` | scripts/3_call_api.py:192-193 | A digit run then whitespace becomes `str(int(run))` and one space; the rest is kept. |
| `Lectures.CleanTitleKeepsOthers` | scripts/3_call_api.py:193 | A title without a digit run followed by whitespace is unchanged. |
| `Lectures.CleanTitleIdempotent` | scripts/3_call_api.py:192 | Cleaning a cleaned title changes nothing. |
| `Lectures.SanitizeMembers` | scripts/3_call_api.py:189 | The sanitized title keeps exactly the allowed characters of the title. None of the reserved characters or U+0000 to U+001F remain. |
| `Lectures.SanitizeKeepsClean` | scripts/3_call_api.py:189 | A title without reserved characters is kept as it is. |
| `Lectures.TwoDigitsMeaning` | scripts/3_call_api.py:189 | `f"{id:02d}"` for a non-negative id is its decimal form padded to two digits. A negative id starts with '-'. |
| `Lectures.OutputPathReadBack` | scripts/3_call_api.py:189-191 | The notes file of a non-negative id is read back by `process_file` under that id, whatever the title. |
| `Lectures.OutputPathIsMarkdown` | scripts/3_call_api.py:189 | The notes file name ends in ".md", the files `load_md_to_dict` reads. |
| `Lectures.OutputPathNegative` | scripts/config.py:220-222 | The notes file of a negative id is never read back. |
| `Lectures.WritePart` | scripts/3_call_api.py:199-204 | The writes of one optional section append the lead, heading and cleaned text when present, and nothing otherwise. |
| `Lectures.WriteNotes` | scripts/3_call_api.py:194-209 | The writes of `process_lecture` produce `Document`, the notes file text. |
| `Lectures.DocumentLayout` | scripts/3_call_api.py:195-197 | The file starts with the cleaned title heading and the two links. It ends with SEP, the Study Notes heading and the cleaned notes. |
| `Lectures.SectionsFound` | scripts/3_call_api.py:199-209 | Reading the file back finds the study notes always, and questions and answers whenever they were written. |
| `Lectures.TitleReadBack` | scripts/config.py:210 | A one-line cleaned title without "<br>" or edge spaces is read back as written. |
| `Lectures.NoKeyPointsMarker` | scripts/config.py:213 | A text without three '#' in a row holds no "### Key Points" marker. |
| `Lectures.KeyPointsLost` | scripts/3_call_api.py:205-207 | As written: a file with a Key Points section, whose texts hold no '#', contains its heading, yet no key_points are read back. |
| `Lectures.KeyPointsKept` | scripts/config.py:208 | Corrected, with the writer's heading as marker: key points are always read back. |
| `Lectures.ProcessLectureReadBack` | scripts/3_call_api.py:86-92 | A lecture is written iff it is in the window. A file with a non-negative index is read back under that index, with the study notes found. A file with a negative index, possible when `START` is negative, is not read back. |
| `Lectures.RerunKeepsSections` | scripts/3_call_api.py:100-159 | A second run over the written file reuses the saved study notes when asked. Without regeneration it gets back the questions and answers it wrote. |
| `Lectures.RerunLosesKeyPoints` | scripts/3_call_api.py:174-176 | As written: a second run without key-point generation, over '#'-free texts, has no key points. |
| `Lectures.RerunKeepsKeyPoints` | scripts/3_call_api.py:161-176 | Corrected: the second run keeps the Key Points section. |
| `Sorting.SortSorted` | backend/app/services/content_extractor.py:177 | A stable sort leaves the list ordered. |
| `Sorting.SortMembers` | backend/app/services/pdf_merger.py:46 | Sorting keeps the members. |
| `Strings.StripWindow` | backend/app/services/content_extractor.py:22 | `strip()` keeps a window of the string and drops only whitespace around it. |
| `Strings.JoinSplit` | scripts/config.py:31-33 | Joining the pieces of a split with its separator gives the string back. |
| `Strings.DropLeadingZerosIsDecimal` | scripts/1_merge_slides.py:57 | Dropping leading zeros is `str(int(d))`. |
| `Strings.ValueOfDecimal` | scripts/3_call_api.py:193 | `int(str(n)) == n`. |
| `Strings.ReplaceAbsent` | scripts/config.py:43 | Replacing a pattern that does not occur changes nothing. |

## Left out

- The PDF library (`fitz`: open, `insert_pdf`, `get_toc`, `set_toc`, `load_page().get_text()`, `tobytes`, `save`) is replaced by page texts, outlines and page counts. The pages of the merged document are not modelled, only its outline and page count.
- Segment.LoadPage: a page index outside the document fails. The library's meaning of a negative index, which counts from the end, is not modelled. So a bookmark on page 0 fails here.
- Temporary and output files (`create_temp_file`, `save_temp_json`, `save_temp_file`, the JSON written by the scripts, the unlinking in `finally`) are file-system I/O and are left out. Only the value written is modelled.
- Extraction.Reason: the message of an exception raised by the PDF library is a parameter.
- The `SequenceMatcher` branch of `is_similar_content` is left out. No caller of `is_similar_content` passes a threshold below 1, so that branch is never reached. The model fixes the threshold at 1 and writes the 0.8 ratio as `5*min < 4*max`.
- Character classes (`isalpha`, `lower`, `isspace`, `\s`, `\w`, `\d`, `\b`) are ASCII. A non-ASCII character is neither letter, digit nor whitespace. `splitlines` is modelled for the ASCII line breaks.
- The network, prompts and concurrency are left out: `generate`, the OpenAI service, the threads of `process_lecture`, `ThreadPoolExecutor`, the locks, `model_usage`, `model_costs` and the cost totals (floating point), `IS_BOOK` and the prompt strings.
- Step 2a of `process_lecture` (transcripts), `load_data` and `save_data` of the transcripts JSON are left out: they only move generated text to a file.
- `load_md_to_dict` is left out as file-system traversal and concurrency. Its per-file work is `process_file`, and its ".md" filter is met by `Lectures.OutputPathIsMarkdown`.
- Notes.ProcessFile: the file's text is a parameter, with None for a file that cannot be read.
- Lectures.ProcessLecture: the generated texts are a parameter (`Replies`) and the saved notes a map. It returns the path and text of the file instead of writing it.
- Lectures.Renumber requires a non-empty list: the script reads `lectures_sorted[0]`, which raises on an empty list.
- Outline.FlattenToc requires a non-empty outline. The service rejects an empty outline before flattening. The script's `toc[0]` raises, and `save_content_json` catches that and writes nothing, which `Extraction.SaveContent` models.
- Merger.Bookmarks takes the title rule as a parameter. The merge passes `BookmarkTitle`, whose properties are stated separately (`Merger.TitleKeepsNumber`).
- Lectures.KeyPointsLost is stated for texts without '#' only. For other texts the loss depends on what the texts contain.
- Lectures.TitleReadBack is stated for one-line titles without "<br>" or edge whitespace only. Other titles are read back with the tidying `extract_sections` applies.
- `extract_sections`, `process_file` and the second-run lemmas use the section table as written. The corrected table (`Lectures.FixedSectionTable`) appears only in the corrected halves of the finding below.
- HTTP and UI layers, pydantic schemas, demos and tests are outside the modelled core.
- Three behaviours of the code worth noting:
  - the merged bookmark of "01_a.pdf" is "1. _a", since only whitespace is stripped from the rest;
  - the page the walk compares against (`previous_page_content`) changes only when a page is kept;
  - `remove_capital` keeps the case of the letters it closes.

## Findings

| source | as written | input that shows it | evidently intended | confidence | as-written member | corrected member |
|---|---|---|---|---|---|---|
| backend/app/services/content_extractor.py:116 | The service's table opens with `'''`, which starts a triple-quoted key `: "'", `; the curly single quotes are not keys | the text "’" (U+2019) | "'" as in the script's table at scripts/2_extract_content.py:118 | medium, not executed | `Normalize.BackendKeepsCurlyQuote` | `Normalize.ScriptTableCleans` |
| backend/app/services/content_extractor.py:53-55 | When `max_scan` is reached, `break` skips `i += 1`, so the '.' goes before the last letter scanned | title "ab", content "abc", `max_scan` 2 gives "a.bc" | "ab.c" | medium, not executed | `TitleMatch.CutSplitsLastLetter` | `TitleMatch.CorrectedAfterTitle` |
| backend/app/services/content_extractor.py:274-275 | The 400 raised for a PDF without an outline is caught by `except Exception` and answered as 500 | a PDF whose outline is empty | status 400 "No table of contents found in PDF" | high, not executed | `Extraction.NoOutlineAnswered500` | `Extraction.ServiceAnswers` |
| scripts/config.py:213 | Key points are searched under "### Key Points", but the writer heads them "## Key Points" (scripts/3_call_api.py:206) | any notes file with a Key Points section and no '#' in its texts | key points read back and reused when not regenerated | high, not executed | `Lectures.KeyPointsLost` | `Lectures.KeyPointsKept` |

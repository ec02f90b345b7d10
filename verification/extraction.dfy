/** The two callers of the extraction: `extract_content_from_pdf` of the
    backend service, which answers the lectures or an HTTP error, and
    `save_content_json` of the extraction script, which writes the lectures or
    nothing. */
module Extraction {
  import opened Wrappers
  import opened Normalize
  import opened Outline
  import opened Segment

  /** The service's answer: the lectures, or an `HTTPException` with its status
      code and detail. */
  datatype Answer = Lectures(lectures: seq<Lecture>) | HttpError(status: int, detail: string)

  const NoOutlineDetail: string := "No table of contents found in PDF"
  const ErrorPrefix: string := "Error extracting content from PDF: "

  /** `str(e)` for the exception that ended the extraction. An `HTTPException`
      prints as its status, a colon and its detail; the text of a page that
      does not load comes from the PDF library and is the parameter `loadError`. */
  function Reason(e: ExtractError, loadError: string): (r: string)
    ensures e.NoOutline? ==> r == "400: " + NoOutlineDetail
    ensures e.PageMissing? ==> r == loadError
  {
    match e
    case NoOutline => "400: " + NoOutlineDetail
    case PageMissing => loadError
  }

  /** `extract_content_from_pdf` as written: its `except Exception` also
      catches the 400 raised for a PDF without an outline and answers 500. */
  function ServiceAsWritten(doc: seq<string>, toc: seq<TocEntry>, loadError: string): Answer
  {
    match ExtractAll(doc, toc, BackendTable)
    case Ok(sections) => Lectures(Project(sections))
    case Err(e) => HttpError(500, ErrorPrefix + Reason(e, loadError))
  }

  /** The service as its authors evidently meant it: the 400 for a PDF without
      an outline reaches the caller, every other failure is a 500. */
  function Service(doc: seq<string>, toc: seq<TocEntry>, loadError: string): Answer
  {
    match ExtractAll(doc, toc, BackendTable)
    case Ok(sections) => Lectures(Project(sections))
    case Err(NoOutline) => HttpError(400, NoOutlineDetail)
    case Err(PageMissing) => HttpError(500, ErrorPrefix + loadError)
  }

  /** `extract_content_from_pdf`: the extraction, then the loop that keeps
      index, title and content of every section. */
  method ExtractContentFromPdf(doc: seq<string>, toc: seq<TocEntry>, loadError: string) returns (r: Answer)
    ensures r == ServiceAsWritten(doc, toc, loadError)
  {
    var extracted := ExtractAllEntries(doc, toc, BackendTable);
    if extracted.Err? {
      return HttpError(500, ErrorPrefix + Reason(extracted.error, loadError));
    }
    var lectures := ProjectSections(extracted.value);
    r := Lectures(lectures);
  }

  /** As written, a PDF without an outline is answered with status 500 and
      the 400 folded into the detail. */
  lemma NoOutlineAnswered500(doc: seq<string>, loadError: string)
    ensures ServiceAsWritten(doc, [], loadError) == HttpError(500, ErrorPrefix + "400: " + NoOutlineDetail)
  {
    assert ExtractAll(doc, [], BackendTable) == Err(NoOutline);
  }

  /** As written, the service never answers 400. */
  lemma AsWrittenNever400(doc: seq<string>, toc: seq<TocEntry>, loadError: string)
    ensures ServiceAsWritten(doc, toc, loadError).HttpError? ==> ServiceAsWritten(doc, toc, loadError).status == 500
  {
  }

  /** Corrected, the service fails exactly when the extraction does, with 400
      exactly for an empty outline; otherwise it answers one lecture per
      section, in order. */
  lemma ServiceAnswers(doc: seq<string>, toc: seq<TocEntry>, loadError: string)
    ensures var r := Service(doc, toc, loadError);
      && (r.HttpError? <==> ExtractAll(doc, toc, BackendTable).Err?)
      && (r.HttpError? && r.status == 400 <==> toc == [])
      && (r.HttpError? ==> r.status == 400 || r.status == 500)
      && (r.Lectures? ==> r.lectures == Project(ExtractAll(doc, toc, BackendTable).value))
  {
    ExtractNoOutline(doc, toc, BackendTable);
  }

  /** The lectures answered are numbered consecutively from the outline's
      base, one per kept start page, each with its section's title. */
  lemma ServiceLectures(doc: seq<string>, toc: seq<TocEntry>, loadError: string)
    requires Service(doc, toc, loadError).Lectures?
    ensures var ls := Service(doc, toc, loadError).lectures;
      && toc != [] && |ls| == |Flatten(toc)|
      && forall k :: 0 <= k < |ls| ==> ls[k].index == k + Base(toc)
  {
    ExtractShape(doc, toc, BackendTable);
  }

  /** `save_content_json`: the list written to the JSON file, or nothing when
      the PDF is missing or an exception (an empty outline, a page that does
      not load) is caught and printed. */
  function SaveContent(pdfExists: bool, doc: seq<string>, toc: seq<TocEntry>): Option<seq<Lecture>>
  {
    if !pdfExists then None
    else match ExtractAll(doc, toc, ScriptTable)
      case Ok(sections) => Some(Project(sections))
      case Err(_) => None
  }

  /** The script writes its file exactly when the PDF exists, its outline is
      not empty and every section's pages load; what it writes is every
      section's index, title and text, in section order. */
  lemma SaveContentWrites(pdfExists: bool, doc: seq<string>, toc: seq<TocEntry>)
    ensures KeysNonEmpty(ScriptTable)
    ensures SaveContent(pdfExists, doc, toc).Some? <==>
      pdfExists && toc != [] && FirstPass(doc, ScriptTable, Flatten(toc)).Some?
    ensures SaveContent(pdfExists, doc, toc).Some? ==>
      var out := SaveContent(pdfExists, doc, toc).value;
      var sections := ExtractAll(doc, toc, ScriptTable).value;
      |out| == |sections| &&
      forall k :: 0 <= k < |out| ==>
        out[k].index == sections[k].index && out[k].title == sections[k].title
        && Some(out[k].content) == sections[k].content
  {
    if SaveContent(pdfExists, doc, toc).Some? {
      ExtractShape(doc, toc, ScriptTable);
    }
  }
}

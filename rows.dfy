/** `save_comments_to_csv`: one output row per comment, reconciling the
    inline comment text with the text extracted from its attachments, and
    the output file's name. The CSV writer itself is not modelled; the rows
    are returned in the order they would be written.
 */
module Rows {
  import opened Payload
  import Attachments
  import Cleaning
  import FileExt

  /** One output row, in the fixed column order
      id, title, comment, postedDate, documentType, fromAttachment, hasAttachment. */
  datatype Row = Row(
    id: string,
    title: string,
    comment: string,
    postedDate: string,
    documentType: string,
    fromAttachment: bool,
    hasAttachment: bool)

  /** The text reconciler: the attachment text replaces the inline text only
      when it is non-empty and strictly longer; the flag says which won. */
  function Reconcile(inline: string, attachment: string): (r: (string, bool))
    ensures r.1 ==> r.0 == attachment && attachment != "" && |attachment| > |inline|
    ensures !r.1 ==> r.0 == inline && |attachment| <= |inline|
  {
    if attachment != "" && |attachment| > |inline| then (attachment, true) else (inline, false)
  }

  /** The attributes a row is filled from: the detail payload's when the
      detail was fetched, the list item's otherwise. */
  function RowAttributes(summary: CommentSummary, details: Option<Detail>): Attributes {
    if details.Some? then details.value.Attrs() else summary.attributes.GetOr(NoAttributes)
  }

  /** The row written for one comment, given the outcome of its detail fetch. */
  function BuildRow(env: Attachments.Env, summary: CommentSummary, details: Option<Detail>, extractAttachments: bool): Row {
    var attrs := RowAttributes(summary, details);
    var inline := attrs.comment.GetOr("");
    var base := Row(summary.id.GetOr(""), attrs.title.GetOr(""), inline,
                    attrs.postedDate.GetOr(""), attrs.documentType.GetOr(""), false, false);
    if extractAttachments && details.Some? then
      var scan := Attachments.Resolve(env, details);
      var (text, fromAttachment) := Reconcile(inline, scan.text);
      base.(comment := text, fromAttachment := fromAttachment, hasAttachment := scan.hasAttachment)
    else base
  }

  /** `docket_id.replace('-', '')` */
  function RemoveHyphens(s: string): (r: string)
    ensures '-' !in r
    ensures forall c :: c != '-' ==> multiset(r)[c] == multiset(s)[c]
  {
    if s == [] then []
    else
      var p := s[..|s| - 1];
      assert s == p + [s[|s| - 1]];
      RemoveHyphens(p) + (if s[|s| - 1] == '-' then [] else [s[|s| - 1]])
  }

  /** Removing hyphens works piecewise: the result keeps the other
      characters in their order. */
  lemma {:induction false} RemoveHyphensConcat(a: string, b: string)
    ensures RemoveHyphens(a + b) == RemoveHyphens(a) + RemoveHyphens(b)
    decreases |b|
  {
    if b == [] {
      assert a + b == a;
    } else {
      var b' := b[..|b| - 1];
      assert (a + b)[..|a + b| - 1] == a + b' && (a + b)[|a + b| - 1] == b[|b| - 1];
      RemoveHyphensConcat(a, b');
    }
  }

  /** One character: a hyphen vanishes, anything else is kept. */
  lemma RemoveHyphensOne(c: char)
    ensures RemoveHyphens([c]) == if c == '-' then [] else [c]
  {
    assert [c][..0] == [];
  }

  /** `f"{docket_id.replace('-', '')}_comments_{timestamp}.csv"` */
  function OutputFileName(docketId: string, timestamp: string): string {
    RemoveHyphens(docketId) + "_comments_" + timestamp + ".csv"
  }

  /** `save_comments_to_csv`: the rows, in input order, and the file name.
      `details` is what `get_comment_details` returned for each id (`None`
      when it gave up). */
  method SaveCommentsToCsv(env: Attachments.Env, comments: seq<CommentSummary>,
                           details: string -> Option<Detail>, docketId: string,
                           timestamp: string, extractAttachments: bool)
      returns (filename: string, rows: seq<Row>)
    ensures filename == OutputFileName(docketId, timestamp)
    ensures |rows| == |comments|
    ensures forall i :: 0 <= i < |comments| ==>
      rows[i] == BuildRow(env, comments[i], details(comments[i].id.GetOr("")), extractAttachments)
  {
    filename := RemoveHyphens(docketId) + "_comments_" + timestamp + ".csv";
    rows := [];
    for i := 0 to |comments|
      invariant |rows| == i
      invariant forall k :: 0 <= k < i ==>
        rows[k] == BuildRow(env, comments[k], details(comments[k].id.GetOr("")), extractAttachments)
    {
      var comment := comments[i];
      var commentId := comment.id.GetOr("");
      var row := Row(commentId, "", "", "", "", false, false);
      var listAttributes := comment.attributes.GetOr(NoAttributes);
      var commentDetails := details(commentId);
      var attributes := if commentDetails.Some? then commentDetails.value.Attrs() else listAttributes;
      row := row.(title := attributes.title.GetOr(""),
                  postedDate := attributes.postedDate.GetOr(""),
                  documentType := attributes.documentType.GetOr(""));
      var commentText := attributes.comment.GetOr("");
      if extractAttachments && commentDetails.Some? {
        var attachmentText, hasAttachment, _ := Attachments.ProcessAttachments(env, commentDetails);
        row := row.(hasAttachment := hasAttachment);
        if attachmentText != "" {
          if |attachmentText| > |commentText| {
            commentText := attachmentText;
            row := row.(fromAttachment := true);
          }
        }
      }
      row := row.(comment := commentText);
      rows := rows + [row];
    }
  }

  /** How a run of `main` ends: one of its early returns, or the saved rows
      and the file they were written to. */
  datatype RunEnd =
    | NoApiKeys
    | MissingDocketId
    | NoDocuments
    | NoComments
    | Saved(filename: string, rows: seq<Row>)

  // ----- Properties of a row -----

  /** `fromAttachment` implies `hasAttachment`; the comment is the inline
      text unless the attachment text won by being non-empty and strictly
      longer, so the written text is the longer of the two and a tie keeps
      the inline text. */
  lemma RowFlags(env: Attachments.Env, summary: CommentSummary, details: Option<Detail>, extract: bool)
    ensures var row, inline := BuildRow(env, summary, details, extract),
                               RowAttributes(summary, details).comment.GetOr("");
      var att := Attachments.Resolve(env, details).text;
      (row.fromAttachment ==> row.hasAttachment)
      && (row.fromAttachment <==> extract && details.Some? && att != "" && |att| > |inline|)
      && (row.comment == if row.fromAttachment then att else inline)
      && (extract && details.Some? ==> |row.comment| >= |att|)
  {
    Attachments.ResolveDownloadsAndText(env, details);
  }

  /** Without a detail payload, or with extraction off, a row takes its text
      from the attributes and reports no attachment; with a payload, every
      metadata field comes from the payload's attributes even when the list
      item has them too, each missing field written as "". */
  lemma RowSources(env: Attachments.Env, summary: CommentSummary, details: Option<Detail>, extract: bool)
    ensures var row := BuildRow(env, summary, details, extract);
      var attrs := if details.Some? then details.value.Attrs() else summary.attributes.GetOr(NoAttributes);
      row.id == summary.id.GetOr("")
      && row.title == attrs.title.GetOr("") && row.postedDate == attrs.postedDate.GetOr("")
      && row.documentType == attrs.documentType.GetOr("")
      && (!extract || details.None? ==>
            row.comment == attrs.comment.GetOr("") && !row.fromAttachment && !row.hasAttachment)
      && (extract && details.Some? ==> row.hasAttachment == Attachments.Resolve(env, details).hasAttachment)
  {
  }

  /** A comment with no inline text whose one attachment is a `.pdf` that
      decodes to text that survives cleaning gets that cleaned text, with
      both flags set. */
  lemma PdfOnlyComment(env: Attachments.Env, summary: CommentSummary, attrs: Attributes, url: string)
    requires attrs.comment.GetOr("") == ""
    requires url != "" && FileExt.FileExtension(env.urlPath(url)) == ".pdf"
    requires Attachments.Extracted(env, url) != ""
    ensures var item := Included(Some("attachments"), Some([FileFormat(Some(url))]));
      var row := BuildRow(env, summary, Some(Detail(Some(attrs), Some([item]))), true);
      row.fromAttachment && row.hasAttachment && row.comment == Cleaning.Cleaned(env.pdfText(url))
  {
    var item := Included(Some("attachments"), Some([FileFormat(Some(url))]));
    var d := Some(Detail(Some(attrs), Some([item])));
    Attachments.FormatYieldsText(env, url, [], Attachments.Initial);
    assert item.Formats() == [FileFormat(Some(url))] + [];
    assert Attachments.ScanItems(env, [item], 1, Attachments.ScanFormats(env, item.Formats(), 0, Attachments.Initial))
        == Attachments.ScanFormats(env, item.Formats(), 0, Attachments.Initial);
  }

  /** The reconciler on the four reference cases: nothing, a longer
      attachment, a shorter attachment, and a tie. */
  lemma ReconcileCases()
    ensures Reconcile("", "") == ("", false)
    ensures Reconcile("short", "much longer text") == ("much longer text", true)
    ensures Reconcile("long text here", "short") == ("long text here", false)
    ensures Reconcile("same", "size") == ("same", false)
  {
  }

  /** The file name never repeats for one docket when the timestamps differ,
      and the docket part carries no hyphen. */
  lemma FileNameDistinguishesRuns(docketId: string, t1: string, t2: string)
    ensures OutputFileName(docketId, t1) == OutputFileName(docketId, t2) ==> t1 == t2
    ensures '-' !in OutputFileName(docketId, t1)[..|RemoveHyphens(docketId)|]
  {
    var p := RemoveHyphens(docketId) + "_comments_";
    var n1, n2 := OutputFileName(docketId, t1), OutputFileName(docketId, t2);
    assert n1 == p + t1 + ".csv" && n2 == p + t2 + ".csv";
    if n1 == n2 {
      assert |t1| == |t2|;
      assert t1 == n1[|p|..|p| + |t1|];
      assert t2 == n2[|p|..|p| + |t2|];
    }
    assert n1[..|RemoveHyphens(docketId)|] == RemoveHyphens(docketId);
  }
}

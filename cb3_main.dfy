/** `main` of the index-based client: check the key list and the docket
    id, list the docket's documents, gather at most `max_comments` comments
    across them, and save one row per comment.

    The answers of the list endpoints and of the detail endpoint are inputs:
    `documentReplies[k]` answers page `k + 1` of the document list,
    `commentReplies(id)` the comment pages of document `id`, and
    `details(id)` is what `get_comment_details(id)` returned.
 */
module Cb3Main {
  import opened Payload
  import opened Paging
  import opened Rows
  import Attachments
  import Cb3Harvest

  /** How `main` ends. */
  function RunEnding(keyCount: nat, docketId: string, documentReplies: seq<Reply<Document>>,
                  commentReplies: string -> seq<Reply<CommentSummary>>,
                  details: string -> Option<Detail>, env: Attachments.Env,
                  timestamp: string, extractAttachments: bool): RunEnd
  {
    var documents := Harvest(documentReplies);
    var comments := Prefix(PagedComments(documents, commentReplies), Cb3Harvest.MaxComments);
    if keyCount == 0 then NoApiKeys
    else if docketId == "" then MissingDocketId
    else if documents == [] then NoDocuments
    else if comments == [] then NoComments
    else Saved(OutputFileName(docketId, timestamp),
               seq(|comments|, i requires 0 <= i < |comments| =>
                 BuildRow(env, comments[i], details(comments[i].id.GetOr("")), extractAttachments)))
  }

  /** `main()` of the index-based client with `keys` its `API_KEYS`. */
  method RunHarvest(keys: seq<string>, docketId: string, documentReplies: seq<Reply<Document>>,
               commentReplies: string -> seq<Reply<CommentSummary>>,
               details: string -> Option<Detail>, env: Attachments.Env,
               timestamp: string, extractAttachments: bool)
      returns (end: RunEnd)
    ensures end == RunEnding(|keys|, docketId, documentReplies, commentReplies, details, env,
                          timestamp, extractAttachments)
  {
    if |keys| == 0 {
      return NoApiKeys;
    }
    if docketId == "" {
      return MissingDocketId;
    }
    var documents, _ := CollectAll(documentReplies);
    if documents == [] {
      return NoDocuments;
    }
    var allComments := Cb3Harvest.CollectWithCap(documents, commentReplies, Cb3Harvest.MaxComments);
    if allComments == [] {
      return NoComments;
    }
    var filename, rows := SaveCommentsToCsv(env, allComments, details, docketId, timestamp, extractAttachments);
    end := Saved(filename, rows);
  }

  /** A run saves rows exactly when there is a key, a docket id, a document
      and a comment; it then writes at most `max_comments` rows, one per
      gathered comment in order, to the docket's file. */
  lemma RunSavesWhenFound(keyCount: nat, docketId: string, documentReplies: seq<Reply<Document>>,
                    commentReplies: string -> seq<Reply<CommentSummary>>,
                    details: string -> Option<Detail>, env: Attachments.Env,
                    timestamp: string, extractAttachments: bool)
    ensures var end := RunEnding(keyCount, docketId, documentReplies, commentReplies, details, env,
                               timestamp, extractAttachments);
      var all := PagedComments(Harvest(documentReplies), commentReplies);
      (end.Saved? <==> keyCount > 0 && docketId != "" && Harvest(documentReplies) != [] && all != [])
      && (end.Saved? ==>
            end.filename == OutputFileName(docketId, timestamp)
            && 0 < |end.rows| <= Cb3Harvest.MaxComments
            && |end.rows| == |Prefix(all, Cb3Harvest.MaxComments)|
            && forall i :: 0 <= i < |end.rows| ==> end.rows[i].id == all[i].id.GetOr(""))
  {
    var all := PagedComments(Harvest(documentReplies), commentReplies);
    PrefixShape(all, Cb3Harvest.MaxComments);
  }
}

/** `main` of the deque-based client: turn the key queue to a random
    starting key, check the docket id, list the docket's documents, gather
    every comment of every document, and save one row per comment.

    The random offset and the answers of the endpoints are inputs:
    `randomStart` is what `random.randint(0, len(API_KEYS) - 1)` drew,
    `documentReplies[k]` answers page `k + 1` of the document list,
    `commentReplies(id)` the comment pages of document `id`, and
    `details(id)` is what `get_comment_details(id)` returned.
 */
module NcbMain {
  import opened Payload
  import opened Paging
  import opened Rows
  import Attachments
  import NcbKeys

  /** The loop over the documents in `main`: the uncapped comments of every
      document with a truthy `objectId`, in document order. */
  method CollectDocketComments(documents: seq<Document>, commentReplies: string -> seq<Reply<CommentSummary>>)
      returns (allComments: seq<CommentSummary>)
    ensures allComments == PagedComments(documents, commentReplies)
  {
    allComments := [];
    for i := 0 to |documents|
      invariant allComments == PagedComments(documents[..i], commentReplies)
    {
      var doc := documents[i];
      assert documents[..i + 1][..i] == documents[..i] && documents[..i + 1][i] == doc;
      if Truthy(doc.objectId) {
        var documentComments, _ := CollectAll(commentReplies(doc.objectId.value));
        allComments := allComments + documentComments;
      } else {
        assert allComments + [] == allComments;
      }
    }
    assert documents[..|documents|] == documents;
  }

  /** How `main` ends once the key queue is turned. */
  function RunEnding(docketId: string, documentReplies: seq<Reply<Document>>,
                     commentReplies: string -> seq<Reply<CommentSummary>>,
                     details: string -> Option<Detail>, env: Attachments.Env,
                     timestamp: string, extractAttachments: bool): RunEnd
  {
    var documents := Harvest(documentReplies);
    var comments := PagedComments(documents, commentReplies);
    if docketId == "" then MissingDocketId
    else if documents == [] then NoDocuments
    else if comments == [] then NoComments
    else Saved(OutputFileName(docketId, timestamp),
               seq(|comments|, i requires 0 <= i < |comments| =>
                 BuildRow(env, comments[i], details(comments[i].id.GetOr("")), extractAttachments)))
  }

  /** `main()` of the deque-based client; `q` is the key queue as loaded. */
  method RunHarvest(q: NcbKeys.KeyQueue, randomStart: nat, docketId: string,
                    documentReplies: seq<Reply<Document>>,
                    commentReplies: string -> seq<Reply<CommentSummary>>,
                    details: string -> Option<Detail>, env: Attachments.Env,
                    timestamp: string, extractAttachments: bool)
      returns (end: RunEnd)
    requires q.Valid()
    modifies q
    ensures q.Valid() && q.queue == NcbKeys.Rotations(old(q.queue), randomStart)
    ensures old(q.queue) == q.keys && randomStart < |q.keys| ==> q.CurrentKey() == q.keys[randomStart]
    ensures end == RunEnding(docketId, documentReplies, commentReplies, details, env, timestamp, extractAttachments)
  {
    NcbKeys.RandomStart(q, randomStart);
    if randomStart < |q.keys| {
      NcbKeys.RandomStartKey(old(q.queue), randomStart);
    }
    if docketId == "" {
      return MissingDocketId;
    }
    var documents, _ := CollectAll(documentReplies);
    if documents == [] {
      return NoDocuments;
    }
    var allComments := CollectDocketComments(documents, commentReplies);
    if allComments == [] {
      return NoComments;
    }
    var filename, rows := SaveCommentsToCsv(env, allComments, details, docketId, timestamp, extractAttachments);
    end := Saved(filename, rows);
  }

  /** A run saves rows exactly when there is a docket id, a document and a
      comment; it then writes one row per gathered comment, in order, to
      the docket's file. */
  lemma RunSavesWhenFound(docketId: string, documentReplies: seq<Reply<Document>>,
                          commentReplies: string -> seq<Reply<CommentSummary>>,
                          details: string -> Option<Detail>, env: Attachments.Env,
                          timestamp: string, extractAttachments: bool)
    ensures var end := RunEnding(docketId, documentReplies, commentReplies, details, env,
                                 timestamp, extractAttachments);
      var all := PagedComments(Harvest(documentReplies), commentReplies);
      (end.Saved? <==> docketId != "" && Harvest(documentReplies) != [] && all != [])
      && (end.Saved? ==>
            end.filename == OutputFileName(docketId, timestamp)
            && |end.rows| == |all|
            && forall i :: 0 <= i < |end.rows| ==> end.rows[i].id == all[i].id.GetOr(""))
  {
  }
}

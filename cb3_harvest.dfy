/** The capped comment paginator of the index-based client and the running
    cap of its `main` across the documents of a docket.

    `get_comments_for_document(object_id, max_comments)` checks the cap
    before each page, truncates each batch to what the cap leaves, and
    stops once the cap is reached, at a failed request, or at the last page.
    `main` hands each document the comments still missing from its total of
    `max_comments` and stops once none are missing.
 */
module Cb3Harvest {
  import opened Payload
  import opened Paging

  /** `main`'s `max_comments`. */
  const MaxComments: int := 500

  /** A page that fills the cap contributes the cut of its data, whatever
      comes after it. */
  lemma FillFromPage<T>(acc: seq<T>, items: seq<T>, rest: seq<T>, m: int)
    requires |acc| < m <= |acc| + |items|
    ensures acc + Prefix(items, m - |acc|) == Prefix(acc + (items + rest), m)
  {
    PrefixAppend(acc, items + rest, m);
    PrefixOfLonger(items, items + rest, m - |acc|);
  }

  /** A full collection is its own cut, whatever comes after it. */
  lemma AlreadyFull<T>(acc: seq<T>, rest: seq<T>, m: int)
    requires (acc == [] || |acc| <= m) && |acc| >= m
    ensures acc == Prefix(acc + rest, m)
  {
    PrefixOfLonger(acc, acc + rest, m);
    PrefixShape(acc, m);
  }

  /** With a cap of `m`, the loop returns the first `m` comments of the
      uncapped one. */
  lemma {:induction false} PaginateCapped<T>(replies: seq<Reply<T>>, k: nat, m: int, acc: seq<T>)
    requires k <= |replies| && (acc == [] || |acc| <= m)
    ensures Paginate(replies, k, Some(m), acc).0 == Prefix(acc + Harvest(replies[k..]), m)
    decreases |replies| - k
  {
    HarvestStep(replies, k);
    var h := Harvest(replies[k..]);
    if |acc| >= m {
      AlreadyFull(acc, h, m);
    } else if k < |replies| && replies[k].Some? {
      var body := replies[k].value;
      var items := body.Items();
      var rest := if body.HasNext() then Harvest(replies[k + 1..]) else [];
      assert h == items + rest;
      PrefixShape(items, m - |acc|);
      if |acc| + |items| >= m {
        FillFromPage(acc, items, rest, m);
      } else {
        var acc' := acc + items;
        if body.HasNext() {
          PaginateCapped(replies, k + 1, m, acc');
        } else {
          PrefixShape(acc', m);
        }
        assert acc' + rest == acc + h;
      }
    } else {
      PrefixShape(acc, m);
      assert acc + h == acc;
    }
  }

  /** The capped loop never requests more pages than the uncapped one; with
      room for at least one comment it requests at least one page. */
  lemma {:induction false} PaginateCappedPages<T>(replies: seq<Reply<T>>, k: nat, m: int, acc: seq<T>)
    requires k <= |replies|
    ensures Paginate(replies, k, Some(m), acc).1 <= k + Requests(replies[k..])
    ensures |acc| < m ==> Paginate(replies, k, Some(m), acc).1 >= k + 1
    decreases |replies| - k
  {
    HarvestStep(replies, k);
    if |acc| < m && k < |replies| && replies[k].Some? {
      var body := replies[k].value;
      var acc' := acc + Prefix(body.Items(), m - |acc|);
      if |acc'| < m && body.HasNext() {
        PaginateCappedPages(replies, k + 1, m, acc');
      }
    }
  }

  /** From the first page on, the capped loop returns the first `m`
      comments of the uncapped one, so at most `m` of them. */
  lemma CappedIsPrefix<T>(replies: seq<Reply<T>>, m: int)
    ensures Paginate(replies, 0, Some(m), []).0 == Prefix(Harvest(replies), m)
    ensures |Paginate(replies, 0, Some(m), []).0| <= if m <= 0 then 0 else m
  {
    PaginateCapped(replies, 0, m, []);
    assert replies[0..] == replies && [] + Harvest(replies) == Harvest(replies);
    PrefixShape(Harvest(replies), m);
  }

  /** `get_comments_for_document(object_id, max_comments)` with the cap
      `main` always passes; `replies[k]` answers page `k + 1`. */
  method GetCommentsForDocument<T>(replies: seq<Reply<T>>, maxComments: int)
      returns (comments: seq<T>, pages: seq<nat>)
    ensures (comments, |pages|) == Paginate(replies, 0, Some(maxComments), [])
    ensures forall k :: 0 <= k < |pages| ==> pages[k] == k + 1
  {
    comments, pages := [], [];
    var page := 1;
    while true
      invariant 1 <= page <= |replies| + 1
      invariant |pages| == page - 1 && forall k :: 0 <= k < |pages| ==> pages[k] == k + 1
      invariant Paginate(replies, 0, Some(maxComments), []) == Paginate(replies, page - 1, Some(maxComments), comments)
      decreases |replies| - (page - 1)
    {
      if |comments| >= maxComments {
        break;
      }
      var response := ReplyAt(replies, page - 1);
      pages := pages + [page];
      if response.None? {
        break;
      }
      var data := response.value;
      var remaining := maxComments - |comments|;
      var batch := Prefix(data.Items(), remaining);
      comments := comments + batch;
      if |comments| >= maxComments {
        break;
      } else if !data.HasNext() {
        break;
      }
      page := page + 1;
    }
  }

  /** A cut that falls short of `m` is the whole sequence. */
  lemma PrefixShort<T>(s: seq<T>, m: int)
    requires |Prefix(s, m)| < m
    ensures Prefix(s, m) == s
  {
  }

  /** The gathering over one more document appends that document's comments. */
  lemma PagedCommentsStep<C>(documents: seq<Document>, i: nat, commentReplies: string -> seq<Reply<C>>)
    requires i < |documents|
    ensures var id := documents[i].objectId;
      PagedComments(documents[..i + 1], commentReplies)
        == PagedComments(documents[..i], commentReplies)
           + (if Truthy(id) then Harvest(commentReplies(id.value)) else [])
  {
    assert documents[..i + 1][..i] == documents[..i];
  }

  /** Once the cut of the first `i` documents' comments is full, the later
      documents change nothing. */
  lemma CapReached<C>(documents: seq<Document>, i: nat, commentReplies: string -> seq<Reply<C>>, m: int)
    requires i <= |documents|
    requires |Prefix(PagedComments(documents[..i], commentReplies), m)| >= m
    ensures Prefix(PagedComments(documents[..i], commentReplies), m)
      == Prefix(PagedComments(documents, commentReplies), m)
  {
    var short := PagedComments(documents[..i], commentReplies);
    PagedCommentsPrefix(documents, i, commentReplies);
    PrefixShape(short, m);
    PrefixOfLonger(short, PagedComments(documents, commentReplies), m);
  }

  /** The comments `main` gathers with a total cap of `maxComments`:
      `commentReplies(id)` answers the comment pages of document `id`. The
      result is the first `maxComments` comments the uncapped gathering
      would collect. */
  method CollectWithCap<C>(documents: seq<Document>, commentReplies: string -> seq<Reply<C>>, maxComments: int)
      returns (allComments: seq<C>)
    ensures allComments == Prefix(PagedComments(documents, commentReplies), maxComments)
    ensures |allComments| <= if maxComments <= 0 then 0 else maxComments
  {
    allComments := [];
    var remaining := maxComments;
    for i := 0 to |documents|
      invariant remaining == maxComments - |allComments|
      invariant allComments == Prefix(PagedComments(documents[..i], commentReplies), maxComments)
    {
      if remaining <= 0 {
        CapReached(documents, i, commentReplies, maxComments);
        break;
      }
      var doc := documents[i];
      ghost var before := PagedComments(documents[..i], commentReplies);
      PrefixShort(before, maxComments);
      PagedCommentsStep(documents, i, commentReplies);
      if Truthy(doc.objectId) {
        var replies := commentReplies(doc.objectId.value);
        var documentComments, _ := GetCommentsForDocument(replies, remaining);
        CappedIsPrefix(replies, remaining);
        PrefixAppend(before, Harvest(replies), maxComments);
        allComments := allComments + documentComments;
        remaining := maxComments - |allComments|;
        if remaining <= 0 {
          CapReached(documents, i + 1, commentReplies, maxComments);
          break;
        }
      } else {
        assert before + [] == before;
      }
    }
    PrefixShape(allComments, maxComments);
    assert documents[..|documents|] == documents;
  }
}

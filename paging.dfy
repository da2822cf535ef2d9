/** The page-number paginators `get_documents_for_docket` and
    `get_comments_for_document` (uncapped) and the per-document gathering of
    comments. Both clients request page 1, 2, ... of 250 items, append each
    page's `data`, and stop at the first request the fetcher gives up on or
    the first page whose `meta.hasNextPage` is not true.

    The answers to the successive page requests are an input: `replies[k]`
    answers page k + 1, `None` when `make_api_request` returned `None`.
    A request past the end of `replies` is read as `None`.
 */
module Paging {
  import opened Payload

  /** The answer to one page request. */
  type Reply<T> = Option<PageBody<T>>

  /** The answer to page `k + 1`. */
  function ReplyAt<T>(replies: seq<Reply<T>>, k: nat): Reply<T> {
    if k < |replies| then replies[k] else None
  }

  /** After this answer no further page is requested. */
  predicate Stops<T>(r: Reply<T>) {
    r.None? || !r.value.HasNext()
  }

  /** The uncapped paginator's result: the `data` of every page in order, up
      to the first failure (exclusive) or the last page (inclusive). */
  function Harvest<T>(replies: seq<Reply<T>>): seq<T>
    decreases |replies|
  {
    if replies == [] then []
    else match replies[0]
      case None => []
      case Some(body) => body.Items() + (if body.HasNext() then Harvest(replies[1..]) else [])
  }

  /** How many pages the uncapped paginator requests. */
  function Requests<T>(replies: seq<Reply<T>>): nat
    decreases |replies|
  {
    if replies == [] || Stops(replies[0]) then 1 else 1 + Requests(replies[1..])
  }

  /** The paginator requests pages up to and including the first answer
      that stops it, and no further: at least one page, at most one past the
      recorded answers. */
  lemma {:induction false} RequestsStopAtFirstStop<T>(replies: seq<Reply<T>>)
    ensures var n := Requests(replies);
      1 <= n <= |replies| + 1
      && (forall k :: 0 <= k < n - 1 ==> !Stops(ReplyAt(replies, k)))
      && Stops(ReplyAt(replies, n - 1))
    decreases |replies|
  {
    if replies != [] && !Stops(replies[0]) {
      RequestsStopAtFirstStop(replies[1..]);
      assert forall k :: 1 <= k < |replies| ==> ReplyAt(replies, k) == ReplyAt(replies[1..], k - 1);
    }
  }

  /** One step of the paginator: the answer to page `k + 1` and what is
      left to harvest after it. */
  lemma HarvestStep<T>(replies: seq<Reply<T>>, k: nat)
    requires k <= |replies|
    ensures var r, rest := ReplyAt(replies, k), replies[k..];
      (r.None? ==> Harvest(rest) == [] && Requests(rest) == 1)
      && (r.Some? && !r.value.HasNext() ==> Harvest(rest) == r.value.Items() && Requests(rest) == 1)
      && (r.Some? && r.value.HasNext() ==>
            Harvest(rest) == r.value.Items() + Harvest(replies[k + 1..])
            && Requests(rest) == 1 + Requests(replies[k + 1..]))
  {
    if k < |replies| {
      assert replies[k..][0] == replies[k] && replies[k..][1..] == replies[k + 1..];
    }
  }

  /** The first `m` elements of `s` (all of them when `m >= |s|`, none when
      `m <= 0`): Python's `s[:m]` for `m >= 0`. */
  function Prefix<T>(s: seq<T>, m: int): seq<T> {
    if m <= 0 then [] else if m >= |s| then s else s[..m]
  }

  /** A cut is a prefix of `m` elements, of all of them, or of none. */
  lemma PrefixShape<T>(s: seq<T>, m: int)
    ensures Prefix(s, m) <= s
    ensures m <= 0 ==> Prefix(s, m) == []
    ensures 0 <= m <= |s| ==> |Prefix(s, m)| == m
    ensures m >= |s| ==> Prefix(s, m) == s
  {
  }

  /** Cutting past a short head cuts the tail. */
  lemma PrefixAppend<T>(a: seq<T>, b: seq<T>, m: int)
    requires |a| < m
    ensures Prefix(a + b, m) == a + Prefix(b, m - |a|)
  {
    if m - |a| < |b| {
      assert (a + b)[..m] == a + b[..m - |a|];
    }
  }

  /** A cut no longer than a prefix is a cut of the prefix. */
  lemma PrefixOfLonger<T>(a: seq<T>, b: seq<T>, m: int)
    requires a <= b && m <= |a|
    ensures Prefix(a, m) == Prefix(b, m)
  {
    if m > 0 {
      assert a[..m] == b[..m];
    }
  }

  /** The paginator's loop from page `k + 1` on, with `acc` collected so far
      and `cap` the most it collects (`None`: no cap): everything it has
      collected when it stops, and the number of pages it has then
      requested. */
  function Paginate<T>(replies: seq<Reply<T>>, k: nat, cap: Option<int>, acc: seq<T>): (seq<T>, nat)
    decreases |replies| - k
  {
    if cap.Some? && |acc| >= cap.value then (acc, k)
    else match ReplyAt(replies, k)
      case None => (acc, k + 1)
      case Some(body) =>
        var batch := if cap.Some? then Prefix(body.Items(), cap.value - |acc|) else body.Items();
        var acc' := acc + batch;
        if (cap.Some? && |acc'| >= cap.value) || !body.HasNext() then (acc', k + 1)
        else Paginate(replies, k + 1, cap, acc')
  }

  /** Without a cap the loop collects every page's data up to the first
      failure or the last page, and requests exactly those pages. */
  lemma {:induction false} PaginateUncapped<T>(replies: seq<Reply<T>>, k: nat, acc: seq<T>)
    requires k <= |replies|
    ensures Paginate(replies, k, None, acc) == (acc + Harvest(replies[k..]), k + Requests(replies[k..]))
    decreases |replies| - k
  {
    HarvestStep(replies, k);
    if k < |replies| && replies[k].Some? {
      var items := replies[k].value.Items();
      if replies[k].value.HasNext() {
        PaginateUncapped(replies, k + 1, acc + items);
        assert acc + items + Harvest(replies[k + 1..]) == acc + (items + Harvest(replies[k + 1..]));
      }
    } else {
      assert acc + [] == acc;
    }
  }

  /** `get_documents_for_docket` and the uncapped `get_comments_for_document`:
      the collected items and the page numbers requested. */
  method CollectAll<T>(replies: seq<Reply<T>>) returns (items: seq<T>, pages: seq<nat>)
    ensures items == Harvest(replies)
    ensures |pages| == Requests(replies)
    ensures forall k :: 0 <= k < |pages| ==> pages[k] == k + 1
  {
    items, pages := [], [];
    var page := 1;
    while true
      invariant 1 <= page <= |replies| + 1
      invariant |pages| == page - 1 && forall k :: 0 <= k < |pages| ==> pages[k] == k + 1
      invariant Paginate(replies, 0, None, []) == Paginate(replies, page - 1, None, items)
      decreases |replies| - (page - 1)
    {
      var response := ReplyAt(replies, page - 1);
      pages := pages + [page];
      if response.None? {
        break;
      }
      var data := response.value;
      items := items + data.Items();
      if !data.HasNext() {
        break;
      }
      page := page + 1;
    }
    PaginateUncapped(replies, 0, []);
    assert replies[0..] == replies && [] + Harvest(replies) == Harvest(replies);
  }

  /** The requested pages answer a list that stops within them. */
  predicate StopsWithin<T>(replies: seq<Reply<T>>) {
    exists k :: 0 <= k < |replies| && Stops(replies[k])
  }

  /** Reading requests past the end of the answers as failures changes
      nothing for answers that stop by themselves: later answers are never
      looked at. */
  lemma {:induction false} HarvestIgnoresLaterReplies<T>(replies: seq<Reply<T>>, later: seq<Reply<T>>)
    requires StopsWithin(replies)
    ensures Harvest(replies + later) == Harvest(replies)
    ensures Requests(replies + later) == Requests(replies)
    decreases |replies|
  {
    var all := replies + later;
    assert all[0] == replies[0];
    if !Stops(replies[0]) {
      var k :| 0 <= k < |replies| && Stops(replies[k]);
      assert replies[1..][k - 1] == replies[k];
      assert all[1..] == replies[1..] + later;
      HarvestIgnoresLaterReplies(replies[1..], later);
    }
  }

  /** When every page succeeds and only the last reports no next page, the
      result is the concatenation of all pages' data and every page is
      requested once. */
  lemma {:induction false} HarvestFullList<T>(bodies: seq<PageBody<T>>)
    requires |bodies| > 0
    requires forall k :: 0 <= k < |bodies| - 1 ==> bodies[k].HasNext()
    requires !bodies[|bodies| - 1].HasNext()
    ensures var replies := seq(|bodies|, k requires 0 <= k < |bodies| => Some(bodies[k]));
      Harvest(replies) == Concat(bodies) && Requests(replies) == |bodies|
    decreases |bodies|
  {
    var replies := seq(|bodies|, k requires 0 <= k < |bodies| => Some(bodies[k]));
    if |bodies| > 1 {
      HarvestFullList(bodies[1..]);
      assert replies[1..] == seq(|bodies| - 1, k requires 0 <= k < |bodies| - 1 => Some(bodies[1..][k]));
    }
  }

  /** All pages' data, in order. */
  function Concat<T>(bodies: seq<PageBody<T>>): seq<T> {
    if bodies == [] then [] else bodies[0].Items() + Concat(bodies[1..])
  }

  /** Every comment of the listed documents in document order: each document
      whose `attributes.objectId` is truthy contributes its uncapped comment
      list; `commentReplies(id)` answers the comment pages of document `id`. */
  function PagedComments<C>(documents: seq<Document>, commentReplies: string -> seq<Reply<C>>): seq<C>
  {
    if documents == [] then []
    else
      var last := documents[|documents| - 1];
      PagedComments(documents[..|documents| - 1], commentReplies)
        + (if Truthy(last.objectId) then Harvest(commentReplies(last.objectId.value)) else [])
  }

  /** Gathering per document over a longer list extends the shorter result. */
  lemma {:induction false} PagedCommentsPrefix<C>(documents: seq<Document>, n: nat,
                                                  commentReplies: string -> seq<Reply<C>>)
    requires n <= |documents|
    ensures var short := PagedComments(documents[..n], commentReplies);
      |short| <= |PagedComments(documents, commentReplies)|
      && short == PagedComments(documents, commentReplies)[..|short|]
    decreases |documents| - n
  {
    if n < |documents| {
      PagedCommentsPrefix(documents, n + 1, commentReplies);
      assert documents[..n + 1][..n] == documents[..n];
    } else {
      assert documents[..n] == documents;
    }
  }
}

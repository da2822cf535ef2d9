/** The key rotator and rate-limited fetcher of the deque-based client:
    `API_KEY_QUEUE`, a deque over `API_KEYS` that `rotate_api_key` turns one
    place to the left, `CURRENT_API_KEY`, the cached front of the queue, and
    `make_api_request`, which allows `max_retries` attempts in all and
    rotates only on a 429. `get_comment_details` calls it up to three times.

    HTTP is an input: `net(n, key)` is what attempt number `n` (counted
    across the whole run) sends back when made with API key `key`.
 */
module NcbKeys {
  import opened Payload
  import opened Modular

  /** How many times `get_comment_details` calls `make_api_request`. */
  const DetailTries: nat := 3

  /** `s` turned `k` places to the left. */
  function RotL<E>(s: seq<E>, k: nat): seq<E>
    requires k <= |s|
  {
    s[k..] + s[..k]
  }

  /** `deque.rotate(-1)`: the front element moves to the back. */
  function Step<E>(q: seq<E>): (r: seq<E>)
    requires |q| > 0
    ensures |r| == |q|
  {
    q[1..] + [q[0]]
  }

  /** The queue after `t` calls of `rotate_api_key`. */
  function Rotations<E>(q: seq<E>, t: nat): (r: seq<E>)
    requires |q| > 0
    ensures |r| == |q|
  {
    if t == 0 then q else Step(Rotations(q, t - 1))
  }

  /** `API_KEY_QUEUE` and `CURRENT_API_KEY`; `shift` is how far the queue
      stands turned from `API_KEYS`. */
  class KeyQueue {
    const keys: seq<string>
    var queue: seq<string>
    var current: string
    ghost var shift: nat

    ghost predicate Valid()
      reads this
    {
      |keys| > 0 && shift < |keys| && queue == RotL(keys, shift) && current == queue[0]
    }

    /** The module state at load time: `deque(API_KEYS)` and its front. */
    constructor (keys: seq<string>)
      requires |keys| > 0
      ensures Valid() && this.keys == keys && queue == keys && current == keys[0] && shift == 0
    {
      this.keys := keys;
      queue := keys;
      current := keys[0];
      shift := 0;
      assert keys[0..] + keys[..0] == keys;
    }

    /** The `X-Api-Key` header `get_headers` sends: the key `shift` places
        into `API_KEYS`, which is the front of the queue. */
    function CurrentKey(): (key: string)
      reads this
      requires Valid()
      ensures key == keys[shift] && key == queue[0]
    {
      current
    }

    /** `rotate_api_key`: turn the queue and re-read its front. */
    method Rotate() returns (key: string)
      requires Valid()
      modifies this
      ensures Valid()
      ensures queue == Step(old(queue))
      ensures shift == if old(shift) + 1 < |keys| then old(shift) + 1 else 0
      ensures key == current
    {
      RotLStep(keys, shift);
      assert keys[0..] + keys[..0] == keys;
      queue := queue[1..] + [queue[0]];
      current := queue[0];
      shift := if shift + 1 < |keys| then shift + 1 else 0;
      key := current;
    }
  }

  /** Turning a rotation by one is the rotation by one place more, wrapping
      around to the unturned sequence after the last place. */
  lemma RotLStep<E>(s: seq<E>, k: nat)
    requires k < |s|
    ensures Step(RotL(s, k)) == if k + 1 < |s| then RotL(s, k + 1) else s
  {
    if k + 1 < |s| {
      assert Step(RotL(s, k)) == s[k + 1..] + s[..k + 1];
    } else {
      assert Step(RotL(s, k)) == s[..k] + [s[k]];
      assert s[..k] + [s[k]] == s;
    }
  }

  /** Fewer rotations than keys turn the queue that many places. */
  lemma {:induction false} RotationsAreRotL<E>(s: seq<E>, t: nat)
    requires t < |s|
    ensures Rotations(s, t) == RotL(s, t)
  {
    if t == 0 {
      assert s[0..] + s[..0] == s;
    } else {
      RotationsAreRotL(s, t - 1);
      RotLStep(s, t - 1);
    }
  }

  /** A rotation keeps the keys and their cyclic order: position `i` holds
      the key `k + i` places on, wrapping around. */
  lemma RotLIsRotation<E>(s: seq<E>, k: nat)
    requires k < |s|
    ensures |RotL(s, k)| == |s| && multiset(RotL(s, k)) == multiset(s)
    ensures forall i :: 0 <= i < |s| ==>
      RotL(s, k)[i] == if k + i < |s| then s[k + i] else s[k + i - |s|]
  {
    assert s == s[..k] + s[k..];
  }

  /** As many rotations as there are keys restore the queue. */
  lemma FullCycleRestores<E>(s: seq<E>)
    requires |s| > 0
    ensures Rotations(s, |s|) == s
  {
    var n := |s|;
    assert Rotations(s, n) == Step(Rotations(s, n - 1));
    RotationsAreRotL(s, n - 1);
    RotLStep(s, n - 1);
  }

  /** Rotations repeat with the number of keys as period. */
  lemma {:induction false} RotationsPeriodic<E>(s: seq<E>, t: nat)
    requires |s| > 0
    ensures Rotations(s, t + |s|) == Rotations(s, t)
  {
    if t == 0 {
      FullCycleRestores(s);
    } else {
      RotationsPeriodic(s, t - 1);
      assert Rotations(s, t + |s|) == Step(Rotations(s, t - 1 + |s|));
    }
  }

  /** `random_start` rotations, with `0 <= random_start < len(API_KEYS)`,
      leave `API_KEYS[random_start]` at the front. */
  lemma RandomStartKey<E>(s: seq<E>, r: nat)
    requires r < |s|
    ensures Rotations(s, r)[0] == s[r]
  {
    RotationsAreRotL(s, r);
  }

  /** `for _ in range(random_start): rotate_api_key()` */
  method RandomStart(q: KeyQueue, randomStart: nat)
    requires q.Valid()
    modifies q
    ensures q.Valid() && q.queue == Rotations(old(q.queue), randomStart)
  {
    for i := 0 to randomStart
      invariant q.Valid() && q.queue == Rotations(old(q.queue), i)
    {
      var _ := q.Rotate();
    }
  }

  // ----- make_api_request -----

  /** What one request did: the payload of the 200 response if any, the key
      each attempt sent, and the queue it left. */
  datatype FetchRun<T> = FetchRun(response: Option<T>, used: seq<string>, queue: seq<string>)

  /** The request from `retries` on, with `queue` the key queue and `used`
      the keys sent so far. */
  function Fetch<T>(net: (nat, string) -> Attempt<T>, start: nat, budget: nat, retries: nat,
                    queue: seq<string>, used: seq<string>): (r: FetchRun<T>)
    requires |queue| > 0
    ensures |r.queue| == |queue|
    decreases budget - retries
  {
    if retries >= budget then FetchRun(None, used, queue)
    else
      var o := net(start + retries, queue[0]);
      if IsOk(o) then FetchRun(Some(o.body), used + [queue[0]], queue)
      else Fetch(net, start, budget, retries + 1, if IsRateLimited(o) then Step(queue) else queue, used + [queue[0]])
  }

  /** The run of one `make_api_request` with the queue standing at `queue`. */
  function Request<T>(net: (nat, string) -> Attempt<T>, start: nat, maxRetries: nat,
                      queue: seq<string>): (r: FetchRun<T>)
    requires |queue| > 0
    ensures |r.queue| == |queue|
  {
    Fetch(net, start, maxRetries, 0, queue, [])
  }

  /** `make_api_request(url, params, max_retries)`; `start` numbers its
      first attempt in the run and `used` reports the key each attempt sent. */
  method MakeApiRequest<T>(q: KeyQueue, net: (nat, string) -> Attempt<T>, start: nat, maxRetries: nat)
      returns (response: Option<T>, used: seq<string>)
    requires q.Valid()
    modifies q
    ensures q.Valid()
    ensures Request(net, start, maxRetries, old(q.queue)) == FetchRun(response, used, q.queue)
  {
    var retries := 0;
    used := [];
    while retries < maxRetries
      invariant q.Valid() && retries <= maxRetries && |used| == retries
      invariant Request(net, start, maxRetries, old(q.queue)) == Fetch(net, start, maxRetries, retries, q.queue, used)
    {
      var key := q.CurrentKey();
      var o := net(start + retries, key);
      used := used + [key];
      if o.Answered? && o.status == 200 {
        return Some(o.body), used;
      } else if o.Answered? && o.status == 429 {
        var _ := q.Rotate();
        retries := retries + 1;
      } else if o.Answered? {
        retries := retries + 1;
      } else {
        retries := retries + 1;
      }
    }
    response := None;
  }

  // ----- Properties of a request -----

  /** How many of the first `k` attempts were answered with a 429. */
  function Limited<T>(net: (nat, string) -> Attempt<T>, start: nat, used: seq<string>, k: nat): nat
    requires k <= |used|
  {
    if k == 0 then 0
    else Limited(net, start, used, k - 1) + (if IsRateLimited(net(start + k - 1, used[k - 1])) then 1 else 0)
  }

  /** The count only looks at the attempts it counts. */
  lemma {:induction false} LimitedPrefix<T>(net: (nat, string) -> Attempt<T>, start: nat,
                                            a: seq<string>, b: seq<string>, k: nat)
    requires a <= b && k <= |a|
    ensures Limited(net, start, a, k) == Limited(net, start, b, k)
  {
    if k > 0 {
      LimitedPrefix(net, start, a, b, k - 1);
      assert a[k - 1] == b[k - 1];
    }
  }

  /** The general form of the budget properties, for a request part-way. */
  lemma {:induction false} FetchShape<T>(net: (nat, string) -> Attempt<T>, start: nat, budget: nat,
                                         retries: nat, queue: seq<string>, used: seq<string>)
    requires |queue| > 0 && |used| == retries <= budget
    ensures var r := Fetch(net, start, budget, retries, queue, used);
      used <= r.used && retries <= |r.used| <= budget
    ensures var r := Fetch(net, start, budget, retries, queue, used);
      forall k :: retries <= k < |r.used| - 1 ==> !IsOk(net(start + k, r.used[k]))
    ensures var r := Fetch(net, start, budget, retries, queue, used);
      r.response.Some? ==>
        retries < |r.used|
        && net(start + |r.used| - 1, r.used[|r.used| - 1]) == Answered(200, r.response.value)
    ensures var r := Fetch(net, start, budget, retries, queue, used);
      r.response.None? ==>
        |r.used| == budget && forall k :: retries <= k < |r.used| ==> !IsOk(net(start + k, r.used[k]))
    decreases budget - retries
  {
    if retries < budget {
      var o := net(start + retries, queue[0]);
      var t := used + [queue[0]];
      if !IsOk(o) {
        var next := if IsRateLimited(o) then Step(queue) else queue;
        FetchShape(net, start, budget, retries + 1, next, t);
        var r := Fetch(net, start, budget, retries + 1, next, t);
        assert t <= r.used;
        assert r.used[retries] == queue[0];
      }
    }
  }

  /** At most `max_retries` requests; a response only from a 200, which is
      the last attempt made, after failures only; `None` only once the whole
      budget is spent on failures. */
  lemma FetchBoundedAndOkOnly<T>(net: (nat, string) -> Attempt<T>, start: nat, maxRetries: nat,
                                 queue: seq<string>)
    requires |queue| > 0
    ensures var r := Request(net, start, maxRetries, queue);
      |r.used| <= maxRetries
      && forall k :: 0 <= k < |r.used| - 1 ==> !IsOk(net(start + k, r.used[k]))
    ensures var r := Request(net, start, maxRetries, queue);
      r.response.Some? ==>
        |r.used| > 0 && net(start + |r.used| - 1, r.used[|r.used| - 1]) == Answered(200, r.response.value)
    ensures var r := Request(net, start, maxRetries, queue);
      r.response.None? ==>
        |r.used| == maxRetries && forall k :: 0 <= k < |r.used| ==> !IsOk(net(start + k, r.used[k]))
  {
    FetchShape(net, start, maxRetries, 0, queue, []);
  }

  /** The rotation property of the attempts made so far, for a request
      that started with the queue at `q0`. */
  ghost predicate KeysSoFar<T>(net: (nat, string) -> Attempt<T>, start: nat, retries: nat,
                               queue: seq<string>, used: seq<string>, q0: seq<string>)
  {
    |q0| > 0 && |used| == retries
    && queue == Rotations(q0, Limited(net, start, used, retries))
    && forall k :: 0 <= k < retries ==> used[k] == Rotations(q0, Limited(net, start, used, k))[0]
  }

  /** Recording one more attempt adds its 429, if any, to the count and
      leaves the counts of earlier attempts alone. */
  lemma LimitedExtend<T>(net: (nat, string) -> Attempt<T>, start: nat, used: seq<string>, key: string)
    ensures forall k :: 0 <= k <= |used| ==> Limited(net, start, used + [key], k) == Limited(net, start, used, k)
  {
    var t := used + [key];
    forall k | 0 <= k <= |used| ensures Limited(net, start, t, k) == Limited(net, start, used, k) {
      LimitedPrefix(net, start, used, t, k);
    }
  }

  /** The count after one more attempt adds that attempt's 429, if any. */
  lemma LimitedLast<T>(net: (nat, string) -> Attempt<T>, start: nat, used: seq<string>, key: string)
    ensures Limited(net, start, used + [key], |used| + 1)
        == Limited(net, start, used, |used|) + (if IsRateLimited(net(start + |used|, key)) then 1 else 0)
  {
    var t := used + [key];
    LimitedPrefix(net, start, used, t, |used|);
    assert t[|used|] == key;
  }

  /** After one more attempt the queue has turned once per 429 so far. */
  lemma KeysStepQueue<T>(net: (nat, string) -> Attempt<T>, start: nat, retries: nat,
                         queue: seq<string>, used: seq<string>, q0: seq<string>)
    requires |q0| > 0 && |used| == retries && queue == Rotations(q0, Limited(net, start, used, retries))
    ensures var o := net(start + retries, queue[0]);
      (if IsRateLimited(o) then Step(queue) else queue)
        == Rotations(q0, Limited(net, start, used + [queue[0]], retries + 1))
  {
    LimitedLast(net, start, used, queue[0]);
    var l := Limited(net, start, used, retries);
    if IsRateLimited(net(start + retries, queue[0])) {
      assert Rotations(q0, l + 1) == Step(Rotations(q0, l));
    }
  }

  /** After one more attempt each attempt has sent the front key of the
      queue turned once per 429 before it. */
  lemma KeysStepUsed<T>(net: (nat, string) -> Attempt<T>, start: nat, retries: nat,
                        queue: seq<string>, used: seq<string>, q0: seq<string>)
    requires KeysSoFar(net, start, retries, queue, used, q0)
    ensures var t := used + [queue[0]];
      forall k :: 0 <= k < retries + 1 ==> t[k] == Rotations(q0, Limited(net, start, t, k))[0]
  {
    var t := used + [queue[0]];
    LimitedExtend(net, start, used, queue[0]);
    forall k | 0 <= k < retries + 1
      ensures t[k] == Rotations(q0, Limited(net, start, t, k))[0]
    {
      if k < retries {
        assert t[k] == used[k];
      } else {
        assert t[k] == queue[0];
      }
    }
  }

  /** One more attempt with the front key keeps the rotation property. */
  lemma KeysStep<T>(net: (nat, string) -> Attempt<T>, start: nat, retries: nat,
                    queue: seq<string>, used: seq<string>, q0: seq<string>)
    requires KeysSoFar(net, start, retries, queue, used, q0)
    ensures var o := net(start + retries, queue[0]);
      KeysSoFar(net, start, retries + 1, if IsRateLimited(o) then Step(queue) else queue, used + [queue[0]], q0)
  {
    KeysStepQueue(net, start, retries, queue, used, q0);
    KeysStepUsed(net, start, retries, queue, used, q0);
  }

  /** The general form of the rotation property, for a request part-way. */
  lemma {:induction false} FetchKeys<T>(net: (nat, string) -> Attempt<T>, start: nat, budget: nat,
                                        retries: nat, queue: seq<string>, used: seq<string>, q0: seq<string>)
    requires KeysSoFar(net, start, retries, queue, used, q0)
    ensures var r := Fetch(net, start, budget, retries, queue, used);
      KeysSoFar(net, start, |r.used|, r.queue, r.used, q0)
    decreases budget - retries
  {
    if retries < budget {
      var o := net(start + retries, queue[0]);
      var t := used + [queue[0]];
      var next := if IsRateLimited(o) then Step(queue) else queue;
      KeysStep(net, start, retries, queue, used, q0);
      if IsOk(o) {
        assert Fetch(net, start, budget, retries, queue, used) == FetchRun(Some(o.body), t, next);
      } else {
        assert Fetch(net, start, budget, retries, queue, used) == Fetch(net, start, budget, retries + 1, next, t);
        FetchKeys(net, start, budget, retries + 1, next, t, q0);
      }
    }
  }

  /** Only a 429 turns the queue: each attempt sends the key at the front of
      the queue turned once per 429 before it, and the request leaves the
      queue turned once per 429 it met. */
  lemma RotatesOnRateLimitOnly<T>(net: (nat, string) -> Attempt<T>, start: nat, maxRetries: nat,
                                  queue: seq<string>)
    requires |queue| > 0
    ensures var r := Request(net, start, maxRetries, queue);
      (forall k :: 0 <= k < |r.used| ==> r.used[k] == Rotations(queue, Limited(net, start, r.used, k))[0])
      && r.queue == Rotations(queue, Limited(net, start, r.used, |r.used|))
  {
    FetchKeys(net, start, maxRetries, 0, queue, [], queue);
    var r := Request(net, start, maxRetries, queue);
    assert KeysSoFar(net, start, |r.used|, r.queue, r.used, queue);
  }

  /** No 429 among the first `k` attempts: no rotation is counted. */
  lemma {:induction false} LimitedZero<T>(net: (nat, string) -> Attempt<T>, start: nat, used: seq<string>, k: nat)
    requires k <= |used|
    requires forall j :: 0 <= j < k ==> !IsRateLimited(net(start + j, used[j]))
    ensures Limited(net, start, used, k) == 0
  {
    if k > 0 {
      LimitedZero(net, start, used, k - 1);
    }
  }

  /** Other statuses and exceptions retry with the same key: a request that
      meets no 429 sends the active key every time and leaves the queue as
      it was. */
  lemma SameKeyWithoutRateLimit<T>(net: (nat, string) -> Attempt<T>, start: nat, maxRetries: nat,
                                   queue: seq<string>)
    requires |queue| > 0
    requires var r := Request(net, start, maxRetries, queue);
      forall k :: 0 <= k < |r.used| ==> !IsRateLimited(net(start + k, r.used[k]))
    ensures var r := Request(net, start, maxRetries, queue);
      (forall k :: 0 <= k < |r.used| ==> r.used[k] == queue[0]) && r.queue == queue
  {
    var r := Request(net, start, maxRetries, queue);
    RotatesOnRateLimitOnly(net, start, maxRetries, queue);
    forall k | 0 <= k <= |r.used| ensures Limited(net, start, r.used, k) == 0 {
      LimitedZero(net, start, r.used, k);
    }
  }

  // ----- get_comment_details -----

  /** What the detail fetch did: the payload, the key each HTTP attempt sent
      across its calls of `make_api_request`, and the queue it left. */
  datatype DetailsRun<T> = DetailsRun(details: Option<T>, used: seq<string>, queue: seq<string>)

  /** `tries` more calls of `make_api_request`, stopping at the first call
      that returns a response; `used` are the keys of the attempts made so
      far, the first of which was numbered `start`. */
  function Details<T>(net: (nat, string) -> Attempt<T>, start: nat, maxRetries: nat,
                      queue: seq<string>, tries: nat, used: seq<string>): (r: DetailsRun<T>)
    requires |queue| > 0
    ensures |r.queue| == |queue|
    decreases tries
  {
    if tries == 0 then DetailsRun(None, used, queue)
    else
      var call := Request(net, start + |used|, maxRetries, queue);
      if call.response.Some? then DetailsRun(call.response, used + call.used, call.queue)
      else Details(net, start, maxRetries, call.queue, tries - 1, used + call.used)
  }

  /** `get_comment_details(comment_id)` with `maxRetries` the budget of each
      `make_api_request` (the source passes none, so the default of 5
      applies); `used` reports the key each HTTP attempt sent. */
  method GetCommentDetails<T>(q: KeyQueue, net: (nat, string) -> Attempt<T>, start: nat, maxRetries: nat)
      returns (details: Option<T>, used: seq<string>)
    requires q.Valid()
    modifies q
    ensures q.Valid()
    ensures Details(net, start, maxRetries, old(q.queue), DetailTries, []) == DetailsRun(details, used, q.queue)
  {
    used := [];
    for attempt := 0 to DetailTries
      invariant q.Valid()
      invariant Details(net, start, maxRetries, old(q.queue), DetailTries, [])
             == Details(net, start, maxRetries, q.queue, DetailTries - attempt, used)
    {
      var response, callUsed := MakeApiRequest(q, net, start + |used|, maxRetries);
      used := used + callUsed;
      if response.Some? {
        return response, used;
      }
    }
    details := None;
  }

  /** At most `3 * max_retries` requests, every one before the last a
      failure; a payload only from a 200, which is the last attempt made, so
      it is the first success; `None` only once every call gave up, after
      `3 * max_retries` attempts that all failed. */
  lemma {:induction false} DetailsBounded<T>(net: (nat, string) -> Attempt<T>, start: nat, maxRetries: nat,
                                             queue: seq<string>, tries: nat, used: seq<string>)
    requires |queue| > 0
    ensures var r := Details(net, start, maxRetries, queue, tries, used);
      used <= r.used && |r.used| <= |used| + tries * maxRetries
    ensures var r := Details(net, start, maxRetries, queue, tries, used);
      forall k :: |used| <= k < |r.used| - 1 ==> !IsOk(net(start + k, r.used[k]))
    ensures var r := Details(net, start, maxRetries, queue, tries, used);
      r.details.None? ==>
        |r.used| == |used| + tries * maxRetries
        && forall k :: |used| <= k < |r.used| ==> !IsOk(net(start + k, r.used[k]))
    ensures var r := Details(net, start, maxRetries, queue, tries, used);
      r.details.Some? ==>
        |r.used| > |used| && net(start + |r.used| - 1, r.used[|r.used| - 1]) == Answered(200, r.details.value)
    decreases tries
  {
    if tries > 0 {
      var s0 := start + |used|;
      var call := Request(net, s0, maxRetries, queue);
      FetchBoundedAndOkOnly(net, s0, maxRetries, queue);
      var u := used + call.used;
      assert forall k :: 0 <= k < |call.used| ==> u[|used| + k] == call.used[k];
      if call.response.Some? {
        MulMono(1, tries, maxRetries);
        forall k | |used| <= k < |u| - 1 ensures !IsOk(net(start + k, u[k])) {
          assert u[k] == call.used[k - |used|];
        }
      } else {
        DetailsBounded(net, start, maxRetries, call.queue, tries - 1, u);
        assert tries * maxRetries == maxRetries + (tries - 1) * maxRetries;
        var r := Details(net, start, maxRetries, call.queue, tries - 1, u);
        forall k | |used| <= k < |u| ensures !IsOk(net(start + k, r.used[k])) {
          assert r.used[k] == u[k] == call.used[k - |used|];
        }
      }
    }
  }

  /** A call that returns a response ends the detail fetch with it: no
      further call is made, so the fetch is exactly that one call. */
  lemma FirstSuccessWins<T>(net: (nat, string) -> Attempt<T>, start: nat, maxRetries: nat,
                            queue: seq<string>, tries: nat)
    requires |queue| > 0 && tries > 0
    requires Request(net, start, maxRetries, queue).response.Some?
    ensures var c := Request(net, start, maxRetries, queue);
      Details(net, start, maxRetries, queue, tries, []) == DetailsRun(c.response, c.used, c.queue)
      && |c.used| <= maxRetries
  {
    FetchBoundedAndOkOnly(net, start, maxRetries, queue);
    var c := Request(net, start, maxRetries, queue);
    assert [] + c.used == c.used;
  }
}

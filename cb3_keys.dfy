/** The key rotator and rate-limited fetcher of the index-based client:
    the global `current_key_index` into `API_KEYS`, advanced modulo the
    number of keys, and `make_api_request`, which allows `max_retries`
    attempts per key and rotates on a 429, on another status unless the
    attempt closes a cycle through the keys, and on an exception only when
    it does.

    HTTP is an input: `net(n, key)` is what attempt number `n` (counted
    across the whole run) sends back when made with API key `key`.
 */
module Cb3Keys {
  import opened Payload
  import opened Modular

  /** `make_api_request`'s default `max_retries`. */
  const DefaultMaxRetries: nat := 3

  /** `API_KEYS` and the global `current_key_index`. */
  class KeyRing {
    const keys: seq<string>
    var index: nat

    ghost predicate Valid()
      reads this
    {
      |keys| > 0 && index < |keys|
    }

    /** The module state at load time: the first key is active. */
    constructor (keys: seq<string>)
      requires |keys| > 0
      ensures Valid() && this.keys == keys && index == 0
    {
      this.keys := keys;
      index := 0;
    }

    /** The `X-Api-Key` header `get_headers` sends. */
    function CurrentKey(): (key: string)
      reads this
      requires Valid()
      ensures key in keys
    {
      keys[index]
    }

    /** `rotate_api_key`: advance cyclically and return the new key. */
    method Rotate() returns (key: string)
      requires Valid()
      modifies this
      ensures Valid()
      ensures index == (old(index) + 1) % |keys|
      ensures key == keys[index]
    {
      index := (index + 1) % |keys|;
      key := keys[index];
    }
  }

  /** The index after `k` calls of `rotate_api_key` from index `i`. */
  function Rotated(i: nat, k: nat, n: nat): nat
    requires n > 0
  {
    if k == 0 then i else (Rotated(i, k - 1, n) + 1) % n
  }

  /** `k` rotations move the index `k` places modulo the number of keys. */
  lemma RotatedIsShift(i: nat, k: nat, n: nat)
    requires i < n
    ensures Rotated(i, k, n) == (i + k) % n
  {
    var q := RotatedWraps(i, k, n);
    ModUnique(i + k, n, q, Rotated(i, k, n));
  }

  /** After `k` rotations from `i` the index has wrapped around `q` times. */
  lemma {:induction false} RotatedWraps(i: nat, k: nat, n: nat) returns (q: nat)
    requires i < n
    ensures Rotated(i, k, n) < n && i + k == q * n + Rotated(i, k, n)
  {
    if k == 0 {
      q := 0;
    } else {
      var q0 := RotatedWraps(i, k - 1, n);
      var p := Rotated(i, k - 1, n);
      assert Rotated(i, k, n) == (p + 1) % n;
      if p + 1 < n {
        ModUnique(p + 1, n, 0, p + 1);
        q := q0;
      } else {
        ModUnique(p + 1, n, 1, 0);
        q := q0 + 1;
        assert q * n == q0 * n + n;
      }
    }
  }

  /** A full cycle of rotations restores the active key, and the index never
      leaves the key list. */
  lemma FullCycleRestores(i: nat, n: nat)
    requires i < n
    ensures Rotated(i, n, n) == i
    ensures forall k :: Rotated(i, k, n) < n
  {
    RotatedIsShift(i, n, n);
    MultipleMod(i, 1, n);
    forall k ensures Rotated(i, k, n) < n {
      RotatedIsShift(i, k, n);
    }
  }

  // ----- make_api_request -----

  /** The key index after a failed attempt number `attempt` (counted from 0
      within one request) that ended with outcome `o`. */
  function NextIndex<T>(o: Attempt<T>, attempt: nat, idx: nat, n: nat): nat
    requires n > 0
  {
    var closesCycle := (attempt + 1) % n == 0;
    match o
    case Raised => if closesCycle then (idx + 1) % n else idx
    case Answered(status, _) =>
      if status == 429 then (idx + 1) % n
      else if closesCycle then idx
      else (idx + 1) % n
  }

  /** What one request did: the payload of the 200 response if any, the key
      index each attempt used, and the key index left active. */
  datatype FetchRun<T> = FetchRun(response: Option<T>, tried: seq<nat>, keyIndex: nat)

  /** The request from attempt `attempt` on, with index `idx` active and
      `tried` the indices used so far. */
  function Fetch<T>(net: (nat, string) -> Attempt<T>, keys: seq<string>, start: nat,
                    budget: nat, attempt: nat, idx: nat, tried: seq<nat>): FetchRun<T>
    requires |keys| > 0 && idx < |keys|
    decreases budget - attempt
  {
    if attempt >= budget then FetchRun(None, tried, idx)
    else
      var o := net(start + attempt, keys[idx]);
      if IsOk(o) then FetchRun(Some(o.body), tried + [idx], idx)
      else Fetch(net, keys, start, budget, attempt + 1, NextIndex(o, attempt, idx, |keys|), tried + [idx])
  }

  /** `make_api_request(url, params, max_retries)`; `start` numbers its
      first attempt in the run and `tried` reports the key index of each
      attempt made. */
  method MakeApiRequest<T>(ring: KeyRing, net: (nat, string) -> Attempt<T>, start: nat, maxRetries: nat)
      returns (response: Option<T>, tried: seq<nat>)
    requires ring.Valid()
    modifies ring
    ensures ring.Valid()
    ensures Request(net, ring.keys, start, maxRetries, old(ring.index))
         == FetchRun(response, tried, ring.index)
  {
    var n := |ring.keys|;
    tried := [];
    for attempt := 0 to maxRetries * n
      invariant ring.Valid() && |tried| == attempt
      invariant Fetch(net, ring.keys, start, maxRetries * n, 0, old(ring.index), [])
             == Fetch(net, ring.keys, start, maxRetries * n, attempt, ring.index, tried)
    {
      var key := ring.CurrentKey();
      var o := net(start + attempt, key);
      tried := tried + [ring.index];
      if o.Answered? && o.status == 200 {
        return Some(o.body), tried;
      } else if o.Answered? && o.status == 429 {
        var _ := ring.Rotate();
      } else if o.Answered? {
        if (attempt + 1) % n == 0 {
          // every key was tried for this request: wait instead of rotating
        } else {
          var _ := ring.Rotate();
        }
      } else {
        if (attempt + 1) % n == 0 {
          var _ := ring.Rotate();
        }
      }
    }
    response := None;
  }

  /** `get_comment_details(comment_id)`: a single `make_api_request` with
      the default `max_retries`; its response is the detail payload, `None`
      when it gave up. */
  method GetCommentDetails<T>(ring: KeyRing, net: (nat, string) -> Attempt<T>, start: nat)
      returns (details: Option<T>, tried: seq<nat>)
    requires ring.Valid()
    modifies ring
    ensures ring.Valid()
    ensures Request(net, ring.keys, start, DefaultMaxRetries, old(ring.index)) == FetchRun(details, tried, ring.index)
  {
    var response;
    response, tried := MakeApiRequest(ring, net, start, DefaultMaxRetries);
    if response.None? {
      return None, tried;
    }
    details := response;
  }

  // ----- Properties of a request -----

  /** What attempt `k` of a run that used key indices `tried` got back. */
  function Outcome<T>(net: (nat, string) -> Attempt<T>, keys: seq<string>, start: nat,
                      tried: seq<nat>, k: nat): Attempt<T>
    requires k < |tried| && tried[k] < |keys|
  {
    net(start + k, keys[tried[k]])
  }

  /** Attempt `k` failed and attempt `k + 1` used the index the rotation
      rules give. */
  predicate Hop<T>(net: (nat, string) -> Attempt<T>, keys: seq<string>, start: nat,
                   tried: seq<nat>, k: nat)
  {
    |keys| > 0 && k + 1 < |tried| && tried[k] < |keys|
    && !IsOk(Outcome(net, keys, start, tried, k))
    && tried[k + 1] == NextIndex(Outcome(net, keys, start, tried, k), k, tried[k], |keys|)
  }

  /** The general form of the properties below, for a request part-way. */
  lemma {:induction false} FetchFrom<T>(net: (nat, string) -> Attempt<T>, keys: seq<string>, start: nat,
                                        budget: nat, attempt: nat, idx: nat, tried: seq<nat>)
    requires |keys| > 0 && idx < |keys| && |tried| == attempt <= budget
    ensures var r := Fetch(net, keys, start, budget, attempt, idx, tried);
      tried <= r.tried && attempt <= |r.tried| <= budget && r.keyIndex < |keys|
    ensures var r := Fetch(net, keys, start, budget, attempt, idx, tried);
      (forall k :: attempt <= k < |r.tried| ==> r.tried[k] < |keys|)
      && (attempt < |r.tried| ==> r.tried[attempt] == idx)
    ensures var r := Fetch(net, keys, start, budget, attempt, idx, tried);
      forall k :: attempt <= k < |r.tried| - 1 ==> Hop(net, keys, start, r.tried, k)
    ensures var r := Fetch(net, keys, start, budget, attempt, idx, tried);
      r.response.None? ==>
        |r.tried| == budget
        && (attempt < |r.tried| ==>
              var last := |r.tried| - 1;
              r.tried[last] < |keys| && !IsOk(Outcome(net, keys, start, r.tried, last))
              && r.keyIndex == NextIndex(Outcome(net, keys, start, r.tried, last), last, r.tried[last], |keys|))
    ensures var r := Fetch(net, keys, start, budget, attempt, idx, tried);
      r.response.Some? ==>
        attempt < |r.tried|
        && var last := |r.tried| - 1;
        r.tried[last] < |keys| && r.keyIndex == r.tried[last]
        && Outcome(net, keys, start, r.tried, last) == Answered(200, r.response.value)
    decreases budget - attempt
  {
    if attempt < budget {
      var o := net(start + attempt, keys[idx]);
      var t := tried + [idx];
      assert t[attempt] == idx;
      if !IsOk(o) {
        var next := NextIndex(o, attempt, idx, |keys|);
        FetchFrom(net, keys, start, budget, attempt + 1, next, t);
        var r := Fetch(net, keys, start, budget, attempt + 1, next, t);
        assert t <= r.tried;
        assert r.tried[attempt] == idx;
        if attempt + 1 < |r.tried| {
          assert Hop(net, keys, start, r.tried, attempt);
        }
      }
    }
  }

  /** The run of one `make_api_request` with index `idx` active. */
  function Request<T>(net: (nat, string) -> Attempt<T>, keys: seq<string>, start: nat,
                      maxRetries: nat, idx: nat): FetchRun<T>
    requires |keys| > 0 && idx < |keys|
  {
    Fetch(net, keys, start, maxRetries * |keys|, 0, idx, [])
  }

  /** At most `max_retries * len(API_KEYS)` attempts, each with a key of the
      list; a response only from a 200, which is the last attempt made, after
      failures only; `None` only once the whole budget is spent on failures. */
  lemma FetchBoundedAndOkOnly<T>(net: (nat, string) -> Attempt<T>, keys: seq<string>, start: nat,
                                 maxRetries: nat, idx: nat)
    requires |keys| > 0 && idx < |keys|
    ensures var r := Request(net, keys, start, maxRetries, idx);
      |r.tried| <= maxRetries * |keys| && forall k :: 0 <= k < |r.tried| ==> r.tried[k] < |keys|
    ensures var r := Request(net, keys, start, maxRetries, idx);
      forall k :: 0 <= k < |r.tried| - 1 ==>
        r.tried[k] < |keys| && !IsOk(Outcome(net, keys, start, r.tried, k))
    ensures var r := Request(net, keys, start, maxRetries, idx);
      r.response.Some? ==>
        |r.tried| > 0 && r.tried[|r.tried| - 1] < |keys|
        && Outcome(net, keys, start, r.tried, |r.tried| - 1) == Answered(200, r.response.value)
    ensures var r := Request(net, keys, start, maxRetries, idx);
      r.response.None? ==>
        |r.tried| == maxRetries * |keys|
        && forall k :: 0 <= k < |r.tried| ==>
             r.tried[k] < |keys| && !IsOk(Outcome(net, keys, start, r.tried, k))
  {
    FetchFrom(net, keys, start, maxRetries * |keys|, 0, idx, []);
    var r := Request(net, keys, start, maxRetries, idx);
    forall k | 0 <= k < |r.tried| - 1
      ensures r.tried[k] < |keys| && !IsOk(Outcome(net, keys, start, r.tried, k))
    {
      assert Hop(net, keys, start, r.tried, k);
    }
  }

  /** The rotation rules, attempt by attempt: the first attempt uses the
      active key; after a failed attempt a 429 always rotates, another status
      rotates unless the attempt closes a cycle through the keys (then the
      client waits instead), and an exception rotates only when it does. */
  lemma FetchRotation<T>(net: (nat, string) -> Attempt<T>, keys: seq<string>, start: nat,
                         maxRetries: nat, idx: nat)
    requires |keys| > 0 && idx < |keys|
    ensures var r := Request(net, keys, start, maxRetries, idx);
      (|r.tried| > 0 ==> r.tried[0] == idx)
      && forall k :: 0 <= k < |r.tried| - 1 ==>
           r.tried[k] < |keys|
           && var o, n, i := Outcome(net, keys, start, r.tried, k), |keys|, r.tried[k];
           r.tried[k + 1] == (if IsRateLimited(o) then (i + 1) % n
                              else if o.Raised? then (if (k + 1) % n == 0 then (i + 1) % n else i)
                              else if (k + 1) % n == 0 then i
                              else (i + 1) % n)
  {
    FetchFrom(net, keys, start, maxRetries * |keys|, 0, idx, []);
    var r := Request(net, keys, start, maxRetries, idx);
    forall k | 0 <= k < |r.tried| - 1
      ensures r.tried[k] < |keys| && r.tried[k + 1] == NextIndex(Outcome(net, keys, start, r.tried, k), k, r.tried[k], |keys|)
    {
      assert Hop(net, keys, start, r.tried, k);
    }
  }

  /** Under rate limiting on every key the request walks through the keys
      in order, gives every key `max_retries` chances, fails, and leaves the
      starting key active again. */
  lemma RateLimitedEverywhere<T>(net: (nat, string) -> Attempt<T>, keys: seq<string>, start: nat,
                                 maxRetries: nat, idx: nat)
    requires |keys| > 0 && idx < |keys|
    requires forall n: nat, key: string :: IsRateLimited(net(n, key))
    ensures var r := Request(net, keys, start, maxRetries, idx);
      r.response.None? && |r.tried| == maxRetries * |keys| && r.keyIndex == idx
    ensures var r := Request(net, keys, start, maxRetries, idx);
      forall k :: 0 <= k < |r.tried| ==> r.tried[k] == (idx + k) % |keys|
    ensures var r := Request(net, keys, start, maxRetries, idx);
      maxRetries > 0 ==> forall j :: 0 <= j < |keys| ==> j in r.tried
  {
    var n := |keys|;
    var r := Request(net, keys, start, maxRetries, idx);
    RateLimitedTrail(net, keys, start, maxRetries, idx);
    var m := |r.tried|;
    if maxRetries > 0 {
      MulMono(1, maxRetries, n);
      CoversAll(r.tried, idx, n);
    }
    if m > 0 {
      ModStep(idx + m - 1, n);
      MultipleMod(idx, maxRetries, n);
    }
  }

  /** Under rate limiting on every key each attempt fails, uses the key
      after the previous one, and the key after the last attempt's stays
      active. */
  lemma RateLimitedTrail<T>(net: (nat, string) -> Attempt<T>, keys: seq<string>, start: nat,
                            maxRetries: nat, idx: nat)
    requires |keys| > 0 && idx < |keys|
    requires forall n: nat, key: string :: IsRateLimited(net(n, key))
    ensures var r := Request(net, keys, start, maxRetries, idx);
      r.response.None? && |r.tried| == maxRetries * |keys|
      && (|r.tried| == 0 ==> r.keyIndex == idx)
      && (|r.tried| > 0 ==> r.keyIndex == (r.tried[|r.tried| - 1] + 1) % |keys|)
    ensures var r := Request(net, keys, start, maxRetries, idx);
      forall k :: 0 <= k < |r.tried| ==> r.tried[k] == (idx + k) % |keys|
  {
    var n := |keys|;
    var r := Request(net, keys, start, maxRetries, idx);
    FetchFrom(net, keys, start, maxRetries * n, 0, idx, []);
    var m := |r.tried|;
    if m > 0 {
      assert IsRateLimited(Outcome(net, keys, start, r.tried, m - 1));
    }
    forall k | 0 <= k < m - 1 ensures r.tried[k + 1] == (r.tried[k] + 1) % n {
      assert Hop(net, keys, start, r.tried, k);
      assert IsRateLimited(Outcome(net, keys, start, r.tried, k));
    }
    forall k | 0 <= k < m ensures r.tried[k] == (idx + k) % n {
      ShiftByOne(r.tried, idx, n, k);
    }
  }

  /** Indices that count up from `idx` modulo `n` for at least `n` steps
      take every value below `n`. */
  lemma CoversAll(tried: seq<nat>, idx: nat, n: nat)
    requires n > 0 && idx < n && |tried| >= n
    requires forall k :: 0 <= k < |tried| ==> tried[k] == (idx + k) % n
    ensures forall j :: 0 <= j < n ==> j in tried
  {
    forall j | 0 <= j < n ensures j in tried {
      var k: nat := if j >= idx then j - idx else j + n - idx;
      ModUnique(idx + k, n, if j >= idx then 0 else 1, j);
      assert tried[k] == j;
    }
  }

  /** An index sequence that starts at `idx` and steps by one modulo `n`. */
  lemma {:induction false} ShiftByOne(tried: seq<nat>, idx: nat, n: nat, k: nat)
    requires n > 0 && idx < n && k < |tried|
    requires tried[0] == idx
    requires forall j :: 0 <= j < |tried| - 1 ==> tried[j + 1] == (tried[j] + 1) % n
    ensures tried[k] == (idx + k) % n
  {
    if k > 0 {
      ShiftByOne(tried, idx, n, k - 1);
      ModStep(idx + k - 1, n);
    } else {
      ModUnique(idx, n, 0, idx);
    }
  }
}

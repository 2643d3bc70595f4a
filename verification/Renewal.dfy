/** Sliding renewal: a sequence of `update_ttl` calls on one session, each run without
    interference, compared with renewing on every request. */
module Renewal {
  import opened Wrappers
  import opened Clock
  import opened SessionState
  import opened Expiry
  import opened Store

  /** One request's `update_ttl`, with the environment of each of its steps. */
  datatype Request = Request(lookup: Env, judge: Env, price: Env, touch: Env)

  predicate InOrder(r: Request) {
    r.lookup.now <= r.judge.now <= r.price.now <= r.touch.now && !r.lookup.Fails() && !r.touch.Fails()
  }

  function Serve(p: Policy, rows: Rows, key: Key, ttl: int, r: Request): Rows {
    Alone(p, rows, RenewGet(key, ttl), r.lookup, r.judge, r.price, r.touch).0
  }

  /** The request finds the row live to its last step, authenticated, and with a price. */
  predicate FindsLive(p: Policy, rows: Rows, key: Key, ttl: int, r: Request) {
    InOrder(r) && key in rows && rows[key].expiresAt > r.touch.now &&
    rows[key].state.Some? && Sub in rows[key].state.value &&
    EffectiveExpiry(p, rows[key].state.value, ttl, r.price.now).Some?
  }

  function Extended(window: Nanos, was: Nanos, candidate: Nanos): Nanos {
    if candidate <= was || candidate - was < window then was else candidate
  }

  /** What a request does to a live row: nothing but, at most, move its expiry. */
  lemma ServeLive(p: Policy, rows: Rows, key: Key, ttl: int, r: Request)
    requires FindsLive(p, rows, key, ttl, r)
    ensures var row := rows[key];
            var candidate := EffectiveExpiry(p, row.state.value, ttl, r.price.now).value;
            Serve(p, rows, key, ttl, r) == rows[key := Row(row.state, Extended(Coalesce(p), row.expiresAt, candidate))]
  {
    var row := rows[key];
    var state := row.state.value;
    assert Lookup(rows, key, r.lookup) == Some(row);
    assert JudgeRenewal(key, row, ttl, r.judge.now) == RenewPrice(key, state, row.expiresAt, ttl);
    assert rows[key := row] == rows;
  }

  function ServeAll(p: Policy, rows: Rows, key: Key, ttl: int, rs: seq<Request>): Rows
    decreases |rs|
  {
    if rs == [] then rows else ServeAll(p, Serve(p, rows, key, ttl, rs[0]), key, ttl, rs[1..])
  }

  /** How many of the requests move the expiry. */
  function TouchCount(p: Policy, rows: Rows, key: Key, ttl: int, rs: seq<Request>): nat
    decreases |rs|
  {
    if rs == [] then 0
    else
      var rows' := Serve(p, rows, key, ttl, rs[0]);
      (if rows' == rows then 0 else 1) + TouchCount(p, rows', key, ttl, rs[1..])
  }

  predicate AllFindLive(p: Policy, rows: Rows, key: Key, ttl: int, rs: seq<Request>)
    decreases |rs|
  {
    rs == [] ||
    (FindsLive(p, rows, key, ttl, rs[0]) && AllFindLive(p, Serve(p, rows, key, ttl, rs[0]), key, ttl, rs[1..]))
  }

  /** The coalesced expiry follows the uncoalesced one from below, by less than the window. */
  predicate Lags(window: Nanos, coalesced: Nanos, uncoalesced: Nanos) {
    coalesced <= uncoalesced && if window == 0 then coalesced == uncoalesced else uncoalesced - coalesced < window
  }

  lemma LagsStep(window: Nanos, coalesced: Nanos, uncoalesced: Nanos, candidate: Nanos)
    requires 0 <= window && Lags(window, coalesced, uncoalesced)
    ensures Lags(window, Extended(window, coalesced, candidate), Extended(0, uncoalesced, candidate))
  {
  }

  function EveryRequest(p: Policy): Policy {
    p.(coalesceSecs := 0)
  }

  lemma LagsServe(p: Policy, rows: Rows, rows0: Rows, key: Key, ttl: int, r: Request)
    requires FindsLive(p, rows, key, ttl, r)
    requires key in rows0 && rows0[key].state == rows[key].state
    requires Lags(Coalesce(p), rows[key].expiresAt, rows0[key].expiresAt)
    ensures var (after, after0) := (Serve(p, rows, key, ttl, r), Serve(EveryRequest(p), rows0, key, ttl, r));
            key in after && key in after0 && after[key].state == after0[key].state == rows[key].state &&
            Lags(Coalesce(p), after[key].expiresAt, after0[key].expiresAt)
  {
    var candidate := EffectiveExpiry(p, rows[key].state.value, ttl, r.price.now).value;
    ServeLive(p, rows, key, ttl, r);
    ServeLive(EveryRequest(p), rows0, key, ttl, r);
    LagsStep(Coalesce(p), rows[key].expiresAt, rows0[key].expiresAt, candidate);
  }

  lemma {:induction false} LagsAlways(p: Policy, rows: Rows, rows0: Rows, key: Key, ttl: int, rs: seq<Request>)
    requires AllFindLive(p, rows, key, ttl, rs)
    requires key in rows && key in rows0 && rows0[key].state == rows[key].state
    requires Lags(Coalesce(p), rows[key].expiresAt, rows0[key].expiresAt)
    ensures var (after, after0) := (ServeAll(p, rows, key, ttl, rs), ServeAll(EveryRequest(p), rows0, key, ttl, rs));
            key in after && key in after0 && after[key].state == after0[key].state == rows[key].state &&
            Lags(Coalesce(p), after[key].expiresAt, after0[key].expiresAt)
    decreases |rs|
  {
    if rs != [] {
      LagsServe(p, rows, rows0, key, ttl, rs[0]);
      LagsAlways(p, Serve(p, rows, key, ttl, rs[0]), Serve(EveryRequest(p), rows0, key, ttl, rs[0]), key, ttl, rs[1..]);
    }
  }

  /** Coalescing refines writing on every request: over any sequence of renewals of a live
      session the coalesced expiry never exceeds the other and lags it by less than the
      window, and with no window the two are equal. */
  lemma CoalescingRefines(p: Policy, rows: Rows, key: Key, ttl: int, rs: seq<Request>)
    requires key in rows && AllFindLive(p, rows, key, ttl, rs)
    ensures var (after, after0) := (ServeAll(p, rows, key, ttl, rs), ServeAll(EveryRequest(p), rows, key, ttl, rs));
            key in after && key in after0 && after[key].state == after0[key].state == rows[key].state &&
            after[key].expiresAt <= after0[key].expiresAt &&
            (p.coalesceSecs == 0 ==> after[key].expiresAt == after0[key].expiresAt) &&
            (p.coalesceSecs > 0 ==> after0[key].expiresAt - after[key].expiresAt < Coalesce(p))
  {
    LagsAlways(p, rows, rows, key, ttl, rs);
  }

  // ---- How many writes -----------------------------------------------------------

  lemma Telescopes(count: nat, window: Nanos, was: Nanos, mid: Nanos, end: Nanos)
    requires count * window <= end - mid && window <= mid - was
    ensures (1 + count) * window <= end - was
  {
  }

  lemma {:induction false} TouchesAdvance(p: Policy, rows: Rows, key: Key, ttl: int, rs: seq<Request>)
    requires key in rows && rows[key].state.Some? && Deadline(p, rows[key].state.value).Some?
    requires AllFindLive(p, rows, key, ttl, rs)
    ensures var after := ServeAll(p, rows, key, ttl, rs);
            var deadline := Deadline(p, rows[key].state.value).value;
            key in after && after[key].state == rows[key].state &&
            TouchCount(p, rows, key, ttl, rs) * Coalesce(p) <= after[key].expiresAt - rows[key].expiresAt &&
            rows[key].expiresAt <= after[key].expiresAt <= Max(rows[key].expiresAt, deadline)
    decreases |rs|
  {
    if rs != [] {
      var rows' := Serve(p, rows, key, ttl, rs[0]);
      ServeLive(p, rows, key, ttl, rs[0]);
      EffectiveExpiryBounds(p, rows[key].state.value, ttl, rs[0].price.now);
      TouchesAdvance(p, rows', key, ttl, rs[1..]);
      if rows' != rows {
        Telescopes(TouchCount(p, rows', key, ttl, rs[1..]), Coalesce(p), rows[key].expiresAt, rows'[key].expiresAt,
                   ServeAll(p, rows, key, ttl, rs)[key].expiresAt);
      }
    }
  }

  /** Renewal writes are bounded by the lifetime, not by the number of requests, and no touch
      ever sets an expiry past the hard cap. */
  lemma WritesAreBounded(p: Policy, rows: Rows, key: Key, ttl: int, rs: seq<Request>)
    requires key in rows && rows[key].state.Some? && Deadline(p, rows[key].state.value).Some?
    requires AllFindLive(p, rows, key, ttl, rs)
    ensures var deadline := Deadline(p, rows[key].state.value).value;
            var after := ServeAll(p, rows, key, ttl, rs);
            TouchCount(p, rows, key, ttl, rs) * Coalesce(p) <= Max(0, deadline - rows[key].expiresAt) &&
            key in after && (after[key].expiresAt <= deadline || after[key] == rows[key])
  {
    TouchesAdvance(p, rows, key, ttl, rs);
  }

  // ---- Keeping a session alive ------------------------------------------------------

  /** Requests in time order, each reaching its last step at most `gap` after the previous one
      was priced, and none after `end`. */
  predicate Paced(rs: seq<Request>, gap: Nanos, end: Nanos) {
    (forall i | 0 <= i < |rs| :: InOrder(rs[i]) && rs[i].touch.now <= end) &&
    (forall i | 0 < i < |rs| :: rs[i - 1].price.now <= rs[i].price.now && rs[i].touch.now <= rs[i - 1].price.now + gap)
  }

  lemma StillPriced(p: Policy, state: State, ttl: int, before: Nanos, now: Nanos)
    requires Sub in state && EffectiveExpiry(p, state, ttl, before).Some?
    requires before <= now < Deadline(p, state).value && 0 < ttl
    requires IsInstant(now + ttl * NANOS_PER_SEC)
    ensures EffectiveExpiry(p, state, ttl, now) ==
            Some(Min(now + ttl * NANOS_PER_SEC, Deadline(p, state).value))
  {
  }

  lemma AfterServing(window: Nanos, was: Nanos, price: Nanos, ttl: Nanos, deadline: Nanos, next: Nanos)
    requires 0 < window < ttl
    requires next <= price + (ttl - window) && next <= deadline - window
    ensures next < Extended(window, was, Min(price + ttl, deadline))
  {
  }

  /** Sliding keep-alive: a session whose requests come at most `ttl - window` apart is found
      live by every one of them up to the window before its hard cap. */
  lemma {:induction false} KeepAlive(p: Policy, rows: Rows, key: Key, ttl: int, rs: seq<Request>)
    requires 0 < p.coalesceSecs < ttl
    requires rs != [] && FindsLive(p, rows, key, ttl, rs[0])
    requires Paced(rs, ttl * NANOS_PER_SEC - Coalesce(p),
                   Deadline(p, rows[key].state.value).value - Coalesce(p))
    requires IsInstant(Deadline(p, rows[key].state.value).value + ttl * NANOS_PER_SEC)
    ensures AllFindLive(p, rows, key, ttl, rs)
    decreases |rs|
  {
    var (r, row) := (rs[0], rows[key]);
    var rows' := Serve(p, rows, key, ttl, r);
    ServeLive(p, rows, key, ttl, r);
    if |rs| > 1 {
      var (next, state) := (rs[1], row.state.value);
      var deadline := Deadline(p, state).value;
      assert InOrder(r) && r.touch.now <= deadline - Coalesce(p);
      assert InOrder(next) && r.price.now <= next.price.now && next.touch.now <= deadline - Coalesce(p);
      StillPriced(p, state, ttl, r.price.now, r.price.now);
      StillPriced(p, state, ttl, r.price.now, next.price.now);
      AfterServing(Coalesce(p), row.expiresAt, r.price.now, ttl * NANOS_PER_SEC, deadline, next.touch.now);
      assert rs[1..][0] == next;
      KeepAlive(p, rows', key, ttl, rs[1..]);
    }
  }
}

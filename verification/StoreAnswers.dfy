/** What each store operation answers and leaves, run alone, in every case. */
module StoreAnswers {
  import opened Wrappers
  import opened Clock
  import opened SessionState
  import opened Expiry
  import opened Store

  /** The rows once an operation that may be refused has removed the key. */
  function Without(rows: Rows, key: Key, env: Env): Rows {
    if env.fault == Refused then rows else rows - {key}
  }

  function With(rows: Rows, key: Key, row: Row, env: Env): Rows {
    if env.fault == Refused then rows else rows[key := row]
  }

  function Reply(outcome: Outcome, env: Env): Call {
    Done(if env.fault == Succeeds then outcome else Failed)
  }

  /** The repository shows the row at this moment. */
  predicate Shows(rows: Rows, key: Key, env: Env) {
    key in rows && (env.hides ==> rows[key].expiresAt > env.now)
  }

  /** `save` inserts exactly the stamped state under the new key, at its price, if it has one; it
      reports the key exactly when the insert succeeds, and without a price changes nothing. */
  lemma SaveAnswers(p: Policy, rows: Rows, state: State, ttl: int, stamp: Env, price: Env, insert: Env, last: Env)
    ensures var stamped := Stamped(state, stamp.now);
            Alone(p, rows, SaveStamp(state, ttl), stamp, price, insert, last) ==
            if Priceable(p, stamped, ttl, price.now)
            then (With(rows, price.newKey, Row(Some(stamped), Price(p, stamped, ttl, price.now)), insert),
                  Reply(SavedAs(price.newKey), insert))
            else (rows, Done(Failed))
  {
    PriceExactly(p, Stamped(state, stamp.now), ttl, price.now);
  }

  /** `load` returns a readable row that has not expired and, if authenticated, is within its
      lifetime; it removes an expired one or one past its lifetime; an unreadable one is an error
      and stays. */
  lemma LoadAnswers(p: Policy, rows: Rows, key: Key, get: Env, judge: Env, delete: Env, last: Env)
    ensures Alone(p, rows, LoadGet(key), get, judge, delete, last) ==
            if get.fault != Succeeds then (rows, Done(Failed))
            else if !Shows(rows, key, get) then (rows, Done(Loaded(None)))
            else
              var row := rows[key];
              if row.expiresAt <= judge.now then (Without(rows, key, delete), Done(Loaded(None)))
              else if row.state.None? then (rows, Done(Failed))
              else if Sub in row.state.value && !Sustained(row.state.value, judge.now, p.maxLifetimeSecs)
              then (Without(rows, key, delete), Done(Loaded(None)))
              else (rows, Done(Loaded(row.state)))
  {
    if key in rows && rows[key].state.Some? {
      HardCapExactly(rows[key].state.value, judge.now, p.maxLifetimeSecs);
    }
  }

  /** `update` of a state without a price removes the row; otherwise it replaces the row it finds. If
      there is none, a state with any token is dropped and any other is inserted under a new key, for
      the shorter of the TTL and the pre-auth TTL from then. */
  lemma UpdateAnswers(p: Policy, rows: Rows, key: Key, state: State, ttl: int,
                      price: Env, write: Env, draw: Env, insert: Env)
    ensures Alone(p, rows, UpdatePrice(key, state, ttl), price, write, draw, insert) ==
            if !Priceable(p, state, ttl, price.now) then (Without(rows, key, write), Done(UpdatedAs(key)))
            else if Shows(rows, key, write)
            then (With(rows, key, Row(Some(state), Price(p, state, ttl, price.now)), write),
                  Reply(UpdatedAs(key), write))
            else if write.fault != Succeeds then (rows, Done(Failed))
            else if AccessToken in state || RefreshToken in state || IdToken in state then (rows, Done(UpdatedAs(key)))
            else
              var expiresAt := Min(draw.now + ttl * NANOS_PER_SEC, draw.now + p.preAuthSecs * NANOS_PER_SEC);
              (With(rows, draw.newKey, Row(Some(state), expiresAt), insert), Reply(UpdatedAs(draw.newKey), insert))
  {
    PriceExactly(p, state, ttl, price.now);
    if Priceable(p, state, ttl, price.now) {
      TwelveHourFallbackIsDead(p, state, ttl, price.now, draw.now);
    }
  }

  /** `update_ttl` removes an expired or unreadable row, and an authenticated one without a price; it
      leaves an anonymous row alone, and any whose price is not ahead of its expiry by the window;
      otherwise it gives a row that is still live its price, and never changes its state. */
  lemma RenewalAnswers(p: Policy, rows: Rows, key: Key, ttl: int, get: Env, judge: Env, price: Env, touch: Env)
    ensures Alone(p, rows, RenewGet(key, ttl), get, judge, price, touch) ==
            if get.fault != Succeeds then (rows, Done(Failed))
            else if !Shows(rows, key, get) then (rows, Done(Renewed))
            else
              var row := rows[key];
              if row.expiresAt <= judge.now || row.state.None? then (Without(rows, key, price), Done(Renewed))
              else if Sub !in row.state.value then (rows, Done(Renewed))
              else if !Priceable(p, row.state.value, ttl, price.now) then (Without(rows, key, touch), Done(Renewed))
              else
                var expiresAt := Price(p, row.state.value, ttl, price.now);
                var ahead := expiresAt - row.expiresAt;
                if ahead <= 0 || ahead < p.coalesceSecs * NANOS_PER_SEC then (rows, Done(Renewed))
                else if row.expiresAt <= touch.now then (rows, Reply(Renewed, touch))
                else (With(rows, key, Row(row.state, expiresAt), touch), Reply(Renewed, touch))
  {
    if key in rows && rows[key].state.Some? {
      PriceExactly(p, rows[key].state.value, ttl, price.now);
    }
  }

  /** `delete` removes exactly its key's row, unless refused, and reports any fault. */
  lemma DeleteAnswers(p: Policy, rows: Rows, key: Key, a: Env, b: Env, c: Env, d: Env)
    ensures Alone(p, rows, LogoutDelete(key), a, b, c, d) == (Without(rows, key, a), Reply(Deleted, a))
  {
  }
}

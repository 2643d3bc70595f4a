/** What was stored is what is loaded, exactly until it expires. */
module RoundTrips {
  import opened Wrappers
  import opened Clock
  import opened SessionState
  import opened Expiry
  import opened Store

  /** The outcome of a lookup and its judgement, with nothing in between. */
  function LoadOutcome(p: Policy, rows: Rows, key: Key, a: Env, b: Env, c: Env, d: Env): Call {
    Alone(p, rows, LoadGet(key), a, b, c, d).1
  }

  /** A price stays good: until the expiry it gave, the hard cap stands too. */
  lemma PriceOutlastsExpiry(p: Policy, state: State, ttl: int, pricedAt: Nanos, now: Nanos)
    requires EffectiveExpiry(p, state, ttl, pricedAt).Some? && Sub in state
    requires pricedAt <= now < EffectiveExpiry(p, state, ttl, pricedAt).value
    ensures HardCapExpiry(state, now, p.maxLifetimeSecs).Some?
  {
    EffectiveExpiryBounds(p, state, ttl, pricedAt);
  }

  /** A row holding a priced state loads as that state exactly until the priced expiry. */
  lemma PricedRowLoads(p: Policy, rows: Rows, key: Key, state: State, ttl: int, pricedAt: Nanos,
                       a: Env, b: Env, c: Env, d: Env)
    requires EffectiveExpiry(p, state, ttl, pricedAt).Some?
    requires key in rows && rows[key] == Row(Some(state), EffectiveExpiry(p, state, ttl, pricedAt).value)
    requires !a.Fails() && a.now <= b.now && pricedAt <= b.now
    ensures LoadOutcome(p, rows, key, a, b, c, d) ==
            Done(Loaded(if b.now < rows[key].expiresAt then Some(state) else None))
  {
    if b.now < rows[key].expiresAt {
      if Sub in state {
        PriceOutlastsExpiry(p, state, ttl, pricedAt, b.now);
      }
      assert Lookup(rows, key, a) == Some(rows[key]);
    }
  }

  /** Save, then load: the stamped state comes back under the new key exactly until its row's
      expiry, whatever clock readings and expired-row filtering the load meets. */
  lemma SaveThenLoad(p: Policy, rows: Rows, state: State, ttl: int, s: Env, price: Env, insert: Env, last: Env,
                     a: Env, b: Env, c: Env, d: Env)
    requires Alone(p, rows, SaveStamp(state, ttl), s, price, insert, last).1 == Done(SavedAs(price.newKey))
    requires !a.Fails() && a.now <= b.now && price.now <= b.now
    ensures var rows' := Alone(p, rows, SaveStamp(state, ttl), s, price, insert, last).0;
            var key := price.newKey;
            key in rows' && rows' == rows[key := rows'[key]] &&
            LoadOutcome(p, rows', key, a, b, c, d) ==
              Done(Loaded(if b.now < rows'[key].expiresAt then Some(Stamped(state, s.now)) else None))
  {
    var stamped := Stamped(state, s.now);
    var rows' := Alone(p, rows, SaveStamp(state, ttl), s, price, insert, last).0;
    assert EffectiveExpiry(p, stamped, ttl, price.now).Some?;
    assert rows' == rows[price.newKey := Row(Some(stamped), EffectiveExpiry(p, stamped, ttl, price.now).value)];
    PricedRowLoads(p, rows', price.newKey, stamped, ttl, price.now, a, b, c, d);
  }

  /** Update, then load: an update that found its row replaces the whole state, and no other row. */
  lemma UpdateThenLoad(p: Policy, rows: Rows, key: Key, state: State, ttl: int,
                       price: Env, write: Env, third: Env, last: Env, a: Env, b: Env, c: Env, d: Env)
    requires EffectiveExpiry(p, state, ttl, price.now).Some? && !write.Fails() && Visible(rows, key, write)
    requires !a.Fails() && a.now <= b.now && price.now <= b.now
    ensures var rows' := Alone(p, rows, UpdatePrice(key, state, ttl), price, write, third, last).0;
            key in rows' && rows' == rows[key := rows'[key]] &&
            LoadOutcome(p, rows', key, a, b, c, d) ==
              Done(Loaded(if b.now < rows'[key].expiresAt then Some(state) else None))
  {
    var rows' := Alone(p, rows, UpdatePrice(key, state, ttl), price, write, third, last).0;
    assert rows' == rows[key := Row(Some(state), EffectiveExpiry(p, state, ttl, price.now).value)];
    PricedRowLoads(p, rows', key, state, ttl, price.now, a, b, c, d);
  }
}

/** What a renewal's touch can do when others write between its lookup and its touch. */
module RenewalRaces {
  import opened Wrappers
  import opened Clock
  import opened SessionState
  import opened Expiry
  import opened Store
  import opened StoreRuns
  import opened RowBounds
  import opened Watches

  predicate HasSub(row: Row) {
    row.state.Some? && Sub in row.state.value
  }

  /** The row found had `sub`, the last one written since has not: an update in place dropped it. */
  predicate DroppedSub(watch: Watch)
    requires watch.rows != []
  {
    HasSub(watch.rows[0]) && !HasSub(watch.Last())
  }

  /** Exactly when a renewal's touch changes an anonymous row, in any run: when it takes effect on a
      live row at a different expiry, and an update in place dropped `sub` under its key since its
      lookup. */
  lemma AnonymousRowIsTouchedExactlyWhen(p: Policy, w0: World, es: seq<Event>, w: World, j: Journal, e: Event)
    requires Initial(w0) && JournaledRuns(p, w0, map[], es, w, j)
    requires Enabled(w, e) && e.Step? && w.calls[e.id].RenewTouch?
    ensures e.id in j && j[e.id].rows != []
    ensures var key := w.calls[e.id].key;
            (key in w.rows && !HasSub(w.rows[key]) && Apply(p, w, e).rows != w.rows) <==>
            (Touches(w, e) && j[e.id].Last().expiresAt != w.calls[e.id].expiresAt && DroppedSub(j[e.id]))
  {
    CallIsWatched(p, w0, es, w, j, e.id);
    TouchChanges(p, w, e);
  }

  lemma TouchChanges(p: Policy, w: World, e: Event)
    requires Enabled(w, e) && e.Step? && w.calls[e.id].RenewTouch?
    ensures Apply(p, w, e).rows != w.rows <==>
            Touches(w, e) && w.rows[w.calls[e.id].key].expiresAt != w.calls[e.id].expiresAt
  {
    var key := w.calls[e.id].key;
    assert key in w.rows ==> w.rows == w.rows[key := w.rows[key]];
  }

  /** Exactly when a touch is steady: when the row last written since its lookup, if any, kept the
      identity the lookup found. */
  lemma TouchIsSteadyExactlyWhen(p: Policy, w0: World, es: seq<Event>, w: World, j: Journal, e: Event)
    requires Initial(w0) && JournaledRuns(p, w0, map[], es, w, j)
    requires Enabled(w, e) && Touches(w, e)
    ensures e.id in j && j[e.id].rows != [] && j[e.id].rows[0].state.Some?
    ensures var (found, last) := (j[e.id].rows[0], j[e.id].Last());
            Steady(w, e) <==> last.state.Some? && SameIdentity(last.state.value, found.state.value)
  {
    CallIsWatched(p, w0, es, w, j, e.id);
  }

  // ---- When a touch moves an expiry back ------------------------------------------------------

  /** Exactly when a touch lowers an expiry, in any run and whatever overlaps the renewal: when it
      takes effect on a live row whose last expiry written since the lookup, by a touch or an update
      in place, lies beyond the price. That takes an overlap: some call wrote the row since. */
  lemma TouchLowersExactlyWhen(p: Policy, w0: World, es: seq<Event>, w: World, j: Journal, e: Event)
    requires Initial(w0) && JournaledRuns(p, w0, map[], es, w, j)
    requires Enabled(w, e) && e.Step? && w.calls[e.id].RenewTouch?
    ensures e.id in j && j[e.id].rows != []
    ensures var (key, watch) := (w.calls[e.id].key, j[e.id]);
            var lowers := key in w.rows && key in Apply(p, w, e).rows &&
                          Apply(p, w, e).rows[key].expiresAt < w.rows[key].expiresAt;
            (lowers <==> Touches(w, e) && w.calls[e.id].expiresAt < watch.Last().expiresAt) &&
            (lowers ==> |watch.rows| > 1)
  {
    CallIsWatched(p, w0, es, w, j, e.id);
  }

  /** Exactly when the second of two overlapping renewals' touches moves the expiry back: when its
      price was computed for an earlier end than the first one's, and that end lies before the
      deadline. With one TTL, when it read the clock earlier. */
  lemma OverlappingRenewalsShortenExactlyWhen(
      p: Policy, rows: Rows, key: Key, state: State,
      was1: Nanos, ttl1: int, first: Nanos, touch1: Env, was2: Nanos, ttl2: int, second: Nanos, touch2: Env)
    requires key in rows && rows[key].state == Some(state) && Sub in state
    requires PriceRenewal(p, key, state, was1, ttl1, first).RenewTouch?
    requires PriceRenewal(p, key, state, was2, ttl2, second).RenewTouch?
    requires touch1.Applies() && rows[key].expiresAt > touch1.now
    requires touch2.Applies()
    requires Advance(p, rows, PriceRenewal(p, key, state, was1, ttl1, first), touch1).0[key].expiresAt > touch2.now
    ensures var between := Advance(p, rows, PriceRenewal(p, key, state, was1, ttl1, first), touch1).0;
            var after := Advance(p, between, PriceRenewal(p, key, state, was2, ttl2, second), touch2).0;
            var (end1, end2) := (first + ttl1 * NANOS_PER_SEC, second + ttl2 * NANOS_PER_SEC);
            Deadline(p, state).Some? &&
            (after[key].expiresAt < between[key].expiresAt <==> end2 < end1 && end2 < Deadline(p, state).value) &&
            (ttl1 == ttl2 ==>
               (after[key].expiresAt < between[key].expiresAt <==>
                second < first && end2 < Deadline(p, state).value))
  {
    EffectiveExpiryBounds(p, state, ttl1, first);
    EffectiveExpiryBounds(p, state, ttl2, second);
  }
}

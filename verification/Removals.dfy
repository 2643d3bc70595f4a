/** When a row that a load would still return is removed other than by a logout. */
module Removals {
  import opened Wrappers
  import opened Clock
  import opened SessionState
  import opened Expiry
  import opened Store
  import opened StoreRuns
  import opened Watches

  /** A load judging this row now would return it. */
  predicate Loadable(p: Policy, row: Row, now: Nanos) {
    row.expiresAt > now && row.state.Some? &&
    (Sub in row.state.value ==> HardCapExpiry(row.state.value, now, p.maxLifetimeSecs).Some?)
  }

  lemma LoadableIsLoaded(p: Policy, key: Key, row: Row, now: Nanos)
    ensures Loadable(p, row, now) <==> JudgeLoad(p, key, row, now) == Done(Loaded(row.state)) && row.state.Some?
  {
  }

  /** A session whose stamp was too far in the future at one time and no longer is at another. */
  predicate CaughtUp(row: Row, before: Nanos, now: Nanos) {
    row.state.Some? && ParseLoginAt(row.state.value).Some? &&
    var stamp := ParseLoginAt(row.state.value).value * NANOS_PER_SEC;
    var skew := LOGIN_AT_FUTURE_SKEW_SECS * NANOS_PER_SEC;
    before + skew < stamp <= now + skew
  }

  /** A verdict of death goes out of date only by the clock catching up with a stamp from the future. */
  lemma DeadStaysUnloadable(p: Policy, key: Key, row: Row, before: Nanos, now: Nanos)
    requires JudgeLoad(p, key, row, before).LoadDelete? && before <= now && Loadable(p, row, now)
    ensures CaughtUp(row, before, now)
  {
  }

  /** A renewal's verdict may also have come from a TTL that cannot be added to the clock. */
  lemma UnrenewableStaysUnloadable(p: Policy, row: Row, ttl: int, before: Nanos, now: Nanos)
    requires row.expiresAt <= before || row.state.None? || Unpriceable(row.state.value, p, ttl, before)
    requires before <= now && Loadable(p, row, now)
    ensures CaughtUp(row, before, now) || ExpiryAfter(before, ttl).None?
  {
  }

  /** Why a load's or a renewal's delete can meet a row that is alive: it was written since the
      lookup, or the verdict went out of date. */
  predicate Overtaken(watch: Watch, now: Nanos)
    requires watch.rows != []
  {
    |watch.rows| > 1 || CaughtUp(watch.rows[0], watch.at, now)
  }

  predicate Removes(p: Policy, w: World, e: Event, key: Key)
    requires Enabled(w, e)
  {
    key in w.rows && Loadable(p, w.rows[key], w.now) && key !in Apply(p, w, e).rows
  }

  /** Exactly when a step other than a logout removes a row that a load would return, in any run: when
      it is a best-effort delete that takes effect, of an update that found its own state dead, or of
      a load or a renewal whose verdict was overtaken, with the row last written alive. A renewal can
      also be asked for a TTL that no clock reading admits. */
  lemma LiveRowIsRemovedExactlyWhen(p: Policy, w0: World, es: seq<Event>, w: World, j: Journal, e: Event, key: Key)
    requires Initial(w0) && JournaledRuns(p, w0, map[], es, w, j)
    requires Enabled(w, e) && e.Step? && !w.calls[e.id].LogoutDelete?
    ensures w.calls[e.id].LoadDelete? || w.calls[e.id].RenewDelete? ==> e.id in j && j[e.id].rows != []
    ensures Removes(p, w, e, key) <==>
            key in w.rows && EnvOf(w, e).Applies() &&
            match w.calls[e.id]
            case LoadDelete(k) => k == key && Loadable(p, j[e.id].Last(), w.now) && Overtaken(j[e.id], w.now)
            case RenewDelete(k) =>
              k == key && Loadable(p, j[e.id].Last(), w.now) &&
              (Overtaken(j[e.id], w.now) || ExpiryAfter(j[e.id].at, j[e.id].ttl).None?)
            case UpdateDelete(k) => k == key && Loadable(p, w.rows[key], w.now)
            case _ => false
  {
    var call := w.calls[e.id];
    if Watching(call) {
      CallIsWatched(p, w0, es, w, j, e.id);
      var watch := j[e.id];
      if call.LoadDelete? && |watch.rows| == 1 && Loadable(p, watch.rows[0], w.now) {
        DeadStaysUnloadable(p, call.key, watch.rows[0], watch.at, w.now);
      }
      if call.RenewDelete? && |watch.rows| == 1 && Loadable(p, watch.rows[0], w.now) {
        UnrenewableStaysUnloadable(p, watch.rows[0], watch.ttl, watch.at, w.now);
      }
    }
  }
}

/** How far ahead any row's expiry can lie, whatever calls interleave. */
module RowBounds {
  import opened Wrappers
  import opened Clock
  import opened SessionState
  import opened Expiry
  import opened Store
  import opened StoreRuns

  /** When each key's row was last written, and which rows still are as the fallback made them. */
  datatype Ledger = Ledger(written: map<Key, Nanos>, fallback: set<Key>)

  predicate Touches(w: World, e: Event)
    requires Enabled(w, e)
  {
    e.Step? && w.calls[e.id].RenewTouch? && !e.fault.Refused? &&
    w.calls[e.id].key in w.rows && w.rows[w.calls[e.id].key].expiresAt > w.now
  }

  function Record(w: World, l: Ledger, e: Event): Ledger
    requires Enabled(w, e)
  {
    if !e.Step? || e.fault.Refused? then l
    else match w.calls[e.id]
      case SaveInsert(key, _) => Ledger(l.written[key := w.now], l.fallback - {key})
      case UpdateInsert(key, _) => Ledger(l.written[key := w.now], l.fallback + {key})
      case UpdateWrite(key, _, _, _) =>
        if Visible(w.rows, key, EnvOf(w, e)) then Ledger(l.written[key := w.now], l.fallback - {key}) else l
      case RenewTouch(key, _, _) => if Touches(w, e) then l.(fallback := l.fallback - {key}) else l
      case _ => l
  }

  /** Two states agree on whether they are authenticated and on the login stamp. */
  predicate SameIdentity(s: State, t: State) {
    (Sub in s <==> Sub in t) && ParseLoginAt(s) == ParseLoginAt(t)
  }

  /** Between a renewal's lookup and its touch, the row kept its identity. */
  predicate Steady(w: World, e: Event)
    requires Enabled(w, e)
  {
    Touches(w, e) ==>
      var row := w.rows[w.calls[e.id].key];
      row.state.Some? && SameIdentity(row.state.value, w.calls[e.id].state)
  }

  ghost predicate SteadyRuns(p: Policy, w: World, l: Ledger, es: seq<Event>, w': World, l': Ledger)
    decreases |es|
  {
    if es == [] then
      w' == w && l' == l
    else
      Enabled(w, es[0]) && Steady(w, es[0]) &&
      SteadyRuns(p, Apply(p, w, es[0]), Record(w, l, es[0]), es[1..], w', l')
  }

  // ---- The bounds --------------------------------------------------------------

  predicate WithinDeadline(p: Policy, state: State, expiresAt: Nanos) {
    Deadline(p, state).Some? && expiresAt <= Deadline(p, state).value
  }

  predicate WithinPreAuth(p: Policy, written: Nanos, expiresAt: Nanos) {
    expiresAt <= written + p.preAuthSecs * NANOS_PER_SEC
  }

  /** An anonymous row expires within the pre-auth TTL of its last write. An authenticated one
      expires by its deadline, except as the fallback first inserts it, when the pre-auth TTL bounds it. */
  predicate Bounded(p: Policy, l: Ledger, key: Key, row: Row) {
    key in l.written && row.state.Some? &&
    if Sub in row.state.value then
      WithinDeadline(p, row.state.value, row.expiresAt) ||
      (key in l.fallback && WithinPreAuth(p, l.written[key], row.expiresAt))
    else
      WithinPreAuth(p, l.written[key], row.expiresAt)
  }

  /** What a call may be about to write. */
  predicate CallBounded(p: Policy, now: Nanos, call: Call) {
    match call
    case SaveInsert(_, row) => row.state.Some? && Priced(p, now, row.state.value, row.expiresAt)
    case UpdateWrite(_, state, ttl, expiresAt) =>
      Priced(p, now, state, expiresAt) && TrySeconds(Min(ttl, p.preAuthSecs)).Some?
    case UpdateMissing(_, _, ttl) => TrySeconds(Min(ttl, p.preAuthSecs)).Some?
    case UpdateInsert(_, row) => row.state.Some? && WithinPreAuth(p, now, row.expiresAt)
    case RenewPrice(_, state, _, _) => Sub in state
    case RenewTouch(_, state, expiresAt) => Sub in state && WithinDeadline(p, state, expiresAt)
    case _ => true
  }

  predicate Priced(p: Policy, now: Nanos, state: State, expiresAt: Nanos) {
    if Sub in state then WithinDeadline(p, state, expiresAt) else WithinPreAuth(p, now, expiresAt)
  }

  ghost predicate AllBounded(p: Policy, w: World, l: Ledger) {
    (forall k | k in w.rows :: Bounded(p, l, k, w.rows[k])) &&
    (forall id | id in w.calls :: CallBounded(p, w.now, w.calls[id]))
  }

  lemma PricingIsBounded(p: Policy, state: State, ttl: int, now: Nanos)
    requires EffectiveExpiry(p, state, ttl, now).Some?
    ensures Priced(p, now, state, EffectiveExpiry(p, state, ttl, now).value)
    ensures TrySeconds(Min(ttl, p.preAuthSecs)).Some?
  {
  }

  lemma CallStaysBounded(p: Policy, w: World, l: Ledger, e: Event)
    requires AllBounded(p, w, l) && Enabled(w, e) && e.Step?
    ensures CallBounded(p, w.now, Advance(p, w.rows, w.calls[e.id], EnvOf(w, e)).1)
  {
    var call := w.calls[e.id];
    assert CallBounded(p, w.now, call);
    if call.SavePrice? || call.UpdatePrice? || call.RenewPrice? {
      if EffectiveExpiry(p, call.state, call.ttl, w.now).Some? {
        PricingIsBounded(p, call.state, call.ttl, w.now);
      }
    }
  }

  lemma RowsStayBoundedStep(p: Policy, w: World, l: Ledger, e: Event)
    requires AllBounded(p, w, l) && Enabled(w, e) && Steady(w, e)
    ensures forall k | k in Apply(p, w, e).rows :: Bounded(p, Record(w, l, e), k, Apply(p, w, e).rows[k])
  {
    if e.Step? {
      assert CallBounded(p, w.now, w.calls[e.id]);
    }
  }

  lemma TimePasses(p: Policy, now: Nanos, now': Nanos, call: Call)
    requires CallBounded(p, now, call) && now <= now'
    ensures CallBounded(p, now', call)
  {
  }

  lemma BoundedStep(p: Policy, w: World, l: Ledger, e: Event)
    requires AllBounded(p, w, l) && Enabled(w, e) && Steady(w, e)
    ensures AllBounded(p, Apply(p, w, e), Record(w, l, e))
  {
    RowsStayBoundedStep(p, w, l, e);
    match e
    case Tick(to) =>
      forall id | id in w.calls {
        TimePasses(p, w.now, to, w.calls[id]);
      }
    case Start(_, _) =>
    case Step(_, _, _, _) =>
      CallStaysBounded(p, w, l, e);
  }

  /** Every row of every run is bounded, if rows keep their identity between a renewal's lookup
      and its touch: no row outlives its session's deadline, or the pre-auth TTL, by more than
      the fallback's own allowance. */
  lemma {:induction false} RowsStayBounded(p: Policy, w: World, l: Ledger, es: seq<Event>, w': World, l': Ledger)
    requires AllBounded(p, w, l) && SteadyRuns(p, w, l, es, w', l')
    ensures AllBounded(p, w', l')
    decreases |es|
  {
    if es != [] {
      BoundedStep(p, w, l, es[0]);
      RowsStayBounded(p, Apply(p, w, es[0]), Record(w, l, es[0]), es[1..], w', l');
    }
  }

  lemma InitiallyBounded(p: Policy, w: World)
    requires Initial(w)
    ensures AllBounded(p, w, Ledger(map[], {}))
  {
  }

  // ---- Where the simpler bounds fail ---------------------------------------------

  /** The exception for the fallback is real: an update of a purged session ten seconds before
      its deadline re-inserts its token-free state until ten minutes later, past the deadline.
      It is `load` that keeps the lifetime then. */
  lemma FallbackOutlivesDeadline(key: Key, newKey: Key)
    ensures var p: Policy := DefaultPolicy();
            var state: State := map[Sub := JString("user"), LoginAt := JInt(1_000_000)];
            var deadline := (1_000_000 + p.maxLifetimeSecs) * NANOS_PER_SEC;
            var env := Env(deadline - 10 * NANOS_PER_SEC, newKey, false, Succeeds);
            var after := Alone(p, map[], UpdatePrice(key, state, 3600), env, env, env, env);
            after.1 == Done(UpdatedAs(newKey)) &&
            newKey in after.0 && after.0[newKey].expiresAt == deadline + 590 * NANOS_PER_SEC &&
            JudgeLoad(p, newKey, after.0[newKey], deadline) == LoadDelete(newKey)
  {
  }

  /** Exactly when the fallback's row still respects its deadline: when the capped TTL, counted
      from the insert's own clock reading, ends by then. */
  lemma FallbackKeepsDeadlineExactlyWhen(p: Policy, key: Key, state: State, ttl: int, pricedAt: Nanos, env: Env)
    requires Sub in state && !HasTokens(state)
    requires EffectiveExpiry(p, state, ttl, pricedAt).Some?
    ensures var call := FallBack(p, key, state, ttl, env);
            call.UpdateInsert? && call.row.state == Some(state) &&
            (WithinDeadline(p, state, call.row.expiresAt) <==>
             env.now + Min(ttl, p.preAuthSecs) * NANOS_PER_SEC <= Deadline(p, state).value)
  {
  }

  /** Expiry moves only forward while renewals do not overlap; `RenewalRaces` says exactly when
      two that do move it back. */
  lemma RenewalAloneNeverShortens(p: Policy, rows: Rows, key: Key, ttl: int, a: Env, b: Env, c: Env, d: Env)
    requires key in rows && key in Alone(p, rows, RenewGet(key, ttl), a, b, c, d).0
    ensures rows[key].expiresAt <= Alone(p, rows, RenewGet(key, ttl), a, b, c, d).0[key].expiresAt
    ensures rows[key].state == Alone(p, rows, RenewGet(key, ttl), a, b, c, d).0[key].state
  {
  }
}

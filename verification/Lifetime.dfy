/** The absolute lifetime, over whole runs and across the key changes of the missing-row
    fallback. */
module Lifetime {
  import opened Wrappers
  import opened Clock
  import opened SessionState
  import opened Expiry
  import opened Store
  import opened StoreRuns

  /** Where a row's key comes from: when its session was first priced, with which stamp, and
      whether it was authenticated then. A fallback's new key inherits its predecessor's. */
  datatype Lineage = Lineage(since: Nanos, stamp: Option<int>, authenticated: bool)

  type History = map<Key, Lineage>

  function Founded(state: State, now: Nanos): Lineage {
    Lineage(now, ParseLoginAt(state), Sub in state)
  }

  /** The history after one event: saves found lineages, the fallback continues them. */
  function Remember(p: Policy, w: World, h: History, e: Event): History
    requires Enabled(w, e)
  {
    if !e.Step? then h
    else match (w.calls[e.id], Advance(p, w.rows, w.calls[e.id], EnvOf(w, e)).1)
      case (SavePrice(state, _), SaveInsert(_, _)) => h[e.newKey := Founded(state, w.now)]
      case (UpdateMissing(key, state, _), UpdateInsert(_, _)) =>
        h[e.newKey := if key in h then h[key] else Founded(state, w.now)]
      case _ => h
  }

  /** The state's stamp, if it can be read, is no later than the one its lineage began with. */
  predicate NeverRaised(stamp: Option<int>, state: State) {
    ParseLoginAt(state).Some? ==> stamp.Some? && ParseLoginAt(state).value <= stamp.value
  }

  /** Writers may keep the stamp, lower it or drop it, but not raise it. */
  predicate Obedient(h: History, e: Event) {
    e.Start? && e.call.UpdatePrice? && e.call.key in h ==> NeverRaised(h[e.call.key].stamp, e.call.state)
  }

  ghost predicate ObedientRuns(p: Policy, w: World, h: History, es: seq<Event>, w': World, h': History)
    decreases |es|
  {
    if es == [] then
      w' == w && h' == h
    else
      Enabled(w, es[0]) && Obedient(h, es[0]) &&
      ObedientRuns(p, Apply(p, w, es[0]), Remember(p, w, h, es[0]), es[1..], w', h')
  }

  // ---- The invariant ----------------------------------------------------------

  predicate SoundLineage(l: Lineage) {
    l.authenticated ==>
      l.stamp.Some? && l.stamp.value * NANOS_PER_SEC <= l.since + LOGIN_AT_FUTURE_SKEW_SECS * NANOS_PER_SEC
  }

  predicate RowFits(h: History, key: Key, row: Row) {
    key in h && (row.state.Some? ==> NeverRaised(h[key].stamp, row.state.value))
  }

  /** An update's state was priced: an authenticated one has a stamp that is not in the future. */
  predicate Priced(state: State, now: Nanos) {
    Sub in state ==>
      ParseLoginAt(state).Some? &&
      ParseLoginAt(state).value * NANOS_PER_SEC <= now + LOGIN_AT_FUTURE_SKEW_SECS * NANOS_PER_SEC
  }

  predicate UpdateFits(h: History, known: set<Key>, key: Key, state: State) {
    key in known && (key in h ==> NeverRaised(h[key].stamp, state))
  }

  predicate CallFits(h: History, known: set<Key>, now: Nanos, call: Call) {
    match call
    case LoadJudge(key, row) => RowFits(h, key, row)
    case SaveInsert(key, row) => RowFits(h, key, row)
    case UpdateInsert(key, row) => RowFits(h, key, row)
    case UpdatePrice(key, state, _) => UpdateFits(h, known, key, state)
    case UpdateWrite(key, state, _, _) => UpdateFits(h, known, key, state) && Priced(state, now)
    case UpdateMissing(key, state, _) => UpdateFits(h, known, key, state) && Priced(state, now)
    case _ => true
  }

  ghost predicate Fits(w: World, h: History) {
    h.Keys <= w.known &&
    (forall k | k in h :: SoundLineage(h[k])) &&
    (forall k | k in w.rows :: RowFits(h, k, w.rows[k])) &&
    (forall id | id in w.calls :: CallFits(h, w.known, w.now, w.calls[id]))
  }

  /** Other calls and rows do not notice a history that grew by a new key, or time passing. */
  lemma FitsGrow(h: History, h': History, known: set<Key>, known': set<Key>, now: Nanos, now': Nanos, call: Call)
    requires CallFits(h, known, now, call)
    requires now <= now' && known <= known'
    requires forall k | k in h :: k in h' && h'[k] == h[k]
    requires forall k | k in h' && k !in h :: k !in known
    ensures CallFits(h', known', now', call)
  {
  }

  /** The history only ever grows, by the step's own new key, and stays sound. */
  lemma RememberIsSound(p: Policy, w: World, h: History, e: Event)
    requires Fits(w, h) && Enabled(w, e)
    ensures var h' := Remember(p, w, h, e);
            (forall k | k in h :: k in h' && h'[k] == h[k]) &&
            (forall k | k in h' && k !in h :: e.Step? && k == e.newKey) &&
            (forall k | k in h' :: SoundLineage(h'[k]))
  {
    if e.Step? {
      var call := w.calls[e.id];
      assert CallFits(h, w.known, w.now, call);
      if call.SavePrice? && EffectiveExpiry(p, call.state, call.ttl, w.now).Some? {
        EffectiveExpiryBounds(p, call.state, call.ttl, w.now);
      }
    }
  }

  /** Where one step leaves its call. */
  lemma AdvanceFits(p: Policy, w: World, h: History, e: Event)
    requires Fits(w, h) && Enabled(w, e) && e.Step?
    ensures CallFits(Remember(p, w, h, e), w.known + {e.newKey}, w.now,
                     Advance(p, w.rows, w.calls[e.id], EnvOf(w, e)).1)
  {
    var call := w.calls[e.id];
    assert CallFits(h, w.known, w.now, call);
    if call.UpdatePrice? && EffectiveExpiry(p, call.state, call.ttl, w.now).Some? {
      EffectiveExpiryBounds(p, call.state, call.ttl, w.now);
    }
  }

  /** Where one step leaves the rows. */
  lemma AdvanceRowsFit(p: Policy, w: World, h: History, e: Event)
    requires Fits(w, h) && Enabled(w, e) && e.Step?
    ensures var rows := Advance(p, w.rows, w.calls[e.id], EnvOf(w, e)).0;
            forall k | k in rows :: RowFits(h, k, rows[k])
  {
  }

  lemma FitsStep(p: Policy, w: World, h: History, e: Event)
    requires Fits(w, h) && Enabled(w, e) && Obedient(h, e)
    ensures Fits(Apply(p, w, e), Remember(p, w, h, e))
  {
    var (w', h') := (Apply(p, w, e), Remember(p, w, h, e));
    RememberIsSound(p, w, h, e);
    if e.Step? {
      AdvanceFits(p, w, h, e);
      AdvanceRowsFit(p, w, h, e);
    }
    forall id | id in w'.calls && id in w.calls && w'.calls[id] == w.calls[id]
      ensures CallFits(h', w'.known, w'.now, w'.calls[id])
    {
      FitsGrow(h, h', w.known, w'.known, w.now, w'.now, w.calls[id]);
    }
  }

  lemma {:induction false} FitsAlways(p: Policy, w: World, h: History, es: seq<Event>, w': World, h': History)
    requires Fits(w, h) && ObedientRuns(p, w, h, es, w', h')
    ensures Fits(w', h')
    decreases |es|
  {
    if es != [] {
      FitsStep(p, w, h, es[0]);
      FitsAlways(p, Apply(p, w, es[0]), Remember(p, w, h, es[0]), es[1..], w', h');
    }
  }

  /** The absolute lifetime holds over whole runs: whatever loads, saves, updates, renewals,
      deletes and key changes came before, a load returns a session as authenticated only
      before its lineage's first stamp plus the maximum, so, when the lineage began
      authenticated, only within the maximum plus a minute of its beginning. */
  lemma AbsoluteLifetime(p: Policy, w0: World, es: seq<Event>, w: World, h: History, load: Event)
    requires Initial(w0) && ObedientRuns(p, w0, map[], es, w, h)
    requires Enabled(w, load) && load.Step? && w.calls[load.id].LoadJudge?
    requires var after := Advance(p, w.rows, w.calls[load.id], EnvOf(w, load)).1;
             after.Done? && after.outcome.Loaded? && after.outcome.state.Some? && Sub in after.outcome.state.value
    ensures var key := w.calls[load.id].key;
            key in h && h[key].stamp.Some? &&
            w.now < (h[key].stamp.value + p.maxLifetimeSecs) * NANOS_PER_SEC &&
            (h[key].authenticated ==>
               w.now < h[key].since + (p.maxLifetimeSecs + LOGIN_AT_FUTURE_SKEW_SECS) * NANOS_PER_SEC)
  {
    FitsAlways(p, w0, map[], es, w, h);
    var call := w.calls[load.id];
    assert CallFits(h, w.known, w.now, call);
    assert SoundLineage(h[call.key]);
  }
}

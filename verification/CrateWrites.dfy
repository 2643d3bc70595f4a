/** The crate's own writers meet what the store's theorems ask of writers. A request that neither
    renews nor ends the session keeps its identity, so updating a loaded session after such requests
    keeps `sub` and the stamp; the row bounds and the absolute lifetime follow for every run whose
    updates arise this way. */
module CrateWrites {
  import opened Wrappers
  import opened Clock
  import opened SessionState
  import opened Expiry
  import opened Store
  import opened StoreRuns
  import Flow = SessionFlow
  import Requests = SessionTheorems
  import Writers
  import Lifetime
  import RowBounds

  // ---- Requests that update in place ---------------------------------------------------

  /** A request after which the middleware updates the session under its key: it neither renews
      the key nor purges the session. */
  predicate InPlace(m: State, e: Requests.Event) {
    Requests.Proper(e) &&
    match e
    case LoginEvent(_, _) => true
    case CallbackEvent(c, a) => Flow.Decided(c, m, a).Err?
    case ExtractEvent(now, max) => !Requests.Ended(m, now, max)
    case LogoutEvent => false
    case ApplicationWrite(_, _) => true
    case ApplicationRemove(_) => true
  }

  predicate AllInPlace(m: State, es: seq<Requests.Event>)
    decreases |es|
  {
    es == [] || (InPlace(m, es[0]) && AllInPlace(Requests.Next(m, es[0]), es[1..]))
  }

  lemma InPlaceKeepsIdentity(m: State, e: Requests.Event)
    requires InPlace(m, e)
    ensures Writers.IdentityOf(Requests.Next(m, e)) == Writers.IdentityOf(m)
  {
    var m' := Requests.Next(m, e);
    match e
    case LoginEvent(c, d) =>
      Requests.LoginKeepsTheRest(c, m, d);
      Requests.SameButReads(m, m', Sub);
      Requests.SameButReads(m, m', LoginAt);
    case CallbackEvent(c, a) =>
      Requests.CallbackIsAtomicBeforeRenewal(c, m, a);
      Requests.SameButReads(m, m', Sub);
      Requests.SameButReads(m, m', LoginAt);
    case ExtractEvent(now, max) =>
      Requests.ExtractionAnswers(m, now, max);
    case _ =>
  }

  /** Whatever requests of this kind follow one another, the session keeps its identity. */
  lemma {:induction false} RequestsKeepIdentity(m: State, es: seq<Requests.Event>)
    requires AllInPlace(m, es)
    ensures Writers.IdentityOf(Requests.After(m, es)) == Writers.IdentityOf(m)
    decreases |es|
  {
    if es != [] {
      InPlaceKeepsIdentity(m, es[0]);
      RequestsKeepIdentity(Requests.Next(m, es[0]), es[1..]);
    }
  }

  // ---- Runs whose updates come from such requests ---------------------------------------

  /** The states loaded so far, with the keys they were loaded under. */
  type Loads = set<(Key, State)>

  function Collect(p: Policy, w: World, loads: Loads, e: Event): Loads
    requires Enabled(w, e)
  {
    if e.Step? && w.calls[e.id].LoadJudge? then
      match Advance(p, w.rows, w.calls[e.id], EnvOf(w, e)).1
      case Done(Loaded(Some(m))) => loads + {(w.calls[e.id].key, m)}
      case _ => loads
    else
      loads
  }

  ghost predicate ArisesFrom(loads: Loads, key: Key, state: State) {
    exists m, es {:trigger Requests.After(m, es)} ::
      (key, m) in loads && AllInPlace(m, es) && state == Requests.After(m, es)
  }

  /** An update is of a session loaded under its key, after requests that update in place. */
  ghost predicate ByCrate(loads: Loads, e: Event) {
    e.Start? && e.call.UpdatePrice? ==> ArisesFrom(loads, e.call.key, e.call.state)
  }

  ghost predicate CrateRuns(p: Policy, w: World, loads: Loads, es: seq<Event>, w': World, loads': Loads)
    decreases |es|
  {
    if es == [] then
      w' == w && loads' == loads
    else
      Enabled(w, es[0]) && ByCrate(loads, es[0]) &&
      CrateRuns(p, Apply(p, w, es[0]), Collect(p, w, loads, es[0]), es[1..], w', loads')
  }

  // ---- They are what the theorems ask for -------------------------------------------------

  predicate LoadKept(ids: Writers.Identities, h: Lifetime.History, key: Key, m: State) {
    key in ids && Writers.IdentityOf(m) == ids[key] && key in h && Lifetime.NeverRaised(h[key].stamp, m)
  }

  /** Both histories know the same keys, and agree on which sessions began authenticated. */
  predicate SameKeys(ids: Writers.Identities, h: Lifetime.History) {
    ids.Keys == h.Keys && forall k | k in ids :: h[k].authenticated == ids[k].authenticated
  }

  ghost predicate Meets(w: World, ids: Writers.Identities, h: Lifetime.History, loads: Loads) {
    Writers.Kept(w, ids) && Lifetime.Fits(w, h) && SameKeys(ids, h) &&
    forall key, m | (key, m) in loads :: LoadKept(ids, h, key, m)
  }

  lemma ByCrateIsAllowed(w: World, ids: Writers.Identities, h: Lifetime.History, loads: Loads, e: Event)
    requires Meets(w, ids, h, loads) && Enabled(w, e) && ByCrate(loads, e)
    ensures Writers.Keeps(ids, e) && Lifetime.Obedient(h, e)
  {
    if e.Start? && e.call.UpdatePrice? {
      assert ArisesFrom(loads, e.call.key, e.call.state);
      var m, es {:trigger Requests.After(m, es)} :|
        (e.call.key, m) in loads && AllInPlace(m, es) && e.call.state == Requests.After(m, es);
      RequestsKeepIdentity(m, es);
      assert LoadKept(ids, h, e.call.key, m);
    }
  }

  lemma NewLoadKept(p: Policy, w: World, ids: Writers.Identities, h: Lifetime.History, loads: Loads, e: Event)
    requires Meets(w, ids, h, loads) && Enabled(w, e)
    ensures forall key, m | (key, m) in Collect(p, w, loads, e) :: LoadKept(ids, h, key, m)
  {
    if e.Step? {
      assert Writers.CallKept(ids, w.known, w.calls[e.id]);
      assert Lifetime.CallFits(h, w.known, w.now, w.calls[e.id]);
    }
  }

  lemma SameKeysStep(p: Policy, w: World, ids: Writers.Identities, h: Lifetime.History, e: Event)
    requires Writers.Kept(w, ids) && SameKeys(ids, h) && Enabled(w, e)
    ensures SameKeys(Writers.Identify(p, w, ids, e), Lifetime.Remember(p, w, h, e))
  {
    if e.Step? {
      assert Writers.CallKept(ids, w.known, w.calls[e.id]);
    }
  }

  lemma MeetsStep(p: Policy, w: World, ids: Writers.Identities, h: Lifetime.History, loads: Loads, e: Event)
    requires Meets(w, ids, h, loads) && Enabled(w, e) && ByCrate(loads, e)
    ensures Meets(Apply(p, w, e), Writers.Identify(p, w, ids, e), Lifetime.Remember(p, w, h, e),
                  Collect(p, w, loads, e))
  {
    ByCrateIsAllowed(w, ids, h, loads, e);
    Writers.KeptStep(p, w, ids, e);
    Writers.IdentifyGrows(p, w, ids, e);
    Lifetime.FitsStep(p, w, h, e);
    Lifetime.RememberIsSound(p, w, h, e);
    NewLoadKept(p, w, ids, h, loads, e);
    SameKeysStep(p, w, ids, h, e);
  }

  /** Runs of the crate are runs whose writers keep identities and never raise a stamp. */
  lemma {:induction false} CrateRunsAreAllowed(p: Policy, w: World, ids: Writers.Identities, h: Lifetime.History,
                                               loads: Loads, es: seq<Event>, w': World, loads': Loads)
    returns (ids': Writers.Identities, h': Lifetime.History)
    requires Meets(w, ids, h, loads) && CrateRuns(p, w, loads, es, w', loads')
    ensures Writers.KeepingRuns(p, w, ids, es, w', ids') && Lifetime.ObedientRuns(p, w, h, es, w', h')
    ensures Meets(w', ids', h', loads')
    decreases |es|
  {
    ids', h' := ids, h;
    if es != [] {
      ByCrateIsAllowed(w, ids, h, loads, es[0]);
      MeetsStep(p, w, ids, h, loads, es[0]);
      ids', h' := CrateRunsAreAllowed(p, Apply(p, w, es[0]), Writers.Identify(p, w, ids, es[0]),
                                      Lifetime.Remember(p, w, h, es[0]), Collect(p, w, loads, es[0]), es[1..],
                                      w', loads');
    }
  }

  /** The crate's row bounds, with nothing asked of its callers but to keep to their own keys. */
  lemma CrateRowsStayBounded(p: Policy, w0: World, es: seq<Event>, w: World, loads: Loads) returns (l: RowBounds.Ledger)
    requires Initial(w0) && CrateRuns(p, w0, {}, es, w, loads)
    ensures RowBounds.SteadyRuns(p, w0, RowBounds.Ledger(map[], {}), es, w, l)
    ensures forall k | k in w.rows :: RowBounds.Bounded(p, l, k, w.rows[k])
  {
    var ids, _ := CrateRunsAreAllowed(p, w0, map[], map[], {}, es, w, loads);
    l := Writers.KeptRowsStayBounded(p, w0, es, w, ids);
  }

  /** The crate's absolute lifetime, likewise: a load returns a session as authenticated only before
      its first stamp plus the maximum, and within the maximum plus a minute of when the session its
      key descends from was first saved. */
  lemma CrateLifetime(p: Policy, w0: World, es: seq<Event>, w: World, loads: Loads, load: Event)
    returns (h: Lifetime.History)
    requires Initial(w0) && CrateRuns(p, w0, {}, es, w, loads)
    requires Enabled(w, load) && load.Step? && w.calls[load.id].LoadJudge?
    requires var after := Advance(p, w.rows, w.calls[load.id], EnvOf(w, load)).1;
             after.Done? && after.outcome.Loaded? && after.outcome.state.Some? && Sub in after.outcome.state.value
    ensures Lifetime.ObedientRuns(p, w0, map[], es, w, h)
    ensures var key := w.calls[load.id].key;
            key in h && h[key].stamp.Some? &&
            w.now < (h[key].stamp.value + p.maxLifetimeSecs) * NANOS_PER_SEC &&
            w.now < h[key].since + (p.maxLifetimeSecs + LOGIN_AT_FUTURE_SKEW_SECS) * NANOS_PER_SEC
  {
    var ids, h' := CrateRunsAreAllowed(p, w0, map[], map[], {}, es, w, loads);
    h := h';
    Lifetime.AbsoluteLifetime(p, w0, es, w, h, load);
    assert Writers.CallKept(ids, w.known, w.calls[load.id]);
  }
}

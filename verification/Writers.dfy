/** What the row bounds ask of those who write sessions: an update keeps the identity its key
    began with. Then no run lets a renewal touch a row whose identity changed under it. */
module Writers {
  import opened Wrappers
  import opened SessionState
  import opened Expiry
  import opened Store
  import opened StoreRuns
  import opened RowBounds

  /** Whether a session is authenticated, and its readable login stamp. */
  datatype Identity = Identity(authenticated: bool, stamp: Option<int>)

  type Identities = map<Key, Identity>

  function IdentityOf(state: State): Identity {
    Identity(Sub in state, ParseLoginAt(state))
  }

  /** The identity each key's first row is inserted with. */
  function Identify(p: Policy, w: World, ids: Identities, e: Event): Identities
    requires Enabled(w, e)
  {
    if !e.Step? then ids
    else match Advance(p, w.rows, w.calls[e.id], EnvOf(w, e)).1
      case SaveInsert(key, _) =>
        if w.calls[e.id].SavePrice? then ids[key := IdentityOf(w.calls[e.id].state)] else ids
      case UpdateInsert(key, _) =>
        if w.calls[e.id].UpdateMissing? then ids[key := IdentityOf(w.calls[e.id].state)] else ids
      case _ => ids
  }

  /** An update keeps `sub` and the login stamp as its key's session has them. */
  predicate Keeps(ids: Identities, e: Event) {
    e.Start? && e.call.UpdatePrice? && e.call.key in ids ==> IdentityOf(e.call.state) == ids[e.call.key]
  }

  ghost predicate KeepingRuns(p: Policy, w: World, ids: Identities, es: seq<Event>, w': World, ids': Identities)
    decreases |es|
  {
    if es == [] then
      w' == w && ids' == ids
    else
      Enabled(w, es[0]) && Keeps(ids, es[0]) &&
      KeepingRuns(p, Apply(p, w, es[0]), Identify(p, w, ids, es[0]), es[1..], w', ids')
  }

  // ---- The invariant ----------------------------------------------------------------

  predicate RowKept(ids: Identities, key: Key, row: Row) {
    key in ids && row.state.Some? && IdentityOf(row.state.value) == ids[key]
  }

  predicate StateKept(ids: Identities, known: set<Key>, key: Key, state: State) {
    key in known && (key in ids ==> IdentityOf(state) == ids[key])
  }

  predicate CallKept(ids: Identities, known: set<Key>, call: Call) {
    match call
    case LoadJudge(key, row) => RowKept(ids, key, row)
    case SaveInsert(key, row) => RowKept(ids, key, row)
    case UpdateInsert(key, row) => RowKept(ids, key, row)
    case UpdatePrice(key, state, _) => StateKept(ids, known, key, state)
    case UpdateWrite(key, state, _, _) => StateKept(ids, known, key, state)
    case UpdateMissing(key, state, _) => StateKept(ids, known, key, state)
    case RenewJudge(key, row, _) => RowKept(ids, key, row)
    case RenewPrice(key, state, _, _) => key in ids && IdentityOf(state) == ids[key]
    case RenewTouch(key, state, _) => key in ids && IdentityOf(state) == ids[key]
    case _ => true
  }

  ghost predicate Kept(w: World, ids: Identities) {
    ids.Keys <= w.known &&
    (forall k | k in w.rows :: RowKept(ids, k, w.rows[k])) &&
    (forall id | id in w.calls :: CallKept(ids, w.known, w.calls[id]))
  }

  /** A map of identities that grew by keys nobody knew yet. */
  predicate Grows(ids: Identities, ids': Identities, known: set<Key>) {
    (forall k | k in ids :: k in ids' && ids'[k] == ids[k]) && forall k | k in ids' && k !in ids :: k !in known
  }

  lemma KeptGrows(ids: Identities, ids': Identities, known: set<Key>, known': set<Key>, call: Call)
    requires CallKept(ids, known, call) && known <= known' && Grows(ids, ids', known)
    ensures CallKept(ids', known', call)
  {
  }

  lemma IdentifyGrows(p: Policy, w: World, ids: Identities, e: Event)
    requires Kept(w, ids) && Enabled(w, e)
    ensures Grows(ids, Identify(p, w, ids, e), w.known)
    ensures e.Step? ==> Identify(p, w, ids, e).Keys <= ids.Keys + {e.newKey}
    ensures !e.Step? ==> Identify(p, w, ids, e) == ids
  {
  }

  lemma OwnCallKept(p: Policy, w: World, ids: Identities, e: Event)
    requires Kept(w, ids) && Enabled(w, e) && e.Step?
    ensures CallKept(Identify(p, w, ids, e), w.known + {e.newKey}, Advance(p, w.rows, w.calls[e.id], EnvOf(w, e)).1)
  {
    assert CallKept(ids, w.known, w.calls[e.id]);
  }

  lemma RowsKept(p: Policy, w: World, ids: Identities, e: Event)
    requires Kept(w, ids) && Enabled(w, e) && e.Step?
    ensures var rows := Advance(p, w.rows, w.calls[e.id], EnvOf(w, e)).0;
            forall k | k in rows :: RowKept(ids, k, rows[k])
  {
    assert CallKept(ids, w.known, w.calls[e.id]);
  }

  lemma KeptStep(p: Policy, w: World, ids: Identities, e: Event)
    requires Kept(w, ids) && Enabled(w, e) && Keeps(ids, e)
    ensures Kept(Apply(p, w, e), Identify(p, w, ids, e))
  {
    var (w', ids') := (Apply(p, w, e), Identify(p, w, ids, e));
    IdentifyGrows(p, w, ids, e);
    if e.Step? {
      OwnCallKept(p, w, ids, e);
      RowsKept(p, w, ids, e);
    }
    forall id | id in w.calls && id in w'.calls && w'.calls[id] == w.calls[id]
      ensures CallKept(ids', w'.known, w'.calls[id])
    {
      KeptGrows(ids, ids', w.known, w'.known, w.calls[id]);
    }
  }

  /** Every touch of a kept world is steady. */
  lemma KeptIsSteady(w: World, ids: Identities, e: Event)
    requires Kept(w, ids) && Enabled(w, e)
    ensures Steady(w, e)
  {
    if Touches(w, e) {
      assert CallKept(ids, w.known, w.calls[e.id]);
    }
  }

  /** Runs whose writers keep identities are steady runs. */
  lemma {:induction false} KeepingRunsAreSteady(p: Policy, w: World, ids: Identities, l: Ledger, es: seq<Event>,
                                                w': World, ids': Identities)
    returns (l': Ledger)
    requires Kept(w, ids) && KeepingRuns(p, w, ids, es, w', ids')
    ensures Kept(w', ids') && SteadyRuns(p, w, l, es, w', l')
    decreases |es|
  {
    l' := l;
    if es != [] {
      KeptIsSteady(w, ids, es[0]);
      KeptStep(p, w, ids, es[0]);
      l' := KeepingRunsAreSteady(p, Apply(p, w, es[0]), Identify(p, w, ids, es[0]), Record(w, l, es[0]), es[1..],
                                 w', ids');
    }
  }

  /** The row bounds, from what writers do: in every run from an empty store whose updates keep the
      identity of their key, every row is bounded. */
  lemma KeptRowsStayBounded(p: Policy, w0: World, es: seq<Event>, w: World, ids: Identities) returns (l: Ledger)
    requires Initial(w0) && KeepingRuns(p, w0, map[], es, w, ids)
    ensures SteadyRuns(p, w0, Ledger(map[], {}), es, w, l)
    ensures forall k | k in w.rows :: Bounded(p, l, k, w.rows[k])
  {
    l := KeepingRunsAreSteady(p, w0, map[], Ledger(map[], {}), es, w, ids);
    InitiallyBounded(p, w0);
    RowsStayBounded(p, w0, Ledger(map[], {}), es, w, l);
  }

  predicate RenewalStep(call: Call) {
    call.RenewGet? || call.RenewJudge? || call.RenewPrice? || call.RenewTouch? || call.RenewDelete?
  }

  /** And no anonymous row is ever renewed: whatever step a renewal takes leaves it as it is, or
      deletes it. */
  lemma AnonymousRowsAreNeverRenewed(p: Policy, w0: World, es: seq<Event>, w: World, ids: Identities, e: Event,
                                     key: Key)
    requires Initial(w0) && KeepingRuns(p, w0, map[], es, w, ids)
    requires key in w.rows && w.rows[key].state.Some? && Sub !in w.rows[key].state.value
    requires Enabled(w, e) && e.Step? && RenewalStep(w.calls[e.id])
    ensures key in Apply(p, w, e).rows ==> Apply(p, w, e).rows[key] == w.rows[key]
  {
    var l := KeepingRunsAreSteady(p, w0, map[], Ledger(map[], {}), es, w, ids);
    InitiallyBounded(p, w0);
    RowsStayBounded(p, w0, Ledger(map[], {}), es, w, l);
    KeptIsSteady(w, ids, e);
    assert CallBounded(p, w.now, w.calls[e.id]);
  }
}

/** What happens under a key between a call's lookup of a row and what the call then does to it. */
module Watches {
  import opened Wrappers
  import opened Clock
  import opened SessionState
  import opened Expiry
  import opened Store
  import opened StoreRuns
  import opened RowBounds

  /** What a call that looked a row up has missed: the rows its key has held since, the one it found
      first, with the TTL it was asked for and the time of its latest judgement. */
  datatype Watch = Watch(rows: seq<Row>, ttl: int, at: Nanos) {
    function Last(): Row
      requires rows != []
    {
      rows[|rows| - 1]
    }
  }

  type Journal = map<nat, Watch>

  /** A call between its lookup and its end. */
  predicate Watching(call: Call) {
    call.LoadJudge? || call.LoadDelete? ||
    call.RenewJudge? || call.RenewPrice? || call.RenewTouch? || call.RenewDelete?
  }

  /** An update that replaces the row under its key. */
  predicate WritesInPlace(w: World, e: Event)
    requires Enabled(w, e)
  {
    e.Step? && w.calls[e.id].UpdateWrite? && EnvOf(w, e).Applies() && Visible(w.rows, w.calls[e.id].key, EnvOf(w, e))
  }

  predicate Rewrites(w: World, e: Event)
    requires Enabled(w, e)
  {
    WritesInPlace(w, e) || Touches(w, e)
  }

  /** The row a rewriting step leaves. */
  function NewRow(w: World, e: Event): Row
    requires Enabled(w, e) && Rewrites(w, e)
  {
    match w.calls[e.id]
    case UpdateWrite(_, state, _, expiresAt) => Row(Some(state), expiresAt)
    case RenewTouch(key, _, expiresAt) => w.rows[key].(expiresAt := expiresAt)
  }

  /** Every watch on the key sees the new row. */
  function Seen(w: World, j: Journal, e: Event): Journal
    requires Enabled(w, e)
  {
    if Rewrites(w, e) then
      map id | id in j ::
        if id in w.calls && Watching(w.calls[id]) && w.calls[id].key == w.calls[e.id].key
        then j[id].(rows := j[id].rows + [NewRow(w, e)])
        else j[id]
    else
      j
  }

  function Note(w: World, j: Journal, e: Event): Journal
    requires Enabled(w, e)
  {
    if !e.Step? then
      j
    else
      match w.calls[e.id]
      case LoadGet(key) => if key in w.rows then j[e.id := Watch([w.rows[key]], 0, w.now)] else j
      case RenewGet(key, ttl) => if key in w.rows then j[e.id := Watch([w.rows[key]], ttl, w.now)] else j
      case LoadJudge(_, _) => Judged(j, e.id, w.now)
      case RenewJudge(_, _, _) => Judged(j, e.id, w.now)
      case RenewPrice(_, _, _, _) => Judged(j, e.id, w.now)
      case _ => Seen(w, j, e)
  }

  function Judged(j: Journal, id: nat, now: Nanos): Journal {
    if id in j then j[id := j[id].(at := now)] else j
  }

  ghost predicate JournaledRuns(p: Policy, w: World, j: Journal, es: seq<Event>, w': World, j': Journal)
    decreases |es|
  {
    if es == [] then
      w' == w && j' == j
    else
      Enabled(w, es[0]) && JournaledRuns(p, Apply(p, w, es[0]), Note(w, j, es[0]), es[1..], w', j')
  }

  // ---- The invariant ------------------------------------------------------------------

  /** No TTL the clock can be moved by: the renewal's price fails whatever the row. */
  predicate Unpriceable(state: State, p: Policy, ttl: int, now: Nanos) {
    Sub in state && EffectiveExpiry(p, state, ttl, now).None?
  }

  /** What a call knows of the row it found. */
  predicate Knows(p: Policy, call: Call, watch: Watch)
    requires watch.rows != []
  {
    var found := watch.rows[0];
    match call
    case LoadJudge(_, row) => row == found
    case LoadDelete(key) => JudgeLoad(p, key, found, watch.at).LoadDelete?
    case RenewJudge(_, row, ttl) => row == found && ttl == watch.ttl
    case RenewPrice(_, state, was, ttl) =>
      found == Row(Some(state), was) && Sub in state && ttl == watch.ttl
    case RenewTouch(_, state, expiresAt) =>
      found.state == Some(state) && Sub in state && found.expiresAt < expiresAt
    case RenewDelete(_) =>
      found.expiresAt <= watch.at || found.state.None? || Unpriceable(found.state.value, p, watch.ttl, watch.at)
    case _ => true
  }

  /** The watch's first row is the one found, its last the one still there, if any is. */
  predicate CallWatched(p: Policy, rows: Rows, born: set<Key>, now: Nanos, call: Call, watch: Watch) {
    watch.rows != [] && watch.at <= now && Watching(call) && call.key in born &&
    (call.key in rows ==> rows[call.key] == watch.Last()) && Knows(p, call, watch)
  }

  ghost predicate Watched(p: Policy, w: World, j: Journal) {
    KeysInOrder(w) &&
    forall id | id in w.calls && Watching(w.calls[id]) ::
      id in j && CallWatched(p, w.rows, w.born, w.now, w.calls[id], j[id])
  }

  /** A lookup that finds a row starts its watch. */
  lemma LookupWatched(p: Policy, w: World, j: Journal, e: Event)
    requires Watched(p, w, j) && Enabled(w, e) && e.Step? && (w.calls[e.id].LoadGet? || w.calls[e.id].RenewGet?)
    requires Watching(Apply(p, w, e).calls[e.id])
    ensures e.id in Note(w, j, e)
    ensures var w' := Apply(p, w, e);
            CallWatched(p, w'.rows, w'.born, w'.now, w'.calls[e.id], Note(w, j, e)[e.id])
  {
  }

  /** A judgement adds what the call knows, at the time it was made. */
  lemma JudgementKnows(p: Policy, rows: Rows, call: Call, watch: Watch, env: Env)
    requires call.LoadJudge? || call.RenewJudge? || call.RenewPrice?
    requires watch.rows != [] && Knows(p, call, watch) && Watching(Advance(p, rows, call, env).1)
    ensures Advance(p, rows, call, env).0 == rows && Advance(p, rows, call, env).1.key == call.key
    ensures Knows(p, Advance(p, rows, call, env).1, watch.(at := env.now))
  {
  }

  /** A call's own step. */
  lemma OwnStepWatched(p: Policy, w: World, j: Journal, e: Event)
    requires Watched(p, w, j) && Enabled(w, e) && e.Step? && Watching(Apply(p, w, e).calls[e.id])
    ensures e.id in Note(w, j, e)
    ensures var w' := Apply(p, w, e);
            CallWatched(p, w'.rows, w'.born, w'.now, w'.calls[e.id], Note(w, j, e)[e.id])
  {
    var call := w.calls[e.id];
    if call.LoadGet? || call.RenewGet? {
      LookupWatched(p, w, j, e);
    } else {
      JudgementKnows(p, w.rows, call, j[e.id], EnvOf(w, e));
    }
  }

  /** What another call's step does to the row under a watched key: a rewrite, which the watch sees,
      or a removal, or nothing. */
  lemma OtherStepRows(p: Policy, w: World, e: Event, key: Key)
    requires KeysInOrder(w) && Enabled(w, e) && e.Step? && key in w.born && key in Apply(p, w, e).rows
    ensures key in w.rows
    ensures Apply(p, w, e).rows[key] ==
            if Rewrites(w, e) && w.calls[e.id].key == key then NewRow(w, e) else w.rows[key]
  {
  }

  lemma OtherStepWatched(p: Policy, w: World, j: Journal, e: Event, id: nat)
    requires Watched(p, w, j) && Enabled(w, e) && e.Step?
    requires id in w.calls && id != e.id && Watching(w.calls[id])
    ensures id in Note(w, j, e)
    ensures var w' := Apply(p, w, e);
            CallWatched(p, w'.rows, w'.born, w'.now, w.calls[id], Note(w, j, e)[id])
  {
    var key := w.calls[id].key;
    assert Note(w, j, e)[id] ==
           if Rewrites(w, e) && w.calls[e.id].key == key then j[id].(rows := j[id].rows + [NewRow(w, e)]) else j[id];
    if key in Apply(p, w, e).rows {
      OtherStepRows(p, w, e, key);
    }
  }

  lemma WatchedStep(p: Policy, w: World, j: Journal, e: Event)
    requires Watched(p, w, j) && Enabled(w, e)
    ensures Watched(p, Apply(p, w, e), Note(w, j, e))
  {
    KeysStayInOrder(p, w, e);
    if e.Step? {
      if Watching(Apply(p, w, e).calls[e.id]) {
        OwnStepWatched(p, w, j, e);
      }
      forall id | id in w.calls && id != e.id && Watching(w.calls[id])
        ensures id in Note(w, j, e)
        ensures CallWatched(p, Apply(p, w, e).rows, Apply(p, w, e).born, w.now, w.calls[id], Note(w, j, e)[id])
      {
        OtherStepWatched(p, w, j, e, id);
      }
    }
  }

  lemma {:induction false} WatchedAlways(p: Policy, w: World, j: Journal, es: seq<Event>, w': World, j': Journal)
    requires Watched(p, w, j) && JournaledRuns(p, w, j, es, w', j')
    ensures Watched(p, w', j')
    decreases |es|
  {
    if es != [] {
      WatchedStep(p, w, j, es[0]);
      WatchedAlways(p, Apply(p, w, es[0]), Note(w, j, es[0]), es[1..], w', j');
    }
  }

  /** In every run, a call between its lookup and its end knows what it found and has its key's
      history since. */
  lemma CallIsWatched(p: Policy, w0: World, es: seq<Event>, w: World, j: Journal, id: nat)
    requires Initial(w0) && JournaledRuns(p, w0, map[], es, w, j)
    requires id in w.calls && Watching(w.calls[id])
    ensures id in j && CallWatched(p, w.rows, w.born, w.now, w.calls[id], j[id])
  {
    WatchedAlways(p, w0, map[], es, w, j);
  }
}

/** Runs of the store: any number of calls in flight, their steps interleaved in any order,
    a clock that never goes back, and generated keys that never repeat. */
module StoreRuns {
  import opened Wrappers
  import opened Clock
  import opened Expiry
  import opened Store

  /** `known` are the keys generated so far or named by a caller; `born` are those a row was
      ever inserted under. */
  datatype World = World(now: Nanos, rows: Rows, calls: map<nat, Call>, known: set<Key>, born: set<Key>)

  datatype Event =
    | Tick(to: Nanos)
    | Start(id: nat, call: Call)
    | Step(id: nat, newKey: Key, hides: bool, fault: Fault)

  /** A store operation about to begin. */
  predicate IsEntry(call: Call) {
    call.LoadGet? || call.SaveStamp? || call.UpdatePrice? || call.RenewGet? || call.LogoutDelete?
  }

  function Named(call: Call): set<Key>
    requires IsEntry(call)
  {
    if call.SaveStamp? then {} else {call.key}
  }

  function EnvOf(w: World, e: Event): Env
    requires e.Step?
  {
    Env(w.now, e.newKey, e.hides, e.fault)
  }

  /** A 64-character random key collides with none generated before and none a caller guessed. */
  predicate Enabled(w: World, e: Event) {
    match e
    case Tick(to) => w.now <= to
    case Start(id, call) => id !in w.calls && IsEntry(call)
    case Step(id, newKey, _, _) => id in w.calls && newKey !in w.known
  }

  function Apply(p: Policy, w: World, e: Event): World
    requires Enabled(w, e)
  {
    match e
    case Tick(to) => w.(now := to)
    case Start(id, call) => w.(calls := w.calls[id := call], known := w.known + Named(call))
    case Step(id, newKey, _, _) =>
      var (rows, call) := Advance(p, w.rows, w.calls[id], EnvOf(w, e));
      World(w.now, rows, w.calls[id := call], w.known + {newKey}, w.born + rows.Keys)
  }

  ghost predicate Runs(p: Policy, w: World, es: seq<Event>, w': World)
    decreases |es|
  {
    if es == [] then w' == w
    else Enabled(w, es[0]) && Runs(p, Apply(p, w, es[0]), es[1..], w')
  }

  predicate Initial(w: World) {
    w.rows == map[] && w.calls == map[] && w.known == {} && w.born == {}
  }

  /** The key a call is about to insert a row under. */
  function Pending(call: Call): Option<Key> {
    match call
    case SaveInsert(key, _) => Some(key)
    case UpdateInsert(key, _) => Some(key)
    case _ => None
  }

  ghost predicate KeysInOrder(w: World) {
    w.rows.Keys <= w.born && w.born <= w.known &&
    (forall id | id in w.calls && Pending(w.calls[id]).Some? ::
       Pending(w.calls[id]).value in w.known && Pending(w.calls[id]).value !in w.born) &&
    (forall i, j | i in w.calls && j in w.calls && i != j && Pending(w.calls[i]).Some? ::
       Pending(w.calls[i]) != Pending(w.calls[j]))
  }

  /** What one step of one call does to the set of keys. */
  lemma AdvanceKeys(p: Policy, rows: Rows, call: Call, env: Env)
    ensures var (rows', call') := Advance(p, rows, call, env);
            (forall k | k in rows' :: k in rows || Pending(call) == Some(k)) &&
            (Pending(call').Some? ==> Pending(call') == Some(env.newKey) || call' == call) &&
            (Pending(call).Some? ==> Pending(call').None?)
  {
  }

  lemma KeysStayInOrder(p: Policy, w: World, e: Event)
    requires KeysInOrder(w) && Enabled(w, e)
    ensures KeysInOrder(Apply(p, w, e))
  {
    if e.Step? {
      AdvanceKeys(p, w.rows, w.calls[e.id], EnvOf(w, e));
    }
  }

  /** In every run from nothing, rows exist only under keys drawn once, and no key about to be
      inserted was ever used before. */
  lemma {:induction false} KeysAlwaysInOrder(p: Policy, w: World, es: seq<Event>, w': World)
    requires (Initial(w) || KeysInOrder(w)) && Runs(p, w, es, w')
    ensures KeysInOrder(w')
    decreases |es|
  {
    if es != [] {
      KeysStayInOrder(p, w, es[0]);
      KeysAlwaysInOrder(p, Apply(p, w, es[0]), es[1..], w');
    }
  }
}

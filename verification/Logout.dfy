/** Logout is final. */
module Logout {
  import opened Wrappers
  import opened Expiry
  import opened Store
  import opened StoreRuns

  /** A key whose row existed and is gone. */
  predicate Dead(w: World, key: Key) {
    key in w.born && key !in w.rows
  }

  lemma DeadStaysDeadStep(p: Policy, w: World, e: Event, key: Key)
    requires KeysInOrder(w) && Dead(w, key) && Enabled(w, e)
    ensures KeysInOrder(Apply(p, w, e)) && Dead(Apply(p, w, e), key)
  {
    KeysStayInOrder(p, w, e);
    if e.Step? {
      AdvanceKeys(p, w.rows, w.calls[e.id], EnvOf(w, e));
    }
  }

  /** Once a row is gone, no interleaving of any calls brings a row back under its key. */
  lemma {:induction false} DeadStaysDead(p: Policy, w: World, es: seq<Event>, w': World, key: Key)
    requires KeysInOrder(w) && Dead(w, key) && Runs(p, w, es, w')
    ensures KeysInOrder(w') && Dead(w', key)
    decreases |es|
  {
    if es != [] {
      DeadStaysDeadStep(p, w, es[0], key);
      DeadStaysDead(p, Apply(p, w, es[0]), es[1..], w', key);
    }
  }

  /** Logout is final: in any run, after a logout's delete takes effect, its reply lost or not,
      nothing that follows, however its loads, saves, updates and renewals interleave, ever has a
      row under that key again, and every later lookup of it finds nothing. */
  lemma LogoutIsFinal(p: Policy, w0: World, before: seq<Event>, w: World, logout: Event, es: seq<Event>, w': World)
    requires Initial(w0) && Runs(p, w0, before, w) && Enabled(w, logout)
    requires logout.Step? && !logout.fault.Refused? && w.calls[logout.id].LogoutDelete?
    requires w.calls[logout.id].key in w.born
    requires Runs(p, Apply(p, w, logout), es, w')
    ensures w.calls[logout.id].key !in w'.rows
    ensures forall env: Env ::
              !env.Fails() ==> Advance(p, w'.rows, LoadGet(w.calls[logout.id].key), env).1 == Done(Loaded(None))
  {
    KeysAlwaysInOrder(p, w0, before, w);
    KeysStayInOrder(p, w, logout);
    DeadStaysDead(p, Apply(p, w, logout), es, w', w.calls[logout.id].key);
  }

  /** An update of `key` that carries a token and has not finished. */
  predicate TokenUpdate(call: Call, key: Key) {
    (call.UpdatePrice? || call.UpdateWrite? || call.UpdateMissing?) && call.key == key && HasTokens(call.state)
  }

  /** A call that can no longer put anything anywhere, as long as `key` is dead. */
  predicate Harmless(call: Call, key: Key) {
    TokenUpdate(call, key) || call == UpdateDelete(key) || call.Done?
  }

  lemma HarmlessStep(p: Policy, rows: Rows, call: Call, env: Env, key: Key)
    requires key !in rows && Harmless(call, key)
    ensures Advance(p, rows, call, env).0 == rows
    ensures Harmless(Advance(p, rows, call, env).1, key)
  {
  }

  /** A token-bearing update racing a logout is dropped: in every continuation of a world
      where its key is dead, each of its steps leaves the rows exactly as they were, so its
      state is never inserted under this key or any other. */
  lemma {:induction false} RacingTokenWriteIsDropped(p: Policy, w: World, es: seq<Event>, w': World, id: nat, key: Key,
                                                     step: Event)
    requires KeysInOrder(w) && Dead(w, key)
    requires id in w.calls && Harmless(w.calls[id], key)
    requires Runs(p, w, es, w')
    requires step.Step? && step.id == id && Enabled(w', step)
    ensures Apply(p, w', step).rows == w'.rows
    decreases |es|
  {
    if es == [] {
      HarmlessStep(p, w.rows, w.calls[id], EnvOf(w, step), key);
    } else {
      var e := es[0];
      DeadStaysDeadStep(p, w, e, key);
      if e.Step? && e.id == id {
        HarmlessStep(p, w.rows, w.calls[id], EnvOf(w, e), key);
      }
      RacingTokenWriteIsDropped(p, Apply(p, w, e), es[1..], w', id, key, step);
    }
  }

  /** A row the missing-row fallback inserts never holds a token. */
  predicate TokenFreeFallback(w: World) {
    forall id | id in w.calls && w.calls[id].UpdateInsert? ::
      w.calls[id].row.state.Some? && !HasTokens(w.calls[id].row.state.value)
  }

  lemma TokenFreeStep(p: Policy, w: World, e: Event)
    requires TokenFreeFallback(w) && Enabled(w, e)
    ensures TokenFreeFallback(Apply(p, w, e))
  {
    if e.Step? {
      var call' := Advance(p, w.rows, w.calls[e.id], EnvOf(w, e)).1;
      assert call'.UpdateInsert? ==> w.calls[e.id].UpdateMissing?;
    }
  }

  /** From any start, a token-bearing row appears under a new key only when a save inserts it. */
  lemma {:induction false} TokensEnterBySaveOnly(p: Policy, w: World, es: seq<Event>, w': World, step: Event, key: Key)
    requires TokenFreeFallback(w) && Runs(p, w, es, w') && Enabled(w', step)
    requires key !in w'.rows && key in Apply(p, w', step).rows
    requires Apply(p, w', step).rows[key].state.Some? && HasTokens(Apply(p, w', step).rows[key].state.value)
    ensures step.Step? && w'.calls[step.id].SaveInsert?
    decreases |es|
  {
    if es == [] {
      AdvanceKeys(p, w.rows, w.calls[step.id], EnvOf(w, step));
    } else {
      TokenFreeStep(p, w, es[0]);
      TokensEnterBySaveOnly(p, Apply(p, w, es[0]), es[1..], w', step, key);
    }
  }
}

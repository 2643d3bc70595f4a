/** Runs of the store, step by step from nothing, in which two calls on one row overlap. */
module RaceWitnesses {
  import opened Wrappers
  import opened Clock
  import opened SessionState
  import opened Expiry
  import opened Store
  import opened StoreRuns

  /** Keys that differ by their lengths. */
  function Name(n: nat): Key {
    seq(n, _ => 'k')
  }

  /** Only keys shorter than `n` are known. */
  ghost predicate Below(w: World, n: nat) {
    forall k | k in w.known :: |k| < n
  }

  const EMPTY := World(0, map[], map[], {}, {})

  const P: Policy := DefaultPolicy()

  function Seconds(n: int): Nanos {
    n * NANOS_PER_SEC
  }

  // ---- Reaching worlds ---------------------------------------------------------------

  /** A property of worlds that every event keeps. */
  ghost predicate Closed(reached: World -> bool) {
    forall w, e {:trigger Apply(P, w, e), reached(w)} | reached(w) && Enabled(w, e) :: reached(Apply(P, w, e))
  }

  ghost predicate Reached(w: World) {
    exists es :: Runs(P, EMPTY, es, w)
  }

  lemma {:induction false} RunsOn(w0: World, es: seq<Event>, w: World, e: Event)
    requires Runs(P, w0, es, w) && Enabled(w, e)
    ensures Runs(P, w0, es + [e], Apply(P, w, e))
    decreases |es|
  {
    if es == [] {
      assert [e][1..] == [];
    } else {
      assert (es + [e])[1..] == es[1..] + [e];
      RunsOn(Apply(P, w0, es[0]), es[1..], w, e);
    }
  }

  lemma ReachedIsClosed()
    ensures Reached(EMPTY) && Closed(w => Reached(w))
  {
    assert Runs(P, EMPTY, [], EMPTY);
    forall w, e | Reached(w) && Enabled(w, e)
      ensures Reached(Apply(P, w, e))
    {
      var es :| Runs(P, EMPTY, es, w);
      RunsOn(EMPTY, es, w, e);
    }
  }

  function EnvAt(now: Nanos, n: nat): Env {
    Env(now, Name(n), false, Succeeds)
  }

  /** A call advances: only the rows, the call and the known keys change. */
  lemma StepOn(reached: World -> bool, w: World, id: nat, n: nat, rows: Rows, call: Call) returns (w': World)
    requires Closed(reached) && reached(w) && Below(w, n) && id in w.calls
    requires Advance(P, w.rows, w.calls[id], EnvAt(w.now, n)) == (rows, call)
    ensures reached(w') && Below(w', n + 1)
    ensures w'.now == w.now && w'.rows == rows && w'.calls == w.calls[id := call]
  {
    w' := Apply(P, w, Step(id, Name(n), false, Succeeds));
  }

  /** A call begins, on a key drawn before. */
  lemma StartOn(reached: World -> bool, w: World, id: nat, call: Call, n: nat) returns (w': World)
    requires Closed(reached) && reached(w) && Below(w, n) && id !in w.calls && IsEntry(call)
    requires forall k | k in Named(call) :: |k| < n
    ensures reached(w') && Below(w', n)
    ensures w'.now == w.now && w'.rows == w.rows && w'.calls == w.calls[id := call]
  {
    w' := Apply(P, w, Start(id, call));
  }

  lemma TickOn(reached: World -> bool, w: World, to: Nanos, n: nat) returns (w': World)
    requires Closed(reached) && reached(w) && Below(w, n) && w.now <= to
    ensures reached(w') && Below(w', n)
    ensures w'.now == to && w'.rows == w.rows && w'.calls == w.calls
  {
    w' := Apply(P, w, Tick(to));
  }

  // ---- A user's row and its renewals ----------------------------------------------------

  /** An authenticated state stamped at the epoch. */
  predicate StampedAtZero(user: State) {
    Sub in user && ParseLoginAt(user) == Some(0)
  }

  function UserRow(user: State, expiresAt: Nanos): Rows {
    map[Name(1) := Row(Some(user), expiresAt)]
  }

  /** The row of a user saved at the epoch for a minute. */
  lemma SavedUser(reached: World -> bool, user: State) returns (w: World)
    requires Closed(reached) && reached(EMPTY) && StampedAtZero(user)
    ensures reached(w) && Below(w, 3)
    ensures w.now == 0 && w.rows == UserRow(user, Seconds(60)) && w.calls.Keys == {0}
  {
    w := StartOn(reached, EMPTY, 0, SaveStamp(user, 60), 0);
    w := StepOn(reached, w, 0, 0, map[], SavePrice(user, 60));
    w := StepOn(reached, w, 0, 1, map[], SaveInsert(Name(1), Row(Some(user), Seconds(60))));
    w := StepOn(reached, w, 0, 2, UserRow(user, Seconds(60)), Done(SavedAs(Name(1))));
  }

  /** A renewal that found the row, up to its price. */
  lemma RenewalJudged(reached: World -> bool, w0: World, user: State, id: nat, n: nat) returns (w: World)
    requires Closed(reached) && reached(w0) && Below(w0, n) && n > 1 && id !in w0.calls
    requires StampedAtZero(user) && w0.now == 0 && w0.rows == UserRow(user, Seconds(60))
    ensures reached(w) && Below(w, n + 2) && w.now == 0 && w.rows == w0.rows
    ensures w.calls == w0.calls[id := RenewPrice(Name(1), user, Seconds(60), 3600)]
  {
    w := StartOn(reached, w0, id, RenewGet(Name(1), 3600), n);
    w := StepOn(reached, w, id, n, w0.rows, RenewJudge(Name(1), Row(Some(user), Seconds(60)), 3600));
    w := StepOn(reached, w, id, n + 1, w0.rows, RenewPrice(Name(1), user, Seconds(60), 3600));
  }

  /** A renewal that prices the row for an hour. */
  lemma RenewalPriced(reached: World -> bool, w0: World, user: State, id: nat, n: nat) returns (w: World)
    requires Closed(reached) && reached(w0) && Below(w0, n) && id in w0.calls
    requires StampedAtZero(user) && 0 <= w0.now <= Seconds(30)
    requires w0.calls[id] == RenewPrice(Name(1), user, Seconds(60), 3600)
    ensures reached(w) && Below(w, n + 1) && w.now == w0.now && w.rows == w0.rows
    ensures w.calls == w0.calls[id := RenewTouch(Name(1), user, w0.now + Seconds(3600))]
  {
    w := StepOn(reached, w0, id, n, w0.rows, RenewTouch(Name(1), user, w0.now + Seconds(3600)));
  }

  lemma UserTouched(reached: World -> bool, w0: World, user: State, id: nat, n: nat, was: Nanos, expiresAt: Nanos)
    returns (w: World)
    requires Closed(reached) && reached(w0) && Below(w0, n) && id in w0.calls
    requires w0.rows == UserRow(user, was) && was > w0.now
    requires w0.calls[id] == RenewTouch(Name(1), user, expiresAt)
    ensures reached(w) && Below(w, n + 1) && w.now == w0.now && w.rows == UserRow(user, expiresAt)
    ensures w.calls == w0.calls[id := Done(Renewed)]
  {
    assert w0.rows[Name(1) := Row(Some(user), expiresAt)] == UserRow(user, expiresAt);
    w := StepOn(reached, w0, id, n, UserRow(user, expiresAt), Done(Renewed));
  }

  lemma DroppedUser(reached: World -> bool, w0: World, user: State, id: nat, n: nat) returns (w: World)
    requires Closed(reached) && reached(w0) && Below(w0, n) && n > 1 && id !in w0.calls
    requires w0.now == 0 && w0.rows == UserRow(user, Seconds(60))
    ensures reached(w) && Below(w, n + 2) && w.now == 0 && w.rows == UserRow(map[], Seconds(600))
    ensures w.calls == w0.calls[id := Done(UpdatedAs(Name(1)))]
  {
    w := StartOn(reached, w0, id, UpdatePrice(Name(1), map[], 3600), n);
    w := StepOn(reached, w, id, n, w0.rows, UpdateWrite(Name(1), map[], 3600, Seconds(600)));
    assert w0.rows[Name(1) := Row(Some(map[]), Seconds(600))] == UserRow(map[], Seconds(600));
    w := StepOn(reached, w, id, n + 1, UserRow(map[], Seconds(600)), Done(UpdatedAs(Name(1))));
  }

  // ---- The two races --------------------------------------------------------------------

  lemma TouchMoves(w: World, touch: Event, state: State, was: Nanos, user: State, expiresAt: Nanos)
    requires Enabled(w, touch) && touch.Step? && touch.fault == Succeeds
    requires w.rows == UserRow(state, was) && was > w.now
    requires w.calls[touch.id] == RenewTouch(Name(1), user, expiresAt)
    ensures Apply(P, w, touch).rows == UserRow(state, expiresAt)
  {
  }

  /** An anonymous row can be renewed: a renewal finds the user's row; an update then replaces it
      by a state without `sub`, to expire in ten minutes; the renewal's touch gives it an hour. */
  lemma AnonymousRowIsRenewed(user: State) returns (w: World, touch: Event)
    requires StampedAtZero(user)
    ensures Reached(w) && Enabled(w, touch) && touch.Step? && w.calls[touch.id].RenewTouch?
    ensures w.now == 0 && w.rows == UserRow(map[], Seconds(600))
    ensures Apply(P, w, touch).rows == UserRow(map[], Seconds(3600))
  {
    var reached := w => Reached(w);
    ReachedIsClosed();
    w := SavedUser(reached, user);
    w := RenewalJudged(reached, w, user, 1, 3);
    w := RenewalPriced(reached, w, user, 1, 5);
    w := DroppedUser(reached, w, user, 2, 6);
    touch := Step(1, Name(8), false, Succeeds);
    TouchMoves(w, touch, map[], Seconds(600), user, Seconds(3600));
  }

  /** Two overlapping renewals move the expiry back: both look the row up; the second prices it at
      five seconds and the first at ten; the first touches, then the second. */
  lemma OverlappingRenewalsShorten(user: State) returns (w: World, touch: Event)
    requires StampedAtZero(user)
    ensures Reached(w) && Enabled(w, touch) && touch.Step? && w.calls[touch.id].RenewTouch?
    ensures w.rows == UserRow(user, Seconds(3610))
    ensures Apply(P, w, touch).rows == UserRow(user, Seconds(3605))
  {
    var reached := w => Reached(w);
    ReachedIsClosed();
    w := SavedUser(reached, user);
    w := RenewalJudged(reached, w, user, 1, 3);
    w := RenewalJudged(reached, w, user, 2, 5);
    w := TickOn(reached, w, Seconds(5), 7);
    w := RenewalPriced(reached, w, user, 2, 7);
    w := TickOn(reached, w, Seconds(10), 8);
    w := RenewalPriced(reached, w, user, 1, 8);
    w := UserTouched(reached, w, user, 1, 9, Seconds(60), Seconds(3610));
    touch := Step(2, Name(10), false, Succeeds);
    TouchMoves(w, touch, user, Seconds(3610), user, Seconds(3605));
  }

  /** The user's row replaced by an update that asks for `ttl` seconds. */
  lemma UserUpdated(reached: World -> bool, w0: World, user: State, id: nat, n: nat, was: Nanos, ttl: int)
    returns (w: World)
    requires Closed(reached) && reached(w0) && Below(w0, n) && n > 1 && id !in w0.calls
    requires StampedAtZero(user) && 0 <= w0.now <= Seconds(100) && 0 < ttl <= 7200
    requires w0.rows == UserRow(user, was)
    ensures reached(w) && Below(w, n + 2) && w.now == w0.now && w.rows == UserRow(user, w0.now + Seconds(ttl))
    ensures w.calls == w0.calls[id := Done(UpdatedAs(Name(1)))]
  {
    var expiresAt := w0.now + Seconds(ttl);
    w := StartOn(reached, w0, id, UpdatePrice(Name(1), user, ttl), n);
    w := StepOn(reached, w, id, n, w0.rows, UpdateWrite(Name(1), user, ttl, expiresAt));
    assert w0.rows[Name(1) := Row(Some(user), expiresAt)] == UserRow(user, expiresAt);
    w := StepOn(reached, w, id, n + 1, UserRow(user, expiresAt), Done(UpdatedAs(Name(1))));
  }

  lemma RenewalOverwritten(reached: World -> bool, user: State) returns (w: World)
    requires Closed(reached) && reached(EMPTY) && StampedAtZero(user)
    ensures reached(w) && Below(w, 8) && w.now == 0 && w.rows == UserRow(user, Seconds(7200))
    ensures 1 in w.calls && w.calls[1] == RenewTouch(Name(1), user, Seconds(3600))
  {
    w := SavedUser(reached, user);
    w := RenewalJudged(reached, w, user, 1, 3);
    w := RenewalPriced(reached, w, user, 1, 5);
    w := UserUpdated(reached, w, user, 2, 6, Seconds(60), 7200);
  }

  /** One renewal overlapped by an update moves the expiry back too: the renewal is priced for an
      hour, an update then gives the row two, and the touch sets the hour. */
  lemma UpdateOverlapsRenewal(user: State) returns (w: World, touch: Event)
    requires StampedAtZero(user)
    ensures Reached(w) && Enabled(w, touch) && touch.Step? && w.calls[touch.id].RenewTouch?
    ensures w.rows == UserRow(user, Seconds(7200))
    ensures Apply(P, w, touch).rows == UserRow(user, Seconds(3600))
  {
    ReachedIsClosed();
    w := RenewalOverwritten(w => Reached(w), user);
    touch := Step(1, Name(8), false, Succeeds);
    TouchMoves(w, touch, user, Seconds(7200), user, Seconds(3600));
  }

  /** A load that found the user's row expired, up to its delete. */
  lemma ExpiredUserJudged(reached: World -> bool, w0: World, user: State, id: nat, n: nat) returns (w: World)
    requires Closed(reached) && reached(w0) && Below(w0, n) && n > 1 && id !in w0.calls
    requires w0.now == Seconds(61) && w0.rows == UserRow(user, Seconds(60))
    ensures reached(w) && Below(w, n + 2) && w.now == w0.now && w.rows == w0.rows
    ensures w.calls == w0.calls[id := LoadDelete(Name(1))]
  {
    w := StartOn(reached, w0, id, LoadGet(Name(1)), n);
    w := StepOn(reached, w, id, n, w0.rows, LoadJudge(Name(1), Row(Some(user), Seconds(60))));
    w := StepOn(reached, w, id, n + 1, w0.rows, LoadDelete(Name(1)));
  }

  lemma LoadOverwritten(reached: World -> bool, user: State) returns (w: World)
    requires Closed(reached) && reached(EMPTY) && StampedAtZero(user)
    ensures reached(w) && Below(w, 7) && w.now == Seconds(61) && w.rows == UserRow(user, Seconds(3661))
    ensures w.calls.Keys == {0, 1, 2} && w.calls[1] == LoadDelete(Name(1)) && w.calls[2] == Done(UpdatedAs(Name(1)))
  {
    w := SavedUser(reached, user);
    w := TickOn(reached, w, Seconds(61), 3);
    w := ExpiredUserJudged(reached, w, user, 1, 3);
    w := UserUpdated(reached, w, user, 2, 5, Seconds(60), 3600);
  }

  lemma DeleteRemoves(w: World, delete: Event, user: State, expiresAt: Nanos)
    requires Enabled(w, delete) && delete.Step? && delete.fault == Succeeds
    requires w.rows == UserRow(user, expiresAt) && w.calls[delete.id] == LoadDelete(Name(1))
    ensures Apply(P, w, delete).rows == map[]
  {
    assert UserRow(user, expiresAt) - {Name(1)} == map[];
  }

  /** A load's clean-up can remove a live session: the load finds an expired row; an update of the
      same session is acknowledged, with an hour to live; the load's delete then removes that row. */
  lemma LoadRemovesLiveRow(user: State) returns (w: World, delete: Event)
    requires StampedAtZero(user)
    ensures Reached(w) && Enabled(w, delete) && delete.Step? && w.calls[delete.id].LoadDelete?
    ensures w.now == Seconds(61) && w.rows == UserRow(user, Seconds(3661))
    ensures 2 in w.calls && w.calls[2] == Done(UpdatedAs(Name(1)))
    ensures Apply(P, w, delete).rows == map[]
  {
    ReachedIsClosed();
    w := LoadOverwritten(w => Reached(w), user);
    delete := Step(1, Name(7), false, Succeeds);
    DeleteRemoves(w, delete, user, Seconds(3661));
  }
}

/** The rate bound on everything the crate sends the provider by itself, and exactly which delays it
    survives. */
module JwksTotals {
  import opened Wrappers
  import opened Clock
  import opened Jwks
  import opened JwksRuns
  import opened JwksFetches
  import opened JwksDelays

  const MINUTE: Nanos := FORCED_REFRESH_MIN_INTERVAL

  /** How many internally triggered fetches leave in a window. */
  function CountSent(w: World, from: Nanos, to: Nanos): nat {
    CountIn(w.ordinary.fetches, from, to) + CountIn(w.forced.fetches, from, to)
  }

  // ---- Forced attempts in a run ----------------------------------------------------------------

  /** A forced caller moves; its fetch, when it has one, fails. */
  lemma ForcedOn(rp: Rp, reached: World -> bool, w: World, id: nat, pc: Pc, t: Timer) returns (w': World)
    requires Closed(rp, reached) && reached(w) && id in w.callers && w.cache.writer.None?
    requires var pc0 := w.callers[id];
             pc0.TryForced? || pc0.CheckForced? || pc0.StampForced? || pc0.DropForced? ||
             pc0 == ReadIssuer(Forced) || pc0 == Fetching(Forced)
    requires NextPc(rp, w, w.callers[id], None) == pc && NextForced(w.forced, w.callers[id], id, w.now) == t
    ensures reached(w') && w' == w.(forced := t, callers := w.callers[id := pc])
  {
    w' := Apply(rp, w, Step(id, None));
  }

  /** A new forced caller records its attempt and stands before its fetch, holding the lock. */
  lemma AdmitForced(rp: Rp, reached: World -> bool, w: World, id: nat) returns (w': World)
    requires Closed(rp, reached) && reached(w) && id !in w.callers && w.cache.writer.None?
    requires w.forced.holder.None? && MayForce(w.forced.last, w.now)
    ensures reached(w')
    ensures w' == w.(forced := Stamp(w.forced, id, w.now).(holder := Some(id)),
                     callers := w.callers[id := ReadIssuer(Forced)])
  {
    var t := w.forced.(holder := Some(id));
    w' := Apply(rp, w, Call(id, TryForced));
    w' := ForcedOn(rp, reached, w', id, CheckForced, t);
    w' := ForcedOn(rp, reached, w', id, StampForced, t);
    w' := ForcedOn(rp, reached, w', id, ReadIssuer(Forced), Stamp(t, id, w.now));
    assert w'.callers == w.callers[id := ReadIssuer(Forced)];
  }

  /** Its fetch leaves and fails, and the lock is released. */
  lemma DepartForced(rp: Rp, reached: World -> bool, w: World, id: nat) returns (w': World)
    requires Closed(rp, reached) && reached(w) && id in w.callers && w.callers[id] == ReadIssuer(Forced)
    requires w.cache.writer.None?
    ensures reached(w')
    ensures w' == w.(forced := Send(w.forced, id, w.now).(holder := None),
                     callers := w.callers[id := Finished(None, false)])
  {
    w' := ForcedOn(rp, reached, w, id, Fetching(Forced), Send(w.forced, id, w.now));
    w' := ForcedOn(rp, reached, w', id, DropForced(false), Send(w.forced, id, w.now));
    w' := ForcedOn(rp, reached, w', id, Finished(None, false), Send(w.forced, id, w.now).(holder := None));
    assert w'.callers == w.callers[id := Finished(None, false)];
  }

  // ---- Attempts that send at once ------------------------------------------------------------------

  /** The timer after an attempt recorded and sent at one instant. */
  function Sent(t: Timer, id: nat, now: Nanos): Timer {
    Timer(Some(now), None, t.attempts + [Attempt(id, now, Some(now))], t.fetches + [now])
  }

  /** Only callers below `n` have come so far. */
  predicate Below(w: World, n: nat) {
    (forall id | id in w.callers :: id < n) &&
    (forall i | 0 <= i < |w.ordinary.attempts| :: w.ordinary.attempts[i].caller < n) &&
    (forall i | 0 <= i < |w.forced.attempts| :: w.forced.attempts[i].caller < n)
  }

  lemma StampAndSend(t: Timer, id: nat, now: Nanos)
    requires forall i | 0 <= i < |t.attempts| :: t.attempts[i].caller != id
    ensures Started(t.attempts + [Attempt(id, now, None)], id, now) == t.attempts + [Attempt(id, now, Some(now))]
  {
  }

  lemma ScheduledAtOnce(rp: Rp, reached: World -> bool, w: World, n: nat) returns (w': World)
    requires Closed(rp, reached) && reached(w) && Below(w, n) && w.cache.writer.None?
    requires w.ordinary.holder.None? && Overdue(rp, w.ordinary, w.now)
    ensures reached(w') && Below(w', n + 1)
    ensures w'.now == w.now && w'.cache == w.cache && w'.forced == w.forced
    ensures w'.ordinary == Sent(w.ordinary, n, w.now)
  {
    StampAndSend(w.ordinary, n, w.now);
    w' := Admit(rp, reached, w, n);
    w' := Depart(rp, reached, w', n);
  }

  lemma ForcedAtOnce(rp: Rp, reached: World -> bool, w: World, n: nat) returns (w': World)
    requires Closed(rp, reached) && reached(w) && Below(w, n) && w.cache.writer.None?
    requires w.forced.holder.None? && MayForce(w.forced.last, w.now)
    ensures reached(w') && Below(w', n + 1)
    ensures w'.now == w.now && w'.cache == w.cache && w'.ordinary == w.ordinary
    ensures w'.forced == Sent(w.forced, n, w.now)
  {
    StampAndSend(w.forced, n, w.now);
    w' := AdmitForced(rp, reached, w, n);
    w' := DepartForced(rp, reached, w', n);
  }

  lemma SentCounts(t: Timer, id: nat, now: Nanos, delay: Nanos, from: Nanos, to: Nanos)
    requires Prompt(t, delay) && delay >= 0 && from <= now <= to
    ensures Prompt(Sent(t, id, now), delay)
    ensures CountIn(Sent(t, id, now).fetches, from, to) == CountIn(t.fetches, from, to) + 1
  {
    CountAppended(t.fetches, now, from, to);
  }

  // ---- Trains of attempts --------------------------------------------------------------------------

  lemma OneMore(k: nat, gap: Nanos)
    requires k > 0
    ensures k * gap == (k - 1) * gap + gap
  {
  }

  /** `k + 1` forced fetches a minute apart, the first at once. */
  lemma {:induction false} ForcedTrain(rp: Rp, reached: World -> bool, w0: World, n0: nat, k: nat, delay: Nanos,
                                       from: Nanos, to: Nanos)
    returns (w: World, n: nat)
    requires Closed(rp, reached) && reached(w0) && Below(w0, n0) && w0.cache.writer.None?
    requires w0.forced.holder.None? && MayForce(w0.forced.last, w0.now)
    requires Prompt(w0.forced, delay) && delay >= 0 && from <= w0.now && w0.now + k * MINUTE <= to
    ensures reached(w) && Below(w, n) && w.now == w0.now + k * MINUTE
    ensures w.cache == w0.cache && w.ordinary == w0.ordinary && Prompt(w.forced, delay)
    ensures CountIn(w.forced.fetches, from, to) == CountIn(w0.forced.fetches, from, to) + k + 1
    decreases k
  {
    assert k * MINUTE >= 0;
    SentCounts(w0.forced, n0, w0.now, delay, from, to);
    w := ForcedAtOnce(rp, reached, w0, n0);
    n := n0 + 1;
    if k > 0 {
      OneMore(k, MINUTE);
      w := TickOn(rp, reached, w, w0.now + MINUTE);
      w, n := ForcedTrain(rp, reached, w, n, k - 1, delay, from, to);
    }
  }

  /** `k + 1` scheduled fetches one TTL apart, the first at once. */
  lemma {:induction false} ScheduledTrain(rp: Rp, reached: World -> bool, w0: World, n0: nat, k: nat, delay: Nanos,
                                          from: Nanos, to: Nanos)
    returns (w: World, n: nat)
    requires rp.jwksTtl > 0
    requires Closed(rp, reached) && reached(w0) && Below(w0, n0) && w0.cache.writer.None?
    requires w0.ordinary.holder.None? && Overdue(rp, w0.ordinary, w0.now)
    requires Prompt(w0.ordinary, delay) && delay >= 0 && from <= w0.now && w0.now + k * rp.jwksTtl <= to
    ensures reached(w) && Below(w, n) && w.now == w0.now + k * rp.jwksTtl
    ensures w.cache == w0.cache && w.forced == w0.forced && Prompt(w.ordinary, delay)
    ensures CountIn(w.ordinary.fetches, from, to) == CountIn(w0.ordinary.fetches, from, to) + k + 1
    decreases k
  {
    MultipleIsPositive(k, rp.jwksTtl);
    SentCounts(w0.ordinary, n0, w0.now, delay, from, to);
    w := ScheduledAtOnce(rp, reached, w0, n0);
    n := n0 + 1;
    if k > 0 {
      OneMore(k, rp.jwksTtl);
      w := TickOn(rp, reached, w, w0.now + rp.jwksTtl);
      w, n := ScheduledTrain(rp, reached, w, n, k - 1, delay, from, to);
    }
  }

  lemma MultipleIsPositive(k: nat, gap: Nanos)
    requires gap > 0
    ensures k * gap >= 0
  {
  }

  lemma WholeGaps(span: Nanos, gap: Nanos) returns (k: nat)
    requires span >= 0 && gap > 0
    ensures k == span / gap && k * gap <= span
  {
    k := span / gap;
  }

  // ---- Delayed forced fetches ------------------------------------------------------------------------

  /** A delayed forced fetch alone breaks the bound. One forced attempt is sent a minute late and
      fails; a second is recorded and sent at that instant, and a scheduled one too: three fetches at
      once, no scheduled one delayed. The bound that asks nothing of forced fetches is attained. */
  lemma ForcedFetchesMeet(rp: Rp) returns (w: World)
    requires rp.jwksTtl > 0
    ensures Discovered(rp, JustDiscovered(rp)) && Reaches(rp, JustDiscovered(rp), w)
    ensures Prompt(w.ordinary, 0) && Prompt(w.forced, MINUTE)
    ensures CountIn(w.forced.fetches, w.now, w.now) == 0 / MINUTE + 2
    ensures CountSent(w, w.now, w.now) == (0 + 0) / rp.jwksTtl + 0 / MINUTE + 3
  {
    var (ttl, reached) := (rp.jwksTtl, w => Reaches(rp, JustDiscovered(rp), w));
    ReachesIsClosed(rp, JustDiscovered(rp));
    w := LateForced(rp, reached, ttl, ttl + MINUTE);
    SentCounts(w.forced, 1, w.now, MINUTE, w.now, w.now);
    w := ForcedAtOnce(rp, reached, w, 1);
    SentCounts(w.ordinary, 2, w.now, 0, w.now, w.now);
    w := ScheduledAtOnce(rp, reached, w, 2);
  }

  /** A first forced attempt, recorded at one time and sent, to fail, at a later one. */
  lemma LateForced(rp: Rp, reached: World -> bool, stamp: Nanos, sent: Nanos) returns (w: World)
    requires Closed(rp, reached) && reached(JustDiscovered(rp)) && 0 <= stamp <= sent
    ensures reached(w) && Below(w, 1) && w.now == sent
    ensures w.cache.writer.None? && w.ordinary == JustDiscovered(rp).ordinary
    ensures w.forced == Timer(Some(stamp), None, [Attempt(0, stamp, Some(sent))], [sent])
    ensures CountIn(w.forced.fetches, sent, sent) == 1
    ensures forall to | to >= sent :: CountIn(w.forced.fetches, sent, to) == 1
  {
    w := TickOn(rp, reached, JustDiscovered(rp), stamp);
    w := AdmitForced(rp, reached, w, 0);
    w := TickOn(rp, reached, w, sent);
    w := DepartForced(rp, reached, w, 0);
    assert w.forced.attempts == [Attempt(0, stamp, Some(sent))] && w.forced.fetches == [sent];
    forall to | to >= sent
      ensures CountIn(w.forced.fetches, sent, to) == 1
    {
      CountAppended([], sent, sent, to);
      assert [] + [sent] == [sent];
    }
  }

  // ---- The condition -----------------------------------------------------------------------------------

  /** At most one fetch per TTL and one per minute of the window, plus two. */
  predicate WithinBound(rp: Rp, w: World, from: Nanos, to: Nanos)
    requires rp.jwksTtl > 0
  {
    CountSent(w, from, to) <= (to - from) / rp.jwksTtl + (to - from) / MINUTE + 2
  }

  /** The bound on recorded attempts, claimed of all the fetches of every run whose scheduled fetches
      are delayed by at most `scheduled` and whose forced ones by at most `forced`. */
  ghost predicate TotalBoundHolds(rp: Rp, scheduled: Nanos, forced: Nanos)
    requires rp.jwksTtl > 0
  {
    forall w0, w, from, to | Discovered(rp, w0) && Reaches(rp, w0, w) && from <= to &&
                             Prompt(w.ordinary, scheduled) && Prompt(w.forced, forced) ::
      WithinBound(rp, w, from, to)
  }

  /** A first scheduled attempt, recorded after one TTL and sent a nanosecond later. */
  lemma LateScheduled(rp: Rp, reached: World -> bool, to: Nanos) returns (w: World)
    requires Closed(rp, reached) && reached(JustDiscovered(rp)) && rp.jwksTtl > 0 && to > rp.jwksTtl
    ensures reached(w) && Below(w, 1) && w.now == rp.jwksTtl + 1
    ensures w.cache.writer.None? && w.forced == JustDiscovered(rp).forced
    ensures w.ordinary.last == Some(rp.jwksTtl) && w.ordinary.holder.None? && Prompt(w.ordinary, 1)
    ensures CountIn(w.ordinary.fetches, rp.jwksTtl + 1, to) == 1
  {
    var ttl := rp.jwksTtl;
    w := TickOn(rp, reached, JustDiscovered(rp), ttl);
    w := Admit(rp, reached, w, 0);
    w := TickOn(rp, reached, w, ttl + 1);
    w := Depart(rp, reached, w, 0);
    assert w.ordinary.attempts == [Attempt(0, ttl, Some(ttl + 1))];
    CountAppended([], ttl + 1, ttl + 1, to);
    assert w.ordinary.fetches == [] + [ttl + 1];
  }

  /** That fetch and the next scheduled one, sent on time, with `k + 1` punctual forced ones between. */
  lemma ForcedBetween(rp: Rp, reached: World -> bool, k: nat) returns (w: World)
    requires Closed(rp, reached) && reached(JustDiscovered(rp)) && rp.jwksTtl > 0 && k * MINUTE <= rp.jwksTtl - 1
    ensures reached(w) && Prompt(w.ordinary, 1) && Prompt(w.forced, 0)
    ensures CountSent(w, rp.jwksTtl + 1, 2 * rp.jwksTtl) == 2 + k + 1
  {
    var (from, to) := (rp.jwksTtl + 1, 2 * rp.jwksTtl);
    w := LateScheduled(rp, reached, to);
    var n;
    w, n := ForcedTrain(rp, reached, w, 1, k, 0, from, to);
    w := TickOn(rp, reached, w, to);
    SentCounts(w.ordinary, n, w.now, 1, from, to);
    w := ScheduledAtOnce(rp, reached, w, n);
  }

  /** A late forced fetch and the next one, sent on time, with `k + 1` punctual scheduled ones between. */
  lemma ScheduledBetween(rp: Rp, reached: World -> bool, k: nat) returns (w: World)
    requires Closed(rp, reached) && reached(JustDiscovered(rp)) && rp.jwksTtl > 0 && k * rp.jwksTtl <= MINUTE - 1
    ensures reached(w) && Prompt(w.ordinary, 0) && Prompt(w.forced, 1)
    ensures CountSent(w, rp.jwksTtl, rp.jwksTtl + MINUTE - 1) == k + 1 + 2
  {
    var (from, to) := (rp.jwksTtl, rp.jwksTtl + MINUTE - 1);
    w := LateForced(rp, reached, from - 1, from);
    var n;
    w, n := ScheduledTrain(rp, reached, w, 1, k, 0, from, to);
    w := TickOn(rp, reached, w, to);
    SentCounts(w.forced, n, w.now, 1, from, to);
    w := ForcedAtOnce(rp, reached, w, n);
  }

  lemma ShortSpan(span: Nanos, gap: Nanos)
    requires 0 <= span < gap
    ensures span / gap == 0
  {
  }

  /** Scheduled fetches a nanosecond late suffice to break the bound: one leaves late and the next on
      time, a nanosecond less than a TTL apart, with punctual forced fetches a minute apart between. */
  lemma ScheduledDelayBreaks(rp: Rp) returns (w: World, from: Nanos, to: Nanos)
    requires rp.jwksTtl > 0
    ensures Reaches(rp, JustDiscovered(rp), w) && Prompt(w.ordinary, 1) && Prompt(w.forced, 0)
    ensures from <= to && !WithinBound(rp, w, from, to)
  {
    ReachesIsClosed(rp, JustDiscovered(rp));
    var k := WholeGaps(rp.jwksTtl - 1, MINUTE);
    w := ForcedBetween(rp, w => Reaches(rp, JustDiscovered(rp), w), k);
    from, to := rp.jwksTtl + 1, 2 * rp.jwksTtl;
    ShortSpan(to - from, rp.jwksTtl);
  }

  /** So do forced fetches a nanosecond late, whatever the TTL: one leaves late and the next on time,
      a nanosecond less than a minute apart, with punctual scheduled fetches one TTL apart between. */
  lemma ForcedDelayBreaks(rp: Rp) returns (w: World, from: Nanos, to: Nanos)
    requires rp.jwksTtl > 0
    ensures Reaches(rp, JustDiscovered(rp), w) && Prompt(w.ordinary, 0) && Prompt(w.forced, 1)
    ensures from <= to && !WithinBound(rp, w, from, to)
  {
    ReachesIsClosed(rp, JustDiscovered(rp));
    var k := WholeGaps(MINUTE - 1, rp.jwksTtl);
    w := ScheduledBetween(rp, w => Reaches(rp, JustDiscovered(rp), w), k);
    from, to := rp.jwksTtl, rp.jwksTtl + MINUTE - 1;
    ShortSpan(to - from, MINUTE);
  }

  lemma PromptWithin(t: Timer, delay: Nanos, longer: Nanos)
    requires Prompt(t, delay) && delay <= longer
    ensures Prompt(t, longer)
  {
  }

  lemma BoundWithoutDelay(rp: Rp, w0: World, w: World, from: Nanos, to: Nanos)
    requires rp.jwksTtl > 0 && from <= to && Discovered(rp, w0) && Reaches(rp, w0, w)
    requires Prompt(w.ordinary, 0) && Prompt(w.forced, 0)
    ensures WithinBound(rp, w, from, to)
  {
    var es :| Runs(rp, w0, es, w);
    var window := to - from;
    InternalFetchesAreBounded(rp, w0, es, w, 0, from, window);
    assert from + window == to && window + 0 == window;
  }

  lemma BrokenBy(rp: Rp, scheduled: Nanos, forced: Nanos, w: World, from: Nanos, to: Nanos)
    requires rp.jwksTtl > 0 && from <= to && Reaches(rp, JustDiscovered(rp), w)
    requires Prompt(w.ordinary, scheduled) && Prompt(w.forced, forced)
    requires !WithinBound(rp, w, from, to)
    ensures !TotalBoundHolds(rp, scheduled, forced)
  {
    assert Discovered(rp, JustDiscovered(rp));
  }

  /** The rate bound of one fetch per TTL and one per minute, plus two, holds of all the fetches of
      all runs with given longest delays exactly when neither kind is delayed at all. */
  lemma TotalBoundHoldsExactlyWhen(rp: Rp, scheduled: Nanos, forced: Nanos)
    requires rp.jwksTtl > 0 && scheduled >= 0 && forced >= 0
    ensures TotalBoundHolds(rp, scheduled, forced) <==> scheduled == 0 && forced == 0
  {
    if scheduled > 0 {
      var w, from, to := ScheduledDelayBreaks(rp);
      PromptWithin(w.ordinary, 1, scheduled);
      PromptWithin(w.forced, 0, forced);
      BrokenBy(rp, scheduled, forced, w, from, to);
    } else if forced > 0 {
      var w, from, to := ForcedDelayBreaks(rp);
      PromptWithin(w.forced, 1, forced);
      BrokenBy(rp, scheduled, forced, w, from, to);
    } else {
      forall w0, w, from, to | Discovered(rp, w0) && Reaches(rp, w0, w) && from <= to &&
                               Prompt(w.ordinary, 0) && Prompt(w.forced, 0)
        ensures WithinBound(rp, w, from, to)
      {
        BoundWithoutDelay(rp, w0, w, from, to);
      }
    }
  }
}

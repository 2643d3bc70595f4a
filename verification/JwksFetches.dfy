/** The fetches the provider sees. A scheduled attempt is recorded under its lock but fetches after
    releasing it; a forced one holds its lock through the fetch. */
module JwksFetches {
  import opened Wrappers
  import opened Clock
  import opened Jwks
  import opened JwksRuns

  // ---- Counting -------------------------------------------------------------------------

  /** How many of the attempts sent their fetch within a window. */
  function CountStarted(attempts: seq<Attempt>, from: Nanos, to: Nanos): nat {
    if attempts == [] then 0
    else
      var last := attempts[|attempts| - 1];
      CountStarted(attempts[..|attempts| - 1], from, to) +
      if last.fetch.Some? && from <= last.fetch.value <= to then 1 else 0
  }

  function CountNow(now: Nanos, from: Nanos, to: Nanos): nat {
    if from <= now <= to then 1 else 0
  }

  /** No two attempts are one caller's. */
  predicate DistinctCallers(attempts: seq<Attempt>) {
    forall i, j | 0 <= i < j < |attempts| :: attempts[i].caller != attempts[j].caller
  }

  lemma StartedElsewhere(attempts: seq<Attempt>, id: nat, now: Nanos)
    requires forall i | 0 <= i < |attempts| :: attempts[i].caller != id
    ensures Started(attempts, id, now) == attempts
  {
  }

  /** Sending one caller's fetch adds one to the count. */
  lemma {:induction false} StartedCounts(attempts: seq<Attempt>, i: nat, now: Nanos, from: Nanos, to: Nanos)
    requires i < |attempts| && attempts[i].fetch.None? && DistinctCallers(attempts)
    ensures CountStarted(Started(attempts, attempts[i].caller, now), from, to) ==
            CountStarted(attempts, from, to) + CountNow(now, from, to)
    decreases |attempts|
  {
    var (n, id) := (|attempts| - 1, attempts[i].caller);
    var started := Started(attempts, id, now);
    assert started[..n] == Started(attempts[..n], id, now);
    if i == n {
      StartedElsewhere(attempts[..n], id, now);
    } else {
      assert attempts[..n][i] == attempts[i];
      StartedCounts(attempts[..n], i, now, from, to);
    }
  }

  lemma CountAppended(times: seq<Nanos>, t: Nanos, from: Nanos, to: Nanos)
    ensures CountIn(times + [t], from, to) == CountIn(times, from, to) + CountNow(t, from, to)
  {
    assert (times + [t])[..|times|] == times;
  }

  lemma StampedCounts(attempts: seq<Attempt>, a: Attempt, from: Nanos, to: Nanos)
    requires a.fetch.None?
    ensures CountStarted(attempts + [a], from, to) == CountStarted(attempts, from, to)
  {
    assert (attempts + [a])[..|attempts|] == attempts;
  }

  // ---- Every fetch is an attempt's ---------------------------------------------------------

  /** Not yet recorded by its clock. */
  predicate BeforeStamp(pc: Pc) {
    pc.TryStale? || pc.CheckStale? || pc.StampStale? || pc.TryForced? || pc.CheckForced? || pc.StampForced?
  }

  /** Recorded, with its fetch still to be sent. */
  predicate Due(why: Reason, pc: Pc) {
    pc == ReadIssuer(why) || (why.Scheduled? && pc.DropStale?)
  }

  ghost predicate Unsent(attempts: seq<Attempt>, id: nat) {
    exists i :: 0 <= i < |attempts| && attempts[i].caller == id && attempts[i].fetch.None?
  }

  /** A timer's log and its attempts tell the same story: each fetch is one attempt's, sent no
      earlier than the attempt was recorded. */
  ghost predicate Recorded(why: Reason, t: Timer, callers: map<nat, Pc>, now: Nanos) {
    DistinctCallers(t.attempts) &&
    (forall i | 0 <= i < |t.attempts| ::
       t.attempts[i].caller in callers && !BeforeStamp(callers[t.attempts[i].caller]) && t.attempts[i].stamp <= now &&
       (t.attempts[i].fetch.Some? ==> t.attempts[i].stamp <= t.attempts[i].fetch.value <= now)) &&
    (forall id | id in callers && Due(why, callers[id]) :: Unsent(t.attempts, id)) &&
    (forall from, to :: CountIn(t.fetches, from, to) == CountStarted(t.attempts, from, to))
  }

  lemma RecordedIdle(why: Reason, t: Timer, t': Timer, callers: map<nat, Pc>, now: Nanos, id: nat, pc: Pc)
    requires Recorded(why, t, callers, now) && t'.attempts == t.attempts && t'.fetches == t.fetches
    requires id in callers ==>
               (BeforeStamp(pc) ==> BeforeStamp(callers[id])) && (Due(why, pc) ==> Due(why, callers[id]))
    requires id !in callers ==> !Due(why, pc)
    ensures Recorded(why, t', callers[id := pc], now)
  {
  }

  lemma RecordedStamp(why: Reason, t: Timer, callers: map<nat, Pc>, now: Nanos, id: nat, pc: Pc)
    requires Recorded(why, t, callers, now) && id in callers && BeforeStamp(callers[id]) && !BeforeStamp(pc)
    ensures Recorded(why, Stamp(t, id, now), callers[id := pc], now)
  {
    var (t', callers') := (Stamp(t, id, now), callers[id := pc]);
    forall other | other in callers' && Due(why, callers'[other])
      ensures Unsent(t'.attempts, other)
    {
      if other == id {
        assert t'.attempts[|t.attempts|].caller == id;
      } else {
        var i :| 0 <= i < |t.attempts| && t.attempts[i].caller == other && t.attempts[i].fetch.None?;
        assert t'.attempts[i] == t.attempts[i];
      }
    }
    forall from, to
      ensures CountIn(t'.fetches, from, to) == CountStarted(t'.attempts, from, to)
    {
      StampedCounts(t.attempts, Attempt(id, now, None), from, to);
    }
  }

  lemma RecordedSend(why: Reason, t: Timer, callers: map<nat, Pc>, now: Nanos, id: nat, pc: Pc)
    requires Recorded(why, t, callers, now) && id in callers && Due(why, callers[id])
    requires !BeforeStamp(pc) && !Due(why, pc)
    ensures Recorded(why, Send(t, id, now), callers[id := pc], now)
  {
    var (t', callers') := (Send(t, id, now), callers[id := pc]);
    var k :| 0 <= k < |t.attempts| && t.attempts[k].caller == id && t.attempts[k].fetch.None?;
    forall other | other in callers' && Due(why, callers'[other])
      ensures Unsent(t'.attempts, other)
    {
      var i :| 0 <= i < |t.attempts| && t.attempts[i].caller == other && t.attempts[i].fetch.None?;
      assert t'.attempts[i] == t.attempts[i];
    }
    forall from, to
      ensures CountIn(t'.fetches, from, to) == CountStarted(t'.attempts, from, to)
    {
      StartedCounts(t.attempts, k, now, from, to);
      CountAppended(t.fetches, now, from, to);
    }
  }

  lemma RecordedTick(why: Reason, t: Timer, callers: map<nat, Pc>, now: Nanos, now': Nanos)
    requires Recorded(why, t, callers, now) && now <= now'
    ensures Recorded(why, t, callers, now')
  {
  }

  lemma OrdinaryRecordedStep(rp: Rp, w: World, e: Event)
    requires Recorded(Scheduled, w.ordinary, w.callers, w.now) && Enabled(w, e)
    ensures Recorded(Scheduled, Apply(rp, w, e).ordinary, Apply(rp, w, e).callers, Apply(rp, w, e).now)
  {
    match e
    case Tick(to) => RecordedTick(Scheduled, w.ordinary, w.callers, w.now, to);
    case Call(id, pc) => RecordedIdle(Scheduled, w.ordinary, w.ordinary, w.callers, w.now, id, pc);
    case Cancel(id) => RecordedIdle(Scheduled, w.ordinary, w.ordinary, w.callers, w.now, id, Finished(None, false));
    case Step(id, fetched) =>
      var (pc, t') := (w.callers[id], NextOrdinary(rp, w.ordinary, w.callers[id], id, w.now));
      var pc' := NextPc(rp, w, pc, fetched);
      if pc.StampStale? {
        RecordedStamp(Scheduled, w.ordinary, w.callers, w.now, id, pc');
      } else if pc == ReadIssuer(Scheduled) {
        RecordedSend(Scheduled, w.ordinary, w.callers, w.now, id, pc');
      } else {
        RecordedIdle(Scheduled, w.ordinary, t', w.callers, w.now, id, pc');
      }
  }

  lemma ForcedRecordedStep(rp: Rp, w: World, e: Event)
    requires Recorded(Forced, w.forced, w.callers, w.now) && Enabled(w, e)
    ensures Recorded(Forced, Apply(rp, w, e).forced, Apply(rp, w, e).callers, Apply(rp, w, e).now)
  {
    match e
    case Tick(to) => RecordedTick(Forced, w.forced, w.callers, w.now, to);
    case Call(id, pc) => RecordedIdle(Forced, w.forced, w.forced, w.callers, w.now, id, pc);
    case Cancel(id) =>
      RecordedIdle(Forced, w.forced, Apply(rp, w, e).forced, w.callers, w.now, id, Finished(None, false));
    case Step(id, fetched) =>
      var (pc, t') := (w.callers[id], NextForced(w.forced, w.callers[id], id, w.now));
      var pc' := NextPc(rp, w, pc, fetched);
      if pc.StampForced? {
        RecordedStamp(Forced, w.forced, w.callers, w.now, id, pc');
      } else if pc == ReadIssuer(Forced) {
        RecordedSend(Forced, w.forced, w.callers, w.now, id, pc');
      } else {
        RecordedIdle(Forced, w.forced, t', w.callers, w.now, id, pc');
      }
  }

  // ---- A forced fetch is sent under the lock -------------------------------------------------

  /** Every fetch was sent before the next attempt was recorded. */
  predicate BeforeNext(attempts: seq<Attempt>, now: Nanos) {
    (forall i | 0 < i < |attempts| && attempts[i - 1].fetch.Some? ::
       attempts[i - 1].fetch.value <= attempts[i].stamp) &&
    (forall i | 0 <= i < |attempts| && attempts[i].fetch.Some? :: attempts[i].fetch.value <= now)
  }

  /** A caller about to send a forced fetch owns the latest attempt. */
  predicate OwnsLatest(attempts: seq<Attempt>, callers: map<nat, Pc>) {
    forall id | id in callers && callers[id] == ReadIssuer(Forced) ::
      attempts != [] && attempts[|attempts| - 1].caller == id
  }

  predicate SentInTurn(attempts: seq<Attempt>, callers: map<nat, Pc>, now: Nanos) {
    BeforeNext(attempts, now) && OwnsLatest(attempts, callers)
  }

  lemma InTurnStamp(t: Timer, callers: map<nat, Pc>, now: Nanos, id: nat, pc: Pc)
    requires SentInTurn(t.attempts, callers, now)
    requires forall other | other in callers && callers[other] == ReadIssuer(Forced) :: other == id
    ensures SentInTurn(Stamp(t, id, now).attempts, callers[id := pc], now)
  {
  }

  lemma InTurnSend(t: Timer, callers: map<nat, Pc>, now: Nanos, id: nat, pc: Pc)
    requires SentInTurn(t.attempts, callers, now) && DistinctCallers(t.attempts)
    requires id in callers && callers[id] == ReadIssuer(Forced) && pc != ReadIssuer(Forced)
    ensures SentInTurn(Send(t, id, now).attempts, callers[id := pc], now)
  {
    var (a, n) := (t.attempts, |t.attempts| - 1);
    assert Send(t, id, now).attempts == a[n := a[n].(fetch := Some(now))];
  }

  lemma InTurnIdle(attempts: seq<Attempt>, callers: map<nat, Pc>, now: Nanos, now': Nanos, id: nat, pc: Pc)
    requires SentInTurn(attempts, callers, now) && now <= now' && pc != ReadIssuer(Forced)
    ensures SentInTurn(attempts, callers[id := pc], now')
  {
  }

  lemma NoOtherForced(w: World, id: nat)
    requires LocksAgree(w) && id in w.callers && HoldsForced(w.callers[id])
    ensures forall other | other in w.callers && w.callers[other] == ReadIssuer(Forced) :: other == id
  {
    forall other | other in w.callers && w.callers[other] == ReadIssuer(Forced)
      ensures other == id
    {
      assert HoldsForced(w.callers[other]);
    }
  }

  ghost predicate InTurn(w: World) {
    SentInTurn(w.forced.attempts, w.callers, w.now)
  }

  /** The three ways a caller's step can concern the forced timer. */
  lemma ForcedStep(rp: Rp, w: World, id: nat, fetched: Option<Metadata>)
    requires id in w.callers
    ensures var (pc, t) := (w.callers[id], w.forced);
            var (t', pc') := (NextForced(t, pc, id, w.now), NextPc(rp, w, pc, fetched));
            if pc.StampForced? then t' == Stamp(t, id, w.now) && pc' == ReadIssuer(Forced)
            else if pc == ReadIssuer(Forced) then t' == Send(t, id, w.now) && pc' == Fetching(Forced)
            else t'.last == t.last && t'.attempts == t.attempts && t'.fetches == t.fetches && pc' != ReadIssuer(Forced)
  {
  }

  lemma InTurnStep(rp: Rp, w: World, e: Event)
    requires Recorded(Forced, w.forced, w.callers, w.now) && LocksAgree(w) && InTurn(w) && Enabled(w, e)
    ensures InTurn(Apply(rp, w, e))
  {
    match e
    case Tick(_) =>
    case Call(id, pc) => InTurnIdle(w.forced.attempts, w.callers, w.now, w.now, id, pc);
    case Cancel(id) => InTurnIdle(w.forced.attempts, w.callers, w.now, w.now, id, Finished(None, false));
    case Step(id, fetched) =>
      var pc := w.callers[id];
      var pc' := NextPc(rp, w, pc, fetched);
      ForcedStep(rp, w, id, fetched);
      if pc.StampForced? {
        NoOtherForced(w, id);
        InTurnStamp(w.forced, w.callers, w.now, id, pc');
      } else if pc == ReadIssuer(Forced) {
        InTurnSend(w.forced, w.callers, w.now, id, pc');
      } else {
        InTurnIdle(w.forced.attempts, w.callers, w.now, w.now, id, pc');
      }
  }

  /** Any third forced fetch in a row comes at least a minute after the first. Between them one was
      recorded, a minute before the last of the three was. */
  predicate TwoApart(t: Timer, now: Nanos) {
    var (f, n) := (t.fetches, |t.fetches|);
    (forall i | 0 <= i < n - 2 :: f[i + 2] - f[i] >= FORCED_REFRESH_MIN_INTERVAL) &&
    (t.last.Some? ==> t.last.value <= now) &&
    (n >= 1 ==> t.last.Some? && f[n - 1] <= now) &&
    (n >= 2 ==> f[n - 2] <= t.last.value)
  }

  /** While a fetch is to be sent, the last one was sent before this attempt was recorded, and the
      one before it a minute earlier still. */
  predicate RoomToSend(t: Timer) {
    var (f, n) := (t.fetches, |t.fetches|);
    t.last.Some? && (n >= 1 ==> f[n - 1] <= t.last.value) &&
    (n >= 2 ==> f[n - 2] <= t.last.value - FORCED_REFRESH_MIN_INTERVAL)
  }

  predicate Sending(callers: map<nat, Pc>) {
    exists id :: id in callers && callers[id] == ReadIssuer(Forced)
  }

  predicate Apart(t: Timer, callers: map<nat, Pc>, now: Nanos) {
    TwoApart(t, now) && (Sending(callers) ==> RoomToSend(t))
  }

  lemma ApartStamp(t: Timer, callers: map<nat, Pc>, now: Nanos, id: nat, pc: Pc)
    requires Apart(t, callers, now) && MayForce(t.last, now)
    ensures Apart(Stamp(t, id, now), callers[id := pc], now)
  {
  }

  lemma ApartSend(t: Timer, callers: map<nat, Pc>, now: Nanos, id: nat, pc: Pc)
    requires Apart(t, callers, now) && id in callers && callers[id] == ReadIssuer(Forced) && pc != ReadIssuer(Forced)
    requires forall other | other in callers && callers[other] == ReadIssuer(Forced) :: other == id
    ensures Apart(Send(t, id, now), callers[id := pc], now)
  {
    assert Sending(callers);
  }

  lemma ApartIdle(t: Timer, t': Timer, callers: map<nat, Pc>, now: Nanos, now': Nanos, id: nat, pc: Pc)
    requires Apart(t, callers, now) && t'.last == t.last && t'.fetches == t.fetches
    requires now <= now' && pc != ReadIssuer(Forced)
    ensures Apart(t', callers[id := pc], now')
  {
    if Sending(callers[id := pc]) {
      var other :| other in callers[id := pc] && callers[id := pc][other] == ReadIssuer(Forced);
      assert callers[other] == ReadIssuer(Forced);
    }
  }

  lemma StampIsAllowed(w: World, id: nat)
    requires LocksAgree(w) && ForcedAgrees(w) && id in w.callers && w.callers[id].StampForced?
    ensures MayForce(w.forced.last, w.now)
  {
    assert HoldsForced(w.callers[id]);
  }

  ghost predicate ForcedApart(w: World) {
    Apart(w.forced, w.callers, w.now)
  }

  lemma ApartStep(rp: Rp, w: World, e: Event)
    requires LocksAgree(w) && ForcedAgrees(w) && ForcedApart(w) && Enabled(w, e)
    ensures ForcedApart(Apply(rp, w, e))
  {
    match e
    case Tick(_) =>
    case Call(id, pc) => ApartIdle(w.forced, w.forced, w.callers, w.now, w.now, id, pc);
    case Cancel(id) => ApartIdle(w.forced, Apply(rp, w, e).forced, w.callers, w.now, w.now, id, Finished(None, false));
    case Step(id, fetched) =>
      var pc := w.callers[id];
      var (t', pc') := (NextForced(w.forced, pc, id, w.now), NextPc(rp, w, pc, fetched));
      ForcedStep(rp, w, id, fetched);
      if pc.StampForced? {
        StampIsAllowed(w, id);
        ApartStamp(w.forced, w.callers, w.now, id, pc');
      } else if pc == ReadIssuer(Forced) {
        NoOtherForced(w, id);
        ApartSend(w.forced, w.callers, w.now, id, pc');
      } else {
        ApartIdle(w.forced, t', w.callers, w.now, w.now, id, pc');
      }
  }

  ghost predicate Honest(rp: Rp, w: World) {
    Safe(rp, w) && InTurn(w) && ForcedApart(w) &&
    Recorded(Scheduled, w.ordinary, w.callers, w.now) && Recorded(Forced, w.forced, w.callers, w.now)
  }

  lemma {:induction false} HonestAlways(rp: Rp, w: World, es: seq<Event>, w': World)
    requires Honest(rp, w) && Runs(rp, w, es, w')
    ensures Honest(rp, w')
    decreases |es|
  {
    if es != [] {
      SafeStep(rp, w, es[0]);
      InTurnStep(rp, w, es[0]);
      ApartStep(rp, w, es[0]);
      OrdinaryRecordedStep(rp, w, es[0]);
      ForcedRecordedStep(rp, w, es[0]);
      HonestAlways(rp, Apply(rp, w, es[0]), es[1..], w');
    }
  }

  // ---- Bounds ------------------------------------------------------------------------------

  /** Every fetch was sent within `delay` of its attempt being recorded. */
  predicate Prompt(t: Timer, delay: Nanos) {
    forall i | 0 <= i < |t.attempts| && t.attempts[i].fetch.Some? ::
      t.attempts[i].fetch.value <= t.attempts[i].stamp + delay
  }

  predicate Ordered(attempts: seq<Attempt>) {
    forall i | 0 <= i < |attempts| && attempts[i].fetch.Some? :: attempts[i].stamp <= attempts[i].fetch.value
  }

  predicate Rising(attempts: seq<Attempt>) {
    forall i | 0 < i < |attempts| :: attempts[i - 1].stamp <= attempts[i].stamp
  }

  lemma SpacedRises(attempts: seq<Attempt>, gap: Nanos)
    requires Spaced(Stamps(attempts), gap) && gap >= 0
    ensures Rising(attempts)
  {
    forall i | 0 < i < |attempts|
      ensures attempts[i - 1].stamp <= attempts[i].stamp
    {
      assert Stamps(attempts)[i] - Stamps(attempts)[i - 1] >= gap;
    }
  }

  lemma {:induction false} StampsCoverStarts(attempts: seq<Attempt>, delay: Nanos, from: Nanos, to: Nanos)
    requires Ordered(attempts)
    requires forall i | 0 <= i < |attempts| && attempts[i].fetch.Some? ::
               attempts[i].fetch.value <= attempts[i].stamp + delay
    ensures CountStarted(attempts, from, to) <= CountIn(Stamps(attempts), from - delay, to)
  {
    if attempts != [] {
      var n := |attempts| - 1;
      assert Stamps(attempts)[..n] == Stamps(attempts[..n]);
      StampsCoverStarts(attempts[..n], delay, from, to);
    }
  }

  lemma {:induction false} NoneStarted(attempts: seq<Attempt>, from: Nanos, to: Nanos)
    requires forall i | 0 <= i < |attempts| && attempts[i].fetch.Some? :: attempts[i].fetch.value < from
    ensures CountStarted(attempts, from, to) == 0
  {
    if attempts != [] {
      NoneStarted(attempts[..|attempts| - 1], from, to);
    }
  }

  /** When each fetch is sent before the next attempt is recorded, only the first one in a window
      can belong to an attempt recorded before it. */
  lemma {:induction false} OneEarlierStamp(attempts: seq<Attempt>, from: Nanos, to: Nanos)
    requires Ordered(attempts)
    requires forall i | 0 < i < |attempts| && attempts[i - 1].fetch.Some? ::
               attempts[i - 1].fetch.value <= attempts[i].stamp
    requires Rising(attempts)
    ensures CountStarted(attempts, from, to) <= CountIn(Stamps(attempts), from, to) + 1
  {
    if attempts != [] {
      var n := |attempts| - 1;
      assert Stamps(attempts)[..n] == Stamps(attempts[..n]);
      OneEarlierStamp(attempts[..n], from, to);
      if attempts[n].stamp < from {
        EarlierFetches(attempts, n);
        NoneStarted(attempts[..n], from, to);
      }
    }
  }

  lemma {:induction false} EarlierFetches(attempts: seq<Attempt>, n: nat)
    requires n < |attempts| && Rising(attempts)
    requires forall i | 0 < i < |attempts| && attempts[i - 1].fetch.Some? ::
               attempts[i - 1].fetch.value <= attempts[i].stamp
    ensures forall i | 0 <= i < n && attempts[i].fetch.Some? :: attempts[i].fetch.value <= attempts[n].stamp
    decreases n
  {
    if n > 0 {
      EarlierFetches(attempts, n - 1);
      assert attempts[n - 1].fetch.Some? ==> attempts[n - 1].fetch.value <= attempts[n].stamp;
    }
  }

  lemma DiscoveredIsHonest(rp: Rp, w: World)
    requires Discovered(rp, w)
    ensures Honest(rp, w)
  {
  }

  lemma PromptBound(why: Reason, t: Timer, callers: map<nat, Pc>, now: Nanos, gap: Nanos, delay: Nanos, from: Nanos,
                    window: Nanos)
    requires Recorded(why, t, callers, now) && Prompt(t, delay) && Spaced(Stamps(t.attempts), gap)
    requires gap > 0 && window >= 0 && delay >= 0
    ensures CountIn(t.fetches, from, from + window) <= (window + delay) / gap + 1
  {
    var (start, span) := (from - delay, window + delay);
    StampsCoverStarts(t.attempts, delay, from, from + window);
    SpacedBound(Stamps(t.attempts), gap, start, span);
    assert CountIn(t.fetches, from, from + window) == CountStarted(t.attempts, from, from + window);
    assert start + span == from + window;
  }

  lemma InTurnBound(why: Reason, t: Timer, callers: map<nat, Pc>, now: Nanos, gap: Nanos, from: Nanos, window: Nanos)
    requires Recorded(why, t, callers, now) && BeforeNext(t.attempts, now) && Spaced(Stamps(t.attempts), gap)
    requires gap > 0 && window >= 0
    ensures CountIn(t.fetches, from, from + window) <= window / gap + 2
  {
    SpacedRises(t.attempts, gap);
    OneEarlierStamp(t.attempts, from, from + window);
    SpacedBound(Stamps(t.attempts), gap, from, window);
    assert CountIn(t.fetches, from, from + window) == CountStarted(t.attempts, from, from + window);
  }

  /** Forced fetches are rare whatever happens between recording and sending, since the lock is held
      throughout: any third in a row is sent at least a minute after the first, and a window sees
      at most one per minute, plus two. */
  lemma ForcedFetchesAreBounded(rp: Rp, w0: World, es: seq<Event>, w: World, from: Nanos, window: Nanos)
    requires Discovered(rp, w0) && Runs(rp, w0, es, w) && window >= 0
    ensures forall i | 0 <= i < |w.forced.fetches| - 2 ::
              w.forced.fetches[i + 2] - w.forced.fetches[i] >= FORCED_REFRESH_MIN_INTERVAL
    ensures CountIn(w.forced.fetches, from, from + window) <= window / FORCED_REFRESH_MIN_INTERVAL + 2
  {
    DiscoveredIsHonest(rp, w0);
    HonestAlways(rp, w0, es, w);
    InTurnBound(Forced, w.forced, w.callers, w.now, FORCED_REFRESH_MIN_INTERVAL, from, window);
  }

  /** Scheduled fetches: at most one per TTL in the window and the longest delay together, plus one. */
  lemma ScheduledFetchesAreBounded(rp: Rp, w0: World, es: seq<Event>, w: World, delay: Nanos, from: Nanos,
                                   window: Nanos)
    requires Discovered(rp, w0) && Runs(rp, w0, es, w)
    requires rp.jwksTtl > 0 && window >= 0 && delay >= 0 && Prompt(w.ordinary, delay)
    ensures CountIn(w.ordinary.fetches, from, from + window) <= (window + delay) / rp.jwksTtl + 1
  {
    DiscoveredIsHonest(rp, w0);
    HonestAlways(rp, w0, es, w);
    PromptBound(Scheduled, w.ordinary, w.callers, w.now, rp.jwksTtl, delay, from, window);
  }

  /** The traffic the provider sees. When scheduled fetches are sent within `delay` of being
      recorded: at most one per TTL of the window and the delay together, plus one per minute, plus
      three; when forced ones are too, the delay counts for both and one fewer is added. */
  lemma InternalFetchesAreBounded(rp: Rp, w0: World, es: seq<Event>, w: World, delay: Nanos, from: Nanos, window: Nanos)
    requires Discovered(rp, w0) && Runs(rp, w0, es, w)
    requires rp.jwksTtl > 0 && window >= 0 && delay >= 0 && Prompt(w.ordinary, delay)
    ensures var to := from + window;
            var sent := CountIn(w.ordinary.fetches, from, to) + CountIn(w.forced.fetches, from, to);
            sent <= (window + delay) / rp.jwksTtl + window / FORCED_REFRESH_MIN_INTERVAL + 3 &&
            (Prompt(w.forced, delay) ==>
               sent <= (window + delay) / rp.jwksTtl + (window + delay) / FORCED_REFRESH_MIN_INTERVAL + 2)
  {
    DiscoveredIsHonest(rp, w0);
    HonestAlways(rp, w0, es, w);
    PromptBound(Scheduled, w.ordinary, w.callers, w.now, rp.jwksTtl, delay, from, window);
    InTurnBound(Forced, w.forced, w.callers, w.now, FORCED_REFRESH_MIN_INTERVAL, from, window);
    if Prompt(w.forced, delay) {
      PromptBound(Forced, w.forced, w.callers, w.now, FORCED_REFRESH_MIN_INTERVAL, delay, from, window);
    }
  }
}

/** A caller left alone: the interleaved machine, run by one caller with every other standing
    still, does what the relying party's own methods do. */
module JwksAlone {
  import opened Wrappers
  import opened Clock
  import opened Jwks
  import opened JwksRuns

  /** Upper bound on the steps a caller has left. */
  function StepsLeft(pc: Pc): nat {
    match pc
    case TryStale => 14
    case CheckStale => 13
    case StampStale => 12
    case DropStale => 11
    case TryForced => 13
    case CheckForced => 12
    case StampForced => 11
    case ReadIssuer(_) => 10
    case Fetching(_) => 9
    case AwaitWrite(_, _) => 8
    case SetMetadata(_, _) => 7
    case SetClient(_, _) => 6
    case DropWrite(_) => 5
    case TryReset => 4
    case SetReset => 3
    case DropReset => 2
    case DropForced(_) => 1
    case ReadClient => 1
    case Finished(_, _) => 0
  }

  /** One caller run to its end while every other stands still; `clock` is the time at which it
      takes each of its steps. */
  function Solo(rp: Rp, w: World, id: nat, fetched: Option<Metadata>, clock: Pc -> Nanos): (r: World)
    requires id in w.callers
    ensures id in r.callers && r.callers[id].Finished?
    decreases StepsLeft(w.callers[id])
  {
    if w.callers[id].Finished? then w
    else Solo(rp, SoloStep(rp, w, id, fetched, clock), id, fetched, clock)
  }

  function SoloStep(rp: Rp, w: World, id: nat, fetched: Option<Metadata>, clock: Pc -> Nanos): World
    requires id in w.callers
  {
    Take(rp, w.(now := clock(w.callers[id])), id, fetched)
  }

  predicate Idle(w: World) {
    w.ordinary.holder.None? && w.forced.holder.None? && w.cache.writer.None? && w.ordinary.last.Some?
  }

  function Remembered(w: World): Memory
    requires w.ordinary.last.Some?
  {
    Memory(w.cache.metadata, w.cache.client, w.ordinary.last.value, w.forced.last)
  }

  function CacheOf(rp: Rp, cache: Cache, fetched: Option<Metadata>): Cache {
    match fetched
    case None => cache
    case Some(doc) => Cache(doc, Client(doc, rp.credentials), None)
  }

  /** Two steps of a caller that does not finish in between. */
  function TwoSteps(rp: Rp, w: World, id: nat, fetched: Option<Metadata>, clock: Pc -> Nanos): World
    requires id in w.callers
  {
    SoloStep(rp, SoloStep(rp, w, id, fetched, clock), id, fetched, clock)
  }

  lemma SoloTwo(rp: Rp, w: World, id: nat, fetched: Option<Metadata>, clock: Pc -> Nanos)
    requires id in w.callers && !w.callers[id].Finished?
    requires !SoloStep(rp, w, id, fetched, clock).callers[id].Finished?
    ensures Solo(rp, w, id, fetched, clock) == Solo(rp, TwoSteps(rp, w, id, fetched, clock), id, fetched, clock)
  {
  }

  function AfterResponse(why: Reason, fetched: Option<Metadata>): Pc {
    match fetched case None => AfterFetch(why, false) case Some(doc) => AwaitWrite(why, doc)
  }

  /** The world when a request for the document was answered or failed. */
  function Responded(rp: Rp, w: World, id: nat, why: Reason, fetched: Option<Metadata>, clock: Pc -> Nanos): World {
    World(clock(Fetching(why)), w.cache, SentOrdinary(rp, w, id, why, clock), SentForced(w, id, why, clock),
          w.callers[id := AfterResponse(why, fetched)])
  }

  function SentOrdinary(rp: Rp, w: World, id: nat, why: Reason, clock: Pc -> Nanos): Timer {
    NextOrdinary(rp, w.ordinary, ReadIssuer(why), id, clock(ReadIssuer(why)))
  }

  function SentForced(w: World, id: nat, why: Reason, clock: Pc -> Nanos): Timer {
    NextForced(w.forced, ReadIssuer(why), id, clock(ReadIssuer(why)))
  }

  lemma SoloRequest(rp: Rp, w: World, id: nat, why: Reason, fetched: Option<Metadata>, clock: Pc -> Nanos)
    requires id in w.callers && w.callers[id] == ReadIssuer(why)
    ensures Solo(rp, w, id, fetched, clock) ==
            Solo(rp, Responded(rp, w, id, why, fetched, clock), id, fetched, clock)
  {
    SoloTwo(rp, w, id, fetched, clock);
    assert TwoSteps(rp, w, id, fetched, clock) == Responded(rp, w, id, why, fetched, clock);
  }

  lemma SoloSetMetadata(rp: Rp, w: World, id: nat, why: Reason, doc: Metadata, fetched: Option<Metadata>,
                        clock: Pc -> Nanos)
    requires id in w.callers && w.callers[id] == AwaitWrite(why, doc)
    ensures Solo(rp, w, id, fetched, clock) ==
            Solo(rp, World(clock(SetMetadata(why, doc)), Cache(doc, w.cache.client, Some(id)), w.ordinary, w.forced,
                           w.callers[id := SetClient(why, doc)]), id, fetched, clock)
  {
    SoloTwo(rp, w, id, fetched, clock);
    assert TwoSteps(rp, w, id, fetched, clock) ==
           World(clock(SetMetadata(why, doc)), Cache(doc, w.cache.client, Some(id)), w.ordinary, w.forced,
                 w.callers[id := SetClient(why, doc)]);
  }

  lemma SoloSetClient(rp: Rp, w: World, id: nat, why: Reason, doc: Metadata, fetched: Option<Metadata>,
                      clock: Pc -> Nanos)
    requires id in w.callers && w.callers[id] == SetClient(why, doc)
    ensures Solo(rp, w, id, fetched, clock) ==
            Solo(rp, World(clock(DropWrite(why)), Cache(w.cache.metadata, Client(doc, rp.credentials), None),
                           w.ordinary, w.forced, w.callers[id := AfterFetch(why, true)]), id, fetched, clock)
  {
    SoloTwo(rp, w, id, fetched, clock);
    assert TwoSteps(rp, w, id, fetched, clock) ==
           World(clock(DropWrite(why)), Cache(w.cache.metadata, Client(doc, rp.credentials), None),
                 w.ordinary, w.forced, w.callers[id := AfterFetch(why, true)]);
  }

  lemma LastUpdateCounts(m: map<nat, Pc>, id: nat, x: Pc, y: Pc)
    ensures m[id := x][id := y] == m[id := y]
  {
  }

  /** Two timers that differ at most in their logs. */
  predicate SameClock(t: Timer, t': Timer) {
    t.last == t'.last && t.holder == t'.holder
  }

  /** A fetch, from reading the issuer to releasing the cache: the clocks stay, the cached pair
      changes. */
  lemma SoloFetch(rp: Rp, w: World, id: nat, why: Reason, fetched: Option<Metadata>, clock: Pc -> Nanos)
    returns (after: World)
    requires id in w.callers && w.callers[id] == ReadIssuer(why) && w.cache.writer.None?
    ensures after.callers == w.callers[id := AfterFetch(why, fetched.Some?)]
    ensures Solo(rp, w, id, fetched, clock) == Solo(rp, after, id, fetched, clock)
    ensures after.cache == CacheOf(rp, w.cache, fetched)
    ensures SameClock(w.ordinary, after.ordinary) && SameClock(w.forced, after.forced)
  {
    SoloRequest(rp, w, id, why, fetched, clock);
    after := Responded(rp, w, id, why, fetched, clock);
    match fetched
    case None =>
    case Some(doc) =>
      var (ordinary, forced) := (after.ordinary, after.forced);
      SoloSetMetadata(rp, after, id, why, doc, fetched, clock);
      LastUpdateCounts(w.callers, id, AwaitWrite(why, doc), SetClient(why, doc));
      after := World(clock(SetMetadata(why, doc)), Cache(doc, w.cache.client, Some(id)), ordinary, forced,
                     w.callers[id := SetClient(why, doc)]);
      SoloSetClient(rp, after, id, why, doc, fetched, clock);
      LastUpdateCounts(w.callers, id, SetClient(why, doc), AfterFetch(why, true));
      after := World(clock(DropWrite(why)), Cache(doc, Client(doc, rp.credentials), None), ordinary, forced,
                     w.callers[id := AfterFetch(why, true)]);
  }

  lemma SoloRead(rp: Rp, w: World, id: nat, fetched: Option<Metadata>, clock: Pc -> Nanos)
    requires id in w.callers && w.callers[id] == ReadClient
    ensures var w' := Solo(rp, w, id, fetched, clock);
            w'.cache == w.cache && w'.ordinary == w.ordinary && w'.forced == w.forced &&
            w'.callers[id] == Finished(Some(w.cache.client), false)
  {
  }

  /** Left alone, a caller of `client` does what the object's methods do. */
  lemma SoloClientMatches(rp: Rp, w: World, id: nat, fetched: Option<Metadata>, clock: Pc -> Nanos)
    requires Idle(w) && id in w.callers && w.callers[id] == TryStale
    ensures var w' := Solo(rp, w, id, fetched, clock);
            Idle(w') && w'.callers[id] == Finished(Some(w'.cache.client), false) &&
            Remembered(w') == AfterScheduled(Remembered(w), rp.credentials, rp.jwksTtl,
                                             clock(CheckStale), clock(StampStale), fetched)
  {
    var w1 := SoloStep(rp, w, id, fetched, clock);
    var w2 := SoloStep(rp, w1, id, fetched, clock);
    assert Solo(rp, w, id, fetched, clock) == Solo(rp, w2, id, fetched, clock);
    if w2.callers[id] == ReadClient {
      SoloRead(rp, w2, id, fetched, clock);
    } else {
      var w3 := SoloStep(rp, w2, id, fetched, clock);
      var w4 := SoloStep(rp, w3, id, fetched, clock);
      assert Solo(rp, w2, id, fetched, clock) == Solo(rp, w4, id, fetched, clock);
      var after := SoloFetch(rp, w4, id, Scheduled, fetched, clock);
      SoloRead(rp, after, id, fetched, clock);
    }
  }

  lemma SoloDrop(rp: Rp, w: World, id: nat, fetched: Option<Metadata>, clock: Pc -> Nanos)
    requires id in w.callers && w.callers[id].DropForced?
    ensures var w' := Solo(rp, w, id, fetched, clock);
            w'.cache == w.cache && w'.forced == w.forced.(holder := None) && w'.ordinary == w.ordinary &&
            w'.callers[id] == Finished(None, w.callers[id].ok)
  {
  }

  /** The end of a forced attempt: a success resets the ordinary clock if it is free, and the forced
      lock is released. */
  lemma SoloRelease(rp: Rp, w: World, id: nat, ok: bool, fetched: Option<Metadata>, clock: Pc -> Nanos)
    requires id in w.callers && w.callers[id] == AfterFetch(Forced, ok)
    ensures var w' := Solo(rp, w, id, fetched, clock);
            w'.cache == w.cache && w'.forced == w.forced.(holder := None) && w'.callers[id] == Finished(None, ok) &&
            w'.ordinary ==
              if ok && w.ordinary.holder.None? then w.ordinary.(last := Some(clock(SetReset))) else w.ordinary
  {
    if ok {
      var w1 := SoloStep(rp, w, id, fetched, clock);
      assert Solo(rp, w, id, fetched, clock) == Solo(rp, w1, id, fetched, clock);
      if w.ordinary.holder.None? {
        var w2 := SoloStep(rp, w1, id, fetched, clock);
        var w3 := SoloStep(rp, w2, id, fetched, clock);
        assert Solo(rp, w1, id, fetched, clock) == Solo(rp, w2, id, fetched, clock);
        assert Solo(rp, w2, id, fetched, clock) == Solo(rp, w3, id, fetched, clock);
        SoloDrop(rp, w3, id, fetched, clock);
      } else {
        SoloDrop(rp, w1, id, fetched, clock);
      }
    } else {
      SoloDrop(rp, w, id, fetched, clock);
    }
  }

  /** When a successful forced attempt resets the ordinary clock, unless another caller holds it. */
  function ResetTime(w: World, clock: Pc -> Nanos): Option<Nanos> {
    if w.ordinary.holder.None? then Some(clock(SetReset)) else None
  }

  /** A forced attempt once it is admitted. */
  lemma SoloAttempt(rp: Rp, w: World, id: nat, fetched: Option<Metadata>, clock: Pc -> Nanos)
    requires id in w.callers && w.callers[id] == StampForced && w.cache.writer.None?
    ensures var w' := Solo(rp, w, id, fetched, clock);
            w'.cache == CacheOf(rp, w.cache, fetched) && w'.callers[id] == Finished(None, fetched.Some?) &&
            w'.forced.last == Some(clock(StampForced)) && w'.forced.holder.None? &&
            w'.ordinary.holder == w.ordinary.holder &&
            w'.ordinary.last ==
              if fetched.Some? && w.ordinary.holder.None? then Some(clock(SetReset)) else w.ordinary.last
  {
    var w1 := SoloStep(rp, w, id, fetched, clock);
    assert Solo(rp, w, id, fetched, clock) == Solo(rp, w1, id, fetched, clock);
    var after := SoloFetch(rp, w1, id, Forced, fetched, clock);
    SoloRelease(rp, after, id, fetched.Some?, fetched, clock);
  }

  /** Left alone, a caller of `force_refresh_for_retry` does what the object's method does, even while
      the ordinary clock is held. */
  lemma SoloForcedMatches(rp: Rp, w: World, id: nat, fetched: Option<Metadata>, clock: Pc -> Nanos)
    requires w.forced.holder.None? && w.cache.writer.None? && w.ordinary.last.Some?
    requires id in w.callers && w.callers[id] == TryForced
    ensures var w' := Solo(rp, w, id, fetched, clock);
            w'.forced.holder.None? && w'.cache.writer.None? && w'.ordinary.holder == w.ordinary.holder &&
            w'.ordinary.last.Some? && w'.callers[id].Finished? &&
            (Remembered(w'), w'.callers[id].refreshed) ==
            AfterForced(Remembered(w), rp.credentials, clock(CheckForced), clock(StampForced), fetched,
                        ResetTime(w, clock))
  {
    var w1 := SoloStep(rp, w, id, fetched, clock);
    var w2 := SoloStep(rp, w1, id, fetched, clock);
    assert Solo(rp, w, id, fetched, clock) == Solo(rp, w2, id, fetched, clock);
    if w2.callers[id].StampForced? {
      SoloAttempt(rp, w2, id, fetched, clock);
    } else {
      SoloDrop(rp, w2, id, fetched, clock);
    }
  }

  /** Left alone, a caller of `refresh_metadata` replaces the pair exactly when the document was
      fetched, reports whether it was, and leaves both clocks alone. */
  lemma SoloManualMatches(rp: Rp, w: World, id: nat, fetched: Option<Metadata>, clock: Pc -> Nanos)
    requires w.cache.writer.None? && w.ordinary.last.Some?
    requires id in w.callers && w.callers[id] == ReadIssuer(Manual)
    ensures var w' := Solo(rp, w, id, fetched, clock);
            w'.cache.writer.None? && SameClock(w.ordinary, w'.ordinary) && SameClock(w.forced, w'.forced) &&
            Remembered(w') == Refreshed(Remembered(w), rp.credentials, fetched) &&
            w'.callers[id] == Finished(None, fetched != None)
  {
    var after := SoloFetch(rp, w, id, Manual, fetched, clock);
    assert Solo(rp, after, id, fetched, clock) == after;
  }

  /** A caller that finds its clock held changes nothing: `client` hands out what is cached, and a
      forced refresh reports failure. */
  lemma HeldClockTurnsAway(rp: Rp, w: World, id: nat, fetched: Option<Metadata>, clock: Pc -> Nanos)
    requires id in w.callers
    requires (w.callers[id] == TryStale && w.ordinary.holder.Some?) ||
             (w.callers[id] == TryForced && w.forced.holder.Some?)
    ensures var w' := Solo(rp, w, id, fetched, clock);
            w'.cache == w.cache && w'.ordinary == w.ordinary && w'.forced == w.forced &&
            w'.callers[id] == Finished(if w.callers[id] == TryStale then Some(w.cache.client) else None, false)
  {
    var w1 := SoloStep(rp, w, id, fetched, clock);
    assert Solo(rp, w, id, fetched, clock) == Solo(rp, w1, id, fetched, clock);
    if w.callers[id] == TryStale {
      SoloRead(rp, w1, id, fetched, clock);
    }
  }
}

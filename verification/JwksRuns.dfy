/** The refresh protocol under concurrency: any number of callers, every lock operation, clock
    reading and fetch its own step, callers cancelled at any await. */
module JwksRuns {
  import opened Wrappers
  import opened Clock
  import opened Jwks

  /** Why metadata is being fetched. */
  datatype Reason = Scheduled | Forced | Manual

  /** Where a caller stands. */
  datatype Pc =
    // client() and refresh_if_stale
    | TryStale | CheckStale | StampStale | DropStale
    // force_refresh_for_retry
    | TryForced | CheckForced | StampForced | TryReset | SetReset | DropReset | DropForced(ok: bool)
    // refresh_metadata
    | ReadIssuer(why: Reason) | Fetching(why: Reason) | AwaitWrite(why: Reason, doc: Metadata)
    | SetMetadata(why: Reason, doc: Metadata) | SetClient(why: Reason, doc: Metadata) | DropWrite(why: Reason)
    | ReadClient
    // the client handed out, and whether a forced or manual refresh succeeded
    | Finished(client: Option<Client>, refreshed: bool)

  /** The cached document and client, and who holds the lock over them. */
  datatype Cache = Cache(metadata: Metadata, client: Client, writer: Option<nat>)

  /** A refresh that a clock admitted: whose it is, when the clock recorded it, and when its fetch
      left for the provider, if it did. */
  datatype Attempt = Attempt(caller: nat, stamp: Nanos, fetch: Option<Nanos>)

  /** A lock-protected clock: its last reading, who holds it, the attempts it admitted, and a log of
      when their fetches left. */
  datatype Timer = Timer(last: Option<Nanos>, holder: Option<nat>, attempts: seq<Attempt>, fetches: seq<Nanos>)

  function Stamps(attempts: seq<Attempt>): (r: seq<Nanos>)
    ensures |r| == |attempts|
  {
    seq(|attempts|, i requires 0 <= i < |attempts| => attempts[i].stamp)
  }

  /** The caller's attempt, with its fetch on its way. */
  function Started(attempts: seq<Attempt>, caller: nat, now: Nanos): (r: seq<Attempt>)
    ensures |r| == |attempts|
  {
    seq(|attempts|, i requires 0 <= i < |attempts| =>
      if attempts[i].caller == caller then attempts[i].(fetch := Some(now)) else attempts[i])
  }

  function Stamp(t: Timer, caller: nat, now: Nanos): Timer {
    t.(last := Some(now), attempts := t.attempts + [Attempt(caller, now, None)])
  }

  function Send(t: Timer, caller: nat, now: Nanos): Timer {
    t.(attempts := Started(t.attempts, caller, now), fetches := t.fetches + [now])
  }

  datatype World = World(now: Nanos, cache: Cache, ordinary: Timer, forced: Timer, callers: map<nat, Pc>)

  datatype Rp = Rp(credentials: int, jwksTtl: Nanos)

  datatype Event =
    | Tick(to: Nanos)
    | Call(id: nat, pc: Pc)
    | Step(id: nat, fetched: Option<Metadata>)
    | Cancel(id: nat)

  predicate HoldsRefresh(pc: Pc) {
    pc.CheckStale? || pc.StampStale? || pc.DropStale? || pc.SetReset? || pc.DropReset?
  }

  predicate HoldsForced(pc: Pc) {
    pc.CheckForced? || pc.StampForced? || pc.TryReset? || pc.SetReset? || pc.DropReset? || pc.DropForced? ||
    ((pc.ReadIssuer? || pc.Fetching? || pc.AwaitWrite? || Writing(pc)) && pc.why.Forced?)
  }

  predicate Writing(pc: Pc) {
    pc.SetMetadata? || pc.SetClient? || pc.DropWrite?
  }

  /** The await points, where a caller's future may be dropped. */
  predicate Awaiting(pc: Pc) {
    pc.ReadIssuer? || pc.Fetching? || pc.AwaitWrite? || pc.ReadClient?
  }

  /** Reading or writing the cached pair waits while a writer holds its lock. */
  predicate Enabled(w: World, e: Event) {
    match e
    case Tick(to) => w.now <= to
    case Call(id, pc) => id !in w.callers && (pc == TryStale || pc == TryForced || pc == ReadIssuer(Manual))
    case Step(id, _) =>
      id in w.callers && !w.callers[id].Finished? &&
      (w.callers[id].ReadIssuer? || w.callers[id].AwaitWrite? || w.callers[id].ReadClient? ==> w.cache.writer.None?)
    case Cancel(id) => id in w.callers && Awaiting(w.callers[id])
  }

  /** Where a fetch's caller goes when it ended. */
  function AfterFetch(why: Reason, ok: bool): Pc {
    match why
    case Scheduled => ReadClient
    case Forced => if ok then TryReset else DropForced(false)
    case Manual => Finished(None, ok)
  }

  predicate Overdue(rp: Rp, ordinary: Timer, now: Nanos) {
    ordinary.last.Some? && IsStale(ordinary.last.value, now, rp.jwksTtl)
  }

  function NextPc(rp: Rp, w: World, pc: Pc, fetched: Option<Metadata>): Pc {
    match pc
    case TryStale => if w.ordinary.holder.None? then CheckStale else ReadClient
    case CheckStale => if Overdue(rp, w.ordinary, w.now) then StampStale else ReadClient
    case StampStale => DropStale
    case DropStale => ReadIssuer(Scheduled)
    case TryForced => if w.forced.holder.None? then CheckForced else Finished(None, false)
    case CheckForced => if MayForce(w.forced.last, w.now) then StampForced else DropForced(false)
    case StampForced => ReadIssuer(Forced)
    case TryReset => if w.ordinary.holder.None? then SetReset else DropForced(true)
    case SetReset => DropReset
    case DropReset => DropForced(true)
    case DropForced(ok) => Finished(None, ok)
    case ReadIssuer(why) => Fetching(why)
    case Fetching(why) => (match fetched case Some(doc) => AwaitWrite(why, doc) case None => AfterFetch(why, false))
    case AwaitWrite(why, doc) => SetMetadata(why, doc)
    case SetMetadata(why, doc) => SetClient(why, doc)
    case SetClient(why, doc) => DropWrite(why)
    case DropWrite(why) => AfterFetch(why, true)
    case ReadClient => Finished(Some(w.cache.client), false)
    case Finished(_, _) => pc
  }

  function NextCache(rp: Rp, cache: Cache, pc: Pc, id: nat): Cache {
    match pc
    case AwaitWrite(_, _) => cache.(writer := Some(id))
    case SetMetadata(_, doc) => cache.(metadata := doc)
    case SetClient(_, doc) => cache.(client := Client(doc, rp.credentials))
    case DropWrite(_) => cache.(writer := None)
    case _ => cache
  }

  function NextOrdinary(rp: Rp, t: Timer, pc: Pc, id: nat, now: Nanos): Timer {
    match pc
    case TryStale => if t.holder.None? then t.(holder := Some(id)) else t
    case CheckStale => if Overdue(rp, t, now) then t else t.(holder := None)
    case StampStale => Stamp(t, id, now)
    case ReadIssuer(Scheduled) => Send(t, id, now)
    case DropStale => t.(holder := None)
    case TryReset => if t.holder.None? then t.(holder := Some(id)) else t
    case SetReset => t.(last := Some(now))
    case DropReset => t.(holder := None)
    case _ => t
  }

  function NextForced(t: Timer, pc: Pc, id: nat, now: Nanos): Timer {
    match pc
    case TryForced => if t.holder.None? then t.(holder := Some(id)) else t
    case StampForced => Stamp(t, id, now)
    case ReadIssuer(Forced) => Send(t, id, now)
    case DropForced(_) => t.(holder := None)
    case _ => t
  }

  /** One caller's step: each lock-protected part changes as its position says. */
  function Take(rp: Rp, w: World, id: nat, fetched: Option<Metadata>): World
    requires id in w.callers
  {
    var pc := w.callers[id];
    World(w.now, NextCache(rp, w.cache, pc, id), NextOrdinary(rp, w.ordinary, pc, id, w.now),
          NextForced(w.forced, pc, id, w.now), w.callers[id := NextPc(rp, w, pc, fetched)])
  }

  function Apply(rp: Rp, w: World, e: Event): World
    requires Enabled(w, e)
  {
    match e
    case Tick(to) => w.(now := to)
    case Call(id, pc) => w.(callers := w.callers[id := pc])
    case Step(id, fetched) => Take(rp, w, id, fetched)
    case Cancel(id) =>
      w.(callers := w.callers[id := Finished(None, false)],
         forced := if HoldsForced(w.callers[id]) then w.forced.(holder := None) else w.forced)
  }

  ghost predicate Runs(rp: Rp, w: World, es: seq<Event>, w': World)
    decreases |es|
  {
    if es == [] then
      w' == w
    else
      Enabled(w, es[0]) && Runs(rp, Apply(rp, w, es[0]), es[1..], w')
  }

  /** Right after discovery. */
  predicate Discovered(rp: Rp, w: World) {
    w.cache == Cache(w.cache.metadata, Client(w.cache.metadata, rp.credentials), None) &&
    w.ordinary.last.Some? && w.ordinary.last.value <= w.now &&
    w.ordinary.holder.None? && w.ordinary.attempts == [] && w.ordinary.fetches == [] &&
    w.forced == Timer(None, None, [], []) && w.callers == map[]
  }

  // ---- Who holds what ---------------------------------------------------------------

  /** A lock's recorded holder is exactly the caller whose position says it holds it. */
  ghost predicate HolderAgrees(w: World, holder: Option<nat>, holds: Pc -> bool) {
    (forall id | id in w.callers :: holds(w.callers[id]) <==> holder == Some(id)) &&
    (holder.Some? ==> holder.value in w.callers)
  }

  ghost predicate LocksAgree(w: World) {
    HolderAgrees(w, w.ordinary.holder, pc => HoldsRefresh(pc)) &&
    HolderAgrees(w, w.forced.holder, pc => HoldsForced(pc)) &&
    HolderAgrees(w, w.cache.writer, pc => Writing(pc))
  }

  /** A lock taken, kept or released by one caller, as its own move says. */
  predicate HandsOver(before: Option<nat>, after: Option<nat>, id: nat, held: bool, holds: bool) {
    (held <==> before == Some(id)) && (holds <==> after == Some(id)) && (held || holds || after == before) &&
    (holds && !held ==> before.None?) && (held && !holds ==> after.None?)
  }

  lemma HolderStaysAgreed(w: World, w': World, id: nat, before: Option<nat>, after: Option<nat>, holds: Pc -> bool)
    requires HolderAgrees(w, before, holds)
    requires id in w'.callers && w'.callers == w.callers[id := w'.callers[id]]
    requires HandsOver(before, after, id, id in w.callers && holds(w.callers[id]), holds(w'.callers[id]))
    ensures HolderAgrees(w', after, holds)
  {
  }

  lemma StepHandsOverRefresh(rp: Rp, w: World, id: nat, pc: Pc, fetched: Option<Metadata>)
    requires HoldsRefresh(pc) <==> w.ordinary.holder == Some(id)
    ensures HandsOver(w.ordinary.holder, NextOrdinary(rp, w.ordinary, pc, id, w.now).holder, id,
                      HoldsRefresh(pc), HoldsRefresh(NextPc(rp, w, pc, fetched)))
  {
  }

  lemma StepHandsOverForced(rp: Rp, w: World, id: nat, pc: Pc, fetched: Option<Metadata>)
    requires HoldsForced(pc) <==> w.forced.holder == Some(id)
    ensures HandsOver(w.forced.holder, NextForced(w.forced, pc, id, w.now).holder, id,
                      HoldsForced(pc), HoldsForced(NextPc(rp, w, pc, fetched)))
  {
  }

  lemma StepHandsOverWriter(rp: Rp, w: World, id: nat, pc: Pc, fetched: Option<Metadata>)
    requires Writing(pc) <==> w.cache.writer == Some(id)
    requires pc.AwaitWrite? ==> w.cache.writer.None?
    ensures HandsOver(w.cache.writer, NextCache(rp, w.cache, pc, id).writer, id,
                      Writing(pc), Writing(NextPc(rp, w, pc, fetched)))
  {
  }

  lemma LocksAgreeStep(rp: Rp, w: World, e: Event)
    requires LocksAgree(w) && Enabled(w, e)
    ensures LocksAgree(Apply(rp, w, e))
  {
    var w' := Apply(rp, w, e);
    if !e.Tick? {
      if e.Step? {
        StepHandsOverRefresh(rp, w, e.id, w.callers[e.id], e.fetched);
        StepHandsOverForced(rp, w, e.id, w.callers[e.id], e.fetched);
        StepHandsOverWriter(rp, w, e.id, w.callers[e.id], e.fetched);
      }
      HolderStaysAgreed(w, w', e.id, w.ordinary.holder, w'.ordinary.holder, pc => HoldsRefresh(pc));
      HolderStaysAgreed(w, w', e.id, w.forced.holder, w'.forced.holder, pc => HoldsForced(pc));
      HolderStaysAgreed(w, w', e.id, w.cache.writer, w'.cache.writer, pc => Writing(pc));
    }
  }

  // ---- The cached pair ----------------------------------------------------------------

  /** The client matches the document, except between a writer's two assignments. */
  predicate PairAgrees(rp: Rp, w: World) {
    match w.cache.writer
    case None => w.cache.client == Client(w.cache.metadata, rp.credentials)
    case Some(id) =>
      id in w.callers &&
      if w.callers[id].SetClient? then w.callers[id].doc == w.cache.metadata
      else w.cache.client == Client(w.cache.metadata, rp.credentials)
  }

  lemma PairAgreesStep(rp: Rp, w: World, e: Event)
    requires LocksAgree(w) && PairAgrees(rp, w) && Enabled(w, e)
    ensures PairAgrees(rp, Apply(rp, w, e))
  {
  }

  // ---- Spacing --------------------------------------------------------------------------

  predicate Spaced(times: seq<Nanos>, gap: Nanos) {
    forall i | 0 < i < |times| :: times[i] - times[i - 1] >= gap
  }

  lemma SpacedExtends(times: seq<Nanos>, t: Nanos, gap: Nanos)
    requires Spaced(times, gap) && (times != [] ==> t - times[|times| - 1] >= gap)
    ensures Spaced(times + [t], gap)
  {
  }

  lemma StampedAfter(t: Timer, id: nat, now: Nanos, gap: Nanos)
    ensures Stamps(Stamp(t, id, now).attempts) == Stamps(t.attempts) + [now]
    ensures Spaced(Stamps(t.attempts), gap) &&
            (t.attempts != [] ==> now - t.attempts[|t.attempts| - 1].stamp >= gap) ==>
            Spaced(Stamps(Stamp(t, id, now).attempts), gap)
  {
    if Spaced(Stamps(t.attempts), gap) && (t.attempts != [] ==> now - t.attempts[|t.attempts| - 1].stamp >= gap) {
      SpacedExtends(Stamps(t.attempts), now, gap);
    }
  }

  lemma SentAfter(t: Timer, id: nat, now: Nanos)
    ensures Stamps(Send(t, id, now).attempts) == Stamps(t.attempts)
  {
  }

  predicate HolderAt(w: World, t: Timer, pc: Pc) {
    t.holder.Some? && t.holder.value in w.callers && w.callers[t.holder.value] == pc
  }

  /** The ordinary clock never runs ahead, never falls behind the last scheduled attempt, and a
      caller about to stamp it still finds it stale. */
  predicate ScheduleAgrees(rp: Rp, w: World) {
    var t := w.ordinary;
    t.last.Some? && t.last.value <= w.now && Spaced(Stamps(t.attempts), rp.jwksTtl) &&
    (t.attempts != [] ==> t.attempts[|t.attempts| - 1].stamp <= t.last.value) &&
    (HolderAt(w, t, StampStale) ==> Overdue(rp, t, w.now))
  }

  /** The forced clock is the last forced attempt, and a caller about to stamp it may. */
  predicate ForcedAgrees(w: World) {
    var t := w.forced;
    Spaced(Stamps(t.attempts), FORCED_REFRESH_MIN_INTERVAL) &&
    t.last == (if t.attempts == [] then None else Some(t.attempts[|t.attempts| - 1].stamp)) &&
    (HolderAt(w, t, StampForced) ==> MayForce(t.last, w.now))
  }

  lemma ScheduleAgreesStep(rp: Rp, w: World, e: Event)
    requires ScheduleAgrees(rp, w) && Enabled(w, e)
    requires e.Step? ==> (HoldsRefresh(w.callers[e.id]) <==> w.ordinary.holder == Some(e.id))
    ensures ScheduleAgrees(rp, Apply(rp, w, e))
  {
    if e.Step? {
      StampedAfter(w.ordinary, e.id, w.now, rp.jwksTtl);
      SentAfter(w.ordinary, e.id, w.now);
    }
  }

  lemma ForcedAgreesStep(rp: Rp, w: World, e: Event)
    requires ForcedAgrees(w) && Enabled(w, e)
    requires e.Step? ==> (HoldsForced(w.callers[e.id]) <==> w.forced.holder == Some(e.id))
    ensures ForcedAgrees(Apply(rp, w, e))
  {
    if e.Step? {
      StampedAfter(w.forced, e.id, w.now, FORCED_REFRESH_MIN_INTERVAL);
      SentAfter(w.forced, e.id, w.now);
    }
  }

  ghost predicate Safe(rp: Rp, w: World) {
    LocksAgree(w) && PairAgrees(rp, w) && ScheduleAgrees(rp, w) && ForcedAgrees(w)
  }

  lemma SafeStep(rp: Rp, w: World, e: Event)
    requires Safe(rp, w) && Enabled(w, e)
    ensures Safe(rp, Apply(rp, w, e))
  {
    LocksAgreeStep(rp, w, e);
    PairAgreesStep(rp, w, e);
    ScheduleAgreesStep(rp, w, e);
    ForcedAgreesStep(rp, w, e);
  }

  lemma {:induction false} SafeAlways(rp: Rp, w: World, es: seq<Event>, w': World)
    requires Safe(rp, w) && Runs(rp, w, es, w')
    ensures Safe(rp, w')
    decreases |es|
  {
    if es != [] {
      SafeStep(rp, w, es[0]);
      SafeAlways(rp, Apply(rp, w, es[0]), es[1..], w');
    }
  }

  // ---- The guarantees ---------------------------------------------------------------------

  /** In every interleaving, a caller is handed the client built from the document cached at
      that moment, never one half of a swap. */
  lemma ClientsMatchMetadata(rp: Rp, w0: World, es: seq<Event>, w: World, read: Event)
    requires Discovered(rp, w0) && Runs(rp, w0, es, w)
    requires Enabled(w, read) && read.Step? && w.callers[read.id].ReadClient?
    ensures Apply(rp, w, read).callers[read.id] == Finished(Some(Client(w.cache.metadata, rp.credentials)), false)
  {
    SafeAlways(rp, w0, es, w);
  }

  /** A forced attempt from its lock to its release. */
  predicate InFlight(w: World, id: nat) {
    id in w.callers && HoldsForced(w.callers[id])
  }

  /** Forced attempts never overlap, and begin at least a minute apart. */
  lemma ForcedAttemptsAreRare(rp: Rp, w0: World, es: seq<Event>, w: World)
    requires Discovered(rp, w0) && Runs(rp, w0, es, w)
    ensures forall i, j | InFlight(w, i) && InFlight(w, j) :: i == j
    ensures Spaced(Stamps(w.forced.attempts), FORCED_REFRESH_MIN_INTERVAL)
  {
    SafeAlways(rp, w0, es, w);
  }

  /** How many of the times fall in a window. */
  function CountIn(times: seq<Nanos>, from: Nanos, to: Nanos): nat {
    if times == [] then 0
    else CountIn(times[..|times| - 1], from, to) + if from <= times[|times| - 1] <= to then 1 else 0
  }

  /** `n` of the times lie in the window, so the last of them is that many gaps after its start. */
  predicate Occupies(n: nat, last: Nanos, gap: Nanos, from: Nanos, to: Nanos) {
    n * gap <= to - from + gap && (n > 0 ==> (n - 1) * gap <= last - from && from <= last)
  }

  lemma OneMoreOccupies(n: nat, last: Nanos, t: Nanos, gap: Nanos, from: Nanos, to: Nanos)
    requires gap > 0 && from <= to && Occupies(n, last, gap, from, to) && t - last >= gap
    ensures Occupies(n + if from <= t <= to then 1 else 0, t, gap, from, to)
  {
  }

  lemma {:induction false} SpacedCount(times: seq<Nanos>, gap: Nanos, from: Nanos, to: Nanos)
    requires gap > 0 && from <= to && Spaced(times, gap) && times != []
    ensures Occupies(CountIn(times, from, to), times[|times| - 1], gap, from, to)
  {
    var (init, t) := (times[..|times| - 1], times[|times| - 1]);
    if init != [] {
      SpacedCount(init, gap, from, to);
      OneMoreOccupies(CountIn(init, from, to), init[|init| - 1], t, gap, from, to);
    }
  }

  lemma CountBound(n: nat, gap: Nanos, window: Nanos)
    requires gap > 0 && window >= 0 && n * gap <= window + gap
    ensures n <= window / gap + 1
  {
    var q := window / gap;
    assert window < (q + 1) * gap;
    assert n >= q + 2 ==> n * gap >= (q + 2) * gap;
  }

  lemma SpacedBound(times: seq<Nanos>, gap: Nanos, from: Nanos, window: Nanos)
    requires gap > 0 && window >= 0 && Spaced(times, gap)
    ensures CountIn(times, from, from + window) <= window / gap + 1
  {
    if times != [] {
      SpacedCount(times, gap, from, from + window);
    }
    CountBound(CountIn(times, from, from + window), gap, window);
  }

  /** The crate's own traffic to the provider is bounded whatever its callers do: in any window,
      the attempts the TTL and failed validations trigger are at most one per TTL, plus one
      per minute, plus two. */
  lemma InternalAttemptsAreBounded(rp: Rp, w0: World, es: seq<Event>, w: World, from: Nanos, window: Nanos)
    requires Discovered(rp, w0) && Runs(rp, w0, es, w)
    requires rp.jwksTtl > 0 && window >= 0
    ensures CountIn(Stamps(w.ordinary.attempts), from, from + window) +
            CountIn(Stamps(w.forced.attempts), from, from + window)
         <= window / rp.jwksTtl + window / FORCED_REFRESH_MIN_INTERVAL + 2
  {
    SafeAlways(rp, w0, es, w);
    SpacedBound(Stamps(w.ordinary.attempts), rp.jwksTtl, from, window);
    SpacedBound(Stamps(w.forced.attempts), FORCED_REFRESH_MIN_INTERVAL, from, window);
  }
}

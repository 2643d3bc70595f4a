/** Why the bound on scheduled fetches needs a bound on their delay: attempts recorded one TTL apart
    can send their fetches together. */
module JwksDelays {
  import opened Wrappers
  import opened Clock
  import opened Jwks
  import opened JwksRuns
  import opened JwksFetches

  // ---- Reaching worlds --------------------------------------------------------------------

  /** A property of worlds that every event keeps. */
  ghost predicate Closed(rp: Rp, reached: World -> bool) {
    forall w, e {:trigger Apply(rp, w, e), reached(w)} | reached(w) && Enabled(w, e) :: reached(Apply(rp, w, e))
  }

  ghost predicate Reaches(rp: Rp, w0: World, w: World) {
    exists es :: Runs(rp, w0, es, w)
  }

  lemma {:induction false} RunsOn(rp: Rp, w0: World, es: seq<Event>, w: World, e: Event)
    requires Runs(rp, w0, es, w) && Enabled(w, e)
    ensures Runs(rp, w0, es + [e], Apply(rp, w, e))
    decreases |es|
  {
    if es == [] {
      assert [e][1..] == [];
    } else {
      assert (es + [e])[1..] == es[1..] + [e];
      RunsOn(rp, Apply(rp, w0, es[0]), es[1..], w, e);
    }
  }

  lemma ReachesIsClosed(rp: Rp, w0: World)
    ensures Reaches(rp, w0, w0) && Closed(rp, w => Reaches(rp, w0, w))
  {
    assert Runs(rp, w0, [], w0);
    forall w, e | Reaches(rp, w0, w) && Enabled(w, e)
      ensures Reaches(rp, w0, Apply(rp, w, e))
    {
      var es :| Runs(rp, w0, es, w);
      RunsOn(rp, w0, es, w, e);
    }
  }

  /** Right after discovery, at time zero. */
  function JustDiscovered(rp: Rp): World {
    World(0, Cache(0, Client(0, rp.credentials), None), Timer(Some(0), None, [], []), Timer(None, None, [], []), map[])
  }

  lemma TickOn(rp: Rp, reached: World -> bool, w: World, to: Nanos) returns (w': World)
    requires Closed(rp, reached) && reached(w) && w.now <= to
    ensures reached(w') && w' == w.(now := to)
  {
    w' := Apply(rp, w, Tick(to));
  }

  lemma CallOn(rp: Rp, reached: World -> bool, w: World, id: nat) returns (w': World)
    requires Closed(rp, reached) && reached(w) && id !in w.callers
    ensures reached(w') && w' == w.(callers := w.callers[id := TryStale])
  {
    w' := Apply(rp, w, Call(id, TryStale));
  }

  /** A caller between its call and its fetch moves: only the ordinary timer and its position change. */
  lemma StepOn(rp: Rp, reached: World -> bool, w: World, id: nat, pc: Pc, t: Timer) returns (w': World)
    requires Closed(rp, reached) && reached(w) && id in w.callers && w.cache.writer.None?
    requires var pc0 := w.callers[id];
             pc0.TryStale? || pc0.CheckStale? || pc0.StampStale? || pc0.DropStale? || pc0 == ReadIssuer(Scheduled)
    requires NextPc(rp, w, w.callers[id], None) == pc && NextOrdinary(rp, w.ordinary, w.callers[id], id, w.now) == t
    ensures reached(w') && w' == w.(ordinary := t, callers := w.callers[id := pc])
  {
    w' := Apply(rp, w, Step(id, None));
  }

  /** A new caller finds the clock stale, records its attempt, and stands before its fetch. */
  lemma Admit(rp: Rp, reached: World -> bool, w: World, id: nat) returns (w': World)
    requires Closed(rp, reached) && reached(w) && id !in w.callers && w.cache.writer.None?
    requires w.ordinary.holder.None? && Overdue(rp, w.ordinary, w.now)
    ensures reached(w')
    ensures w' == w.(ordinary := Stamp(w.ordinary, id, w.now), callers := w.callers[id := ReadIssuer(Scheduled)])
  {
    var t := w.ordinary;
    w' := CallOn(rp, reached, w, id);
    w' := StepOn(rp, reached, w', id, CheckStale, t.(holder := Some(id)));
    w' := StepOn(rp, reached, w', id, StampStale, t.(holder := Some(id)));
    w' := StepOn(rp, reached, w', id, DropStale, Stamp(t.(holder := Some(id)), id, w.now));
    w' := StepOn(rp, reached, w', id, ReadIssuer(Scheduled), Stamp(t, id, w.now));
    assert w'.callers == w.callers[id := ReadIssuer(Scheduled)];
  }

  /** A caller's fetch leaves. */
  lemma Depart(rp: Rp, reached: World -> bool, w: World, id: nat) returns (w': World)
    requires Closed(rp, reached) && reached(w) && id in w.callers && w.callers[id] == ReadIssuer(Scheduled)
    requires w.cache.writer.None?
    ensures reached(w')
    ensures w' == w.(ordinary := Send(w.ordinary, id, w.now), callers := w.callers[id := Fetching(Scheduled)])
  {
    w' := StepOn(rp, reached, w, id, Fetching(Scheduled), Send(w.ordinary, id, w.now));
  }

  // ---- Any number of fetches at one instant --------------------------------------------------

  /** The attempts of callers `0..n`, one TTL apart, the first `sent` of which were sent at `now`. */
  function Piled(ttl: Nanos, n: nat, sent: nat, now: Nanos): (r: seq<Attempt>)
    ensures |r| == n
  {
    seq(n, (i: nat) => Attempt(i, (i + 1) * ttl, if i < sent then Some(now) else None))
  }

  function Copies(n: nat, t: Nanos): (r: seq<Nanos>)
    ensures |r| == n
  {
    seq(n, _ => t)
  }

  /** All of the callers `0..n` have been admitted, and those from `sent` on stand before their fetch. */
  predicate Standing(rp: Rp, w: World, n: nat, sent: nat) {
    w.now == n * rp.jwksTtl && w.cache.writer.None? &&
    w.ordinary == Timer(Some(w.now), None, Piled(rp.jwksTtl, n, sent, w.now), Copies(sent, w.now)) &&
    (forall id | id in w.callers :: id < n) &&
    forall i | sent <= i < n :: i in w.callers && w.callers[i] == ReadIssuer(Scheduled)
  }

  lemma PiledGrows(ttl: Nanos, n: nat, now: Nanos)
    ensures Piled(ttl, n, 0, now) + [Attempt(n, (n + 1) * ttl, None)] == Piled(ttl, n + 1, 0, (n + 1) * ttl)
  {
  }

  lemma PiledSends(ttl: Nanos, n: nat, sent: nat, now: Nanos)
    requires sent < n
    ensures Started(Piled(ttl, n, sent, now), sent, now) == Piled(ttl, n, sent + 1, now)
    ensures Copies(sent, now) + [now] == Copies(sent + 1, now)
  {
  }

  lemma OneMoreTtl(n: nat, ttl: Nanos)
    ensures (n + 1) * ttl == n * ttl + ttl
  {
  }

  lemma {:induction false} PileUp(rp: Rp, reached: World -> bool, n: nat) returns (w: World)
    requires Closed(rp, reached) && reached(JustDiscovered(rp)) && rp.jwksTtl > 0
    ensures reached(w) && Standing(rp, w, n, 0)
  {
    if n == 0 {
      w := JustDiscovered(rp);
      assert Piled(rp.jwksTtl, 0, 0, 0) == [] && Copies(0, 0) == [];
    } else {
      var ttl := rp.jwksTtl;
      w := PileUp(rp, reached, n - 1);
      OneMoreTtl(n - 1, ttl);
      PiledGrows(ttl, n - 1, w.now);
      w := TickOn(rp, reached, w, n * ttl);
      w := Admit(rp, reached, w, n - 1);
      assert Copies(0, (n - 1) * ttl) == Copies(0, n * ttl);
    }
  }

  lemma {:induction false} SendAll(rp: Rp, reached: World -> bool, w0: World, n: nat, sent: nat) returns (w: World)
    requires Closed(rp, reached) && reached(w0) && Standing(rp, w0, n, sent) && sent <= n
    ensures reached(w) && Standing(rp, w, n, n)
    decreases n - sent
  {
    w := w0;
    if sent < n {
      PiledSends(rp.jwksTtl, n, sent, w0.now);
      w := Depart(rp, reached, w0, sent);
      w := SendAll(rp, reached, w, n, sent + 1);
    }
  }

  lemma {:induction false} CopiesCount(n: nat, t: Nanos)
    ensures CountIn(Copies(n, t), t, t) == n
  {
    if n > 0 {
      assert Copies(n, t)[..n - 1] == Copies(n - 1, t);
      CopiesCount(n - 1, t);
    }
  }

  lemma PiledDelays(ttl: Nanos, n: nat, i: nat)
    requires ttl > 0 && i < n
    ensures n * ttl <= (i + 1) * ttl + (n - 1) * ttl
  {
    assert (i + 1) * ttl + (n - 1) * ttl == n * ttl + i * ttl;
  }

  lemma PiledIsPrompt(ttl: Nanos, n: nat)
    requires ttl > 0 && n > 0
    ensures forall i | 0 <= i < n ::
              Piled(ttl, n, n, n * ttl)[i].fetch.value <= Piled(ttl, n, n, n * ttl)[i].stamp + (n - 1) * ttl
  {
    forall i | 0 <= i < n
      ensures Piled(ttl, n, n, n * ttl)[i].fetch.value <= Piled(ttl, n, n, n * ttl)[i].stamp + (n - 1) * ttl
    {
      PiledDelays(ttl, n, i);
    }
  }

  /** Fetches pile up: for every `n` a run sends `n` scheduled fetches at one instant. Its longest
      delay is `n - 1` TTLs, so the bound that allows for the delay is attained; and for three or
      more the bound on recorded attempts fails of fetches. */
  lemma FetchesPileUp(rp: Rp, n: nat) returns (w: World)
    requires rp.jwksTtl > 0 && n > 0
    ensures Discovered(rp, JustDiscovered(rp)) && Reaches(rp, JustDiscovered(rp), w)
    ensures CountIn(w.ordinary.fetches, w.now, w.now) == n && Prompt(w.ordinary, (n - 1) * rp.jwksTtl)
    ensures n == (0 + (n - 1) * rp.jwksTtl) / rp.jwksTtl + 1
    ensures n >= 3 ==> CountIn(w.ordinary.fetches, w.now, w.now) + CountIn(w.forced.fetches, w.now, w.now)
                       > 0 / rp.jwksTtl + 0 / FORCED_REFRESH_MIN_INTERVAL + 2
  {
    var reached := w => Reaches(rp, JustDiscovered(rp), w);
    ReachesIsClosed(rp, JustDiscovered(rp));
    w := PileUp(rp, reached, n);
    w := SendAll(rp, reached, w, n, 0);
    CopiesCount(n, w.now);
    PiledIsPrompt(rp.jwksTtl, n);
    ExactQuotient((n - 1) * rp.jwksTtl, n - 1, rp.jwksTtl);
  }

  lemma {:induction false} MultiplesApart(a: int, b: int, d: int)
    requires a < b && d > 0
    ensures a * d + d <= b * d
    decreases b - a
  {
    assert b * d == (b - 1) * d + d;
    if a < b - 1 {
      MultiplesApart(a, b - 1, d);
    }
  }

  lemma QuotientBrackets(x: int, d: int) returns (q: int, r: int)
    requires d > 0
    ensures q == x / d && x == q * d + r && 0 <= r < d
  {
    q, r := x / d, x % d;
  }

  lemma ExactQuotient(x: int, n: int, d: int)
    requires d > 0 && x == n * d
    ensures x / d == n
  {
    var q, r := QuotientBrackets(x, d);
    if q < n {
      MultiplesApart(q, n, d);
    } else if n < q {
      MultiplesApart(n, q, d);
    }
  }

  // ---- How far the delay matters -----------------------------------------------------------------

  /** The bound on recorded attempts, claimed of the scheduled fetches of every run whose fetches are
      all sent within `delay`. */
  ghost predicate StampBoundHolds(rp: Rp, delay: Nanos)
    requires rp.jwksTtl > 0
  {
    forall w0, w, from, to | Discovered(rp, w0) && Reaches(rp, w0, w) && Prompt(w.ordinary, delay) && from <= to ::
      CountIn(w.ordinary.fetches, from, to) <= (to - from) / rp.jwksTtl + 1
  }

  lemma UndelayedIsBounded(rp: Rp)
    requires rp.jwksTtl > 0
    ensures StampBoundHolds(rp, 0)
  {
    forall w0, w, from, to | Discovered(rp, w0) && Reaches(rp, w0, w) && Prompt(w.ordinary, 0) && from <= to
      ensures CountIn(w.ordinary.fetches, from, to) <= (to - from) / rp.jwksTtl + 1
    {
      var es :| Runs(rp, w0, es, w);
      ScheduledFetchesAreBounded(rp, w0, es, w, 0, from, to - from);
    }
  }

  /** Two fetches less than a TTL apart: the first is sent a nanosecond late, the second at once. */
  lemma LateFetch(rp: Rp) returns (w: World)
    requires rp.jwksTtl > 0
    ensures Reaches(rp, JustDiscovered(rp), w) && Prompt(w.ordinary, 1)
    ensures w.ordinary.fetches == [rp.jwksTtl + 1, 2 * rp.jwksTtl]
  {
    var (ttl, reached) := (rp.jwksTtl, w => Reaches(rp, JustDiscovered(rp), w));
    ReachesIsClosed(rp, JustDiscovered(rp));
    w := TickOn(rp, reached, JustDiscovered(rp), ttl);
    w := Admit(rp, reached, w, 0);
    w := TickOn(rp, reached, w, ttl + 1);
    w := Depart(rp, reached, w, 0);
    w := TickOn(rp, reached, w, 2 * ttl);
    w := Admit(rp, reached, w, 1);
    w := Depart(rp, reached, w, 1);
    assert w.ordinary.attempts == [Attempt(0, ttl, Some(ttl + 1)), Attempt(1, 2 * ttl, Some(2 * ttl))];
  }

  /** The condition is as weak as it can be: the bound on recorded attempts holds of the scheduled
      fetches of all runs with a given longest delay exactly when there is no delay. */
  lemma StampBoundHoldsExactlyWhen(rp: Rp, delay: Nanos)
    requires rp.jwksTtl > 0 && delay >= 0
    ensures StampBoundHolds(rp, delay) <==> delay == 0
  {
    if delay == 0 {
      UndelayedIsBounded(rp);
    } else {
      var w := LateFetch(rp);
      var (first, second) := (rp.jwksTtl + 1, 2 * rp.jwksTtl);
      CountAppended([], first, first, second);
      CountAppended([first], second, first, second);
      assert [] + [first] == [first] && [first] + [second] == w.ordinary.fetches;
      assert CountIn(w.ordinary.fetches, first, second) == 2;
      assert (second - first) / rp.jwksTtl == 0;
      assert Discovered(rp, JustDiscovered(rp)) && Prompt(w.ordinary, delay);
    }
  }
}

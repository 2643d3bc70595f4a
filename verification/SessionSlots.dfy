/** The slot machine's guarantees, carried over to whole runs of the session, and the round trip
    from a login to its callback. */
module SessionSlots {
  import opened Wrappers
  import opened Clock
  import opened SessionState
  import opened SessionFlow
  import opened SessionTheorems
  import opened SessionAnswers
  import opened Sequences
  import Login
  import PreAuthSlots
  import Redirect
  import RedirectTheorems
  import Utf8

  /** An event under the configured pre-auth TTL; applications leave the slot list alone. */
  predicate UnderTtl(ttl: int, e: Event) {
    Proper(e) && (e.LoginEvent? || e.CallbackEvent? ==> e.settings.preAuthTtlSecs == ttl)
  }

  /** The slot list of a new session. */
  const START := PreAuthSlots.Trace([], [], [])

  /** What an event asks of the slot list: a refused login, an extraction from a session whose
      lifetime is not over (or that has no subject) and an application's write ask nothing. */
  function RequestOf(m: State, e: Event): seq<PreAuthSlots.Request> {
    match e
    case LoginEvent(c, d) =>
      if AfterLogin(c, m, d).1 == Err(BadRequest) then [] else [PreAuthSlots.Login(SlotFor(c, d), d.stored)]
    case CallbackEvent(_, a) => [AsRequest(a)]
    case ExtractEvent(now, max) => if Ended(m, now, max) then [PreAuthSlots.Purge] else []
    case LogoutEvent => [PreAuthSlots.Purge]
    case ApplicationWrite(_, _) => []
    case ApplicationRemove(_) => []
  }

  /** What a run asks of the slot list. */
  function RequestsOf(m: State, es: seq<Event>): seq<PreAuthSlots.Request>
    decreases |es|
  {
    if es == [] then [] else RequestOf(m, es[0]) + RequestsOf(Next(m, es[0]), es[1..])
  }

  /** The slot list's history along a run of the session. */
  function TraceOf(m: State, t: PreAuthSlots.Trace, es: seq<Event>, ttl: int): PreAuthSlots.Trace {
    PreAuthSlots.Run(t, RequestsOf(m, es), ttl)
  }

  lemma {:induction false} RunConcat(t: PreAuthSlots.Trace, a: seq<PreAuthSlots.Request>, b: seq<PreAuthSlots.Request>,
                                     ttl: int)
    ensures PreAuthSlots.Run(t, a + b, ttl) == PreAuthSlots.Run(PreAuthSlots.Run(t, a, ttl), b, ttl)
    decreases |a|
  {
    if a == [] {
      assert a + b == b;
    } else {
      assert (a + b)[1..] == a[1..] + b;
      RunConcat(PreAuthSlots.Extend(t, a[0], ttl), a[1..], b, ttl);
    }
  }

  lemma EventServesSlots(m: State, t: PreAuthSlots.Trace, e: Event, ttl: int)
    requires Sound(m) && UnderTtl(ttl, e) && ReadSlots(m) == t.slots
    ensures ReadSlots(Next(m, e)) == PreAuthSlots.Run(t, RequestOf(m, e), ttl).slots
  {
    match e
    case LoginEvent(c, d) =>
      if AfterLogin(c, m, d).1 != Err(BadRequest) {
        LoginServesSlots(c, m, d);
        RunOne(t, PreAuthSlots.Login(SlotFor(c, d), d.stored), ttl);
      }
    case CallbackEvent(c, a) =>
      CallbackServesSlots(c, m, a);
      RunOne(t, AsRequest(a), ttl);
    case ExtractEvent(now, max) =>
      ExtractionAnswers(m, now, max);
      RunOne(t, PreAuthSlots.Purge, ttl);
    case _ =>
      RunOne(t, PreAuthSlots.Purge, ttl);
  }

  lemma RunOne(t: PreAuthSlots.Trace, r: PreAuthSlots.Request, ttl: int)
    ensures PreAuthSlots.Run(t, [r], ttl) == PreAuthSlots.Extend(t, r, ttl)
  {
  }

  /** In every run the session's slot list is the slot machine's. */
  lemma {:induction false} SessionServesSlots(m: State, t: PreAuthSlots.Trace, es: seq<Event>, ttl: int)
    requires Sound(m) && ReadSlots(m) == t.slots
    requires forall i | 0 <= i < |es| :: UnderTtl(ttl, es[i])
    ensures Sound(After(m, es)) && ReadSlots(After(m, es)) == TraceOf(m, t, es, ttl).slots
    decreases |es|
  {
    if es != [] {
      var rs := RequestOf(m, es[0]);
      SoundStep(m, es[0]);
      EventServesSlots(m, t, es[0], ttl);
      SessionServesSlots(Next(m, es[0]), PreAuthSlots.Run(t, rs, ttl), es[1..], ttl);
      RunConcat(t, rs, RequestsOf(Next(m, es[0]), es[1..]), ttl);
    }
  }

  /** And, if the issued states are distinct, every attempt still in it or consumed was issued
      once, and none is both or consumed twice. */
  lemma SessionFollowsMachine(es: seq<Event>, ttl: int)
    requires forall i | 0 <= i < |es| :: UnderTtl(ttl, es[i])
    requires NoRepeats(PreAuthSlots.States(TraceOf(map[], START, es, ttl).issued))
    ensures Sound(After(map[], es)) && ReadSlots(After(map[], es)) == TraceOf(map[], START, es, ttl).slots
    ensures PreAuthSlots.Accounted(TraceOf(map[], START, es, ttl))
  {
    SessionServesSlots(map[], START, es, ttl);
    PreAuthSlots.StatesAreSingleUse(START, RequestsOf(map[], es), ttl);
  }

  /** A state logs in at most once: over any run of logins, callbacks of every outcome,
      extractions, logouts and application writes, if the issued states are distinct, a callback
      succeeds only for an attempt issued in this session that no earlier callback consumed. */
  lemma StateLogsInOnce(es: seq<Event>, ttl: int, c: Settings, a: Arrival)
    requires forall i | 0 <= i < |es| :: UnderTtl(ttl, es[i])
    requires UnderTtl(ttl, CallbackEvent(c, a))
    requires AfterCallback(c, After(map[], es), a).1.Ok?
    requires NoRepeats(PreAuthSlots.States(TraceOf(map[], START, es, ttl).issued))
    ensures var t := TraceOf(map[], START, es, ttl);
            var entry := Decided(c, After(map[], es), a).value.0;
            a.state == Some(entry.state) && entry in t.issued &&
            forall earlier | earlier in t.consumed :: earlier.state != entry.state
  {
    SessionFollowsMachine(es, ttl);
    var (m, t) := (After(map[], es), TraceOf(map[], START, es, ttl));
    var entry := Decided(c, m, a).value.0;
    DecidedRedeems(c, m, a);
    SubsequenceElements(t.slots, t.issued);
    forall earlier | earlier in t.consumed
      ensures earlier.state != entry.state
    {
      if earlier.state == entry.state {
        PreAuthSlots.DistinctStates(t.issued, earlier, entry);
      }
    }
  }

  // ---- Other tabs ---------------------------------------------------------------------

  /** Another tab's unexpired attempt survives a callback, whatever its outcome, exactly when the
      slot list could be written back. */
  lemma CallbackSparesOtherTabs(c: Settings, m: State, a: Arrival, e: PreAuthEntry)
    requires Sound(m) && Trusted(c, a)
    requires e in ReadSlots(m) && PreAuthSlots.Unexpired(e, a.now, c.preAuthTtlSecs) && a.state != Some(e.state)
    ensures e in ReadSlots(AfterCallback(c, m, a).0) <==> AtSlots !in a.faults
  {
    CallbackServesSlots(c, m, a);
    PreAuthSlots.OtherTabsKeepTheirSlots(ReadSlots(m), AsRequest(a), c.preAuthTtlSecs, e);
  }

  /** An attempt survives another login exactly when that login is refused, or its slot list could
      be written back and at most three unexpired attempts came after this one. */
  lemma LoginSparesOtherTabs(c: Settings, m: State, d: Departure, target: string, e: PreAuthEntry)
    requires e in ReadSlots(m) && e != SlotFor(c, d) && AsksFor(c, d, target)
    ensures e in ReadSlots(AfterLogin(c, m, d).0) <==>
            !ValidFor(c, target) ||
            (d.stored &&
             PreAuthSlots.HeldWith(PreAuthSlots.Pruned(ReadSlots(m), d.now, c.preAuthTtlSecs), e,
                                   PRE_AUTH_MAX_SLOTS - 2))
  {
    if ValidTarget(c, Target(c, d)) {
      LoginServesSlots(c, m, d);
      PreAuthSlots.LoginKeepsTheNewest(ReadSlots(m), PreAuthSlots.Login(SlotFor(c, d), d.stored), c.preAuthTtlSecs, e);
    }
  }

  /** A callback without a code or a state, whose slot list cannot be written, loses the attempt a
      tab just made. */
  lemma FailedWriteLosesEveryTab(c: Settings, e: PreAuthEntry)
    requires PreAuthSlots.Unexpired(e, e.startedAt, c.preAuthTtlSecs)
    ensures var m: State := map[PreAuth := JSlots([e])];
            var a := Arrival(None, None, false, [], e.startedAt, ExchangeFailed, e.startedAt, e.startedAt, {AtSlots});
            ReadSlots(m) == [e] && AfterCallback(c, m, a) == (map[], Err(Internal))
  {
  }

  // ---- From login to callback ------------------------------------------------------

  /** A callback that goes on to renew the session redeems a pending attempt with the state it named. */
  lemma DecidedRedeems(c: Settings, m: State, a: Arrival)
    requires Decided(c, m, a).Ok?
    ensures var entry := Decided(c, m, a).value.0;
            entry in ReadSlots(m) && a.state == Some(entry.state) && Consumed(c, m, a).0 == Some(entry)
  {
    var arrived := ArrivedSlots(c, m, a);
    PreAuthSlots.FirstMatchIsFirst(arrived, a.state.value);
    PreAuthSlots.PrunedIsSubsequence(ReadSlots(m), a.now, c.preAuthTtlSecs);
    SubsequenceElements(arrived, ReadSlots(m));
  }

  // ---- A login and what follows it ------------------------------------------------------

  /** A run of one session under one pre-auth TTL: some events, an accepted login, some more. */
  datatype Story = Story(before: seq<Event>, route: Settings, login: Departure, between: seq<Event>, ttl: int) {
    ghost predicate Valid() {
      (forall i | 0 <= i < |before| :: UnderTtl(ttl, before[i])) && UnderTtl(ttl, LoginEvent(route, login)) &&
      (forall i | 0 <= i < |between| :: UnderTtl(ttl, between[i])) && AfterLogin(route, Start(), login).1.Ok?
    }

    function Start(): State {
      After(map[], before)
    }

    function Slot(): PreAuthEntry {
      SlotFor(route, login)
    }

    function LoggedIn(): State {
      AfterLogin(route, Start(), login).0
    }

    function End(): State {
      After(LoggedIn(), between)
    }

    /** What the session was asked of its slot list since the login. */
    function Since(): seq<PreAuthSlots.Request> {
      RequestsOf(LoggedIn(), between)
    }

    /** The slot list's history at the end. */
    function Trace(): PreAuthSlots.Trace {
      var atLogin := PreAuthSlots.Extend(TraceOf(map[], START, before, ttl), PreAuthSlots.Login(Slot(), true), ttl);
      PreAuthSlots.Run(atLogin, Since(), ttl)
    }

    ghost predicate DistinctStates() {
      NoRepeats(PreAuthSlots.States(Trace().issued))
    }
  }

  lemma StoryServesSlots(s: Story)
    requires s.Valid()
    ensures Sound(s.Start()) && Sound(s.LoggedIn()) && Sound(s.End()) && ReadSlots(s.End()) == s.Trace().slots
  {
    var t := TraceOf(map[], START, s.before, s.ttl);
    SessionServesSlots(map[], START, s.before, s.ttl);
    SoundStep(s.Start(), LoginEvent(s.route, s.login));
    LoginServesSlots(s.route, s.Start(), s.login);
    var atLogin := PreAuthSlots.Extend(t, PreAuthSlots.Login(s.Slot(), true), s.ttl);
    SessionServesSlots(s.LoggedIn(), atLogin, s.between, s.ttl);
  }

  /** The slot machine's part: what is in the list was issued, and so was the new attempt; if
      nothing between takes it, it stays exactly when every list could be written. */
  lemma NewAttemptPending(before: seq<PreAuthSlots.Request>, e: PreAuthEntry, rs: seq<PreAuthSlots.Request>, ttl: int)
    ensures var t := PreAuthSlots.Extend(PreAuthSlots.Run(START, before, ttl), PreAuthSlots.Login(e, true), ttl);
            var t' := PreAuthSlots.Run(t, rs, ttl);
            e in t'.issued && (forall f | f in t'.slots :: f in t'.issued) &&
            (NoRepeats(PreAuthSlots.States(t'.issued)) && PreAuthSlots.SpareAttempt(e, rs, ttl) ==>
               (e in t'.slots <==> PreAuthSlots.AllStored(rs)))
  {
    var t0 := PreAuthSlots.Run(START, before, ttl);
    var t := PreAuthSlots.Extend(t0, PreAuthSlots.Login(e, true), ttl);
    var t' := PreAuthSlots.Run(t, rs, ttl);
    PreAuthSlots.SlotsFollowIssueOrder(START, before, ttl);
    PreAuthSlots.SlotsFollowIssueOrder(t0, [PreAuthSlots.Login(e, true)], ttl);
    assert PreAuthSlots.Run(t0, [PreAuthSlots.Login(e, true)], ttl) == t;
    PreAuthSlots.SlotsFollowIssueOrder(t, rs, ttl);
    PreAuthSlots.IssuedGrows(t, rs, ttl);
    SubsequenceElements(t'.slots, t'.issued);
    assert t.issued[|t0.issued|] == e;
    if NoRepeats(PreAuthSlots.States(t'.issued)) && PreAuthSlots.SpareAttempt(e, rs, ttl) {
      PreAuthSlots.AttemptSurvivesExactlyWhen(t0, e, true, rs, ttl);
    }
  }

  /** In the session at the end no attempt but the login's own has its state. */
  lemma LoginIsAlone(s: Story)
    requires s.Valid() && s.DistinctStates()
    ensures forall e | e in ReadSlots(s.End()) && e.state == s.Slot().state :: e == s.Slot()
  {
    StoryServesSlots(s);
    NewAttemptPending(RequestsOf(map[], s.before), s.Slot(), s.Since(), s.ttl);
    forall e | e in ReadSlots(s.End()) && e.state == s.Slot().state {
      PreAuthSlots.DistinctStates(s.Trace().issued, e, s.Slot());
    }
  }

  /** And if nothing between takes it, the login's attempt is still there exactly when every list on
      the way could be written. */
  lemma LoginStaysPending(s: Story)
    requires s.Valid() && s.DistinctStates() && PreAuthSlots.SpareAttempt(s.Slot(), s.Since(), s.ttl)
    ensures s.Slot() in ReadSlots(s.End()) <==> PreAuthSlots.AllStored(s.Since())
  {
    StoryServesSlots(s);
    NewAttemptPending(RequestsOf(map[], s.before), s.Slot(), s.Since(), s.ttl);
  }

  /** A login completes: through at most four more logins, callbacks for other states, extractions
      and changes the application makes to its own keys, a callback with its state succeeds exactly
      when every slot list on the way could be written and the callback may finish. It then
      establishes exactly the token's identity and redirects to the composed form of the target the
      login asked for. */
  lemma LoginCompletes(s: Story, target: string, a: Arrival)
    requires s.Valid() && s.DistinctStates() && PreAuthSlots.SpareAttempt(s.Slot(), s.Since(), s.ttl)
    requires 0 <= s.ttl < I64_MAX && AsksFor(s.route, s.login, target)
    requires UnderTtl(s.ttl, CallbackEvent(s.route, a)) && a.state == Some(s.login.state)
    requires IsI64(s.login.now) && TimesInRange(a)
    requires RequiredAge(s.login.extra).Some? ==> RequiredAge(s.login.extra).value <= Login.MAX_AUTH_AGE_SECS
    ensures var (m, response) := AfterCallback(s.route, s.End(), a);
            (response.Ok? <==>
               PreAuthSlots.AllStored(s.Since()) &&
               Finishes(s.route, s.End(), a, s.login.now, RequiredAge(s.login.extra))) &&
            (response.Ok? ==>
               response.value == Redirect.Compose(Utf8.Encode(target), a.query, s.route.allow) &&
               Identity(m) == Some(NewIdentity(a.exchange.token, s.route.persistClaims)))
  {
    var (c, slot) := (s.route, s.Slot());
    StoryServesSlots(s);
    LoginIsAlone(s);
    LoginStaysPending(s);
    LoginAnswers(c, s.Start(), s.login, target);
    if slot in ReadSlots(s.End()) {
      OwnCallbackAnswers(c, s.End(), a, slot);
      RedirectTheorems.LocationIsComposed(Utf8.Encode(target), Utf8.Encode(c.prefix), a.query, c.allow);
    }
    if AfterCallback(c, s.End(), a).1.Ok? {
      DecidedRedeems(c, s.End(), a);
      ReadBackNow(c, s.End(), a);
    }
  }

  /** A step-up is honoured from its login to its callback, whatever happens to the session in
      between: if the route required re-authentication within `secs`, no callback naming its state
      renews the session unless the token proves an authentication that recent at the login, by
      the subject the session then holds. */
  lemma StepUpHoldsInRuns(s: Story, c: Settings, a: Arrival, extra: Login.ExtraAuthParams, secs: nat)
    requires s.Valid() && s.DistinctStates()
    requires Login.RequireAuthWithin(extra, secs, 0).Ok?
    requires s.login.extra == Some(Login.RequireAuthWithin(extra, secs, 0).value)
    requires IsI64(s.login.now) && TimesInRange(a) && a.state == Some(s.login.state)
    ensures Decided(c, s.End(), a).Ok? ==>
              var token := Decided(c, s.End(), a).value.1;
              Login.Fresh(token.authTime, secs, s.login.now, a.checkedAt) &&
              (ReadString(s.End(), Sub).Some? ==> ReadString(s.End(), Sub).value == token.subject)
  {
    if Decided(c, s.End(), a).Ok? {
      LoginIsAlone(s);
      DecidedRedeems(c, s.End(), a);
      StepUpIsHonoured(c, s.End(), a, s.route, s.login, extra, secs);
    }
  }
}

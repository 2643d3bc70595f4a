/** What a login and a callback answer and leave, in every case, in terms of what they were given. */
module SessionAnswers {
  import opened Wrappers
  import opened Clock
  import opened SessionState
  import opened SessionFlow
  import opened SessionObject
  import opened SessionTheorems
  import Config
  import FailedLogins
  import Login
  import PreAuthSlots
  import Redirect
  import RedirectTheorems
  import Utf8

  // ---- Login -----------------------------------------------------------------------

  /** The target a login request stands for: the one it names, or the prefix if it names none. */
  predicate AsksFor(c: Settings, d: Departure, target: string) {
    if d.requested == None || d.requested == Some("") then target == c.prefix else d.requested == Some(target)
  }

  /** The age a route requires, in the slot's own type. */
  function RequiredAge(extra: Option<Login.ExtraAuthParams>): Option<int> {
    if extra.Some? && extra.value.maxAgeSecs.Some? then Some(extra.value.maxAgeSecs.value) else None
  }

  predicate ValidFor(c: Settings, target: string) {
    Redirect.ValidReturnTo(Utf8.Encode(target), Utf8.Encode(c.prefix))
  }

  /** A login is accepted exactly when the target it asks for is valid and its slot list could be
      written. It then remembers exactly that target, the values drawn for it, its time and the age
      its route requires, behind the attempts already pending. A refused one changes nothing; one
      that could not write its list keeps all but the list. */
  lemma LoginAnswers(c: Settings, m: State, d: Departure, target: string)
    requires AsksFor(c, d, target)
    ensures var (m', response) := AfterLogin(c, m, d);
            if !ValidFor(c, target) then
              m' == m && response == Err(BadRequest)
            else if !d.stored then
              m' == m - {PreAuth} && response == Err(Internal)
            else
              response == Ok(PreAuthEntry(d.state, d.pkceVerifier, d.nonce, target, d.now, RequiredAge(d.extra))) &&
              SameBut(m, m', PreAuth) && PreAuth in m' &&
              m'[PreAuth] == JSlots(PreAuthSlots.Pushed(PreAuthSlots.Pruned(ReadSlots(m), d.now, c.preAuthTtlSecs),
                                                        response.value))
  {
  }

  // ---- Callback: whether it goes on ---------------------------------------------------

  /** What a route asks of the token: nothing, or an authentication recent enough at the login, by
      the subject the session holds, if it holds one. A route that asks nothing may switch accounts. */
  predicate Satisfies(age: Option<int>, startedAt: int, m: State, token: Token, checkedAt: int) {
    age.None? ||
    (Login.Fresh(token.authTime, age.value, startedAt, checkedAt) && (HoldsSubject(m) ==> m[Sub].s == token.subject))
  }

  /** Times and ages for which saturation plays no part. */
  predicate InRange(entry: PreAuthEntry, a: Arrival) {
    IsI64(entry.startedAt) && TimesInRange(a) &&
    (entry.maxAgeSecs.Some? ==> IsI64(entry.maxAgeSecs.value) && entry.maxAgeSecs.value + 60 < I64_MAX)
  }

  lemma RequirementIsSatisfied(m: State, entry: PreAuthEntry, a: Arrival)
    requires a.exchange.Valid? && InRange(entry, a)
    ensures MeetsRequirement(m, entry, a.exchange.token, a.checkedAt) <==>
            Satisfies(entry.maxAgeSecs, entry.startedAt, m, a.exchange.token, a.checkedAt)
  {
    var token := a.exchange.token;
    if entry.maxAgeSecs.Some? && token.authTime.Some? {
      Login.SaturationChangesNothing(token.authTime.value, entry.maxAgeSecs.value, entry.startedAt, a.checkedAt);
    }
  }

  /** None of the writes a login makes fails: the subject and the issuer, the parts the token has, the
      serialization and each persisted claim the token has, the list of claims, and the tokens. */
  predicate Unhindered(token: Token, names: seq<Field>, faults: set<Site>) {
    AtStamp !in faults && AtSub !in faults && AtIss !in faults &&
    (token.email.Some? ==> AtEmail !in faults) && (token.name.Some? ==> AtName !in faults) &&
    AtClaimsJson !in faults &&
    (forall i | 0 <= i < |names| && names[i] in token.claims :: AtClaim(i) !in faults) &&
    AtClaimKeys !in faults && AtAccess !in faults && (token.refresh.Some? ==> AtRefresh !in faults) &&
    AtIdToken !in faults
  }

  lemma {:induction false} WritesSucceed(m: State, ws: seq<Write>, faults: set<Site>)
    ensures Written(m, ws, faults).1 <==> forall w | w in ws :: w.site !in faults
    decreases |ws|
  {
    if ws != [] {
      WritesSucceed(if ws[0].Write? then m[ws[0].field := ws[0].value] else m, ws[1..], faults);
      assert forall w | w in ws :: w == ws[0] || w in ws[1..];
      assert ws[0] in ws && forall w | w in ws[1..] :: w in ws;
    }
  }

  lemma {:induction false} ClaimSites(token: Token, names: seq<Field>, faults: set<Site>)
    ensures (forall w | w in ClaimWrites(token, names) :: w.site !in faults) <==>
            forall i | 0 <= i < |names| && names[i] in token.claims :: AtClaim(i) !in faults
  {
    if names != [] {
      var (init, last) := (names[..|names| - 1], names[|names| - 1]);
      ClaimSites(token, init, faults);
      assert forall i | 0 <= i < |init| :: init[i] == names[i];
      if last in token.claims {
        var write := Write(AtClaim(|init|), last, token.claims[last]);
        assert ClaimWrites(token, names) == ClaimWrites(token, init) + [write];
        assert forall w :: w in ClaimWrites(token, names) <==> w in ClaimWrites(token, init) || w == write;
      }
    }
  }

  lemma OptionalSite(site: Site, field: Field, value: Option<string>, faults: set<Site>)
    ensures (forall w | w in OptionalWrite(site, field, value) :: w.site !in faults) <==>
            (value.Some? ==> site !in faults)
  {
    if value.Some? {
      assert Write(site, field, JString(value.value)) in OptionalWrite(site, field, value);
    }
  }

  predicate Spared(ws: seq<Write>, faults: set<Site>) {
    forall w | w in ws :: w.site !in faults
  }

  lemma SparedConcat(a: seq<Write>, b: seq<Write>, faults: set<Site>)
    ensures Spared(a + b, faults) <==> Spared(a, faults) && Spared(b, faults)
  {
    assert forall w :: w in a + b <==> w in a || w in b;
  }

  lemma SparedTwo(x: Write, y: Write, faults: set<Site>)
    ensures Spared([x, y], faults) <==> x.site !in faults && y.site !in faults
    ensures Spared([x], faults) <==> x.site !in faults
  {
    assert x in [x, y] && y in [x, y] && x in [x];
  }

  lemma StandardSites(token: Token, faults: set<Site>)
    ensures Spared(StandardWrites(token), faults) <==>
            AtSub !in faults && AtIss !in faults && (token.email.Some? ==> AtEmail !in faults) &&
            (token.name.Some? ==> AtName !in faults) && AtClaimsJson !in faults
  {
    var first := [Write(AtSub, Sub, JString(token.subject)), Write(AtIss, Iss, JString(token.issuer))];
    var (email, name) := (OptionalWrite(AtEmail, Email, token.email), OptionalWrite(AtName, Name, token.name));
    SparedConcat(first + email + name, [Check(AtClaimsJson)], faults);
    SparedConcat(first + email, name, faults);
    SparedConcat(first, email, faults);
    SparedTwo(first[0], first[1], faults);
    SparedTwo(Check(AtClaimsJson), Check(AtClaimsJson), faults);
    OptionalSite(AtEmail, Email, token.email, faults);
    OptionalSite(AtName, Name, token.name, faults);
  }

  lemma FinalSites(token: Token, names: seq<Field>, faults: set<Site>)
    ensures Spared(FinalWrites(token, names), faults) <==>
            AtClaimKeys !in faults && AtAccess !in faults && (token.refresh.Some? ==> AtRefresh !in faults) &&
            AtIdToken !in faults
  {
    var first := [Write(AtClaimKeys, ClaimKeys, JFields(SelectedNames(token, names))),
                  Write(AtAccess, AccessToken, JString(token.access))];
    var refresh := OptionalWrite(AtRefresh, RefreshToken, token.refresh);
    var id := Write(AtIdToken, IdToken, JString(token.raw));
    SparedConcat(first + refresh, [id], faults);
    SparedConcat(first, refresh, faults);
    SparedTwo(first[0], first[1], faults);
    SparedTwo(id, id, faults);
    OptionalSite(AtRefresh, RefreshToken, token.refresh, faults);
  }

  lemma IdentitySites(m: State, token: Token, names: seq<Field>, faults: set<Site>)
    requires AtStamp !in faults
    ensures Written(m, IdentityWrites(token, names), faults).1 <==> Unhindered(token, names, faults)
  {
    var ws := IdentityWrites(token, names);
    WritesSucceed(m, ws, faults);
    SparedConcat(StandardWrites(token) + ClaimWrites(token, names), FinalWrites(token, names), faults);
    SparedConcat(StandardWrites(token), ClaimWrites(token, names), faults);
    StandardSites(token, faults);
    ClaimSites(token, names, faults);
    FinalSites(token, names, faults);
    assert Spared(ws, faults) <==> forall w | w in ws :: w.site !in faults;
  }

  // ---- Callback: its answer --------------------------------------------------------------

  /** A callback that could not write its slot list back, that reports an error, that lacks a code or
      a state, or whose state no timely attempt has, is refused before anything else. */
  lemma HopelessCallbackAnswers(c: Settings, m: State, a: Arrival)
    requires 0 <= c.preAuthTtlSecs < I64_MAX
    requires AtSlots in a.faults || a.error || a.code == None || a.state == None ||
             forall e | e in ReadSlots(m) && Some(e.state) == a.state ::
               !PreAuthSlots.Timely(e, a.now, c.preAuthTtlSecs)
    ensures AfterCallback(c, m, a).1 == Err(if AtSlots in a.faults then Internal else BadRequest)
    ensures SameBut(m, AfterCallback(c, m, a).0, PreAuth)
  {
    if AtSlots !in a.faults && !a.error && a.code.Some? && a.state.Some? {
      PreAuthSlots.NoMatchTakesNothing(ReadSlots(m), a.state.value, a.now, c.preAuthTtlSecs);
    }
  }

  /** The attempt is timely, and no other timely one has its state. */
  predicate Awaits(c: Settings, m: State, a: Arrival, entry: PreAuthEntry) {
    entry in ReadSlots(m) && a.state == Some(entry.state) && PreAuthSlots.Timely(entry, a.now, c.preAuthTtlSecs) &&
    forall e | e in ReadSlots(m) && e.state == entry.state && PreAuthSlots.Timely(e, a.now, c.preAuthTtlSecs) ::
      e == entry
  }

  lemma AwaitedIsConsumed(c: Settings, m: State, a: Arrival, entry: PreAuthEntry)
    requires Awaits(c, m, a, entry) && a.code.Some? && 0 <= c.preAuthTtlSecs < I64_MAX
    ensures Consumed(c, m, a).0 == Some(entry)
  {
    forall e | e in ReadSlots(m) {
      PreAuthSlots.UnexpiredExactly(e, a.now, c.preAuthTtlSecs);
    }
    PreAuthSlots.OnlyMatchIsTaken(ReadSlots(m), entry, a.now, c.preAuthTtlSecs);
  }

  /** A callback for a pending attempt goes on exactly when the exchange yields a valid token that
      satisfies what the attempt's route asked for; and then it succeeds exactly when no write of
      the login fails, redirecting to where the attempt was headed. Only a missing token endpoint
      and a failing write are the server's fault. */
  lemma AwaitedCallbackAnswers(c: Settings, m: State, a: Arrival, entry: PreAuthEntry)
    requires Awaits(c, m, a, entry) && 0 <= c.preAuthTtlSecs < I64_MAX && InRange(entry, a)
    requires AtSlots !in a.faults && !a.error && a.code.Some?
    ensures AfterCallback(c, m, a).1 ==
            match a.exchange
            case NoTokenEndpoint => Err(Internal)
            case Valid(token) =>
              if !Satisfies(entry.maxAgeSecs, entry.startedAt, m, token, a.checkedAt) then Err(BadRequest)
              else if Unhindered(token, c.persistClaims, a.faults) then Ok(Destination(c, entry, a))
              else Err(Internal)
            case _ => Err(BadRequest)
    ensures Decided(c, m, a).Ok? <==>
            a.exchange.Valid? && Satisfies(entry.maxAgeSecs, entry.startedAt, m, a.exchange.token, a.checkedAt)
    ensures Decided(c, m, a).Ok? ==> Decided(c, m, a).value == (entry, a.exchange.token)
  {
    AwaitedIsConsumed(c, m, a, entry);
    if a.exchange.Valid? {
      RequirementIsSatisfied(m, entry, a);
      if AtStamp !in a.faults {
        IdentitySites(FailedLogins.Stage(c, m, a), a.exchange.token, c.persistClaims, a.faults);
      }
    }
  }

  /** What the callback of a login begun at `startedAt` under this age needs besides an attempt still
      pending: to arrive in time with a code, an ID token that satisfies what the route asked for,
      and no failing write. */
  predicate Finishes(c: Settings, m: State, a: Arrival, startedAt: int, age: Option<int>) {
    startedAt <= a.now <= startedAt + c.preAuthTtlSecs &&
    !a.error && a.code.Some? && AtSlots !in a.faults && a.exchange.Valid? &&
    Satisfies(age, startedAt, m, a.exchange.token, a.checkedAt) &&
    Unhindered(a.exchange.token, c.persistClaims, a.faults)
  }

  /** The callback naming a pending attempt's state, when no other attempt has it. */
  lemma OwnCallbackAnswers(c: Settings, m: State, a: Arrival, entry: PreAuthEntry)
    requires entry in ReadSlots(m) && a.state == Some(entry.state)
    requires forall e | e in ReadSlots(m) && e.state == entry.state :: e == entry
    requires 0 <= c.preAuthTtlSecs < I64_MAX && InRange(entry, a)
    ensures AfterCallback(c, m, a).1.Ok? <==> Finishes(c, m, a, entry.startedAt, entry.maxAgeSecs)
    ensures AfterCallback(c, m, a).1.Ok? ==>
              AfterCallback(c, m, a).1 == Ok(Destination(c, entry, a)) &&
              Decided(c, m, a) == Ok((entry, a.exchange.token))
  {
    if PreAuthSlots.Timely(entry, a.now, c.preAuthTtlSecs) && !a.error && a.code.Some? && AtSlots !in a.faults {
      AwaitedCallbackAnswers(c, m, a, entry);
    } else {
      HopelessCallbackAnswers(c, m, a);
    }
  }

  // ---- Callback: what it leaves ------------------------------------------------------------

  /** An entry of a previous login that a callback removes: the optional identity, the tokens, and the
      claims listed. */
  predicate Leftover(m: State, f: Field) {
    f == Email || f == Name || f == AccessToken || f == RefreshToken || f == IdToken || f == ClaimKeys ||
    f in ReadFields(m, ClaimKeys)
  }

  lemma StageHolds(c: Settings, m: State, a: Arrival, f: Field)
    requires Sound(m) && f != PreAuth && f != LoginAt
    ensures var stage := FailedLogins.Stage(c, m, a);
            if Leftover(m, f) then f !in stage else Holds(m, stage, f, None)
  {
    var stamped := SlotsWrittenBack(c, m, a)[LoginAt := JInt(a.stampedAt)];
    assert ReadFields(stamped - SCRUBBED, ClaimKeys) == ReadFields(m, ClaimKeys);
  }

  /** A successful callback leaves exactly: what the new login writes; its stamp; nothing of what a
      previous login left behind; and everything else as it was. */
  lemma SuccessLeavesExactly(c: Settings, m: State, a: Arrival, f: Field)
    requires Sound(m) && Trusted(c, a) && AfterCallback(c, m, a).1.Ok? && f != PreAuth
    ensures var (m', token) := (AfterCallback(c, m, a).0, Decided(c, m, a).value.1);
            var written := NewValue(token, c.persistClaims, f);
            if f == LoginAt then f in m' && m'[f] == JInt(a.stampedAt)
            else if written.Some? then f in m' && m'[f] == written.value
            else if Leftover(m, f) then f !in m'
            else Holds(m, m', f, None)
  {
    var (token, stage) := (Decided(c, m, a).value.1, FailedLogins.Stage(c, m, a));
    IdentityWritesHold(token, c.persistClaims, f);
    WrittenHolds(stage, IdentityWrites(token, c.persistClaims), a.faults, f);
    if f == LoginAt {
      ScrubKeepsStamp(c, m, a);
    } else {
      StageHolds(c, m, a, f);
    }
  }

  lemma {:induction false} ClaimFieldsAre(token: Token, names: seq<Field>)
    ensures forall w | w in ClaimWrites(token, names) ::
              w.Write? && w.field in names && w.field in token.claims && w.value == token.claims[w.field]
  {
    if names != [] {
      var init := names[..|names| - 1];
      assert forall f | f in init :: f in names;
      ClaimFieldsAre(token, init);
    }
  }

  lemma WrittenValuesAreNew(token: Token, names: seq<Field>, f: Field)
    requires Config.AcceptedClaims(names)
    ensures forall w | w in IdentityWrites(token, names) && w.Write? && w.field == f ::
              Some(w.value) == NewValue(token, names, f)
  {
    ClaimFieldsAre(token, names);
  }
}

/** What the login, callback and extraction flow guarantees over whole runs of one session. */
module SessionTheorems {
  import opened Wrappers
  import opened Clock
  import opened SessionState
  import opened SessionFlow
  import opened SessionObject
  import Config
  import PreAuthSlots
  import Login
  import Redirect
  import RedirectTheorems
  import Utf8

  /** The run invariant: an authenticated session carries a stamp, and the list of persisted
      claims names no reserved key. */
  predicate Sound(m: State) {
    (Sub in m ==> LoginAt in m) && Config.AcceptedClaims(ReadFields(m, ClaimKeys))
  }

  /** A token as `serde_json` yields it: its claims serialize back to JSON. */
  predicate WellFormed(token: Token) {
    forall f | f in token.claims :: token.claims[f] != Malformed
  }

  predicate Trusted(c: Settings, a: Arrival) {
    Config.AcceptedClaims(c.persistClaims) && (a.exchange.Valid? ==> WellFormed(a.exchange.token))
  }

  // ---- What extraction answers ----------------------------------------------------

  predicate HoldsSubject(m: State) {
    Sub in m && m[Sub].JString?
  }

  /** The login stamp is readable, at most a minute ahead, and less than `max` seconds old. */
  predicate Lasting(m: State, now: Nanos, max: int) {
    LoginAt in m && LoginAtFromJson(m[LoginAt]).Some? &&
    var stamp := LoginAtFromJson(m[LoginAt]).value;
    stamp <= Timestamp(now) + 60 && Timestamp(now) < stamp + max && IsI64(stamp + max)
  }

  /** A session whose lifetime is over; one without a subject has none. */
  predicate Ended(m: State, now: Nanos, max: Option<int>) {
    HoldsSubject(m) && max.Some? && !Lasting(m, now, max.value)
  }

  /** Extraction purges exactly the sessions whose lifetime is over. It answers exactly the others
      that hold a subject, with the entries as they are, and refuses all the rest, which it leaves
      alone. */
  lemma ExtractionAnswers(m: State, now: Nanos, max: Option<int>)
    ensures Extracted(m, now, max).1 <==> Ended(m, now, max)
    ensures match Extracted(m, now, max).0
            case Err(e) => e == Unauthorized && (!HoldsSubject(m) || Ended(m, now, max))
            case Ok(auth) =>
              HoldsSubject(m) && !Ended(m, now, max) && auth.subject == m[Sub].s &&
              auth.issuer == ReadString(m, Iss) && auth.email == ReadString(m, Email) &&
              auth.name == ReadString(m, Name) &&
              (forall f :: f in auth.claims <==>
                 f in m && m[f] != Malformed && ClaimKeys in m && m[ClaimKeys].JFields? && f in m[ClaimKeys].fields) &&
              forall f | f in auth.claims :: auth.claims[f] == m[f]
  {
  }

  // ---- What the writes leave ----------------------------------------------------

  function LastWrite(ws: seq<Write>, f: Field): Option<Json> {
    if ws == [] then None
    else
      var last := ws[|ws| - 1];
      if last.Write? && last.field == f then Some(last.value) else LastWrite(ws[..|ws| - 1], f)
  }

  lemma {:induction false} LastWriteConcat(a: seq<Write>, b: seq<Write>, f: Field)
    ensures LastWrite(a + b, f) == if LastWrite(b, f).Some? then LastWrite(b, f) else LastWrite(a, f)
  {
    if b == [] {
      assert a + b == a;
    } else {
      assert (a + b)[..|a + b| - 1] == a + b[..|b| - 1];
      LastWriteConcat(a, b[..|b| - 1], f);
    }
  }

  /** `f` in `m'` is as written by `written`, or as in `m` if nothing was. */
  predicate Holds(m: State, m': State, f: Field, written: Option<Json>) {
    match written
    case Some(v) => f in m' && m'[f] == v
    case None => (f in m' <==> f in m) && (f in m ==> m'[f] == m[f])
  }

  /** A list of writes leaves each field with the last value written to it before the first
      failure, and the others alone. */
  lemma {:induction false} WrittenHolds(m: State, ws: seq<Write>, faults: set<Site>, f: Field)
    ensures Written(m, ws, faults).1 ==> Holds(m, Written(m, ws, faults).0, f, LastWrite(ws, f))
    ensures LastWrite(ws, f).None? ==> Holds(m, Written(m, ws, faults).0, f, None)
    decreases |ws|
  {
    if ws != [] {
      var (init, last) := (ws[..|ws| - 1], ws[|ws| - 1]);
      assert ws == init + [last];
      WrittenConcat(m, init, [last], faults);
      WrittenHolds(m, init, faults, f);
      assert Written(Written(m, init, faults).0, [last], faults).0 ==
             if last.site in faults || last.Check? then Written(m, init, faults).0
             else Written(m, init, faults).0[last.field := last.value];
    }
  }

  lemma {:induction false} ClaimWritesHold(token: Token, names: seq<Field>, f: Field)
    ensures LastWrite(ClaimWrites(token, names), f) ==
            if f in names && f in token.claims then Some(token.claims[f]) else None
  {
    if names != [] {
      var (init, last) := (names[..|names| - 1], names[|names| - 1]);
      assert names == init + [last];
      ClaimWritesHold(token, init, f);
      if last in token.claims {
        LastWriteConcat(ClaimWrites(token, init), [Write(AtClaim(|init|), last, token.claims[last])], f);
      }
    }
  }

  function OptionalJson(value: Option<string>): Option<Json> {
    match value case None => None case Some(s) => Some(JString(s))
  }

  lemma StandardWritesHold(token: Token, f: Field)
    ensures LastWrite(StandardWrites(token), f) ==
            match f
            case Sub => Some(JString(token.subject))
            case Iss => Some(JString(token.issuer))
            case Email => OptionalJson(token.email)
            case Name => OptionalJson(token.name)
            case _ => None
  {
    var first := [Write(AtSub, Sub, JString(token.subject)), Write(AtIss, Iss, JString(token.issuer))];
    var (email, name) := (OptionalWrite(AtEmail, Email, token.email), OptionalWrite(AtName, Name, token.name));
    LastWriteConcat(first + email + name, [Check(AtClaimsJson)], f);
    LastWriteConcat(first + email, name, f);
    LastWriteConcat(first, email, f);
    LastWriteConcat([first[0]], [first[1]], f);
  }

  lemma FinalWritesHold(token: Token, names: seq<Field>, f: Field)
    ensures LastWrite(FinalWrites(token, names), f) ==
            match f
            case ClaimKeys => Some(JFields(SelectedNames(token, names)))
            case AccessToken => Some(JString(token.access))
            case RefreshToken => OptionalJson(token.refresh)
            case IdToken => Some(JString(token.raw))
            case _ => None
  {
    var first := [Write(AtClaimKeys, ClaimKeys, JFields(SelectedNames(token, names))),
                  Write(AtAccess, AccessToken, JString(token.access))];
    var refresh := OptionalWrite(AtRefresh, RefreshToken, token.refresh);
    var id := [Write(AtIdToken, IdToken, JString(token.raw))];
    LastWriteConcat(first + refresh, id, f);
    LastWriteConcat(first, refresh, f);
    LastWriteConcat([first[0]], [first[1]], f);
  }

  /** What a login writes under each key: a function of the token and the configuration alone. */
  function NewValue(token: Token, names: seq<Field>, f: Field): Option<Json> {
    match f
    case Sub => Some(JString(token.subject))
    case Iss => Some(JString(token.issuer))
    case Email => OptionalJson(token.email)
    case Name => OptionalJson(token.name)
    case ClaimKeys => Some(JFields(SelectedNames(token, names)))
    case AccessToken => Some(JString(token.access))
    case RefreshToken => OptionalJson(token.refresh)
    case IdToken => Some(JString(token.raw))
    case Custom(_) => if f in names && f in token.claims then Some(token.claims[f]) else None
    case _ => None
  }

  lemma IdentityWritesHold(token: Token, names: seq<Field>, f: Field)
    requires Config.AcceptedClaims(names)
    ensures LastWrite(IdentityWrites(token, names), f) == NewValue(token, names, f)
  {
    LastWriteConcat(StandardWrites(token) + ClaimWrites(token, names), FinalWrites(token, names), f);
    LastWriteConcat(StandardWrites(token), ClaimWrites(token, names), f);
    StandardWritesHold(token, f);
    ClaimWritesHold(token, names, f);
    FinalWritesHold(token, names, f);
  }

  lemma {:induction false} SelectedNamesAre(token: Token, names: seq<Field>)
    ensures forall f :: f in SelectedNames(token, names) <==> f in names && f in token.claims
  {
    if names != [] {
      SelectedNamesAre(token, names[..|names| - 1]);
      assert names == names[..|names| - 1] + [names[|names| - 1]];
    }
  }

  // ---- Atomicity -------------------------------------------------------------------

  predicate SameBut(m: State, m': State, f: Field) {
    m - {f} == m' - {f}
  }

  /** Every exit before the renewal, whatever its cause, leaves all entries but the slot list
      exactly as they were. So does a failure to stamp right after it. */
  lemma CallbackIsAtomicBeforeRenewal(c: Settings, m: State, a: Arrival)
    requires Decided(c, m, a).Err? || AtStamp in a.faults
    ensures AfterCallback(c, m, a).1.Err?
    ensures SameBut(m, AfterCallback(c, m, a).0, PreAuth)
  {
  }

  // ---- The stamp ---------------------------------------------------------------------

  /** The entries right after the scrub: the stamp is there and nothing of the old identity's
      optional parts is. */
  lemma ScrubKeepsStamp(c: Settings, m: State, a: Arrival)
    requires Sound(m)
    ensures var m1 := SlotsWrittenBack(c, m, a);
            var scrubbed := ScrubbedOf(m1[LoginAt := JInt(a.stampedAt)]);
            LoginAt in scrubbed && scrubbed[LoginAt] == JInt(a.stampedAt) &&
            ClaimKeys !in scrubbed && Email !in scrubbed && Name !in scrubbed && RefreshToken !in scrubbed &&
            ReadSlots(scrubbed) == ReadSlots(m1)
  {
    var m1 := SlotsWrittenBack(c, m, a);
    var stamped := m1[LoginAt := JInt(a.stampedAt)];
    assert ReadFields(stamped - SCRUBBED, ClaimKeys) == ReadFields(m, ClaimKeys);
  }

  /** Whatever a callback's outcome, including a failure between any two of its writes, an
      authenticated session still carries its stamp, and its claim list no reserved key. */
  lemma CallbackKeepsSound(c: Settings, m: State, a: Arrival)
    requires Sound(m) && Trusted(c, a)
    ensures Sound(AfterCallback(c, m, a).0)
  {
    if Decided(c, m, a).Ok? && AtStamp !in a.faults {
      var token := Decided(c, m, a).value.1;
      var scrubbed := ScrubbedOf(SlotsWrittenBack(c, m, a)[LoginAt := JInt(a.stampedAt)]);
      ScrubKeepsStamp(c, m, a);
      IdentityWritesHold(token, c.persistClaims, LoginAt);
      WrittenHolds(scrubbed, IdentityWrites(token, c.persistClaims), a.faults, LoginAt);
      ClaimListStaysAccepted(scrubbed, token, c.persistClaims, a.faults);
    } else {
      CallbackIsAtomicBeforeRenewal(c, m, a);
      SameButKeepsSound(m, AfterCallback(c, m, a).0);
    }
  }

  lemma SameButKeepsSound(m: State, m': State)
    requires Sound(m) && SameBut(m, m', PreAuth)
    ensures Sound(m')
  {
    SameButReads(m, m', Sub);
    SameButReads(m, m', LoginAt);
    SameButReads(m, m', ClaimKeys);
  }

  /** Only the claim list itself is ever written under its key. */
  lemma {:induction false} ClaimListStaysAcceptedFrom(m: State, ws: seq<Write>, faults: set<Site>)
    requires Config.AcceptedClaims(ReadFields(m, ClaimKeys))
    requires forall w | w in ws && w.Write? && w.field == ClaimKeys ::
               w.value.JFields? && Config.AcceptedClaims(w.value.fields)
    ensures Config.AcceptedClaims(ReadFields(Written(m, ws, faults).0, ClaimKeys))
    decreases |ws|
  {
    if ws != [] && ws[0].site !in faults {
      var m' := if ws[0].Write? then m[ws[0].field := ws[0].value] else m;
      assert ws[0] in ws;
      assert forall w | w in ws[1..] :: w in ws;
      ClaimListStaysAcceptedFrom(m', ws[1..], faults);
    }
  }

  lemma {:induction false} ClaimWritesAreCustom(token: Token, names: seq<Field>)
    requires Config.AcceptedClaims(names)
    ensures forall w | w in ClaimWrites(token, names) :: w.Write? && w.field.Custom?
  {
    if names != [] {
      assert forall f | f in names[..|names| - 1] :: f in names;
      assert names[|names| - 1] in names;
      ClaimWritesAreCustom(token, names[..|names| - 1]);
    }
  }

  lemma ClaimListStaysAccepted(m: State, token: Token, names: seq<Field>, faults: set<Site>)
    requires ClaimKeys !in m && Config.AcceptedClaims(names)
    ensures Config.AcceptedClaims(ReadFields(Written(m, IdentityWrites(token, names), faults).0, ClaimKeys))
  {
    SelectedNamesAre(token, names);
    ClaimWritesAreCustom(token, names);
    ClaimListStaysAcceptedFrom(m, IdentityWrites(token, names), faults);
  }

  // ---- Reading back ---------------------------------------------------------------------

  function NewIdentity(token: Token, names: seq<Field>): Auth {
    Auth(token.subject, Some(token.issuer), token.email, token.name,
         map f | f in Elements(names) && f in token.claims :: token.claims[f])
  }

  /** What the extractor reads from the entries, lifetime aside. */
  function Identity(m: State): Option<Auth> {
    match Extracted(m, 0, None).0 case Ok(auth) => Some(auth) case Err(_) => None
  }

  /** `f` holds what the new login writes under it, or, if an optional part, nothing. */
  predicate IsNew(token: Token, names: seq<Field>, m: State, f: Field) {
    (NewValue(token, names, f).Some? ==> f in m && m[f] == NewValue(token, names, f).value) &&
    ((f == Email || f == Name) && NewValue(token, names, f).None? ==> f !in m)
  }

  lemma SuccessWrites(c: Settings, m: State, a: Arrival, f: Field)
    requires Sound(m) && Trusted(c, a) && AfterCallback(c, m, a).1.Ok?
    ensures var m' := AfterCallback(c, m, a).0;
            IsNew(Decided(c, m, a).value.1, c.persistClaims, m', f) &&
            (f == LoginAt ==> f in m' && m'[f] == JInt(a.stampedAt))
  {
    var token := Decided(c, m, a).value.1;
    var scrubbed := ScrubbedOf(SlotsWrittenBack(c, m, a)[LoginAt := JInt(a.stampedAt)]);
    ScrubKeepsStamp(c, m, a);
    IdentityWritesHold(token, c.persistClaims, f);
    WrittenHolds(scrubbed, IdentityWrites(token, c.persistClaims), a.faults, f);
  }

  lemma NewClaims(token: Token, names: seq<Field>, m: State)
    requires WellFormed(token)
    requires forall f | f in names && f in token.claims :: f in m && m[f] == token.claims[f]
    ensures ReadClaims(m, SelectedNames(token, names)) == NewIdentity(token, names).claims
  {
    SelectedNamesAre(token, names);
  }

  lemma NewIdentityReads(token: Token, names: seq<Field>, m: State)
    requires WellFormed(token) && Config.AcceptedClaims(names)
    requires forall f :: IsNew(token, names, m, f)
    ensures Identity(m) == Some(NewIdentity(token, names))
  {
    forall f | f in names && f in token.claims
      ensures f in m && m[f] == token.claims[f]
    {
      assert IsNew(token, names, m, f) && f.Custom?;
    }
    NewClaims(token, names, m);
    assert IsNew(token, names, m, Sub) && IsNew(token, names, m, Iss) && IsNew(token, names, m, ClaimKeys);
    assert IsNew(token, names, m, Email) && IsNew(token, names, m, Name);
  }

  /** Every entry a successful callback leaves that the extractor may read is the new login's. */
  lemma ReadBackNow(c: Settings, m: State, a: Arrival)
    requires Sound(m) && Trusted(c, a) && AfterCallback(c, m, a).1.Ok?
    ensures var m' := AfterCallback(c, m, a).0;
            Identity(m') == Some(NewIdentity(Decided(c, m, a).value.1, c.persistClaims)) &&
            LoginAt in m' && m'[LoginAt] == JInt(a.stampedAt)
  {
    forall f
      ensures IsNew(Decided(c, m, a).value.1, c.persistClaims, AfterCallback(c, m, a).0, f)
    {
      SuccessWrites(c, m, a, f);
    }
    SuccessWrites(c, m, a, LoginAt);
    NewIdentityReads(Decided(c, m, a).value.1, c.persistClaims, AfterCallback(c, m, a).0);
  }

  // ---- Runs of one session ----------------------------------------------------------------

  datatype Event =
    | LoginEvent(settings: Settings, departure: Departure)
    | CallbackEvent(settings: Settings, arrival: Arrival)
    | ExtractEvent(now: Nanos, maxLifetimeSecs: Option<int>)
    | LogoutEvent
    | ApplicationWrite(field: Field, value: Json)
    | ApplicationRemove(field: Field)

  /** The configuration was built, and applications keep to their own keys. */
  predicate Proper(e: Event) {
    match e
    case CallbackEvent(c, a) => Trusted(c, a)
    case ApplicationWrite(field, _) => !IsReserved(field)
    case ApplicationRemove(field) => !IsReserved(field)
    case _ => true
  }

  function Next(m: State, e: Event): State {
    match e
    case LoginEvent(c, d) => AfterLogin(c, m, d).0
    case CallbackEvent(c, a) => AfterCallback(c, m, a).0
    case ExtractEvent(now, max) => if Extracted(m, now, max).1 then map[] else m
    case LogoutEvent => map[]
    case ApplicationWrite(field, value) => m[field := value]
    case ApplicationRemove(field) => m - {field}
  }

  function After(m: State, es: seq<Event>): State
    decreases |es|
  {
    if es == [] then m else After(Next(m, es[0]), es[1..])
  }

  lemma LoginKeepsTheRest(c: Settings, m: State, d: Departure)
    ensures SameBut(m, AfterLogin(c, m, d).0, PreAuth)
  {
  }

  lemma SameButReads(m: State, m': State, f: Field)
    requires SameBut(m, m', PreAuth) && f != PreAuth
    ensures f in m <==> f in m'
    ensures f in m ==> m[f] == m'[f]
  {
    assert f in m <==> f in m - {PreAuth};
    assert f in m' <==> f in m' - {PreAuth};
  }

  lemma SoundStep(m: State, e: Event)
    requires Sound(m) && Proper(e)
    ensures Sound(Next(m, e))
  {
    match e
    case LoginEvent(c, d) =>
      LoginKeepsTheRest(c, m, d);
      SameButKeepsSound(m, Next(m, e));
    case CallbackEvent(c, a) =>
      CallbackKeepsSound(c, m, a);
    case _ =>
  }

  /** The invariant holds over every run of logins, callbacks (successful, rejected or failing
      half way), extractions, logouts and application writes. */
  lemma {:induction false} SoundAlways(m: State, es: seq<Event>)
    requires Sound(m) && forall i | 0 <= i < |es| :: Proper(es[i])
    ensures Sound(After(m, es))
    decreases |es|
  {
    if es != [] {
      SoundStep(m, es[0]);
      SoundAlways(Next(m, es[0]), es[1..]);
    }
  }

  /** An event that leaves the logged-in identity alone. Applications may write or remove any key
      of their own that is not one of the persisted claims'. */
  predicate Quiet(m: State, e: Event) {
    match e
    case LoginEvent(_, _) => true
    case CallbackEvent(c, a) => Decided(c, m, a).Err? || AtStamp in a.faults
    case ExtractEvent(now, max) => !Ended(m, now, max)
    case LogoutEvent => false
    case ApplicationWrite(field, _) => !IsReserved(field) && field !in ReadFields(m, ClaimKeys)
    case ApplicationRemove(field) => !IsReserved(field) && field !in ReadFields(m, ClaimKeys)
  }

  ghost predicate AllQuiet(m: State, es: seq<Event>)
    decreases |es|
  {
    es == [] || (Quiet(m, es[0]) && AllQuiet(Next(m, es[0]), es[1..]))
  }

  lemma SameIdentity(m: State, m': State)
    requires SameBut(m, m', PreAuth) && Config.AcceptedClaims(ReadFields(m, ClaimKeys))
    ensures Identity(m') == Identity(m)
    ensures LoginAt in m ==> LoginAt in m' && m'[LoginAt] == m[LoginAt]
    ensures ReadFields(m', ClaimKeys) == ReadFields(m, ClaimKeys)
  {
    forall f | f != PreAuth
      ensures (f in m <==> f in m') && (f in m ==> m[f] == m'[f])
    {
      SameButReads(m, m', f);
    }
    assert ReadClaims(m', ReadFields(m, ClaimKeys)) == ReadClaims(m, ReadFields(m, ClaimKeys));
  }

  lemma QuietStep(m: State, e: Event)
    requires Quiet(m, e) && Config.AcceptedClaims(ReadFields(m, ClaimKeys)) && LoginAt in m
    ensures var m' := Next(m, e);
            Identity(m') == Identity(m) && LoginAt in m' && m'[LoginAt] == m[LoginAt] &&
            ReadFields(m', ClaimKeys) == ReadFields(m, ClaimKeys)
  {
    match e
    case LoginEvent(c, d) =>
      LoginKeepsTheRest(c, m, d);
      SameIdentity(m, Next(m, e));
    case CallbackEvent(c, a) =>
      CallbackIsAtomicBeforeRenewal(c, m, a);
      SameIdentity(m, Next(m, e));
    case ApplicationWrite(f, v) =>
      assert ReadClaims(m[f := v], ReadFields(m, ClaimKeys)) == ReadClaims(m, ReadFields(m, ClaimKeys));
    case ApplicationRemove(f) =>
      assert ReadClaims(m - {f}, ReadFields(m, ClaimKeys)) == ReadClaims(m, ReadFields(m, ClaimKeys));
    case ExtractEvent(now, max) =>
      ExtractionAnswers(m, now, max);
  }

  lemma {:induction false} QuietKeepsIdentity(m: State, es: seq<Event>)
    requires AllQuiet(m, es) && Config.AcceptedClaims(ReadFields(m, ClaimKeys)) && LoginAt in m
    ensures var m' := After(m, es);
            Identity(m') == Identity(m) && LoginAt in m' && m'[LoginAt] == m[LoginAt]
    decreases |es|
  {
    if es != [] {
      QuietStep(m, es[0]);
      QuietKeepsIdentity(Next(m, es[0]), es[1..]);
    }
  }

  /** The extractor's answer depends on the identity and the stamp alone. */
  lemma ExtractedIs(m: State, auth: Auth, stampedAt: int, now: Nanos, max: int)
    requires Identity(m) == Some(auth) && LoginAt in m && m[LoginAt] == JInt(stampedAt)
    requires IsI64(stampedAt) && IsI64(stampedAt + max)
    ensures Extracted(m, now, Some(max)) ==
              if stampedAt <= Timestamp(now) + LOGIN_AT_FUTURE_SKEW_SECS && Timestamp(now) < stampedAt + max
              then (Ok(auth), false)
              else (Err(Unauthorized), true)
  {
  }

  /** Read-back is exact over any run: whatever happened to the session before, earlier logins
      and half-failed callbacks included, after a successful callback and any number of new
      login attempts, rejected callbacks, extractions and values the application stores or
      removes under keys of its own, the extractor returns the new
      token's identity and persisted claims and nothing else, exactly while the stamped
      lifetime lasts; outside it the session is refused. */
  lemma ReadBackIsExact(m0: State, before: seq<Event>, c: Settings, a: Arrival, later: seq<Event>, now: Nanos, max: int)
    requires Sound(m0) && forall i | 0 <= i < |before| :: Proper(before[i])
    requires Trusted(c, a) && AfterCallback(c, After(m0, before), a).1.Ok?
    requires AllQuiet(AfterCallback(c, After(m0, before), a).0, later)
    requires IsI64(a.stampedAt) && IsI64(a.stampedAt + max)
    ensures var m := After(AfterCallback(c, After(m0, before), a).0, later);
            var token := Decided(c, After(m0, before), a).value.1;
            Extracted(m, now, Some(max)) ==
              if a.stampedAt <= Timestamp(now) + LOGIN_AT_FUTURE_SKEW_SECS && Timestamp(now) < a.stampedAt + max
              then (Ok(NewIdentity(token, c.persistClaims)), false)
              else (Err(Unauthorized), true)
  {
    var m := After(m0, before);
    var m' := AfterCallback(c, m, a).0;
    SoundAlways(m0, before);
    ReadBackNow(c, m, a);
    CallbackKeepsSound(c, m, a);
    QuietKeepsIdentity(m', later);
    ExtractedIs(After(m', later), NewIdentity(Decided(c, m, a).value.1, c.persistClaims), a.stampedAt, now, max);
  }

  // ---- Step-up --------------------------------------------------------------------------

  /** The clock reading and the token's `auth_time` are chrono's. */
  predicate TimesInRange(a: Arrival) {
    Login.IsTimestamp(a.checkedAt) &&
    (a.exchange.Valid? && a.exchange.token.authTime.Some? ==> Login.IsTimestamp(a.exchange.token.authTime.value))
  }

  /** A step-up is honoured end to end: when the attempt a callback redeems came from a route
      that required re-authentication within `secs`, a session is established only if the
      token proves one that recent at the request, and for the subject already logged in. */
  lemma StepUpIsHonoured(c: Settings, m: State, a: Arrival, route: Settings, d: Departure,
                         extra: Login.ExtraAuthParams, secs: nat)
    requires Login.RequireAuthWithin(extra, secs, 0).Ok?
    requires d.extra == Some(Login.RequireAuthWithin(extra, secs, 0).value)
    requires IsI64(d.now) && TimesInRange(a)
    requires Consumed(c, m, a).0 == Some(SlotFor(route, d))
    ensures Decided(c, m, a).Ok? ==>
              var token := Decided(c, m, a).value.1;
              Login.Fresh(token.authTime, secs, d.now, a.checkedAt) &&
              (ReadString(m, Sub).Some? ==> ReadString(m, Sub).value == token.subject)
    ensures Login.RequestedMaxAge(d.extra) == Some(secs)
  {
    if a.exchange.Valid? && a.exchange.token.authTime.Some? {
      Login.SaturationChangesNothing(a.exchange.token.authTime.value, secs, d.now, a.checkedAt);
    }
  }

  // ---- The slot list, as part of the session ------------------------------------------------

  function AsRequest(a: Arrival): PreAuthSlots.Request {
    PreAuthSlots.Callback(a.now, a.state, a.code.Some?, a.error, AtSlots !in a.faults)
  }

  lemma IdentityWritesSpareSlots(token: Token, names: seq<Field>, m: State, faults: set<Site>)
    requires Config.AcceptedClaims(names)
    ensures ReadSlots(Written(m, IdentityWrites(token, names), faults).0) == ReadSlots(m)
  {
    IdentityWritesHold(token, names, PreAuth);
    WrittenHolds(m, IdentityWrites(token, names), faults, PreAuth);
  }

  /** In the session the slot list evolves exactly as the slot machine says, on every exit of
      the callback, and the callback succeeds only by consuming a slot. So what is proved of
      the machine's runs (single use, order, four logins) holds of the session's. */
  lemma CallbackServesSlots(c: Settings, m: State, a: Arrival)
    requires Sound(m) && Trusted(c, a)
    ensures ReadSlots(AfterCallback(c, m, a).0) == PreAuthSlots.Serve(ReadSlots(m), AsRequest(a), c.preAuthTtlSecs).0
    ensures AfterCallback(c, m, a).1.Ok? ==>
              PreAuthSlots.Serve(ReadSlots(m), AsRequest(a), c.preAuthTtlSecs).1 == Some(Decided(c, m, a).value.0)
  {
    var m1 := SlotsWrittenBack(c, m, a);
    assert ReadSlots(m1) == PreAuthSlots.Serve(ReadSlots(m), AsRequest(a), c.preAuthTtlSecs).0;
    if Decided(c, m, a).Ok? && AtStamp !in a.faults {
      var token := Decided(c, m, a).value.1;
      ScrubKeepsStamp(c, m, a);
      IdentityWritesSpareSlots(token, c.persistClaims, ScrubbedOf(m1[LoginAt := JInt(a.stampedAt)]), a.faults);
    }
  }

  lemma LoginServesSlots(c: Settings, m: State, d: Departure)
    requires AfterLogin(c, m, d).1 != Err(BadRequest)
    ensures ReadSlots(AfterLogin(c, m, d).0) ==
            PreAuthSlots.Serve(ReadSlots(m), PreAuthSlots.Login(SlotFor(c, d), d.stored), c.preAuthTtlSecs).0
  {
  }

  // ---- The redirect ---------------------------------------------------------------------------

  /** Every slot's target passed validation. */
  predicate SafeSlots(prefix: string, m: State) {
    forall e | e in ReadSlots(m) :: Redirect.ValidReturnTo(Utf8.Encode(e.returnTo), Utf8.Encode(prefix))
  }

  predicate UnderPrefix(prefix: string, e: Event) {
    Proper(e) && (e.LoginEvent? || e.CallbackEvent? ==> e.settings.prefix == prefix)
  }

  lemma SafeSlotsStep(prefix: string, m: State, e: Event)
    requires Sound(m) && SafeSlots(prefix, m) && UnderPrefix(prefix, e)
    ensures SafeSlots(prefix, Next(m, e))
  {
    match e
    case LoginEvent(c, d) =>
      if AfterLogin(c, m, d).1 != Err(BadRequest) {
        var r := PreAuthSlots.Login(SlotFor(c, d), d.stored);
        LoginServesSlots(c, m, d);
        PreAuthSlots.ServeIsSubsequence(ReadSlots(m), r, c.preAuthTtlSecs);
        PreAuthSlots.ServeElements(ReadSlots(m), r, c.preAuthTtlSecs);
      }
    case CallbackEvent(c, a) =>
      CallbackServesSlots(c, m, a);
      PreAuthSlots.ServeElements(ReadSlots(m), AsRequest(a), c.preAuthTtlSecs);
    case _ =>
  }

  lemma {:induction false} SafeSlotsAlways(prefix: string, m: State, es: seq<Event>)
    requires Sound(m) && SafeSlots(prefix, m) && forall i | 0 <= i < |es| :: UnderPrefix(prefix, es[i])
    ensures Sound(After(m, es)) && SafeSlots(prefix, After(m, es))
    decreases |es|
  {
    if es != [] {
      SoundStep(m, es[0]);
      SafeSlotsStep(prefix, m, es[0]);
      SafeSlotsAlways(prefix, Next(m, es[0]), es[1..]);
    }
  }

  lemma SuccessRedirectsSafely(c: Settings, m: State, a: Arrival)
    requires Sound(m) && SafeSlots(c.prefix, m) && Trusted(c, a)
    requires AfterCallback(c, m, a).1.Ok?
    ensures var returnTo := Utf8.Encode(Decided(c, m, a).value.0.returnTo);
            AfterCallback(c, m, a).1.value == Redirect.Compose(returnTo, a.query, c.allow) &&
            Redirect.SafeComposed(Redirect.Compose(returnTo, a.query, c.allow))
  {
    CallbackServesSlots(c, m, a);
    PreAuthSlots.ServeElements(ReadSlots(m), AsRequest(a), c.preAuthTtlSecs);
    var returnTo := Utf8.Encode(Decided(c, m, a).value.0.returnTo);
    RedirectTheorems.LocationIsComposed(returnTo, Utf8.Encode(c.prefix), a.query, c.allow);
    RedirectTheorems.GuardNeverTrips(returnTo, Utf8.Encode(c.prefix), a.query, c.allow);
  }

  /** Every redirect a session ever answers with is the composed target of a validated
      `return_to`: it stays on the host, within the length bound, and never is the fallback. */
  lemma EveryRedirectIsSafe(prefix: string, es: seq<Event>, c: Settings, a: Arrival)
    requires forall i | 0 <= i < |es| :: UnderPrefix(prefix, es[i])
    requires Trusted(c, a) && c.prefix == prefix
    requires AfterCallback(c, After(map[], es), a).1.Ok?
    ensures var location := AfterCallback(c, After(map[], es), a).1.value;
            var returnTo := Utf8.Encode(Decided(c, After(map[], es), a).value.0.returnTo);
            Redirect.SafeComposed(location) && location == Redirect.Compose(returnTo, a.query, c.allow)
  {
    SafeSlotsAlways(prefix, map[], es);
    SuccessRedirectsSafely(c, After(map[], es), a);
  }
}

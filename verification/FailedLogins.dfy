/** What a callback that fails after renewing the session leaves for the extractor. */
module FailedLogins {
  import opened Wrappers
  import opened Clock
  import opened SessionState
  import opened SessionFlow
  import opened SessionObject
  import opened SessionTheorems
  import Config

  /** A field that a list writes one value to ends with that value or as it was. */
  lemma {:induction false} WrittenOrKept(m: State, ws: seq<Write>, faults: set<Site>, f: Field, v: Json)
    requires forall w | w in ws && w.Write? && w.field == f :: w.value == v
    ensures var m' := Written(m, ws, faults).0; Holds(m, m', f, None) || (f in m' && m'[f] == v)
    decreases |ws|
  {
    if ws != [] && ws[0].site !in faults {
      assert ws[0] in ws;
      assert forall w | w in ws[1..] :: w in ws;
      WrittenOrKept(if ws[0].Write? then m[ws[0].field := ws[0].value] else m, ws[1..], faults, f, v);
    }
  }

  /** The writes after the subject's and the issuer's. */
  function LaterStandardWrites(token: Token): seq<Write> {
    OptionalWrite(AtEmail, Email, token.email) + OptionalWrite(AtName, Name, token.name) + [Check(AtClaimsJson)]
  }

  function LaterWrites(token: Token, names: seq<Field>): seq<Write> {
    LaterStandardWrites(token) + ClaimWrites(token, names) + FinalWrites(token, names)
  }

  function SubjectWrite(token: Token): Write {
    Write(AtSub, Sub, JString(token.subject))
  }

  function IssuerWrite(token: Token): Write {
    Write(AtIss, Iss, JString(token.issuer))
  }

  lemma WritesSplit(token: Token, names: seq<Field>)
    ensures IdentityWrites(token, names) == [SubjectWrite(token), IssuerWrite(token)] + LaterWrites(token, names)
  {
    var later := LaterStandardWrites(token);
    assert StandardWrites(token) == [SubjectWrite(token), IssuerWrite(token)] + later;
  }

  /** The later writes start from a scrubbed session that holds the new subject and issuer. */
  predicate Identified(token: Token, m: State) {
    Sub in m && m[Sub] == JString(token.subject) && Iss in m && m[Iss] == JString(token.issuer) &&
    Email !in m && Name !in m && ClaimKeys !in m
  }

  /** An identity made of the new token's parts alone, some of them possibly missing. */
  predicate PartOfNew(auth: Auth, token: Token, names: seq<Field>) {
    var new_ := NewIdentity(token, names);
    auth.subject == new_.subject && auth.issuer == new_.issuer &&
    (auth.email == new_.email || auth.email == None) &&
    (auth.name == new_.name || auth.name == None) &&
    (auth.claims == new_.claims || auth.claims == map[])
  }

  lemma LaterWritesAre(token: Token, names: seq<Field>)
    requires Config.AcceptedClaims(names)
    ensures forall w | w in LaterStandardWrites(token) + ClaimWrites(token, names) :: w.Write? ==> w.field != ClaimKeys
    ensures forall w | w in LaterWrites(token, names) && w.Write? ::
              w.field != Sub && w.field != Iss &&
              (w.field == Email ==> token.email.Some? && w.value == JString(token.email.value)) &&
              (w.field == Name ==> token.name.Some? && w.value == JString(token.name.value))
    ensures forall w | w in FinalWrites(token, names) && w.Write? ::
              !w.field.Custom? && (w.field == ClaimKeys ==> w.value == JFields(SelectedNames(token, names)))
  {
    ClaimWritesAreCustom(token, names);
  }

  lemma {:induction false} UnwrittenStays(m: State, ws: seq<Write>, faults: set<Site>, f: Field)
    requires forall w | w in ws && w.Write? :: w.field != f
    ensures Holds(m, Written(m, ws, faults).0, f, None)
    decreases |ws|
  {
    if ws != [] && ws[0].site !in faults {
      assert ws[0] in ws;
      assert forall w | w in ws[1..] :: w in ws;
      UnwrittenStays(if ws[0].Write? then m[ws[0].field := ws[0].value] else m, ws[1..], faults, f);
    }
  }

  /** The claims: all of the new ones once their list is written, none before. */
  lemma ClaimsAreNewOrNone(token: Token, names: seq<Field>, m: State, faults: set<Site>)
    requires Config.AcceptedClaims(names) && WellFormed(token) && ClaimKeys !in m
    ensures var m' := Written(m, LaterWrites(token, names), faults).0;
            var claims := ReadClaims(m', ReadFields(m', ClaimKeys));
            claims == map[] || claims == NewIdentity(token, names).claims
  {
    var early := LaterStandardWrites(token) + ClaimWrites(token, names);
    var final := FinalWrites(token, names);
    var (m1, ok) := Written(m, early, faults);
    var m' := Written(m, LaterWrites(token, names), faults).0;
    WrittenConcat(m, early, final, faults);
    LaterWritesAre(token, names);
    UnwrittenStays(m, early, faults, ClaimKeys);
    if ok {
      WrittenOrKept(m1, final, faults, ClaimKeys, JFields(SelectedNames(token, names)));
      forall f | f in names && f in token.claims
        ensures f in m' && m'[f] == token.claims[f]
      {
        WrittenHolds(m, early, faults, f);
        LastWriteConcat(LaterStandardWrites(token), ClaimWrites(token, names), f);
        ClaimWritesHold(token, names, f);
        UnwrittenStays(m1, final, faults, f);
      }
      NewClaims(token, names, m');
    }
  }

  lemma LaterWritesLeave(token: Token, names: seq<Field>, m: State, faults: set<Site>)
    requires Config.AcceptedClaims(names) && WellFormed(token) && Identified(token, m)
    ensures var auth := Identity(Written(m, LaterWrites(token, names), faults).0);
            auth.Some? && PartOfNew(auth.value, token, names)
  {
    var ws := LaterWrites(token, names);
    LaterWritesAre(token, names);
    UnwrittenStays(m, ws, faults, Sub);
    UnwrittenStays(m, ws, faults, Iss);
    WrittenOrKept(m, ws, faults, Email, if token.email.Some? then JString(token.email.value) else Malformed);
    WrittenOrKept(m, ws, faults, Name, if token.name.Some? then JString(token.name.value) else Malformed);
    if token.email.None? {
      UnwrittenStays(m, ws, faults, Email);
    }
    if token.name.None? {
      UnwrittenStays(m, ws, faults, Name);
    }
    ClaimsAreNewOrNone(token, names, m, faults);
  }

  /** The bare identity of a subject and perhaps an issuer. */
  function Bare(subject: Option<string>, issuer: Option<string>): Option<Auth> {
    match subject case None => None case Some(s) => Some(Auth(s, issuer, None, None, map[]))
  }

  /** The entries the identity is written over: scrubbed, and under the new login's stamp. */
  function Stage(c: Settings, m: State, a: Arrival): State {
    ScrubbedOf(SlotsWrittenBack(c, m, a)[LoginAt := JInt(a.stampedAt)])
  }

  /** Removing optional identity parts, and keys an application may own, spares subject and issuer. */
  lemma ScrubReads(m: State)
    requires Config.AcceptedClaims(ReadFields(m, ClaimKeys))
    ensures ReadString(ScrubbedOf(m), Sub) == ReadString(m, Sub)
    ensures ReadString(ScrubbedOf(m), Iss) == ReadString(m, Iss)
  {
    assert ReadFields(m - SCRUBBED, ClaimKeys) == ReadFields(m, ClaimKeys);
    var claims := Elements(ReadFields(m, ClaimKeys));
    assert Sub !in SCRUBBED + {ClaimKeys} + claims && Iss !in SCRUBBED + {ClaimKeys} + claims;
    assert ScrubbedOf(m) == m - SCRUBBED - {ClaimKeys} - claims;
  }

  lemma StageReads(c: Settings, m: State, a: Arrival)
    requires Sound(m)
    ensures var stage := Stage(c, m, a);
            ReadString(stage, Sub) == ReadString(m, Sub) && ReadString(stage, Iss) == ReadString(m, Iss) &&
            Email !in stage && Name !in stage && ClaimKeys !in stage &&
            LoginAt in stage && stage[LoginAt] == JInt(a.stampedAt)
  {
    ScrubKeepsStamp(c, m, a);
    ScrubReads(SlotsWrittenBack(c, m, a)[LoginAt := JInt(a.stampedAt)]);
  }

  /** What the identity's writes leave of a scrubbed stage, whichever of them fail. */
  lemma WritesLeave(token: Token, names: seq<Field>, stage: State, faults: set<Site>)
    requires Config.AcceptedClaims(names) && WellFormed(token)
    requires Email !in stage && Name !in stage && ClaimKeys !in stage
    ensures var identity := Identity(Written(stage, IdentityWrites(token, names), faults).0);
            if AtSub in faults then
              identity == Bare(ReadString(stage, Sub), ReadString(stage, Iss))
            else if AtIss in faults then
              identity == Bare(Some(token.subject), ReadString(stage, Iss))
            else
              identity.Some? && PartOfNew(identity.value, token, names)
  {
    WritesSplit(token, names);
    var (ws, later) := (IdentityWrites(token, names), LaterWrites(token, names));
    assert ws[0] == SubjectWrite(token) && ws[1..][0] == IssuerWrite(token) && ws[1..][1..] == later;
    var subjected := stage[Sub := JString(token.subject)];
    if AtSub !in faults {
      assert Written(stage, ws, faults) == Written(subjected, ws[1..], faults);
      if AtIss !in faults {
        var complete := subjected[Iss := JString(token.issuer)];
        assert Written(subjected, ws[1..], faults) == Written(complete, later, faults);
        LaterWritesLeave(token, names, complete, faults);
      }
    }
  }

  /** Exactly what a callback leaves that renewed and stamped the session, whichever writes failed
      after that. A failure to write the subject leaves the old one, bare, under the new login's
      stamp; a failure to write the issuer after it leaves the new subject with the old issuer; and
      after any other failure everything the extractor reads is the new token's. */
  lemma RenewedCallbackLeaves(c: Settings, m: State, a: Arrival)
    requires Sound(m) && Trusted(c, a) && Decided(c, m, a).Ok? && AtStamp !in a.faults
    ensures var (m', token) := (AfterCallback(c, m, a).0, Decided(c, m, a).value.1);
            LoginAt in m' && m'[LoginAt] == JInt(a.stampedAt) &&
            if AtSub in a.faults then
              Identity(m') == Bare(ReadString(m, Sub), ReadString(m, Iss))
            else if AtIss in a.faults then
              Identity(m') == Bare(Some(token.subject), ReadString(m, Iss))
            else
              Identity(m').Some? && PartOfNew(Identity(m').value, token, c.persistClaims)
  {
    var (token, names, stage) := (Decided(c, m, a).value.1, c.persistClaims, Stage(c, m, a));
    StageReads(c, m, a);
    WritesLeave(token, names, stage, a.faults);
    IdentityWritesHold(token, names, LoginAt);
    WrittenHolds(stage, IdentityWrites(token, names), a.faults, LoginAt);
    assert AfterCallback(c, m, a).0 == Written(stage, IdentityWrites(token, names), a.faults).0;
  }

  /** So the old login's lifetime starts over when writing the subject fails: the session is then
      accepted as the old subject until the maximum after the new login's stamp. */
  lemma FailedSubjectRestartsLifetime(c: Settings, m: State, a: Arrival, now: Nanos, max: int)
    requires Sound(m) && Trusted(c, a) && Decided(c, m, a).Ok? && AtStamp !in a.faults && AtSub in a.faults
    requires ReadString(m, Sub).Some? && IsI64(a.stampedAt) && IsI64(a.stampedAt + max)
    ensures Extracted(AfterCallback(c, m, a).0, now, Some(max)) ==
              if a.stampedAt <= Timestamp(now) + LOGIN_AT_FUTURE_SKEW_SECS && Timestamp(now) < a.stampedAt + max
              then (Ok(Bare(ReadString(m, Sub), ReadString(m, Iss)).value), false)
              else (Err(Unauthorized), true)
  {
    RenewedCallbackLeaves(c, m, a);
    ExtractedIs(AfterCallback(c, m, a).0, Bare(ReadString(m, Sub), ReadString(m, Iss)).value, a.stampedAt, now, max);
  }
}

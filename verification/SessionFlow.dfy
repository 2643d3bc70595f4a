/** What login, callback and extraction do to the session's entries. The token endpoint and
    ID-token validation are outcomes; any write to the session may fail. */
module SessionFlow {
  import opened Wrappers
  import opened Clock
  import opened SessionState
  import PreAuthSlots
  import Login
  import Expiry
  import Utf8
  import Redirect
  import RedirectTheorems

  datatype BffError = BadRequest | Internal | Unauthorized

  datatype Settings = Settings(
    preAuthTtlSecs: int,
    maxLifetimeSecs: int,
    persistClaims: seq<Field>,
    allow: seq<string>,
    prefix: string)

  /** A validated ID token with the tokens beside it; `claims` is its JSON object by name. */
  datatype Token = Token(
    subject: string,
    issuer: string,
    email: Option<string>,
    name: Option<string>,
    authTime: Option<int>,
    claims: map<Field, Json>,
    access: string,
    refresh: Option<string>,
    raw: string)

  /** How the token exchange and the ID token's validation (with its one retry) ended. */
  datatype Exchange = NoTokenEndpoint | ExchangeFailed | NoIdToken | InvalidIdToken | Valid(token: Token)

  /** The places where the callback writes an entry or serializes, and may fail. */
  datatype Site =
    | AtSlots | AtStamp | AtSub | AtIss | AtEmail | AtName
    | AtClaimsJson | AtClaim(index: nat) | AtClaimKeys
    | AtAccess | AtRefresh | AtIdToken

  /** A callback request, the clock readings it takes, and the writes that fail. */
  datatype Arrival = Arrival(
    code: Option<string>,
    state: Option<string>,
    error: bool,
    query: seq<Utf8.Byte>,
    now: int,
    exchange: Exchange,
    checkedAt: int,
    stampedAt: int,
    faults: set<Site>)

  // ---- Reading entries ---------------------------------------------------------

  function ReadString(m: State, f: Field): Option<string> {
    if f in m && m[f].JString? then Some(m[f].s) else None
  }

  function ReadFields(m: State, f: Field): seq<Field> {
    if f in m && m[f].JFields? then m[f].fields else []
  }

  /** The stored slot list; an absent or unreadable one counts as empty. */
  function ReadSlots(m: State): seq<PreAuthEntry> {
    if PreAuth in m && m[PreAuth].JSlots? then m[PreAuth].slots else []
  }

  // ---- Login ---------------------------------------------------------------------

  /** A login request: the target it asks for, the random values drawn for it, the route's
      extra parameters, and whether the slot list can be written back. */
  datatype Departure = Departure(
    requested: Option<string>,
    state: string,
    pkceVerifier: string,
    nonce: string,
    now: int,
    extra: Option<Login.ExtraAuthParams>,
    stored: bool)

  function Target(c: Settings, d: Departure): string {
    if d.requested.Some? && d.requested.value != "" then d.requested.value else c.prefix
  }

  predicate ValidTarget(c: Settings, target: string) {
    Redirect.ValidReturnTo(Utf8.Encode(target), Utf8.Encode(c.prefix))
  }

  function SlotFor(c: Settings, d: Departure): PreAuthEntry {
    Login.NewSlot(d.state, d.pkceVerifier, d.nonce, Target(c, d), d.now, d.extra)
  }

  /** `login_impl`: the entries it leaves, and the slot behind the redirect to the provider. */
  function AfterLogin(c: Settings, m: State, d: Departure): (State, Result<PreAuthEntry, BffError>) {
    var slot := SlotFor(c, d);
    if !ValidTarget(c, slot.returnTo) then (m, Err(BadRequest))
    else if !d.stored then (m - {PreAuth}, Err(Internal))
    else
      var kept := PreAuthSlots.Pruned(ReadSlots(m), d.now, c.preAuthTtlSecs);
      ((m - {PreAuth})[PreAuth := JSlots(PreAuthSlots.Pushed(kept, slot))], Ok(slot))
  }

  // ---- Callback: up to the renewal --------------------------------------------------

  function ArrivedSlots(c: Settings, m: State, a: Arrival): seq<PreAuthEntry> {
    PreAuthSlots.Pruned(ReadSlots(m), a.now, c.preAuthTtlSecs)
  }

  /** What the callback takes from the slot list and what it writes back. */
  function Consumed(c: Settings, m: State, a: Arrival): (Option<PreAuthEntry>, seq<PreAuthEntry>) {
    var pruned := ArrivedSlots(c, m, a);
    if a.state.None? || (!a.error && a.code.None?) then (None, pruned)
    else PreAuthSlots.Taken(pruned, a.state.value)
  }

  function SlotsWrittenBack(c: Settings, m: State, a: Arrival): State {
    var m0 := m - {PreAuth};
    if AtSlots in a.faults then m0 else m0[PreAuth := JSlots(Consumed(c, m, a).1)]
  }

  /** The re-authentication requirement of the matched slot. */
  predicate MeetsRequirement(m: State, entry: PreAuthEntry, token: Token, checkedAt: int) {
    entry.maxAgeSecs.Some? ==>
      Login.FreshEnough(token.authTime, entry.maxAgeSecs.value, entry.startedAt, checkedAt) &&
      (ReadString(m, Sub).Some? ==> ReadString(m, Sub).value == token.subject)
  }

  /** Why the callback ends before renewing the session, or the entry and token it goes on with. */
  function Decided(c: Settings, m: State, a: Arrival): Result<(PreAuthEntry, Token), BffError> {
    if AtSlots in a.faults then Err(Internal)
    else if a.error || a.code.None? || a.state.None? then Err(BadRequest)
    else match Consumed(c, m, a).0
      case None => Err(BadRequest)
      case Some(entry) =>
        match a.exchange
        case NoTokenEndpoint => Err(Internal)
        case Valid(token) =>
          if MeetsRequirement(m, entry, token, a.checkedAt) then Ok((entry, token)) else Err(BadRequest)
        case _ => Err(BadRequest)
  }

  // ---- Callback: the new identity ---------------------------------------------------

  /** One step of writing the new identity: an entry, or a computation that may fail. */
  datatype Write = Write(site: Site, field: Field, value: Json) | Check(site: Site)

  /** The entries after the writes up to the first one that fails, and whether none did. */
  function Written(m: State, ws: seq<Write>, faults: set<Site>): (State, bool)
    decreases |ws|
  {
    if ws == [] then (m, true)
    else if ws[0].site in faults then (m, false)
    else Written(if ws[0].Write? then m[ws[0].field := ws[0].value] else m, ws[1..], faults)
  }

  function OptionalWrite(site: Site, field: Field, value: Option<string>): seq<Write> {
    match value case None => [] case Some(s) => [Write(site, field, JString(s))]
  }

  /** `select_claims`: the persisted names the token has, in configured order. */
  function SelectedNames(token: Token, names: seq<Field>): seq<Field> {
    if names == [] then []
    else
      var earlier := SelectedNames(token, names[..|names| - 1]);
      var last := names[|names| - 1];
      if last in token.claims then earlier + [last] else earlier
  }

  function ClaimWrites(token: Token, names: seq<Field>): seq<Write> {
    if names == [] then []
    else
      var earlier := ClaimWrites(token, names[..|names| - 1]);
      var (i, last) := (|names| - 1, names[|names| - 1]);
      if last in token.claims then earlier + [Write(AtClaim(i), last, token.claims[last])] else earlier
  }

  function StandardWrites(token: Token): seq<Write> {
    [Write(AtSub, Sub, JString(token.subject)), Write(AtIss, Iss, JString(token.issuer))] +
    OptionalWrite(AtEmail, Email, token.email) +
    OptionalWrite(AtName, Name, token.name) +
    [Check(AtClaimsJson)]
  }

  function FinalWrites(token: Token, names: seq<Field>): seq<Write> {
    [Write(AtClaimKeys, ClaimKeys, JFields(SelectedNames(token, names))),
     Write(AtAccess, AccessToken, JString(token.access))] +
    OptionalWrite(AtRefresh, RefreshToken, token.refresh) +
    [Write(AtIdToken, IdToken, JString(token.raw))]
  }

  function IdentityWrites(token: Token, names: seq<Field>): seq<Write> {
    StandardWrites(token) + ClaimWrites(token, names) + FinalWrites(token, names)
  }

  function Elements<T>(s: seq<T>): set<T> {
    set x | x in s
  }

  /** The entries once a previous login's leftovers are removed. */
  function ScrubbedOf(m: State): State {
    var scrubbed := m - SCRUBBED;
    scrubbed - {ClaimKeys} - Elements(ReadFields(scrubbed, ClaimKeys))
  }

  /** Where a successful callback redirects to. */
  function Destination(c: Settings, entry: PreAuthEntry, a: Arrival): seq<Utf8.Byte> {
    RedirectTheorems.Location(Utf8.Encode(entry.returnTo), Utf8.Encode(c.prefix), a.query, c.allow)
  }

  /** The whole callback: the entries it leaves and its response. */
  function AfterCallback(c: Settings, m: State, a: Arrival): (State, Result<seq<Utf8.Byte>, BffError>) {
    var m1 := SlotsWrittenBack(c, m, a);
    match Decided(c, m, a)
    case Err(e) => (m1, Err(e))
    case Ok((entry, token)) =>
      if AtStamp in a.faults then (m1, Err(Internal))
      else
        var stage := ScrubbedOf(m1[LoginAt := JInt(a.stampedAt)]);
        var (m2, ok) := Written(stage, IdentityWrites(token, c.persistClaims), a.faults);
        (m2, if ok then Ok(Destination(c, entry, a)) else Err(Internal))
  }

  // ---- Extraction -------------------------------------------------------------------

  datatype Auth = Auth(
    subject: string,
    issuer: Option<string>,
    email: Option<string>,
    name: Option<string>,
    claims: map<Field, Json>)

  predicate Readable(m: State, f: Field) {
    f in m && m[f] != Malformed
  }

  function ReadClaims(m: State, names: seq<Field>): map<Field, Json> {
    map f | f in Elements(names) && Readable(m, f) :: m[f]
  }

  /** `Auth::extract`, with the maximum lifetime if the configuration is available: what it
      returns, and whether it purges the session. */
  function Extracted(m: State, now: Nanos, maxLifetimeSecs: Option<int>): (Result<Auth, BffError>, bool) {
    match ReadString(m, Sub)
    case None => (Err(Unauthorized), false)
    case Some(subject) =>
      if maxLifetimeSecs.Some? && !Expiry.ExtractorAlive(m, now, maxLifetimeSecs.value) then (Err(Unauthorized), true)
      else (Ok(Auth(subject, ReadString(m, Iss), ReadString(m, Email), ReadString(m, Name),
                    ReadClaims(m, ReadFields(m, ClaimKeys)))), false)
  }
}

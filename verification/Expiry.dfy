/** How long a session may live: the store's expiry computations, and the extractor's own
    check of the absolute lifetime. */
module Expiry {
  import opened Wrappers
  import opened Clock
  import opened SessionState
  import Config

  const DEFAULT_PRE_AUTH_TTL_SECS := 600
  const DEFAULT_MAX_SESSION_LIFETIME_SECS := 7 * 24 * 3600
  const DEFAULT_TOUCH_COALESCE_SECS := 60

  predicate IsTtl(secs: int) {
    0 < secs <= Config.MAX_TTL_SECS
  }

  /** A store's three durations. Its constructors read them from a built configuration or
      clamp them, so no store exists outside these bounds. */
  type Policy = p: RawPolicy | IsTtl(p.preAuthSecs) && IsTtl(p.maxLifetimeSecs) &&
                               0 <= p.coalesceSecs <= Config.MAX_TTL_SECS
    witness RawPolicy(DEFAULT_PRE_AUTH_TTL_SECS, DEFAULT_MAX_SESSION_LIFETIME_SECS, DEFAULT_TOUCH_COALESCE_SECS)

  datatype RawPolicy = RawPolicy(preAuthSecs: int, maxLifetimeSecs: int, coalesceSecs: int)

  /** `clamp_positive_ttl`: a usable TTL is kept, anything else becomes one. */
  function ClampPositiveTtl(secs: int, default: int): (r: int)
    requires IsTtl(default)
    ensures IsTtl(r) && (IsTtl(secs) ==> r == secs) && (secs <= 0 ==> r == default)
    ensures secs > Config.MAX_TTL_SECS ==> r == Config.MAX_TTL_SECS
  {
    if secs <= 0 then default else Min(secs, Config.MAX_TTL_SECS)
  }

  /** `clamp_touch_coalesce_secs`: here zero is usable too, and stays zero. */
  function ClampTouchCoalesce(secs: int): (r: int)
    ensures 0 <= r <= Config.MAX_TTL_SECS && (0 <= secs <= Config.MAX_TTL_SECS ==> r == secs)
    ensures (secs < 0 ==> r == 0) && (secs > Config.MAX_TTL_SECS ==> r == Config.MAX_TTL_SECS)
  {
    Max(0, Min(secs, Config.MAX_TTL_SECS))
  }

  function DefaultPolicy(): Policy {
    RawPolicy(DEFAULT_PRE_AUTH_TTL_SECS, DEFAULT_MAX_SESSION_LIFETIME_SECS, DEFAULT_TOUCH_COALESCE_SECS)
  }

  /** `from_config`, on the two durations as `build` receives them. */
  function PolicyFromConfig(preAuth: (nat, nat), maxLifetime: (nat, nat)): (r: Option<Policy>)
    ensures r.Some? <==> preAuth.1 == 0 && IsTtl(preAuth.0) && maxLifetime.1 == 0 && IsTtl(maxLifetime.0)
    ensures r.Some? ==>
              r.value.preAuthSecs == preAuth.0 && r.value.maxLifetimeSecs == maxLifetime.0 && r.value.coalesceSecs == 60
  {
    match (Config.DurationToTtlSecs(preAuth.0, preAuth.1), Config.DurationToTtlSecs(maxLifetime.0, maxLifetime.1))
    case (Ok(pre), Ok(max)) => Some(RawPolicy(pre, max, DEFAULT_TOUCH_COALESCE_SECS))
    case _ => None
  }

  // ---- The store's computations ----------------------------------------------

  /** `parse_login_at`. */
  function ParseLoginAt(state: State): Option<int> {
    if LoginAt in state then LoginAtFromJson(state[LoginAt]) else None
  }

  /** `hard_cap_expiry`: the absolute expiry of an authenticated row, or none if it is dead. */
  function HardCapExpiry(state: State, now: Nanos, maxLifetimeSecs: int): Option<Nanos> {
    match ParseLoginAt(state)
    case None => None
    case Some(loginAt) =>
      match FromTimestamp(loginAt)
      case None => None
      case Some(login) =>
        if login > now + LOGIN_AT_FUTURE_SKEW_SECS * NANOS_PER_SEC then None
        else match TrySeconds(maxLifetimeSecs)
          case None => None
          case Some(span) =>
            match CheckedAdd(login, span)
            case None => None
            case Some(hard) => if hard <= now then None else Some(hard)
  }

  function ExpiryAfter(now: Nanos, ttlSecs: int): Option<Nanos> {
    match TrySeconds(ttlSecs)
    case None => None
    case Some(span) => CheckedAdd(now, span)
  }

  /** `compute_effective_expiry`. */
  function EffectiveExpiry(p: Policy, state: State, ttlSecs: int, now: Nanos): Option<Nanos> {
    if Sub !in state then
      ExpiryAfter(now, Min(ttlSecs, p.preAuthSecs))
    else
      match HardCapExpiry(state, now, p.maxLifetimeSecs)
      case None => None
      case Some(hard) =>
        match ExpiryAfter(now, ttlSecs)
        case None => None
        case Some(candidate) => Some(Min(candidate, hard))
  }

  /** `expiry_from_ttl`: on an unconvertible `ttlSecs`, twelve hours from now. */
  function ExpiryFromTtl(now: Nanos, ttlSecs: int): Nanos {
    now + match TrySeconds(ttlSecs) case Some(span) => span case None => 12 * 3600 * NANOS_PER_SEC
  }

  /** The instant a state's stamp allows it to reach, if the stamp is readable. */
  function Deadline(p: Policy, state: State): Option<Nanos> {
    match ParseLoginAt(state)
    case None => None
    case Some(loginAt) => Some((loginAt + p.maxLifetimeSecs) * NANOS_PER_SEC)
  }

  /** `inject_login_at_if_missing` edits the map in place: afterwards an authenticated state
      carries a stamp, a stamp already there is kept, nothing else is touched, and an added
      stamp is the current second. */
  method InjectLoginAtIfMissing(state: State, now: Nanos) returns (stamped: State)
    ensures Sub in stamped ==> LoginAt in stamped
    ensures stamped - {LoginAt} == state - {LoginAt}
    ensures LoginAt in state ==> stamped == state
    ensures LoginAt in stamped && LoginAt !in state ==> Sub in state && stamped[LoginAt] == JInt(Timestamp(now))
  {
    stamped := state;
    if Sub in stamped && LoginAt !in stamped {
      var ts := Timestamp(now);
      stamped := stamped[LoginAt := JInt(ts)];
    }
    assert stamped - {LoginAt} == state - {LoginAt};
  }

  function Stamped(state: State, now: Nanos): State {
    if Sub in state && LoginAt !in state then state[LoginAt := JInt(Timestamp(now))] else state
  }

  /** What the in-place edit promises leaves one result. */
  lemma StampedIs(state: State, now: Nanos, stamped: State)
    requires Sub in stamped ==> LoginAt in stamped
    requires stamped - {LoginAt} == state - {LoginAt}
    requires LoginAt in state ==> stamped == state
    requires LoginAt in stamped && LoginAt !in state ==> Sub in state && stamped[LoginAt] == JInt(Timestamp(now))
    ensures stamped == Stamped(state, now)
  {
    assert forall f | f != LoginAt :: f in stamped <==> f in stamped - {LoginAt};
    assert forall f | f != LoginAt :: f in state <==> f in state - {LoginAt};
    assert forall f | f != LoginAt && f in stamped :: stamped[f] == (stamped - {LoginAt})[f];
    assert forall f | f != LoginAt && f in state :: state[f] == (state - {LoginAt})[f];
  }

  /** Stamping heals: an authenticated state without a stamp, which both enforcers refuse, is
      alive for both right after it was stamped; for the store, exactly when the new deadline
      is inside chrono's range. */
  lemma StampingHeals(state: State, now: Nanos, maxLifetimeSecs: int)
    requires Sub in state && LoginAt !in state && ClockReading(now) && IsTtl(maxLifetimeSecs)
    ensures !StoreAlive(state, now, maxLifetimeSecs) && !ExtractorAlive(state, now, maxLifetimeSecs)
    ensures StoreAlive(Stamped(state, now), now, maxLifetimeSecs) <==>
            Timestamp(now) + maxLifetimeSecs <= MAX_INSTANT_SECS
    ensures ExtractorAlive(Stamped(state, now), now, maxLifetimeSecs)
    ensures ParseLoginAt(Stamped(state, now)) == Some(Timestamp(now))
  {
  }

  /** Everything a priced expiry promises: an anonymous state lives the TTL or the pre-auth TTL,
      whichever is shorter; an authenticated one the TTL or until its deadline, which is still
      ahead, and its stamp lies no further than the skew in the future. */
  lemma EffectiveExpiryBounds(p: Policy, state: State, ttlSecs: int, now: Nanos)
    requires EffectiveExpiry(p, state, ttlSecs, now).Some?
    ensures var e := EffectiveExpiry(p, state, ttlSecs, now).value;
            (Sub !in state ==> e == Min(now + ttlSecs * NANOS_PER_SEC, now + p.preAuthSecs * NANOS_PER_SEC)) &&
            (Sub in state ==>
              Deadline(p, state).Some? && now < Deadline(p, state).value &&
              e == Min(now + ttlSecs * NANOS_PER_SEC, Deadline(p, state).value) &&
              ParseLoginAt(state).value * NANOS_PER_SEC <= now + LOGIN_AT_FUTURE_SKEW_SECS * NANOS_PER_SEC)
  {
  }

  // ---- The same in numbers -----------------------------------------------------

  /** The clock can be moved by this many seconds without leaving chrono's ranges. */
  predicate Admits(now: Nanos, ttlSecs: int) {
    -MAX_DURATION_SECS <= ttlSecs <= MAX_DURATION_SECS && IsInstant(now + ttlSecs * NANOS_PER_SEC)
  }

  /** The login stamp is readable and at most a minute ahead, its deadline is still ahead, and both
      are instants chrono can hold. */
  predicate Sustained(state: State, now: Nanos, maxLifetimeSecs: int) {
    match ParseLoginAt(state)
    case None => false
    case Some(stamp) =>
      MIN_INSTANT_SECS <= stamp && stamp + maxLifetimeSecs <= MAX_INSTANT_SECS &&
      stamp * NANOS_PER_SEC <= now + 60 * NANOS_PER_SEC && now < (stamp + maxLifetimeSecs) * NANOS_PER_SEC
  }

  /** Whether a state can be given an expiry now. */
  predicate Priceable(p: Policy, state: State, ttlSecs: int, now: Nanos) {
    if Sub in state then Sustained(state, now, p.maxLifetimeSecs) && Admits(now, ttlSecs)
    else Admits(now, Min(ttlSecs, p.preAuthSecs))
  }

  /** The expiry it is given: the TTL's end, or the pre-auth TTL's if that comes first and the state
      is anonymous, or the deadline if that comes first and it is not. */
  function Price(p: Policy, state: State, ttlSecs: int, now: Nanos): Nanos
    requires Priceable(p, state, ttlSecs, now)
  {
    var end := now + ttlSecs * NANOS_PER_SEC;
    if Sub in state then Min(end, (ParseLoginAt(state).value + p.maxLifetimeSecs) * NANOS_PER_SEC)
    else Min(end, now + p.preAuthSecs * NANOS_PER_SEC)
  }

  lemma HardCapExactly(state: State, now: Nanos, maxLifetimeSecs: int)
    requires IsTtl(maxLifetimeSecs)
    ensures HardCapExpiry(state, now, maxLifetimeSecs) ==
            if Sustained(state, now, maxLifetimeSecs)
            then Some((ParseLoginAt(state).value + maxLifetimeSecs) * NANOS_PER_SEC)
            else None
  {
  }

  /** Exactly which states are priced, and at what. */
  lemma PriceExactly(p: Policy, state: State, ttlSecs: int, now: Nanos)
    ensures EffectiveExpiry(p, state, ttlSecs, now) ==
            if Priceable(p, state, ttlSecs, now) then Some(Price(p, state, ttlSecs, now)) else None
  {
    HardCapExactly(state, now, p.maxLifetimeSecs);
  }

  /** The twelve-hour fallback is dead code: whenever `update` reaches its missing-row insert,
      the expiry it priced beforehand shows that the capped TTL converts, so the insert's
      expiry is exactly the capped TTL after the clock reading. */
  lemma TwelveHourFallbackIsDead(p: Policy, state: State, ttlSecs: int, pricedAt: Nanos, now: Nanos)
    requires EffectiveExpiry(p, state, ttlSecs, pricedAt).Some?
    ensures TrySeconds(Min(ttlSecs, p.preAuthSecs)).Some?
    ensures ExpiryFromTtl(now, Min(ttlSecs, p.preAuthSecs)) == now + Min(ttlSecs, p.preAuthSecs) * NANOS_PER_SEC
  {
  }

  // ---- The extractor's check -------------------------------------------------

  /** The lifetime part of `Auth::extract`, in whole seconds and `i64` arithmetic. */
  predicate ExtractorAlive(state: State, now: Nanos, maxLifetimeSecs: int) {
    LoginAt in state && state[LoginAt] != Malformed &&
    match LoginAtFromJson(state[LoginAt])
    case None => false
    case Some(loginAt) =>
      !(loginAt > Timestamp(now) + LOGIN_AT_FUTURE_SKEW_SECS) &&
      IsI64(maxLifetimeSecs + loginAt) &&
      !(maxLifetimeSecs + loginAt <= Timestamp(now))
  }

  /** The lifetime part of `DbSessionStore::load`, in sub-second chrono arithmetic. */
  predicate StoreAlive(state: State, now: Nanos, maxLifetimeSecs: int) {
    HardCapExpiry(state, now, maxLifetimeSecs).Some?
  }

  lemma WholeSecondsSuffice(secs: int, now: Nanos)
    ensures secs * NANOS_PER_SEC > now <==> secs > Timestamp(now)
  {
  }

  lemma EnforcersAgreeOn(state: State, now: Nanos, maxLifetimeSecs: int)
    requires ClockReading(now) && IsTtl(maxLifetimeSecs)
    requires Timestamp(now) + LOGIN_AT_FUTURE_SKEW_SECS + maxLifetimeSecs <= MAX_INSTANT_SECS
    ensures StoreAlive(state, now, maxLifetimeSecs) == ExtractorAlive(state, now, maxLifetimeSecs)
  {
    if ParseLoginAt(state).Some? {
      var loginAt := ParseLoginAt(state).value;
      WholeSecondsSuffice(loginAt - LOGIN_AT_FUTURE_SKEW_SECS, now);
      WholeSecondsSuffice(loginAt + maxLifetimeSecs, now);
    }
  }

  /** The two enforcers give the same answer for every stamp, well formed or not, exactly when
      the clock stands at least a minute and one lifetime before the end of chrono's range.
      Closer to it the store already refuses sessions the extractor still accepts. */
  lemma EnforcersAgree(now: Nanos, maxLifetimeSecs: int)
    requires ClockReading(now) && IsTtl(maxLifetimeSecs)
    ensures (forall state: State ::
               StoreAlive(state, now, maxLifetimeSecs) == ExtractorAlive(state, now, maxLifetimeSecs))
       <==> Timestamp(now) + LOGIN_AT_FUTURE_SKEW_SECS + maxLifetimeSecs <= MAX_INSTANT_SECS
  {
    if Timestamp(now) + LOGIN_AT_FUTURE_SKEW_SECS + maxLifetimeSecs <= MAX_INSTANT_SECS {
      forall state: State
        ensures StoreAlive(state, now, maxLifetimeSecs) == ExtractorAlive(state, now, maxLifetimeSecs)
      {
        EnforcersAgreeOn(state, now, maxLifetimeSecs);
      }
    } else {
      var latest: State := map[LoginAt := JInt(Timestamp(now) + LOGIN_AT_FUTURE_SKEW_SECS)];
      assert !StoreAlive(latest, now, maxLifetimeSecs) && ExtractorAlive(latest, now, maxLifetimeSecs);
    }
  }
}

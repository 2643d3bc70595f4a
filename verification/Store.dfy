/** The session store: a repository of rows, and the five store operations as small programs
    over its atomic steps. `Advance` is one step of one call; the class runs a call to its end. */
module Store {
  import opened Wrappers
  import opened Clock
  import opened SessionState
  import opened Expiry
  import Config

  /** The opaque key in the browser's cookie. */
  type Key = string

  /** A persisted row. A state of `None` is text that does not deserialize. */
  datatype Row = Row(state: Option<State>, expiresAt: Nanos)

  type Rows = map<Key, Row>

  datatype Outcome =
    | Loaded(state: Option<State>)
    | SavedAs(key: Key)
    | UpdatedAs(key: Key)
    | Renewed
    | Deleted
    | Failed

  /** Where a call stands: what it does next, with the local variables it still needs. */
  datatype Call =
    | LoadGet(key: Key)
    | LoadJudge(key: Key, row: Row)
    | LoadDelete(key: Key)
    | SaveStamp(state: State, ttl: int)
    | SavePrice(state: State, ttl: int)
    | SaveInsert(key: Key, row: Row)
    | UpdatePrice(key: Key, state: State, ttl: int)
    | UpdateWrite(key: Key, state: State, ttl: int, expiresAt: Nanos)
    | UpdateDelete(key: Key)
    | UpdateMissing(key: Key, state: State, ttl: int)
    | UpdateInsert(key: Key, row: Row)
    | RenewGet(key: Key, ttl: int)
    | RenewJudge(key: Key, row: Row, ttl: int)
    | RenewPrice(key: Key, state: State, was: Nanos, ttl: int)
    | RenewTouch(key: Key, state: State, expiresAt: Nanos)
    | RenewDelete(key: Key)
    | LogoutDelete(key: Key)
    | Done(outcome: Outcome)

  /** How a repository operation ends: it may be refused, or take effect with its reply lost. */
  datatype Fault = Succeeds | Refused | ReplyLost

  /** What the outside world contributes to one step: the clock, a newly generated key, whether
      the repository filters an expired row by itself, and how its operation ends. */
  datatype Env = Env(now: Nanos, newKey: Key, hides: bool, fault: Fault) {
    /** The caller sees an error. */
    predicate Fails() {
      !fault.Succeeds?
    }

    /** The rows see the operation. */
    predicate Applies() {
      !fault.Refused?
    }
  }

  // ---- The repository contract ------------------------------------------------

  predicate Visible(rows: Rows, key: Key, env: Env) {
    key in rows && !(env.hides && rows[key].expiresAt <= env.now)
  }

  function Lookup(rows: Rows, key: Key, env: Env): Option<Row> {
    if Visible(rows, key, env) then Some(rows[key]) else None
  }

  /** `touch` extends a live row and never inserts. */
  function Touched(rows: Rows, key: Key, expiresAt: Nanos, now: Nanos): Rows {
    if key in rows && rows[key].expiresAt > now then rows[key := rows[key].(expiresAt := expiresAt)] else rows
  }

  function Inserted(rows: Rows, key: Key, row: Row, env: Env): Rows {
    if env.Applies() then rows[key := row] else rows
  }

  /** `update` replaces a visible row and never inserts. */
  function Overwritten(rows: Rows, key: Key, row: Row, env: Env): Rows {
    if env.Applies() && Visible(rows, key, env) then rows[key := row] else rows
  }

  /** A delete that may fail. */
  function BestEffortDelete(rows: Rows, key: Key, env: Env): Rows {
    if env.Applies() then rows - {key} else rows
  }

  // ---- One step ---------------------------------------------------------------

  /** The do-not-resurrect guard's test. */
  predicate HasTokens(state: State) {
    AccessToken in state || RefreshToken in state || IdToken in state
  }

  function Coalesce(p: Policy): Nanos {
    p.coalesceSecs * NANOS_PER_SEC
  }

  function AfterLookup(found: Option<Row>, call: Call): Call {
    match found
    case None => Done(if call.LoadGet? then Loaded(None) else Renewed)
    case Some(row) =>
      match call
      case LoadGet(key) => LoadJudge(key, row)
      case RenewGet(key, ttl) => RenewJudge(key, row, ttl)
      case _ => call
  }

  function JudgeLoad(p: Policy, key: Key, row: Row, now: Nanos): Call {
    if row.expiresAt <= now then LoadDelete(key)
    else match row.state
      case None => Done(Failed)
      case Some(state) =>
        if Sub in state && HardCapExpiry(state, now, p.maxLifetimeSecs).None? then LoadDelete(key)
        else Done(Loaded(Some(state)))
  }

  function JudgeRenewal(key: Key, row: Row, ttl: int, now: Nanos): Call {
    if row.expiresAt <= now || row.state.None? then RenewDelete(key)
    else if Sub !in row.state.value then Done(Renewed)
    else RenewPrice(key, row.state.value, row.expiresAt, ttl)
  }

  function PriceRenewal(p: Policy, key: Key, state: State, was: Nanos, ttl: int, now: Nanos): Call {
    match EffectiveExpiry(p, state, ttl, now)
    case None => RenewDelete(key)
    case Some(expiresAt) =>
      if expiresAt <= was || expiresAt - was < Coalesce(p) then Done(Renewed)
      else RenewTouch(key, state, expiresAt)
  }

  function PriceUpdate(p: Policy, key: Key, state: State, ttl: int, now: Nanos): Call {
    match EffectiveExpiry(p, state, ttl, now)
    case None => UpdateDelete(key)
    case Some(expiresAt) => UpdateWrite(key, state, ttl, expiresAt)
  }

  function PriceSave(p: Policy, state: State, ttl: int, env: Env): Call {
    match EffectiveExpiry(p, state, ttl, env.now)
    case None => Done(Failed)
    case Some(expiresAt) => SaveInsert(env.newKey, Row(Some(state), expiresAt))
  }

  function FallBack(p: Policy, key: Key, state: State, ttl: int, env: Env): Call {
    if HasTokens(state) then Done(UpdatedAs(key))
    else UpdateInsert(env.newKey, Row(Some(state), ExpiryFromTtl(env.now, Min(ttl, p.preAuthSecs))))
  }

  function Advance(p: Policy, rows: Rows, call: Call, env: Env): (Rows, Call) {
    match call
    case LoadGet(key) => (rows, if env.Fails() then Done(Failed) else AfterLookup(Lookup(rows, key, env), call))
    case LoadJudge(key, row) => (rows, JudgeLoad(p, key, row, env.now))
    case LoadDelete(key) => (BestEffortDelete(rows, key, env), Done(Loaded(None)))
    case SaveStamp(state, ttl) => (rows, SavePrice(Stamped(state, env.now), ttl))
    case SavePrice(state, ttl) => (rows, PriceSave(p, state, ttl, env))
    case SaveInsert(key, row) => (Inserted(rows, key, row, env), Done(if env.Fails() then Failed else SavedAs(key)))
    case UpdatePrice(key, state, ttl) => (rows, PriceUpdate(p, key, state, ttl, env.now))
    case UpdateWrite(key, state, ttl, expiresAt) =>
      (Overwritten(rows, key, Row(Some(state), expiresAt), env),
       if env.Fails() then Done(Failed)
       else if Visible(rows, key, env) then Done(UpdatedAs(key))
       else UpdateMissing(key, state, ttl))
    case UpdateDelete(key) => (BestEffortDelete(rows, key, env), Done(UpdatedAs(key)))
    case UpdateMissing(key, state, ttl) => (rows, FallBack(p, key, state, ttl, env))
    case UpdateInsert(key, row) =>
      (Inserted(rows, key, row, env), Done(if env.Fails() then Failed else UpdatedAs(key)))
    case RenewGet(key, ttl) => (rows, if env.Fails() then Done(Failed) else AfterLookup(Lookup(rows, key, env), call))
    case RenewJudge(key, row, ttl) => (rows, JudgeRenewal(key, row, ttl, env.now))
    case RenewPrice(key, state, was, ttl) => (rows, PriceRenewal(p, key, state, was, ttl, env.now))
    case RenewTouch(key, state, expiresAt) =>
      (if env.Applies() then Touched(rows, key, expiresAt, env.now) else rows,
       Done(if env.Fails() then Failed else Renewed))
    case RenewDelete(key) => (BestEffortDelete(rows, key, env), Done(Renewed))
    case LogoutDelete(key) => (BestEffortDelete(rows, key, env), Done(if env.Fails() then Failed else Deleted))
    case Done(_) => (rows, call)
  }

  /** A call run on its own: no other call touches the rows between its steps. */
  function Alone(p: Policy, rows: Rows, call: Call, a: Env, b: Env, c: Env, d: Env): (Rows, Call) {
    var (rows1, call1) := Advance(p, rows, call, a);
    var (rows2, call2) := Advance(p, rows1, call1, b);
    var (rows3, call3) := Advance(p, rows2, call2, c);
    Advance(p, rows3, call3, d)
  }

  // ---- The repository and the store as objects ---------------------------------

  class Repository {
    var rows: Rows

    constructor ()
      ensures rows == map[]
    {
      rows := map[];
    }

    method Get(key: Key, env: Env) returns (r: Result<Option<Row>, ()>)
      ensures r == if env.Fails() then Err(()) else Ok(Lookup(rows, key, env))
    {
      if env.Fails() {
        return Err(());
      }
      if key in rows && (!env.hides || rows[key].expiresAt > env.now) {
        return Ok(Some(rows[key]));
      }
      return Ok(None);
    }

    method Insert(key: Key, row: Row, env: Env) returns (ok: bool)
      modifies this
      ensures ok == !env.Fails()
      ensures rows == Inserted(old(rows), key, row, env)
    {
      ok := !env.Fails();
      if env.Applies() {
        rows := rows[key := row];
      }
    }

    method Update(key: Key, state: State, expiresAt: Nanos, env: Env) returns (existed: Result<bool, ()>)
      modifies this
      ensures existed == if env.Fails() then Err(()) else Ok(Visible(old(rows), key, env))
      ensures rows == Overwritten(old(rows), key, Row(Some(state), expiresAt), env)
    {
      existed := if env.Fails() then Err(()) else Ok(Visible(rows, key, env));
      if env.Applies() && Visible(rows, key, env) {
        rows := rows[key := Row(Some(state), expiresAt)];
      }
    }

    method Touch(key: Key, expiresAt: Nanos, env: Env) returns (ok: bool)
      modifies this
      ensures ok == !env.Fails()
      ensures rows == if env.Applies() then Touched(old(rows), key, expiresAt, env.now) else old(rows)
    {
      ok := !env.Fails();
      if env.Applies() && key in rows && rows[key].expiresAt > env.now {
        rows := rows[key := Row(rows[key].state, expiresAt)];
      }
    }

    method Delete(key: Key, env: Env) returns (ok: bool)
      modifies this
      ensures ok == !env.Fails()
      ensures rows == BestEffortDelete(old(rows), key, env)
    {
      ok := !env.Fails();
      if env.Applies() {
        rows := rows - {key};
      }
    }
  }

  class DbSessionStore {
    const repo: Repository
    var policy: Policy

    constructor (repo: Repository, policy: Policy)
      ensures this.repo == repo && this.policy == policy
    {
      this.repo := repo;
      this.policy := policy;
    }

    /** `with_pre_auth_ttl_secs`. */
    method WithPreAuthTtl(secs: int)
      modifies this`policy
      ensures policy == old(policy).(preAuthSecs := policy.preAuthSecs)
      ensures IsTtl(secs) ==> policy.preAuthSecs == secs
      ensures secs <= 0 ==> policy.preAuthSecs == DEFAULT_PRE_AUTH_TTL_SECS
      ensures secs > Config.MAX_TTL_SECS ==> policy.preAuthSecs == Config.MAX_TTL_SECS
    {
      policy := policy.(preAuthSecs := ClampPositiveTtl(secs, DEFAULT_PRE_AUTH_TTL_SECS));
    }

    /** `with_max_lifetime_secs`. */
    method WithMaxLifetime(secs: int)
      modifies this`policy
      ensures policy == old(policy).(maxLifetimeSecs := policy.maxLifetimeSecs)
      ensures IsTtl(secs) ==> policy.maxLifetimeSecs == secs
      ensures secs <= 0 ==> policy.maxLifetimeSecs == DEFAULT_MAX_SESSION_LIFETIME_SECS
      ensures secs > Config.MAX_TTL_SECS ==> policy.maxLifetimeSecs == Config.MAX_TTL_SECS
    {
      policy := policy.(maxLifetimeSecs := ClampPositiveTtl(secs, DEFAULT_MAX_SESSION_LIFETIME_SECS));
    }

    /** `with_touch_coalesce_secs`. */
    method WithTouchCoalesce(secs: int)
      modifies this`policy
      ensures policy == old(policy).(coalesceSecs := policy.coalesceSecs)
      ensures policy.coalesceSecs == Max(0, Min(secs, Config.MAX_TTL_SECS))
    {
      policy := policy.(coalesceSecs := ClampTouchCoalesce(secs));
    }

    method Load(key: Key, a: Env, b: Env, c: Env, d: Env) returns (outcome: Outcome)
      modifies repo
      ensures (repo.rows, Done(outcome)) == Alone(policy, old(repo.rows), LoadGet(key), a, b, c, d)
    {
      var got := repo.Get(key, a);
      match got
      case Err(_) => return Failed;
      case Ok(None) => return Loaded(None);
      case Ok(Some(row)) =>
        if row.expiresAt <= b.now {
          var _ := repo.Delete(key, c);
          return Loaded(None);
        }
        match row.state
        case None => return Failed;
        case Some(state) =>
          if Sub in state && HardCapExpiry(state, b.now, policy.maxLifetimeSecs).None? {
            var _ := repo.Delete(key, c);
            return Loaded(None);
          }
          return Loaded(Some(state));
    }

    method Save(state: State, ttl: int, a: Env, b: Env, c: Env, d: Env) returns (outcome: Outcome)
      modifies repo
      ensures (repo.rows, Done(outcome)) == Alone(policy, old(repo.rows), SaveStamp(state, ttl), a, b, c, d)
    {
      var stamped := InjectLoginAtIfMissing(state, a.now);
      StampedIs(state, a.now, stamped);
      var expiry := EffectiveExpiry(policy, stamped, ttl, b.now);
      if expiry.None? {
        return Failed;
      }
      var ok := repo.Insert(b.newKey, Row(Some(stamped), expiry.value), c);
      return if ok then SavedAs(b.newKey) else Failed;
    }

    method Update(key: Key, state: State, ttl: int, a: Env, b: Env, c: Env, d: Env) returns (outcome: Outcome)
      modifies repo
      ensures (repo.rows, Done(outcome)) == Alone(policy, old(repo.rows), UpdatePrice(key, state, ttl), a, b, c, d)
    {
      var expiry := EffectiveExpiry(policy, state, ttl, a.now);
      if expiry.None? {
        var _ := repo.Delete(key, b);
        return UpdatedAs(key);
      }
      var existed := repo.Update(key, state, expiry.value, b);
      match existed
      case Err(_) => return Failed;
      case Ok(true) => return UpdatedAs(key);
      case Ok(false) =>
        if HasTokens(state) {
          return UpdatedAs(key);
        }
        var capped := Min(ttl, policy.preAuthSecs);
        var ok := repo.Insert(c.newKey, Row(Some(state), ExpiryFromTtl(c.now, capped)), d);
        return if ok then UpdatedAs(c.newKey) else Failed;
    }

    method UpdateTtl(key: Key, ttl: int, a: Env, b: Env, c: Env, d: Env) returns (outcome: Outcome)
      modifies repo
      ensures (repo.rows, Done(outcome)) == Alone(policy, old(repo.rows), RenewGet(key, ttl), a, b, c, d)
    {
      var got := repo.Get(key, a);
      match got
      case Err(_) => return Failed;
      case Ok(None) => return Renewed;
      case Ok(Some(row)) =>
        if row.expiresAt <= b.now || row.state.None? {
          var _ := repo.Delete(key, c);
          return Renewed;
        }
        var state := row.state.value;
        if Sub !in state {
          return Renewed;
        }
        var expiry := EffectiveExpiry(policy, state, ttl, c.now);
        if expiry.None? {
          var _ := repo.Delete(key, d);
          return Renewed;
        }
        if expiry.value <= row.expiresAt {
          return Renewed;
        }
        if expiry.value - row.expiresAt < Coalesce(policy) {
          return Renewed;
        }
        var ok := repo.Touch(key, expiry.value, d);
        return if ok then Renewed else Failed;
    }

    method Delete(key: Key, a: Env, b: Env, c: Env, d: Env) returns (outcome: Outcome)
      modifies repo
      ensures (repo.rows, Done(outcome)) == Alone(policy, old(repo.rows), LogoutDelete(key), a, b, c, d)
    {
      var ok := repo.Delete(key, a);
      return if ok then Deleted else Failed;
    }
  }
}

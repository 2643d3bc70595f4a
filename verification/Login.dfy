/** Starting a login: the extra authorization parameters a route may add, the authorization
    request, and the slot that remembers it. */
module Login {
  import opened Wrappers
  import opened Clock
  import opened ParamNames
  import opened SessionState
  import opened Sequences
  import Utf8

  const MAX_EXTRA_AUTH_PARAMS := 8
  const MAX_EXTRA_AUTH_VALUE_LEN := 512
  const MAX_AUTH_AGE_SECS := 365 * 24 * 3600
  const AUTH_TIME_SKEW_SECS := 60

  type Param = (string, string)

  datatype AuthParamError =
    | TooMany(got: nat)
    | InvalidName(name: string)
    | ReservedName(name: string)
    | DuplicateName(name: string)
    | ValueTooLong(name: string, got: nat)
    | InvalidValue(name: string)
    | InvalidMaxAge

  /** `maxAgeSecs` is a whole, non-negative number of seconds by construction. */
  datatype ExtraAuthParams = ExtraAuthParams(params: seq<Param>, maxAgeSecs: Option<nat>)

  // ---- Building the parameter set -----------------------------------------------

  /** Why a trimmed parameter is refused after the ones already accepted. */
  function ParamProblem(accepted: seq<Param>, p: Param): Option<AuthParamError> {
    match NameProblem(p.0, DENIED_AUTH_PARAMS)
    case Some(Denied) => Some(ReservedName(p.0))
    case Some(_) => Some(InvalidName(p.0))
    case None =>
      if exists i | 0 <= i < |accepted| :: EqIgnoreCase(accepted[i].0, p.0) then Some(DuplicateName(p.0))
      else if |Utf8.Encode(p.1)| > MAX_EXTRA_AUTH_VALUE_LEN then Some(ValueTooLong(p.0, |Utf8.Encode(p.1)|))
      else if HasControlChars(p.1) then Some(InvalidValue(p.0))
      else None
  }

  function Trimmed(raw: seq<Param>): (r: seq<Param>)
    ensures |r| == |raw|
  {
    seq(|raw|, i requires 0 <= i < |raw| => (Trim(raw[i].0), raw[i].1))
  }

  function ParamProblems(params: seq<Param>): (r: seq<Option<AuthParamError>>)
    ensures |r| == |params|
  {
    seq(|params|, i requires 0 <= i < |params| => ParamProblem(params[..i], params[i]))
  }

  function Built(raw: seq<Param>): Result<ExtraAuthParams, AuthParamError> {
    if |raw| > MAX_EXTRA_AUTH_PARAMS then Err(TooMany(|raw|))
    else match FirstSome(ParamProblems(Trimmed(raw)))
      case Some(e) => Err(e)
      case None => Ok(ExtraAuthParams(Trimmed(raw), None))
  }

  lemma TrimmedStep(raw: seq<Param>, i: nat)
    requires i < |raw|
    ensures Trimmed(raw)[..i] + [(Trim(raw[i].0), raw[i].1)] == Trimmed(raw)[..i + 1]
    ensures ParamProblems(Trimmed(raw))[i] == ParamProblem(Trimmed(raw)[..i], (Trim(raw[i].0), raw[i].1))
  {
  }

  /** The loop of `new`: trim and check each pair against the ones before it. */
  method CheckAll(raw: seq<Param>, ghost trimmed: seq<Param>, ghost problems: seq<Option<AuthParamError>>)
    returns (problem: Option<AuthParamError>, validated: seq<Param>)
    requires trimmed == Trimmed(raw) && problems == ParamProblems(trimmed)
    ensures problem == FirstSome(problems)
    ensures problem.None? ==> validated == trimmed
  {
    validated := [];
    for i := 0 to |raw|
      invariant validated == trimmed[..i]
      invariant forall j | 0 <= j < i :: problems[j].None?
    {
      TrimmedStep(raw, i);
      var p := (Trim(raw[i].0), raw[i].1);
      problem := ParamProblem(validated, p);
      if problem.Some? {
        FirstSomeIs(problems, i);
        return;
      }
      validated := validated + [p];
    }
    FirstSomeIs(problems, |raw|);
    problem := None;
  }

  /** `ExtraAuthParams::new`: all the trimmed parameters in order, or the first problem. */
  method New(raw: seq<Param>) returns (r: Result<ExtraAuthParams, AuthParamError>)
    ensures r == Built(raw)
  {
    if |raw| > MAX_EXTRA_AUTH_PARAMS {
      return Err(TooMany(|raw|));
    }
    var problem, validated := CheckAll(raw, Trimmed(raw), ParamProblems(Trimmed(raw)));
    return if problem.Some? then Err(problem.value) else Ok(ExtraAuthParams(validated, None));
  }

  /** A parameter set `new` can build. */
  ghost predicate Accepted(params: seq<Param>) {
    |params| <= MAX_EXTRA_AUTH_PARAMS &&
    forall i | 0 <= i < |params| :: ParamProblem(params[..i], params[i]).None?
  }

  /** Why a parameter is refused, each reason with what it reports. */
  lemma ProblemMeans(accepted: seq<Param>, p: Param)
    ensures var bad := NameProblem(p.0, DENIED_AUTH_PARAMS);
            var again := exists q | q in accepted :: EqIgnoreCase(q.0, p.0);
            var bytes := |Utf8.Encode(p.1)|;
            var controls := exists i | 0 <= i < |p.1| :: p.1[i] as int < 0x20 || 0x7F <= p.1[i] as int < 0xA0;
            match ParamProblem(accepted, p)
            case None => bad.None? && !again && bytes <= 512 && !controls
            case Some(InvalidName(n)) => n == p.0 && bad.Some? && bad.value != Denied
            case Some(ReservedName(n)) => n == p.0 && bad == Some(Denied)
            case Some(DuplicateName(n)) => n == p.0 && bad.None? && again
            case Some(ValueTooLong(n, got)) => n == p.0 && bad.None? && !again && got == bytes > 512
            case Some(InvalidValue(n)) => n == p.0 && bad.None? && !again && bytes <= 512 && controls
            case Some(_) => false
  {
    assert (exists q | q in accepted :: EqIgnoreCase(q.0, p.0)) <==>
           exists i | 0 <= i < |accepted| :: EqIgnoreCase(accepted[i].0, p.0);
    ControlsExactly(p.1);
  }

  /** A name that is neither misspelt nor reserved, and at most 512 bytes without control characters. */
  predicate WellFormed(p: Param) {
    NameProblem(p.0, DENIED_AUTH_PARAMS).None? && |Utf8.Encode(p.1)| <= 512 &&
    forall i | 0 <= i < |p.1| :: 0x20 <= p.1[i] as int < 0x7F || 0xA0 <= p.1[i] as int
  }

  /** The parameters `new` builds: at most eight, each well formed, no two with one name in any mix of
      cases. */
  lemma AcceptedExactly(params: seq<Param>)
    ensures Accepted(params) <==>
            |params| <= 8 &&
            (forall i | 0 <= i < |params| :: WellFormed(params[i])) &&
            forall i, j | 0 <= i < j < |params| :: !EqIgnoreCase(params[i].0, params[j].0)
  {
    forall i | 0 <= i < |params|
      ensures ParamProblem(params[..i], params[i]).None? <==>
              WellFormed(params[i]) && forall j | 0 <= j < i :: !EqIgnoreCase(params[j].0, params[i].0)
    {
      ProblemMeans(params[..i], params[i]);
      assert forall j | 0 <= j < i :: params[..i][j] == params[j] && params[j] in params[..i];
    }
  }

  lemma NewAcceptsExactly(raw: seq<Param>)
    ensures forall i | 0 <= i < |raw| :: Trimmed(raw)[i] == (Trim(raw[i].0), raw[i].1)
    ensures Built(raw).Ok? <==> Accepted(Trimmed(raw))
    ensures Built(raw).Ok? ==> Built(raw).value == ExtraAuthParams(Trimmed(raw), None)
    ensures Built(raw).Err? ==>
              if |raw| > MAX_EXTRA_AUTH_PARAMS then Built(raw).error == TooMany(|raw|)
              else exists i | 0 <= i < |raw| ::
                     Accepted(Trimmed(raw)[..i]) &&
                     ParamProblem(Trimmed(raw)[..i], Trimmed(raw)[i]) == Some(Built(raw).error)
  {
    var params := Trimmed(raw);
    NoneIsSome(ParamProblems(params));
    assert forall i | 0 <= i < |params| :: ParamProblems(params)[i] == ParamProblem(params[..i], params[i]);
    if |raw| <= MAX_EXTRA_AUTH_PARAMS && Built(raw).Err? {
      FirstSomeIsFirst(ParamProblems(params));
      var i :| 0 <= i < |params| && ParamProblems(params)[i] == FirstSome(ParamProblems(params)) &&
               forall j | 0 <= j < i :: ParamProblems(params)[j].None?;
      AcceptedPrefix(params, i);
    }
  }

  lemma AcceptedPrefix(params: seq<Param>, n: nat)
    requires n <= |params| <= MAX_EXTRA_AUTH_PARAMS && forall j | 0 <= j < n :: ParamProblems(params)[j].None?
    ensures Accepted(params[..n])
  {
    forall j | 0 <= j < n
      ensures ParamProblem(params[..n][..j], params[..n][j]).None?
    {
      assert params[..n][..j] == params[..j] && ParamProblems(params)[j].None?;
    }
  }

  /** `require_auth_within`, on a `Duration` of whole seconds and leftover nanoseconds. */
  function RequireAuthWithin(extra: ExtraAuthParams, secs: nat, subsecNanos: nat)
    : Result<ExtraAuthParams, AuthParamError>
  {
    if subsecNanos != 0 || secs > MAX_AUTH_AGE_SECS then Err(InvalidMaxAge)
    else Ok(extra.(maxAgeSecs := Some(secs)))
  }

  // ---- The authorization request --------------------------------------------------

  /** The parameters the crate and its client library put on the request themselves. */
  const OWN_PARAMS: seq<string> := [
    "response_type", "client_id", "state", "code_challenge", "code_challenge_method",
    "redirect_uri", "scope", "nonce"]

  function RequestNames(extra: Option<ExtraAuthParams>): seq<string> {
    match extra
    case None => OWN_PARAMS
    case Some(x) => OWN_PARAMS + Firsts(x.params) + if x.maxAgeSecs.Some? then ["max_age"] else []
  }

  lemma FirstsAre(params: seq<Param>, name: string)
    ensures name in Firsts(params) <==> exists p | p in params :: p.0 == name
  {
    assert forall i | 0 <= i < |params| :: Firsts(params)[i] == params[i].0 && params[i] in params;
  }

  lemma OwnNames(name: string)
    ensures name in OWN_PARAMS <==>
            name in {"response_type", "client_id", "redirect_uri", "scope", "state", "nonce", "code_challenge",
                     "code_challenge_method"}
  {
  }

  /** The request carries all of the crate's own parameters and the route's, and `max_age` exactly
      when the route requires an age. */
  lemma RequestCarries(extra: Option<ExtraAuthParams>, name: string)
    requires extra.Some? ==> Accepted(extra.value.params)
    ensures name in RequestNames(extra) <==>
            name in {"response_type", "client_id", "redirect_uri", "scope", "state", "nonce", "code_challenge",
                     "code_challenge_method"} ||
            (extra.Some? && exists p | p in extra.value.params :: p.0 == name) ||
            (name == "max_age" && RequestedMaxAge(extra).Some?)
  {
    if extra.Some? {
      FirstsAre(extra.value.params, name);
    }
    OwnNames(name);
  }

  lemma OwnParamsAreDenied()
    ensures forall n | n in OWN_PARAMS + ["max_age"] :: n in DENIED_AUTH_PARAMS
  {
  }

  lemma DeniedIsRefused(name: string, denied: seq<string>)
    requires NameProblem(name, denied).None?
    ensures forall d | d in denied :: !EqIgnoreCase(d, name)
  {
  }

  /** No parameter the route adds can repeat one of the crate's own or another of the route's,
      not even in a different case. */
  lemma ParamIsNew(params: seq<Param>, i: nat)
    requires Accepted(params) && i < |params|
    ensures forall n | n in OWN_PARAMS + ["max_age"] :: !EqIgnoreCase(n, params[i].0)
    ensures !EqIgnoreCase(params[i].0, "max_age")
    ensures forall j | 0 <= j < i :: !EqIgnoreCase(params[j].0, params[i].0)
  {
    assert ParamProblem(params[..i], params[i]).None?;
    DeniedIsRefused(params[i].0, DENIED_AUTH_PARAMS);
    OwnParamsAreDenied();
    assert "max_age" in OWN_PARAMS + ["max_age"];
    forall j | 0 <= j < i
      ensures !EqIgnoreCase(params[j].0, params[i].0)
    {
      assert params[..i][j] == params[j];
    }
  }

  ghost predicate NoNameTwice(names: seq<string>) {
    forall i, j | 0 <= i < j < |names| :: !EqIgnoreCase(names[i], names[j])
  }

  lemma OwnParamsDiffer()
    ensures NoNameTwice(OWN_PARAMS + ["max_age"])
  {
    var (state, scope, nonce) := ("state", "scope", "nonce");
    assert Lower(state[1]) == 't' && Lower(scope[1]) == 'c' && Lower(nonce[1]) == 'o';
  }

  lemma LastNameDiffers(names: seq<string>, last: string)
    requires NoNameTwice(names + [last])
    ensures NoNameTwice(names)
    ensures forall n | n in names :: !EqIgnoreCase(n, last)
  {
    assert forall i | 0 <= i < |names| :: (names + [last])[i] == names[i];
    assert (names + [last])[|names|] == last;
  }

  /** Joining two lists without repetitions that do not share a name. */
  lemma JoinedNames(a: seq<string>, b: seq<string>)
    requires NoNameTwice(a) && NoNameTwice(b)
    requires forall x, y | x in a && y in b :: !EqIgnoreCase(x, y)
    ensures NoNameTwice(a + b)
  {
  }

  /** The authorization request never carries one parameter twice, not even in different case:
      in particular `max_age` is sent by `require_auth_within` or not at all. */
  lemma NoParameterRepeats(extra: Option<ExtraAuthParams>)
    requires extra.Some? ==> Accepted(extra.value.params)
    ensures NoNameTwice(RequestNames(extra))
  {
    OwnParamsDiffer();
    LastNameDiffers(OWN_PARAMS, "max_age");
    if extra.Some? {
      var names := Firsts(extra.value.params);
      forall j | 0 <= j < |names| {
        ParamIsNew(extra.value.params, j);
      }
      JoinedNames(OWN_PARAMS, names);
      JoinedNames(OWN_PARAMS + names, if extra.value.maxAgeSecs.Some? then ["max_age"] else []);
    }
  }

  // ---- The re-authentication requirement --------------------------------------------

  /** The age the provider is asked to enforce. */
  function RequestedMaxAge(extra: Option<ExtraAuthParams>): Option<nat> {
    match extra case None => None case Some(x) => x.maxAgeSecs
  }

  /** The slot `login_impl` stores. */
  function NewSlot(state: string, pkce: string, nonce: string, returnTo: string, now: int,
                   extra: Option<ExtraAuthParams>): PreAuthEntry
  {
    PreAuthEntry(state, pkce, nonce, returnTo, now,
                 match extra
                 case None => None
                 case Some(x) => match x.maxAgeSecs case None => None case Some(secs) => Some(secs))
  }

  /** `verify_auth_freshness`, in saturating `i64` arithmetic; an absent claim fails. */
  predicate FreshEnough(authTime: Option<int>, maxAgeSecs: int, startedAt: int, now: int) {
    authTime.Some? &&
    !(Saturate(startedAt - authTime.value) > Saturate(maxAgeSecs + AUTH_TIME_SKEW_SECS)) &&
    !(Saturate(authTime.value - now) > AUTH_TIME_SKEW_SECS)
  }

  /** The same requirement over the integers: authenticated no longer than the age and the skew
      before the request was made, and not beyond the skew in the future. */
  predicate Fresh(authTime: Option<int>, maxAgeSecs: int, startedAt: int, now: int) {
    authTime.Some? &&
    startedAt - authTime.value <= maxAgeSecs + AUTH_TIME_SKEW_SECS &&
    authTime.value - now <= AUTH_TIME_SKEW_SECS
  }

  /** What a chrono instant can hold, in seconds. */
  predicate IsTimestamp(t: int) {
    MIN_INSTANT_SECS <= t <= MAX_INSTANT_SECS
  }

  /** Saturation changes no verdict for this age. */
  ghost predicate SaturationIsHarmless(maxAgeSecs: int) {
    forall authTime: int, startedAt: int, now: int ::
      IsTimestamp(authTime) && IsI64(startedAt) && IsTimestamp(now) ==>
      FreshEnough(Some(authTime), maxAgeSecs, startedAt, now) == Fresh(Some(authTime), maxAgeSecs, startedAt, now)
  }

  lemma SaturationChangesNothing(authTime: int, maxAgeSecs: int, startedAt: int, now: int)
    requires IsI64(maxAgeSecs) && maxAgeSecs + AUTH_TIME_SKEW_SECS < I64_MAX
    requires IsTimestamp(authTime) && IsI64(startedAt) && IsTimestamp(now)
    ensures FreshEnough(Some(authTime), maxAgeSecs, startedAt, now) == Fresh(Some(authTime), maxAgeSecs, startedAt, now)
  {
  }

  /** Saturation is harmless exactly when the allowed age leaves room below `i64::MAX`; at
      that edge an age beyond every bound would be accepted. */
  lemma SaturationIsHarmlessExactlyWhen(maxAgeSecs: int)
    requires IsI64(maxAgeSecs)
    ensures SaturationIsHarmless(maxAgeSecs) <==> maxAgeSecs + AUTH_TIME_SKEW_SECS < I64_MAX
  {
    if maxAgeSecs + AUTH_TIME_SKEW_SECS < I64_MAX {
      forall authTime: int, startedAt: int, now: int | IsTimestamp(authTime) && IsI64(startedAt) && IsTimestamp(now) {
        SaturationChangesNothing(authTime, maxAgeSecs, startedAt, now);
      }
    } else {
      assert IsTimestamp(MIN_INSTANT_SECS) && IsI64(I64_MAX) && IsTimestamp(0);
      assert FreshEnough(Some(MIN_INSTANT_SECS), maxAgeSecs, I64_MAX, 0)
          != Fresh(Some(MIN_INSTANT_SECS), maxAgeSecs, I64_MAX, 0);
    }
  }

  /** Waiting never turns an accepted authentication into a rejected one. */
  lemma FreshnessIsMonotone(authTime: Option<int>, maxAgeSecs: int, startedAt: int, now: int, later: int)
    requires FreshEnough(authTime, maxAgeSecs, startedAt, now) && now <= later
    ensures FreshEnough(authTime, maxAgeSecs, startedAt, later)
  {
  }

  /** Requested and enforced are one number: whatever age a route requires, the request asks the
      provider for it and the slot makes the callback check it, with no rounding and well
      inside the range where saturation is harmless. */
  lemma RequestedAgeIsEnforced(extra: ExtraAuthParams, secs: nat, subsecNanos: nat,
                               state: string, pkce: string, nonce: string, returnTo: string, now: int)
    ensures var r := RequireAuthWithin(extra, secs, subsecNanos);
            (r.Ok? <==> subsecNanos == 0 && secs <= MAX_AUTH_AGE_SECS) &&
            (r.Ok? ==>
               var slot := NewSlot(state, pkce, nonce, returnTo, now, Some(r.value));
               RequestedMaxAge(Some(r.value)) == Some(secs) && slot.maxAgeSecs == Some(secs) &&
               slot.startedAt == now && r.value.params == extra.params &&
               SaturationIsHarmless(slot.maxAgeSecs.value))
  {
    if secs <= MAX_AUTH_AGE_SECS {
      SaturationIsHarmlessExactlyWhen(secs);
    }
  }
}

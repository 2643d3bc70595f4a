/** The parts of the configuration builder that supply invariants to the handlers. */
module Config {
  import opened Wrappers
  import ParamNames
  import opened Sequences
  import opened SessionState

  const MAX_TTL_SECS := 365 * 24 * 3600
  const MAX_PASSTHROUGH_PARAMS := 8

  // ---- Lifetimes -------------------------------------------------------------

  datatype TtlError = UnderOneSecond | NotWholeSeconds | TooLong

  /** `duration_to_ttl_secs`, on a `Duration` of whole seconds and leftover nanoseconds. */
  function DurationToTtlSecs(secs: nat, subsecNanos: nat): Result<int, TtlError> {
    if secs == 0 then Err(UnderOneSecond)
    else if subsecNanos != 0 then Err(NotWholeSeconds)
    else if secs > MAX_TTL_SECS then Err(TooLong)
    else Ok(secs)
  }

  // ---- Persisted claims ------------------------------------------------------

  /** What `build` guarantees of `persist_claims`: no name is a reserved session key. */
  predicate AcceptedClaims(claims: seq<Field>) {
    forall f | f in claims :: !IsReserved(f)
  }

  // ---- The passthrough allowlist ---------------------------------------------

  datatype AllowlistError =
    | TooMany(got: nat)
    | BadName(name: string, why: ParamNames.ParamNameError)
    | Duplicate(name: string)

  function NameProblem(name: string): Option<ParamNames.ParamNameError> {
    ParamNames.NameProblem(name, ParamNames.DENIED_PASSTHROUGH_PARAMS)
  }

  /** An allowlist the callback can rely on. */
  predicate AcceptedAllowlist(names: seq<string>) {
    |names| <= MAX_PASSTHROUGH_PARAMS &&
    (forall i | 0 <= i < |names| :: NameProblem(names[i]).None?) &&
    forall i, j | 0 <= i < j < |names| :: names[i] != names[j]
  }

  /** The supplied names, trimmed, without the ones that trim to nothing. */
  function Surviving(params: seq<string>): seq<string> {
    if params == [] then []
    else
      var name := ParamNames.Trim(params[0]);
      (if name == [] then [] else [name]) + Surviving(params[1..])
  }

  /** A name is trimmed, and left out if it is all whitespace. */
  lemma SurvivingOne(name: string)
    ensures Surviving([name]) == if ParamNames.AllWhitespace(name) then [] else [ParamNames.Trim(name)]
  {
    ParamNames.BlankExactlyWhen(name);
    assert [name][1..] == [];
  }

  /** The list is taken name by name, in order. */
  lemma {:induction false} SurvivingConcat(a: seq<string>, b: seq<string>)
    ensures Surviving(a + b) == Surviving(a) + Surviving(b)
    decreases |a|
  {
    if a == [] {
      assert a + b == b;
    } else {
      assert (a + b)[1..] == a[1..] + b;
      SurvivingConcat(a[1..], b);
    }
  }

  /** What is wrong with the name at `i`, given the ones before it. */
  function ProblemAt(names: seq<string>, i: nat): Option<AllowlistError>
    requires i < |names|
  {
    match NameProblem(names[i])
    case Some(why) => Some(BadName(names[i], why))
    case None => if names[i] in names[..i] then Some(Duplicate(names[i])) else None
  }

  function Problems(names: seq<string>): (r: seq<Option<AllowlistError>>)
    ensures |r| == |names|
  {
    seq(|names|, i requires 0 <= i < |names| => ProblemAt(names, i))
  }

  function Normalized(params: seq<string>): Result<seq<string>, AllowlistError> {
    var names := Surviving(params);
    if |names| > MAX_PASSTHROUGH_PARAMS then Err(TooMany(|names|))
    else match FirstSome(Problems(names))
      case Some(e) => Err(e)
      case None => Ok(names)
  }

  lemma NoProblemMeansAccepted(names: seq<string>)
    requires |names| <= MAX_PASSTHROUGH_PARAMS
    ensures (forall i | 0 <= i < |names| :: ProblemAt(names, i).None?) <==> AcceptedAllowlist(names)
  {
    assert forall i, j | 0 <= i < j < |names| :: names[..j][i] == names[i];
    if forall i | 0 <= i < |names| :: ProblemAt(names, i).None? {
      forall i, j | 0 <= i < j < |names|
        ensures names[i] != names[j]
      {
        assert ProblemAt(names, j).None?;
      }
      assert forall i | 0 <= i < |names| :: ProblemAt(names, i).None? && NameProblem(names[i]).None?;
    }
  }

  lemma FirstProblemIsReported(names: seq<string>)
    requires |names| <= MAX_PASSTHROUGH_PARAMS && FirstSome(Problems(names)).Some?
    ensures exists i | 0 <= i < |names| ::
              AcceptedAllowlist(names[..i]) && ProblemAt(names, i) == FirstSome(Problems(names))
  {
    FirstSomeIsFirst(Problems(names));
    var i :| 0 <= i < |names| && Problems(names)[i] == FirstSome(Problems(names)) &&
             forall j | 0 <= j < i :: Problems(names)[j].None?;
    forall j | 0 <= j < i
      ensures ProblemAt(names[..i], j).None?
    {
      assert names[..i][..j] == names[..j] && Problems(names)[j].None?;
    }
    NoProblemMeansAccepted(names[..i]);
  }

  /** A name's problem: its spelling, or that it stands earlier in the list. */
  lemma ProblemAtMeans(names: seq<string>, i: nat)
    requires i < |names|
    ensures match ProblemAt(names, i)
            case None => NameProblem(names[i]).None? && forall j | 0 <= j < i :: names[j] != names[i]
            case Some(BadName(name, why)) => name == names[i] && NameProblem(name) == Some(why)
            case Some(Duplicate(name)) =>
              name == names[i] && NameProblem(name).None? && exists j | 0 <= j < i :: names[j] == name
            case Some(TooMany(_)) => false
  {
    assert forall j | 0 <= j < i :: names[..i][j] == names[j];
    if names[i] in names[..i] {
      var j :| 0 <= j < i && names[..i][j] == names[i];
      assert names[j] == names[i];
    }
  }

  /** The builder accepts exactly the lists whose surviving names are valid, distinct and at
      most eight, and then keeps precisely those names; otherwise it reports the first problem. */
  lemma NormalizationAcceptsExactly(params: seq<string>)
    ensures Normalized(params).Ok? <==> AcceptedAllowlist(Surviving(params))
    ensures Normalized(params).Ok? ==> Normalized(params).value == Surviving(params)
    ensures Normalized(params).Err? ==>
              var names := Surviving(params);
              if |names| > MAX_PASSTHROUGH_PARAMS then Normalized(params).error == TooMany(|names|)
              else exists i | 0 <= i < |names| ::
                     AcceptedAllowlist(names[..i]) && ProblemAt(names, i) == Some(Normalized(params).error)
  {
    var names := Surviving(params);
    if |names| <= MAX_PASSTHROUGH_PARAMS {
      NoneIsSome(Problems(names));
      assert forall i | 0 <= i < |names| :: Problems(names)[i] == ProblemAt(names, i);
      NoProblemMeansAccepted(names);
      if Normalized(params).Err? {
        FirstProblemIsReported(names);
      }
    }
  }

  /** `normalize_passthrough_params`. */
  method NormalizePassthroughParams(params: seq<string>) returns (r: Result<seq<string>, AllowlistError>)
    ensures r == Normalized(params)
  {
    var names := Surviving(params);
    if |names| > MAX_PASSTHROUGH_PARAMS {
      return Err(TooMany(|names|));
    }
    ghost var problems := Problems(names);
    for i := 0 to |names|
      invariant forall j | 0 <= j < i :: problems[j].None?
    {
      var problem := ProblemAt(names, i);
      if problem.Some? {
        FirstSomeIs(problems, i);
        return Err(problem.value);
      }
    }
    FirstSomeIs(problems, |names|);
    return Ok(names);
  }
}

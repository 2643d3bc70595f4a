/** The post-login redirect: `return_to` validation and the passthrough of allowlisted
    callback parameters. Redirect targets are byte strings, as Rust's `str` methods see them. */
module Redirect {
  import opened Wrappers
  import opened Utf8
  import opened FormUrlencoded
  import opened Sequences
  import ParamNames

  const MAX_RETURN_TO_LEN := 512
  const MAX_PASSTHROUGH_VALUE_LEN := 256
  const MAX_PASSTHROUGH_TOTAL_LEN := 1024
  const MAX_COMPOSED_REDIRECT_LEN := 2048

  const SLASH: Byte := 0x2F
  const BACKSLASH: Byte := 0x5C
  const COLON: Byte := 0x3A
  const QUESTION: Byte := 0x3F
  const HASH: Byte := 0x23

  // ---- Safe targets ----------------------------------------------------------

  /** Whether `x` is directly followed by `y` somewhere in `bs`. */
  predicate HasPair(bs: seq<Byte>, x: Byte, y: Byte) {
    exists i | 0 < i < |bs| :: bs[i] == y && bs[i - 1] == x
  }

  predicate PrintableAscii(bs: seq<Byte>) {
    forall b | b in bs :: 0x20 <= b <= 0x7E
  }

  /** An absolute path with no protocol-relative, backslash or scheme trick anywhere in it. */
  predicate StaysOnHost(bs: seq<Byte>) {
    bs != [] && bs[0] == SLASH &&
    PrintableAscii(bs) &&
    !HasPair(bs, SLASH, SLASH) && BACKSLASH !in bs && !HasPair(bs, COLON, SLASH)
  }

  predicate UnderPrefix(target: seq<Byte>, prefix: seq<Byte>) {
    target == prefix ||
    (prefix <= target &&
      ((prefix != [] && prefix[|prefix| - 1] == SLASH) ||
       (|prefix| < |target| && target[|prefix|] == SLASH)))
  }

  /** `validate_return_to`. */
  predicate ValidReturnTo(target: seq<Byte>, prefix: seq<Byte>) {
    |target| <= MAX_RETURN_TO_LEN && StaysOnHost(target) && UnderPrefix(target, prefix)
  }

  /** `is_safe_composed_redirect`. */
  predicate SafeComposed(target: seq<Byte>) {
    |target| <= MAX_COMPOSED_REDIRECT_LEN && StaysOnHost(target)
  }

  // ---- The parts of a target -------------------------------------------------

  function BeforeFragment(target: seq<Byte>): seq<Byte> {
    target[..IndexOf(target, HASH)]
  }

  /** The fragment, with its `#`. */
  function Fragment(target: seq<Byte>): seq<Byte> {
    target[IndexOf(target, HASH)..]
  }

  function Path(target: seq<Byte>): seq<Byte> {
    var before := BeforeFragment(target);
    before[..IndexOf(before, QUESTION)]
  }

  function Query(target: seq<Byte>): seq<Byte> {
    var before := BeforeFragment(target);
    After(before, IndexOf(before, QUESTION))
  }

  // ---- Selection -------------------------------------------------------------

  /** `is_droppable_passthrough_value`. */
  predicate Droppable(value: string) {
    |Encode(value)| > MAX_PASSTHROUGH_VALUE_LEN ||
    ParamNames.HasControlChars(value) ||
    REPLACEMENT in value
  }

  /** What the callback's pairs decide about a name: nothing if it is absent; otherwise its
      first occurrence decides, and an unusable one is `Some(None)`. */
  function Decision(pairs: seq<Pair>, name: string): Option<Option<string>> {
    if pairs == [] then None
    else if pairs[0].0 == name then Some(if Droppable(pairs[0].1) then None else Some(pairs[0].1))
    else Decision(pairs[1..], name)
  }

  /** A repeated allowlist entry is never decided: its first position takes every match. */
  function DecisionAt(pairs: seq<Pair>, allow: seq<string>, i: nat): Option<Option<string>>
    requires i < |allow|
  {
    if allow[i] in allow[..i] then None else Decision(pairs, allow[i])
  }

  predicate HasName(pairs: seq<Pair>, name: string) {
    exists i | 0 <= i < |pairs| :: pairs[i].0 == name
  }

  /** The pair an allowlist entry contributes, if its decided value is usable and `return_to`'s
      own query does not already name it. */
  function Contribution(decided: Option<Option<string>>, name: string, existing: seq<Pair>): seq<Pair> {
    match decided
    case Some(Some(value)) => if HasName(existing, name) then [] else [(name, value)]
    case _ => []
  }

  function Contributions(pairs: seq<Pair>, allow: seq<string>, existing: seq<Pair>): (r: seq<seq<Pair>>)
    ensures |r| == |allow|
  {
    seq(|allow|, i requires 0 <= i < |allow| => Contribution(DecisionAt(pairs, allow, i), allow[i], existing))
  }

  /** The pairs that could be appended, in allowlist order. */
  function Candidates(pairs: seq<Pair>, allow: seq<string>, existing: seq<Pair>): seq<Pair> {
    Flatten(Contributions(pairs, allow, existing))
  }

  /** Whether one more pair fits after the bytes already appended. */
  predicate Fits(used: nat, p: Pair) {
    used + (if used > 0 then 1 else 0) + |SerializePair(p)| <= MAX_PASSTHROUGH_TOTAL_LEN
  }

  /** The candidates the byte budget admits: each is tried in turn, one that does not fit is skipped. */
  function Kept(candidates: seq<Pair>): seq<Pair> {
    if candidates == [] then []
    else
      var (init, last) := (candidates[..|candidates| - 1], candidates[|candidates| - 1]);
      if Fits(|Serialize(Kept(init))|, last) then Kept(init) + [last] else Kept(init)
  }

  /** The pairs forwarded to the application. */
  function Forwarded(returnTo: seq<Byte>, query: seq<Byte>, allow: seq<string>): seq<Pair> {
    Kept(Candidates(Parse(query), allow, Parse(Query(returnTo))))
  }

  predicate HasQuery(target: seq<Byte>) {
    QUESTION in BeforeFragment(target)
  }

  function Splice(returnTo: seq<Byte>, appended: seq<Byte>): seq<Byte> {
    BeforeFragment(returnTo) + [if HasQuery(returnTo) then AMPERSAND else QUESTION] + appended + Fragment(returnTo)
  }

  function Compose(returnTo: seq<Byte>, query: seq<Byte>, allow: seq<string>): seq<Byte> {
    var kept := Forwarded(returnTo, query, allow);
    if kept == [] then returnTo else Splice(returnTo, Serialize(kept))
  }

  // ---- The single pass over the callback's pairs ------------------------------

  lemma {:induction false} DecisionExtends(pairs: seq<Pair>, p: Pair, name: string)
    ensures Decision(pairs + [p], name) ==
            if Decision(pairs, name).Some? || p.0 != name then Decision(pairs, name)
            else Some(if Droppable(p.1) then None else Some(p.1))
  {
    if pairs == [] {
      assert ([] + [p])[1..] == [];
    } else {
      assert (pairs + [p])[1..] == pairs[1..] + [p];
      DecisionExtends(pairs[1..], p, name);
    }
  }

  /** First occurrence decides: a name is forwardable exactly when its first copy is usable.
      A dropped first copy is never revived by a later clean one. */
  lemma {:induction false} FirstOccurrenceDecides(pairs: seq<Pair>, name: string, value: string)
    ensures Decision(pairs, name) == Some(Some(value)) <==>
            !Droppable(value) &&
            exists i | 0 <= i < |pairs| ::
              pairs[i] == (name, value) && forall j | 0 <= j < i :: pairs[j].0 != name
  {
    if pairs != [] {
      FirstOccurrenceDecides(pairs[1..], name, value);
      if pairs[0].0 == name {
        if pairs[0].1 == value {
          assert pairs[0] == (name, value);
        }
      } else if Decision(pairs, name) == Some(Some(value)) {
        var i :| 0 <= i < |pairs[1..]| && pairs[1..][i] == (name, value) &&
                 forall j | 0 <= j < i :: pairs[1..][j].0 != name;
        assert pairs[i + 1] == (name, value) && forall j | 0 <= j < i + 1 :: pairs[j].0 != name;
      } else if exists i | 0 <= i < |pairs| ::
                  pairs[i] == (name, value) && forall j | 0 <= j < i :: pairs[j].0 != name {
        var i :| 0 <= i < |pairs| && pairs[i] == (name, value) && forall j | 0 <= j < i :: pairs[j].0 != name;
        assert pairs[1..][i - 1] == (name, value) && forall j | 0 <= j < i - 1 :: pairs[1..][j].0 != name;
      }
    }
  }

  /** The index of the first allowlist entry equal to `name`. */
  method Position(allow: seq<string>, name: string) returns (idx: Option<nat>)
    ensures idx.None? <==> name !in allow
    ensures idx.Some? ==> idx.value < |allow| && allow[idx.value] == name && name !in allow[..idx.value]
  {
    for i := 0 to |allow|
      invariant name !in allow[..i]
    {
      if allow[i] == name {
        return Some(i);
      }
    }
    assert allow[..|allow|] == allow;
    return None;
  }

  lemma FirstPositionIsUnique(allow: seq<string>, i: nat, j: nat)
    requires i < |allow| && j < |allow| && allow[i] == allow[j]
    requires allow[i] !in allow[..i] && allow[j] !in allow[..j]
    ensures i == j
  {
  }

  /** How one more callback pair changes what is decided about the allowlist entry at `i`. */
  lemma DecisionAtStep(pairs: seq<Pair>, k: nat, allow: seq<string>, i: nat)
    requires k < |pairs| && i < |allow|
    ensures DecisionAt(pairs[..k + 1], allow, i) ==
            var before := DecisionAt(pairs[..k], allow, i);
            if allow[i] in allow[..i] || before.Some? || pairs[k].0 != allow[i] then before
            else Some(if Droppable(pairs[k].1) then None else Some(pairs[k].1))
  {
    assert pairs[..k + 1] == pairs[..k] + [pairs[k]];
    DecisionExtends(pairs[..k], pairs[k], allow[i]);
  }

  /** The single pass: `selected[i]` ends as what the callback's pairs decide about `allow[i]`. */
  method Select(pairs: seq<Pair>, allow: seq<string>) returns (selected: array<Option<Option<string>>>)
    ensures fresh(selected) && selected.Length == |allow|
    ensures forall i | 0 <= i < |allow| :: selected[i] == DecisionAt(pairs, allow, i)
  {
    selected := new Option<Option<string>>[|allow|](_ => None);
    for k := 0 to |pairs|
      invariant forall i | 0 <= i < |allow| :: selected[i] == DecisionAt(pairs[..k], allow, i)
    {
      var (name, value) := pairs[k];
      forall i | 0 <= i < |allow| {
        DecisionAtStep(pairs, k, allow, i);
      }
      var position := Position(allow, name);
      if position.Some? {
        var idx := position.value;
        forall i | 0 <= i < |allow| && allow[i] == name && allow[i] !in allow[..i] {
          FirstPositionIsUnique(allow, i, idx);
        }
        if selected[idx].None? {
          selected[idx] := Some(if Droppable(value) then None else Some(value));
        }
      }
    }
    assert pairs[..|pairs|] == pairs;
  }

  lemma SerializeIsEmpty(pairs: seq<Pair>)
    ensures Serialize(pairs) == [] <==> pairs == []
  {
  }

  lemma KeptExtends(candidates: seq<Pair>, p: Pair)
    ensures Kept(candidates + [p]) ==
            if Fits(|Serialize(Kept(candidates))|, p) then Kept(candidates) + [p] else Kept(candidates)
  {
  }

  lemma SerializeExtends(pairs: seq<Pair>, p: Pair)
    ensures Serialize(pairs + [p]) ==
            (if pairs == [] then [] else Serialize(pairs) + [AMPERSAND]) + SerializePair(p)
  {
  }

  /** Serialize one pair and commit it if it fits the byte budget. */
  method AppendPair(appended: seq<Byte>, p: Pair, ghost kept: seq<Pair>) returns (longer: seq<Byte>)
    requires appended == Serialize(kept)
    ensures longer == Serialize(if Fits(|Serialize(kept)|, p) then kept + [p] else kept)
  {
    SerializeExtends(kept, p);
    SerializeIsEmpty(kept);
    var encoded := SerializePair(p);
    var joiner := if appended == [] then 0 else 1;
    if |appended| + joiner + |encoded| > MAX_PASSTHROUGH_TOTAL_LEN {
      return appended;
    }
    longer := appended;
    if longer != [] {
      longer := longer + [AMPERSAND];
    }
    longer := longer + encoded;
  }

  /** Append what one allowlist entry contributes. */
  method AppendContribution(appended: seq<Byte>, contributed: seq<Pair>, ghost candidates: seq<Pair>)
    returns (longer: seq<Byte>)
    requires |contributed| <= 1
    requires appended == Serialize(Kept(candidates))
    ensures longer == Serialize(Kept(candidates + contributed))
  {
    if contributed == [] {
      assert candidates + contributed == candidates;
      return appended;
    }
    assert contributed == [contributed[0]];
    KeptExtends(candidates, contributed[0]);
    longer := AppendPair(appended, contributed[0], Kept(candidates));
  }

  /** The pass over the allowlist, serializing every candidate that fits. */
  method AppendAll(selected: array<Option<Option<string>>>, allow: seq<string>, existing: seq<Pair>,
                   ghost contributions: seq<seq<Pair>>)
    returns (appended: seq<Byte>)
    requires selected.Length == |allow| == |contributions|
    requires forall i | 0 <= i < |allow| :: contributions[i] == Contribution(selected[i], allow[i], existing)
    ensures appended == Serialize(Kept(Flatten(contributions)))
  {
    appended := [];
    for idx := 0 to |allow|
      invariant appended == Serialize(Kept(Flatten(contributions[..idx])))
    {
      FlattenStep(contributions, idx);
      appended := AppendContribution(appended, Contribution(selected[idx], allow[idx], existing),
                                     Flatten(contributions[..idx]));
    }
    assert contributions[..|allow|] == contributions;
  }

  /** `append_passthrough`. */
  method AppendPassthrough(returnTo: seq<Byte>, query: seq<Byte>, allow: seq<string>) returns (target: seq<Byte>)
    ensures target == Compose(returnTo, query, allow)
  {
    if allow == [] {
      return returnTo;
    }
    var pairs := Parse(query);
    var selected := Select(pairs, allow);
    var appended := AppendAll(selected, allow, Parse(Query(returnTo)),
                              Contributions(pairs, allow, Parse(Query(returnTo))));
    SerializeIsEmpty(Forwarded(returnTo, query, allow));
    return if appended == [] then returnTo else Splice(returnTo, appended);
  }
}

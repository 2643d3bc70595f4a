/** What the passthrough guarantees: the application's own URL keeps its meaning, the byte
    budget is used greedily, and the final redirect guard never has anything to refuse. */
module RedirectTheorems {
  import opened Wrappers
  import opened Utf8
  import opened FormUrlencoded
  import opened Redirect
  import opened Sequences
  import ParamNames
  import Config

  // ---- The budget ------------------------------------------------------------

  /** A pair whose name the configuration accepts and whose value is not droppable. */
  predicate Forwardable(p: Pair) {
    Config.NameProblem(p.0).None? && !Droppable(p.1)
  }

  /** 64 + 1 + 3 * 256 bytes at most. */
  lemma ForwardablePairSize(p: Pair)
    requires Forwardable(p)
    ensures |SerializePair(p)| <= ParamNames.MAX_PARAM_NAME_LEN + 1 + 3 * MAX_PASSTHROUGH_VALUE_LEN
  {
    ParamNames.AcceptedNameNeedsNoEscaping(p.0, ParamNames.DENIED_PASSTHROUGH_PARAMS);
    SerializeBytesIsSafe(Encode(p.1));
  }

  lemma FittingPairSize(kept: seq<Pair>, p: Pair)
    requires Fits(|Serialize(kept)|, p)
    ensures |Serialize(kept + [p])| <= MAX_PASSTHROUGH_TOTAL_LEN
  {
    SerializeExtends(kept, p);
    SerializeIsEmpty(kept);
  }

  lemma OneMoreWithinBudget(candidates: seq<Pair>, p: Pair)
    requires |Serialize(Kept(candidates))| <= MAX_PASSTHROUGH_TOTAL_LEN
    ensures |Serialize(Kept(candidates + [p]))| <= MAX_PASSTHROUGH_TOTAL_LEN
  {
    KeptExtends(candidates, p);
    if Fits(|Serialize(Kept(candidates))|, p) {
      FittingPairSize(Kept(candidates), p);
    }
  }

  lemma {:induction false} KeptWithinBudget(candidates: seq<Pair>)
    ensures |Serialize(Kept(candidates))| <= MAX_PASSTHROUGH_TOTAL_LEN
  {
    if candidates != [] {
      var (init, last) := (candidates[..|candidates| - 1], candidates[|candidates| - 1]);
      assert candidates == init + [last];
      KeptWithinBudget(init);
      OneMoreWithinBudget(init, last);
    }
  }

  lemma KeptGrows(candidates: seq<Pair>, p: Pair)
    ensures |Serialize(Kept(candidates))| <= |Serialize(Kept(candidates + [p]))|
    ensures Kept(candidates) <= Kept(candidates + [p])
  {
    KeptExtends(candidates, p);
    SerializeExtends(Kept(candidates), p);
  }

  /** Greedy to the end: a candidate left out for size would still not fit beside
      everything that was kept after it. */
  lemma {:induction false} SkippedWouldStillNotFit(candidates: seq<Pair>, p: Pair)
    requires p in candidates && p !in Kept(candidates)
    ensures !Fits(|Serialize(Kept(candidates))|, p)
  {
    var (init, last) := (candidates[..|candidates| - 1], candidates[|candidates| - 1]);
    assert candidates == init + [last];
    KeptExtends(init, last);
    KeptGrows(init, last);
    if p in init {
      assert p !in Kept(init);
      SkippedWouldStillNotFit(init, p);
    }
  }

  /** The first candidate is always kept, so one fat value cannot shut out everything. */
  lemma {:induction false} FirstCandidateIsKept(candidates: seq<Pair>)
    requires candidates != [] && Forwardable(candidates[0])
    ensures Kept(candidates) != [] && Kept(candidates)[0] == candidates[0]
  {
    var (init, last) := (candidates[..|candidates| - 1], candidates[|candidates| - 1]);
    assert candidates == init + [last];
    KeptExtends(init, last);
    if init == [] {
      ForwardablePairSize(last);
    } else {
      FirstCandidateIsKept(init);
    }
  }

  // ---- What is forwarded -----------------------------------------------------

  lemma {:induction false} KeptIsSubsequence(candidates: seq<Pair>)
    ensures Subsequence(Kept(candidates), candidates)
  {
    if candidates != [] {
      var (init, last) := (candidates[..|candidates| - 1], candidates[|candidates| - 1]);
      assert candidates == init + [last];
      KeptExtends(init, last);
      KeptIsSubsequence(init);
      assert (Kept(init) + [last])[..|Kept(init)|] == Kept(init);
    }
  }

  lemma NamesConcat(a: seq<Pair>, b: seq<Pair>)
    ensures Firsts(a + b) == Firsts(a) + Firsts(b)
  {
  }

  lemma {:induction false} SubsequenceNames(sub: seq<Pair>, ps: seq<Pair>)
    requires Subsequence(sub, ps)
    ensures Subsequence(Firsts(sub), Firsts(ps))
  {
    if sub != [] {
      var ps' := ps[..|ps| - 1];
      var p := ps[|ps| - 1];
      assert Firsts(ps) == Firsts(ps') + [p.0];
      if Subsequence(sub, ps') {
        SubsequenceNames(sub, ps');
        SubsequenceSkips(Firsts(sub), Firsts(ps'), p.0);
      } else {
        SubsequenceNames(sub[..|sub| - 1], ps');
        SubsequenceSkips(Firsts(sub[..|sub| - 1]), Firsts(ps'), p.0);
        assert Firsts(sub) == Firsts(sub[..|sub| - 1]) + [p.0];
      }
    }
  }

  /** The pair carries what the callback decided about a name `return_to` does not use. */
  ghost predicate Genuine(p: Pair, pairs: seq<Pair>, existing: seq<Pair>) {
    Decision(pairs, p.0) == Some(Some(p.1)) && !HasName(existing, p.0)
  }

  /** What one allowlist entry may contribute. */
  ghost predicate Contributes(c: seq<Pair>, name: string, pairs: seq<Pair>, existing: seq<Pair>) {
    c == [] || (|c| == 1 && c[0].0 == name && Genuine(c[0], pairs, existing))
  }

  lemma {:induction false} CandidatesFollowAllowlist(contributions: seq<seq<Pair>>, allow: seq<string>,
                                                     pairs: seq<Pair>, existing: seq<Pair>)
    requires |contributions| == |allow|
    requires forall i | 0 <= i < |allow| :: Contributes(contributions[i], allow[i], pairs, existing)
    ensures Subsequence(Firsts(Flatten(contributions)), allow)
    ensures forall p | p in Flatten(contributions) :: Genuine(p, pairs, existing)
  {
    if allow != [] {
      var n := |allow| - 1;
      CandidatesFollowAllowlist(contributions[..n], allow[..n], pairs, existing);
      assert allow == allow[..n] + [allow[n]];
      SubsequenceSkips(Firsts(Flatten(contributions[..n])), allow[..n], allow[n]);
      NamesConcat(Flatten(contributions[..n]), contributions[n]);
      if contributions[n] == [] {
        assert Flatten(contributions) == Flatten(contributions[..n]);
      } else {
        assert Firsts(contributions[n]) == [allow[n]];
      }
    }
  }

  lemma ContributionContributes(pairs: seq<Pair>, allow: seq<string>, existing: seq<Pair>, i: nat)
    requires i < |allow|
    ensures Contributes(Contributions(pairs, allow, existing)[i], allow[i], pairs, existing)
  {
  }

  lemma CandidatesAreGenuine(pairs: seq<Pair>, allow: seq<string>, existing: seq<Pair>)
    ensures var candidates := Candidates(pairs, allow, existing);
            Subsequence(Firsts(candidates), allow) &&
            forall p | p in candidates :: Genuine(p, pairs, existing)
  {
    var contributions := Contributions(pairs, allow, existing);
    forall i | 0 <= i < |allow|
      ensures Contributes(contributions[i], allow[i], pairs, existing)
    {
      ContributionContributes(pairs, allow, existing, i);
    }
    CandidatesFollowAllowlist(contributions, allow, pairs, existing);
  }

  /** Every forwarded pair carries the first usable value the callback gave an allowlisted
      name; the pairs come in allowlist order, and no name is among `return_to`'s own. */
  lemma ForwardedPairsAreGenuine(returnTo: seq<Byte>, query: seq<Byte>, allow: seq<string>)
    ensures var kept := Forwarded(returnTo, query, allow);
            Subsequence(Firsts(kept), allow) &&
            forall p | p in kept :: Genuine(p, Parse(query), Parse(Query(returnTo)))
  {
    var candidates := Candidates(Parse(query), allow, Parse(Query(returnTo)));
    CandidatesAreGenuine(Parse(query), allow, Parse(Query(returnTo)));
    KeptIsSubsequence(candidates);
    SubsequenceElements(Kept(candidates), candidates);
    SubsequenceNames(Kept(candidates), candidates);
    SubsequenceOfSubsequence(Firsts(Kept(candidates)), Firsts(candidates), allow);
  }

  /** At most 256 bytes, no C0 control, DEL or C1 control, and no replacement character. */
  predicate Usable(value: string) {
    |Encode(value)| <= 256 &&
    forall c | c in value :: !(c as int <= 0x1F || 0x7F <= c as int <= 0x9F) && c != '\U{FFFD}'
  }

  lemma UsableIsKept(value: string)
    ensures Droppable(value) <==> !Usable(value)
  {
  }

  /** The first pair of that name carries this value. */
  predicate FirstGiven(pairs: seq<Pair>, name: string, value: string) {
    exists i | 0 <= i < |pairs| :: pairs[i] == (name, value) && forall j | 0 <= j < i :: pairs[j].0 != name
  }

  /** The callback's query offers this pair to the application: the name is allowlisted and not one of
      `return_to`'s own, and its first value is usable. */
  predicate Offered(returnTo: seq<Byte>, query: seq<Byte>, allow: seq<string>, name: string, value: string) {
    name in allow && Usable(value) && FirstGiven(Parse(query), name, value) &&
    forall p | p in Parse(Query(returnTo)) :: p.0 != name
  }

  lemma AbsentName(pairs: seq<Pair>, name: string)
    ensures HasName(pairs, name) <==> exists p | p in pairs :: p.0 == name
  {
  }

  lemma DecisionIsUsable(pairs: seq<Pair>, name: string, value: string)
    ensures Decision(pairs, name) == Some(Some(value)) <==> Usable(value) && FirstGiven(pairs, name, value)
  {
    FirstOccurrenceDecides(pairs, name, value);
    UsableIsKept(value);
  }

  lemma ContributionIs(pairs: seq<Pair>, existing: seq<Pair>, allow: seq<string>, i: nat, value: string)
    requires i < |allow| && allow[i] !in allow[..i]
    ensures Contributions(pairs, allow, existing)[i] == [(allow[i], value)] <==>
            Decision(pairs, allow[i]) == Some(Some(value)) && !HasName(existing, allow[i])
  {
    assert Contributions(pairs, allow, existing)[i] == Contribution(Decision(pairs, allow[i]), allow[i], existing);
  }

  lemma ContributedIsOffered(returnTo: seq<Byte>, query: seq<Byte>, allow: seq<string>, i: nat, value: string)
    requires i < |allow| && NoRepeats(allow)
    ensures Contributions(Parse(query), allow, Parse(Query(returnTo)))[i] == [(allow[i], value)] <==>
            Offered(returnTo, query, allow, allow[i], value)
  {
    ContributionIs(Parse(query), Parse(Query(returnTo)), allow, i, value);
    DecisionIsUsable(Parse(query), allow[i], value);
    AbsentName(Parse(Query(returnTo)), allow[i]);
  }

  lemma ContributionsPrefix(pairs: seq<Pair>, allow: seq<string>, existing: seq<Pair>, n: nat)
    requires n <= |allow|
    ensures Contributions(pairs, allow[..n], existing) == Contributions(pairs, allow, existing)[..n]
  {
    assert forall i | 0 <= i < n :: allow[..n][..i] == allow[..i];
  }

  lemma ForwardedExtends(returnTo: seq<Byte>, query: seq<Byte>, allow: seq<string>, n: nat)
    requires n < |allow|
    ensures Candidates(Parse(query), allow[..n + 1], Parse(Query(returnTo))) ==
            Candidates(Parse(query), allow[..n], Parse(Query(returnTo))) +
            Contributions(Parse(query), allow, Parse(Query(returnTo)))[n]
  {
    var contributions := Contributions(Parse(query), allow, Parse(Query(returnTo)));
    ContributionsPrefix(Parse(query), allow, Parse(Query(returnTo)), n);
    ContributionsPrefix(Parse(query), allow, Parse(Query(returnTo)), n + 1);
    FlattenStep(contributions, n);
  }

  /** Whether this pair, a `&` before it if it is not the first, stays within 1024 bytes. */
  predicate HasRoom(earlier: seq<Pair>, p: Pair) {
    |Serialize(earlier)| + (if earlier == [] then 0 else 1) + |SerializePair(p)| <= 1024
  }

  /** What is forwarded, name by name: nothing for an empty list; and one more name adds the pair the
      query offers for it, if it has room beside those before it, and otherwise nothing. */
  lemma ForwardedExactly(returnTo: seq<Byte>, query: seq<Byte>, allow: seq<string>, n: nat)
    requires NoRepeats(allow) && n < |allow|
    ensures Forwarded(returnTo, query, []) == []
    ensures var earlier := Forwarded(returnTo, query, allow[..n]);
            var kept := Forwarded(returnTo, query, allow[..n + 1]);
            (forall value | Offered(returnTo, query, allow, allow[n], value) ::
               kept == if HasRoom(earlier, (allow[n], value)) then earlier + [(allow[n], value)] else earlier) &&
            ((forall value :: !Offered(returnTo, query, allow, allow[n], value)) ==> kept == earlier)
  {
    var candidates := Candidates(Parse(query), allow[..n], Parse(Query(returnTo)));
    var contributed := Contributions(Parse(query), allow, Parse(Query(returnTo)))[n];
    ForwardedExtends(returnTo, query, allow, n);
    forall value {
      ContributedIsOffered(returnTo, query, allow, n, value);
    }
    SerializeIsEmpty(Kept(candidates));
    if contributed == [] {
      assert candidates + contributed == candidates;
    } else {
      KeptExtends(candidates, contributed[0]);
    }
  }

  lemma {:induction false} FlattenHolds<T>(ss: seq<seq<T>>, i: nat, x: T)
    requires i < |ss| && x in ss[i]
    ensures x in Flatten(ss)
  {
    if i < |ss| - 1 {
      FlattenHolds(ss[..|ss| - 1], i, x);
    }
  }

  lemma OfferedIsCandidate(returnTo: seq<Byte>, query: seq<Byte>, allow: seq<string>, name: string, value: string)
    requires NoRepeats(allow) && Offered(returnTo, query, allow, name, value)
    ensures (name, value) in Candidates(Parse(query), allow, Parse(Query(returnTo)))
  {
    var i :| 0 <= i < |allow| && allow[i] == name;
    ContributedIsOffered(returnTo, query, allow, i, value);
    FlattenHolds(Contributions(Parse(query), allow, Parse(Query(returnTo))), i, (name, value));
  }

  lemma NamesOf(pairs: seq<Pair>, allow: seq<string>, p: Pair)
    requires Subsequence(Firsts(pairs), allow) && p in pairs
    ensures p.0 in allow
  {
    SubsequenceElements(Firsts(pairs), allow);
    var i :| 0 <= i < |pairs| && pairs[i] == p;
    assert Firsts(pairs)[i] == p.0;
  }

  /** The byte budget is never exceeded and never wasted: if anything could be forwarded the
      first such pair is, and whatever was left out for size would still not fit. */
  lemma BudgetIsUsedGreedily(returnTo: seq<Byte>, query: seq<Byte>, allow: seq<string>)
    requires Config.AcceptedAllowlist(allow)
    ensures var candidates := Candidates(Parse(query), allow, Parse(Query(returnTo)));
            var kept := Forwarded(returnTo, query, allow);
            |Serialize(kept)| <= MAX_PASSTHROUGH_TOTAL_LEN &&
            (candidates != [] ==> kept != [] && kept[0] == candidates[0]) &&
            forall p | p in candidates && p !in kept :: !Fits(|Serialize(kept)|, p)
  {
    var candidates := Candidates(Parse(query), allow, Parse(Query(returnTo)));
    CandidatesAreGenuine(Parse(query), allow, Parse(Query(returnTo)));
    KeptWithinBudget(candidates);
    if candidates != [] {
      var first := candidates[0];
      assert Genuine(first, Parse(query), Parse(Query(returnTo)));
      FirstOccurrenceDecides(Parse(query), first.0, first.1);
      NamesOf(candidates, allow, first);
      FirstCandidateIsKept(candidates);
    }
    forall p | p in candidates && p !in Kept(candidates) {
      SkippedWouldStillNotFit(candidates, p);
    }
  }

  /** A forwarded value reaches the application as the very bytes the provider sent: what
      its re-encoded form decodes to is what the original segment decoded to. */
  lemma ForwardedBytesAreExact(segment: seq<Byte>)
    requires !Droppable(DecodeText(segment))
    ensures RawBytes(SerializeBytes(Encode(DecodeText(segment)))) == RawBytes(segment)
  {
    NoReplacementMeansUnaltered(RawBytes(segment));
    SerializedBytesDecode(RawBytes(segment));
  }

  // ---- The splice ------------------------------------------------------------

  lemma IndexOfSplit(head: seq<Byte>, tail: seq<Byte>, b: Byte)
    requires b !in head && (tail == [] || tail[0] == b)
    ensures IndexOf(head + tail, b) == |head|
  {
    if tail == [] {
      assert head + tail == head;
      IndexOfIsFirst(head, b);
    } else {
      assert head + tail == head + [b] + tail[1..];
      IndexOfConcat(head, b, tail[1..]);
    }
  }

  lemma FragmentSplits(target: seq<Byte>)
    ensures target == BeforeFragment(target) + Fragment(target)
    ensures HASH !in BeforeFragment(target)
    ensures Fragment(target) == [] || Fragment(target)[0] == HASH
  {
    IndexOfIsFirst(target, HASH);
  }

  lemma FragmentOf(target: seq<Byte>, before: seq<Byte>, fragment: seq<Byte>)
    requires target == before + fragment
    requires HASH !in before && (fragment == [] || fragment[0] == HASH)
    ensures BeforeFragment(target) == before && Fragment(target) == fragment
  {
    IndexOfSplit(before, fragment, HASH);
  }

  lemma QueryOf(before: seq<Byte>, path: seq<Byte>, query: seq<Byte>)
    requires before == path + [QUESTION] + query && QUESTION !in path
    ensures IndexOf(before, QUESTION) == |path|
    ensures before[..|path|] == path && After(before, |path|) == query
  {
    IndexOfConcat(path, QUESTION, query);
  }

  lemma NoQueryIn(before: seq<Byte>)
    requires QUESTION !in before
    ensures IndexOf(before, QUESTION) == |before| && before[..|before|] == before
  {
  }

  lemma QuerySplits(before: seq<Byte>) returns (path: seq<Byte>, query: seq<Byte>)
    requires QUESTION in before
    ensures before == path + [QUESTION] + query && QUESTION !in path
  {
    var i := IndexOf(before, QUESTION);
    IndexOfIsFirst(before, QUESTION);
    assert i < |before| by {
      assert before[..|before|] == before;
    }
    return before[..i], before[i + 1..];
  }

  /** Bytes the serialized pairs are made of. */
  predicate PairBytes(bs: seq<Byte>) {
    forall b | b in bs :: IsPlain(b) || b == PERCENT || b == PLUS || b == EQUALS || b == AMPERSAND
  }

  lemma {:induction false} SerializedPairBytes(pairs: seq<Pair>)
    ensures PairBytes(Serialize(pairs))
  {
    if pairs != [] {
      var (init, last) := (pairs[..|pairs| - 1], pairs[|pairs| - 1]);
      SerializeBytesIsSafe(Encode(last.0));
      SerializeBytesIsSafe(Encode(last.1));
      assert PairBytes(SerializePair(last));
      if init != [] {
        SerializedPairBytes(init);
      }
    }
  }

  lemma SpliceParts(returnTo: seq<Byte>, appended: seq<Byte>)
    requires PairBytes(appended)
    ensures var target := Splice(returnTo, appended);
            Fragment(target) == Fragment(returnTo) &&
            BeforeFragment(target) ==
              BeforeFragment(returnTo) + [if HasQuery(returnTo) then AMPERSAND else QUESTION] + appended
  {
    var before := BeforeFragment(returnTo) + [if HasQuery(returnTo) then AMPERSAND else QUESTION] + appended;
    FragmentSplits(returnTo);
    FragmentOf(Splice(returnTo, appended), before, Fragment(returnTo));
  }

  lemma SpliceQuery(returnTo: seq<Byte>, appended: seq<Byte>)
    requires PairBytes(appended)
    ensures var target := Splice(returnTo, appended);
            Path(target) == Path(returnTo) &&
            Parse(Query(target)) == Parse(Query(returnTo)) + Parse(appended)
  {
    SpliceParts(returnTo, appended);
    var before := BeforeFragment(returnTo);
    if HasQuery(returnTo) {
      var path, query := QuerySplits(before);
      QueryOf(before, path, query);
      var joined := query + [AMPERSAND] + appended;
      assert before + [AMPERSAND] + appended == path + [QUESTION] + joined;
      QueryOf(before + [AMPERSAND] + appended, path, joined);
      ParseConcat(query, appended);
    } else {
      NoQueryIn(before);
      QueryOf(before + [QUESTION] + appended, before, appended);
    }
  }

  /** The splice preserves meaning: same path, same fragment, and the parsed query is the old
      parsed query followed by exactly the forwarded pairs, decoded values unchanged. */
  lemma PassthroughPreservesMeaning(returnTo: seq<Byte>, query: seq<Byte>, allow: seq<string>)
    ensures var target := Compose(returnTo, query, allow);
            Path(target) == Path(returnTo) &&
            Fragment(target) == Fragment(returnTo) &&
            Parse(Query(target)) == Parse(Query(returnTo)) + Forwarded(returnTo, query, allow)
  {
    var kept := Forwarded(returnTo, query, allow);
    SerializedPairBytes(kept);
    SpliceParts(returnTo, Serialize(kept));
    SpliceQuery(returnTo, Serialize(kept));
    ParseSerialize(kept);
  }

  /** No parameter pollution: every appended name differs from every other name in the
      resulting query, appended or already there. */
  lemma AppendedNamesAreUnique(returnTo: seq<Byte>, query: seq<Byte>, allow: seq<string>)
    requires Config.AcceptedAllowlist(allow)
    ensures NoRepeats(Firsts(Forwarded(returnTo, query, allow)))
    ensures forall p | p in Forwarded(returnTo, query, allow) ::
              Config.NameProblem(p.0).None? && !HasName(Parse(Query(returnTo)), p.0)
  {
    var kept := Forwarded(returnTo, query, allow);
    ForwardedPairsAreGenuine(returnTo, query, allow);
    SubsequenceNoRepeats(Firsts(kept), allow);
    forall p | p in kept
      ensures p.0 in allow
    {
      NamesOf(kept, allow, p);
    }
  }

  /** Where the fragment begins, or the end. */
  predicate FragmentAt(target: seq<Byte>, k: nat) {
    k <= |target| && HASH !in target[..k] && (k < |target| ==> target[k] == HASH)
  }

  /** Not a byte of `return_to` is changed: it is either left as it is or split where its fragment
      begins, with `&` or `?` and the forwarded pairs between. */
  lemma BytesAreKept(returnTo: seq<Byte>, query: seq<Byte>, allow: seq<string>, k: nat)
    requires FragmentAt(returnTo, k)
    ensures var (target, kept) := (Compose(returnTo, query, allow), Forwarded(returnTo, query, allow));
            if kept == [] then target == returnTo
            else target == returnTo[..k] + (if QUESTION in returnTo[..k] then [AMPERSAND] else [QUESTION]) +
                           Serialize(kept) + returnTo[k..]
  {
    FragmentOf(returnTo, returnTo[..k], returnTo[k..]);
  }

  /** A target is its path, its query behind a `?` if it has one, and its fragment; a `?` in the
      fragment starts no query. */
  lemma PartsOfTarget(target: seq<Byte>)
    ensures target == Path(target) + (if HasQuery(target) then [QUESTION] + Query(target) else []) + Fragment(target)
    ensures HASH !in Path(target) && QUESTION !in Path(target) && HASH !in Query(target)
    ensures Fragment(target) == [] || Fragment(target)[0] == HASH
    ensures !HasQuery(target) ==> Query(target) == []
  {
    FragmentSplits(target);
    var before := BeforeFragment(target);
    if HasQuery(target) {
      var path, query := QuerySplits(before);
      QueryOf(before, path, query);
      assert forall b | b in path || b in query :: b in before;
    } else {
      NoQueryIn(before);
      IndexOfIsFirst(before, QUESTION);
    }
  }

  /** A parameter reaches the application exactly when the callback offers it, or finds no room: what
      arrives was offered; and what was offered arrives, decoded from the final target's query,
      unless its encoding and what was appended exceed 1024 bytes together. */
  lemma OfferedIsForwarded(returnTo: seq<Byte>, query: seq<Byte>, allow: seq<string>, name: string, value: string)
    requires Config.AcceptedAllowlist(allow)
    ensures var (target, kept) := (Compose(returnTo, query, allow), Forwarded(returnTo, query, allow));
            ((name, value) in kept ==> Offered(returnTo, query, allow, name, value)) &&
            (Offered(returnTo, query, allow, name, value) && (name, value) !in Parse(Query(target)) ==>
               |target| - |returnTo| + |SerializePair((name, value))| > 1024)
  {
    var (target, kept) := (Compose(returnTo, query, allow), Forwarded(returnTo, query, allow));
    ForwardedPairsAreGenuine(returnTo, query, allow);
    PassthroughPreservesMeaning(returnTo, query, allow);
    FirstOccurrenceDecides(Parse(query), name, value);
    UsableIsKept(value);
    if (name, value) in kept {
      NamesOf(kept, allow, (name, value));
    } else if Offered(returnTo, query, allow, name, value) {
      OfferedIsCandidate(returnTo, query, allow, name, value);
      BudgetIsUsedGreedily(returnTo, query, allow);
      FragmentSplits(returnTo);
    }
  }

  // ---- What a target may be -----------------------------------------------------

  /** No `//`, no `:/`, no backslash, nothing but printable ASCII, and a `/` in front. */
  predicate Harmless(bs: seq<Byte>) {
    bs != [] && bs[0] == '/' as int &&
    (forall i | 0 <= i < |bs| :: 0x20 <= bs[i] < 0x7F && bs[i] != '\\' as int) &&
    forall i | 0 < i < |bs| && bs[i] == '/' as int :: bs[i - 1] != '/' as int && bs[i - 1] != ':' as int
  }

  /** A target is accepted exactly when it is harmless, at most 512 bytes long, and either the prefix
      or something below it, across a `/` that ends the prefix or begins what follows. */
  lemma AcceptedExactlyWhen(target: seq<Byte>, prefix: seq<Byte>)
    ensures ValidReturnTo(target, prefix) <==>
            Harmless(target) && |target| <= 512 &&
            (target == prefix ||
             exists rest | target == prefix + rest ::
               (prefix != [] && prefix[|prefix| - 1] == '/' as int) || (rest != [] && rest[0] == '/' as int))
    ensures SafeComposed(target) <==> Harmless(target) && |target| <= 2048
  {
    HarmlessExactly(target);
    if prefix <= target {
      assert target == prefix + target[|prefix|..];
    }
  }

  lemma HarmlessExactly(bs: seq<Byte>)
    ensures StaysOnHost(bs) <==> Harmless(bs)
  {
    if Harmless(bs) {
      assert forall b | b in bs :: 0x20 <= b <= 0x7E && b != BACKSLASH;
    }
    if StaysOnHost(bs) {
      assert forall i | 0 <= i < |bs| :: bs[i] in bs;
    }
  }

  /** What a browser makes of a `Location` before resolving it (section 4.4 of the WHATWG URL
      Standard): leading controls and spaces go, and so does every tab and newline. */
  function Trimmed(bs: seq<Byte>): seq<Byte> {
    if bs != [] && bs[0] <= 0x20 then Trimmed(bs[1..]) else bs
  }

  function WithoutBreaks(bs: seq<Byte>): seq<Byte> {
    if bs == [] then []
    else (if bs[0] in {0x09, 0x0A, 0x0D} then [] else [bs[0]]) + WithoutBreaks(bs[1..])
  }

  /** It names a host of its own: a scheme, or two slashes of either kind. */
  predicate LeavesHost(bs: seq<Byte>) {
    var seen := WithoutBreaks(Trimmed(bs));
    (seen != [] && ('a' as int <= seen[0] <= 'z' as int || 'A' as int <= seen[0] <= 'Z' as int) && COLON in seen) ||
    (|seen| >= 2 && seen[0] in {SLASH, BACKSLASH} && seen[1] in {SLASH, BACKSLASH})
  }

  lemma {:induction false} NothingToRemove(bs: seq<Byte>)
    requires forall b | b in bs :: b >= 0x20
    ensures WithoutBreaks(bs) == bs
  {
    if bs != [] {
      assert bs == [bs[0]] + bs[1..] && bs[0] in bs && forall b | b in bs[1..] :: b in bs;
      NothingToRemove(bs[1..]);
    }
  }

  /** No accepted target and no composed redirect takes the browser to another host. */
  lemma HarmlessKeepsHost(bs: seq<Byte>)
    requires StaysOnHost(bs)
    ensures !LeavesHost(bs)
  {
    NothingToRemove(bs);
    HarmlessExactly(bs);
  }

  // ---- The guard -------------------------------------------------------------

  lemma JoinsAreSafe(before: seq<Byte>, middle: seq<Byte>, fragment: seq<Byte>)
    requires StaysOnHost(before + fragment) && before != []
    requires middle != [] && (fragment == [] || fragment[0] == HASH)
    requires forall b | b in middle :: 0x20 <= b <= 0x7E && b != SLASH && b != BACKSLASH && b != COLON
    ensures StaysOnHost(before + middle + fragment)
  {
    var (original, whole) := (before + fragment, before + middle + fragment);
    var start := |before| + |middle|;
    assert forall k | |before| <= k < start :: whole[k] == middle[k - |before|] && whole[k] in middle;
    forall i | 0 < i < |whole| && whole[i] == SLASH
      ensures whole[i - 1] != SLASH && whole[i - 1] != COLON
    {
      if i < |before| {
        assert original[i] == whole[i] && original[i - 1] == whole[i - 1];
      } else {
        assert i > start && fragment[i - start] == whole[i];
        assert original[i - |middle|] == whole[i] && original[i - |middle| - 1] == whole[i - 1];
      }
    }
    assert forall b | b in before :: b in original;
    assert forall b | b in fragment :: b in original;
    assert whole[0] == original[0];
  }

  lemma SpliceStaysOnHost(returnTo: seq<Byte>, appended: seq<Byte>)
    requires StaysOnHost(returnTo) && PairBytes(appended)
    ensures StaysOnHost(Splice(returnTo, appended))
    ensures |Splice(returnTo, appended)| == |returnTo| + 1 + |appended|
  {
    var (before, fragment) := (BeforeFragment(returnTo), Fragment(returnTo));
    var middle := [if HasQuery(returnTo) then AMPERSAND else QUESTION] + appended;
    FragmentSplits(returnTo);
    assert IndexOf(returnTo, HASH) > 0;
    JoinsAreSafe(before, middle, fragment);
    assert Splice(returnTo, appended) == before + middle + fragment;
  }

  /** The final guard never trips: a validated `return_to` composes to a safe target of at
      most 512 + 1 + 1024 bytes, whatever the query and the allowlist. */
  lemma GuardNeverTrips(returnTo: seq<Byte>, prefix: seq<Byte>, query: seq<Byte>, allow: seq<string>)
    requires ValidReturnTo(returnTo, prefix)
    ensures SafeComposed(Compose(returnTo, query, allow))
    ensures |Compose(returnTo, query, allow)| <= MAX_RETURN_TO_LEN + 1 + MAX_PASSTHROUGH_TOTAL_LEN
  {
    var kept := Forwarded(returnTo, query, allow);
    if kept != [] {
      SerializedPairBytes(kept);
      KeptWithinBudget(Candidates(Parse(query), allow, Parse(Query(returnTo))));
      SpliceStaysOnHost(returnTo, Serialize(kept));
    }
  }

  /** The end of the callback: the composed target, or the configured prefix if the guard
      refuses it. */
  function Location(returnTo: seq<Byte>, prefix: seq<Byte>, query: seq<Byte>, allow: seq<string>): seq<Byte> {
    var target := if allow == [] then returnTo else Compose(returnTo, query, allow);
    if SafeComposed(target) then target else prefix
  }

  /** The empty-allowlist shortcut and the guard's fallback change nothing: every validated
      login is redirected to the composed target. */
  lemma LocationIsComposed(returnTo: seq<Byte>, prefix: seq<Byte>, query: seq<Byte>, allow: seq<string>)
    requires ValidReturnTo(returnTo, prefix)
    ensures Location(returnTo, prefix, query, allow) == Compose(returnTo, query, allow)
  {
    GuardNeverTrips(returnTo, prefix, query, allow);
    if allow == [] {
      assert Contributions(Parse(query), allow, Parse(Query(returnTo))) == [];
    }
  }

  /** A prefix the builder accepts is itself a valid `return_to`, and validation under it
      keeps every target on a path-segment boundary below it. */
  lemma AcceptedStaysBelowPrefix(target: seq<Byte>, prefix: seq<Byte>)
    requires ValidReturnTo(prefix, prefix) && ValidReturnTo(target, prefix) && target != prefix
    ensures prefix < target
    ensures prefix[|prefix| - 1] == SLASH <==> target[|prefix|] != SLASH
  {
  }
}

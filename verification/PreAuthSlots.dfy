/** The pre-auth slot list: one slot per login attempt still waiting for its callback. */
module PreAuthSlots {
  import opened Wrappers
  import opened Clock
  import opened Sequences
  import opened SessionState

  type Slots = seq<PreAuthEntry>

  // ---- The three list operations ----------------------------------------------

  predicate Unexpired(e: PreAuthEntry, now: int, ttl: int) {
    var age := Saturate(now - e.startedAt);
    0 <= age <= ttl
  }

  /** Between the login and the TTL after it, both included. */
  predicate Timely(e: PreAuthEntry, now: int, ttl: int) {
    e.startedAt <= now <= e.startedAt + ttl
  }

  /** Saturation changes no verdict below `i64::MAX`, whatever the two times. */
  lemma UnexpiredExactly(e: PreAuthEntry, now: int, ttl: int)
    requires 0 <= ttl < I64_MAX
    ensures Unexpired(e, now, ttl) <==> Timely(e, now, ttl)
  {
  }

  /** `prune_expired`. */
  function Pruned(entries: Slots, now: int, ttl: int): Slots {
    if entries == [] then []
    else
      var earlier := Pruned(entries[..|entries| - 1], now, ttl);
      var last := entries[|entries| - 1];
      if Unexpired(last, now, ttl) then earlier + [last] else earlier
  }

  /** What pushing leaves: the newest slots the cap has room for, and the new one. */
  function Pushed(entries: Slots, new_: PreAuthEntry): Slots {
    entries[Max(0, |entries| - (PRE_AUTH_MAX_SLOTS - 1))..] + [new_]
  }

  /** The index of the first entry with this state, or the length. */
  function FirstMatch(entries: Slots, state: string): (i: nat)
    ensures i <= |entries|
  {
    if entries == [] || entries[0].state == state then 0 else 1 + FirstMatch(entries[1..], state)
  }

  /** What taking a state yields: the first entry carrying it, and all the others in order. */
  function Taken(entries: Slots, state: string): (Option<PreAuthEntry>, Slots) {
    var i := FirstMatch(entries, state);
    if i < |entries| then (Some(entries[i]), entries[..i] + entries[i + 1..]) else (None, entries)
  }

  /** `push_pre_auth`. */
  method PushPreAuth(entries: Slots, new_: PreAuthEntry) returns (r: Slots)
    ensures r == Pushed(entries, new_)
  {
    r := entries;
    while |r| >= PRE_AUTH_MAX_SLOTS
      invariant |r| <= |entries| && r == entries[|entries| - |r|..]
      invariant |entries| >= PRE_AUTH_MAX_SLOTS ==> |r| >= PRE_AUTH_MAX_SLOTS - 1
      invariant |entries| < PRE_AUTH_MAX_SLOTS ==> r == entries
    {
      r := r[1..];
    }
    r := r + [new_];
  }

  lemma {:induction false} FirstMatchIsFirst(entries: Slots, state: string)
    ensures var i := FirstMatch(entries, state);
            (forall j | 0 <= j < i :: entries[j].state != state) && (i < |entries| ==> entries[i].state == state)
  {
    if entries != [] && entries[0].state != state {
      FirstMatchIsFirst(entries[1..], state);
      assert forall j | 0 < j < |entries| :: entries[j] == entries[1..][j - 1];
    }
  }

  lemma FirstMatchIs(entries: Slots, state: string, i: nat)
    requires i <= |entries| && forall j | 0 <= j < i :: entries[j].state != state
    requires i < |entries| ==> entries[i].state == state
    ensures FirstMatch(entries, state) == i
  {
    FirstMatchIsFirst(entries, state);
  }

  method SameState(a: string, b: string) returns (same: bool)
    ensures same <==> a == b
  {
    ConstantTimeEqIsEquality(a, b);
    same := ConstantTimeEq(a, b);
  }

  /** `take_matching`: every entry is compared, and the first match is split from the rest. */
  method TakeMatching(entries: Slots, state: string) returns (matched: Option<PreAuthEntry>, rest: Slots)
    ensures (matched, rest) == Taken(entries, state)
  {
    matched, rest := None, [];
    ghost var at := 0;
    for k := 0 to |entries|
      invariant at <= k
      invariant forall j | 0 <= j < at :: entries[j].state != state
      invariant matched.None? ==> at == k && rest == entries[..k]
      invariant matched.Some? ==>
                  at < k && entries[at].state == state && matched == Some(entries[at]) &&
                  rest == entries[..at] + entries[at + 1..k]
    {
      var entry := entries[k];
      var isMatch := SameState(entry.state, state);
      if matched.None? && isMatch {
        matched := Some(entry);
      } else {
        rest := rest + [entry];
        at := if matched.None? then k + 1 else at;
      }
    }
    FirstMatchIs(entries, state, at);
    assert entries[..|entries|] == entries;
  }

  // ---- Runs of logins and callbacks ---------------------------------------------

  /** One request on the session. `stored` is whether the list could be written back; a purge
      empties the session. */
  datatype Request =
    | Login(entry: PreAuthEntry, stored: bool)
    | Callback(now: int, state: Option<string>, hasCode: bool, hasError: bool, stored: bool)
    | Purge

  function Time(r: Request): int
    requires !r.Purge?
  {
    if r.Login? then r.entry.startedAt else r.now
  }

  /** What a callback takes from the list, if anything, and what it leaves: an error consumes
      the slot its state names, a missing code or state consumes nothing. */
  function CallbackTakes(pruned: Slots, r: Request): (Option<PreAuthEntry>, Slots)
    requires r.Callback?
  {
    if r.state.None? || (!r.hasError && !r.hasCode) then (None, pruned) else Taken(pruned, r.state.value)
  }

  /** The list after a request, and the entry it consumed. The list is removed from the session
      before it is written back, so a failed write leaves none. */
  function Serve(slots: Slots, r: Request, ttl: int): (Slots, Option<PreAuthEntry>) {
    match r
    case Login(entry, stored) => (if stored then Pushed(Pruned(slots, Time(r), ttl), entry) else [], None)
    case Callback(_, _, _, _, stored) =>
      var (taken, rest) := CallbackTakes(Pruned(slots, Time(r), ttl), r);
      if stored then (rest, taken) else ([], None)
    case Purge => ([], None)
  }

  /** A session's slots, with every attempt issued and every entry consumed so far. */
  datatype Trace = Trace(slots: Slots, issued: Slots, consumed: Slots)

  function Extend(t: Trace, r: Request, ttl: int): Trace {
    var (slots, taken) := Serve(t.slots, r, ttl);
    Trace(slots,
          if r.Login? then t.issued + [r.entry] else t.issued,
          if taken.Some? then t.consumed + [taken.value] else t.consumed)
  }

  function Run(t: Trace, rs: seq<Request>, ttl: int): Trace
    decreases |rs|
  {
    if rs == [] then t else Run(Extend(t, rs[0], ttl), rs[1..], ttl)
  }

  // ---- Order and capacity ---------------------------------------------------------

  lemma {:induction false} PrunedIsSubsequence(entries: Slots, now: int, ttl: int)
    ensures Subsequence(Pruned(entries, now, ttl), entries)
    ensures forall e | e in Pruned(entries, now, ttl) :: Unexpired(e, now, ttl)
    ensures forall e | e in entries && Unexpired(e, now, ttl) :: e in Pruned(entries, now, ttl)
  {
    if entries != [] {
      var (init, last) := (entries[..|entries| - 1], entries[|entries| - 1]);
      PrunedIsSubsequence(init, now, ttl);
      assert entries == init + [last];
      SubsequenceSkips(Pruned(init, now, ttl), init, last);
    }
  }

  lemma {:induction false} SuffixIsSubsequence<T>(s: seq<T>, i: nat)
    requires i <= |s|
    ensures Subsequence(s[i..], s)
  {
    if i < |s| {
      SuffixIsSubsequence(s[..|s| - 1], i);
      assert s == s[..|s| - 1] + [s[|s| - 1]];
      assert s[i..] == s[..|s| - 1][i..] + [s[|s| - 1]];
      SubsequenceSkips(s[..|s| - 1][i..], s[..|s| - 1], s[|s| - 1]);
    }
  }

  lemma {:induction false} OneOutIsSubsequence<T>(s: seq<T>, i: nat)
    requires i < |s|
    ensures Subsequence(s[..i] + s[i + 1..], s)
  {
    var (init, last) := (s[..|s| - 1], s[|s| - 1]);
    assert s == init + [last];
    if i == |s| - 1 {
      SuffixIsSubsequence(init, 0);
      assert init[0..] == init && s[..i] + s[i + 1..] == init;
      SubsequenceSkips(init, init, last);
    } else {
      OneOutIsSubsequence(init, i);
      assert s[..i] + s[i + 1..] == (init[..i] + init[i + 1..]) + [last];
      SubsequenceSkips(init[..i] + init[i + 1..], init, last);
    }
  }

  lemma TakenIsSubsequence(entries: Slots, state: string)
    ensures Subsequence(Taken(entries, state).1, entries)
  {
    var i := FirstMatch(entries, state);
    SuffixIsSubsequence(entries, 0);
    assert entries[0..] == entries;
    if i < |entries| {
      OneOutIsSubsequence(entries, i);
    }
  }

  lemma PushedIsSubsequence(entries: Slots, new_: PreAuthEntry)
    ensures Subsequence(Pushed(entries, new_), entries + [new_])
    ensures |Pushed(entries, new_)| <= PRE_AUTH_MAX_SLOTS
  {
    var i := Max(0, |entries| - (PRE_AUTH_MAX_SLOTS - 1));
    SuffixIsSubsequence(entries, i);
    SubsequenceSkips(entries[i..], entries, new_);
  }

  lemma ServeIsSubsequence(slots: Slots, r: Request, ttl: int)
    ensures Subsequence(Serve(slots, r, ttl).0, if r.Login? then slots + [r.entry] else slots)
    ensures r.Login? ==> |Serve(slots, r, ttl).0| <= PRE_AUTH_MAX_SLOTS
  {
    if r.Purge? {
      return;
    }
    var pruned := Pruned(slots, Time(r), ttl);
    PrunedIsSubsequence(slots, Time(r), ttl);
    if r.Login? {
      PushedIsSubsequence(pruned, r.entry);
      SubsequenceSkips(pruned, slots, r.entry);
      SubsequenceOfSubsequence(Pushed(pruned, r.entry), pruned + [r.entry], slots + [r.entry]);
    } else if r.state.Some? {
      TakenIsSubsequence(pruned, r.state.value);
      SubsequenceOfSubsequence(Taken(pruned, r.state.value).1, pruned, slots);
    }
  }

  /** Everything a request keeps or consumes was in the list, or is the attempt it starts. */
  lemma ServeElements(slots: Slots, r: Request, ttl: int)
    ensures forall e | e in Serve(slots, r, ttl).0 :: e in slots || (r.Login? && e == r.entry)
    ensures Serve(slots, r, ttl).1.Some? ==> Serve(slots, r, ttl).1.value in slots
  {
    ServeIsSubsequence(slots, r, ttl);
    SubsequenceElements(Serve(slots, r, ttl).0, if r.Login? then slots + [r.entry] else slots);
    if !r.Purge? {
      PrunedIsSubsequence(slots, Time(r), ttl);
      SubsequenceElements(Pruned(slots, Time(r), ttl), slots);
    }
  }

  /** Over any run the slots are attempts really issued, in the order they were issued, and
      every login leaves at most five. */
  lemma {:induction false} SlotsFollowIssueOrder(t: Trace, rs: seq<Request>, ttl: int)
    requires Subsequence(t.slots, t.issued)
    ensures Subsequence(Run(t, rs, ttl).slots, Run(t, rs, ttl).issued)
    ensures rs != [] && rs[|rs| - 1].Login? ==> |Run(t, rs, ttl).slots| <= PRE_AUTH_MAX_SLOTS
    decreases |rs|
  {
    if rs != [] {
      var r := rs[0];
      ServeIsSubsequence(t.slots, r, ttl);
      if r.Login? {
        SubsequenceSkips(t.slots, t.issued, r.entry);
        SubsequenceOfSubsequence(Serve(t.slots, r, ttl).0, t.slots + [r.entry], t.issued + [r.entry]);
      } else {
        SubsequenceOfSubsequence(Serve(t.slots, r, ttl).0, t.slots, t.issued);
      }
      SlotsFollowIssueOrder(Extend(t, r, ttl), rs[1..], ttl);
    }
  }

  // ---- Single use -------------------------------------------------------------------

  function States(entries: Slots): (r: seq<string>)
    ensures |r| == |entries|
  {
    seq(|entries|, i requires 0 <= i < |entries| => entries[i].state)
  }

  /** Every entry in the list or consumed was issued, and none is both or consumed twice. */
  ghost predicate Accounted(t: Trace) {
    Subsequence(t.slots, t.issued) &&
    (forall e | e in t.consumed :: e in t.issued && e !in t.slots) &&
    NoRepeats(States(t.consumed))
  }

  lemma DistinctStates(entries: Slots, e: PreAuthEntry, f: PreAuthEntry)
    requires NoRepeats(States(entries)) && e in entries && f in entries && e.state == f.state
    ensures e == f
  {
    var i :| 0 <= i < |entries| && entries[i] == e;
    var j :| 0 <= j < |entries| && entries[j] == f;
    assert States(entries)[i] == States(entries)[j];
  }

  lemma NoRepeatsPrefix<T>(s: seq<T>, x: T)
    requires NoRepeats(s + [x])
    ensures NoRepeats(s) && x !in s
  {
    assert (s + [x])[|s|] == x;
    assert forall i | 0 <= i < |s| :: (s + [x])[i] == s[i];
  }

  lemma TakenLeaves(entries: Slots, state: string)
    requires NoRepeats(entries) && Taken(entries, state).0.Some?
    ensures Taken(entries, state).0.value in entries
    ensures Taken(entries, state).0.value !in Taken(entries, state).1
  {
  }

  lemma DistinctEntries(entries: Slots)
    requires NoRepeats(States(entries))
    ensures NoRepeats(entries)
  {
    forall i, j | 0 <= i < j < |entries|
      ensures entries[i] != entries[j]
    {
      assert States(entries)[i] != States(entries)[j];
    }
  }

  lemma StatesExtend(entries: Slots, e: PreAuthEntry)
    ensures States(entries + [e]) == States(entries) + [e.state]
  {
  }

  lemma ConsumedOnce(consumed: Slots, issued: Slots, e: PreAuthEntry)
    requires NoRepeats(States(consumed)) && NoRepeats(States(issued))
    requires e in issued && e !in consumed && forall c | c in consumed :: c in issued
    ensures NoRepeats(States(consumed + [e]))
  {
    StatesExtend(consumed, e);
    forall i | 0 <= i < |consumed|
      ensures States(consumed)[i] != e.state
    {
      if consumed[i].state == e.state {
        DistinctStates(issued, consumed[i], e);
      }
    }
  }

  lemma AccountedStep(t: Trace, r: Request, ttl: int)
    requires Accounted(t) && NoRepeats(States(Extend(t, r, ttl).issued))
    ensures Accounted(Extend(t, r, ttl))
  {
    var t' := Extend(t, r, ttl);
    SlotsFollowIssueOrder(t, [r], ttl);
    assert Run(t, [r], ttl) == t';
    ServeIsSubsequence(t.slots, r, ttl);
    SubsequenceElements(t'.slots, if r.Login? then t.slots + [r.entry] else t.slots);
    SubsequenceElements(t.slots, t.issued);
    DistinctEntries(t'.issued);
    if r.Login? {
      NoRepeatsPrefix(t.issued, r.entry);
    } else if Serve(t.slots, r, ttl).1.Some? {
      var pruned := Pruned(t.slots, Time(r), ttl);
      PrunedIsSubsequence(t.slots, Time(r), ttl);
      SubsequenceElements(pruned, t.slots);
      SubsequenceNoRepeats(t.slots, t.issued);
      SubsequenceNoRepeats(pruned, t.slots);
      TakenLeaves(pruned, r.state.value);
      ConsumedOnce(t.consumed, t.issued, Taken(pruned, r.state.value).0.value);
    }
  }

  lemma {:induction false} IssuedGrows(t: Trace, rs: seq<Request>, ttl: int)
    ensures t.issued <= Run(t, rs, ttl).issued
    decreases |rs|
  {
    if rs != [] {
      IssuedGrows(Extend(t, rs[0], ttl), rs[1..], ttl);
    }
  }

  /** A state is single use: if the issued states are distinct, no run of logins and callbacks,
      on any mix of error, missing-parameter and success paths, consumes one twice, and
      nothing consumed is ever in the list again. */
  lemma {:induction false} StatesAreSingleUse(t: Trace, rs: seq<Request>, ttl: int)
    requires Accounted(t) && NoRepeats(States(Run(t, rs, ttl).issued))
    ensures Accounted(Run(t, rs, ttl))
    decreases |rs|
  {
    if rs != [] {
      var t' := Extend(t, rs[0], ttl);
      IssuedGrows(t', rs[1..], ttl);
      assert forall i | 0 <= i < |t'.issued| :: States(t'.issued)[i] == States(Run(t, rs, ttl).issued)[i];
      AccountedStep(t, rs[0], ttl);
      StatesAreSingleUse(t', rs[1..], ttl);
    }
  }

  /** A callback without a state, or with neither a code nor an error, consumes nothing: the list
      keeps exactly its unexpired attempts. */
  lemma IncompleteCallbackTakesNothing(slots: Slots, r: Request, ttl: int)
    requires r.Callback? && r.stored && (r.state.None? || (!r.hasCode && !r.hasError))
    requires 0 <= ttl < I64_MAX
    ensures Serve(slots, r, ttl).1 == None && Subsequence(Serve(slots, r, ttl).0, slots)
    ensures forall e :: e in Serve(slots, r, ttl).0 <==> e in slots && Timely(e, r.now, ttl)
  {
    PrunedIsSubsequence(slots, r.now, ttl);
    SubsequenceElements(Pruned(slots, r.now, ttl), slots);
    forall e: PreAuthEntry {
      UnexpiredExactly(e, r.now, ttl);
    }
  }

  /** No timely attempt has this state, so nothing is taken. */
  lemma NoMatchTakesNothing(slots: Slots, state: string, now: int, ttl: int)
    requires forall e | e in slots && e.state == state :: !Timely(e, now, ttl)
    requires 0 <= ttl < I64_MAX
    ensures Taken(Pruned(slots, now, ttl), state) == (None, Pruned(slots, now, ttl))
  {
    var pruned := Pruned(slots, now, ttl);
    PrunedIsSubsequence(slots, now, ttl);
    SubsequenceElements(pruned, slots);
    FirstMatchIsFirst(pruned, state);
    if FirstMatch(pruned, state) < |pruned| {
      UnexpiredExactly(pruned[FirstMatch(pruned, state)], now, ttl);
    }
  }

  // ---- Staying redeemable -------------------------------------------------------------

  function LoginCount(rs: seq<Request>): nat {
    if rs == [] then 0 else (if rs[0].Login? then 1 else 0) + LoginCount(rs[1..])
  }

  /** A request that neither consumes this attempt nor comes after it expired. */
  predicate Spares(e: PreAuthEntry, r: Request, ttl: int) {
    !r.Purge? && Unexpired(e, Time(r), ttl) && (r.Callback? ==> r.state != Some(e.state))
  }

  /** Requests that leave the attempt alone, with at most four logins among them. */
  ghost predicate SpareAttempt(e: PreAuthEntry, rs: seq<Request>, ttl: int) {
    LoginCount(rs) <= PRE_AUTH_MAX_SLOTS - 1 && forall i | 0 <= i < |rs| :: Spares(e, rs[i], ttl)
  }

  /** Every one of the requests could write the list back. */
  ghost predicate AllStored(rs: seq<Request>) {
    forall i | 0 <= i < |rs| :: !rs[i].Purge? && rs[i].stored
  }

  /** The list holds the attempt with at most `newer` attempts after it. */
  ghost predicate HeldWith(slots: Slots, e: PreAuthEntry, newer: nat) {
    exists i | 0 <= i < |slots| :: slots[i] == e && |slots| - 1 - i <= newer
  }

  lemma {:induction false} PrunedConcat(a: Slots, b: Slots, now: int, ttl: int)
    ensures Pruned(a + b, now, ttl) == Pruned(a, now, ttl) + Pruned(b, now, ttl)
    ensures |Pruned(b, now, ttl)| <= |b|
    decreases |b|
  {
    if b == [] {
      assert a + b == a;
    } else {
      var (init, last) := (b[..|b| - 1], b[|b| - 1]);
      assert (a + b)[..|a + b| - 1] == a + init;
      PrunedConcat(a, init, now, ttl);
    }
  }

  lemma PruningHolds(slots: Slots, e: PreAuthEntry, newer: nat, now: int, ttl: int)
    requires HeldWith(slots, e, newer) && Unexpired(e, now, ttl)
    ensures HeldWith(Pruned(slots, now, ttl), e, newer)
  {
    var i :| 0 <= i < |slots| && slots[i] == e && |slots| - 1 - i <= newer;
    var (a, b) := (slots[..i], slots[i + 1..]);
    assert slots == (a + [e]) + b;
    PrunedConcat(a + [e], b, now, ttl);
    assert (a + [e])[..|a|] == a;
    var kept := Pruned(slots, now, ttl);
    assert kept == (Pruned(a, now, ttl) + [e]) + Pruned(b, now, ttl);
    assert kept[|Pruned(a, now, ttl)|] == e;
  }

  lemma PushingHolds(slots: Slots, e: PreAuthEntry, newer: nat, new_: PreAuthEntry)
    requires HeldWith(slots, e, newer) && newer < PRE_AUTH_MAX_SLOTS - 1
    ensures HeldWith(Pushed(slots, new_), e, newer + 1)
  {
    var i :| 0 <= i < |slots| && slots[i] == e && |slots| - 1 - i <= newer;
    var start := Max(0, |slots| - (PRE_AUTH_MAX_SLOTS - 1));
    assert Pushed(slots, new_)[i - start] == e;
  }

  lemma TakingHolds(slots: Slots, e: PreAuthEntry, newer: nat, state: string)
    requires HeldWith(slots, e, newer) && state != e.state
    ensures HeldWith(Taken(slots, state).1, e, newer)
  {
    var i :| 0 <= i < |slots| && slots[i] == e && |slots| - 1 - i <= newer;
    var m := FirstMatch(slots, state);
    FirstMatchIsFirst(slots, state);
    if m < |slots| {
      assert Taken(slots, state).1[if m < i then i - 1 else i] == e;
    }
  }

  lemma {:induction false} AttemptStaysHeld(slots: Slots, e: PreAuthEntry, newer: nat, rs: seq<Request>, ttl: int,
                                                  issued: Slots, consumed: Slots)
    requires HeldWith(slots, e, newer)
    requires newer + LoginCount(rs) <= PRE_AUTH_MAX_SLOTS - 1
    requires (forall i | 0 <= i < |rs| :: Spares(e, rs[i], ttl)) && AllStored(rs)
    ensures e in Run(Trace(slots, issued, consumed), rs, ttl).slots
    decreases |rs|
  {
    if rs != [] {
      var r := rs[0];
      var t' := Extend(Trace(slots, issued, consumed), r, ttl);
      var pruned := Pruned(slots, Time(r), ttl);
      assert Spares(e, r, ttl);
      PruningHolds(slots, e, newer, Time(r), ttl);
      if r.Login? {
        PushingHolds(pruned, e, newer, r.entry);
      } else if r.state.Some? {
        TakingHolds(pruned, e, newer, r.state.value);
      }
      AttemptStaysHeld(t'.slots, e, if r.Login? then newer + 1 else newer, rs[1..], ttl, t'.issued, t'.consumed);
    }
  }

  /** An unexpired entry, the only such one with its state, is what that state takes. */
  lemma OnlyMatchIsTaken(slots: Slots, e: PreAuthEntry, now: int, ttl: int)
    requires e in slots && Unexpired(e, now, ttl)
    requires forall f | f in slots && f.state == e.state && Unexpired(f, now, ttl) :: f == e
    ensures Taken(Pruned(slots, now, ttl), e.state).0 == Some(e)
  {
    var pruned := Pruned(slots, now, ttl);
    PrunedIsSubsequence(slots, now, ttl);
    SubsequenceElements(pruned, slots);
    FirstMatchIsFirst(pruned, e.state);
  }

  lemma HeldAttemptIsRedeemed(slots: Slots, issued: Slots, e: PreAuthEntry, r: Request, ttl: int)
    requires e in slots && Subsequence(slots, issued) && NoRepeats(States(issued))
    requires r.Callback? && r.state == Some(e.state) && (r.hasCode || r.hasError) && r.stored
    requires Unexpired(e, r.now, ttl)
    ensures Serve(slots, r, ttl).1 == Some(e)
  {
    SubsequenceElements(slots, issued);
    forall f | f in slots && f.state == e.state {
      DistinctStates(issued, f, e);
    }
    OnlyMatchIsTaken(slots, e, r.now, ttl);
  }

  /** An attempt that is gone does not come back, unless it is issued again. */
  lemma {:induction false} LostStaysLost(t: Trace, rs: seq<Request>, e: PreAuthEntry, ttl: int)
    requires e !in t.slots && e in t.issued && NoRepeats(States(Run(t, rs, ttl).issued))
    ensures e !in Run(t, rs, ttl).slots
    decreases |rs|
  {
    if rs != [] {
      var t' := Extend(t, rs[0], ttl);
      ServeElements(t.slots, rs[0], ttl);
      IssuedGrows(t', rs[1..], ttl);
      if rs[0].Login? {
        assert forall i | 0 <= i < |t'.issued| :: States(t'.issued)[i] == States(Run(t, rs, ttl).issued)[i];
        DistinctEntries(t'.issued);
        NoRepeatsPrefix(t.issued, rs[0].entry);
      }
      LostStaysLost(t', rs[1..], e, ttl);
    }
  }

  /** One list that could not be written loses the attempt. */
  lemma {:induction false} UnstoredLosesAttempt(t: Trace, rs: seq<Request>, e: PreAuthEntry, ttl: int)
    requires !AllStored(rs) && e in t.issued && NoRepeats(States(Run(t, rs, ttl).issued))
    ensures e !in Run(t, rs, ttl).slots
    decreases |rs|
  {
    var t' := Extend(t, rs[0], ttl);
    if rs[0].Purge? || !rs[0].stored {
      LostStaysLost(t', rs[1..], e, ttl);
    } else {
      assert !AllStored(rs[1..]) by {
        assert forall i | 0 < i < |rs| :: rs[i] == rs[1..][i - 1];
      }
      UnstoredLosesAttempt(t', rs[1..], e, ttl);
    }
  }

  /** Through callbacks for other states and at most four logins, a new attempt is still there
      exactly when its own list and every later one could be written. */
  lemma AttemptSurvivesExactlyWhen(t: Trace, e: PreAuthEntry, stored: bool, rs: seq<Request>, ttl: int)
    requires Subsequence(t.slots, t.issued) && SpareAttempt(e, rs, ttl)
    requires NoRepeats(States(Run(Extend(t, Login(e, stored), ttl), rs, ttl).issued))
    ensures var t' := Run(Extend(t, Login(e, stored), ttl), rs, ttl);
            (e in t'.slots <==> stored && AllStored(rs)) && Subsequence(t'.slots, t'.issued) && e in t'.issued
  {
    var t' := Extend(t, Login(e, stored), ttl);
    SlotsFollowIssueOrder(t, [Login(e, stored)], ttl);
    assert Run(t, [Login(e, stored)], ttl) == t';
    SlotsFollowIssueOrder(t', rs, ttl);
    IssuedGrows(t', rs, ttl);
    assert t'.issued[|t.issued|] == e;
    if !stored {
      LostStaysLost(t', rs, e, ttl);
    } else if AllStored(rs) {
      assert t'.slots[|t'.slots| - 1] == e;
      AttemptStaysHeld(t'.slots, e, 0, rs, ttl, t'.issued, t'.consumed);
    } else {
      UnstoredLosesAttempt(t', rs, e, ttl);
    }
  }

  /** An attempt stays redeemable: through any callbacks for other states and the next four
      logins, its own callback, arriving in time, consumes exactly it, as long as every list on
      the way could be written; and only then. */
  lemma AttemptStaysRedeemable(t: Trace, e: PreAuthEntry, stored: bool, rs: seq<Request>, r: Request, ttl: int)
    requires Subsequence(t.slots, t.issued) && SpareAttempt(e, rs, ttl)
    requires r.Callback? && r.state == Some(e.state) && (r.hasCode || r.hasError)
    requires Unexpired(e, r.now, ttl)
    requires NoRepeats(States(Run(Extend(t, Login(e, stored), ttl), rs, ttl).issued))
    ensures Serve(Run(Extend(t, Login(e, stored), ttl), rs, ttl).slots, r, ttl).1 == Some(e) <==>
            stored && AllStored(rs) && r.stored
  {
    var t' := Run(Extend(t, Login(e, stored), ttl), rs, ttl);
    AttemptSurvivesExactlyWhen(t, e, stored, rs, ttl);
    ServeElements(t'.slots, r, ttl);
    if e in t'.slots && r.stored {
      HeldAttemptIsRedeemed(t'.slots, t'.issued, e, r, ttl);
    }
  }

  /** What a callback leaves, when its list is written back, of another tab's attempt. */
  lemma StoredCallbackKeepsOthers(slots: Slots, r: Request, ttl: int, e: PreAuthEntry)
    requires r.Callback? && r.stored
    requires e in slots && Unexpired(e, r.now, ttl) && r.state != Some(e.state)
    ensures e in Serve(slots, r, ttl).0
  {
    PrunedIsSubsequence(slots, r.now, ttl);
    if r.state.Some? {
      var pruned := Pruned(slots, r.now, ttl);
      var i :| 0 <= i < |pruned| && pruned[i] == e;
      assert HeldWith(pruned, e, |pruned|);
      TakingHolds(pruned, e, |pruned|, r.state.value);
    }
  }

  /** Another tab's unexpired attempt survives a callback exactly when the list could be written
      back; what survives keeps its order. */
  lemma OtherTabsKeepTheirSlots(slots: Slots, r: Request, ttl: int, e: PreAuthEntry)
    requires r.Callback?
    requires e in slots && Unexpired(e, r.now, ttl) && r.state != Some(e.state)
    ensures e in Serve(slots, r, ttl).0 <==> r.stored
    ensures Subsequence(Serve(slots, r, ttl).0, slots)
  {
    ServeIsSubsequence(slots, r, ttl);
    if r.stored {
      StoredCallbackKeepsOthers(slots, r, ttl, e);
    }
  }

  /** An attempt survives a login exactly when the list could be written back and at most three
      unexpired attempts came after it. */
  lemma LoginKeepsTheNewest(slots: Slots, r: Request, ttl: int, e: PreAuthEntry)
    requires r.Login? && e != r.entry
    ensures e in Serve(slots, r, ttl).0 <==>
            r.stored && HeldWith(Pruned(slots, Time(r), ttl), e, PRE_AUTH_MAX_SLOTS - 2)
  {
    var pruned := Pruned(slots, Time(r), ttl);
    var start := Max(0, |pruned| - (PRE_AUTH_MAX_SLOTS - 1));
    var pushed := Pushed(pruned, r.entry);
    assert forall i | start <= i < |pruned| :: pushed[i - start] == pruned[i];
    if e in pushed {
      var k :| 0 <= k < |pushed| && pushed[k] == e;
      assert pruned[k + start] == e;
    }
  }
}

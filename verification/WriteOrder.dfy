/** Exactly what a callback leaves of each entry, whichever of its writes fail: they are made in one
    order, and those before the first failing one stand. */
module WriteOrder {
  import opened Wrappers
  import opened SessionState
  import opened SessionFlow
  import opened SessionTheorems
  import opened SessionAnswers
  import FailedLogins
  import Config

  /** The order of a login's writes, with `n` configured claims: the standard entries, the claims as
      configured, their list, and the tokens. */
  function Rank(site: Site, n: nat): int {
    match site
    case AtSlots => -2
    case AtStamp => -1
    case AtSub => 0
    case AtIss => 1
    case AtEmail => 2
    case AtName => 3
    case AtClaimsJson => 4
    case AtClaim(i) => 5 + i
    case AtClaimKeys => 5 + n
    case AtAccess => 6 + n
    case AtRefresh => 7 + n
    case AtIdToken => 8 + n
  }

  /** The places a login with this token passes once it has its stamp. */
  predicate Visited(token: Token, names: seq<Field>, site: Site) {
    match site
    case AtSlots => false
    case AtStamp => false
    case AtEmail => token.email.Some?
    case AtName => token.name.Some?
    case AtRefresh => token.refresh.Some?
    case AtClaim(i) => i < |names| && names[i] in token.claims
    case _ => true
  }

  /** The entry a place writes. */
  function EntryAt(names: seq<Field>, site: Site): Option<Field> {
    match site
    case AtSlots => Some(PreAuth)
    case AtStamp => Some(LoginAt)
    case AtSub => Some(Sub)
    case AtIss => Some(Iss)
    case AtEmail => Some(Email)
    case AtName => Some(Name)
    case AtClaimsJson => None
    case AtClaim(i) => if i < |names| then Some(names[i]) else None
    case AtClaimKeys => Some(ClaimKeys)
    case AtAccess => Some(AccessToken)
    case AtRefresh => Some(RefreshToken)
    case AtIdToken => Some(IdToken)
  }

  /** The login gets past this place: nothing up to it fails. */
  predicate Passed(token: Token, names: seq<Field>, faults: set<Site>, site: Site) {
    Visited(token, names, site) &&
    forall fault | fault in faults && Visited(token, names, fault) :: Rank(site, |names|) < Rank(fault, |names|)
  }

  // ---- A list of writes in order -------------------------------------------------------------

  ghost predicate Ordered(ws: seq<Write>, n: nat) {
    forall i, j | 0 <= i < j < |ws| :: Rank(ws[i].site, n) < Rank(ws[j].site, n)
  }

  ghost predicate RanksWithin(ws: seq<Write>, n: nat, low: int, high: int) {
    forall w | w in ws :: low <= Rank(w.site, n) < high
  }

  lemma OrderedConcat(a: seq<Write>, b: seq<Write>, n: nat, low: int, middle: int, high: int)
    requires Ordered(a, n) && Ordered(b, n) && RanksWithin(a, n, low, middle) && RanksWithin(b, n, middle, high)
    requires low <= middle <= high
    ensures Ordered(a + b, n) && RanksWithin(a + b, n, low, high)
  {
    assert forall i | 0 <= i < |a| :: a[i] in a;
    assert forall j | 0 <= j < |b| :: b[j] in b;
  }

  lemma {:induction false} ClaimWritesOrdered(token: Token, names: seq<Field>, n: nat)
    requires |names| <= n
    ensures Ordered(ClaimWrites(token, names), n) && RanksWithin(ClaimWrites(token, names), n, 5, 5 + |names|)
  {
    if names != [] {
      var (init, last) := (names[..|names| - 1], names[|names| - 1]);
      ClaimWritesOrdered(token, init, n);
      if last in token.claims {
        OrderedConcat(ClaimWrites(token, init), [Write(AtClaim(|init|), last, token.claims[last])], n,
                      5, 5 + |init|, 5 + |names|);
      }
    }
  }

  lemma OptionalOrdered(site: Site, f: Field, value: Option<string>, n: nat)
    ensures Ordered(OptionalWrite(site, f, value), n)
    ensures RanksWithin(OptionalWrite(site, f, value), n, Rank(site, n), Rank(site, n) + 1)
  {
  }

  lemma StandardWritesOrdered(token: Token, n: nat)
    ensures Ordered(StandardWrites(token), n) && RanksWithin(StandardWrites(token), n, 0, 5)
  {
    var first := [Write(AtSub, Sub, JString(token.subject)), Write(AtIss, Iss, JString(token.issuer))];
    var (email, name) := (OptionalWrite(AtEmail, Email, token.email), OptionalWrite(AtName, Name, token.name));
    OptionalOrdered(AtEmail, Email, token.email, n);
    OptionalOrdered(AtName, Name, token.name, n);
    OrderedConcat(first, email, n, 0, 2, 3);
    OrderedConcat(first + email, name, n, 0, 3, 4);
    OrderedConcat(first + email + name, [Check(AtClaimsJson)], n, 0, 4, 5);
  }

  lemma FinalWritesOrdered(token: Token, names: seq<Field>, n: nat)
    ensures Ordered(FinalWrites(token, names), n) && RanksWithin(FinalWrites(token, names), n, 5 + n, 9 + n)
  {
    var first := [Write(AtClaimKeys, ClaimKeys, JFields(SelectedNames(token, names))),
                  Write(AtAccess, AccessToken, JString(token.access))];
    var refresh := OptionalWrite(AtRefresh, RefreshToken, token.refresh);
    OptionalOrdered(AtRefresh, RefreshToken, token.refresh, n);
    OrderedConcat(first, refresh, n, 5 + n, 7 + n, 8 + n);
    OrderedConcat(first + refresh, [Write(AtIdToken, IdToken, JString(token.raw))], n, 5 + n, 8 + n, 9 + n);
  }

  lemma IdentityWritesOrdered(token: Token, names: seq<Field>)
    ensures Ordered(IdentityWrites(token, names), |names|)
  {
    var n := |names|;
    StandardWritesOrdered(token, n);
    ClaimWritesOrdered(token, names, n);
    FinalWritesOrdered(token, names, n);
    OrderedConcat(StandardWrites(token), ClaimWrites(token, names), n, 0, 5, 5 + n);
    OrderedConcat(StandardWrites(token) + ClaimWrites(token, names), FinalWrites(token, names), n, 0, 5 + n, 9 + n);
  }

  lemma {:induction false} ClaimWritesVisit(token: Token, names: seq<Field>)
    ensures forall w | w in ClaimWrites(token, names) ::
              w.Write? && w.site.AtClaim? && w.site.index < |names| && w.field == names[w.site.index] &&
              names[w.site.index] in token.claims
    ensures forall i | 0 <= i < |names| && names[i] in token.claims ::
              Write(AtClaim(i), names[i], token.claims[names[i]]) in ClaimWrites(token, names)
  {
    if names != [] {
      var init := names[..|names| - 1];
      ClaimWritesVisit(token, init);
      assert forall i | 0 <= i < |init| :: init[i] == names[i];
    }
  }

  /** A write is made at a place this login visits, to that place's entry. */
  predicate InPlace(token: Token, names: seq<Field>, w: Write) {
    Visited(token, names, w.site) && EntryAt(names, w.site) == if w.Write? then Some(w.field) else None
  }

  lemma StandardWritesInPlace(token: Token, names: seq<Field>)
    ensures forall w | w in StandardWrites(token) :: InPlace(token, names, w)
  {
  }

  lemma FinalWritesInPlace(token: Token, names: seq<Field>)
    ensures forall w | w in FinalWrites(token, names) :: InPlace(token, names, w)
  {
  }

  lemma IdentityWritesInPlace(token: Token, names: seq<Field>)
    ensures forall w | w in IdentityWrites(token, names) :: InPlace(token, names, w)
  {
    StandardWritesInPlace(token, names);
    ClaimWritesVisit(token, names);
    FinalWritesInPlace(token, names);
    forall w | w in IdentityWrites(token, names)
      ensures InPlace(token, names, w)
    {
      assert w in StandardWrites(token) || w in ClaimWrites(token, names) || w in FinalWrites(token, names);
    }
  }

  lemma WriteAt(token: Token, names: seq<Field>, site: Site) returns (k: nat)
    requires Visited(token, names, site)
    ensures k < |IdentityWrites(token, names)| && IdentityWrites(token, names)[k].site == site
  {
    var (standard, claims, final) := (StandardWrites(token), ClaimWrites(token, names), FinalWrites(token, names));
    match site
    case AtSub => k := 0;
    case AtIss => k := 1;
    case AtEmail => k := 2;
    case AtName => k := |standard| - 2;
    case AtClaimsJson => k := |standard| - 1;
    case AtClaim(i) =>
      ClaimWritesVisit(token, names);
      var at :| 0 <= at < |claims| && claims[at].site == site;
      k := |standard| + at;
    case AtClaimKeys => k := |standard| + |claims|;
    case AtAccess => k := |standard| + |claims| + 1;
    case AtRefresh => k := |standard| + |claims| + 2;
    case AtIdToken => k := |standard| + |claims| + |final| - 1;
  }

  // ---- What a list of writes leaves --------------------------------------------------------------

  predicate WritesTo(w: Write, f: Field) {
    w.Write? && w.field == f
  }

  lemma {:induction false} ReachedWriteStands(m: State, ws: seq<Write>, faults: set<Site>, f: Field, v: Json, k: nat)
    requires k < |ws| && WritesTo(ws[k], f) && forall j | 0 <= j <= k :: ws[j].site !in faults
    requires forall w | w in ws && WritesTo(w, f) :: w.value == v
    ensures var m' := Written(m, ws, faults).0; f in m' && m'[f] == v
    decreases |ws|
  {
    var m' := if ws[0].Write? then m[ws[0].field := ws[0].value] else m;
    assert ws[0] in ws && forall w | w in ws[1..] :: w in ws;
    if k == 0 {
      FailedLogins.WrittenOrKept(m', ws[1..], faults, f, v);
    } else {
      assert forall j | 0 <= j < |ws| - 1 :: ws[1..][j] == ws[j + 1];
      ReachedWriteStands(m', ws[1..], faults, f, v, k - 1);
    }
  }

  lemma {:induction false} UnreachedWriteIsNotMade(m: State, ws: seq<Write>, faults: set<Site>, f: Field)
    requires forall k | 0 <= k < |ws| && WritesTo(ws[k], f) :: exists j | 0 <= j <= k :: ws[j].site in faults
    ensures Holds(m, Written(m, ws, faults).0, f, None)
    decreases |ws|
  {
    if ws != [] && ws[0].site !in faults {
      var m' := if ws[0].Write? then m[ws[0].field := ws[0].value] else m;
      assert !WritesTo(ws[0], f);
      forall k | 0 <= k < |ws[1..]| && WritesTo(ws[1..][k], f)
        ensures exists j | 0 <= j <= k :: ws[1..][j].site in faults
      {
        assert WritesTo(ws[k + 1], f);
        var j :| 0 <= j <= k + 1 && ws[j].site in faults;
        assert ws[1..][j - 1].site in faults;
      }
      UnreachedWriteIsNotMade(m', ws[1..], faults, f);
    }
  }

  // ---- The callback ----------------------------------------------------------------------------

  /** Once the session is renewed and stamped, and whichever writes then fail, each entry is the new
      login's if a write of it was passed; otherwise it is gone if a previous login left it, and as it
      was if not. */
  lemma RenewedCallbackLeavesExactly(c: Settings, m: State, a: Arrival, f: Field)
    requires Sound(m) && Trusted(c, a) && Decided(c, m, a).Ok? && AtStamp !in a.faults && f != PreAuth && f != LoginAt
    ensures var (m', token) := (AfterCallback(c, m, a).0, Decided(c, m, a).value.1);
            var names := c.persistClaims;
            if exists site :: Passed(token, names, a.faults, site) && EntryAt(names, site) == Some(f)
            then f in m' && NewValue(token, names, f) == Some(m'[f])
            else if Leftover(m, f) then f !in m'
            else Holds(m, m', f, None)
  {
    var (token, names, stage) := (Decided(c, m, a).value.1, c.persistClaims, FailedLogins.Stage(c, m, a));
    StageHolds(c, m, a, f);
    if exists site :: Passed(token, names, a.faults, site) && EntryAt(names, site) == Some(f) {
      var site :| Passed(token, names, a.faults, site) && EntryAt(names, site) == Some(f);
      PassedIsWritten(token, names, a.faults, site, stage, f);
    } else {
      NotPassedIsKept(token, names, a.faults, stage, f);
    }
  }

  lemma PassedSoFar(token: Token, names: seq<Field>, faults: set<Site>, k: nat)
    requires k < |IdentityWrites(token, names)|
    ensures Passed(token, names, faults, IdentityWrites(token, names)[k].site) <==>
            forall j | 0 <= j <= k :: IdentityWrites(token, names)[j].site !in faults
  {
    var (ws, n) := (IdentityWrites(token, names), |names|);
    IdentityWritesOrdered(token, names);
    IdentityWritesInPlace(token, names);
    assert forall j | 0 <= j < |ws| :: ws[j] in ws && Visited(token, names, ws[j].site);
    if forall j | 0 <= j <= k :: ws[j].site !in faults {
      forall fault | fault in faults && Visited(token, names, fault)
        ensures Rank(ws[k].site, n) < Rank(fault, n)
      {
        var j := WriteAt(token, names, fault);
      }
    }
  }

  lemma PassedIsWritten(token: Token, names: seq<Field>, faults: set<Site>, site: Site, m: State, f: Field)
    requires Config.AcceptedClaims(names) && Passed(token, names, faults, site) && EntryAt(names, site) == Some(f)
    ensures var m' := Written(m, IdentityWrites(token, names), faults).0;
            f in m' && NewValue(token, names, f) == Some(m'[f])
  {
    var ws := IdentityWrites(token, names);
    var k := WriteAt(token, names, site);
    PassedSoFar(token, names, faults, k);
    IdentityWritesInPlace(token, names);
    WrittenValuesAreNew(token, names, f);
    assert ws[k] in ws && InPlace(token, names, ws[k]);
    ReachedWriteStands(m, ws, faults, f, ws[k].value, k);
  }

  lemma NotPassedIsKept(token: Token, names: seq<Field>, faults: set<Site>, m: State, f: Field)
    requires !exists site :: Passed(token, names, faults, site) && EntryAt(names, site) == Some(f)
    ensures Holds(m, Written(m, IdentityWrites(token, names), faults).0, f, None)
  {
    var ws := IdentityWrites(token, names);
    IdentityWritesInPlace(token, names);
    forall k | 0 <= k < |ws| && WritesTo(ws[k], f)
      ensures exists j | 0 <= j <= k :: ws[j].site in faults
    {
      assert ws[k] in ws && InPlace(token, names, ws[k]);
      PassedSoFar(token, names, faults, k);
    }
    UnreachedWriteIsNotMade(m, ws, faults, f);
  }
}

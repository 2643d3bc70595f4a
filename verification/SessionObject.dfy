/** The session as the handlers use it: an object whose entries they insert and remove one by
    one, in the handlers' own order. */
module SessionObject {
  import opened Wrappers
  import opened Clock
  import opened SessionState
  import opened SessionFlow
  import PreAuthSlots
  import Login
  import Expiry
  import Redirect
  import Utf8

  datatype Status = Live | Renewed | Purged

  lemma {:induction false} WrittenConcat(m: State, a: seq<Write>, b: seq<Write>, faults: set<Site>)
    ensures Written(m, a + b, faults) ==
            if Written(m, a, faults).1 then Written(Written(m, a, faults).0, b, faults) else Written(m, a, faults)
    decreases |a|
  {
    if a == [] {
      assert a + b == b;
    } else {
      assert (a + b)[1..] == a[1..] + b;
      if a[0].site !in faults {
        WrittenConcat(if a[0].Write? then m[a[0].field := a[0].value] else m, a[1..], b, faults);
      }
    }
  }

  class Session {
    var entries: State
    var status: Status

    constructor (entries: State)
      ensures this.entries == entries && status == Live
    {
      this.entries := entries;
      status := Live;
    }

    /** `insert_or_internal`. */
    method Insert(field: Field, value: Json, fails: bool) returns (ok: bool)
      requires status != Purged
      modifies this
      ensures ok == !fails && status == old(status)
      ensures entries == if fails then old(entries) else old(entries)[field := value]
    {
      ok := !fails;
      if ok {
        entries := entries[field := value];
      }
    }

    method Remove(field: Field) returns (removed: Option<Json>)
      requires status != Purged
      modifies this
      ensures entries == old(entries) - {field} && status == old(status)
      ensures removed == if field in old(entries) then Some(old(entries)[field]) else None
    {
      removed := if field in entries then Some(entries[field]) else None;
      entries := entries - {field};
    }

    method Renew()
      requires status != Purged
      modifies this`status
      ensures status == Renewed
    {
      status := Renewed;
    }

    method Purge()
      modifies this
      ensures entries == map[] && status == Purged
    {
      status := Purged;
      entries := map[];
    }

    /** Remove every listed key. */
    method RemoveAll(fields: seq<Field>)
      requires status != Purged
      modifies this
      ensures entries == old(entries) - Elements(fields) && status == old(status)
    {
      for i := 0 to |fields|
        invariant status == old(status)
        invariant entries == old(entries) - Elements(fields[..i])
      {
        assert Elements(fields[..i + 1]) == Elements(fields[..i]) + {fields[i]};
        var _ := Remove(fields[i]);
      }
      assert fields[..|fields|] == fields;
    }

    /** Perform writes in order until one fails. */
    method WriteAll(ws: seq<Write>, faults: set<Site>) returns (ok: bool)
      requires status != Purged
      modifies this
      ensures status == old(status)
      ensures (entries, ok) == Written(old(entries), ws, faults)
    {
      ghost var before := entries;
      for i := 0 to |ws|
        invariant status == old(status)
        invariant Written(before, ws, faults) == Written(entries, ws[i..], faults)
      {
        assert ws[i..][1..] == ws[i + 1..];
        if ws[i].site in faults {
          return false;
        }
        if ws[i].Write? {
          var _ := Insert(ws[i].field, ws[i].value, false);
        }
      }
      return true;
    }

    /** Step 13: each persisted claim the token has is written, and its name collected. */
    method WriteClaims(token: Token, names: seq<Field>, faults: set<Site>) returns (ok: bool, persisted: seq<Field>)
      requires status != Purged
      modifies this
      ensures status == old(status)
      ensures (entries, ok) == Written(old(entries), ClaimWrites(token, names), faults)
      ensures ok ==> persisted == SelectedNames(token, names)
    {
      persisted := [];
      ghost var before := entries;
      for i := 0 to |names|
        invariant status == old(status)
        invariant persisted == SelectedNames(token, names[..i])
        invariant (entries, true) == Written(before, ClaimWrites(token, names[..i]), faults)
      {
        assert names[..i + 1][..i] == names[..i];
        var name := names[i];
        if name in token.claims {
          ghost var w := Write(AtClaim(i), name, token.claims[name]);
          WrittenConcat(before, ClaimWrites(token, names[..i]), [w], faults);
          ClaimWritesPrefix(token, names, i + 1, before, faults);
          ok := Insert(name, token.claims[name], AtClaim(i) in faults);
          if !ok {
            return false, persisted;
          }
          persisted := persisted + [name];
        }
      }
      assert names[..|names|] == names;
      ok := true;
    }
  }

  /** `login_impl`. */
  method StartLogin(session: Session, c: Settings, d: Departure) returns (r: Result<PreAuthEntry, BffError>)
    requires session.status != Purged
    modifies session
    ensures (session.entries, r) == AfterLogin(c, old(session.entries), d)
    ensures session.status == old(session.status)
  {
    var returnTo := if d.requested.Some? && d.requested.value != "" then d.requested.value else c.prefix;
    if !ValidTarget(c, returnTo) {
      return Err(BadRequest);
    }
    var removed := session.Remove(PreAuth);
    var existing := if removed.Some? && removed.value.JSlots? then removed.value.slots else [];
    var slot := Login.NewSlot(d.state, d.pkceVerifier, d.nonce, returnTo, d.now, d.extra);
    var updated := PreAuthSlots.PushPreAuth(PreAuthSlots.Pruned(existing, d.now, c.preAuthTtlSecs), slot);
    var ok := session.Insert(PreAuth, JSlots(updated), !d.stored);
    return if ok then Ok(slot) else Err(Internal);
  }

  /** A claim write that fails fails the whole list at the same point. */
  lemma {:induction false} ClaimWritesPrefix(token: Token, names: seq<Field>, i: nat, m: State, faults: set<Site>)
    requires i <= |names|
    ensures !Written(m, ClaimWrites(token, names[..i]), faults).1 ==>
            Written(m, ClaimWrites(token, names), faults) == Written(m, ClaimWrites(token, names[..i]), faults)
    decreases |names| - i
  {
    if i == |names| {
      assert names[..i] == names;
    } else {
      assert names[..i + 1][..i] == names[..i];
      var name := names[i];
      if name in token.claims {
        WrittenConcat(m, ClaimWrites(token, names[..i]), [Write(AtClaim(i), name, token.claims[name])], faults);
      }
      ClaimWritesPrefix(token, names, i + 1, m, faults);
    }
  }

  /** Steps 12 to 14 of the callback. */
  method WriteIdentity(session: Session, token: Token, names: seq<Field>, faults: set<Site>) returns (ok: bool)
    requires session.status != Purged
    modifies session
    ensures session.status == old(session.status)
    ensures (session.entries, ok) == Written(old(session.entries), IdentityWrites(token, names), faults)
  {
    ghost var m := session.entries;
    WrittenConcat(m, StandardWrites(token) + ClaimWrites(token, names), FinalWrites(token, names), faults);
    WrittenConcat(m, StandardWrites(token), ClaimWrites(token, names), faults);
    ok := session.WriteAll(StandardWrites(token), faults);
    if !ok {
      return;
    }
    var persisted;
    ok, persisted := session.WriteClaims(token, names, faults);
    if !ok {
      return;
    }
    ok := session.WriteAll([Write(AtClaimKeys, ClaimKeys, JFields(persisted)),
                            Write(AtAccess, AccessToken, JString(token.access))] +
                           OptionalWrite(AtRefresh, RefreshToken, token.refresh) +
                           [Write(AtIdToken, IdToken, JString(token.raw))], faults);
  }

  /** Step 11 of the callback: scrub what a previous login left. */
  method Scrub(session: Session)
    requires session.status != Purged
    modifies session
    ensures session.status == old(session.status)
    ensures session.entries == ScrubbedOf(old(session.entries))
  {
    var scrubKeys := [Email, Name, AccessToken, RefreshToken, IdToken];
    assert Elements(scrubKeys) == SCRUBBED;
    session.RemoveAll(scrubKeys);
    var oldKeys := session.Remove(ClaimKeys);
    session.RemoveAll(if oldKeys.Some? && oldKeys.value.JFields? then oldKeys.value.fields else []);
  }

  /** Steps 1 to 4: consume the slot, and write the rest back before anything else can fail. */
  method TakeSlot(session: Session, c: Settings, a: Arrival) returns (ok: bool, matched: Option<PreAuthEntry>)
    requires session.status != Purged
    modifies session
    ensures session.status == old(session.status)
    ensures session.entries == SlotsWrittenBack(c, old(session.entries), a)
    ensures ok == (AtSlots !in a.faults) && matched == Consumed(c, old(session.entries), a).0
  {
    var removed := session.Remove(PreAuth);
    var slots := if removed.Some? && removed.value.JSlots? then removed.value.slots else [];
    var rest := PreAuthSlots.Pruned(slots, a.now, c.preAuthTtlSecs);
    matched := None;
    if a.state.Some? && (a.error || a.code.Some?) {
      matched, rest := PreAuthSlots.TakeMatching(rest, a.state.value);
    }
    ok := session.Insert(PreAuth, JSlots(rest), AtSlots in a.faults);
  }

  /** `callback`. */
  method Callback(session: Session, c: Settings, a: Arrival) returns (response: Result<seq<Utf8.Byte>, BffError>)
    requires session.status != Purged
    modifies session
    ensures (session.entries, response) == AfterCallback(c, old(session.entries), a)
    ensures session.status == if Decided(c, old(session.entries), a).Ok? then Renewed else old(session.status)
  {
    ghost var m := session.entries;
    var ok, matched := TakeSlot(session, c, a);
    if !ok {
      return Err(Internal);
    }
    if a.error || a.code.None? || a.state.None? || matched.None? {
      return Err(BadRequest);
    }
    var entry := matched.value;
    match a.exchange
    case NoTokenEndpoint => return Err(Internal);
    case ExchangeFailed => return Err(BadRequest);
    case NoIdToken => return Err(BadRequest);
    case InvalidIdToken => return Err(BadRequest);
    case Valid(token) =>
      if entry.maxAgeSecs.Some? {
        if !Login.FreshEnough(token.authTime, entry.maxAgeSecs.value, entry.startedAt, a.checkedAt) {
          return Err(BadRequest);
        }
        var previous := ReadString(session.entries, Sub);
        if previous.Some? && previous.value != token.subject {
          return Err(BadRequest);
        }
      }
      session.Renew();
      ok := session.Insert(LoginAt, JInt(a.stampedAt), AtStamp in a.faults);
      if !ok {
        return Err(Internal);
      }
      Scrub(session);
      ok := WriteIdentity(session, token, c.persistClaims, a.faults);
      if !ok {
        return Err(Internal);
      }
      var returnTo := Utf8.Encode(entry.returnTo);
      var location := returnTo;
      if c.allow != [] {
        location := Redirect.AppendPassthrough(returnTo, a.query, c.allow);
      }
      return Ok(if Redirect.SafeComposed(location) then location else Utf8.Encode(c.prefix));
  }

  /** `Auth::extract`. */
  method Extract(session: Session, now: Nanos, maxLifetimeSecs: Option<int>) returns (r: Result<Auth, BffError>)
    modifies session
    ensures r == Extracted(old(session.entries), now, maxLifetimeSecs).0
    ensures if Extracted(old(session.entries), now, maxLifetimeSecs).1
            then session.entries == map[] && session.status == Purged
            else session.entries == old(session.entries) && session.status == old(session.status)
  {
    var m := session.entries;
    var sub := ReadString(m, Sub);
    if sub.None? {
      return Err(Unauthorized);
    }
    if maxLifetimeSecs.Some? {
      var expired := !Expiry.ExtractorAlive(m, now, maxLifetimeSecs.value);
      if expired {
        session.Purge();
        return Err(Unauthorized);
      }
    }
    var keys := ReadFields(m, ClaimKeys);
    var claims: map<Field, Json> := map[];
    for i := 0 to |keys|
      invariant session.entries == m && session.status == old(session.status)
      invariant claims == ReadClaims(m, keys[..i])
    {
      if Readable(m, keys[i]) {
        claims := claims[keys[i] := m[keys[i]]];
      }
    }
    assert keys[..|keys|] == keys;
    return Ok(Auth(sub.value, ReadString(m, Iss), ReadString(m, Email), ReadString(m, Name), claims));
  }
}

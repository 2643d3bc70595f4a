/** Refreshing the cached provider metadata: the relying party as an object, one caller at a
    time. `JwksRuns` interleaves any number of callers. */
module Jwks {
  import opened Wrappers
  import opened Clock

  /** A discovery document; documents differ if their content does. */
  type Metadata = int

  /** A client is built from a document and the fixed credentials. */
  datatype Client = Client(metadata: Metadata, credentials: int)

  const FORCED_REFRESH_MIN_INTERVAL: Nanos := 60 * NANOS_PER_SEC

  predicate IsStale(last: Nanos, now: Nanos, jwksTtl: Nanos) {
    now - last >= jwksTtl
  }

  predicate MayForce(last: Option<Nanos>, now: Nanos) {
    last.None? || now - last.value >= FORCED_REFRESH_MIN_INTERVAL
  }

  /** What the relying party remembers: the cached pair and its two clocks. */
  datatype Memory = Memory(metadata: Metadata, client: Client, lastRefresh: Nanos, lastForced: Option<Nanos>)

  function Refreshed(m: Memory, credentials: int, fetched: Option<Metadata>): Memory {
    match fetched
    case None => m
    case Some(doc) => m.(metadata := doc, client := Client(doc, credentials))
  }

  /** The memory after a scheduled refresh: its clock moves whether or not the fetch succeeds. */
  function AfterScheduled(m: Memory, credentials: int, jwksTtl: Nanos, checkedAt: Nanos, stampedAt: Nanos,
                          fetched: Option<Metadata>): Memory
  {
    if IsStale(m.lastRefresh, checkedAt, jwksTtl)
    then Refreshed(m.(lastRefresh := stampedAt), credentials, fetched)
    else m
  }

  /** The memory after a forced refresh; `resetAt` is when a success resets the ordinary clock,
      unless that one is being held. */
  function AfterForced(m: Memory, credentials: int, checkedAt: Nanos, stampedAt: Nanos, fetched: Option<Metadata>,
                       resetAt: Option<Nanos>): (Memory, bool)
  {
    if !MayForce(m.lastForced, checkedAt) then (m, false)
    else
      var m' := Refreshed(m.(lastForced := Some(stampedAt)), credentials, fetched);
      (if fetched.Some? && resetAt.Some? then m'.(lastRefresh := resetAt.value) else m', fetched.Some?)
  }

  /** A scheduled refresh, in every case: one TTL after the last it records the attempt, whatever
      becomes of it; a fetched document replaces the pair, and a failed fetch keeps it. */
  lemma ScheduledAnswers(m: Memory, credentials: int, jwksTtl: Nanos, checkedAt: Nanos, stampedAt: Nanos,
                         fetched: Option<Metadata>)
    ensures AfterScheduled(m, credentials, jwksTtl, checkedAt, stampedAt, fetched) ==
            if checkedAt - m.lastRefresh < jwksTtl then m
            else if fetched == None then Memory(m.metadata, m.client, stampedAt, m.lastForced)
            else Memory(fetched.value, Client(fetched.value, credentials), stampedAt, m.lastForced)
  {
  }

  /** A forced refresh, in every case: it reports success exactly when a minute has passed since the
      last attempt and the document was fetched, and then the pair is the fetched one's and the
      ordinary clock is reset if it is free; a failed fetch only records the attempt, and one too
      early records nothing. */
  lemma ForcedAnswers(m: Memory, credentials: int, checkedAt: Nanos, stampedAt: Nanos, fetched: Option<Metadata>,
                      resetAt: Option<Nanos>)
    ensures var tooEarly := m.lastForced.Some? && checkedAt - m.lastForced.value < 60 * NANOS_PER_SEC;
            AfterForced(m, credentials, checkedAt, stampedAt, fetched, resetAt) ==
            if tooEarly then (m, false)
            else if fetched == None then (Memory(m.metadata, m.client, m.lastRefresh, Some(stampedAt)), false)
            else
              var lastRefresh := if resetAt == None then m.lastRefresh else resetAt.value;
              (Memory(fetched.value, Client(fetched.value, credentials), lastRefresh, Some(stampedAt)), true)
  {
  }

  class OidcRp {
    const credentials: int
    const jwksTtl: Nanos
    var metadata: Metadata
    var client: Client
    var lastRefresh: Nanos
    var lastForced: Option<Nanos>

    predicate Valid()
      reads this
    {
      client == Client(metadata, credentials)
    }

    function Remembers(): Memory
      reads this
    {
      Memory(metadata, client, lastRefresh, lastForced)
    }

    /** `discover`, once the provider's document has been fetched. */
    constructor (fetched: Metadata, credentials: int, jwksTtl: Nanos, now: Nanos)
      ensures Valid() && metadata == fetched && lastRefresh == now && lastForced == None
      ensures this.credentials == credentials && this.jwksTtl == jwksTtl
    {
      this.credentials := credentials;
      this.jwksTtl := jwksTtl;
      metadata := fetched;
      client := Client(fetched, credentials);
      lastRefresh := now;
      lastForced := None;
    }

    /** `refresh_metadata`: a failed fetch keeps the cached document and client. */
    method RefreshMetadata(fetched: Option<Metadata>) returns (ok: bool)
      requires Valid()
      modifies this`metadata, this`client
      ensures Valid() && ok == fetched.Some?
      ensures Remembers() == Refreshed(old(Remembers()), credentials, fetched)
    {
      if fetched.None? {
        return false;
      }
      var newClient := Client(fetched.value, credentials);
      metadata := fetched.value;
      client := newClient;
      return true;
    }

    /** `refresh_if_stale`. The clock is reset before the fetch, so a failing provider is asked
        once per TTL. */
    method RefreshIfStale(busy: bool, checkedAt: Nanos, stampedAt: Nanos, fetched: Option<Metadata>)
      requires Valid()
      modifies this`metadata, this`client, this`lastRefresh
      ensures Valid()
      ensures Remembers() == if busy then old(Remembers())
                          else AfterScheduled(old(Remembers()), credentials, jwksTtl, checkedAt, stampedAt, fetched)
    {
      if busy {
        return;
      }
      if checkedAt - lastRefresh < jwksTtl {
        return;
      }
      lastRefresh := stampedAt;
      var _ := RefreshMetadata(fetched);
    }

    /** `force_refresh_for_retry`. The attempt is recorded before the fetch; a success also
        resets the ordinary clock, unless that one is being held. */
    method ForceRefreshForRetry(busy: bool, checkedAt: Nanos, stampedAt: Nanos, fetched: Option<Metadata>,
                                resetAt: Option<Nanos>)
      returns (ok: bool)
      requires Valid()
      modifies this`metadata, this`client, this`lastRefresh, this`lastForced
      ensures Valid()
      ensures (Remembers(), ok) == if busy then (old(Remembers()), false)
                                else AfterForced(old(Remembers()), credentials, checkedAt, stampedAt, fetched, resetAt)
    {
      if busy {
        return false;
      }
      match lastForced {
        case Some(last) =>
          if checkedAt - last < FORCED_REFRESH_MIN_INTERVAL {
            return false;
          }
        case None =>
      }
      lastForced := Some(stampedAt);
      ok := RefreshMetadata(fetched);
      if ok && resetAt.Some? {
        lastRefresh := resetAt.value;
      }
    }

    /** `client`: the cached client, refreshed first if stale, is the one built from the
        cached document. */
    method CurrentClient(busy: bool, checkedAt: Nanos, stampedAt: Nanos, fetched: Option<Metadata>) returns (c: Client)
      requires Valid()
      modifies this`metadata, this`client, this`lastRefresh
      ensures Valid() && c == Client(metadata, credentials)
      ensures Remembers() == if busy then old(Remembers())
                          else AfterScheduled(old(Remembers()), credentials, jwksTtl, checkedAt, stampedAt, fetched)
    {
      RefreshIfStale(busy, checkedAt, stampedAt, fetched);
      return client;
    }
  }
}

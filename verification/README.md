# A verified model of the OIDC backend-for-frontend

The crate is an OpenID Connect relying party that keeps its sessions on the server. This project
models its four stateful cores in Dafny and proves what they promise over whole runs, for every
interleaving, input or fault.

**The session store** (`Store`, `StoreAnswers`, `StoreRuns`, `Expiry`, `RoundTrips`, `Logout`,
`Lifetime`, `RowBounds`, `Writers`, `Watches`, `RenewalRaces`, `Removals`, `RaceWitnesses`, `Renewal`).
A repository maps keys to rows. `load`, `save`, `update`, `update_ttl` and `delete` are small programs
over its atomic operations: `Advance` is one step of one call, and `DbSessionStore` is the same five
operations as methods of an object, each proved to do what its steps do when nothing intervenes. A run
interleaves the steps of any number of calls with a clock that never goes back. Every step may read a
different clock value; any repository operation may be refused, or take effect and lose its reply; and a
repository may or may not filter expired rows by itself. Time is integer nanoseconds; the `i64` range
and chrono's ranges are explicit.

**The session flow** (`SessionState`, `PreAuthSlots`, `Login`, `SessionFlow`, `SessionObject`,
`SessionTheorems`, `SessionAnswers`, `SessionSlots`, `FailedLogins`, `WriteOrder`). A session is an
object whose entries the handlers insert and remove one by one, in the handlers' own order; any
insertion may fail. The token exchange and the ID token's validation are arbitrary outcomes. Requests on
one session are sequential. `CrateWrites` joins this core to the store: what the store's theorems ask of
writers is proved of the crate's requests.

**The redirect composer** (`Utf8`, `FormUrlencoded`, `ParamNames`, `Config`, `Redirect`,
`RedirectTheorems`). Redirect targets and queries are byte strings. The form-urlencoded parser and
serializer follow sections 5.1 and 5.2 of the WHATWG URL Standard, on top of lossy UTF-8 decoding.

**The JWKS refresh protocol** (`Jwks`, `JwksRuns`, `JwksAlone`, `JwksFetches`, `JwksDelays`,
`JwksTotals`). `OidcRp` is the object; `JwksRuns` interleaves any number of callers at lock, clock and
network granularity, and lets a caller be cancelled wherever it awaits; `JwksAlone` connects the two;
`JwksFetches` bounds the fetches the provider sees, and `JwksDelays` and `JwksTotals` say when a bound
fails.

## Findings

Some properties hold only under a condition, which is proved exact, or fail in a way the proofs show:

- The store and the extractor agree on every login stamp exactly while the clock is at least a minute
  and one lifetime before the end of chrono's range; nearer to it the store is the stricter of the two
  (`Expiry.EnforcersAgree`).
- A row the missing-row fallback inserts can outlive its session's deadline by almost the pre-auth TTL
  (`RowBounds.FallbackOutlivesDeadline`); it does so unless the capped TTL ends by the deadline
  (`RowBounds.FallbackKeepsDeadlineExactlyWhen`). The lifetime still holds, because `load` refuses it.
- An anonymous row can be renewed: a renewal finds the row while it has `sub`, an update in place drops
  `sub`, and the renewal's touch extends what is now an anonymous row (`RaceWitnesses.AnonymousRowIsRenewed`).
  That is the only way (`RenewalRaces.AnonymousRowIsTouchedExactlyWhen`), and no update of the crate's own
  does it (`CrateWrites.CrateRowsStayBounded`).
- Renewals move an expiry only forward one at a time. Overlapped by another renewal
  (`RaceWitnesses.OverlappingRenewalsShorten`) or by an update of the same row
  (`RaceWitnesses.UpdateOverlapsRenewal`), a touch can move it back: exactly when the last expiry written
  since its lookup lies beyond its price (`RenewalRaces.TouchLowersExactlyWhen`). For two renewals that is
  when the later touch was priced for an earlier end that lies before the deadline
  (`RenewalRaces.OverlappingRenewalsShortenExactlyWhen`).
- The best-effort delete of a load can remove a live session that an update of an expired row has just
  revived (`RaceWitnesses.LoadRemovesLiveRow`). `Removals.LiveRowIsRemovedExactlyWhen` says exactly when a
  step other than a logout removes a row that a load would return.
- Saturating arithmetic makes the freshness check accept an authentication that is too old exactly when
  the age and the skew together reach `i64::MAX`; `require_auth_within` stays far below
  (`Login.SaturationIsHarmlessExactlyWhen`).
- The list of login attempts is removed from the session before it is written back, so a callback or a
  login whose write fails loses every pending attempt (`SessionSlots.FailedWriteLosesEveryTab`). Another
  tab's attempt survives a callback exactly when that write succeeds
  (`SessionSlots.CallbackSparesOtherTabs`).
- A callback that fails right after renewing the session leaves it usable. If writing the subject failed,
  the old subject is accepted for a full lifetime from the new login's stamp; if writing the issuer failed
  after it, the new subject is read with the old issuer; after any other failure only new values are read
  (`FailedLogins.RenewedCallbackLeaves`, `FailedLogins.FailedSubjectRestartsLifetime`). Which entries are
  the new login's then, the tokens included, is exactly those written before the first failing place
  (`WriteOrder.RenewedCallbackLeavesExactly`).
- The rate bound on recorded attempts, one per TTL and one per minute plus two
  (`JwksRuns.InternalAttemptsAreBounded`), holds of the fetches the provider sees exactly when no fetch
  leaves later than its attempt was recorded (`JwksTotals.TotalBoundHoldsExactlyWhen`). A nanosecond's
  delay of either kind breaks it (`JwksTotals.ScheduledDelayBreaks`, `JwksTotals.ForcedDelayBreaks`). A
  scheduled refresh releases its lock before it fetches, so any number of scheduled fetches can leave at
  one instant (`JwksDelays.FetchesPileUp`). A forced refresh keeps its lock through its fetch, so forced
  fetches obey a bound of their own without any condition, one per minute plus two
  (`JwksFetches.ForcedFetchesAreBounded`). With the longest scheduled delay allowed for, all fetches
  together obey a bound (`JwksFetches.InternalFetchesAreBounded`), which is attained
  (`JwksTotals.ForcedFetchesMeet`).

## What the statements rest on

- A generated session key differs from every earlier one and from every key a caller named before.
- `Lifetime.AbsoluteLifetime` holds for writers that keep, lower or drop the login stamp but do not raise
  it (`Lifetime.Obedient`), and `Writers.KeptRowsStayBounded` for writers that keep `sub` and the stamp of
  their key's session (`Writers.Keeps`). Updates of a loaded session after logins, failed callbacks,
  extractions and application writes meet both (`CrateWrites.CrateRunsAreAllowed`).
- Applications write only their own session keys. The ten reserved keys are constructors of `Field`,
  and `Custom` stands for any other name.
- A session value is an integer, a string, a list of keys, a list of slots, other JSON, or text that is
  not JSON.
- `Utc::now()` reads an instant from the epoch to a minute before chrono's maximum; outside it the
  crate panics.

## Model

| member | source | states |
|---|---|---|
| `Store.Repository.Get` | src/store.rs:170 | Returns the row if one is stored and visible; changes nothing; may fail |
| `Store.Repository.Insert` | src/store.rs:172 | Adds exactly the given row, unless refused; the reply may be lost |
| `Store.Repository.Update` | src/store.rs:173-185 | Replaces state and expiry of a visible row, unless refused, and says whether there was one; never inserts |
| `Store.Repository.Touch` | src/store.rs:186-207 | Moves the expiry of a live row and nothing else, unless refused; never inserts |
| `Store.Repository.Delete` | src/store.rs:208-209 | Removes exactly this key's row, unless refused; the reply may be lost |
| `Store.DbSessionStore.Load` | src/store.rs:567-619 | Rows left and outcome are those of the `load` step program run alone: expired and over-age rows are deleted best-effort, unreadable ones are an error |
| `Store.DbSessionStore.Save` | src/store.rs:622-660 | Rows and outcome are those of the `save` step program: stamped, priced, inserted under the new key, or refused |
| `Store.DbSessionStore.Update` | src/store.rs:663-749 | Rows and outcome are those of the `update` step program: dead states delete, missing rows drop tokens or re-insert under a new key with the capped TTL |
| `Store.DbSessionStore.UpdateTtl` | src/store.rs:752-865 | Rows and outcome are those of the `update_ttl` step program: never renews anonymous rows, clamps before the write-skip guard |
| `Store.DbSessionStore.Delete` | src/store.rs:868-878 | Rows and outcome are those of the one-step `delete` program |
| `Store.DbSessionStore.WithPreAuthTtl` | src/store.rs:324-328 | Changes only the pre-auth TTL: to the given one if usable, to the default if not positive, to a year if longer |
| `Store.DbSessionStore.WithMaxLifetime` | src/store.rs:341-345 | Changes only the maximum lifetime, likewise |
| `Store.DbSessionStore.WithTouchCoalesce` | src/store.rs:355-358 | Changes only the coalescing window: to the nearest usable one |
| `StoreAnswers.SaveAnswers` | src/store.rs:622-660 | Alone, a save ends in the new key if and only if its insert succeeds and the stamped state has a price; the new row is then exactly the stamped state at that price and no other row changes; without a price it fails and changes nothing |
| `StoreAnswers.LoadAnswers` | src/store.rs:567-619 | Alone, a load returns exactly a shown, readable, unexpired row whose stamp, if it has `sub`, is alive; removes exactly an expired or over-age row; and fails on an unreadable one |
| `StoreAnswers.UpdateAnswers` | src/store.rs:663-749 | Alone, an update without a price removes its row, one of a shown row replaces it at its price, and one of a missing row drops a token-bearing state or inserts exactly the others, under a new key and for the shorter TTL |
| `StoreAnswers.RenewalAnswers` | src/store.rs:752-865 | Alone, a renewal moves the expiry of a live authenticated row to its price if and only if that is ahead by the window; removes exactly expired, unreadable or unpriceable ones; leaves anonymous ones |
| `StoreAnswers.DeleteAnswers` | src/store.rs:868-878 | Alone, a delete removes exactly its key's row unless refused, and reports any fault |
| `Expiry.HardCapExactly` | src/store.rs:496-516 | An authenticated state is alive if and only if its stamp is readable, at most a minute ahead, less than the maximum old, and its deadline within chrono's range; its cap is then that deadline |
| `Expiry.PriceExactly` | src/store.rs:522-540 | A state has an expiry if and only if the TTL's end (for an anonymous one the shorter TTL's) is within chrono's range and an authenticated one is alive; it is then the earlier of the two ends |
| `RoundTrips.PricedRowLoads` | src/store.rs:578-619 | A row holding a priced state loads as that state exactly until the priced expiry |
| `RoundTrips.SaveThenLoad` | src/store.rs:622-660 | What was saved, stamped, is what loads under the new key, exactly until its expiry; no other row changes |
| `RoundTrips.UpdateThenLoad` | src/store.rs:706-713 | What an update of an existing row wrote is what loads, exactly until its expiry; no other row changes |
| `StoreRuns.KeysStayInOrder` | src/store.rs:542-549 | Every step of every call keeps: no key about to be inserted was ever used, and no two calls are about to insert the same one |
| `StoreRuns.KeysAlwaysInOrder` | src/store.rs:542-549 | So it holds in every run from an empty store |
| `Logout.DeadStaysDead` | src/store.rs:186-207 | Once a row is gone, no interleaving of any calls ever has a row under its key again |
| `Logout.LogoutIsFinal` | src/store.rs:706-749 | In any run, once a logout's delete takes effect its key never has a row again and every later lookup finds nothing |
| `Logout.RacingTokenWriteIsDropped` | src/store.rs:715-729 | An update carrying a token, racing a logout of its key, never changes any row, under that key or another, however the run continues |
| `Logout.TokensEnterBySaveOnly` | src/store.rs:722-748 | In any run a token-bearing row appears under a new key only by a save's insert, never by the missing-row fallback |
| `Lifetime.FitsAlways` | src/store.rs:671-704 | The lineage invariant (no row, loaded row or pending write carries a later stamp than its lineage began with) survives every run of obedient writers |
| `Lifetime.AbsoluteLifetime` | src/store.rs:586-614 | Across updates, renewals, races and the fallback's key changes, a load returns a session as authenticated only before its lineage's first stamp plus the maximum, hence within the maximum plus 60 s of a login |
| `RowBounds.InitiallyBounded` | src/store.rs:218-231 | The row invariant holds of an empty store |
| `RowBounds.RowsStayBounded` | src/store.rs:522-540 | In every run whose touches find the identity their renewals looked up, every row expires by its deadline if it has `sub`, else within the pre-auth TTL of its last write; only a row as the fallback made it is bounded by the pre-auth TTL instead |
| `Writers.AnonymousRowsAreNeverRenewed` | src/store.rs:807-818 | In every run whose updates keep the identity of their key, no step of a renewal changes a row without `sub` |
| `Writers.KeepingRunsAreSteady` | src/store.rs:807-863 | In those runs every touch finds the identity its renewal looked up |
| `Writers.KeptRowsStayBounded` | src/store.rs:522-540 | So every row of those runs is bounded: the row bounds rest on what writers do |
| `RenewalRaces.AnonymousRowIsTouchedExactlyWhen` | src/store.rs:807-863 | In any run a renewal's touch changes an anonymous row if and only if it takes effect on a live row at a different expiry and an update in place dropped `sub` since the lookup |
| `RenewalRaces.TouchIsSteadyExactlyWhen` | src/store.rs:807-863 | In any run a touch finds the identity its renewal looked up if and only if the row last written since, if any, kept it |
| `RaceWitnesses.AnonymousRowIsRenewed` | src/store.rs:807-863 | A run from an empty store in which a touch moves an anonymous row from ten minutes to an hour |
| `CrateWrites.RequestsKeepIdentity` | src/handlers/callback.rs:337-486 | Whatever logins, rejected callbacks, extractions and application writes follow one another, the session keeps `sub` and its stamp |
| `CrateWrites.CrateRunsAreAllowed` | src/store.rs:663-749 | Runs whose updates are of loaded sessions after such requests meet both conditions on writers |
| `CrateWrites.CrateRowsStayBounded` | src/store.rs:522-540 | In those runs every row is bounded |
| `CrateWrites.CrateLifetime` | src/store.rs:586-614 | In those runs a load returns a session as authenticated only within the maximum plus 60 s of when the session its key descends from was first saved |
| `RowBounds.FallbackOutlivesDeadline` | src/store.rs:737-742 | A concrete purged session is re-inserted to expire 590 s past its deadline, and `load` deletes it there |
| `RowBounds.FallbackKeepsDeadlineExactlyWhen` | src/store.rs:737-742 | The fallback's row respects its deadline if and only if the capped TTL, from the insert's own clock reading, ends by then |
| `RowBounds.RenewalAloneNeverShortens` | src/store.rs:841-863 | An undisturbed renewal keeps the state and never moves the expiry back |
| `RaceWitnesses.OverlappingRenewalsShorten` | src/store.rs:841-863 | A run from an empty store in which two renewals of one row overlap and the second touch moves the expiry back by five seconds |
| `RenewalRaces.OverlappingRenewalsShortenExactlyWhen` | src/store.rs:841-863 | Of two renewals of one live row that touch one after the other, the second moves the expiry back if and only if it was priced for an earlier end that lies before the deadline; with one TTL, if and only if it read the clock earlier and its end lies before the deadline |
| `RenewalRaces.TouchLowersExactlyWhen` | src/store.rs:841-863 | In any run, whatever overlaps, a touch lowers an expiry if and only if it takes effect on a live row and the last expiry a touch or an update wrote since the lookup exceeds its price; and only if one was written |
| `RaceWitnesses.UpdateOverlapsRenewal` | src/store.rs:841-863 | A run from an empty store in which an update gives a row two hours and an overlapped touch sets one |
| `Watches.CallIsWatched` | src/store.rs:567-865 | In any run, a load or a renewal between its lookup and its end still knows what it found and why it judged so, and the row under its key is the last one written since |
| `Removals.LiveRowIsRemovedExactlyWhen` | src/store.rs:586-614 | In any run a step other than a logout removes a row that a load would return if and only if it is an effective best-effort delete of a dead update, or of a load or renewal whose key was rewritten since the lookup, or whose judged stamp the clock has caught up with, or that was asked for a TTL no clock reading admits |
| `Removals.LoadableIsLoaded` | src/store.rs:578-617 | A row counts as live exactly when a load judging it would return its state |
| `Removals.DeadStaysUnloadable` | src/store.rs:496-516 | A verdict of death by a load goes out of date only if the clock catches up with a stamp from the future |
| `Removals.UnrenewableStaysUnloadable` | src/store.rs:775-831 | So does one by a renewal, unless its TTL could not be added to the clock |
| `RaceWitnesses.LoadRemovesLiveRow` | src/store.rs:586-594 | A run from an empty store in which a load's delete removes a row that an acknowledged update gave an hour to live |
| `Renewal.ServeLive` | src/store.rs:820-863 | A renewal of a live authenticated row changes nothing but its expiry: to the priced one if that is at least the window ahead, else not at all |
| `Renewal.CoalescingRefines` | src/store.rs:841-858 | Over any sequence of renewals the coalesced expiry never exceeds the one written on every request, lags it by less than the window, and equals it when the window is zero |
| `Renewal.WritesAreBounded` | src/store.rs:833-863 | Touches times the window is at most the distance from the initial expiry to the hard cap, and no touch sets an expiry past the hard cap |
| `Renewal.KeepAlive` | src/store.rs:775-863 | Requests at most TTL minus window apart all find their session live, up to one window before the hard cap |
| `Expiry.PolicyFromConfig` | src/store.rs:301-308 | A configuration yields a policy exactly when both durations are whole seconds between one and the year's limit, and the policy holds exactly those numbers |
| `Expiry.ClampPositiveTtl` | src/store.rs:433-449 | The result is always a usable TTL, and a usable input is kept |
| `Expiry.ClampTouchCoalesce` | src/store.rs:457-473 | A usable window, zero included, is kept; a negative one becomes zero and one above a year becomes a year |
| `Expiry.InjectLoginAtIfMissing` | src/store.rs:402-420 | Afterwards `sub` implies a stamp; every other entry, and a stamp already there, is kept; an added stamp is the current second |
| `Expiry.StampingHeals` | src/store.rs:389-420 | An authenticated state without a stamp is dead for both enforcers; stamped, the extractor accepts it, and the store exactly when the new deadline is inside chrono's range |
| `Expiry.EffectiveExpiryBounds` | src/store.rs:522-540 | A priced anonymous state gets the shorter of the two TTLs; a priced authenticated one the TTL or its deadline, whichever is first, with the deadline still ahead and the stamp at most 60 s in the future |
| `Expiry.TwelveHourFallbackIsDead` | src/store.rs:556-561 | Whenever `update` reaches its fallback insert the duration converts, so the expiry is exactly the capped TTL and never the twelve hours |
| `Expiry.WholeSecondsSuffice` | src/extractor.rs:102-128 | Comparing a whole second with a sub-second instant gives the same answer as comparing it with that instant rounded down |
| `Expiry.EnforcersAgreeOn` | src/extractor.rs:102-128 | For every stamp, well formed or not, the store's and the extractor's lifetime checks agree when the clock is early enough |
| `Expiry.EnforcersAgree` | src/store.rs:496-516 | They agree on all stamps if and only if now + 60 s + the maximum is inside chrono's range |
| `Utf8.LossyReadsBack` | src/session_state.rs:157-163 | Every string survives encoding to bytes and lossy decoding, so encoding is injective |
| `Utf8.NoReplacementMeansUnaltered` | src/handlers/callback.rs:92-106 | Bytes that decode without U+FFFD were well formed: re-encoding gives the same bytes |
| `Utf8.DecodeFrontOfEncoding` | src/handlers/callback.rs:92-106 | A scalar's own bytes decode to it at its own width, whatever follows |
| `Utf8.EncodingOfFront` | src/handlers/callback.rs:92-106 | A scalar read from bytes re-encodes to exactly those bytes |
| `Utf8.ReplacedIsMaximal` | src/handlers/callback.rs:92-106 | One replacement character stands for a longest stretch that begins a scalar value, or for one byte |
| `FormUrlencoded.ParseConcat` | src/handlers/callback.rs:217 | Joining two query strings with `&` joins their parsed pairs |
| `FormUrlencoded.ParseSerialize` | src/handlers/callback.rs:267-269 | Parsing a serialized list of pairs gives the list back, names and values unchanged and in order |
| `FormUrlencoded.SerializedBytesDecode` | src/handlers/callback.rs:267-269 | Percent-encoding is undone exactly, for every byte string |
| `FormUrlencoded.SerializeBytesIsSafe` | src/handlers/callback.rs:264-269 | The encoder emits only unreserved bytes, `%` and `+`, and at most three bytes for one |
| `FormUrlencoded.IndexOfIsFirst` | src/handlers/callback.rs:235-242 | Splitting at a separator splits at its first occurrence |
| `FormUrlencoded.ParseOneSegment` | src/handlers/callback.rs:217 | A segment is split at its first `=`; without one it is a name with an empty value, and an empty segment is no pair |
| `FormUrlencoded.RawBytesStep` | src/handlers/callback.rs:217 | From the left, `+` is a space, `%` and two hex digits are one byte, and anything else stands for itself |
| `FormUrlencoded.HexValueExactly` | src/handlers/callback.rs:217 | Exactly the hex digits of either case have a value, their place's |
| `FormUrlencoded.SerializedByteIs` | src/handlers/callback.rs:267-269 | A space becomes `+`, letters, digits and `*-._` stay, and every other byte is `%` and two upper-case hex digits |
| `ParamNames.AcceptedNameNeedsNoEscaping` | src/param_names.rs:158-187 | An accepted name is 1 to 64 bytes and serializes to itself |
| `ParamNames.TrimRemovesOnlyWhitespace` | src/handlers/login.rs:268 | Trimming removes whitespace from both ends and nothing else |
| `ParamNames.NameAcceptedExactlyWhen` | src/param_names.rs:158-187 | A name is accepted if and only if it is 1 to 64 ASCII letters, digits, `_`, `.` and `-` and no denied name in any mix of cases |
| `ParamNames.SameIgnoringCase` | src/param_names.rs:183 | Names agree ignoring case if and only if each pair of characters is equal or the two cases of one ASCII letter |
| `Config.NormalizePassthroughParams` | src/config.rs:972-1029 | The loop returns the surviving names, or the first problem in list order |
| `Config.NormalizationAcceptsExactly` | src/config.rs:965-1029 | It accepts exactly the lists whose surviving names are valid, distinct and at most eight, and keeps precisely those; otherwise the count, or the problem of the first name after an acceptable prefix, is reported |
| `Config.SurvivingConcat` | src/config.rs:973-978 | The list of names is normalized name by name, in order |
| `Config.SurvivingOne` | src/config.rs:976-977 | A name is trimmed, and left out if it is all whitespace |
| `Config.ProblemAtMeans` | src/config.rs:987-1027 | A name is a problem exactly when it is badly spelt or denied, or stands earlier in the list; the report names it |
| `Redirect.Position` | src/handlers/callback.rs:218-220 | Finds the first allowlist entry equal to a name, or none if there is none |
| `Redirect.Select` | src/handlers/callback.rs:216-233 | The single pass leaves in each slot what the pairs decide about that allowlist entry |
| `Redirect.FirstOccurrenceDecides` | src/handlers/callback.rs:204-226 | A name is forwardable with a value if and only if its first copy has that value and it is usable: a dropped first copy is never revived |
| `Redirect.AppendPair` | src/handlers/callback.rs:264-285 | One pair is committed if and only if it fits the budget with its joiner |
| `Redirect.AppendContribution` | src/handlers/callback.rs:253-285 | One allowlist entry extends the appended bytes to the serialization of what is kept so far |
| `Redirect.AppendAll` | src/handlers/callback.rs:253-286 | The loop's bytes are the serialization of the kept candidates |
| `Redirect.AppendPassthrough` | src/handlers/callback.rs:199-294 | The result is the composed target the theorems below are about |
| `RedirectTheorems.PassthroughPreservesMeaning` | src/handlers/callback.rs:235-294 | Same path, same fragment, and the parsed query is the old parsed query followed by exactly the forwarded pairs, for any input |
| `RedirectTheorems.ForwardedPairsAreGenuine` | src/handlers/callback.rs:217-262 | Forwarded pairs come in allowlist order, each carries its name's first, usable value, and none is named in `return_to` |
| `RedirectTheorems.AppendedNamesAreUnique` | src/handlers/callback.rs:244-262 | No appended name repeats another, appended or already present |
| `RedirectTheorems.ForwardedBytesAreExact` | src/handlers/callback.rs:92-106 | A forwarded value decodes at the application to the very bytes the provider sent |
| `RedirectTheorems.BudgetIsUsedGreedily` | src/handlers/callback.rs:264-286 | At most 1024 bytes are appended, the first candidate is always kept, and every candidate left out would still not fit at the end |
| `RedirectTheorems.OfferedIsForwarded` | src/handlers/callback.rs:216-293 | What is forwarded is allowlisted, usable, the first of its name and not in `return_to`; and every such parameter is in the final target's parsed query, or its encoding and the appended bytes exceed 1024 together |
| `RedirectTheorems.ForwardedExactly` | src/handlers/callback.rs:252-286 | Name by name in allowlist order: the offered pair is appended if and only if it has room beside those before it; nothing else is |
| `RedirectTheorems.BytesAreKept` | src/handlers/callback.rs:235-293 | The target is `return_to` unchanged, or with `&` or `?` and the forwarded pairs inserted where its fragment begins; `&` exactly if there is a `?` before it |
| `RedirectTheorems.PartsOfTarget` | src/handlers/callback.rs:235-242 | A target is its path, its query behind the first `?` before the fragment, and its fragment from the first `#` |
| `RedirectTheorems.ForwardablePairSize` | src/handlers/callback.rs:61-79 | A forwardable pair takes at most 64 + 1 + 3 * 256 bytes |
| `RedirectTheorems.GuardNeverTrips` | src/handlers/callback.rs:296-319 | A validated `return_to` composes to a target that passes the final guard and has at most 1537 bytes |
| `RedirectTheorems.LocationIsComposed` | src/handlers/callback.rs:564-591 | Neither the empty-allowlist shortcut nor the fallback to the prefix changes the answer |
| `RedirectTheorems.AcceptedStaysBelowPrefix` | src/handlers/login.rs:47-76 | Any accepted target other than the prefix lies below it at a path-segment boundary |
| `RedirectTheorems.AcceptedExactlyWhen` | src/handlers/login.rs:47-76 | A target is accepted if and only if it has at most 512 bytes, all printable ASCII, begins with `/`, has no `//`, `:/` or backslash, and is the prefix or below it across a `/` |
| `RedirectTheorems.HarmlessKeepsHost` | src/handlers/callback.rs:296-319 | Such a target, as a browser reads it after stripping blanks and line breaks, has no scheme and does not begin with two slashes of either kind |
| `SessionState.EitherEncodingReadsBack` | src/session_state.rs:38-54 | Every `i64` stamp reads back from both of its encodings |
| `SessionState.StringStampExactly` | src/session_state.rs:48-54 | A string is a stamp if and only if it is digits after at most one sign with a value in `i64`; it is then that value |
| `SessionState.OtherStampsExactly` | src/session_state.rs:48-54 | Of other JSON, exactly the integers in `i64` are stamps |
| `SessionState.ConstantTimeEqIsEquality` | src/session_state.rs:157-163 | The XOR fold decides exactly string equality |
| `PreAuthSlots.PushPreAuth` | src/session_state.rs:170-179 | Keeps the newest four entries at most, in order, then the new one |
| `PreAuthSlots.SameState` | src/session_state.rs:157-163 | Answers whether the two states are equal |
| `PreAuthSlots.TakeMatching` | src/session_state.rs:192-211 | Splits the list into its first match and all the others in order |
| `PreAuthSlots.PrunedIsSubsequence` | src/session_state.rs:213-224 | Pruning keeps exactly the entries of age 0 to the TTL, in order |
| `PreAuthSlots.UnexpiredExactly` | src/session_state.rs:213-224 | A slot is unexpired if and only if the clock is between its start and its start plus the TTL; saturation changes no verdict |
| `PreAuthSlots.IncompleteCallbackTakesNothing` | src/handlers/callback.rs:373-378 | A callback without a state, or with neither code nor error, keeps exactly the unexpired attempts |
| `PreAuthSlots.SlotsFollowIssueOrder` | src/handlers/login.rs:541-565 | Over any run the slots are issued attempts in issue order, and a login leaves at most five |
| `PreAuthSlots.StatesAreSingleUse` | src/handlers/callback.rs:337-393 | With distinct issued states no run consumes one twice, and nothing consumed is in the list again |
| `PreAuthSlots.AttemptStaysRedeemable` | src/handlers/login.rs:541-565 | Through any callbacks for other states and the next four logins, an attempt's own timely callback consumes exactly it, if and only if every list on the way could be written |
| `PreAuthSlots.AttemptSurvivesExactlyWhen` | src/handlers/login.rs:541-565 | Through the same requests the attempt is still in the list if and only if its own list and every later one could be written |
| `PreAuthSlots.HeldAttemptIsRedeemed` | src/handlers/callback.rs:380-393 | An unexpired attempt in the list is what its own callback consumes |
| `PreAuthSlots.OtherTabsKeepTheirSlots` | src/handlers/callback.rs:350-393 | Another state's unexpired slot survives a callback of any outcome if and only if the list could be written; what survives keeps its order |
| `PreAuthSlots.LoginKeepsTheNewest` | src/handlers/login.rs:541-565 | A slot survives a login if and only if the list could be written and at most three unexpired slots came after it |
| `Login.CheckAll` | src/handlers/login.rs:266-304 | The loop returns all trimmed pairs, or the first problem in order |
| `Login.New` | src/handlers/login.rs:251-310 | Yields the trimmed parameters in order, or the error of the first check that fails |
| `Login.NewAcceptsExactly` | src/handlers/login.rs:251-310 | Accepts exactly the lists of at most eight parameters without a problem, and keeps them with names trimmed; otherwise the first problem after an acceptable prefix is the error |
| `Login.AcceptedExactly` | src/handlers/login.rs:216-240 | Such lists are those of at most eight parameters, each well named, not reserved and of at most 512 bytes without control characters, no two with one name in any mix of cases |
| `Login.RequestCarries` | src/handlers/login.rs:509-537 | The request carries all of the crate's parameters and the route's, and `max_age` if and only if the route requires an age |
| `Login.NoParameterRepeats` | src/handlers/login.rs:509-537 | The authorization request never carries one parameter name twice, not even in different case |
| `Login.SaturationChangesNothing` | src/handlers/callback.rs:140-186 | The saturating check accepts exactly when `started_at - auth_time <= max_age + 60` and `auth_time - now <= 60`, below the overflow edge |
| `Login.SaturationIsHarmlessExactlyWhen` | src/handlers/callback.rs:140-186 | It does so for all times if and only if `max_age + 60 < i64::MAX` |
| `Login.FreshnessIsMonotone` | src/handlers/callback.rs:172-183 | Waiting never turns an accepted authentication into a rejected one |
| `Login.RequestedAgeIsEnforced` | src/handlers/login.rs:361-375 | Exactly the whole-second ages up to a year are accepted, and the age requested of the provider is the one in the slot |
| `SessionObject.Session.Insert` | src/session_state.rs:231-240 | Sets one entry, or fails and changes nothing |
| `SessionObject.Session.Remove` | src/handlers/callback.rs:503-515 | Removes exactly one entry and returns what it held |
| `SessionObject.Session.RemoveAll` | src/handlers/callback.rs:506-515 | Removes exactly the listed entries |
| `SessionObject.Session.Renew` | src/handlers/callback.rs:492-493 | Marks the session for a new key and keeps its entries |
| `SessionObject.Session.Purge` | src/extractor.rs:129-132 | Empties the session and marks it purged |
| `SessionObject.Session.WriteAll` | src/handlers/callback.rs:526-562 | Performs writes in order up to the first that fails |
| `SessionObject.Session.WriteClaims` | src/handlers/callback.rs:544-549 | Writes the persisted claims the token has and collects their names, stopping at a failure |
| `SessionObject.StartLogin` | src/handlers/login.rs:479-570 | Entries and answer are the login specification's: refuse, or prune, push and write back one slot |
| `SessionObject.TakeSlot` | src/handlers/callback.rs:337-393 | Consumes the matching slot and writes the rest back, on each of the three early paths |
| `SessionObject.Scrub` | src/handlers/callback.rs:503-515 | Removes the optional identity, the tokens, the claim list and every claim it names |
| `SessionObject.WriteIdentity` | src/handlers/callback.rs:517-562 | Performs the identity's writes in order up to the first that fails |
| `SessionObject.Callback` | src/handlers/callback.rs:328-596 | Entries, status and response are the callback specification's, for every outcome and every failing write |
| `SessionObject.Extract` | src/extractor.rs:71-174 | Result and purge are the extraction specification's; otherwise the session is untouched |
| `SessionTheorems.ExtractionAnswers` | src/extractor.rs:71-174 | Extraction purges if and only if `sub` is a string, the configuration is there and the stamp's lifetime is over; it answers exactly the other sessions with `sub`, with their entries as they are, and refuses and spares the rest |
| `SessionTheorems.CallbackIsAtomicBeforeRenewal` | src/handlers/callback.rs:337-501 | Every exit before the renewal, and a failure to stamp, leave all entries but the slot list exactly as they were |
| `SessionTheorems.CallbackKeepsSound` | src/handlers/callback.rs:492-562 | On every exit, failures between inserts included, `sub` implies the login stamp, and the claim list names no reserved key |
| `SessionTheorems.SoundAlways` | src/config.rs:843-856 | That invariant holds over every run of logins, callbacks, extractions, logouts and application writes |
| `SessionTheorems.WrittenHolds` | src/handlers/callback.rs:517-562 | A list of writes leaves each field with its last written value, and others alone |
| `SessionTheorems.IdentityWritesHold` | src/handlers/callback.rs:517-562 | What a login writes under each key is a function of the token and the configured claims alone |
| `SessionTheorems.SelectedNamesAre` | src/handlers/callback.rs:47-60 | The persisted names are exactly the configured ones the token has |
| `SessionTheorems.ReadBackNow` | src/handlers/callback.rs:503-562 | After a successful callback the extractor reads the new token's identity, whatever was in the session before |
| `SessionTheorems.ReadBackIsExact` | src/extractor.rs:71-174 | After any history, a successful callback, and any new login attempts, rejected callbacks, extractions and values the application stores or removes under keys other than the persisted claims, extraction returns the new identity and persisted claims and nothing else exactly while the stamped lifetime lasts, and purges otherwise |
| `FailedLogins.RenewedCallbackLeaves` | src/handlers/callback.rs:492-562 | Of a callback that renewed and stamped the session: a failure at the subject leaves the old identity, bare, under the new stamp; one at the issuer leaves the new subject with the old issuer; after any other everything read is the new token's |
| `FailedLogins.FailedSubjectRestartsLifetime` | src/handlers/callback.rs:492-533 | In the first case the old subject is accepted exactly until the maximum after the new stamp |
| `FailedLogins.ClaimsAreNewOrNone` | src/handlers/callback.rs:535-549 | Whichever write fails, the claims read back are all of the new ones or none |
| `WriteOrder.RenewedCallbackLeavesExactly` | src/handlers/callback.rs:492-562 | Whichever writes fail after the stamp: an entry is the new login's if and only if a write of it comes before the first failing place; otherwise it is gone if a previous login left it, and as it was if not |
| `SessionAnswers.SuccessLeavesExactly` | src/handlers/callback.rs:492-562 | A success leaves exactly the new login's entries and stamp, nothing of a previous login's optional parts, tokens or listed claims, and everything else as it was |
| `SessionAnswers.LoginAnswers` | src/handlers/login.rs:479-570 | A login is accepted if and only if the target it asks for (the prefix, if none) is valid and its list can be written; its slot then holds exactly that target, the drawn state, verifier and nonce, the time and the required age; a refused one changes nothing |
| `SessionAnswers.HopelessCallbackAnswers` | src/handlers/callback.rs:337-393 | A callback that cannot write its list, reports an error, lacks a code or state, or names no timely attempt is refused and changes only the list |
| `SessionAnswers.AwaitedCallbackAnswers` | src/handlers/callback.rs:396-596 | For a pending attempt: it goes on if and only if the ID token is valid and, where the route asked for an age, fresh enough and of the subject the session holds; a plain route may switch accounts; it then succeeds if and only if no write fails |
| `SessionTheorems.StepUpIsHonoured` | src/handlers/callback.rs:450-485 | A callback redeeming a step-up attempt goes on only if the token proves an authentication that recent, for the subject already logged in |
| `SessionSlots.StepUpHoldsInRuns` | src/handlers/callback.rs:450-485 | Over session runs: from a login whose route required re-authentication, whatever happens in between, no callback naming its state renews the session unless the token proves an authentication that recent at the login, by the subject the session then holds |
| `SessionTheorems.CallbackServesSlots` | src/handlers/callback.rs:337-393 | On every exit the session's slot list is what the slot machine says, and a success consumed a slot |
| `SessionTheorems.LoginServesSlots` | src/handlers/login.rs:541-565 | So is it after a login |
| `SessionTheorems.EveryRedirectIsSafe` | src/handlers/callback.rs:564-596 | In every run each success redirects to the composed target of a validated `return_to`, which passes the guard |
| `SessionSlots.SessionFollowsMachine` | src/handlers/callback.rs:337-393 | In every run of a session the slot list is the slot machine's and, with distinct issued states, every attempt in it or consumed was issued once |
| `SessionSlots.StateLogsInOnce` | src/handlers/callback.rs:373-393 | In every run with distinct issued states a callback succeeds only for an attempt of this session that no earlier callback consumed |
| `SessionSlots.CallbackSparesOtherTabs` | src/handlers/callback.rs:337-393 | Another tab's unexpired attempt survives a callback of any outcome if and only if the slot list could be written |
| `SessionSlots.LoginSparesOtherTabs` | src/handlers/login.rs:541-565 | An attempt survives another login if and only if the target that one asks for is invalid, or its list could be written and at most three unexpired attempts came after |
| `SessionSlots.FailedWriteLosesEveryTab` | src/handlers/callback.rs:373-378 | A callback without parameters whose write fails empties the list |
| `SessionSlots.LoginStaysPending` | src/handlers/login.rs:541-565 | In every run, if nothing takes it and at most four logins follow, a login's attempt stays in the session if and only if every list on the way could be written |
| `SessionSlots.LoginIsAlone` | src/handlers/login.rs:541-565 | In every run with distinct issued states no other attempt has a login's state |
| `SessionSlots.LoginCompletes` | src/handlers/callback.rs:337-596 | In every run, through at most four more logins, callbacks for other states, extractions and the application's own changes, a callback with the login's state succeeds if and only if every list on the way could be written, it comes between the login and the TTL after it with a code and without an error, the ID token is valid and meets the age the route asked for, if any, and no write fails; it then establishes exactly the token's identity and redirects to the composed form of the very target asked for |
| `Jwks.OidcRp.constructor` | src/oidc.rs:225-271 | The client is the one built from the fetched document; both clocks start fresh |
| `Jwks.OidcRp.RefreshMetadata` | src/oidc.rs:315-335 | A fetched document replaces document and client together; a failure keeps both |
| `Jwks.OidcRp.RefreshIfStale` | src/oidc.rs:294-308 | Refreshes exactly when free and stale, and resets the clock even if the fetch fails |
| `Jwks.OidcRp.ForceRefreshForRetry` | src/oidc.rs:349-379 | Refreshes exactly when free and a minute has passed, records the attempt even if it fails, and a success resets the ordinary clock unless held |
| `Jwks.OidcRp.CurrentClient` | src/oidc.rs:286-289 | Returns the client built from the cached document, after a due refresh |
| `Jwks.ScheduledAnswers` | src/oidc.rs:294-308 | Every case of a scheduled refresh: before the TTL nothing; after it the clock moves, and the pair is the fetched document's or as it was |
| `Jwks.ForcedAnswers` | src/oidc.rs:349-379 | Every case of a forced one: it succeeds if and only if a minute has passed and the document was fetched; the pair, both clocks and the answer are given |
| `JwksRuns.LocksAgreeStep` | src/oidc.rs:294-379 | Every step keeps each lock held by exactly the caller whose position says so, cancellations included |
| `JwksRuns.SafeAlways` | src/oidc.rs:294-379 | Lock ownership, document and client agreement and the spacing of attempts hold in every run |
| `JwksRuns.ClientsMatchMetadata` | src/oidc.rs:179-184 | In every interleaving a caller is handed the client of the document cached at that moment |
| `JwksRuns.ForcedAttemptsAreRare` | src/oidc.rs:349-363 | At most one forced attempt is in flight, and their starts are at least 60 s apart |
| `JwksRuns.InternalAttemptsAreBounded` | src/oidc.rs:294-379 | In any window the attempts, as their clocks recorded them, are at most one per TTL plus one per minute plus two |
| `JwksFetches.HonestAlways` | src/oidc.rs:294-379 | In every run each fetch belongs to one recorded attempt and leaves no earlier; a forced one leaves before the next is recorded |
| `JwksFetches.ScheduledFetchesAreBounded` | src/oidc.rs:294-308 | With fetches leaving within a delay of being recorded, a window sees at most one scheduled fetch per TTL of the window and the delay together, plus one |
| `JwksFetches.ForcedFetchesAreBounded` | src/oidc.rs:349-379 | Without any condition, any third forced fetch in a row leaves at least 60 s after the first, and a window sees at most one per minute plus two |
| `JwksFetches.InternalFetchesAreBounded` | src/oidc.rs:294-379 | In any window T, with scheduled fetches delayed by at most d, the fetches are at most (T + d) per TTL plus T per minute plus three; with forced ones so too, (T + d) per TTL plus (T + d) per minute plus two |
| `JwksDelays.FetchesPileUp` | src/oidc.rs:301-305 | For every n a run sends n scheduled fetches at one instant, with delays of at most n - 1 TTLs: the scheduled bound with the delay is attained, and the total bound without it fails from three on |
| `JwksDelays.StampBoundHoldsExactlyWhen` | src/oidc.rs:301-305 | Of scheduled fetches taken alone: one per TTL plus one holds in all runs with a given longest scheduled delay if and only if that delay is zero |
| `JwksTotals.TotalBoundHoldsExactlyWhen` | src/oidc.rs:294-379 | Of all fetches: one per TTL and one per minute plus two holds in all runs with given longest scheduled and forced delays if and only if both are zero |
| `JwksTotals.ScheduledDelayBreaks` | src/oidc.rs:294-308 | A run whose scheduled fetches are at most a nanosecond late and whose forced ones are punctual exceeds that bound, for every TTL |
| `JwksTotals.ForcedDelayBreaks` | src/oidc.rs:349-379 | So does one whose forced fetches are at most a nanosecond late and whose scheduled ones are punctual |
| `JwksTotals.ForcedFetchesMeet` | src/oidc.rs:349-379 | A run in which a forced fetch delayed by a minute meets the next forced one and a punctual scheduled one: three fetches at one instant, which attains the bound that asks nothing of forced fetches |
| `JwksAlone.SoloClientMatches` | src/oidc.rs:286-308 | A caller of `client` left alone in the interleaved machine does what the object's method does |
| `JwksAlone.SoloForcedMatches` | src/oidc.rs:349-379 | So does a caller of `force_refresh_for_retry`, its answer included, even while the ordinary clock is held |
| `JwksAlone.SoloManualMatches` | src/oidc.rs:315-335 | A caller of `refresh_metadata` replaces the pair and reports success exactly when the document was fetched, and leaves both clocks alone |
| `JwksAlone.HeldClockTurnsAway` | src/oidc.rs:294-353 | A caller that finds its clock held changes nothing: it is handed the cached client, or told that the forced refresh failed |

## Left out

- HTTP, discovery, the token exchange, signature checking, PKCE and nonce generation: arbitrary outcomes or parameters of the model.
- The `actix-session` middleware and its cookie: only the store calls it makes, in any order, and the session's own insert, remove, renew and purge.
- Concurrent requests that share one loaded session map: the crate does not serialise them, so the session flow is sequential; interleavings are modelled at the repository.
- URL parsing, origins and the CSRF check (`src/csrf.rs`, parts of `src/config.rs`, `src/handlers/logout.rs`): they rest on the `url` crate. A logout is a store delete, or the emptying of the session.
- How long a comparison of states takes: only its result.
- JSON and serialization failures inside the store: a failed serialization or key generation ends a call before it reaches the repository.
- Rejection of validation-artifact claim names, scope normalization, TTL ordering and the builder's other checks: they supply nothing the theorems use.
- chrono's panic when an addition leaves its range: `ExpiryFromTtl` adds without a limit, and clock readings keep a minute of headroom.
- Renewal.CoalescingRefines: covers renewals that do not overlap and find the row live; `RenewalRaces` says what overlapping ones do.
- `src/handlers/me.rs`, `src/error.rs`, `src/routes.rs`, `src/middleware.rs`, getters, logging and key decoding: plumbing.

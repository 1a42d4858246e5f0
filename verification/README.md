# A verified model of Paid2You's limiter, audit trail, sessions and money fields

Dafny models of the parts of the repository whose behaviour spans many calls, with proofs
over every input, every run or every interleaving. `dafny verify dfyconfig.toml` checks the
whole project.

- **Rate limiter** (`RateLimit`, `RateLimitRuns`). Both stores as classes, the fail-open
  wrapper, and the older saturating limiter. Over whole runs: the exact most that m windows
  let through under clocks of any skew, exact counts under any interleaving of instances,
  independence of keys and of faults, the SQL upsert as a refinement of the in-memory store,
  and a simulation between the versions with the exact condition under which they agree.
- **Audit log** (`Json`, `JsonText`, `Texts`, `AuditHash`, `AuditText`, `AuditChain`,
  `AuditProtocol`, `AtomicAppend`). What bytes are hashed, character by character, and that
  they decode uniquely, by parsers that invert the printers; tamper evidence; the forks a
  two-step `record` allows and exactly when; and the later locked transaction, which never
  forks and never gets stuck.
- **Accounts and sessions** (`Auth`, `AuthRuns`, `AuthAccounts`, `AuthSessions`,
  `AuthTrail`, `EmailSpelling`, `Trimming`, `Password`). The service as a class over its
  in-memory repositories, proved equal to functions on its whole state; then, over every
  sequential run, what the trail tells, which accounts exist and under which spellings, and
  exactly which tokens validate, when and for whom.
- **Dollars and cents** (`Binary64`, `Decimals`, `NumberText`, `Money`). Binary64 rounding on
  reals, which texts are numbers and what they are worth, and exactly which amounts a money
  field shows how and gives back.
- **Lists and codecs** (`Notifications`, `Pagination`, `Phone`, `FeatureFlags`,
  `WebhookSignature`).

Text is a sequence of UTF-16 code units, as in JavaScript. The digest and HMAC are arbitrary
functions to 32 bytes; scrypt is any function that may reject, and where the length of its
key matters that is a stated hypothesis. Nothing assumes a digest without collisions, which
would be contradictory: results that need one conclude "or these two events collide", or
ask only that the finitely many tokens, or events, of the run at hand be kept apart. Random
ids and tokens, clock readings and outages are parameters of each call.

## Where the code and its description part

- `UNUSABLE_PASSWORD_HASH` is said to fail for every password. It fails unless the derived
  key is all zeros (`Password.PlaceholderAcceptsZeroKey`); login still refuses then, as there
  is no account (`AuthAccounts.LoginNeedsAccount`).
- Optional keys appended to the hashed table are said to leave the hash input of earlier call
  sites unchanged. That holds exactly for events that set none of them
  (`AuditHash.LaterKeysKeepOldHashes`). A stored row, though, is read back with null for what
  was left out, and null is printed: recomputing the hash from such a row does not give the
  hashed text (`AuditHash.RestoredVerifiesIff`).
- A comment in the archive handler says there is nothing to revert, while the code below it
  puts the item back. With equal timestamps it comes back in a different place
  (`Notifications.TieLosesOrder`).
- The open handler is said to revert its mark when the server refuses. It does not if the
  group is away on an archive request just then: the item then comes back read
  (`Notifications.MissedMarkStays`, `Notifications.RestoredIffNoneMissed`).
- The page number is not turned back when an archived item was the last on its page, so the
  view can be empty while items remain (`Notifications.ArchiveEmptiesPageIff`).
- The change-request form starts its installment field with the whole amount, so that
  submitted unedited it proposes a first payment and installments of the full sum
  (`Money.SubmitUnedited`).
- Money fields give back every amount only below 3518437208883202 cents, well short of the
  2^53 up to which integers are exact; which larger ones are lost follows from residues
  modulo 25 (`Money.RoundTripLimit`, `Money.FieldGivesBackIff`).

## Model

| member | source | states |
|---|---|---|
| `RateLimit.InMemoryRateLimitStore.IncrementAndCheck` | src/lib/rate-limit.ts:69-83 | An armed fault rejects once, is used up and leaves the buckets alone; otherwise a call with no live window starts one at count 1, any other call adds one to the live window, and no other key changes. |
| `RateLimit.UpsertRefinesInMemory` | src/lib/rate-limit.ts:34-58 | The single SQL upsert succeeds exactly when both instants are representable dates and the live count fits the integer column; it then returns the in-memory store's count and leaves the same buckets. |
| `RateLimit.UpsertIs` | src/lib/rate-limit.ts:34-58 | In numbers: it goes through exactly when now and now + window lie within 8640000000000000 of zero and a live row's count is below 2147483647, and then writes exactly the row the statement says. |
| `RateLimit.DrizzleRateLimitStore.IncrementAndCheck` | src/lib/rate-limit.ts:34-58 | The database store rejects exactly on an outage or a rejected statement, given in numbers, and then changes no row; otherwise it does what the in-memory store would do on the same rows. |
| `RateLimit.RateLimiter.CheckRateLimit` | src/lib/rate-limit.ts:160-179 | Allowed exactly when the store rejected (fail open) or its count is within the limit, for the test store when one is installed and for the database store otherwise, here with the new row in numbers; the other store is untouched. |
| `RateLimit.RateLimiter.ResetRateLimits` | src/lib/rate-limit.ts:187-191 | Installs a new, empty, fault-free in-memory store. |
| `RateLimit.LegacyRateLimiter.CheckRateLimit` | src-backup-before-redesign/lib/rate-limit.ts:21-35 | The older limiter: opens a window and allows, or refuses at the limit without counting, or counts and allows. |
| `RateLimitRuns.WithinBudget` | src/lib/rate-limit.ts:69-83 | The invariant behind the bounds: after any run, under any clocks, the calls allowed inside an interval fit what the current window and those before it can have granted. |
| `RateLimitRuns.SkewedBound` | src/lib/rate-limit.ts:69-83 | If no reading falls more than d behind the latest so far, any half-open interval m windows of W long contains at most m * limit + (2 + floor((d - 2) / W)) * (limit - 1) calls the store let through, whatever other keys, limits and faults are interleaved. |
| `RateLimitRuns.SkewedBoundIsMet` | src/lib/rate-limit.ts:69-83 | That number is exact: for every limit, window, m and d some run reaches it. |
| `RateLimitRuns.SlidingWindowBound` | src/lib/rate-limit.ts:69-83 | With readings that never go back the bound is at most (m + 1) * limit - 1. |
| `RateLimitRuns.SlidingWindowBoundIsMet` | src/lib/rate-limit.ts:69-83 | Some chronological run meets (m + 1) * limit - 1, for every m, if and only if the window is two milliseconds or more or the limit is 1. |
| `RateLimitRuns.FailOpenBound` | src/lib/rate-limit.ts:160-179 | Failing open adds at most one admitted call per faulted call of the interval to the bound for d. |
| `RateLimitRuns.WindowCounts` | src/lib/rate-limit.ts:34-58 | The calls landing in one window get exactly the counts 1, 2, 3, ... in order and exactly min(n, limit) of n are allowed, for any interleaving and any clocks. |
| `RateLimitRuns.OneWindowCounts` | src/lib/rate-limit.ts:69-83 | The calls on a key that read clocks within one window get the counts 1, 2, 3, ... in the order they come. |
| `RateLimitRuns.NextWindowStarts` | src/lib/rate-limit.ts:69-83 | Whatever the clocks do and however long the windows, a key's next window starts no earlier than the one before it ends. |
| `RateLimitRuns.WindowStartsApart` | src/lib/rate-limit.ts:69-83 | Windows of one length start at least that far apart, even if the clock goes back in between. |
| `RateLimitRuns.AnyInterleavingAllowsLimit` | src/lib/rate-limit.ts:160-179 | For every schedule of any number of instances whose clocks lie within one window, exactly min(total calls issued, limit) calls are allowed. |
| `RateLimitRuns.KeysIndependent` | src/lib/rate-limit.ts:69-83 | The outcomes on a key, and its bucket, are those of the run with every other key removed. |
| `RateLimitRuns.FaultsLeaveNoTrace` | src/lib/rate-limit.ts:168-178 | Deleting the faulted calls from a run changes no bucket and no other outcome. |
| `RateLimitRuns.TableIsStore` | src/lib/rate-limit.ts:34-58 | Over every run, without exception, the table holds what the in-memory store holds after the same run with the rejected statements counted as faults, which is how callers see them. |
| `RateLimitRuns.RejectedIff` | src/lib/rate-limit.ts:34-58 | A statement is rejected if and only if an instant is no date or the count it would write, over the run its callers saw, exceeds the column. |
| `RateLimitRuns.SameBuckets` | src/lib/rate-limit.ts:34-58 | No statement of a run is rejected if and only if every call that reaches the database has representable instants and an in-memory count that fits the column; the table then holds the in-memory store's buckets, however long the run. |
| `RateLimitRuns.DatabaseRefinesInMemory` | src/lib/rate-limit.ts:34-58 | Every call that reaches the database gets the in-memory store's count, call for call, if and only if all calls fit in that sense. |
| `RateLimitRuns.OrdinaryRunsGoThrough` | src/lib/rate-limit.ts:34-58 | With all instants from 0 to 8640000000000000 and fewer than 2147483648 calls no statement of a run is rejected. |
| `RateLimitRuns.OrdinaryRunsCount` | src/lib/rate-limit.ts:34-58 | In such a run the calls on a key within one window get the counts 1, 2, 3, ... from the table. |
| `RateLimitRuns.SimulationStep` | src-backup-before-redesign/lib/rate-limit.ts:21-35 | From buckets related by older count = min(newer count, limit) and equal reset times, one call gets the same verdict from both limiters and keeps the relation. |
| `RateLimitRuns.LegacySimulation` | src-backup-before-redesign/lib/rate-limit.ts:21-35 | Over every fault-free run with one limit of at least 1 per key the two limiters give the same verdicts and stay so related. |
| `RateLimitRuns.FirstCallAtZero` | src/lib/rate-limit.ts:174 | With a limit below 1 the older limiter allows the first call of a key and the newer one refuses it. |
| `RateLimitRuns.LegacyAgreesIffPositive` | src-backup-before-redesign/lib/rate-limit.ts:21-35 | The two limiters agree on all fault-free runs with given limits if and only if every limit is at least 1. |
| `Utf8.DecodeInverts` | src-backup-before-redesign/lib/audit/hash.ts:72-75 | Feeding text without lone surrogates to the hash as UTF-8 loses nothing: a decoder gives the text back. |
| `Utf8.OneByte` | src-backup-before-redesign/lib/audit/hash.ts:72-75 | A unit below 0x80 is hashed as itself. |
| `Utf8.TwoBytes` | src-backup-before-redesign/lib/audit/hash.ts:72-75 | A unit below 0x800 is two bytes, of five and six of its bits. |
| `Utf8.ThreeBytes` | src-backup-before-redesign/lib/audit/hash.ts:72-75 | Any other unit that is no surrogate is three bytes, of four, six and six bits. |
| `Utf8.PairBytes` | src-backup-before-redesign/lib/audit/hash.ts:72-75 | A surrogate pair is four bytes, of three, six, six and six bits of its scalar value. |
| `Utf8.LoneSurrogateBytes` | src-backup-before-redesign/lib/audit/hash.ts:72-75 | A lone surrogate is the three bytes 239, 191, 189. |
| `Utf8.ConcatBytes` | src-backup-before-redesign/lib/audit/hash.ts:72-75 | The bytes of a concatenation are those of its parts, when no pair is split. |
| `Texts.UnitsAre` | src-backup-before-redesign/lib/audit/hash.ts:22-38 | A literal of the basic plane is its characters' code points, in order. |
| `Json.ParseInverts` | src-backup-before-redesign/lib/audit/hash.ts:52 | Parsing printed JSON gives back the value and what followed it, for every JSON value and whatever follows; only after a bare number must the next character not continue the number (strings escaped per section 7 of RFC 8259). |
| `Json.StringifyInjective` | src-backup-before-redesign/lib/audit/hash.ts:52 | Two JSON values with the same printed text are the same value. |
| `Json.StringifyWellFormed` | src-backup-before-redesign/lib/audit/hash.ts:52 | Printed JSON never holds a lone surrogate, so its bytes determine it. |
| `JsonText.PlainPrints` | src-backup-before-redesign/lib/audit/hash.ts:52 | A string of units from 0x20 up with no quote, backslash or surrogate prints as itself between two quotes. |
| `JsonText.ShortEscapesPrint` | src-backup-before-redesign/lib/audit/hash.ts:52 | Quote, backslash and the units 8, 9, 10, 12 and 13 print as their two-unit escapes. |
| `JsonText.LongEscapesPrint` | src-backup-before-redesign/lib/audit/hash.ts:52 | Any other unit below 0x20, and a lone surrogate, prints as a backslash, a u and the four lower-case hex digits of its value. |
| `JsonText.PairPrints` | src-backup-before-redesign/lib/audit/hash.ts:52 | A surrogate pair prints as itself. |
| `JsonText.ConcatPrints` | src-backup-before-redesign/lib/audit/hash.ts:52 | Printing a concatenation is the concatenation of the prints, when no pair is split. |
| `JsonText.WordsPrint` | src-backup-before-redesign/lib/audit/hash.ts:52 | null, true and false print as those words, and a number as its text. |
| `JsonText.ArraysPrint` | src-backup-before-redesign/lib/audit/hash.ts:52 | An array prints as its printed values between brackets, commas between and nothing else. |
| `JsonText.ObjectsPrint` | src-backup-before-redesign/lib/audit/hash.ts:52 | An object prints as its printed keys and values with colons, between braces, commas between and nothing else. |
| `AuditHash.Canonicalize` | src-backup-before-redesign/lib/audit/hash.ts:47-53 | The property-by-property copy prints the defined properties of the key table in table order. |
| `AuditHash.ComputeAuditEventHash` | src-backup-before-redesign/lib/audit/hash.ts:67-77 | Three updates of one hash object digest secret, previous hash or GENESIS, and canonical text, in that order. |
| `AuditHash.DecodeStreamInverts` | src-backup-before-redesign/lib/audit/hash.ts:67-77 | For a fixed secret the hashed bytes are uniquely decodable: they give back the previous hash and every hashed property. |
| `AuditHash.StreamEqualIff` | src-backup-before-redesign/lib/audit/hash.ts:67-77 | Two events feed the hash the same bytes if and only if their previous hashes and all hashed properties agree. |
| `AuditHash.CanonicalEqualIff` | src-backup-before-redesign/lib/audit/hash.ts:22-53 | Canonical texts are equal if and only if the payloads agree on every key of the table, so insertion order and other properties do not matter. |
| `AuditHash.NestedOrderMatters` | src-backup-before-redesign/lib/audit/hash.ts:47-53 | Only the top level is canonical: swapping two different members of a nested object changes the hashed bytes. |
| `AuditHash.LaterKeysKeepOldHashes` | src/lib/audit/hash.ts:20-73 | Appending the optional keys to the table keeps an event's canonical text if and only if the event sets none of them. |
| `AuditHash.RestoredVerifiesIff` | src/lib/audit/drizzleAuditEventRepository.ts:35-61 | A row read back carries null for each unset column; recomputing from it gives the hashed text if and only if every key had been set. |
| `AuditText.HashIs` | src-backup-before-redesign/lib/audit/hash.ts:67-77 | The hash is the hex of the digest of the secret's bytes, then those of the previous hash or of the seven letters GENESIS, then those of the canonical text. |
| `AuditText.EventPrints` | src-backup-before-redesign/lib/audit/hash.ts:22-53 | The canonical text of an event of the service, character by character, for the values that vary. |
| `AuditText.LaterKeysPrint` | src/lib/audit/hash.ts:54-58 | The three later keys print under their names and in their order. |
| `AuditChain.InMemoryAuditEventRepository.GetLastEvent` | src-backup-before-redesign/lib/auth/testFakes.ts:87-89 | Returns the last event, or nothing for an empty log. |
| `AuditChain.InMemoryAuditEventRepository.InsertEvent` | src-backup-before-redesign/lib/auth/testFakes.ts:91-95 | Appends one event under the next id and changes no other. |
| `AuditChain.AuditService.Record` | src-backup-before-redesign/lib/audit/auditService.ts:34-40 | Without interference, appends exactly one event hashed over the tail and keeps a valid chain valid. |
| `AuditChain.AppendKeepsChain` | src-backup-before-redesign/lib/audit/auditService.ts:34-40 | Appending the next event to a valid chain gives a valid chain. |
| `AuditChain.SameHashSameEvent` | src-backup-before-redesign/lib/audit/hash.ts:67-77 | Two events whose hashes hold and agree have the same previous hash and hashed properties, or exhibit a collision of the digest. |
| `AuditChain.TamperEvidence` | src-backup-before-redesign/lib/audit/auditService.ts:34-40 | Two logs that pass the link-and-hash check and end in the same hash agree entry by entry and in length, or hold a colliding pair. |
| `AuditChain.EditShows` | src-backup-before-redesign/lib/audit/hash.ts:67-77 | Replacing any event of a valid log by a different one (the last, under its old hash) breaks the check, or exhibits a collision. |
| `AuditChain.SwapShows` | src-backup-before-redesign/lib/audit/auditService.ts:34-40 | So does swapping any two events of a valid log, the last included; a collision, if any, is within the log. |
| `AuditChain.DropShows` | src-backup-before-redesign/lib/audit/auditService.ts:34-40 | So does dropping any run of events that stops short of the last. |
| `AuditChain.TruncationAndIdsPass` | src-backup-before-redesign/lib/audit/hash.ts:67-77 | What the check cannot see: every prefix of a valid log passes, whatever its events' ids. |
| `AuditProtocol.InvHolds` | src-backup-before-redesign/lib/audit/auditService.ts:34-40 | Under every schedule of two-step writers each event's hash holds and was computed over the tail of an earlier state of the log. |
| `AuditProtocol.PreviousIsEarlier` | src-backup-before-redesign/lib/audit/auditService.ts:34-40 | Under every schedule an event's previous hash is absent or the hash of a strictly earlier event. |
| `AuditProtocol.SameHashSameDepth` | src-backup-before-redesign/lib/audit/auditService.ts:34-40 | Without collisions, events with equal hashes sit equally far from a root, even if an event occurs twice. |
| `AuditProtocol.LogIsForest` | src-backup-before-redesign/lib/audit/drizzleAuditEventRepository.ts:41-78 | Without collisions no walk along previous-hash links returns to a hash it left, however it chooses among equal hashes. |
| `AuditProtocol.StaleIffOvertaken` | src-backup-before-redesign/lib/audit/auditService.ts:34-40 | An insert uses a stale tail if and only if another client inserted between its read and its insert. |
| `AuditProtocol.LinearIffUndisturbed` | src-backup-before-redesign/lib/audit/auditService.ts:34-40 | The log is a single line if and only if no insert was overtaken in that way. |
| `AuditProtocol.TwoReadersFork` | src/lib/audit/auditService.ts:22-45 | The shortest fork: two clients read the empty log and both insert a first event. |
| `AtomicAppend.FindRecorded` | src/lib/audit/drizzleAuditEventRepository.ts:105-134 | The lookup by provider event and action finds a committed event with that key, or there is none. |
| `AtomicAppend.NeverForks` | src/lib/audit/drizzleAuditEventRepository.ts:105-134 | Under every schedule of locked transactions and aborts the committed log is one valid chain, ids increase, no provider event is recorded twice for one action, and only the lock holder is past waiting. |
| `AtomicAppend.AppendOnly` | src/lib/audit/drizzleAuditEventRepository.ts:105-134 | Later steps only extend the committed log. |
| `AtomicAppend.TurnEnds` | src/lib/audit/drizzleAuditEventRepository.ts:105-134 | A client that holds the lock, and alone moves, frees it within four statements (five from a free lock), touches nobody else, and leaves what it set out to record in the log. |
| `AtomicAppend.NobodyStuck` | src/lib/audit/drizzleAuditEventRepository.ts:105-134 | From every reachable state every open transaction can be brought to its end without an abort, within nine statements of its own and the lock holder's, with what it set out to record in the log. |
| `AtomicAppend.AloneItRecords` | src/lib/audit/drizzleAuditEventRepository.ts:105-134 | Run alone on a new event, the transaction appends exactly the event `record` would and frees the lock. |
| `AtomicAppend.AloneItRepeatsNothing` | src/lib/audit/drizzleAuditEventRepository.ts:105-134 | Run alone on a recorded provider event it leaves the whole state as it was. |
| `AtomicAppend.FindRecordedIff` | src/lib/audit/drizzleAuditEventRepository.ts:105-134 | By the two property names alone: an event is found if and only if some committed event has the same non-empty provider event id and the same action. |
| `AtomicAppend.AloneIff` | src/lib/audit/drizzleAuditEventRepository.ts:105-134 | Run alone, the transaction leaves the log as it was if and only if there is such an event, and then the whole state; otherwise it appends exactly the next event. |
| `AtomicAppend.RecordedAtMostOnce` | src/lib/audit/drizzleAuditEventRepository.ts:105-134 | Under every schedule no two committed events have the same non-empty provider event id and the same action. |
| `Auth.NormalizeIdempotent` | src-backup-before-redesign/lib/auth/authService.ts:70-72 | Normalising an email twice is normalising it once. |
| `Trimming.Middle` | src-backup-before-redesign/lib/auth/authService.ts:70-72 | Trimming leaves the middle of a text between runs of the 25 space units, with no such unit at either end. |
| `EmailSpelling.OuterSpacesIgnored` | src-backup-before-redesign/lib/auth/authService.ts:70-72 | Adding spaces around an email does not change what it normalises to. |
| `EmailSpelling.BareAlikeIff` | src-backup-before-redesign/lib/auth/authService.ts:70-72 | Emails without outer spaces normalise alike if and only if they have equal length and agree unit by unit up to the case of A to Z. |
| `EmailSpelling.NormalForm` | src-backup-before-redesign/lib/auth/authService.ts:70-72 | A normal email holds no A to Z and no outer space, and an email without either is left as it is. |
| `EmailSpelling.SameSpellingIff` | src-backup-before-redesign/lib/auth/authService.ts:70-72 | Two emails normalise alike if and only if they differ in outer spaces and the case of A to Z only. |
| `Auth.InMemoryUserAccountRepository.FindByEmail` | src-backup-before-redesign/lib/auth/testFakes.ts:22-27 | The loop returns the first account with the email in insertion order, or nothing when none has it. |
| `Auth.InMemoryUserAccountRepository.Insert` | src-backup-before-redesign/lib/auth/testFakes.ts:33-42 | Stores an active account: a new id goes last, a known id is overwritten in place. |
| `Auth.InMemorySessionRepository.Insert` | src-backup-before-redesign/lib/auth/testFakes.ts:48-64 | Stores an unrevoked session under its id. |
| `Auth.InMemorySessionRepository.FindByTokenHash` | src-backup-before-redesign/lib/auth/testFakes.ts:66-71 | The loop returns the first session with the hash, or nothing when none has it. |
| `Auth.InMemorySessionRepository.Revoke` | src-backup-before-redesign/lib/auth/testFakes.ts:73-76 | Revokes the session with the id and no other; an unknown id changes nothing. |
| `Auth.AuthService.SignupUser` | src-backup-before-redesign/lib/auth/authService.ts:88-128 | Determines the whole new state and the reply: refuses a bad length, a taken email or a rejected derivation with nothing changed; otherwise stores the account, then a signup event, a session and a login event. |
| `Auth.AuthService.LoginUser` | src-backup-before-redesign/lib/auth/authService.ts:130-170 | Likewise for login: the password is checked against the account's record, or a placeholder; a refusal leaves one failure event and no session, success one session and one login event. |
| `Auth.AuthService.LogoutSession` | src-backup-before-redesign/lib/auth/authService.ts:172-195 | Likewise for logout: an unknown or revoked token changes nothing, any other has its session revoked and one event recorded, expired or not. |
| `Auth.AuthService.ValidateSession` | src-backup-before-redesign/lib/auth/authService.ts:202-215 | Reads only; answers with the user of the token's session, unless that is unknown, revoked or at its expiry, or the user is gone. |
| `Auth.AuthService.OpenSession` | src-backup-before-redesign/lib/auth/authService.ts:217-250 | Stores one session and records one login event. |
| `AuthRuns.PayloadTells` | src-backup-before-redesign/lib/auth/authService.ts:88-195 | Action, actor, time and address can be read back from every payload the service records. |
| `AuthRuns.CallExtendsLog` | src-backup-before-redesign/lib/auth/authService.ts:88-250 | Each call keeps the chain valid, extends the log as a prefix, and appends exactly the entries of its reply: 2 for accepted signup, 1 for login accepted or refused for its credentials, 1 for accepted logout, 0 otherwise. |
| `AuthRuns.TrailTellsHistory` | src-backup-before-redesign/lib/auth/testFakes.ts:83-96 | After every run the trail passes the chain check and holds, in order, the entries of the calls' replies; whose logout or refused login it was is here read from the state before the call. |
| `AuthAccounts.AccountsAreSignups` | src-backup-before-redesign/lib/auth/authService.ts:88-128 | After every run the stored accounts are exactly those of the accepted signups, in order, with distinct ids and emails. |
| `AuthAccounts.EmailsUniqueAndNormal` | src-backup-before-redesign/lib/auth/authService.ts:94-107 | Stored emails are normalised and pairwise distinct. |
| `AuthAccounts.SignupRejectsRegistered` | src-backup-before-redesign/lib/auth/authService.ts:94-102 | With an acceptable password signup refuses an email if and only if an earlier accepted signup used a spelling of it. |
| `AuthAccounts.LoginReachesAccount` | src-backup-before-redesign/lib/auth/authService.ts:130-170 | Login with any spelling of a registered email reaches that account, and succeeds if and only if the password derives the registered key. |
| `AuthAccounts.LoginNeedsAccount` | src-backup-before-redesign/lib/auth/authService.ts:136-154 | With an unregistered email no password logs in. |
| `EmailSpelling.SignupRefusesSpellings` | src-backup-before-redesign/lib/auth/authService.ts:94-107 | Over every run signup refuses passwords shorter than 8 or longer than 256, then exactly the spellings of emails already signed up, then what scrypt rejects, and accepts the rest. |
| `EmailSpelling.LoginReachesSpellings` | src-backup-before-redesign/lib/auth/authService.ts:130-170 | Over every run login with any spelling reaches the account signed up, and succeeds if and only if the key derived with pepper first, 64 bytes and N, r, p of 16384, 8, 1 is the recorded one; any other email is refused after deriving the placeholder's key. |
| `EmailSpelling.StoredEmails` | src-backup-before-redesign/lib/auth/testFakes.ts:19-43 | Stored emails hold no A to Z and no outer space, and no two are spellings of one another. |
| `AuthSessions.SessionsAreIssues` | src-backup-before-redesign/lib/auth/testFakes.ts:45-81 | After every run the stored sessions are exactly those issued, in order, with their user and expiry, revoked if and only if their token was later given to logout. |
| `AuthSessions.ValidateIff` | src-backup-before-redesign/lib/auth/authService.ts:202-215 | A token validates at an instant if and only if some call issued it, no logout was given it since, and the instant is before issue time plus lifetime; the answer is then the user it was issued for. |
| `AuthSessions.LoggedOutForever` | src-backup-before-redesign/lib/auth/authService.ts:172-195 | A token given to logout after its issue never validates again, in any continuation of the run, at any instant. |
| `AuthSessions.LogoutIff` | src-backup-before-redesign/lib/auth/authService.ts:172-195 | Logout succeeds if and only if the token was issued and not logged out since; its expiry does not matter. |
| `AuthSessions.IssuedUserStays` | src-backup-before-redesign/lib/auth/authService.ts:217-250 | The account a token was issued for is still stored, under the same id and email, after any later calls. |
| `AuthTrail.AccountIsStored` | src-backup-before-redesign/lib/auth/authService.ts:94-107 | After every run the account stored for an email is the one an accepted signup with a spelling of it was answered with. |
| `AuthTrail.HolderIsStored` | src-backup-before-redesign/lib/auth/authService.ts:172-185 | After every run the session stored for a token is of the user the token was answered with. |
| `AuthTrail.TrailTellsStory` | src-backup-before-redesign/lib/auth/authService.ts:88-250 | The trail of every run is the story of its calls and replies alone: who signed up, logged in, was refused under a registered email, or logged out the token they had been given, in order. |
| `AuditText.SignupAddsTexts` | src-backup-before-redesign/lib/auth/authService.ts:88-128 | An accepted signup adds the canonical texts of a signup and of a login of the user answered, character by character; a refused one adds none. |
| `AuditText.LoginAddsText` | src-backup-before-redesign/lib/auth/authService.ts:130-170 | A login adds its one text, succeeded or failed, character by character; none when key derivation rejects. |
| `AuditText.LogoutAddsText` | src-backup-before-redesign/lib/auth/authService.ts:172-195 | An accepted logout adds the text of the logout of the session's user, character by character; a refused one adds none. |
| `AuditText.TokenHashIs` | src-backup-before-redesign/lib/auth/session.ts:16-18 | What is stored for a token is the hex of the digest of its bytes. |
| `Password.SplitInverts` | src-backup-before-redesign/lib/auth/password.ts:51-74 | Splitting at the separator undoes joining, for fields without it. |
| `Password.RecordReads` | src-backup-before-redesign/lib/auth/password.ts:51-61 | Every printed record splits back into its six fields, and each field reads back to the value printed. |
| `Password.VerifyComparesKeys` | src-backup-before-redesign/lib/auth/password.ts:68-94 | Against a record, verification accepts a candidate if and only if its derived key equals the stored one; it rejects with an error if and only if derivation does. |
| `Password.OwnPasswordAccepted` | src-backup-before-redesign/lib/auth/password.ts:51-94 | The password a record was made from is always accepted. |
| `Password.PlaceholderAcceptsZeroKey` | src-backup-before-redesign/lib/auth/password.ts:35-42 | The placeholder record accepts a password if and only if its derived key is all zeros. |
| `Password.HashPasswordIs` | src-backup-before-redesign/lib/auth/password.ts:51-61 | The record of a password is scrypt$16384$8$1$, the salt in hex, a dollar and the 64-byte key of pepper and password in hex. |
| `Password.PlaceholderText` | src-backup-before-redesign/lib/auth/password.ts:35-42 | The placeholder is that opening, 32 zeros, a dollar and 128 zeros. |
| `Password.WrongCountRefused` | src-backup-before-redesign/lib/auth/password.ts:68-94 | A stored text without exactly five dollars is refused, whatever the password. |
| `Password.SixFieldsVerified` | src-backup-before-redesign/lib/auth/password.ts:68-94 | Any other text is six fields; a first field but scrypt, or parameters that are no numbers, are refused, and otherwise the derived key is compared with the last field. |
| `Hex.FromHexInverts` | src/lib/webhookSignature.ts:11-20 | Decoding hex gives back the bytes that were encoded. |
| `Hex.HexSpells` | src-backup-before-redesign/lib/auth/password.ts:51-61 | Byte k is spelled at 2k by its high and then its low digit, among 0 to 9 and a to f. |
| `Hex.HexReads` | src/lib/webhookSignature.ts:15-20 | Reading takes pairs of digits of either case. |
| `Hex.HexStops` | src/lib/webhookSignature.ts:15-20 | Reading stops at the first pair that is not two digits. |
| `WebhookSignature.VerifyAcceptsIff` | src/lib/webhookSignature.ts:15-20 | A header is accepted if and only if it starts with exactly 32 hex pairs, in either case, spelling the digest. |
| `WebhookSignature.ComputedSignatures` | src/lib/webhookSignature.ts:11-20 | A computed signature is 64 hex digits that spell the digest; it is accepted, and one made from another digest is not (section 2 of RFC 2104). |
| `Binary64.RoundIsNearest` | src/components/AgreementTermsFields.tsx:72-76 | No double is nearer to a positive real than its rounding (section 4.3.1 of IEEE 754-2019). |
| `Binary64.RoundIsDouble` | src/components/AgreementTermsFields.tsx:72-76 | The rounding is itself a double. |
| `Binary64.RelativeError` | src/components/AgreementTermsFields.tsx:72-76 | Its relative error is at most 2^-53 for normal results. |
| `Binary64.LeastDouble` | src/components/AgreementTermsFields.tsx:72-76 | The least positive double is 2^-1074, and half of it rounds to zero. |
| `Decimals.IntegerReads` | src/lib/pagination.ts:28-34 | Printed integers below 2^53 are read back exactly by `Number`. |
| `NumberText.DigitsValueIs` | src/components/AgreementTermsFields.tsx:72-76 | Digits are read from left to right in tens. |
| `NumberText.DecimalReads` | src/components/AgreementTermsFields.tsx:72-76 | Every decimal spelling, with its sign, dot and exponent, is read as its value. |
| `NumberText.NumericParts` | src/components/AgreementTermsFields.tsx:72-76 | No other text without a radix prefix is numeric. |
| `NumberText.PrefixedReads` | src-backup-before-redesign/lib/auth/password.ts:68-94 | A zero and a letter for 16, 8 or 2 are numeric if and only if at least one digit, and only digits of that radix, follow. |
| `NumberText.RadixValueIs` | src-backup-before-redesign/lib/auth/password.ts:68-94 | Those digits are read from left to right in that radix. |
| `NumberText.ToNumberIs` | src/components/AgreementTermsFields.tsx:72-76 | Other text than blanks is read exactly if it is numeric and below 2^1024 - 2^970 in magnitude, and is then rounded to a double. |
| `NumberText.BlanksRead` | src/components/AgreementTermsFields.tsx:72-76 | Blank text is zero, and outer spaces do not count. |
| `Money.CentsRoundTrip` | src/components/AgreementInvitationReview.tsx:261-275 | Dividing cents by 100, multiplying by 100 and rounding gives the cents back, for all amounts from -100 * 2^45 to below 3518437208883202, both ends excluded. |
| `Money.CentsTextReads` | src/components/AgreementTermsFields.tsx:72-76 | Any numeric text whose exact value is that many cents, however written, is reported as those cents. |
| `Money.DollarFieldRoundTrip` | src/components/AgreementTermsFields.tsx:72-76 | A dollar field reports exactly the amount it shows. |
| `Money.DisplayText` | src/components/AgreementTermsFields.tsx:72-76 | The text shown is empty if and only if the amount is 0; for 0 < c < 3518437208883202 it has a dot two places before its end, digits elsewhere, no zero in front of another digit, and the exact value c / 100. |
| `Money.OnChangeIs` | src/components/AgreementTermsFields.tsx:72-76 | Text that is no number is reported as 0, any other as the whole number nearest to a hundred times it, the larger of two, or as infinite when that product reaches 2^1024. |
| `Money.MathRoundIs` | src/components/AgreementTermsFields.tsx:72-76 | `Math.round` gives the whole number that a value lies within a half of, the larger of two. |
| `Money.DisplayInjective` | src/components/AgreementTermsFields.tsx:72-76 | Different amounts are shown as different texts. |
| `Money.RoundTripLimit` | src/components/AgreementTermsFields.tsx:72-76 | The bound is exact: a field gives back all amounts below n if and only if n is at most 3518437208883202, the least that comes back a cent larger. |
| `Money.DollarsAndBack` | src/components/AgreementTermsFields.tsx:72-76 | For every amount below 2^53, what two decimals show of it and what multiplying back regains, in terms of its residues modulo 25. |
| `Money.FieldGivesBackIff` | src/components/AgreementTermsFields.tsx:72-76 | A field gives back an amount c below 2^53 if and only if c is below 100 * 2^45, or below 2^52 with 18c mod 25 not from 9 to 12, or below 100 * 2^46, or 9c mod 25 is below 8, above 17, or 8 or 17 with c even; any other comes back one cent off. |
| `Money.UneditedFormSubmitsAmount` | src/components/AgreementInvitationReview.tsx:261-275 | With any `String(x)` text that reads back as x, an unedited field submits the amount the form was opened with. |
| `Money.FormGivesBackIff` | src/components/AgreementInvitationReview.tsx:261-275 | Opened with any amount below 2^53 and left unedited, a field of this form gives back exactly the same amounts, and any other one cent off. |
| `Money.SubmittedIs` | src/components/AgreementInvitationReview.tsx:274-275 | The form sends what a dollar field would report, but null for text that is no number. |
| `Money.SubmitUnedited` | src/components/AgreementInvitationReview.tsx:261-286 | A form opened with an amount and submitted unedited proposes that whole amount as the sum, as the first payment and as each installment. |
| `Money.UneditedFormGainsCent` | src/components/AgreementInvitationReview.tsx:261-275 | Opened with 3518437208883202 it submits one cent more. |
| `Money.RequestChangesForm.HandleSubmit` | src/components/AgreementInvitationReview.tsx:270-286 | The original amount comes from the first field, the first payment and the installment both from the second; a field holding the text of an amount below 2^53 sends that amount if and only if it is one that comes back. |
| `Notifications.NotificationCenter.OpenClicked` | src/components/NotificationCenter.tsx:108-112 | Sends a request exactly for a notification with a non-empty in-app id and no read mark, and then marks that group read; every other item, its place and all else stay. |
| `Notifications.NotificationCenter.OpenRefused` | src/components/NotificationCenter.tsx:113-116 | Marks that group unread again; every other item and every place stay. |
| `Notifications.NotificationCenter.ArchiveClicked` | src/components/NotificationCenter.tsx:119-122 | Takes out exactly the items of the group, keeping order and distinctness. |
| `Notifications.NotificationCenter.ArchiveRefused` | src/components/NotificationCenter.tsx:123-128 | Adds the clicked record to the same items and leaves them newest first, by a stable sort. |
| `Notifications.SortedIsStable` | src/components/NotificationCenter.tsx:123-128 | The sort gives a newest-first arrangement of the same items that keeps the order within each instant. |
| `Notifications.StableSortUnique` | src/components/NotificationCenter.tsx:123-128 | No other arrangement does. |
| `Notifications.PagesShowAll` | src/components/NotificationCenter.tsx:101-105 | The pages laid end to end are the list, and a page is empty exactly when the list is or it lies past the last page. |
| `Notifications.PageIs` | src/components/NotificationCenter.tsx:101-105 | Twenty to a page: item i of page p is item 20 p + i, and there is one page at least and no empty last one. |
| `Notifications.NotificationCenter.PreviousClicked` | src/components/NotificationCenter.tsx:277-279 | Turns one page back, and stays on the first. |
| `Notifications.NotificationCenter.NextClicked` | src/components/NotificationCenter.tsx:285 | Turns one page on, stays on the last, and comes back to it from past the end. |
| `Notifications.NotificationCenter.PageClicked` | src/components/NotificationCenter.tsx:280-284 | Turns to the page of the button, of which there is one per page. |
| `Notifications.ArchiveEmptiesPageIff` | src/components/NotificationCenter.tsx:101-122 | Archiving an item in view leaves its page empty if and only if it was the only item there, as the page number is not turned back. |
| `Notifications.ListHoldsTheRest` | src/components/NotificationCenter.tsx:108-129 | Under every interleaving of clicks and replies the list stays newest-first and duplicate-free and holds exactly the loaded groups neither pending nor archived. |
| `Notifications.OrderIsExact` | src/components/NotificationCenter.tsx:119-129 | With distinct timestamps the list is always, up to read marks, the loaded one minus those groups, in loaded order. |
| `Notifications.RestoredIff` | src/components/NotificationCenter.tsx:108-129 | It is that list exactly, read marks included, if and only if every group whose read mark was set and not undone is gone. |
| `Notifications.RestoredIffNoneMissed` | src/components/NotificationCenter.tsx:108-129 | With nothing in flight, archived or acknowledged, the loaded list is restored exactly if and only if no refusal of a read mark came while its group was away. |
| `Notifications.ArchivesRestore` | src/components/NotificationCenter.tsx:119-129 | Archive clicks and refusals alone restore the loaded list exactly. |
| `Notifications.MissedMarkStays` | src/components/NotificationCenter.tsx:108-129 | Open, archive, then both refused in that order: an unread item comes back read, though nothing was accepted. |
| `Notifications.TieLosesOrder` | src/components/NotificationCenter.tsx:119-129 | Where two neighbours share a timestamp, archiving the first and being refused does not restore the list. |
| `Notifications.OrderExactIffDistinctTimes` | src/components/NotificationCenter.tsx:119-129 | The loaded order is kept under every interleaving if and only if no two timestamps are equal. |
| `Notifications.ShownReadIff` | src/components/NotificationCenter.tsx:108-129 | Once every read-mark is answered, a listed group shows as read exactly if it was loaded so, the server acknowledged it, or the refusal came while it was archived away. |
| `Phone.NormalizeDependsOn` | src/lib/phone.ts:18-40 | The result depends only on the text without its punctuation and on whether it leads with a plus sign. |
| `Phone.NormalizesIff` | src/lib/phone.ts:18-40 | A text normalises to a number if and only if the number is valid and the text spells it, in full after a plus or as a North American number with or without the 1. |
| `Phone.FixedPointsAreValid` | src/lib/phone.ts:42-44 | Normalising leaves a text alone if and only if it is valid (section 6 of ITU-T E.164). |
| `Phone.SpellingsAgree` | src/lib/phone.ts:18-40 | The 10-digit, 1-prefixed and +1-prefixed spellings normalise to the same number. |
| `Phone.PunctuationIgnored` | src/lib/phone.ts:18-40 | Inserting a space, dot, dash or bracket anywhere leaves the result, except a non-space put before the leading plus, which makes it null. |
| `Phone.MaskShowsEnds` | src/lib/phone.ts:47-50 | Masking keeps the length, and two valid numbers mask alike if and only if their lengths, first two and last two characters agree. |
| `Phone.StrippedIs` | src/lib/phone.ts:18-40 | Brackets, dots, dashes and the 25 space units are taken away, and everything else stays in order. |
| `Phone.NormalizeIs` | src/lib/phone.ts:18-40 | After a leading plus sign a valid number is kept; otherwise ten digits gain +1, eleven that begin with 1 gain +, and all else is null. |
| `Phone.BlankIsNone` | src/lib/phone.ts:18-40 | Blank text gives null. |
| `Phone.ValidIs` | src/lib/phone.ts:11 | Valid is a plus sign, a digit from 1 to 9 and 7 to 14 further digits, in the numbers of the units. |
| `Phone.MaskIs` | src/lib/phone.ts:47-50 | The first two and the last two units stay where they stand and the rest become stars; four units or fewer become three stars. |
| `Pagination.ParsePageParams` | src/lib/pagination.ts:28-34 | Whatever the query says, the limit is from 1 to 100 and the offset a nonnegative safe integer. |
| `Pagination.ParamsAre` | src/lib/pagination.ts:28-34 | A whole limit from 1 to 100 is taken as it is, a larger safe one as 100, anything else as 20; a whole safe offset as it is, anything else as 0. |
| `Pagination.PrintedParamsRead` | src/lib/pagination.ts:28-34 | Numbers a client prints are read back as they are, up to the cap and the default for a limit of zero. |
| `Pagination.ServeIsExact` | src/app/api/agreements/route.ts:66-72 | Fetching one row more than shown, a page holds exactly the rows asked for and reports `hasMore` if and only if rows follow them. |
| `AgreementsList.AgreementsList.ProfileArrived` | src/components/AgreementsList.tsx:49-68 | An answer decides whether later requests can name a profile; a refusal leaves that as it was. |
| `AgreementsList.AgreementsList.LoadArrived` | src/components/AgreementsList.tsx:69-79 | An answer replaces the list and the flag, which is the first page of a run or a reload in it; a refusal changes neither. |
| `AgreementsList.AgreementsList.LoadMoreClicked` | src/components/AgreementsList.tsx:82-87 | At most one request is in flight, for the offset that is the number of items shown; where the button shows this is the run's click. |
| `AgreementsList.AgreementsList.LoadMoreArrived` | src/components/AgreementsList.tsx:82-97 | An answer extends the list, a refusal does not, and either ends the wait, as the run's steps do. |
| `AgreementsList.RequestReaches` | src/components/AgreementsList.tsx:82-97 | The request the client prints is served as the page at that offset with the default limit. |
| `AgreementsList.ListIsPrefix` | src/components/AgreementsList.tsx:49-97 | Over an unchanging dataset, through failures, repeated clicks and reloads, the list is a prefix of the data and `hasMore` says whether it is proper, as long as no answer comes to a request that a reload has overtaken. |
| `AgreementsList.PrefixIffNoneLate` | src/components/AgreementsList.tsx:49-97 | Over every run on distinct rows, the list is a prefix of the data after every step if and only if no answer comes to a request that a reload has overtaken. |
| `AgreementsList.LateAnswerSpoils` | src/components/AgreementsList.tsx:82-97 | Such an answer always puts a row where another belongs. |
| `AgreementsList.CompleteAfterRequests` | src/components/AgreementsList.tsx:82-97 | Counting the first page, the list is complete and in order after exactly max(1, ceil(n / limit)) requests and proper before. |
| `FeatureFlags.NoBoundaryMissed` | src/lib/feature-flags.ts:54-56 | The left-to-right replacement, whose matches consume two characters, still inserts an underscore at every small-letter-or-digit to capital boundary. |
| `FeatureFlags.KeyReadsBackIff` | src/lib/feature-flags.ts:54-56 | A flag can be read back from its key if and only if its name is camelCase. |
| `FeatureFlags.KeysDiffer` | src/lib/feature-flags.ts:54-56 | No two camelCase flags share a key. |
| `FeatureFlags.AdjacentCapitalsCollide` | src/lib/feature-flags.ts:54-56 | aBc and aBC share a key. |
| `FeatureFlags.KeyOfUnit` | src/lib/feature-flags.ts:54-56 | The key of a one-unit flag is FEATURE_ and the unit, a to z as a capital. |
| `FeatureFlags.KeyOfParts` | src/lib/feature-flags.ts:54-56 | The key of a longer flag is its parts' keys, with an underscore between where a small letter or digit meets a capital and nothing elsewhere. |
| `FeatureFlags.RegistryIsCamel` | src/lib/feature-flags.ts:14-50 | Every registered flag is camelCase. |
| `FeatureFlags.Defaults` | src/lib/feature-flags.ts:14-50 | Of the six registered flags, with no variable set, payment initiation and bank connection are on and the others off. |
| `FeatureFlags.OverrideWords` | src/lib/feature-flags.ts:58-63 | The words true and false in a flag's variable override its default, and nothing else does. |
| `FeatureFlags.OverrideIsLocal` | src/lib/feature-flags.ts:58-63 | Setting a camelCase flag's variable decides that flag by the words true and false, and no other camelCase flag. |

## Left out

- Rendering, routing, fetch wrappers, styling and dashboards: no state of their own beyond the handlers modelled.
- Agreement lifecycle, ledger, settlements, mandates and payment retries: not part of this model.
- Environment schema, error classes, cookies, request addresses, role labels and log formatting: single-branch facts.
- Internals of SHA-256, HMAC, scrypt, random bytes and constant-time comparison, and all timing: functions and drawn values instead.
- Postgres, Drizzle and connection pooling: an upsert is one atomic step, a transaction a sequence of steps under one lock, and any other failure an `outage` or an abort. Years beyond 9999, which print with a sign, are taken as accepted.
- Normalisation of JSON and timestamps by database columns on read-back: only null for unset columns is modelled.
- Clock readings are integers of milliseconds, one reading and one ISO timestamp per call of the auth service.
- Auth.NormalizeIdempotent: letter case is folded for A to Z only, because the Unicode case tables are data that is not part of this model; the same holds of every use of email spellings and flag keys.
- JSON payloads hold JSON values only: no nested `undefined`, no `toJSON`; numbers are the text they print as, and keys that look like array indexes are not reordered.
- The user and session repositories keep the values of their `Map` in insertion order, with ids as keys; last-seen times and client metadata of sessions are not stored.
- Concurrent calls of the auth service: runs are sequential, as the in-memory repositories are; the audit log's concurrency is modelled on its own.
- Account status on login: stored, and the code does not check it.
- Account and session theorems over runs assume that drawn ids and tokens do not repeat (`FreshDraws`) and that the digest keeps the tokens of the run apart (`HashesApart`).
- Money.DollarFieldRoundTrip: negative amounts are covered only above -100 * 2^45, because the field takes amounts from zero up.
- Doubles are reals with rounding: an infinity and NaN are told apart only where the code does, and signed zero is not modelled. `toFixed` from 1e21 on, where it prints an exponent, is not modelled.
- `String(x)` is any numeric text that reads back as x, which is what its definition promises; the choice of the shortest digits is not modelled.
- Notification reload, archive-all, view switching and invalid dates: the list starts loaded and newest-first.
- The list of agreements over a dataset that changes between requests: offset paging makes no promise there. A failed load is only the absence of a page.
- Handlers of the two lists are cut where they await the server; a step between the cuts is taken as uninterrupted, as in a browser.

# Verified models of ForgeWire Fabric's hard cores

ForgeWire Fabric is a hub with runners, a VS Code extension and a desktop
client. This project models the parts of it whose correctness is not visible
from one function body and proves properties of them for every input, every
run or every interleaving. `dafny verify dfyconfig.toml` checks all of it.

| files | what they model |
|---|---|
| `Json`, `JsonReader`, `JsonDecoding`, `JsonCanonical`, `JsonShortest`, `JsonWriters`, `JsonAgreement` | canonical JSON: an independent reader, the buffer-appending writer of the audit crate, the join-based writer of the extension, Python's `json.dumps`, and when their texts coincide |
| `AuditChain` | the hash-chained audit log: framing, the verifier, growth from genesis, tamper evidence |
| `SseReader`, `SseRoundTrip`, `SseLines`, `PollReader` | the extension's two readers of a task's output |
| `HumanStore`, `LastAdmin`, `StatusRoutes`, `LastAdminGaps`, `AccountRules` | accounts and memberships as SQL statements; the last-administrator rule, status changes and tombstones over every interleaving of statements |
| `Sessions`, `SignCounter`, `Challenges` | refresh rotation, step-up and revocation; the passkey counter; WebAuthn ceremony challenges |
| `ClaimRouter`, `ClaimTexts` | prefixes, globs, the six-gate match and the pick |
| `Base64Url`, `Base64Facts`, `SettingsFlatten`, `SettingsOrder`, `Discovery`, `TreeFilter` | the codec, the settings flattener, the beacon collector and the explorer filter |

Code that computes by expressions is a function. Code that updates variables is
a method with a loop, or a class, proved equal to a specification function;
the lemmas are about that function. Operations of the store that take several
statements are threads of a transition system: any statement of any other
operation may run between two of theirs.

SHA-256 is a parameter `hash` about which nothing is assumed but, for tamper
evidence, that its results are 64 hex digits. A hypothesis that it is injective
would be false of every such hash, so the theorems that need collision freedom
conclude instead with the two texts that collide.

## Where the code departs from what is written about it

The model follows the code. Each departure is stated and proved.

- The audit crate's text is not Python's `json.dumps` text for every payload.
  It is exactly when all strings and keys stay below U+007F
  (`JsonAgreement.PythonAgrees`); `json.dumps` escapes the rest by default.
- The extension's canonical text is documented as Python's too. It is exactly
  when, besides, every integer is shown as it is
  (`JsonAgreement.ExtensionMatchesPython`); doubles show all integers up to 2^53
  so, and 2^60 not (`JsonAgreement.LargeIntegersDisagree`).
- The two writers differ from each other exactly when an integer is not shown as
  it is or the key orders differ (`JsonAgreement.WritersAgree`): with integers up
  to 2^53, when two keys of an object first differ in a character beyond U+FFFF
  and one from U+E000 to U+FFFF (`JsonAgreement.WritersAgreeOnCharacters`).
- A deleted account's tombstone is documented as irreversible. It comes off
  exactly by a disable at the current revision that passes the guard, or by a
  status change that expected a revision ahead of the row it read
  (`StatusRoutes.TombstoneLostExactly`). A run of documented operations from
  empty tables so leaves the bootstrapped realm without administrators
  (`LastAdminGaps.DisabledTombstoneOrphans`).
- A status change is checked against the status of one row version and written at
  the revision the client names. It hits the status it was checked against, in
  every interleaving, exactly when that revision did not lie ahead at the reading
  (`StatusRoutes.StatusCheckExact`, `LastAdminGaps.FutureRevisionRevives`).
- The status route puts accounts into recovery without the guard, and takes a
  realm's last administrator exactly where the guard would refuse
  (`LastAdminGaps.RecoveryRouteExact`).
- The guard asks for another administrator in one realm only; the exact
  condition asks it of every realm in which the account counts
  (`LastAdmin.DeactivationExact`, `LastAdminGaps.ForeignGrantOrphans`).
  `LastAdmin.SafeExactly` gives the exact condition for every statement.
- The scope test stands in for the question whether a path is shared. The runner
  strips leading dots and slashes from the paths it matches, not from globs, so
  the test rejects a real overlap, exactly for paths that stripping changes and
  that then have a directory before any wildcard
  (`ClaimRouter.NeverRejectedExact`, `ClaimRouter.DotDirectoryRejected`).
- A runner's globs are documented with components: a double star for zero or more
  of them, a star for one. The code matches with `fnmatch`, where a star takes
  slashes along: it matches more, and a double star with its slash not for zero
  components (`ClaimTexts.DocumentedIsMatched`, `ClaimTexts.ReadingsDiffer`). The
  fallback meant for that adds nothing to globs without brackets
  (`ClaimTexts.FallbackAddsNothing`).
- A refresh reports that the token family has been revoked. That is true exactly
  when its own write revoked the family or it was revoked already
  (`Sessions.ReplayReportExact`); a lost race and a lost write report it falsely
  (`Sessions.LostRaceKeepsFamily`, `Sessions.LostWriteKeepsFamily`).
- Attempts on a challenge are documented to be bounded by the cap. They are
  exactly when no calls are made, or calls on one challenge do not overlap and no
  call loses its last write (`Challenges.CapHoldsExactly`,
  `Challenges.CapIsPassed`, `Challenges.LostFailureUncaps`).
- The polling reader loses output when it stops with more than a page unread, and
  also when lines arrive between its fetch and the status reply, however few
  (`PollReader.CompleteAtStop`, `PollReader.LongBacklogIsLost`,
  `PollReader.ShortBacklogIsLost`). It is documented to emit a `task` event on
  every status poll and emits exactly the changes
  (`PollReader.EveryChangeEmitted`).

Behaviour that is as documented, or undocumented, and easily misjudged:

- The separator `|` may occur in an event kind: among events whose previous
  hashes hold none, frames stay unique (`AuditChain.FrameUnique`). Among all
  events a frame names its own exactly when neither its previous hash nor its
  kind holds one (`AuditChain.FrameNamesExactly`).
- A sign counter of zero is accepted after a nonzero one and reopens every value.
  Section 6.1.1 of Web Authentication Level 2 rejects it
  (`SignCounter.DepartsFromStandard`).
- The two-way prefix test accepts tasks that share no path with the runner
  (`ClaimRouter.ScopeTestNotExact`).
- `atob` drops stray bits, so two texts can decode alike
  (`Base64Url.StrayBitsAccepted`).
- An empty wanted hash wants nothing in the extension and hashless beacons in the
  crate (`Discovery.DiscoverBeacons`).

## Model

| member | source | states |
|---|---|---|
| JsonDecoding.ReadBack | crates/fabric-audit/src/lib.rs:80-115 | The RFC 8259 reader, defined apart from the writers, reads any dialect's text in front of a delimiter back as the value written and leaves the rest |
| JsonDecoding.CharReadBack | crates/fabric-audit/src/lib.rs:111-114 | Every escape, surrogate pairs included, stands for the character it was made from |
| JsonCanonical.CanonicalReadBack | crates/fabric-audit/src/lib.rs:69-78 | Reading a canonical text yields the original value with every object's keys in order and the same meaning |
| JsonCanonical.CanonicalTextDecidesMeaning | crates/fabric-audit/src/lib.rs:69-115 | Two values have the same canonical text if and only if they mean the same, whatever order object entries were given in |
| JsonCanonical.CanonicalTextDelimits | crates/fabric-audit/src/lib.rs:80-115 | Equal texts that go on with delimiters come from values of equal meaning and have equal rests |
| JsonCanonical.KeyLessExactly | crates/fabric-audit/src/lib.rs:82-85 | A key comes before another if and only if it is a proper prefix of it or has the lesser character where they first differ |
| JsonShortest.CharShortest | crates/fabric-audit/src/lib.rs:111-114 | No text of the dialect that reads as a character is shorter than the character's escape |
| JsonShortest.EscapeUnique | crates/fabric-audit/src/lib.rs:111-114 | With lower-case hex digits no other text of that length reads as the character either |
| JsonShortest.ValueShortest | crates/fabric-audit/src/lib.rs:80-115 | Nor is any text that reads as a value shorter than the value as written, numbers without a minus on zero or leading zeros included |
| JsonShortest.CanonicalShortest | crates/fabric-audit/src/lib.rs:69-78 | The canonical text reads as the value with its keys in order, and is as short as any text of the dialect that does |
| JsonWriters.WriteCanonical | crates/fabric-audit/src/lib.rs:80-115 | The recursive writer keeps what the buffer held and appends exactly the canonical text, which `JsonShortest.CanonicalShortest` and `JsonCanonical.CanonicalReadBack` pin down |
| JsonWriters.WriteObject | crates/fabric-audit/src/lib.rs:82-97 | The object loop over sorted entries appends the canonical text |
| JsonWriters.WriteArray | crates/fabric-audit/src/lib.rs:98-107 | The array loop appends the canonical text |
| JsonWriters.AuditCanonicalJson | crates/fabric-audit/src/lib.rs:69-78 | The entry point returns the canonical text: the shortest that reads as the value with its keys in order |
| JsonWriters.CanonicalJsonIsCanonical | vscode/src/hubClient.ts:1393-1409 | For any way integers are shown, the join-based writer computes the canonical text, in UTF-16 key order, of the value with its integers as shown |
| JsonAgreement.WritersAgree | vscode/src/hubClient.ts:1389-1409 | For well-formed values, audit crate and extension write the same text if and only if every integer is shown as it is and both key orders agree on every object |
| JsonAgreement.SafeIsExact | vscode/src/hubClient.ts:1396 | If doubles show integers up to 2^53 as they are, values without larger ones are shown exactly |
| JsonAgreement.LargeIntegersDisagree | vscode/src/hubClient.ts:1396 | On the integer 2^60, shown with as few digits as tell its double apart, the texts differ |
| JsonAgreement.WritersAgreeOnCharacters | vscode/src/hubClient.ts:1402 | With integers up to 2^53 the texts differ if and only if two keys of an object first differ in one character beyond U+FFFF and one from U+E000 to U+FFFF |
| JsonAgreement.OrdersSwapExactly | vscode/src/hubClient.ts:1402 | Two keys are ordered differently by scalar values and by code units if and only if their first difference is of that kind |
| JsonAgreement.BmpKeysAgree | vscode/src/hubClient.ts:1402 | Both orders agree on values in which no key has a character beyond U+FFFF, ASCII keys included |
| JsonAgreement.WritersDisagree | vscode/src/hubClient.ts:1402 | U+E000 and U+10000 as keys of one object make the two texts differ |
| JsonAgreement.PythonAgrees | crates/fabric-audit/src/lib.rs:8-22 | The audit crate reproduces the documented Python text if and only if all strings and keys are below U+007F |
| JsonAgreement.ExtensionMatchesPython | vscode/src/hubClient.ts:1389-1391 | The extension reproduces it if and only if, besides, every integer is shown as it is |
| AuditChain.FrameUnique | crates/fabric-audit/src/lib.rs:117-129 | Framed texts with separator-free previous hashes are equal if and only if hash, kind and payload meaning are, for any kinds |
| AuditChain.AuditEventHash | crates/fabric-audit/src/lib.rs:121-129 | Feeding the hasher field by field hashes the frame, whose layout `AuditChain.FrameLayout` gives |
| AuditChain.FrameReads | crates/fabric-audit/src/lib.rs:8-22 | Cutting the hashed text at its first two separators and reading the rest as JSON gives back a separator-free previous hash and kind and a payload of the same meaning, with nothing left over |
| AuditChain.FrameLayout | crates/fabric-audit/src/lib.rs:121-129 | For every previous hash and kind the hashed text is the one, a separator, the other, a separator and the canonical payload, position by position |
| AuditChain.GenesisLiteral | crates/fabric-audit/src/lib.rs:35-37 | The previous hash of the first event is 64 zeros |
| AuditChain.VerifyChain | crates/fabric-audit/src/lib.rs:144-168 | Accepts exactly linked and correctly hashed sequences; otherwise reports the least failing index, a link break ahead of a hash mismatch, with both values |
| AuditChain.ValidConcat | crates/fabric-audit/src/lib.rs:139-168 | A sequence is valid if and only if both halves are and they join |
| AuditChain.ValidMeansGrown | crates/fabric-audit/src/lib.rs:35-37 | The sequences accepted from genesis are exactly the logs grown from genesis |
| AuditChain.SliceAccepted | crates/fabric-audit/src/lib.rs:139-143 | Every slice of a grown log is accepted on its own |
| AuditChain.AcceptedIsWellFormed | crates/fabric-audit/src/lib.rs:139-168 | With a hex hash an accepted log whose first previous hash holds no separator has none in any |
| AuditChain.TamperEvident | crates/fabric-audit/src/lib.rs:121-168 | With a hex hash, equally long accepted logs ending in one hash agree at every position or exhibit two colliding texts; of the previous hashes only the trusted first one is restricted |
| AuditChain.HeadDeterminesLog | crates/fabric-audit/src/lib.rs:35-37 | The newest hash fixes a whole log from genesis, its length included, or exhibits a collision or an event hashing to genesis |
| AuditChain.FrameNamesExactly | crates/fabric-audit/src/lib.rs:117-129 | A frame names its event among all events, of any previous hash and kind, if and only if neither its previous hash nor its kind holds a separator |
| AuditChain.SeparatorInHashAmbiguous | crates/fabric-audit/src/lib.rs:121-129 | With a separator in the previous hash two different events have one frame |
| SseReader.Reader.Read | vscode/src/hubClient.ts:1175-1194 | One chunk: the complete lines of buffer and chunk are taken in order, the last piece stays buffered |
| SseRoundTrip.FeedEvent | vscode/src/hubClient.ts:1180-1192 | The lines of one event, read between two events, yield that event once, less the carriage returns that end its data lines, and leave the reader between two events |
| SseReader.StreamSse | vscode/src/hubClient.ts:1167-1196 | The events yielded are those of the concatenated text's complete lines, however it was cut; `SseLines` says what each kind of line does |
| SseLines.IgnoredLine | vscode/src/hubClient.ts:1181-1192 | A line that is not blank and begins with neither field name, such as a keep-alive comment, changes no events, wherever it stands |
| SseLines.CarriageReturn | vscode/src/hubClient.ts:1181 | Nor does a carriage return before a line feed |
| SseLines.UnfinishedLine | vscode/src/hubClient.ts:1175-1194 | Nor does text behind the last line feed |
| SseLines.DataLine | vscode/src/hubClient.ts:1191-1192 | A data line gives up its carriage return and at most one leading white space |
| SseLines.EventLine | vscode/src/hubClient.ts:1189-1190 | An event line names the event by what follows the colon, trimmed |
| SseLines.BlockWithoutName | vscode/src/hubClient.ts:1180-1192 | A data line and a blank line between events yield one event called `message` |
| SseLines.TrimExact | vscode/src/hubClient.ts:1190 | Trimming takes white space from both ends, nothing else, and leaves none there |
| SseReader.FeedConcat | vscode/src/hubClient.ts:1175-1179 | Two chunks do what their concatenation does, in every state |
| SseReader.ChunkingIrrelevant | vscode/src/hubClient.ts:1167-1196 | Any list of chunks does what the whole text does, with cuts inside line endings and field names |
| SseRoundTrip.RoundTrip | vscode/src/hubClient.ts:1180-1194 | A list of events written and read back is unchanged if and only if names are trimmed one-liners and no data line ends in a carriage return |
| PollReader.Reader.Iterate | vscode/src/hubClient.ts:1212-1241 | One iteration of the polling loop, its fetch and its status request meeting the log at two moments |
| PollReader.PollStream | vscode/src/hubClient.ts:1204-1242 | The generator over any script of polls, failures and aborts |
| PollReader.EmittedIsPrefix | vscode/src/hubClient.ts:1208-1242 | Lines emitted are always a prefix of the append-only log, no status repeats its predecessor, nothing follows a terminal status |
| PollReader.EveryChangeEmitted | vscode/src/hubClient.ts:1226-1231 | Over any script, the statuses emitted are exactly the changes among the status replies the reader gets, in order |
| PollReader.CaughtUp | vscode/src/hubClient.ts:1213-1221 | After a poll the log it fetched from is out if and only if nothing was unread or a successful fetch found at most one page |
| PollReader.PollEmits | vscode/src/hubClient.ts:1213-1231 | A poll emits the next hundred unread lines, each once and in order, and behind them the status if it is another one than before |
| PollReader.PollStopsExactly | vscode/src/hubClient.ts:1208-1242 | The loop ends at a poll if and only if the status is one of the four terminal ones, the status request fails or the caller aborts |
| PollReader.CompleteAtStop | vscode/src/hubClient.ts:1208-1242 | A run that stops at a poll has emitted the log as it finally stands if and only if nothing was unread there, or its fetch succeeded and found at most one page, and nothing was appended behind it |
| PollReader.LongBacklogIsLost | vscode/src/hubClient.ts:1226-1231 | Wherever in a run the reader stops with more than a page unread, output is lost for good |
| PollReader.ShortBacklogIsLost | vscode/src/hubClient.ts:1213-1231 | One line that arrives between fetch and status reply of a finished task is lost for good |
| PollReader.BelowCursorNeverEmitted | vscode/src/hubClient.ts:1218 | A line numbered at or below the cursor and not yet emitted is never emitted |
| HumanStore.Store.BootstrapFirstAdministrator | crates/fabric-store-rqlite/src/human_accounts.rs:1006-1075 | All or nothing: it wins only over an empty singleton row and then the realm has an enabled administrator |
| HumanStore.Store.Create | crates/fabric-store-rqlite/src/human_accounts.rs:1487-1614 | Adds the account and its first membership if and only if there is no conflict, the role is no runner's, and an import grants no admin |
| HumanStore.Store.Grant | crates/fabric-store-rqlite/src/human_accounts.rs:670-710 | Adds the membership if and only if its key is new, the role is no runner's and the account does not hold it |
| AccountRules.MembershipsStaySound | crates/fabric-store-rqlite/src/human_accounts.rs:670-710 | In every run no membership has the runner role and no account holds a role twice at a time |
| AccountRules.StatusMovesOnly | crates/fabric-store-rqlite/src/human_accounts.rs:505-526 | After any run one statement leaves an account's row alone or moves its status along one table, at the next revision |
| AccountRules.RouteExactly | crates/fabric-hub/src/routes/accounts.rs:240-265 | A status route that nothing comes between changes the status if and only if the pair is one of four and the client's revision is current |
| AccountRules.RecoveryExactly | crates/fabric-store-rqlite/src/human_accounts.rs:1788-1846 | A completed recovery reopens the account if and only if it was waiting for one |
| AccountRules.GuardedExactly | crates/fabric-store-rqlite/src/human_accounts.rs:1615-1643 | Disable and deletion hit if and only if the revision is current and the account is no administrator or not its realm's last, and then change that row alone, to the status they are for |
| AccountRules.RevocationHitsExactly | crates/fabric-store-rqlite/src/human_accounts.rs:1648-1716 | A revocation hits an unrevoked membership, the guarded one only where another administrator counts in its realm, and changes nothing else |
| HumanStore.Store.UpdateAccountStatus | crates/fabric-store-rqlite/src/human_accounts.rs:505-526 | Compare-and-set on the revision |
| HumanStore.Store.DisableProtectingLastAdmin | crates/fabric-store-rqlite/src/human_accounts.rs:1615-1643 | Disables at the current revision under the guard; a row is affected exactly when the tables change |
| HumanStore.Store.InitiateDeletionProtectingLastAdmin | crates/fabric-store-rqlite/src/human_accounts.rs:1847-1882 | The same guard with its status conditions |
| HumanStore.Store.RevokeMembershipProtectingLastAdmin | crates/fabric-store-rqlite/src/human_accounts.rs:1648-1716 | Admin memberships go under the guard, others without |
| HumanStore.Store.CompleteDeletion | crates/fabric-store-rqlite/src/human_accounts.rs:1887-1932 | Without interference: the row is tombstoned and exactly its memberships are revoked |
| LastAdmin.ProtectedOperationsKeepAdmins | crates/fabric-accounts/src/repository.rs:383-410 | The protected operations alone, grants in the account's realm, in any interleaving of statements from empty tables and against any accounts: the bootstrapped realm keeps an administrator and no realm loses its last |
| StatusRoutes.CarefulCallersKeepAdmins | crates/fabric-accounts/src/repository.rs:221-284 | With the status route to Active and recovery codes too, for callers that pass on only revisions they have read of accounts not tombstoned then: the same, and tombstones are final |
| LastAdmin.LastAdministratorRemains | crates/fabric-accounts/src/repository.rs:221-284 | A closed bootstrap leaves its realm with an active administrator in every interleaving from empty tables that activates no account whose deletion is under way, grants in the account's realm and meets the guard where the status route has none |
| LastAdmin.Perform | crates/fabric-store-rqlite/src/human_accounts.rs:474-1935 | Every step of the interleavings, reads included, is one call on the store |
| LastAdmin.RunKeepsAdmins | crates/fabric-accounts/src/repository.rs:383-410 | From any consistent state such an interleaving takes the last administrator from no realm that has one |
| LastAdmin.SafeExactly | crates/fabric-store-rqlite/src/human_accounts.rs:505-1935 | In any tables, with any calls in flight, a statement keeps every realm's administrators if and only if it is safe: what it deactivates has another administrator in every realm where it counts, what it revokes unguarded does not count alone |
| StatusRoutes.TombstoneLostExactly | crates/fabric-accounts/src/repository.rs:530-548 | In every run a statement takes a tombstone off if and only if it is a disable at the current revision that passes the guard or a status change now at its expected revision, which then lay ahead of the row it read |
| StatusRoutes.TombstoneStaysExactly | crates/fabric-accounts/src/repository.rs:530-548 | A tombstone stays through a whole run if and only if no statement of the run is of that kind |
| StatusRoutes.TombstonesStay | crates/fabric-accounts/src/repository.rs:530-548 | In runs from empty tables in which no disable hits a tombstone and no status change expects a revision ahead, every tombstone is final |
| StatusRoutes.StatusCheckExact | crates/fabric-hub/src/routes/accounts.rs:240-265 | A status change finds the status it was checked against in every interleaving behind its reading if and only if the revision it expects did not lie ahead of the row |
| StatusRoutes.ReachPending | crates/fabric-hub/src/routes/accounts.rs:240-265 | For a revision that lies ahead there is a run of other calls that brings the row to it with its deletion pending |
| LastAdmin.BootstrapOnce | crates/fabric-accounts/src/repository.rs:221-240 | Bootstrap succeeds at most once, whatever else runs |
| LastAdmin.AccountGuardExact | crates/fabric-store-rqlite/src/human_accounts.rs:1615-1643 | For an active account the guard holds if and only if no realm loses its last administrator |
| LastAdmin.RevokeGuardExact | crates/fabric-store-rqlite/src/human_accounts.rs:1648-1716 | For a counting membership the guard holds if and only if no realm loses its last administrator |
| LastAdmin.DeactivationExact | crates/fabric-store-rqlite/src/human_accounts.rs:1615-1643 | In any tables, deactivating an account keeps all realms' administrators if and only if every realm in which it counts has another |
| LastAdmin.RevocationIsTwoStatements | crates/fabric-store-rqlite/src/human_accounts.rs:1648-1716 | The read and the update of a protected revocation in a row do what the whole operation does |
| LastAdmin.DeletionIsItsStatements | crates/fabric-store-rqlite/src/human_accounts.rs:1887-1932 | So do the statements of a deletion, its revocations in any order |
| LastAdminGaps.RecoveryRouteExact | crates/fabric-hub/src/routes/accounts.rs:240-265 | Putting an active account into recovery keeps every realm's administrators if and only if the guard it lacks would hold |
| LastAdminGaps.ForeignGrantOrphans | crates/fabric-store-rqlite/src/human_accounts.rs:670-710 | An account granted the only administration of a realm not its own can be disabled, and that realm loses its last administrator |
| LastAdminGaps.FutureRevisionRevives | crates/fabric-hub/src/routes/accounts.rs:398-423 | A run in which an expected revision that lies ahead turns an account deleted meanwhile active |
| LastAdminGaps.DisabledTombstoneOrphans | crates/fabric-store-rqlite/src/human_accounts.rs:1887-1932 | A run from empty tables in which a disabled tombstone leads to a realm without administrators |
| Sessions.SessionStore.RotateRefresh | crates/fabric-store-rqlite/src/human_accounts.rs:831-895 | A call with nothing between its statements: swaps a matching secret, revokes the whole family on a mismatch if that write is stored, changes nothing otherwise |
| Sessions.Perform | crates/fabric-store-rqlite/src/human_accounts.rs:759-985 | Every step of the interleavings is one call on the store, with the reply the call gives |
| Sessions.BoundOnce | crates/fabric-store-rqlite/src/human_accounts.rs:794-817 | In every run each session is bound at most once, and every session bound has a key |
| Sessions.RedeemedOnce | crates/fabric-accounts/src/repository.rs:127-178 | With fresh secrets no refresh secret is redeemed twice in any interleaving, in one session or across sessions |
| Sessions.RevokedForGood | crates/fabric-accounts/src/repository.rs:127-178 | Revoked rows never change again and bound keys never change, in any run |
| Sessions.RevocationTakesEffect | crates/fabric-store-rqlite/src/human_accounts.rs:897-923 | After a revocation the session is revoked in every later state; at the step no other row changes |
| Sessions.AccountRevocationTakesEffect | crates/fabric-store-rqlite/src/human_accounts.rs:924-937 | After an account's revocation all its sessions are revoked in every later state, and at the step just they change |
| Sessions.FamilyRevocationTakesEffect | crates/fabric-store-rqlite/src/human_accounts.rs:860-866 | A stored replay revokes the family's sessions and changes no others |
| Sessions.RevokedSecretsDie | crates/fabric-store-rqlite/src/human_accounts.rs:819-829 | With fresh secrets the access secret of a revoked session validates in no later state |
| Sessions.RevokingEndsAccess | crates/fabric-store-rqlite/src/human_accounts.rs:819-937 | So after either revocation every access secret it was meant to end is dead for good |
| Sessions.IssuedSessionWorks | crates/fabric-store-rqlite/src/human_accounts.rs:759-777 | A new session is the account's, without key or elevation, its access secret validates and its refresh secret rotates to the new one |
| Sessions.BindingAndStepUp | crates/fabric-store-rqlite/src/human_accounts.rs:794-985 | A first binding stores its key; a step-up elevates and replaces the access secret; neither touches another session |
| Sessions.StepUpRetires | crates/fabric-accounts/src/repository.rs:127-178 | The access secret a step-up replaced validates in no later state |
| Sessions.ReplayRevokesFamily | crates/fabric-store-rqlite/src/human_accounts.rs:831-895 | Presenting a redeemed secret never swaps; once its statement runs, the family stays revoked |
| Sessions.ReplayReportExact | crates/fabric-accounts/src/error.rs:30-31 | In every run the report that the family has been revoked is true if and only if the reporting write revoked it or it was revoked already |
| Sessions.SwapReportExact | crates/fabric-store-rqlite/src/human_accounts.rs:868-881 | A swap ends in that report if and only if its secret is no longer the live session's, and then changes nothing |
| Sessions.LostRaceKeepsFamily | crates/fabric-store-rqlite/src/human_accounts.rs:868-881 | The loser of a race for one secret is told that the family is revoked while it is not |
| Sessions.LostWriteKeepsFamily | crates/fabric-store-rqlite/src/human_accounts.rs:860-866 | So is a call whose revocation fails, which the code ignores |
| SignCounter.Credential.VerifyAndAdvance | crates/fabric-store-rqlite/src/human_accounts.rs:1281-1314 | Accepts a greater, first or zero counter on an unrevoked credential and stores what it accepted |
| SignCounter.IncreasesBetweenZeros | crates/fabric-accounts/src/repository.rs:315-347 | Accepted counters strictly increase between reports of zero |
| SignCounter.RepeatNeedsZero | crates/fabric-accounts/src/repository.rs:315-347 | A nonzero value is not accepted again before a report of zero |
| SignCounter.ZeroReopens | crates/fabric-store-rqlite/src/human_accounts.rs:1281-1314 | After a report of zero every value is accepted |
| SignCounter.DepartsFromStandard | crates/fabric-store-rqlite/src/human_accounts.rs:1281-1314 | The guard differs from section 6.1.1 of Web Authentication Level 2 exactly on zero after nonzero |
| Challenges.ChallengeStore.ConsumeIfPending | crates/fabric-store-rqlite/src/human_webauthn_challenges.rs:102-135 | Consumes a pending, unexpired challenge and returns the row as it then stands |
| Challenges.ChallengeStore.IncrementAttempt | crates/fabric-store-rqlite/src/human_webauthn_challenges.rs:137-172 | Without interference: counts, and fails the challenge at the cap |
| Challenges.ConsumedOnce | crates/fabric-accounts/src/webauthn.rs:143-178 | Over every interleaving each challenge issued is won at most once, before expiry, and its purpose and issued columns never change, even if the identifiers of pruned ones come up again |
| Challenges.IssuedIsConsumable | crates/fabric-store-rqlite/src/human_webauthn_challenges.rs:50-135 | In every run a challenge issued with given arguments, neither settled nor pruned since, is won by a call if and only if the call comes before the expiry asked for; the row carries the purpose, subject and times asked for |
| Challenges.PruningIsHarmless | crates/fabric-store-rqlite/src/human_webauthn_challenges.rs:174-182 | Pruning takes exactly what expired before the given time, nothing a later call could win |
| Challenges.SettledForGood | crates/fabric-accounts/src/webauthn.rs:69-74 | Consumed and failed are absorbing, and no pruned challenge comes back |
| Challenges.AttemptsStayCapped | crates/fabric-accounts/src/webauthn.rs:166-177 | A pending challenge is below the cap when no call on it is in flight, and over it by less than the calls in flight |
| Challenges.OverlapBoundsAttempts | crates/fabric-accounts/src/webauthn.rs:166-177 | With at most n calls on a challenge at a time no row of any status counts more than n - 1 past the cap |
| Challenges.OverlapReachesBound | crates/fabric-store-rqlite/src/human_webauthn_challenges.rs:137-172 | For every n a run from the empty table with at most n overlapping calls reaches that count |
| Challenges.CapHoldsExactly | crates/fabric-accounts/src/webauthn.rs:166-177 | The cap holds in all runs against one cap with at most n overlapping calls and k losses if and only if n is zero, or n is one and k is zero |
| Challenges.LossReachesBeyond | crates/fabric-store-rqlite/src/human_webauthn_challenges.rs:157-171 | One lost write without overlap is enough to count past the cap from the empty table |
| Challenges.AttemptIsThreeStatements | crates/fabric-store-rqlite/src/human_webauthn_challenges.rs:137-172 | The three statements of an attempt in a row do what the whole operation does |
| Challenges.Perform | crates/fabric-store-rqlite/src/human_webauthn_challenges.rs:50-183 | Every step of the interleavings is one call on the store |
| Challenges.CapIsPassed | crates/fabric-store-rqlite/src/human_webauthn_challenges.rs:137-172 | Two interleaved calls count past the cap |
| Challenges.LostFailureUncaps | crates/fabric-store-rqlite/src/human_webauthn_challenges.rs:157-171 | A lost third statement leaves the challenge pending, whatever count it has reached |
| ClaimRouter.FromRaw | crates/fabric-claim-router/src/lib.rs:48-75 | Empty prefixes go; the others end in exactly one slash and hold no backslash |
| ClaimTexts.NormalizedExactly | crates/fabric-claim-router/src/lib.rs:57-68 | A prefix loses all its trailing slashes, nothing before them, and gains one |
| ClaimTexts.PrefixesInOrder | crates/fabric-claim-router/src/lib.rs:48-75 | Prefixes are taken one by one in order, an empty one dropped |
| ClaimRouter.ComputeStaticPrefix | crates/fabric-claim-router/src/lib.rs:87-105 | The lazily normalising loop computes the static prefix |
| ClaimTexts.StaticPrefixExactly | crates/fabric-claim-router/src/lib.rs:87-105 | The static prefix is the longest directory at the front of the glob that holds no wildcard |
| ClaimRouter.ComputeScopesWithin | crates/fabric-claim-router/src/lib.rs:109-123 | The loop with its early exit decides the scope test |
| ClaimRouter.ScopeTestComplete | crates/fabric-claim-router/src/lib.rs:87-123 | If every glob matches some path under a runner prefix the scope test accepts, for every matcher that takes what stands before the first wildcard literally |
| ClaimRouter.WithinIsTotal | crates/fabric-claim-router/src/lib.rs:87-123 | For every such matcher, a static prefix under the runner prefix puts every matched path under it |
| ClaimRouter.ReadingsAreLiteralFirst | python/forgewire_fabric/runner/worktree.py:85-98 | On the path as it stands, fnmatch and the documented reading, in which a double star may match no component, are such matchers |
| ClaimRouter.MatchesAny | python/forgewire_fabric/runner/worktree.py:79-100 | The runner's loop, with its fallback, accepts a path if and only if one of the globs matches it |
| ClaimTexts.FallbackAddsNothing | python/forgewire_fabric/runner/worktree.py:95-99 | For globs without brackets the fallback for double stars matches nothing that the first attempt does not |
| ClaimTexts.StarMeaning | python/forgewire_fabric/runner/worktree.py:93 | In fnmatch's reading a star stands for any text, slashes included |
| ClaimTexts.CharMeaning | python/forgewire_fabric/runner/worktree.py:93 | A question mark stands for one character, others for themselves |
| ClaimTexts.ClassMeaning | python/forgewire_fabric/runner/worktree.py:93 | A class ends at the first closing bracket that is not its first character and stands for one character |
| ClaimTexts.DocumentedIsMatched | python/forgewire_fabric/runner/worktree.py:85-93 | Without a double star and slash whatever the documented reading matches is matched |
| ClaimTexts.ReadingsDiffer | python/forgewire_fabric/runner/worktree.py:85-98 | With one it may not be; and a single star matches across components, as documented it does not |
| ClaimTexts.StripLeadExactly | python/forgewire_fabric/runner/worktree.py:79-80 | Stripping takes leading dots and slashes up to the first other character |
| ClaimTexts.HasDoubleStarExactly | python/forgewire_fabric/runner/worktree.py:96 | The fallback is tried where two stars stand next to each other |
| ClaimRouter.LiteralFirstExact | python/forgewire_fabric/runner/worktree.py:79-98 | The runner's whole matching, stripping included, takes the literal part of every glob from the path if and only if stripping leaves the path unchanged, or leaves nothing, or a wildcard character first |
| ClaimRouter.NeverRejectedExact | crates/fabric-claim-router/src/lib.rs:87-123 | For the runner's matching the scope test rejects no glob and prefix that share the path if and only if stripping leaves the path unchanged or leaves no directory before a wildcard |
| ClaimRouter.AlwaysWithinExact | crates/fabric-claim-router/src/lib.rs:87-123 | Under the same condition, and only then, a static prefix under a runner prefix puts the path under it |
| ClaimRouter.DotDirectoryRejected | python/forgewire_fabric/runner/worktree.py:79-90 | A path in a dot directory is rejected |
| ClaimRouter.GlobstarSkips | python/forgewire_fabric/runner/worktree.py:85-88 | In the documented reading a double star with its slash may be left out behind any literal directory |
| ClaimRouter.ScopeTestNotExact | crates/fabric-claim-router/src/lib.rs:109-123 | The test also accepts a glob that matches no path under the prefix |
| ClaimRouter.MatchesIsContract | crates/fabric-claim-router/src/lib.rs:8-18 | The code's early exits are the documented six-gate contract with inclusion of lower-cased sets |
| ClaimTexts.EqIgnoreCaseExactly | crates/fabric-claim-router/src/lib.rs:160-171 | Names are taken as equal if and only if they differ in nothing but the case of ASCII letters |
| ClaimRouter.OfferingMoreKeepsMatches | crates/fabric-claim-router/src/lib.rs:146-185 | More tools, tags or prefixes on a nonempty list never lose a match |
| ClaimRouter.FirstPrefixLoses | crates/fabric-claim-router/src/lib.rs:109-123 | The first prefix of a runner that was open to every scope does |
| ClaimRouter.PickTask | crates/fabric-claim-router/src/lib.rs:188-198 | Returns the least matching index and the number of candidates looked at |
| ClaimRouter.DrainIsFilter | crates/fabric-claim-router/src/lib.rs:188-198 | Claiming until nothing matches yields the queue filtered by the contract, in order |
| Base64Url.BytesToBase64Url | desktop/src/session.ts:178-183 | The string-growing loop computes the encoding |
| Base64Url.Base64UrlToBytes | desktop/src/session.ts:170-176 | The array-filling loop computes the decoding, or fails as `atob` does |
| Base64Url.EncodedShape | desktop/src/session.ts:170-183 | Encodings use the url alphabet only, have the exact length, and the computed padding restores what `btoa` wrote |
| Base64Facts.EncodingRegroupsBits | desktop/src/session.ts:178-183 | The characters' numbers in the alphabet of section 5 of RFC 4648, six bits each, are the bits of the bytes filled up with fewer than six zeros |
| Base64Facts.DecodedExactly | desktop/src/session.ts:170-176 | A text without white space and padding is decoded if and only if its characters are in one of the two alphabets and its length is possible |
| Base64Url.DecodeEncoded | desktop/src/session.ts:170-183 | Every byte sequence survives encoding and decoding |
| Base64Url.CanonicalTexts | desktop/src/session.ts:170-183 | A text is the encoding of what it decodes to if and only if it is in the alphabet, of possible length and without stray bits |
| Base64Url.StrayBitsAccepted | desktop/src/session.ts:170-176 | Two texts decode to the same byte |
| SettingsFlatten.FlattenHubSettings | vscode/src/treeProviders.ts:2612-2627 | The pushing loop with its recursion computes the rows |
| SettingsFlatten.FlattenIsRendering | vscode/src/treeProviders.ts:2612-2627 | The rows are the leaf paths, dotted, in key order |
| SettingsOrder.RowsAscend | vscode/src/treeProviders.ts:2617-2625 | From row to row the paths ascend key by key, every row under its own parent |
| SettingsFlatten.RowsDetermineTree | vscode/src/treeProviders.ts:2612-2627 | The rows rebuild the tree if and only if keys are dot-free, no nested object is empty and nothing hangs under an empty root key |
| SettingsFlatten.RowsDistinct | vscode/src/treeProviders.ts:2612-2627 | For dot-free keys and no object under an empty root key no two rows show the same path |
| SettingsFlatten.EmptyRootKeyClashes | vscode/src/treeProviders.ts:2618 | An object under an empty root key shows a path its sibling shows too |
| Discovery.DiscoverAddrs | crates/fabric-beacon/src/lib.rs:360-403 | Returns the first accepted beacon of each url in arrival order; fails exactly on a socket error |
| Discovery.DrainInOrder | crates/fabric-beacon/src/lib.rs:402 | Draining the map through the order list drops nothing |
| Discovery.FirstsAreFirst | crates/fabric-beacon/src/lib.rs:360-403 | A hub is returned if and only if it is the first accepted with its url; urls are distinct |
| Discovery.AcceptedExactly | crates/fabric-beacon/src/lib.rs:123-131 | A hub is collected if and only if some datagram with the right magic, version, role, port and cluster announces it, field by field |
| Discovery.UrlReads | crates/fabric-beacon/src/lib.rs:379 | A hub's url ends behind its last colon in the port, in decimal |
| Discovery.UrlNamesEndpoint | crates/fabric-beacon/src/lib.rs:379-396 | Two announcements share a url if and only if they share address and port, colons in the address or not |
| Discovery.ListeningLonger | crates/fabric-beacon/src/lib.rs:360-403 | Listening longer only adds hubs, behind those found before |
| Discovery.DiscoverBeacons | vscode/src/hubClient.ts:90-150 | For the same parsed datagrams, the extension returns, in the four fields it keeps, what the crate returns for the events up to a socket error, reading an empty wanted hash as none |
| TreeFilter.FilterIdempotent | desktop/src/main.tsx:1301-1311 | Filtering what is filtered changes nothing, for every tree and filter |
| TreeFilter.FilterKeepsExactly | desktop/src/main.tsx:1301-1311 | A node is kept, under its ancestors, if and only if it leads to a match or a matching ancestor has no matching descendant |
| TreeFilter.FilterMeaning | desktop/src/main.tsx:1301-1311 | The filter text, trimmed and lowered, is looked for anywhere in the lowered titles; a blank one keeps everything |
| TreeFilter.OrderIsKept | desktop/src/main.tsx:1301-1311 | Of a list of nodes those that match or lead to a match are kept, in order and number |

## Left out

- Floating-point numbers, integers beyond 64 bits (which `serde_json` holds as floating-point numbers), `undefined` and other non-JSON values in canonical JSON, and UTF-8: texts are sequences of Unicode scalar values. How JavaScript prints an integer is a parameter.
- The parse of a beacon datagram, whose types the crate checks and the extension does not: it is an input to both collectors.
- What a bracket expression in a glob matches: a parameter.
- SHA-256, Argon2id, Ed25519 and assertion verification: cryptography of libraries; their results are parameters.
- HTTP, sockets, timers, abort signals and JSON payloads of events: their outcomes are the scripts and events that the models quantify over.
- Usernames, credentials, recovery codes, login throttling and the unique indexes on them: a conflict on one of them, or on the realm identity that genesis also inserts, is the `conflict` parameter of account creation and bootstrap.
- Sessions revoked as a side effect of account operations: the account tables and the session table are separate models.
- The re-reads that only choose an error code after a blocked write, and the audit events the routes append.
- LastAdmin.LastAdministratorRemains: holds for runs that keep the three rules of `LastAdmin.Disciplined`; `LastAdmin.SafeExactly` is exact statement by statement, `LastAdmin.ProtectedOperationsKeepAdmins` and `StatusRoutes.CarefulCallersKeepAdmins` give runs that keep them, and `LastAdminGaps` shows what the code does when one is broken.
- Sessions.ReplayRevokesFamily: says what happens once the second statement runs; a caller that dies in between leaves the family as it is.
- Challenges.AttemptsStayCapped: holds for callers that agree on the cap and lose no write; `Challenges.CapHoldsExactly` says when the cap holds with losses.
- The unprotected `disable_account_and_revoke_sessions`, which no route calls.
- The enum printing, DTO extraction and status-code tables around these operations: settled by reading one branch.
- The repeated socket query of the collectors, and the deadline that ends them.
- The carriage return and lone-colon rules of the HTML Living Standard, sections 9.2.5 and 9.2.6, which the reader does not implement: it ends lines at a line feed only, ignores `id:` and `retry:`, and yields an empty event name as it stands.

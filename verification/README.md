# Verified models of opendray's stateful components

opendray is a gateway for agent sessions. Most of it is wiring; this project models, in
Dafny, the components whose guarantees only hold over whole runs, and proves those
guarantees for all inputs, all interleavings or all reachable states.

| file | component |
|---|---|
| `LogRing.dfy`, `LiveTail.dfy` | the in-memory log ring and its live tail (`internal/applog`) |
| `KeyFile.dfy`, `AuthService.dfy`, `RotationRace.dfy` | admin credentials on disk, tokens, credential rotation and logins that overlap it (`internal/auth`) |
| `KeyCache.dfy` | system integration keys: database row against disk cache (`internal/app`) |
| `EmbedderTier.dfy` | the `auto` embedder tiering (`internal/app`) |
| `LikePattern.dfy`, `KeysetPaging.dfy`, `AuditQuery.dfy` | audit queries and pagination (`internal/audit`) |
| `Conversation.dfy`, `AccountImport.dfy` | conversation carry-over and account import (`internal/agyacct`) |
| `CallbackTable.dfy` | the Telegram callback overflow table (`docs/integrations`) |
| `UrlQuery.dfy` | URL escaping of the memory MCP client (`cmd/opendray`) |
| `MemoryBudget.dfy`, `ListCard.dfy` | the memory budget and the `/list` card (`internal/app`) |
| `Text.dfy`, `Sequences.dfy` | the string helpers of Go's `strings` package and the list helpers they share |

Objects that the source updates in place are classes whose methods are proved against
functions on values (`Buffer`, `Disk`, `Service`, `Machine`, `FileTree`, `Bridge`); whole-run
results are lemmas about those functions. The concurrent part of the log ring is a step
system at the granularity of its two locks, in which a consumer may receive between any
two sends of one broadcast; logins that overlap a rotation are a second one. Clocks, random draws, database and file failures, the order of
Go's map iteration and the result of the unstable `sort.Slice` are parameters, and the
results hold for every choice of them.

Several promises made in comments are not met on all inputs. For each the model keeps the
code's behaviour and proves the exact condition:

- `action` filters ending in `.*` are documented as prefix matches; the query uses `LIKE`
  without escaping, so they are prefix matches exactly when the prefix has no `%`, `_` or
  backslash (`AuditQuery.QueryIsFilterIffPlain`); an escaped prefix would always be one
  (`LikePattern.EscapedPrefix`).
- `urlQuery` leaves `;` and control characters alone: a parameter with a `;` is dropped by
  Go's query parser, and a line break in any value keeps Go's client from sending the
  request at all (`UrlQuery.AllParametersComeBackIff`, `UrlQuery.LineBreakStopsRequest`).
- The plaintext key cache and the database row can part for good in two ways: a torn cache
  write, and a lost write next to an old cache file when the row is new (a migrated
  database). Every later boot then hands out a key the database rejects
  (`KeyCache.LaterKeysWorkIffSettled`, `KeyCache.OldCacheNewRow`).
- `ChangeCredentials` can fail after it has replaced the key file, when the file the
  environment names has become unreadable (`AuthService.RefusedButWritten`); when that
  file is readable the call succeeds and the file's own pair stays live.
- A login that checked the old password before a rotation and inserts its token after it
  keeps the old password alive; no other interleaving does
  (`RotationRace.OldPasswordIsOutIff`, `RotationRace.AlwaysCurrentIff`).
- The directory is not synced after the key file is renamed, so a reported credential change
  survives every power loss only if the medium held that pair before
  (`KeyFile.SuccessIsFinalIff`); otherwise the old password can return
  (`KeyFile.OldPasswordReturns`).
- The tiering is upgrade-only unless row counts are unreadable while the endpoint is down,
  the configured address consists of slashes, or an archived dense row is restored while
  the BM25 floor is active (`EmbedderTier.KeepsTierIffSafe`,
  `EmbedderTier.AlwaysTieredIff`); rows with an empty embedder name can hide dense rows
  (`EmbedderTier.VerdictExactly`), depending on map order exactly when they tie with a named
  embedder (`EmbedderTier.OrderMattersIffTie`).
- Copying a conversation never deletes, so a sidecar left at the target from an earlier
  visit survives next to the new `.db` (`Conversation.SwitchingBackMeetsOldLog`,
  `Conversation.ExactFilesIffCleanTargets`).
- A short button value spelled like an overflow key is decoded to another button's value
  (`CallbackTable.TapRoundTrip`); after a restart of the bridge, which forgets the table,
  an old button performs whatever long value has the same number by then
  (`CallbackTable.TapAcrossRestart`).
- One account directory with a blank name stops the import of all later ones
  (`AccountImport.ImportSucceedsIff`); a directory with surrounding spaces in its name gets
  a row that points elsewhere, and one called "default" is lost behind a logged-in gateway
  HOME (`AccountImport.RowPointsAtScannedDirIff`, `AccountImport.DefaultDirIsSwallowed`).
- Projects share the memory budget fairly, whatever they hold, exactly from twenty rows per
  project on (`MemoryBudget.NothingCutIff`); below that `MemoryBudget.CrowdedOutIff` says
  who loses rows.
- Overlapping pushes may reach subscribers in another order than the ring shows
  (`LiveTail.RingAndTailOrderMayDiffer`); they arrive in ring order exactly when each
  broadcast is begun by the push whose turn it is (`LiveTail.TailInRingOrderIff`).

## Model

| member | source | states |
|---|---|---|
| LogRing.Buffer.constructor | internal/applog/ring.go:48-57 | An empty ring of the requested capacity, 2000 when the request is not positive |
| LogRing.WriteRefines | internal/applog/ring.go:63-71 | One write turns "the last N of the history" into the last N of the longer history, also where the index wraps |
| LogRing.RingIsLastN | internal/applog/ring.go:63-71 | After any sequence of pushes, across any number of wraps, the array in chronological order is exactly the last capacity records pushed |
| LogRing.Buffer.Push | internal/applog/ring.go:63-71 | The in-place update keeps the refinement and appends to the history |
| LogRing.Walk | internal/applog/ring.go:96-111 | The modulo-index loop yields the records oldest first, without the skipped oldest ones |
| LogRing.Buffer.Snapshot | internal/applog/ring.go:86-112 | The result is exactly the last min(n, capacity, pushes) records, oldest first; n <= 0 means all |
| LiveTail.StepInv | internal/applog/ring.go:63-131 | Every lock-level step of pushes, subscribes, unsubscribes and receives keeps the global invariant |
| LiveTail.ChannelLifecycle | internal/applog/ring.go:73-131 | In no interleaving is a record sent on a closed channel or a channel closed twice; an unsubscribe leaves its channel closed |
| LiveTail.TailConservation | internal/applog/ring.go:73-82 | Received plus queued records and dropped records interleave, in order, to exactly the broadcasts since the subscribe; the three counts add up to the number offered |
| LiveTail.DropsOnlyWhenFull | internal/applog/ring.go:74-80 | A send is lost if and only if 64 records are already queued |
| LiveTail.PromptReaderLosesNothing | internal/applog/ring.go:59-82 | Over a whole run, a subscriber whose buffer is never full has no record dropped |
| LiveTail.SubscribersAgreeOnOrder | internal/applog/ring.go:73-81 | No two subscribers see the same two records in opposite orders |
| LiveTail.GapFreeHandoff | internal/applog/ring.go:63-131 | For a consumer that subscribes and then snapshots, every completed push is in the snapshot, was already overwritten when it was taken, or was offered to the channel |
| LiveTail.RingAndTailOrderMayDiffer | internal/applog/ring.go:63-82 | Two overlapping pushes can enter the ring in one order and be broadcast in the other |
| LiveTail.TailInRingOrderIff | internal/applog/ring.go:63-82 | Over any run, the broadcast order is the ring order if and only if every broadcast is begun by the push whose turn it is in the ring; a difference never heals |
| LiveTail.SubscriberSeesRingOrder | internal/applog/ring.go:63-82 | In such a run each subscriber gets its records at increasing positions of the write order |
| LiveTail.SequentialPushesKeepOrder | internal/applog/ring.go:63-82 | Pushes that do not overlap always take their turns, so they are broadcast in ring order |
| KeyFile.ConstantTimeCompareBytes | internal/auth/keyfile.go:277-286 | The OR/XOR accumulator is zero exactly when the byte strings are equal |
| KeyFile.ConstantTimeEqual | internal/auth/keyfile.go:260-272 | Equality of the two secrets, whatever their lengths |
| KeyFile.VerifyPassword | internal/auth/keyfile.go:231-254 | Accepts exactly the stored user together with the stored password, for file and for config credentials, and nothing when none are set |
| KeyFile.WriteKeyFile | internal/auth/keyfile.go:140-197 | Succeeds exactly on a non-blank user, an 8 to 72 byte password, a known HOME and no failing call, whatever temporary files earlier interruptions left; a failure keeps the key file and leaves at most its own temporary file; every state passed through has the old or the complete, synced new key file |
| KeyFile.StopAnywhereIsOldOrNew | internal/auth/keyfile.go:171-196 | A stop or power loss at any step makes the next load return complete earlier credentials or the complete new ones |
| KeyFile.KeyFileIsAlwaysComplete | internal/auth/keyfile.go:140-197 | Over any history of writes, interruptions, restarts and power losses the key file is always one that somebody wrote whole |
| KeyFile.LoadFailsIff | internal/auth/keyfile.go:85-118 | Loading fails if and only if the file that decides is torn, without user or without hash, or an override names a missing file |
| KeyFile.LoadedAccepts | internal/auth/keyfile.go:85-118 | What the loaded credentials accept, for every environment and disk: a readable override decides alone, else the key file, else the configured pair if both user and password are set; the empty password is never accepted from the configuration |
| KeyFile.NewFileLoads | internal/auth/keyfile.go:85-118 | The written file loads back as the trimmed user and the new password, unless an override names another file |
| KeyFile.SuccessIsFinalIff | internal/auth/keyfile.go:171-197 | After a completed write every restart and power loss loads the new pair if and only if the medium held that very pair before the call, because the directory is not synced |
| KeyFile.OldPasswordReturns | internal/auth/keyfile.go:171-197 | A power loss after a completed write after which the replaced password is accepted and the new one is not |
| AuthService.StepKeepsAgreement | internal/auth/auth.go:129-278 | Login, lazy validation, revoke and rotation each keep the token map in agreement with the plain event log |
| AuthService.AnswerIsGood | internal/auth/auth.go:249-266 | An agreeing map accepts a token exactly when the log says it stands and has not expired |
| AuthService.ValidateRefinesHistory | internal/auth/auth.go:129-278 | Over any run from an empty map, Validate accepts exactly the tokens that were issued, not revoked, not followed by a rotation and not past expiry; lazy deletion never shows |
| AuthService.RotationRevokesAll | internal/auth/auth.go:198-210 | Whatever the token map held, after a rotation in any run no token passes Validate at any time unless a later login issued it |
| AuthService.Service.constructor | internal/auth/auth.go:72-105 | Starts with no tokens and lifetimes of a day and thirty days unless configured; without override and key file exactly the configured pair is accepted, if both parts are set; after a failed load nothing is accepted |
| AuthService.Service.LoginWithTTL | internal/auth/auth.go:129-155 | Issues a token exactly when the live credentials accept the pair and a token could be drawn; otherwise nothing changes |
| AuthService.Service.Validate | internal/auth/auth.go:249-266 | The answer and the token info are those of the event log, and agreement is kept |
| AuthService.Service.Revoke | internal/auth/auth.go:269-278 | Removes the token; the answer is true only for a standing token and false only for one that does not stand or has expired |
| AuthService.Service.ChangeCredentials | internal/auth/auth.go:168-202 | A failure leaves live credentials and tokens as they were; success empties the token map; states exactly when the key file changes and when the call succeeds; without a foreign override file the live pair then accepts the trimmed new user with the new password and nothing else |
| AuthService.RefusedButWritten | internal/auth/auth.go:189-197 | The partial failure exists: a call that is refused, with the key file replaced and the old password still accepted |
| RotationRace.OldPasswordIsOutIff | internal/auth/auth.go:129-210 | In any interleaving, when a rotation comes to empty the map: no continuation accepts a token whose password was checked before the swap, if and only if no such login is between its check and its insert at that moment |
| RotationRace.AlwaysCurrentIff | internal/auth/auth.go:129-210 | Over any interleaving, outside the window between swap and revoke the map holds only tokens of the live credentials, if and only if no login inserts across a swap |
| RotationRace.OldPasswordSurvivesRotation | internal/auth/auth.go:129-210 | A concrete interleaving in which a token obtained with the old password passes after the rotation, for its whole lifetime |
| RotationRace.TokensNeedPassword | internal/auth/auth.go:129-155 | In any interleaving every token was issued for a user and password that the credentials of its time accept |
| RotationRace.RotationNeedsPassword | internal/auth/auth.go:168-180 | In any interleaving credentials are swapped only after their current password was given |
| RotationRace.DeletedNeverPasses | internal/auth/auth.go:249-278 | In any interleaving a token that was issued and then deleted never passes again |
| RotationRace.InsertedPasses | internal/auth/auth.go:145-152 | An inserted token passes up to the end of its lifetime and no longer |
| KeyCache.CoverIsPermission | internal/app/app.go:2278-2285 | The reconciliation test holds if and only if every wanted scope is granted itself or by a `p.*` whose `p.` it starts with |
| KeyCache.ScopesAfterBoot | internal/app/app.go:2145-2153 | After a completed boot the row has its own scope list if that permits everything wanted, and the wanted list otherwise |
| KeyCache.ReadAfterWrite | internal/app/app.go:2256-2274 | What each outcome of the cache write reads back as |
| KeyCache.Machine.EnsureKey | internal/app/app.go:2183-2226 | The provisioning passes through exactly the modelled host states and returns the modelled key |
| KeyCache.EveryReturnedKeyWorks | internal/app/app.go:2102-2173 | From a host without the cache file, over any run of boots that stop anywhere and whose cache writes are clean or lost, every returned key is accepted by its row and has the wanted scopes |
| KeyCache.CachedKeyIsForever | internal/app/app.go:2155-2172 | Once a key is cached, all later boots return it and none rotates |
| KeyCache.AgreementIffSettled | internal/app/app.go:2195-2225 | From any host a completed boot leaves cache and row in agreement if and only if they agreed already, or the write left the file empty or whole, or it was lost over a file that was unreadable or held that key |
| KeyCache.OldCacheNewRow | internal/app/app.go:2195-2206 | A clean write is not enough: lost next to an old cache file on a database without the row, the old key is handed out |
| KeyCache.DisagreementSticks | internal/app/app.go:2216-2225 | After a boot that leaves cache and row apart, for whichever reason, every later boot returns a key its row rejects |
| KeyCache.LaterKeysWorkIffSettled | internal/app/app.go:2183-2226 | From any host, after one completed boot and any later ones with clean or lost writes, a boot returns a working key with the wanted scopes if and only if the first one settled cache and row |
| EmbedderTier.DenseIntent | internal/app/app.go:2491-2502 | The loop over the counts, in any iteration order, computes the scan whose leader is characterised below |
| EmbedderTier.ScanFindsLeader | internal/app/app.go:2491-2502 | The leader is an eligible name with the largest count, or none is eligible |
| EmbedderTier.VerdictIsPresence | internal/app/app.go:2485-2502 | With named embedders the verdict is "a dense row exists", in every iteration order |
| EmbedderTier.ScanIsFirstMax | internal/app/app.go:2491-2502 | In every iteration order the loop ends on the first eligible name with the largest count, and on none only if no name is eligible |
| EmbedderTier.VerdictExactly | internal/app/app.go:2491-2502 | For every order the verdict is dense if and only if that first maximum is not the blank name |
| EmbedderTier.OrderMattersIffTie | internal/app/app.go:2491-2502 | Two iterations over the same counts can disagree if and only if the blank name ties for the lead with a named dense embedder |
| EmbedderTier.DenseIff | internal/app/app.go:2494-2496 | A name is not dense if and only if it begins with "bm25" in upper or lower case |
| EmbedderTier.BootFallsIffUnsafe | internal/app/app.go:2507-2570 | A boot on a store with dense rows selects BM25 if and only if counts and endpoint are both unavailable, or address and model are given and the address is nothing but slashes |
| EmbedderTier.BootOutcomes | internal/app/app.go:2507-2570 | Every boot in terms of its input's characters: off exactly when dense rows are known and address or model is all white space; dense exactly when both are given, the address is more than slashes, and the endpoint answers or dense rows are known; the floor otherwise |
| EmbedderTier.KeepsTierIffSafe | internal/app/app.go:2472-2570 | For every boot, write, delete, archive, restore and re-embed step: it keeps "BM25 only while no dense row" if and only if the step is safe |
| EmbedderTier.AlwaysTieredIff | internal/app/app.go:2472-2570 | Over any run from an empty store, BM25 is never active next to a dense row if and only if every step of the run was safe |
| EmbedderTier.UpgradeOnly | internal/app/app.go:1845-1858 | After any safe run no step turns a stored dense row into a BM25 row |
| EmbedderTier.ReembedPass | internal/app/app.go:1845-1858 | A re-embed pass brings exactly the visited live rows to the active embedder and adds, removes, archives or restores none |
| EmbedderTier.RestoreCanBreakTier | internal/memory/store_pgvector.go:694-707 | A run from an empty store, ending in the restore of an archived dense row after a boot onto the floor, that breaks the tiering |
| LikePattern.PrefixPatternIffPlain | internal/audit/service.go:133-137 | `LIKE prefix%` equals prefix matching on all texts if and only if the prefix has no metacharacter |
| LikePattern.EscapedPrefix | internal/audit/service.go:133-137 | With every character escaped, `LIKE prefix%` is prefix matching for every prefix |
| AuditQuery.BuildQuery | internal/audit/service.go:116-162 | Each placeholder names its own argument, LIMIT takes the last one, and the conjunction holds of exactly the selected rows below the cursor, NULLs included |
| AuditQuery.QueryIsFilterIffPlain | internal/audit/service.go:26-40 | The query selects what the options ask for on every row if and only if the action prefix is plain (or the time interval is empty) |
| AuditQuery.Query | internal/audit/service.go:60-111 | One entry per row of the asked page, field by field with NULL as empty; each entry lies within the caller's filter and below the cursor; at most 100 by default and 500 in all, and a next cursor, the last id, exactly for a full page |
| KeysetPaging.CursorSkips | internal/audit/service.go:105-109 | Moving the cursor to the k-th row found leaves exactly the rows after it |
| KeysetPaging.PaginationIsExact | internal/audit/service.go:60-111 | Following the cursor over a growing table yields every row picked at the first call exactly once, descending, in floor(m/limit)+1 pages |
| AuditQuery.AuditWalkIsExact | internal/audit/service.go:57-111 | The same for the audit table with its filter and clamped limit |
| Conversation.FileTree.SetLastConversation | internal/agyacct/conversation.go:110-125 | Sets one cwd's record and keeps the decoded others; a record that is the JSON value null panics |
| Conversation.FileTree.CopyConversation | internal/agyacct/conversation.go:72-108 | Equals the copy specification whenever it does not fail, and always when writes succeed; changes nothing outside the target HOME in any case |
| Conversation.RecordedIff | internal/agyacct/conversation.go:47-60 | A conversation is found for a cwd if and only if the HOME's record file is an object that names it there |
| Conversation.CopyIsFaithful | internal/agyacct/conversation.go:62-108 | When exactly a copy succeeds; source files are carried byte for byte, the cwd is recorded, other cwds and all other files are kept |
| Conversation.SameFilesIffNoStaleSidecar | internal/agyacct/conversation.go:84-98 | Source and target agree on all three files if and only if no sidecar absent at the source waits at the target |
| Conversation.ConversationSurvivesSwitches | internal/agyacct/conversation.go:47-125 | Over any chain of work and account switches the current HOME resumes the same conversation, with every file of the last work byte for byte |
| Conversation.SwitchExactIff | internal/agyacct/conversation.go:84-98 | A switch keeps exactly the last work's files if and only if neither the HOME it leaves nor its target holds another one |
| Conversation.ExactFilesIffCleanTargets | internal/agyacct/conversation.go:72-108 | Over any run of switches since the last work, the current HOME holds exactly that work's files if and only if no switch entered a HOME with a stale one |
| Conversation.SwitchingBackMeetsOldLog | internal/agyacct/conversation.go:84-98 | Work, switch, work, switch back: an old write-ahead log lies next to the new database |
| CallbackTable.Bridge.ToInlineKeyboard | docs/integrations/visayabai_telegram_bridge.py:217-235 | The loops over rows and buttons compute the rendering function; every button has its given text and data that stands for its given value in the new table, and no earlier key changes |
| CallbackTable.Bridge.Tap | docs/integrations/visayabai_telegram_bridge.py:116-123 | Data that stands for a value is decoded to it if and only if the value is not a short text spelled like a key in use; data that is no key in use comes back unchanged |
| CallbackTable.EncodeStandsFor | docs/integrations/visayabai_telegram_bridge.py:226-231 | Keys in use are exactly #1 to #seq, none is reused or overwritten, and the data stands for its value |
| CallbackTable.TapRoundTrip | docs/integrations/visayabai_telegram_bridge.py:116-123 | For any run of keyboards and a tap at any later time, the action is the button's value if and only if the value is not a short text spelled like a key in use; the data fits 64 bytes below 10^63 overflows |
| CallbackTable.NoHashNoKey | docs/integrations/visayabai_telegram_bridge.py:227-231 | Values not starting with '#' are never affected |
| CallbackTable.FitsTelegram | docs/integrations/visayabai_telegram_bridge.py:54-57 | Callback data stays within 64 UTF-8 bytes while the counter is below 10^63 |
| CallbackTable.ByteLenIsUtf8 | docs/integrations/visayabai_telegram_bridge.py:227-227 | The length test counts the bytes of the UTF-8 encoding (section 3 of RFC 3629) |
| CallbackTable.KeysNumberLongValues | docs/integrations/visayabai_telegram_bridge.py:54-59 | In any run of one process the n-th key maps to the n-th long value shown |
| CallbackTable.TapAcrossRestart | docs/integrations/visayabai_telegram_bridge.py:54-59 | A button shown before a restart and tapped after it performs its value if and only if it is short and no key in use, or the long value with its number since the restart is the same |
| CallbackTable.RestartMixesButtons | docs/integrations/visayabai_telegram_bridge.py:54-59 | For any two long values, after a restart the first one's button performs the second |
| UrlQuery.RoundTrip | cmd/opendray/mcp_memory.go:2349-2368 | Path decoding and form decoding of the escaped text both return the original, for every string |
| UrlQuery.NoRawSeparator | cmd/opendray/mcp_memory.go:2349-2368 | The escaped text holds no raw separator, and a ';' exactly when the input does |
| UrlQuery.QueryRoundTrip | cmd/opendray/mcp_memory.go:2106-2107 | Parsing a built query returns, in order, exactly the parameters whose value has no ';' |
| UrlQuery.WhatArrives | cmd/opendray/mcp_memory.go:2202-2206 | For every parameter list: nothing is sent when a value holds a control character; otherwise the server sees exactly the parameters without ';', in order |
| UrlQuery.AllParametersComeBackIff | cmd/opendray/mcp_memory.go:2106-2107 | All parameters arrive if and only if no value contains ';' or a control character |
| UrlQuery.LineBreakStopsRequest | cmd/opendray/mcp_memory.go:2094-2107 | A line break inside a search text keeps the whole request from being sent |
| UrlQuery.DocUrlRoundTrip | cmd/opendray/mcp_memory.go:1332-1336 | The slug is recovered from the last path segment and the parameters from the query; the URL is refused exactly for a control character in the slug or a value |
| AccountImport.DiscoverLocalAccounts | internal/agyacct/service.go:262-305 | The scan with its seen-set yields the deduplicated candidates in discovery order, or an error when the directory is unreadable |
| AccountImport.EmittedIsDistinct | internal/agyacct/service.go:265-271 | Every distinct non-blank candidate name appears once and nothing else does |
| AccountImport.Service.ImportLocal | internal/agyacct/service.go:310-339 | The loop appends exactly the created rows and reports success as specified |
| AccountImport.ImportKeepsRows | internal/agyacct/service.go:111-152 | Existing rows stay in place unaltered, and names stay unique and trimmed |
| AccountImport.ImportSucceedsIff | internal/agyacct/service.go:318-338 | The import runs to its end if and only if no discovered name is blank after trimming (unless a row has that exact name) |
| AccountImport.ImportedUnderTrimmedName | internal/agyacct/service.go:318-338 | After a successful import every discovered account has a row under its trimmed name |
| AccountImport.SecondImportCreatesNothing | internal/agyacct/service.go:307-339 | A second import over the same host changes nothing and succeeds |
| AccountImport.OnlyLoggedInHomesGetRows | internal/agyacct/service.go:262-305 | For every table and host a new row is the logged-in gateway HOME's, or comes from a real directory (no symlink) with a token and points at accountsDir/name |
| AccountImport.RowPointsAtScannedDirIff | internal/agyacct/service.go:111-152 | A successful import leaves one row under a logged-in directory's trimmed name, and it points at that directory if and only if the name has no surrounding white space and is not taken by the gateway HOME (unless HOME is that directory) |
| AccountImport.DefaultDirIsSwallowed | internal/agyacct/service.go:273-282 | With a logged-in gateway HOME, a directory called "default" gets no row of its own |
| MemoryBudget.FilterOutIntegrationZones | internal/app/app.go:139-149 | Keeps exactly the keys that are not integration zones |
| MemoryBudget.OwnZonesConcat | internal/app/app.go:139-149 | The filter works key by key and keeps the order |
| MemoryBudget.Collect | internal/app/app.go:232-246 | The loop with early break and final cut equals gathering all listings and keeping the first rows |
| MemoryBudget.ListAllMemories | internal/app/app.go:214-247 | The result is the first limit rows (400 by default) of all listings under the per-project share; a project alone gets its first rows up to the limit; projects that each hold that many leave less than one row each unused |
| MemoryBudget.ShareSpreads | internal/app/app.go:226-231 | From twenty rows per project on, n shares fit the limit and n larger ones would not; below that the share is twenty |
| MemoryBudget.ListingIsBoundedAndOwn | internal/app/app.go:214-247 | Never more rows than the limit and never a row of an integration zone |
| MemoryBudget.FairBudget | internal/app/app.go:224-243 | With twenty rows of budget per project every project whose listing succeeds contributes all rows of its share, without a cut, and the shares use the budget up to less than a row each |
| MemoryBudget.SharesFitIff | internal/app/app.go:226-231 | All full shares fit the limit if and only if it is at least twenty per project |
| MemoryBudget.NothingCutIff | internal/app/app.go:224-246 | The budget cuts nothing whatever the projects hold, if and only if the limit is at least twenty per project |
| MemoryBudget.EachProjectGetsWhatIsLeft | internal/app/app.go:232-246 | For every store and limit the result is one block per project, in order, each what the listings before it leave of its own |
| MemoryBudget.CrowdedOutIff | internal/app/app.go:232-246 | When exactly a project keeps its whole listing, and when exactly it gets nothing |
| ListCard.BeforeIsStrictWeak | internal/app/channel_commands.go:199-204 | The comparison is a strict weak order |
| ListCard.EndedOnlyAfterAllLive | internal/app/channel_commands.go:198-207 | For every result of the sort, an ended session is shown only if every live one is |
| ListCard.ChunkButtons | internal/app/channel_commands.go:291-304 | Rows flatten back to the input, all are full except possibly the last, none is empty |
| ListCard.ListSessionsCard | internal/app/channel_commands.go:205-276 | The keyboard holds the select rows, then the end rows, then the resume rows of the shown sessions, two buttons a row, only the last row of a group possibly shorter |
| ListCard.NewestFirst | internal/app/channel_commands.go:198-207 | The first twelve are shown; live ones come first, and no session precedes one of its kind with later activity, shown or cut off |
| ListCard.NoOtherButton | internal/app/channel_commands.go:244-268 | Every button belongs to a shown session and carries one of the three commands with its full id |
| ListCard.CardIsRight | internal/app/channel_commands.go:185-286 | For every stored list with distinct ids at most twelve are shown; a live one has exactly one select and one end button, an ended one exactly one resume, with full ids |

## Left out

- HTTP and WebSocket handlers, MCP loops, gateway clients, construction and goroutine start-up: forwarding around code that is elsewhere.
- Service control, self-update, macOS signing, backups, providers, notes and skills: thin shells over external programs.
- LogRing.Buffer.Push: the object covers the ring half of Push; the broadcast half, Subscribe and the unsubscribe closure are the step system of `LiveTail.dfy`, because they interleave.
- The Go scheduler's fairness and blocking: runs are finite sequences of enabled steps, so nothing is claimed about progress.
- AuthService.Service.LoginWithTTL: in the object each method is one step; logins that overlap a credential change are the step system of `RotationRace.dfy`.
- bcrypt's real collisions, timing behaviour, file permissions and audit events of the auth package: the hash is ideal and the rest has no modelled effect.
- Read errors of a key file other than absence and unreadable content.
- ensureDbtoolSignSecret and the operator editing or deleting integration rows between boots.
- The text of embeddings, similarity search, deduplication and explicit (non-auto) embedder backends.
- The SQL text itself: the query is modelled as conditions with placeholders, not as a string; deletions from the audit table and rows that become visible with an id below the cursor are not modelled.
- JSON records that decode with a type error, HOME paths that are different spellings of one directory, and directory creation failures.
- Database errors during an account import; they end it like a failed lookup, keeping the rows created so far.
- ListCard.ListSessionsCard: the text of the card and of the button labels is not modelled, only the buttons' values and styles.

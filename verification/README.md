# Verification models for aeus

Dafny models of the parts of aeus whose correctness spans whole runs: the token-bucket limiter,
the read-through cache and its version markers, the revocation denylist with refresh rotation,
the CLI wire protocol and command trie, the menu forest, and the RBAC tables with their bootstrap.
Code that changes things in place is written as classes and loops, each proved against a function
or a transition relation; the properties are lemmas about those, over every run.

`dafny verify dfyconfig.toml` checks the whole project.

| file | what it models |
|---|---|
| `RateLimit.dfy` | `memoryLimiter`: lazy refill, retry hint, janitor |
| `DbCache.dfy`, `DbCacher.dfy` | `Try` as a protocol of interleaved steps with a history of database states, and as the code itself |
| `Grants.dfy`, `GrantMarker.dfy` | the grants table, its writers, and `SUM(id)` as a version |
| `AllowList.dfy`, `PermissionChecker.dfy` | path patterns, the catalog's marker `MAX(updated_at)`, and the permission decision over the two cached sets |
| `TokenStore.dfy`, `TokenLifecycle.dfy`, `AuthService.dfy` | the bounded denylist, the protocol of login, refresh, logout and authentication, and the calls that play it |
| `Wire.dfy`, `CliStream.dfy`, `CliReplies.dfy` | the frame codec on byte sequences; the reader, writer, chunker and the client's wait; replies end to end |
| `Trie.dfy`, `TrieRuns.dfy`, `RouterNode.dfy` | command registration as a function on values, over whole runs in terms of the paths alone, and on heap nodes |
| `MenuTree.dfy`, `MenuForest.dfy` | `BuildTree` and `PathTo` |
| `Rbac.dfy`, `Seed.dfy`, `SeedExact.dfy` | role cascades, and the bootstrap transaction: when it writes enough, and that it writes nothing else |
| `Utf8.dfy` | `truncateUTF8` |
| `Strings.dfy`, `Sets.dfy`, `Sequences.dfy`, `Octets.dfy`, `Wrappers.dfy` | splitting and joining paths, cardinality, searching, bytes, `Option` and `Result` |

## Where the code and its comments differ

The models follow the code.

- The janitor's comment says an idle bucket has refilled by the time it is dropped. That holds
  exactly when the idle period plus one clock tick accrues the whole capacity
  (`RateLimit.JanitorExact`); otherwise two bursts pass where the rate law allows fewer.
- The comment on `grantsMarker` says grant rows are never updated in place and that a fresh id is
  larger than any it replaces. A role rename updates them in place and leaves the sum as it was
  (`GrantMarker.RenameHidden`), and replacing {1,2} by {3} repeats it
  (`GrantMarker.ShrinkingReplaceRepeatsSum`). Writes that insert at least as many rows as they delete
  do make it a version (`GrantMarker.GrowingWritesVersion`).
- The comment on `catalogMarker` speaks of inserts and edits only. A deletion moves `MAX(updated_at)`
  exactly when the row was newer than every other (`PermissionChecker.DeletionSeenExactly`).
- The comment in `isAllowed` lets a star pattern match its bare prefix; the code does not
  (`AllowList.SiblingsNotCovered` with an empty tail).
- The comment on `Logout` promises that a stolen refresh token cannot outlive it. A refresh that
  claims the token between the logout's parse and its write still mints a successor after the logout
  has completed (`TokenLifecycle.LogoutRace`), and only such a refresh does
  (`TokenLifecycle.MintsAfterLogoutExactly`). A logout that comes before the claim ends the chain
  (`TokenLifecycle.LogoutEndsChain`).
- `writeFrame` refuses data over 65535 bytes after it has already written the three feature bytes,
  and writes an error of any length under a 16-bit length that wraps (`Wire.ReadsWritten`).
- A reply with no bytes sends no frame, so the client waits for its timeout
  (`CliReplies.ReplyDelivered`).
- `BeforeUpdate` handles a rename and a soft delete in one statement by moving the references to the
  new key and then purging those of the old one, so they survive the role (`Rbac.RenamingDeleteExact`).
- `AfterDelete` reads the key and tenant of the instance it is given, so a delete by id alone leaves
  the references of the role standing (`Rbac.DeleteExact`).
- `ReplacePermissions` deletes by role key alone: outside a tenant scope it empties the roles of that
  key in every tenant (`Grants.ReplaceHeld`).
- `BuildTree` recurses forever on some tables with a repeated Component
  (`MenuTree.RepeatedComponentLoops`).
- `Seed` is not a fixpoint when a super role has an empty tenant: the create hook files its grants
  under the default tenant, so it is found lacking every time (`Seed.LegacySuperMissed`). A
  soft-deleted row with the id of a tenant to be ensured aborts the transaction
  (`Seed.PassesExactly`).

## Model

| member | source | states |
|---|---|---|
| RateLimit.RateLaw | middleware/auth/rate_limit_memory.go:80-110 | After any run, the calls of one key admitted while the clock reads within [lo, hi] number at most capacity + refill * (hi - lo), even if the clock runs backwards |
| RateLimit.LevelsKept | middleware/auth/rate_limit_memory.go:10-16 | Every run, swept or not, keeps every bucket's tokens between 0 and the capacity |
| RateLimit.JanitorUnseen | middleware/auth/rate_limit_memory.go:112-132 | If a whole burst accrues while idle, a limiter some of whose buckets were swept answers every later call as one that kept them |
| RateLimit.DoubleBurstAdmitted | middleware/auth/rate_limit_memory.go:112-132 | A burst, a sweep one tick after the idle period and a second burst: all 2 * capacity calls are admitted |
| RateLimit.JanitorExact | middleware/auth/rate_limit_memory.go:112-132 | The janitor is unnoticed in all runs, and keeps the rate law in all runs, if and only if a whole burst accrues in the idle period plus one nanosecond at refill tokens a second |
| RateLimit.DenialsAreFree | middleware/auth/rate_limit_memory.go:93-109 | Striking a denied call from a run at non-decreasing times changes no other answer |
| RateLimit.RetryHintExact | middleware/auth/rate_limit_memory.go:105-109 | After a denial with no admission in between, a call is admitted if and only if the real-valued delay has passed; the hint is that delay cut to whole nanoseconds, short by less than one |
| RateLimit.TokenBucket.Refill | middleware/auth/rate_limit_memory.go:93-97 | The bucket becomes its refilled value, capped, and unchanged when no time has passed |
| RateLimit.TokenBucket.Take | middleware/auth/rate_limit_memory.go:100-109 | Spends a token if there is one; if not, leaves the bucket and returns the wait cut to whole nanoseconds |
| RateLimit.MemoryLimiter.constructor | middleware/auth/rate_limit_memory.go:50-65 | A limiter with a positive capacity and rate starts without buckets |
| RateLimit.MemoryLimiter.Allow | middleware/auth/rate_limit_memory.go:80-110 | Leaves exactly the buckets and gives exactly the answer of the specification the run theorems are about; a cold key starts full |
| RateLimit.MemoryLimiter.Sweep | middleware/auth/rate_limit_memory.go:120-132 | Whatever order it visits them in, keeps exactly the buckets not idle for longer than the period |
| DbCache.RunKeepsInv | admin/dbcache/cacher.go:131-194 | In every interleaving, each entry, flight and answer holds a value loaded no earlier than its marker was read, each from a state the database has had |
| DbCache.MatchedIsCurrent | admin/dbcache/cacher.go:151-153 | With a versioning marker, a value served because its marker matched is what the loader gives on the database state at that check |
| DbCache.RevalidationExact | admin/dbcache/cacher.go:165-185 | Over all interleavings of writers, reloads, stores and deletes, matched values are current if and only if no two states share a marker with different contents at or between them and the later one; a marker never used again suffices |
| DbCache.OneWriteExact | admin/dbcache/cacher.go:151-158 | Across one write matched values are current in every interleaving if and only if the marker moved or the content of no usable key did |
| DbCache.NeverReusedVersions | admin/dbcache/cacher.go:11-18 | A marker that each change of content gives a new value is a version |
| DbCache.BoundedStaleness | admin/dbcache/cacher.go:141-147 | With a versioning marker a served value was live during the call, or comes from an entry stamped at most the grace window before, or from a shared flight that had loaded before the call and was still in progress then |
| DbCache.SingleFlight | admin/dbcache/cacher.go:162-165 | In every run at most one reload per cacher and key is in progress |
| DbCacher.Cacher.constructor | admin/dbcache/cacher.go:96-109 | A cacher starts with nothing cached |
| DbCacher.Cacher.Try | admin/dbcache/cacher.go:131-194 | Leaves the cache and returns the value or error of the protocol's run that nothing interleaves with, whichever of its calls fail; a fresh entry is served |
| DbCacher.FreshServed | admin/dbcache/cacher.go:141-150 | An entry stamped at most one second before the clock reading, or any not stamped after it when there is no dependency, is served as it is, whatever the database holds and whichever other calls fail, and the cache stays |
| DbCacher.MatchServed | admin/dbcache/cacher.go:151-154 | So is an older one whose marker could be read and is the one stored |
| DbCacher.RestReloads | admin/dbcache/cacher.go:155-193 | In every other case the loader's value is returned and stored under this call's marker and stamp, unless it or the marker query fails; an entry whose marker moved is dropped first |
| DbCacher.LongKeyRefused | admin/dbcache/cacher.go:133-135 | A key longer than 256 bytes is an error that touches nothing |
| DbCacher.ReadPlays | admin/dbcache/cacher.go:137-160 | The read path's five steps end as the branches of the code do, with the entry dropped only when its marker was read and had moved |
| DbCacher.ReloadPlays | admin/dbcache/cacher.go:162-185 | The reload's steps return the loader's value and store it with the marker read before it, or err and store nothing |
| Grants.Inserted | admin/models/role.go:187-204 | A batch takes the next ids in order and keeps every older row |
| Grants.RowCreated | admin/models/role_permission.go:34-37 | Each new row is as given, in the scope's tenant, its own, or the default one when it has none |
| Grants.ReplaceHeld | admin/models/role.go:175-205 | The role ends holding exactly the menus and the permissions named, in the tenant its rows are created in; other keys keep theirs; the same key in other tenants keeps its grants exactly when the statement is scoped |
| Grants.GrantMissingHeld | admin/models/role.go:218-265 | The role gains exactly the menus and permissions named that the scoped query did not find, where its rows are created, and no other role changes |
| Grants.TopUpAgainExact | admin/models/role.go:207-217 | A second top-up writes nothing if and only if rows are created where the query looks or everything named had been found |
| GrantMarker.ReplaceSum | admin/permission.go:32-40 | A replacement takes the deleted ids from the sum and adds those of the fresh ones |
| GrantMarker.ReplaceMarkerExact | admin/permission.go:32-40 | Any replacement, of or by no rows included, moves the marker if and only if the deleted and the fresh ids differ in sum |
| GrantMarker.ReplaceSeenExactly | admin/models/role.go:175-205 | Across any replacement revalidation is right if and only if those sums differ or no role the statement reaches gains or loses a permission |
| GrantMarker.WrittenGrows | admin/permission.go:32-40 | A replacement by at least as many rows, and a top-up, either change nothing or raise the sum |
| GrantMarker.GrowingWritesVersion | admin/permission.go:32-40 | Over every history of such writes no sum recurs, so every revalidated grant set is the table's at the check, in every interleaving |
| GrantMarker.RevocationBounded | admin/permission.go:222-242 | Over such a history, a code found granted though no table during the call granted it was read within the grace window, or shared a flight that had loaded before the call began |
| GrantMarker.ShrinkingReplaceRepeatsSum | admin/permission.go:32-40 | Replacing rows 1 and 2 by row 3 keeps the marker, and a stale set is then served as current |
| GrantMarker.RenameHidden | admin/models/role.go:69-82 | Re-pointing a role's rows keeps the marker; revalidation across it is right if and only if no permission row moved |
| GrantMarker.KeysDistinct | admin/permission.go:222 | As long as role keys hold no colon, two tenant and role pairs never share a cache key |
| AllowList.MatchPattern | admin/permission.go:397-418 | True if and only if the pattern is the path, is a star, or ends in a star and the path lies strictly below the rest, compared segment by segment |
| AllowList.StarMatches | middleware/auth/jwt.go:106-119 | The byte and slash comparison decides exactly the relation on the lists of segments |
| AllowList.IsAllowed | middleware/auth/jwt.go:97-123 | True if and only if some pattern of the list covers the path in that sense |
| AllowList.Match | admin/permission.go:338-353 | True if and only if some entry for that method, or for any, covers the path |
| AllowList.SiblingsNotCovered | middleware/auth/jwt.go:93-96 | A star right after a name covers neither the bare name nor a sibling that starts with it |
| PermissionChecker.LaterWritesVersion | admin/permission.go:25-30 | Inserts and edits, each in a later second than all stamps before, never repeat the maximum, so revalidated catalogs are current in every interleaving |
| PermissionChecker.CatalogWriteExact | admin/permission.go:25-30 | Across one write of any kind revalidation is right if and only if the maximum moved or no code did |
| PermissionChecker.DeletionSeenExactly | admin/permission.go:136-140 | Removing a row moves the maximum if and only if the row is newer than every other |
| PermissionChecker.InfrastructureExact | admin/permission.go:360-372 | Exempt are the empty route, four of their own, what lies below /mcp/ and what ends in /openapi.json, and nothing else |
| PermissionChecker.ServedVouched | admin/permission.go:193-239 | A code in a served set is in the database, or in an entry within its one-second window, or in one whose marker matches |
| PermissionChecker.Checker.Check | admin/permission.go:150-244 | Which requests pass, which refusal the others get, and what is left cached. With fail-open off, a business request passes only if an api row of the catalog and a permission row of the caller's own tenant and role hold its method and route, or held them as cached; with nothing cached and the database up, exactly then |
| TokenStore.StoreSound | admin/service/memory_token_store.go:45-135 | In every run, whatever the clock does, there are at most capacity entries and none is reported past the window last recorded for it |
| TokenStore.StoreRefines | admin/service/memory_token_store.go:45-107 | At non-decreasing times, while the live ids never outnumber the capacity, a query says whether the last window recorded for the id is open, and a claim is won exactly when it is not |
| TokenStore.RecordedIsLast | admin/service/memory_token_store.go:45-87 | That window is the one of the last revocation or won claim of the id that had not run out when it was made |
| TokenStore.OverfullForgets | admin/service/memory_token_store.go:9-15 | Once more ids are live than the capacity, some live id is answered as not revoked |
| TokenStore.InsertedExact | admin/service/memory_token_store.go:55-59 | A write records its window, keeps nothing that has run out, and drops no open entry unless the id is new and the open ones fill the capacity; then it drops one, which expires no later than any of them |
| TokenStore.MemoryTokenStore.constructor | admin/service/memory_token_store.go:33-40 | The store starts empty |
| TokenStore.MemoryTokenStore.Revoke | admin/service/memory_token_store.go:45-61 | Makes one step of the bounded store's relation, within capacity; an empty id or a window that has passed changes nothing |
| TokenStore.MemoryTokenStore.RevokeIfNotRevoked | admin/service/memory_token_store.go:68-87 | The same for the claim, which is won, and only then writes, if and only if the id has no open entry and its window lies ahead |
| TokenStore.MemoryTokenStore.Revoked | admin/service/memory_token_store.go:92-107 | True if and only if the id has an open entry; an entry found expired, and no other, is dropped |
| TokenStore.MemoryTokenStore.SweepLocked | admin/service/memory_token_store.go:110-116 | In any order of visits, keeps exactly the entries whose window lies ahead |
| TokenStore.MemoryTokenStore.EvictOneLocked | admin/service/memory_token_store.go:121-135 | Drops one entry that none outlived by, whichever of equals, and nothing from an empty store |
| TokenLifecycle.NoEvictionFunction | admin/service/memory_token_store.go:55-59 | While the live ids fit, the bounded store's only possible step is the one the protocol takes |
| TokenLifecycle.StepIssues | admin/service/auth.go:210-231 | Only a login and a refresh that won its claim issue tokens: one refresh token of 48 hours and one access token of the configured lifetime, each cut to a whole second, with the ids given; a login starts a chain and a refresh stays on its own |
| TokenLifecycle.RunIssues | admin/service/auth.go:214-226 | In every run each token was issued at some instant of it and expires that lifetime later, less than a second short |
| TokenLifecycle.RunKeepsInv | admin/service/auth.go:371-510 | In every interleaving of logins, refreshes, logouts, requests and ticks: claimed and revoked ids can never be claimed again, each is claimed once, and each login's chain has one head |
| TokenLifecycle.RotationIsLinear | admin/service/auth.go:418-450 | A refresh token has at most one successor pair, and each login's chain at most one token that can still be exchanged |
| TokenLifecycle.MintsAfterLogoutExactly | admin/service/auth.go:428-447 | After a completed logout some continuation mints a new successor of the token it named if and only if a refresh had won the token's claim and not yet minted |
| TokenLifecycle.LogoutRace | admin/service/auth.go:428-447 | That happens: a refresh that claims the token between a logout's parse and the logout's write is about to mint when the logout has completed |
| TokenLifecycle.LogoutEndsChain | admin/service/auth.go:465-510 | Once a logout naming the unclaimed refresh token of a login's chain has completed, the chain is over: no continuation, not even a refresh that had already parsed that token, issues another token of it |
| TokenLifecycle.ChainLengthensExactly | admin/service/auth.go:418-450 | From any reachable state some continuation issues another token of a login's chain if and only if a claim of the chain is about to mint or one of its tokens is exchangeable now |
| TokenLifecycle.RevokedNeverAuthenticates | middleware/auth/jwt.go:149-174 | Once an id is revoked, no request begun later authenticates with it at any time, although the store forgets it when it expires |
| TokenLifecycle.OrderMatters | admin/service/revocation_validator.go:71-81 | The denylist read before the expiry check never lets a token denied until its expiry through; the opposite order does exactly when the expiry falls between the two |
| AuthService.Service.constructor | admin/service/memory_token_store.go:17-31 | A service starts with an empty store of its own |
| AuthService.Service.RefreshToken | admin/service/auth.go:373-457 | Refused without a write, or decided by one claim of the old id before anything is minted, with the error of the first check that fails; the new pair is a refresh token of 48 hours and an access token of the configured lifetime, to the second |
| AuthService.ExchangePlays | admin/service/auth.go:418-456 | While nothing is evicted such a call is a stretch of the protocol's run: it issues the new pair exactly when it succeeds and leaves the run's store |
| AuthService.ReplayRefused | admin/service/auth.go:418-440 | After any run, a refresh token once exchanged, or named by a finished logout, is refused whatever else the call is given |
| AuthService.Service.RevokeToken | admin/service/auth.go:493-510 | Passes over what does not parse, has expired or has no id; otherwise denies the id until the token expires, whatever that evicts |
| AuthService.DenialPlays | admin/service/auth.go:493-510 | While nothing is evicted such a call leaves the store of a stretch of the protocol's run |
| AuthService.Service.Validate | admin/service/revocation_validator.go:53-83 | Denies exactly signed refresh tokens and signed tokens whose id has an open entry now; everything else passes untouched |
| AuthService.Service.Authenticate | middleware/auth/jwt.go:142-174 | The hook, then the expiry check: the outcome and the store of the protocol's two steps |
| AuthService.Service.Logout | admin/service/auth.go:465-486 | Errs only when given neither token; otherwise leaves the store of denying the one and then the other, evictions included |
| AuthService.LogoutLocksOut | admin/service/auth.go:459-486 | After a logout of a known, unexpired token that fell anywhere in a run, no later request authenticates with that token |
| Wire.FrameRoundTrip | transport/cli/frame.go:35-144 | A frame is read back, empty data as nil, with what follows it untouched, if and only if its error has at most 65535 bytes |
| Wire.LayoutExact | transport/cli/frame.go:94-142 | Byte by byte: the letters CLI, kind, flag, sequence number, timeout, timestamp, the two lengths, every number lowest byte first and negative ones in two's complement, then data and error |
| Wire.ReadsWritten | transport/cli/frame.go:104-107 | An error of any length comes back cut to its length modulo 65536, and the bytes cut off are left in the stream |
| Wire.StreamRoundTrip | transport/cli/frame.go:35-144 | Any sequence of frames whose data and errors fit is read back in order from the concatenated writes, and trailing bytes stay |
| Wire.ParseCanonical | transport/cli/frame.go:35-84 | Whatever is accepted is the writing of the frame returned followed by what is left: no two byte sequences read as one frame |
| Wire.TruncatedRefused | transport/cli/frame.go:42-81 | No proper prefix of a written frame is read as a frame |
| CliStream.Reader.ReadFrame | transport/cli/frame.go:35-84 | Consumes exactly what the parse of the unread bytes consumes, field by field, with its error |
| CliStream.Writer.WriteFrame | transport/cli/frame.go:86-144 | Appends the frame's writing, or, failing exactly on data over 65535 bytes, the three feature bytes alone |
| CliStream.WriteChunked | transport/cli/context.go:146-159 | Appends the writings of the chunks of the buffer, the last one flagged complete, and none for an empty buffer |
| CliStream.Send | transport/cli/context.go:113-128 | A positive code goes out as one complete frame holding the error text, anything else in chunks |
| CliReplies.ChunksExact | transport/cli/context.go:146-159 | A buffer goes out in ceil(n / 32766) frames, each holding the next 32766 bytes and the last the rest, all but the last flagged as portions, each with its own timestamp |
| CliReplies.IoLoop | transport/cli/client.go:73-107 | Reads until a frame cannot be read and hands each to the channel of its packet type, in order |
| CliReplies.AwaitExact | transport/cli/client.go:109-136 | A wait takes frames up to the first complete one of its number, or all there are, and prints the error or else the data of those of its number, and a line end after the complete one |
| CliStream.WaitResponse | transport/cli/client.go:109-136 | What is printed, how many frames are taken and whether the end was seen, as the recursive reading of the channel defines it |
| CliReplies.ReplyDelivered | transport/cli/client.go:73-136 | A reply chunked, written, read back, dispatched and awaited among frames of other types and numbers is printed byte for byte, and the wait stops at its last chunk; an empty one is never seen to end |
| CliReplies.ErrorDelivered | transport/cli/client.go:123-132 | An error reply among such frames is printed as its text, and the wait stops at it |
| CliStream.Client.GetSequence | transport/cli/client.go:37-45 | Returns and stores the next number |
| CliStream.SequencesDistinct | transport/cli/client.go:35-45 | Zero is never issued, and two calls get the same number if and only if they are a multiple of 65535 calls apart |
| Trie.HandleInserts | transport/cli/router.go:72-120 | On paths without empty segments the cutting of slashes registers segment by segment, a slash in front or behind making no difference |
| Trie.FailureChangesNothing | transport/cli/router.go:105-119 | A failed registration leaves the trie as it was, although a child is attached before the recursive call |
| Trie.RunsStayTidy | transport/cli/router.go:105-115 | After every run, siblings have distinct names and every node's path extends its parent's by its name |
| Trie.InsertFound | transport/cli/router.go:122-136 | A successful registration is found under its words with any arguments no child is named by |
| Trie.LookupsSurvive | transport/cli/router.go:122-136 | No run of registrations changes the node or the arguments of a lookup that resolved below the root |
| Trie.RegistrationLasts | transport/cli/router.go:72-136 | In every run a failed registration changes nothing, and a successful one is found, after all later ones, at the node it landed on, with its command, path, parameters and the arguments given |
| TrieRuns.RegistersExactly | transport/cli/router.go:72-120 | In every run a registration fails if and only if some earlier path, whether its own succeeded or not, reads as words that begin this one's; a failure changes nothing, and a path without words sets the root's command |
| TrieRuns.RefusalNames | transport/cli/router.go:116-118 | The error names the words of an earlier path that begin the new one's, the shortest such |
| TrieRuns.RegisteredFound | transport/cli/router.go:72-136 | When it succeeds, its segments up to the first with a colon, a dash read as app, followed by any arguments no earlier path goes on with, resolve to its command, that path, and the rest of the segments as parameters without one leading colon, whatever is registered later |
| TrieRuns.ReadsAsCoded | transport/cli/router.go:83-104 | Every path without empty segments reads so, and the code takes it so |
| TrieRuns.LookupResolves | transport/cli/router.go:122-136 | A lookup goes down as far as the words name children and answers with that node and the other words, or not at all if it has no command |
| RouterNode.Node.constructor | transport/cli/router.go:175-182 | A new node is a leaf without a command, on its own in the heap |
| RouterNode.Node.GetChildren | transport/cli/router.go:25-32 | Finds the first child of that name |
| RouterNode.Node.Handle | transport/cli/router.go:72-120 | Changes the nodes in place to exactly what the value-level registration gives, error included, and touches no node outside the trie |
| RouterNode.Node.Lookup | transport/cli/router.go:122-136 | Returns a node of the trie, or none, as the value-level lookup does |
| MenuTree.TerminationExact | admin/models/menu.go:163-186 | The recursion under every root ends if and only if no row below a root is filed under itself, however indirectly; distinct Components suffice |
| MenuTree.RepeatedComponentLoops | admin/models/menu.go:182-184 | On rows X, Y under X and X under Y it never ends |
| MenuTree.KidsListed | admin/models/menu.go:156-162 | The rows filed under one are exactly those naming it, in table order |
| MenuTree.ChainUnique | admin/models/menu.go:150-170 | With distinct Components a row has one chain of parents from a root at most |
| MenuForest.ForestConserves | admin/models/menu.go:150-186 | With distinct Components the forest holds exactly once each row whose chain of parents reaches an empty or missing one, and not at all any other |
| MenuForest.PermutesExactly | admin/models/menu.go:145-149 | The same, if and only if every row's chain of parents reaches an empty or missing one |
| MenuForest.ForestShows | admin/models/menu.go:172-186 | Every node of the forest carries the columns of a row of the table, and its children are the rows filed under that one, in table order |
| MenuForest.AcyclicPermutes | admin/models/menu.go:145-149 | With distinct Components the forest is a permutation of the table if and only if the parent links have no cycle |
| MenuForest.BuildTree | admin/models/menu.go:150-170 | The three loops build exactly the forest those theorems are about |
| MenuForest.BuildSubtree | admin/models/menu.go:172-186 | The recursion builds exactly the subtree below its row |
| MenuForest.PathTo | admin/models/menu.go:192-216 | Ends on every table, cyclic ones too, with the walk up from the row of that id, or an error when there is none |
| MenuForest.PathToSimple | admin/models/menu.go:200-207 | The walk never names a Component twice and ends in the row it was asked for |
| MenuForest.BreadcrumbExact | admin/models/menu.go:192-216 | On every table, with cycles and repeated Components too, the walk goes from the row to the first row its parent link names, and so on, until a link is empty, names no row or names one passed already |
| MenuForest.BreadcrumbsAreTreePaths | admin/models/menu.go:192-216 | With distinct Components the breadcrumbs of the rows in the tree are exactly the ways down the tree |
| Rbac.RenameIntegral | admin/models/role.go:65-83 | A rename to a free key keeps every grant and every user on a live role of its own tenant |
| Rbac.RenameKeepsAssignments | admin/models/role.go:17-22 | A rename keeps which user has which role and what every role holds |
| Rbac.DeleteIntegral | admin/models/role.go:85-123 | Deletion, soft or hard of the loaded row, keeps the references intact, and the two leave the same tables |
| Rbac.DeleteExact | admin/models/role.go:110-123 | A hard delete keeps the references intact if and only if its hook is given the row as loaded or nothing named the role |
| Rbac.RenamingDeleteExact | admin/models/role.go:33-103 | Renaming and soft-deleting in one update keeps them intact if and only if nothing referred to the role |
| Rbac.UpdatedRows | admin/models/role.go:33-103 | What an update does to each row of each table: references follow a new key, a soft delete that sets none detaches the users and drops the grants, tenants and data stay |
| Rbac.DeletedRows | admin/models/role.go:110-123 | What a hard delete does to each row: users named by the instance keep their tenant and lose their key, its grants go, and nothing else changes |
| Rbac.RunsIntegral | admin/models/role.go:33-265 | No run of role, user and grant operations leaves a dangling role key |
| Rbac.RecreatedRoleIsBare | admin/models/role.go:93-100 | A role created under the key of a deleted one adopts no user and no grant |
| Rbac.RoleTables.constructor | admin/models/role.go:125-143 | The tables as given |
| Rbac.RoleTables.Update | admin/models/role.go:33-103 | The update hook and the statement leave exactly the specified tables; a missing row changes nothing |
| Rbac.RoleTables.Delete | admin/models/role.go:110-123 | The row goes, and the hook purges what names the key and tenant of the instance it is given, whatever those are |
| Rbac.RoleTables.ReplacePermissions | admin/models/role.go:175-205 | The loops leave exactly the replaced grants and no other change; the role then holds exactly the menus and permissions named |
| Rbac.RoleTables.GrantMissingPermissions | admin/models/role.go:218-265 | The loops leave exactly the topped-up grants and no other change; a role whose tenant the statement reaches then holds what it held and what was named |
| Seed.OnePassCompleteExactly | admin/seed.go:327-338 | After one pass every super role holds every live menu and every permission under its own tenant if and only if, before it, no super role of the empty tenant other than the admin role lacked any of them, missing scaffolding menus included |
| Seed.OnePassFixpointExactly | admin/seed.go:193-194 | Under that condition, and only then, a second pass writes nothing |
| Seed.LegacySuperMissed | admin/seed.go:366-383 | A super role of the empty tenant makes the second pass write again |
| Seed.OthersSettled | admin/seed.go:238-357 | From any tables, a second pass under any credentials changes nothing but grants |
| Seed.PassesExactly | admin/seed.go:199-325 | From any tables a pass goes through if and only if credentials were given, neither tenant it needs is a soft-deleted one, and the admin user exists or its password is acceptable; the first of these that fails is the error |
| Seed.PassConverges | admin/seed.go:238-357 | After one pass the scaffolding menus exist, the admin user sits in the admin role's live tenant, a builtin admin role is super, and with tenant scoping every live tenant has every schema template |
| Seed.PassRemovesNothing | admin/seed.go:184-198 | A pass removes no row and changes none but the admin role's and the admin user's |
| SeedExact.MenusWritten | admin/seed.go:80-152 | The menus added are live, asked for, and each for a Component no earlier row has |
| SeedExact.RoleWritten | admin/seed.go:218-291 | The admin role is made builtin and super in the default tenant, or the first of its key is given the default tenant if it had none and made super if builtin; nothing else of any role changes |
| SeedExact.UserWritten | admin/seed.go:228-325 | The admin user is made with the admin role in that role's tenant, or moved there with the role it had; nothing else of any user changes |
| SeedExact.TenantsWritten | admin/seed.go:256-305 | The tenants added are live, the default one or the admin role's, and had no row, deleted or not |
| SeedExact.SchemasWritten | admin/seed.go:434-484 | The schema rows added are copies of templates in all but the tenant, for live tenants that had no row for their module, table and column; none without tenant scoping |
| SeedExact.GrantsWritten | admin/seed.go:366-383 | The pass grants nothing but live menus and permissions, and only to super roles, under their own tenant or, for those without one, the default |
| Seed.Session.constructor | admin/seed.go:199-210 | A session on the given tables, with the program's section menus |
| Seed.Session.EnsureSectionMenus | admin/seed.go:80-104 | Appends exactly the section menus no row has, deleted rows counted as present |
| Seed.Session.GrantFullCatalog | admin/seed.go:330-338 | Tops up the grants of each super role in turn and changes nothing else |
| Seed.Session.EnsureTenantSchemas | admin/seed.go:434-484 | Appends, for each live tenant in turn, exactly its missing copies of the templates |
| Seed.Session.EnsureAccounts | admin/seed.go:256-325 | The tenant, role and user writes, or the error of the first that fails |
| Seed.Session.Seed | admin/seed.go:199-358 | The whole pass in order; on any error the tables are as before |
| Utf8.TruncateUtf8 | admin/audit.go:191-200 | What fits is returned as it is; of anything longer, valid or not, the longest valid prefix within the limit |
| Utf8.WholeCharactersKept | admin/audit.go:188-190 | Of encoded characters exactly the leading ones that fit whole are kept, so none is split and a cut leaves fewer than four allowed bytes unused |
| Utf8.ValidIsEncoded | admin/audit.go:197 | The byte sequences taken as valid (section 4 of RFC 3629) are exactly the encodings of sequences of characters (section 3) |

## Left out

- Floating point: the limiter's `float64` is a real number; only the cut of the retry delay to whole nanoseconds is modelled, and the delay is taken to fit a `time.Duration`.
- RateLimit.MemoryLimiter.Sweep: one tick of the janitor; its ticker and goroutine are not modelled.
- Locking: each mutex-guarded section is one atomic step. `Try`, the refresh and the logout are split at every database, cache, clock and store access.
- DbCacher.Cacher.Try: ties the code to the run nothing interleaves with; interleavings are the subject of `DbCache`. Values of different types under one key, a panicking loader, and aliasing of cached values are not modelled.
- DbCache: expiry of entries is a step that may happen at any time, whatever the TTL. A caller that enters singleflight joins the flight in progress until the return that wakes the waiters; storing and returning are two steps.
- GrantMarker.GrowingWritesVersion: histories of `ReplacePermissions` and `GrantMissingPermissions` only; renames, deletions and menu cascades write the table too, and the exact effect of a rename on the marker is stated apart.
- PermissionChecker.Checker.Check: parsing of allowlist entries (`splitAllowEntry`), request metadata and the wrong claims type behind an interface are inputs; each cache call is the uninterrupted one.
- TokenLifecycle.RotationIsLinear: runs in which the store evicts nothing; eviction really can revive a token (`TokenStore.OverfullForgets`).
- AuthService.Service.RefreshToken: the lookups of user and role enter as their verdict; tokens without an `exp` claim, a service without a store, a failing shared store, and login's own checks are not modelled; both tokens of a pair are minted at one clock reading. Tokens without an id are passed through as the code does, but the run theorems speak of tokens that have one.
- AuthService.Service.Authenticate: taking the token out of the header; the allowlist in front of it and the permission decision behind it are modelled apart.
- AuthService.Service.Logout: the echoed uid is represented by the token it was read from.
- Signing: a signed token is an unforgeable record; which of the middleware's errors a malformed token draws is reduced to one.
- CliStream.Reader.ReadFrame: a failed read says nothing of what is left of the stream; the connection is closed then.
- CliStream.Writer.WriteFrame: the writer itself never fails or writes short.
- CliStream.WaitResponse: the timer and the exit channel are the case of a channel that ends; printing is the bytes printed.
- Encoding of replies (`encode`, `serialize`), the handshake, completion and the shell.
- Trie.HandleInserts: paths with empty segments, as in `a//b`, where the code may register under an empty name; `TrieRuns` rests on the same condition.
- MenuForest.BuildTree: required not to meet a loop, because on the other tables the program does not return; `MenuTree.TerminationExact` says which those are.
- MenuForest.PathTo: reads one table that does not change meanwhile, with no database errors; the visible subset of a role's menus is the same function of a smaller table.
- Rbac.RunsIntegral: keys unique per tenant and non-empty tenants, as the validation rules and create hooks keep them; the hooks' early return for an empty tenant is in the model but outside the theorem. Users are created, moved and dropped as one operation each.
- SQL itself: collation, column widths, errors in mid-transaction, and autoincrement reuse.
- Seed.Session.Seed: a user insert fails only by the password policy; duplicate user names, hashing and the fields no later step reads are left out. `Setup` and its derived menus and permissions are inputs.
- Option plumbing, accessors, generated code, transports, registries, metrics and the UI.

# A verified model of suse-ai-up's address scanning, caches, stores and tokens

suse-ai-up is a gateway for MCP servers. Most of it moves HTTP messages; this
project models the parts that compute, cache, store and authenticate, and
proves what they do:

- **Scan targets** (`Addresses`, `ScanTargets`, `DiscoveryResults`): the
  expansion of CIDR blocks on byte arrays with carry, masks and caps, the
  filtered product of ranges, addresses and ports, port lists, and the merging
  of scan results.
- **Response cache** (`ResponseCache`, `CacheRuns`, `CacheInterleavings`): the
  TTL and eviction cache as an object, its counters over every sequential run,
  and its refinement of a plain map over every interleaving of callers.
- **Capability cache** (`CapabilityCache`): concatenated keys over dashed
  names, and concurrent callers.
- **File stores** (`FileStore`, `CrashRuns`, `Users`, `Groups`, `PairStores`,
  `Assignments`): the stores that rewrite a file through a temporary file and a
  rename, with a failure or a crash at any step; user passwords; group members;
  stores keyed by pairs, as maps on pairs.
- **Storage envelope** (`StorageCrypto`, over `Base64` and `ByteStrings`).
- **External login** (`ExternalLogin`): look-up then creation, as separate
  steps of concurrent logins.
- **Tokens** (`Tokens`, over `Decimal` and `Text`).
- **String transformations** (`SidecarUrls`, `DockerCommand`).

What the source changes in place is an object or an array here
(`MCPCache`, `CapabilityCache.Cache`, `FileStore.Store`, `IncIP`, `SpliceOut`),
and every method is proved against a function or relation on values, about
which the lemmas then speak. Concurrency and crashes are state machines whose
steps are the source's critical sections; theorems about them hold for every
finite run. `Common`, `Lists` and `Text` hold shared definitions.

Package functions whose inside is not modelled are parameters: SHA-256 is any
function to 64 digits, assumed free of collisions only on the finite set of
requests in play; AES-GCM is any seal and open where open undoes seal and a
sealed text is 16 bytes longer; JSON is any encoder and decoder of lists that
undo each other up to the fields marked `json:"-"` and write '[' first; bcrypt
is any comparison; package net reads and prints addresses. Clocks, nonces,
random bytes and failures are arguments.

## Where the code and its comments part

The model follows the code. These results say where that matters:

- A block with 64 or more host bits passes the size cap, because Go's shift
  yields 0, and expands to one address (`WideBlockIsTruncated`).
- Invalidating an adapter in the response cache removes one key that is hardly
  ever stored, invalidating a method removes everything, and invalidating both
  misses entries with parameters (`MatchesExactly`,
  `InvalidateKeepsItsPromiseIff`, `InvalidateMissesToolLists`). The
  repository's own test of adapter-wide invalidation expects otherwise.
- `Hits` counts all look-ups, misses included (`CountersAreConserved`).
- Password hashes never reach the user file, so no local login survives a
  restart (`FileEqualsMemoryIff`, `RestartForgetsPasswords`).
- A change whose save failed stays in memory and is written by the next save
  that succeeds (`FailedCreateSurfaces`); `UpsertAsync` refuses existing IDs.
- External IDs that differ in dashes and underscores share a user ID, and the
  second identity cannot log in (`SameUserIDIff`, `TakenIDRefusesLogin`).
- A sidecar URL can survive rewriting for adapter IDs that end like "http"
  (`NoSidecarUrlLeftIff`).
- The value of a docker flag written as a token of its own is taken for the
  image; the real image is found exactly when no flag before it has such a
  value, or the first one reads the same (`ImageFoundIff`,
  `SeparateFlagValueTakenForImage`).
- A port range up to the largest 64-bit integer never ends
  (`PortLoopEndsIff`).
- A login writes the record it looked up back whole, so a change of groups or
  password made in between is undone (`FinishKeepsEditsIff`).
- A store that cannot read its file starts empty, and its first save replaces
  the file (`UnreadableFileIsLost`).
- Bearer lifetimes above 2562047 hours wrap around (`BearerLifetimeIff`).

## Model

| member | source | states |
|---|---|---|
| Addresses.IncIP | internal/service/discovery.go:763-770 | the bytes are left as the next address, for arrays of any length |
| Addresses.NextIsPlusOne | internal/service/discovery.go:763-770 | the carry is big-endian addition of one modulo 256 to the length |
| Addresses.BytesOfValue | internal/service/discovery.go:763-770 | the bytes are the digits of the address's number in base 256, the first the most significant |
| Addresses.MaskedValue | internal/service/discovery.go:726 | masking rounds an address down to a multiple of 2 to the host bits, for every prefix length |
| Addresses.CoversIffMasksAgree | internal/service/discovery.go:742 | an address shares the prefix exactly when its masked bytes are the network address |
| Addresses.CoversIffInRange | internal/service/discovery.go:742 | the addresses of a prefix are those numbered from the network address on, 2 to the host bits of them |
| Addresses.BlockFits | internal/service/discovery.go:742 | no block reaches past the top address of its family |
| Addresses.ContainsIffCovers | internal/service/discovery.go:742 | the loop guard is membership of the prefix, except that IPv6 prefixes under 96 bits do not see IPv4-mapped addresses |
| Addresses.ExpandBlock | internal/service/discovery.go:705-751 | up to 16 host bits, fast cases included, the consecutive addresses from the network address; 17 to 63 an error; from 64 on the network address alone |
| Addresses.Enumerate | internal/service/discovery.go:740-747 | the loop yields the counted number of consecutive addresses and always leaves by its count |
| Addresses.NthIsContained | internal/service/discovery.go:742 | every address looked at before the count is reached passes the guard |
| Addresses.Broadcast | internal/service/discovery.go:725-735 | for one host bit, setting the host bits gives the address after the network address |
| Addresses.ExpansionIsTheBlock | internal/service/discovery.go:740-751 | the listed addresses are 2 to the host bits in number, strictly increasing, and exactly those of the prefix |
| Addresses.WideBlockIsTruncated | internal/service/discovery.go:715-722 | with 64 or more host bits the cap lets the block pass and its second address is missing from the result |
| Addresses.StepPastTheEnd | internal/service/discovery.go:742-746 | one step past the last address leaves the block, at the top address too, unless the prefix is empty |
| ScanTargets.ExpandCIDR | internal/service/discovery.go:693-760 | text with a slash expands as its block, a plain address to itself, anything else is refused |
| ScanTargets.ExpansionIsCapped | internal/service/discovery.go:717-722 | no range of any prefix length stands for more than 65536 addresses |
| ScanTargets.CidrRangeMeaning | internal/service/discovery.go:693-751 | a CIDR range stands for exactly the addresses its prefix covers, for none, or for its network address, by its host bits |
| ScanTargets.CidrRangeInOrder | internal/service/discovery.go:740-751 | the addresses of a block of up to 16 host bits come in order, each printed once |
| ScanTargets.PlainRangeMeaning | internal/service/discovery.go:693-760 | a range without a slash stands for itself alone if it is an address, and is refused otherwise |
| ScanTargets.IsExcluded | internal/service/discovery.go:638-646 | a target is skipped exactly when some excluded text occurs in it |
| ScanTargets.GenerateTargets | internal/service/discovery.go:603-660 | the loops compute the nested concatenation over ranges, addresses and ports |
| ScanTargets.TargetsOfAddresses | internal/service/discovery.go:630-655 | the targets of the addresses, one address after the other |
| ScanTargets.TargetsOfPorts | internal/service/discovery.go:631-653 | the targets of one address, one numeric port after the other |
| ScanTargets.TargetsExactlyWanted | internal/service/discovery.go:621-656 | a URL is a target exactly when it reads http://, some address of an expandable range, a colon and the decimal of some numeric port, and no excluded text stands anywhere in it |
| ScanTargets.TargetReads | internal/service/discovery.go:638 | every target ends in a colon-free text that is the number of its port |
| ScanTargets.TargetsDiffer | internal/service/discovery.go:638 | targets of different addresses or ports differ, even where addresses hold colons |
| ScanTargets.OneTargetPerPort | internal/service/discovery.go:631-655 | with nothing excluded an address has one target for each of its different numeric ports, in their order |
| ScanTargets.TargetsInOrder | internal/service/discovery.go:621-656 | targets of joined lists are those of the parts in order, at all three levels |
| ScanTargets.ExpandPorts | internal/service/discovery.go:1118-1135 | the loop concatenates what each specification contributes, for specifications whose range ends |
| ScanTargets.PortLoopEndsIff | internal/service/discovery.go:1157-1159 | the 64-bit counter of the loop passes its end exactly when the end is not the largest integer |
| ScanTargets.ExpandPortRange | internal/service/discovery.go:1138-1162 | where the loop ends, the inclusive range of a well-formed pair, nothing otherwise |
| ScanTargets.PortsExactlyDenoted | internal/service/discovery.go:1118-1162 | where the loops end, a port is listed exactly when a specification is that port or a single-dash pair around it; malformed ones add nothing |
| ScanTargets.SpecRangeOf | internal/service/discovery.go:1138-1162 | a single-dash pair of numbers, white space around them allowed, stands for the numbers from the one to the other |
| ScanTargets.PortsOfOne | internal/service/discovery.go:1121-1133 | a specification without a dash stands for its number, once |
| ScanTargets.PortsInOrder | internal/service/discovery.go:1121-1133 | the ports of joined lists are those of the parts in order |
| ScanTargets.PrintedRangeExpands | internal/service/discovery.go:1138-1162 | a range printed as start-end, below the largest integer, expands to start, start + 1, up to end |
| DiscoveryResults.DeduplicateServers | internal/handlers/discovery.go:191-205 | one entry for each ID, namely the one seen last, the first of equals |
| DiscoveryResults.NewestIsUnique | internal/handlers/discovery.go:190-197 | that entry is determined by the input |
| ResponseCache.EncodeInjective | pkg/mcp/cache.go:163-179 | with no colon in adapter and method names, the bytes hashed determine adapter, method and parameters |
| ResponseCache.ColonsCollide | pkg/mcp/cache.go:163-179 | with colons in names, different requests share a key for every hash |
| ResponseCache.EncodingUniqueIff | pkg/mcp/cache.go:163-179 | a request has the bytes hashed to itself exactly when its names are colon-free and it has no parameters |
| ResponseCache.MatchesExactly | pkg/mcp/cache.go:359-388 | an adapter's invalidation matches the one key of that adapter with the method given, or "test", and no parameters; a method's alone matches every key |
| ResponseCache.MCPCache.constructor | pkg/mcp/cache.go:144-160 | a new cache is empty with counters at zero; without a configuration server descriptions live five minutes, lists two, other responses half a minute, and a thousand entries are kept |
| ResponseCache.MCPCache.Get | pkg/mcp/cache.go:198-225 | a valid entry is returned and its hit count raised; Hits counts every call, Misses the failed ones |
| ResponseCache.MCPCache.LeastUsedKey | pkg/mcp/cache.go:304-313 | in any iteration order the loop ends with a key of least hit count, and with none only for an empty map |
| ResponseCache.MCPCache.EvictLRU | pkg/mcp/cache.go:299-321 | exactly one entry, of least hits, leaves a table that is not empty |
| ResponseCache.MCPCache.Set | pkg/mcp/cache.go:228-253 | at capacity one entry of least hits goes, even for an overwrite; then the entry is stored under its key with its method's lifetime |
| ResponseCache.MCPCache.Invalidate | pkg/mcp/cache.go:256-287 | exactly the matching keys are removed and the size recounted |
| ResponseCache.MCPCache.InvalidateAll | pkg/mcp/cache.go:290-296 | nothing is left and the size is recounted |
| ResponseCache.MCPCache.Cleanup | pkg/mcp/cache.go:339-356 | exactly the expired entries are removed and the size recounted |
| ResponseCache.MCPCache.UpdateMetrics | pkg/mcp/cache.go:391-405 | with metrics on Entries becomes the table's size, with metrics off nothing changes |
| CacheRuns.SetCallIsSetStep | pkg/mcp/cache.go:228-253 | a step of a run is what the method promises, and conversely |
| CacheRuns.SetChanges | pkg/mcp/cache.go:228-253 | one entry of least hits leaves exactly when the table is full, the new one comes without hits and with its method's lifetime, all others stay as they are |
| CacheRuns.ServedIffYoung | pkg/mcp/cache.go:22-29 | over any run without another Set, eviction or invalidation of its key, what was stored is what a Get returns, and what a clean-up leaves, exactly while its age is at most its method's lifetime |
| CacheRuns.CleanedIff | pkg/mcp/cache.go:339-356 | a clean-up removes exactly the entries older than their lifetime and changes no other |
| CacheRuns.InvalidatedIff | pkg/mcp/cache.go:256-287 | an invalidation removes exactly the one key of the adapter it looks for, or everything for a method alone, and changes no other entry |
| CacheRuns.SizeIsBounded | pkg/mcp/cache.go:246-251 | no run ever holds more than the larger of 1 and MaxEntries |
| CacheRuns.CountersAreConserved | pkg/mcp/cache.go:105-132 | over every run with metrics on, Hits counts Gets, Hits less Misses those that returned data, Evictions the full Sets, Entries the size, and the size is additions less removals |
| CacheRuns.MetricsOffStayZero | pkg/mcp/cache.go:391-394 | with metrics off no counter moves in any run |
| CacheRuns.HitCountsAreServes | pkg/mcp/cache.go:219-222 | the hit count evictions go by is how often the entry was served since it was stored |
| CacheRuns.InvalidateOnRequests | pkg/mcp/cache.go:256-287 | which cached requests an invalidation removes |
| CacheRuns.InvalidateKeepsItsPromiseIff | pkg/mcp/cache.go:262-280 | it removes what its comments say exactly when the only cached request they cover is the one looked for, or everything cached is of the method |
| CacheRuns.InvalidateMissesToolLists | pkg/mcp/cache.go:269-274 | a cached tool list survives its adapter's invalidation, and one with parameters that of its method |
| CacheInterleavings.CommitRefinesSet | pkg/mcp/cache.go:243-252 | the locked part of a concurrent Set is a Set of the sequential cache |
| CacheInterleavings.StepKeepsInvariant | pkg/mcp/cache.go:198-356 | every step of every caller keeps the cache part of the plain map of latest Sets |
| CacheInterleavings.EveryHitIsCurrent | pkg/mcp/cache.go:198-356 | over all interleavings, data returned is that of the latest Set of its request at the look-up, not invalidated in between, no older than its method allows; and the size bound holds |
| CacheInterleavings.ServedIffYoungEnough | pkg/mcp/cache.go:198-253 | over all interleavings, a Get that looks after a committed Set, with no other Set, eviction or invalidation of the key between, is served that data exactly when it is young enough as it judges |
| CacheInterleavings.ColonFreeWorld | pkg/mcp/cache.go:163-179 | colon-free requests are free of key collisions if the hash is on their encodings |
| CapabilityCache.CacheKeyInjective | pkg/mcp/capability_cache.go:86-88 | keys of admissible adapters determine name, type and URL although names hold dashes |
| CapabilityCache.UnrestrictedNamesCollide | pkg/mcp/capability_cache.go:86-88 | names with upper-case letters can clash |
| CapabilityCache.TypesStartUpperCase | pkg/models/adapter.go:11-15 | each of the five connection types starts upper-case and has no dash |
| CapabilityCache.Cache.GetCapabilities | pkg/mcp/capability_cache.go:39-72 | a live entry is served, otherwise what discovery finds is served and stored for five minutes with the server's description, and a failed discovery stores nothing |
| CapabilityCache.Cache.GetCachedCapabilities | pkg/mcp/capability_cache.go:176-188 | the live entry or none, without discovering |
| CapabilityCache.Cache.SetCapabilities | pkg/mcp/capability_cache.go:191-203 | the capabilities and description are stored under the adapter's key for five minutes |
| CapabilityCache.Cache.InvalidateCache | pkg/mcp/capability_cache.go:75-83 | exactly the adapter's key is removed |
| CapabilityCache.Cache.Cleanup | pkg/mcp/capability_cache.go:163-173 | exactly the entries past their time are removed, in any order |
| CapabilityCache.UndisturbedCallIsTheMethod | pkg/mcp/capability_cache.go:39-72 | the steps of a caller nobody interferes with amount to the method's contract |
| CapabilityCache.NeverAnotherAdapters | pkg/mcp/capability_cache.go:39-203 | over all interleavings, what is served from the cache is the last thing written for that very adapter when it was looked up, not invalidated until then, and under five minutes old |
| CapabilityCache.ServedIffYoung | pkg/mcp/capability_cache.go:39-203 | over all interleavings, what was written and neither rewritten nor invalidated since is served exactly while less than five minutes have passed |
| Base64.RoundTrip | pkg/clients/crypto.go:72-86 | decoding undoes encoding for every byte string, in both alphabets |
| Base64.EncodedLength | pkg/clients/crypto.go:72 | every three bytes, or the last one or two, take four characters |
| Base64.EncodingReads | pkg/clients/crypto.go:72-73 | every three bytes are written as the alphabet's characters for their groups of six bits, in order, and padding for missing bytes |
| Base64.DecodesIff | pkg/clients/crypto.go:84-90 | apart from line breaks, what decodes is whole quads of digits, the last with at most two signs of padding |
| Base64.RejectsForeignFirst | pkg/clients/crypto.go:84-90 | text starting outside the alphabet does not decode |
| Base64.LineBreaksIgnored | pkg/clients/crypto.go:86 | a line break anywhere does not change what is decoded |
| StorageCrypto.EncryptWrites | pkg/clients/crypto.go:18-77 | under a key string of at least 16 bytes the output is the base64 of the nonce and a text that opens, with the string cut or zero-padded to 32 bytes, to the data; under the empty one it is the data |
| StorageCrypto.DecryptIff | pkg/clients/crypto.go:80-115 | what is read is the text itself if it is not base64, and else exactly what its bytes after the nonce open to |
| StorageCrypto.DecryptUndoesEncrypt | pkg/clients/crypto.go:49-115 | for key strings of at least 16 bytes whose padded keys agree, and every nonce, the data comes back |
| StorageCrypto.AcceptedKeysRoundTrip | pkg/clients/crypto.go:18-115 | exactly the empty key string and those of 16 bytes or more are accepted, and each gives a round trip |
| StorageCrypto.PaddedKeysAgreeIff | pkg/clients/crypto.go:35-43 | two key strings act as one exactly when they agree on 32 bytes, missing ones counting as zero |
| StorageCrypto.PlainTextKeptIff | pkg/clients/crypto.go:84-90 | a file is handed back as it stands exactly when it is not base64 |
| StorageCrypto.PlainListKept | pkg/clients/crypto.go:87-90 | a plain JSON list is always read as it stands |
| FileStore.LoadOfContent | pkg/clients/user_group_store.go:190-265 | loading a saved file gives the persisted map, for every iteration order and nonce, encrypted or not |
| FileStore.ContentHolds | pkg/clients/user_group_store.go:226-257 | a saved file is the list's JSON, sealed under the key if there is one |
| FileStore.LoadFailsIff | pkg/clients/user_group_store.go:190-216 | no file and an empty one load to nothing; another fails exactly when it cannot be decrypted or parsed |
| FileStore.LastOfEachID | pkg/clients/user_group_store.go:218-221 | of records with one ID in a file the last is loaded, and none is made up |
| FileStore.PlainFileStillLoads | pkg/clients/user_group_store.go:204-211 | a plain file still loads once encryption is on |
| FileStore.RecoveredIsPersisted | pkg/clients/user_group_store.go:213-221 | what a new process starts with loses nothing by being saved again |
| FileStore.RecoveredIsKeyed | pkg/clients/user_group_store.go:218-221 | every record a new process starts with sits under its own ID |
| FileStore.ChangesCommute | pkg/clients/user_group_store.go:498-564 | changes of different records give the same map and answers in either order |
| FileStore.CreateUpdateDelete | pkg/clients/user_group_store.go:498-564 | creation succeeds exactly when update and deletion do not, a second is refused, deletion undoes it, what was stored is what is found, and a refusal changes nothing |
| FileStore.Store.constructor | pkg/clients/adapter_store.go:47-61 | a new store holds what its file loads to, or nothing if that fails |
| FileStore.Store.SaveToFile | pkg/clients/adapter_store.go:190-228 | on success the file holds the records, sealed if there is a key, and loads to the persisted map, in any iteration order; on any failure the file is untouched |
| FileStore.Store.Create | pkg/clients/adapter_store.go:64-74 | the map changes as in the in-memory store, the file follows exactly when saving succeeds, and memory is not rolled back |
| FileStore.Store.Update | pkg/clients/adapter_store.go:120-130 | likewise for an existing record |
| FileStore.Store.Delete | pkg/clients/adapter_store.go:133-143 | likewise for removal |
| FileStore.Store.UpsertAsync | pkg/clients/adapter_store.go:146-148 | it is Create, and refuses an ID already held |
| CrashRuns.StepKeepsInvariant | pkg/clients/user_group_store.go:226-265 | every step, a crash included, keeps the file loading to the map of the last rename |
| CrashRuns.CrashRecoversLastRename | pkg/clients/user_group_store.go:190-265 | a crash at any moment recovers exactly the map of the last completed rename, which is the state before the operation in progress unless a save has failed since |
| CrashRuns.OnlyRenameCommits | pkg/clients/user_group_store.go:254-262 | only the rename changes what a crash recovers, and moves it to the present map |
| CrashRuns.UnreadableFileIsLost | pkg/clients/user_group_store.go:46-61 | over any run on a file that cannot be read, the file stays until the first rename, can be read exactly after one, and from the start only records created since are known |
| CrashRuns.FailedCreateSurfaces | pkg/clients/user_group_store.go:64-76 | a creation whose save failed is refused a second time and reaches the file with the next good save |
| CrashRuns.OperationsAreRuns | pkg/clients/adapter_store.go:64-143 | each operation of the store object is such a run, ending in the map and file of its contract |
| Users.FileEqualsMemoryIff | pkg/models/adapter.go:529 | the user file equals memory exactly when no user has a password hash |
| Users.AuthenticateIff | pkg/clients/user_group_store.go:163-187 | a local login succeeds exactly for a local user with a password whose hash matches |
| Users.RestartForgetsPasswords | pkg/clients/user_group_store.go:163-187 | after a restart at any point of any run no local login succeeds |
| Groups.EditEffect | pkg/clients/user_group_store.go:361-404 | one call keeps the list free of duplicates, puts its user in or out, and leaves all others in order |
| Groups.MembershipOverRuns | pkg/clients/user_group_store.go:361-404 | over any series of calls: no duplicates, membership as the last call about each user says, order kept among users not called about |
| Groups.RemoveUndoesAdd | pkg/clients/user_group_store.go:377-396 | somebody added comes last, and removing them restores the list |
| Groups.RefusedIff | pkg/clients/user_group_store.go:370-404 | adding a member and removing a stranger are refused, and nothing else |
| Groups.DroppedAt | pkg/clients/user_group_store.go:394-396 | what is removed is exactly the first occurrence |
| Groups.SpliceOut | pkg/clients/user_group_store.go:396 | the tail moves down in the backing array and the cells from the last one on keep their values |
| Groups.RemoveInPlace | pkg/clients/user_group_store.go:394-403 | the loop and splice drop the first occurrence in place, or report a stranger |
| Groups.AddMember | pkg/clients/user_group_store.go:361-381 | the group's members and time change, or nothing does, with the answer for each case; the file follows a good save and else stays |
| Groups.RemoveMember | pkg/clients/user_group_store.go:384-404 | likewise for removal |
| PairStores.InjectiveByFirst | pkg/clients/adapter_group_assignment_store.go:40-42 | with colon-free adapter IDs assignment keys determine both IDs |
| PairStores.InjectiveBySecond | pkg/clients/user_adapter_token_store.go:62-64 | with colon-free adapter IDs token keys determine both IDs |
| PairStores.UniqueKeyIff | pkg/clients/adapter_group_assignment_store.go:40-42 | a pair has its key to itself exactly when neither part holds a colon |
| PairStores.StoreIsMapOnPairs | pkg/clients/adapter_group_assignment_store.go:45-98 | over any series of creations, updates and deletions of pairs without clashing keys, the store holds the records of the map on pairs and gives its answers, to the next change and to every look-up |
| PairStores.StoreIsMapOnPairsIff | pkg/clients/user_adapter_token_store.go:67-174 | a store answers as the map on pairs in every series of changes exactly when no two pairs in play have one key |
| PairStores.ColonFreeApart | pkg/clients/user_adapter_token_store.go:62-64 | pairs whose adapter ID, first or last, holds no colon never have one key |
| Assignments.ListAssignmentsForGroup | pkg/clients/adapter_group_assignment_store.go:131-143 | the list holds exactly the group's assignments, each once |
| Assignments.HasAccessIffListed | pkg/clients/adapter_group_assignment_store.go:131-158 | with colon-free adapter IDs and any group IDs, a group has access exactly when its listing shows read permission on the adapter |
| Assignments.AdapterAccessIff | pkg/clients/adapter_group_assignment_store.go:131-158 | access check and listing agree on all questions about colon-free adapters exactly when no readable assignment has a colon in its adapter ID |
| Assignments.AccessMatchesListingIff | pkg/clients/adapter_group_assignment_store.go:131-158 | access check and listing agree on every question exactly when no readable assignment has a colon in its IDs |
| Assignments.AssignmentStoreIsMapOnPairs | pkg/clients/adapter_group_assignment_store.go:45-158 | after any series of changes for colon-free adapters, access, listing and the map from adapter and group to assignment agree |
| Assignments.TokenOfThePair | pkg/clients/user_adapter_token_store.go:82-98 | with colon-free adapter IDs the token found is the stored one of that pair, exactly while it has not expired |
| Assignments.TokenStoreIsMapOnPairs | pkg/clients/user_adapter_token_store.go:67-174 | after any series of changes for colon-free adapters, the token found is that of the map from user and adapter, or the refusal says it is missing or expired |
| Assignments.GetTokenByValue | pkg/clients/user_adapter_token_store.go:101-116 | a token returned is stored, has the value and is not expired; a refusal means no token or an expired one has it |
| ExternalLogin.SameUserIDIff | pkg/auth/user_middleware.go:176-178 | two identities share a user ID exactly when providers agree and external IDs differ at most in dashes for underscores |
| ExternalLogin.UserIDReads | pkg/auth/user_middleware.go:176-178 | the ID is the provider, an underscore, and the external ID with underscores for dashes |
| ExternalLogin.MapExternalGroupsToLocal | pkg/auth/user_middleware.go:181-210 | the default group, and the administrators once for each configured team or group that admits the user |
| ExternalLogin.LocalGroupsAreRight | pkg/auth/user_middleware.go:181-210 | the default group comes first and all others are the administrators, present exactly when a configured team occurs inside an external group or a configured group is one |
| ExternalLogin.OneEntryPerName | pkg/auth/user_middleware.go:185-205 | there is one entry for each configured name that admits the user |
| ExternalLogin.GetByExternalID | pkg/clients/user_group_store.go:148-160 | a user of the identity if there is one, in any iteration order |
| ExternalLogin.AuthenticateExternalUser | pkg/auth/user_middleware.go:81-116 | undisturbed, it succeeds exactly when the identity is known or its ID is free and saving works; a known user keeps groups and password, a new one gets the local groups the provider's earn; the record stored is the one returned with the store's times |
| ExternalLogin.StepKeepsInvariant | pkg/auth/user_middleware.go:81-116 | every step of every login keeps identities under their own IDs |
| ExternalLogin.OneUserPerIdentity | pkg/auth/user_middleware.go:81-116 | over all interleavings no two users have one identity and no login is granted as somebody else |
| ExternalLogin.TakenIDRefusesLogin | pkg/auth/user_middleware.go:83-113 | whatever happens between look-up and creation, an identity whose ID another one's user has is refused and changes nothing |
| ExternalLogin.FinishKeepsEditsIff | pkg/auth/user_middleware.go:83-95 | over all interleavings, a login's update refreshes the present record exactly when nobody has touched the rest of it since the look-up, and otherwise restores the groups and password it read |
| ExternalLogin.RacingFirstLogins | pkg/auth/user_middleware.go:83-113 | of two first logins of one identity the later is refused although the user then exists |
| Decimal.AtoiOfPrint | internal/service/discovery.go:632-636 | Atoi reads back every printed 64-bit integer |
| Decimal.AtoiIff | internal/service/discovery.go:632-636 | Atoi reads a 64-bit number off exactly the texts that are its decimal digits after an optional sign and zeros |
| Decimal.DigitsOfPrint | internal/service/discovery.go:638 | a printed number shows its decimal digits without leading zeros, a negative one after a dash |
| Tokens.ScanOfPrint | pkg/auth/token_manager.go:242-246 | Sscanf reads back every printed 64-bit integer |
| Tokens.ScanIntIff | pkg/auth/token_manager.go:242-246 | Sscanf reads a number exactly when, after white space, the text begins with one that parses to it |
| Tokens.RefreshTokenReads | pkg/auth/token_manager.go:211-225 | a token decodes to its name, its second of issue and its random bytes |
| Tokens.AcceptedIff | pkg/auth/token_manager.go:228-254 | any text is accepted for a name exactly when it decodes to three colon-free parts with that name first and a second of issue at most 30 days old, in 64 bits |
| Tokens.TokenParts | pkg/auth/token_manager.go:220-237 | a token's text has three parts more than its name has colons, and for a colon-free name they are its fields |
| Tokens.RefreshTokenValidIff | pkg/auth/token_manager.go:211-254 | a token validates, to its own name, exactly when the name is colon-free and 30 days have not passed, for any clock that leaves 30 days of room in 64 bits |
| Tokens.BearerLifetimeIff | pkg/auth/token_manager.go:86-91 | a day by default; a lifetime asked for is given exactly up to 2562047 hours, and one more wraps negative |
| SidecarUrls.NoOccurrenceLeft | internal/handlers/adapters.go:879 | replacing leaves no occurrence, at any position, when pattern and replacement cannot overlap |
| SidecarUrls.RewriteReads | internal/handlers/adapters.go:871-886 | every body is pieces between its leftmost sidecar URLs, and its rewriting is the same pieces with the proxy's URL between them |
| SidecarUrls.UrlsDoNotOverlap | internal/handlers/adapters.go:872-876 | the two URLs of an adapter cannot overlap unless its ID ends like "http" |
| SidecarUrls.NoSidecarUrlLeftIff | internal/handlers/adapters.go:871-886 | no rewritten body holds the sidecar URL, and rewriting is idempotent, for exactly the IDs not ending in h, ht, htt or http |
| SidecarUrls.OverlappingBody | internal/handlers/adapters.go:871-886 | for the other IDs a body whose rewriting still holds the URL |
| SidecarUrls.RewriteChangesIff | internal/handlers/adapters.go:881-883 | a body changes exactly when it holds the sidecar URL |
| DockerCommand.FieldsOfSpaced | pkg/deployer/docker_deployer.go:106 | splitting finds the tokens, whatever white space stands before, between and after them |
| DockerCommand.FieldsOfDivided | pkg/deployer/docker_deployer.go:106 | white space of any length divides a text into parts that are split each for itself |
| DockerCommand.ParseDockerCommand | pkg/deployer/docker_deployer.go:98-138 | the index loop computes the recursive reading of the tokens |
| DockerCommand.ParseUndoesPrint | pkg/deployer/docker_deployer.go:98-138 | a printed command, however spaced, parses to port 8000, its variables, the last setting winning, before or after the image, and its image exactly when no separate flag value stands first |
| DockerCommand.ImageFoundIff | pkg/deployer/docker_deployer.go:109-135 | for any spacing, any flags, variables and lone "-e" tokens before the image and any tokens after it, parsing succeeds and finds the first separate flag value, so the image exactly when there is none or it reads the same |
| DockerCommand.EveryCommandDivides | pkg/deployer/docker_deployer.go:112-131 | any tokens are such flags and variables, and then nothing, a last "-e", or an undashed token with what follows |
| DockerCommand.RefusedWithoutImage | pkg/deployer/docker_deployer.go:107-135 | commands that are no "docker run" are refused, and so are those without an undashed token |
| DockerCommand.SeparateFlagValueTakenForImage | pkg/deployer/docker_deployer.go:125-129 | in the simplest case a flag's separate value is taken for the image |
| DockerCommand.MergeEnv | pkg/deployer/docker_deployer.go:46-50 | additional variables win over parsed ones |

## Left out

- ExpandPortRange: a range up to the largest integer, for which the source's loop does not end, is excluded.
- ExpandPorts: likewise.
- PortsExactlyDenoted: likewise.
- PrintedRangeExpands: likewise.
- ExpandBlock: package net's 16-byte form of IPv4 addresses, which prints like the 4-byte form and is cut to it by the mask.
- GenerateTargets: the addresses the proxy listens on are an argument, not read from interfaces and environment.
- EveryHitIsCurrent: the counters, which have a lock of their own, are followed in sequential runs only.
- UpdateMetrics: memory usage, hit times and ETags of the response cache.
- OneUserPerIdentity: records stored by the rest of the program are taken to carry no external ID or to have been read from the store; a record placed under a foreign ID by hand could break it.
- Create: the time stamps of users and groups are part of the record passed in; the store for tokens, which is never encrypted, is the case of no key.
- GetCapabilities: the contents of the capability maps; what discovery finds is a value carried by the adapter. A server's description is its name, version and protocol.
- ScanInt: white space beyond the one-byte characters of ASCII.
- TrimSpace: likewise white space beyond ASCII, and in Fields.
- AddMember: slices shared between a stored group and copies handed out earlier; records are values, and SpliceOut shows what such a copy would see.
- RemoveMember: as for AddMember, the store keeps a fresh list.
- HTTP handlers, proxying, Kubernetes, OAuth flows, JWT signing and logging: input and output without a property of this kind.
- The inside of AES-GCM, SHA-256, bcrypt and encoding/json: parameters, as described above.
- ExtractTokenFromHeader, parseTrentoConfig, the listing methods that only filter, session and route managers: easy members.
- Session selection in the authorization service: it depends on the meaning of a loop variable's address.

# OpeniWAN: models and proofs

OpeniWAN is a client for the iWAN VPN protocol. This project models the parts of it whose correctness depends on
state, branching or arithmetic, and proves what those parts are for. Every file is Dafny 4.11; `dafny verify
dfyconfig.toml` covers the whole project.

| files | part of the system |
|---|---|
| `Base.dfy` | result and option values, faults, set sizes, map comparison, bytes, words and their wire encodings |
| `Fragments.dfy`, `SrReassembly.dfy`, `SrDelivery.dfy`, `SrTiming.dfy`, `TraditionalReassembly.dfy` | fragment codec and the two reassemblers |
| `Routes.dfy`, `RouteMasks.dfy`, `RoutePolicy.dfy`, `RouteTransactions.dfy` | CIDR difference, the routing policy, the route-table undo log |
| `Credentials.dfy`, `CredentialNames.dfy`, `ChunkStore.dfy`, `CredentialStore.dfy`, `CredentialRuns.dfy` | the chunked credential store over a fallible keyring |
| `IpTrim.dfy`, `Ciphers.dfy`, `SrHeaders.dfy`, `SrMonitorBody.dfy`, `SrDataPath.dfy`, `SrWire.dfy` | the segment-routing data path |
| `SrMonitor.dfy` | the monitor handshake of client and responder over an unreliable network |
| `SrGroups.dfy` | the sanitiser of controller-supplied segment-routing groups |
| `RelayPermits.dfy`, `UdpResponse.dfy`, `DnsLookup.dfy`, `DomainRules.dfy` | DNS relay limits, injected responses, lookups, domain rules |
| `Tlv.dfy` | type-length-value attributes of control packets |

How the models are built:

- Objects that update fields are classes whose methods are proved against functions or relations on values
  (`Insertion`, `Step`, `AfterRequest`, `Undone`, …); loops are methods with invariants; the theorems about whole
  histories are about those functions and relations. Code that only computes is functions and lemmas.
- Machine words are numbers below a power of two. Shifts are divisions, masks are remainders, and an `or` of
  disjoint fields is a sum. Instants are nanoseconds. Wrap-around is written out where it can happen.
- A fallible environment is a function `faults` from operation numbers to booleans, over which every statement
  quantifies; a failed operation has no effect. The credential store also keeps a `log` of its operations and its
  `history`, the entries after every single one, so that a statement about all of `history` is a statement about a
  crash at any point.
- Concurrency (relay workers) and the network (monitor) are state machines with one step per atomic operation or
  message, and all interleavings are allowed.
- Block ciphers are any pair of block functions of which one undoes the other; the JSON serialisers are an
  encode/decode pair assumed to round trip, and the digest is any function.

Places where a tempting property fails, and the exact condition under which it holds:

- A default route does come out of `resolve_route_policy` for a family other than the peer's
  (`OtherFamilyDefaultEscapes`); `ResolveRoutePolicy` and `DefaultSurvives` say exactly when. `Route::parse` refuses
  such a route later, at installation (src/tun.rs:377-387).
- A final TLV with an empty value is lost by `parse_all`; `ParseOfEncodeAll` and `StrictAccepts` say exactly when.
- If the network duplicates requests, the monitor can count more received than sent (`DuplicationOvertakes`);
  `OvertakesExactlyWhenOverrun` says exactly when. Duplicated responses do no harm.
- If the responder is still active from an earlier run, the client can be established although its first request was
  lost (`ActiveResponderMisleads`); `SafeExactlyFromInactive` says that every run from any other start is safe.
- A failed save can leave chunks that no manifest names (`LeakingSave`); `Save` and `RunCalls` say exactly when.
- The recorded minimum delay is not the least of all samples: zero also means "unset" (src/sr.rs:716-727);
  `RecordedDelays` says that it is the least since the last zero.
- Two credential accounts share entries exactly when one is named like a chunk of the other (`AccountsStayApart`).

## Model

| member | source | states |
|---|---|---|
| `Fragments.ParseOfEncode` | src/fragment.rs:36-108 | a fragment encodes exactly when its offset, length and end fit, and parsing the bytes, whatever follows them, gives it back, in both id byte orders |
| `Fragments.EncodeOfParse` | src/fragment.rs:36-108 | whatever parses is encodable and encodes to exactly the bytes read, so no two wire prefixes mean the same fragment |
| `Fragments.WirePrefix` | src/fragment.rs:82-108 | the bytes on the wire: the id in its byte order, a little-endian word with EOP in bit 0, direction in bit 1, offset from bit 2 and length from bit 15 on, then the data |
| `SrReassembly.SrFragmentReassembler.Insert` | src/fragment.rs:261-341 | groups and answer are those of `Insertion`, which has no byte guard and no "coverage changed" error; counters stay equal to the bytes held, at most 131072; no subtraction underflows; `SrTiming` says case by case, in numbers, what `Insertion` is |
| `SrReassembly.SrFragmentReassembler.InsertLive` | src/fragment.rs:263-302 | the branches after the purge, with the 262144-byte guard proved unreachable |
| `SrReassembly.SrFragmentReassembler.AddPart` | src/fragment.rs:299-341 | the fragment joins its group in offset order and the group goes away exactly when the answer is a packet or an error |
| `SrReassembly.SrFragmentReassembler.PurgeExpired` | src/fragment.rs:246-259 | exactly the groups that are not `Live` go, and the byte counter follows; `SrTiming.OthersGoByAge` says that these are the ones that began more than 2,000,000,000 ns ago |
| `SrReassembly.SrFragmentReassembler.RemoveGroup` | src/fragment.rs:343-347 | the group goes and its bytes leave the counter without underflow |
| `SrReassembly.SrFragmentReassembler.Clear` | src/fragment.rs:233-236 | an empty valid state |
| `SrReassembly.Assemble` | src/fragment.rs:304-340 | for sorted disjoint parts the loops compute `Assembly`; the length mismatch branch is dead |
| `SrReassembly.ScanParts` | src/fragment.rs:304-317 | the scan loop finds the end of the first gapless run that ends in an EOP part |
| `SrReassembly.JoinParts` | src/fragment.rs:326-338 | the early stop is never taken before every part is joined |
| `SrReassembly.ScanIsExact` | src/fragment.rs:304-338 | when nothing starts past the total, the parts are gapless, end in EOP and join to exactly the total |
| `SrReassembly.InsertionKeepsGood` | src/fragment.rs:246-347 | every insert keeps: at most 16 groups, parts sorted, disjoint, non-empty and within 8192, counters equal to part lengths, no complete group pending |
| `SrReassembly.BytesBounded` | src/fragment.rs:278-280 | the bytes held are at most 8192 per group, far below the guard |
| `SrReassembly.EmittedPacketAgrees` | src/fragment.rs:261-341 | an emitted packet carries each held fragment at its offset, is covered by them, ends at an EOP fragment, and its group is gone |
| `SrDelivery.ReachableStatesAreGood` | src/fragment.rs:246-347 | the invariant and the 131072-byte bound hold after every history of non-empty fragments under any clock |
| `SrDelivery.AssemblyOfPieces` | src/fragment.rs:304-340 | sorted pieces of a cut assemble to nothing until they are the whole cut, then to the packet |
| `SrDelivery.OrderIsUnique` | src/fragment.rs:302-302 | disjoint non-empty fragments have one order by offset, so the sort has one result |
| `SrDelivery.AnyOrderReassembles` | src/fragment.rs:261-341 | a packet cut into fragments and delivered in any order, with duplicates and other ids in between, is answered by nothing until the completing piece, which is answered by exactly the packet |
| `SrTiming.EmittedFromRecent` | src/fragment.rs:246-341 | in every history on a clock that does not go back, an emitted packet is made only of fragments of its id that arrived at most 2,000,000,000 ns before, each at its offset, the arriving one among them |
| `SrTiming.LatePieceStartsAnew` | src/fragment.rs:246-259 | a piece more than two seconds after the first of its group gets the answer and leaves the groups it would if there were no group of its id |
| `SrTiming.LateArrivalStartsAnew` | src/fragment.rs:246-259 | in a history, a piece more than two seconds after every earlier one of its id is answered as a first one |
| `SrTiming.OthersGoByAge` | src/fragment.rs:246-259 | whatever is inserted, a group of another id stays, unchanged, if and only if it began at most two seconds ago |
| `SrTiming.InsertRefuses` | src/fragment.rs:263-300 | the refusals in order and in numbers: an end past 8192, a known offset (ignored), a new id beside sixteen young groups, a byte shared with a held fragment (the group is dropped) |
| `SrTiming.InsertJoins` | src/fragment.rs:282-341 | a piece that is not refused joins what is held: the group keeps its date, becomes the packet that agrees with all its fragments, or is dropped because data lies behind an EOP fragment |
| `TraditionalReassembly.TraditionalFragmentReassembler.InsertInContext` | src/fragment.rs:156-216 | new table and answer are related to the old by `Step`: purge, size refusal, replacement, pairing, eviction of an oldest entry |
| `TraditionalReassembly.TraditionalFragmentReassembler.PurgeExpired` | src/fragment.rs:145-150 | exactly the entries older than 100 ms go |
| `TraditionalReassembly.TraditionalFragmentReassembler.FindOldest` | src/fragment.rs:199-205 | an entry with the least creation time |
| `TraditionalReassembly.RunsAreBounded` | src/fragment.rs:136-216 | at most 256 fragments are pending after every history |
| `TraditionalReassembly.RunsAreTraced` | src/fragment.rs:136-216 | what is pending under a key is the latest accepted arrival with that key, and it was answered by nothing |
| `TraditionalReassembly.EmissionJoinsTwoArrivals` | src/fragment.rs:170-197 | an emitted packet is the unmarked data followed by the marked data of two arrivals of one context and id, at most 100,000,000 ns apart, whichever came first |
| `TraditionalReassembly.EvictionIsOldest` | src/fragment.rs:199-206 | an entry of another key goes before its 100 ms only if 256 are pending, and none that stays is older |
| `TraditionalReassembly.ArrivalsServeOnce` | src/fragment.rs:168-197 | no arrival is used in two emitted packets |
| `TraditionalReassembly.EmitsExactlyWhenMatched` | src/fragment.rs:156-216 | while no eviction comes between, an arrival emits if and only if it matches the latest arrival of its key and that one was left pending |
| `RouteMasks.NetworkAddressIsMasked` | src/tun.rs:464-483 | the network address of the model is the address masked bit by bit with all ones shifted left, or with zero for prefix 0 |
| `RouteMasks.SplitSetsBit` | src/tun.rs:429-455 | the right child of a split has exactly the first bit below the prefix set |
| `RouteMasks.MaskIsFloor` | src/tun.rs:464-483 | masking with a word whose low bits are clear is rounding down to a multiple of a power of two |
| `Routes.ContainsIsWithin` | src/tun.rs:411-421 | a canonical route contains exactly an aligned interval of addresses |
| `Routes.NestedOrDisjoint` | src/tun.rs:423-427 | of two canonical routes one contains the other or they share no address (section 3.1 of RFC 4632) |
| `Routes.ChildrenHalve` | src/tun.rs:429-455 | the two children are canonical, disjoint and together the parent |
| `Routes.SubtractIsDifference` | src/tun.rs:714-731 | an address is in some piece if and only if it is in the route and not in the exclusion |
| `Routes.DescentCanSplit` | src/tun.rs:424-427 | where the recursion descends the route can be split, so the childless case is unreachable |
| `Routes.SubtractShape` | src/tun.rs:714-731 | cutting out a strictly contained exclusion leaves exactly one piece of each prefix length in between, pairwise disjoint |
| `Routes.FewestPieces` | src/tun.rs:714-731 | no list of canonical routes that covers the difference and avoids the exclusion is shorter |
| `RoutePolicy.ParseAllowDefault` | src/tun.rs:389-409 | accepts exactly a prefix up to 32 for IPv4 and up to 128 for IPv6, and yields a canonical route of that prefix and family |
| `RoutePolicy.MatchesIsWithin` | src/tun.rs:389-421 | the parsed route holds exactly the addresses that share the leading bits |
| `RoutePolicy.SubtractEachIsDifference` | src/tun.rs:637-642 | folding all exclusions leaves exactly the addresses in some route and in no exclusion |
| `RoutePolicy.DefaultSurvives` | src/tun.rs:637-642 | a default route of a family comes out if and only if one went in and no exclusion is of that family |
| `RoutePolicy.OtherFamilyDefaultEscapes` | src/tun.rs:637-642 | an IPv6 default route passes an IPv4 peer |
| `RoutePolicy.CollectTargets` | src/tun.rs:655-712 | fails exactly on unreadable input; otherwise covers exactly the included addresses |
| `RoutePolicy.ParseExclusions` | src/tun.rs:628-635 | covers exactly the excluded addresses and the peer |
| `RoutePolicy.CutOut` | src/tun.rs:637-642 | the nested loops compute the fold |
| `RoutePolicy.Unique` | src/tun.rs:643-648 | the same routes, each once |
| `RoutePolicy.HalvesMakeIpv4` | src/tun.rs:618-625 | 0.0.0.0/1 and 128.0.0.0/1 together are all of IPv4 and nothing else |
| `RoutePolicy.ResolveRoutePolicy` | src/tun.rs:610-653 | an address is routed if and only if it is included, not excluded and not the peer; routes are distinct and canonical; a default route comes out exactly when asked for in a family without exclusion or peer |
| `RouteTransactions.FaultsStayLocal` | src/tun.rs:1025-1039 | a key whose own undo steps succeed is restored, whatever undo steps of other keys fail |
| `RouteTransactions.CleanUndoRestores` | src/tun.rs:1025-1039 | if no undo step fails the table is the log undone |
| `RouteTransactions.Rollback` | src/tun.rs:1025-1039 | the loop undoes the log last change first, skipping failures |
| `RouteTransactions.ApplyOne` | src/tun.rs:1001-1015 | the table afterwards in full: an equivalent row is left as it is and nothing is logged, any other row is replaced, a missing one is added; a change is logged exactly when the table changed, undoing it restores the table; it fails if and only if the row cannot be built or an operation failed, and then changes nothing |
| `RouteTransactions.Apply` | src/tun.rs:995-1022 | on success no operation failed, every request not overridden by a later one holds and the log leads back; on failure the last operations are the undo steps and the cause lies before them, every key whose undo steps succeed is restored, the whole table if none fails, so in particular if a single failed operation was the cause; for any requests, repeated keys included |
| `RouteTransactions.ApplyThenRollback` | src/tun.rs:1061-1084 | after a failed transaction, or a successful one rolled back, every key whose undo steps succeed is as it was, and the whole table if no undo step fails; it was applied exactly when every row can be built and nothing failed before the undo |
| `RouteTransactions.RouteBackend.Get` | src/tun.rs:1114-1123 | the row under the desired key, if any |
| `RouteTransactions.RouteBackend.Create` | src/tun.rs:1133-1136 | adds a row under a free key |
| `RouteTransactions.RouteBackend.Replace` | src/tun.rs:1138-1142 | replaces the row of a present key |
| `RouteTransactions.RouteBackend.Delete` | src/tun.rs:1144-1152 | removes a key; a missing key is no failure |
| `Credentials.DecodeManifest` | src/bin/openiwan/credentials.rs:319-367 | only manifests that pass the check come out |
| `Credentials.SoundManifests` | src/bin/openiwan/credentials.rs:326-367 | which manifests pass, in numbers: version 1, hexadecimal generations of 32 digits, 1 to 4096 chunks that the length needs, at most 16 obsolete sets, no generation twice |
| `Credentials.LoadedSame` | src/bin/openiwan/credentials.rs:163-199 | what loads does not depend on chunks of generations other than the manifest's current one |
| `Credentials.LoadedMeans` | src/bin/openiwan/credentials.rs:163-199 | nothing loads exactly when there is no manifest entry, and a credential only if a sound manifest names chunks whose joined bytes have its length and digest and decode to it |
| `Credentials.GatheredPieces` | src/bin/openiwan/credentials.rs:171-181 | chunks that hold the pieces of some bytes join to those bytes |
| `Credentials.StoredCredentialLoads` | src/bin/openiwan/credentials.rs:163-199 | a manifest over the stored pieces of a credential loads exactly that credential |
| `CredentialNames.NamesAreInjective` | src/bin/openiwan/credentials.rs:411-413 | two entries share a name only if they are one entry or one account is a chunk name of the other |
| `CredentialNames.ChunkNameParts` | src/bin/openiwan/credentials.rs:411-413 | a chunk is named by account, ".chunk.", generation, a dot and its index in eight hexadecimal digits |
| `CredentialNames.AccountsStayApart` | src/bin/openiwan/credentials.rs:411-422 | entries of two accounts never meet if and only if neither account is a chunk name of the other |
| `ChunkStore.SecretStore.Read` | src/bin/openiwan/credentials.rs:112-127 | the entry if there is one, or a failure; nothing changes |
| `ChunkStore.SecretStore.Write` | src/bin/openiwan/credentials.rs:112-133 | the entry is set, or the operation failed without effect |
| `ChunkStore.SecretStore.Delete` | src/bin/openiwan/credentials.rs:112-143 | the entry is gone, also if there was none, or the operation failed without effect |
| `ChunkStore.CleanupChunkSets` | src/bin/openiwan/credentials.rs:369-390 | every set is deleted or remains listed; of distinct sets exactly those remain, in order, of which the deletion of some chunk failed; one operation per chunk; at any moment only chunks of these sets are missing and nothing else has changed |
| `ChunkStore.DeleteChunks` | src/bin/openiwan/credentials.rs:377-396 | all chunks of a generation are tried, also after a failure; it reports a failure exactly when the deletion of one of them failed |
| `ChunkStore.WriteChunks` | src/bin/openiwan/credentials.rs:248-257 | the faults decide: all pieces are stored if no write fails; else it fails at the first failing write, those before it are deleted, and a chunk is left behind if and only if one of these deletions fails |
| `ChunkStore.TakeBack` | src/bin/openiwan/credentials.rs:392-396 | the chunks of a new generation are deleted again, one left if and only if a deletion fails |
| `CredentialStore.Publish` | src/bin/openiwan/credentials.rs:259-267 | the manifest write is the commit point: before it every state loads the old credential, after it the new one; if it fails, chunks are left behind if and only if a deletion fails as well |
| `CredentialStore.Retire` | src/bin/openiwan/credentials.rs:269-275 | cleanup after the commit never changes what loads and keeps every chunk named; what is still stored is of the new generation or of one whose deletion was refused; the manifest lists exactly the refused ones, or still all if the rewrite failed or cannot be encoded |
| `CredentialStore.Rewrite` | src/bin/openiwan/credentials.rs:269-275 | the manifest is written again with the shorter list if it fits and the store takes it, and else stays; what loads is the same |
| `CredentialStore.Install` | src/bin/openiwan/credentials.rs:248-267 | chunks and manifest are in place and the new credential loads, or the manifest is not and the old one does; the faults alone decide which, and whether chunks are left behind |
| `CredentialStore.Commit` | src/bin/openiwan/credentials.rs:230-277 | from a fresh generation to its published manifest, with every intermediate state old or new; after success what is stored is of the new generation or of one whose deletion was refused, and which obsolete list the manifest carries is known |
| `CredentialStore.NewManifestValid` | src/bin/openiwan/credentials.rs:326-367 | the manifest a save writes passes the manifest check |
| `CredentialStore.SublistValid` | src/bin/openiwan/credentials.rs:326-367 | so does the one with a shortened obsolete list |
| `CredentialStore.ReadManifest` | src/bin/openiwan/credentials.rs:296-305 | fails only with the store; an unreadable manifest counts as none |
| `CredentialStore.Begin` | src/bin/openiwan/credentials.rs:202-214 | the next obsolete list names every chunk left, fits the manifest beside any fresh generation, what loads is unchanged, and the number of operations is known from the manifest |
| `CredentialStore.Sweep` | src/bin/openiwan/credentials.rs:203-206 | the same from the manifest on; the list is what was refused, in order, and the old current set; it fails if and only if sixteen are left |
| `CredentialStore.Save` | src/bin/openiwan/credentials.rs:201-277 | after every operation what loads is exactly the old answer or exactly the new credential; Err means the old and Ok the new; after Ok from a tidy store every stored chunk is of the new generation or of one whose deletion was refused, and the last manifest lists exactly what was refused, or all if it could not be rewritten; every manifest written passes the check; chunks stay named after Ok, and after Err if and only if no deletion of a chunk of the new generation failed, which the faults decide; each error is traced to its cause, "too many stale" to sixteen obsolete generations all refused |
| `CredentialStore.OrphansAreUntidy` | src/bin/openiwan/credentials.rs:369-396 | a stored chunk whose generation no manifest names is one that no cleanup can find |
| `CredentialStore.Load` | src/bin/openiwan/credentials.rs:163-199 | with no failing read the answer is `Loaded`, with one it is an error |
| `CredentialStore.Delete` | src/bin/openiwan/credentials.rs:279-294 | Ok leaves no entry of the account, Ok(false) means there was none; an error means a fault or a manifest entry that cannot be read; after every operation what loads is the old answer, an error or nothing, never another credential, and chunks stay named |
| `CredentialStore.Erase` | src/bin/openiwan/credentials.rs:284-293 | the chunks go before the manifest, so a failure at any point leaves all that remains named |
| `CredentialStore.PartFades` | src/bin/openiwan/credentials.rs:163-199 | with some chunks gone a credential loads as before or as an error |
| `CredentialRuns.RunCalls` | src/bin/openiwan/credentials.rs:201-294 | over any run of saves and deletions with any faults the store is one cell that only successful calls change, until a deletion fails half way; at the end every chunk is named by a readable manifest if and only if no failed save had the deletion of one of its chunks fail; a successful deletion then leaves nothing |
| `CredentialRuns.LeakingSave` | src/bin/openiwan/credentials.rs:259-267 | for every storable credential two failing operations make its first save fail and leave chunks that no manifest names |
| `IpTrim.TrimIgnoresPadding` | src/fragment.rs:380-415 | a trimmed packet keeps its version, and trimming it again with any padding behind it gives it back, for IPv4 and IPv6 |
| `IpTrim.TrimIsDeclaredPrefix` | src/fragment.rs:380-415 | from the bytes: trimming gives q if and only if q is the prefix of length 256*p[2]+p[3] for version 4, no shorter than its header of at least 20 bytes, or 40+256*p[4]+p[5] for version 6, and the packet has that many |
| `IpTrim.WholeStaysWhole` | src/fragment.rs:380-415 | a packet is not cut if and only if it is as long as it declares |
| `Ciphers.CryptInPlace` | src/sr.rs:259-284 | the loop over the buffer transforms each block in place |
| `Ciphers.BlocksInvert` | src/sr.rs:259-284 | decrypting block by block undoes encrypting block by block |
| `Ciphers.BlockAt` | src/sr.rs:259-284 | each block of the result is the block function of the block at the same place |
| `Ciphers.XorApplyTwice` | src/crypto.rs:114-120 | the XOR cipher is its own inverse |
| `Ciphers.XorApplyBits` | src/crypto.rs:114-120 | each bit of the output differs from the input exactly where the key, cycled every eight bytes, has a one |
| `Ciphers.DecryptOfEncrypt` | src/crypto.rs:90-207 | each session cipher gives the plaintext back, followed by padding for AES only |
| `Ciphers.AesEncryptsBlocks` | src/crypto.rs:180-194 | block by block the encryption of the plaintext filled up with zeros |
| `Ciphers.DecryptRefuses` | src/crypto.rs:90-207 | only AES refuses, exactly what is not whole blocks |
| `Ciphers.OuterDecryptOfEncrypt` | src/sr.rs:220-257 | the outer layer is undone exactly, padding included |
| `Ciphers.OuterEncryptsBlocks` | src/sr.rs:220-232 | the payload itself without an algorithm; else block by block the encryption of it filled up with zeros, and their number |
| `Ciphers.OuterRefuses` | src/sr.rs:234-257 | opens exactly without padding and algorithm, or whole blocks with less padding than bytes |
| `SrHeaders.ParseOfEncode` | src/sr.rs:74-147 | parsing an encoded segment-routing header gives it and its length back |
| `SrHeaders.EncodeOfParse` | src/sr.rs:74-147 | a parsed header is valid and encodes to the bytes it was read from |
| `SrHeaders.WireHeader` | src/sr.rs:126-147 | the bytes: type 0x28, next index, link count, padding above the algorithm in three bits, big-endian links |
| `SrHeaders.TurnAroundOutbound` | src/sr.rs:53-72 | an outbound header turned around at the far end is the return header of the forward path |
| `SrHeaders.OutboundCarriesReversed` | src/sr.rs:53-72 | an outbound header exists exactly for at most six links of 24 bits, none zero, and padding up to 31; it carries the path backwards and points at the last link |
| `SrHeaders.DecodeOfEncodeInner` | src/protocol.rs:190-228 | the inner standard header round trips |
| `SrHeaders.WireInner` | src/protocol.rs:190-197 | the bytes of the inner header: type, method, big-endian session id and token |
| `SrMonitorBody.DecodeOfEncode` | src/sr.rs:538-584 | the 40-byte mixed-endian body round trips |
| `SrMonitorBody.WireBody` | src/sr.rs:538-552 | the bytes: little-endian tick and delays, the magic, a big-endian id, version, marker, little-endian flags and counters |
| `SrMonitorBody.EncodeOfDecode` | src/sr.rs:554-584 | reads exactly what has forty bytes with the magic in place, and what is read encodes to them |
| `SrDataPath.OpenTurnedAround` | src/sr.rs:402-422 | a sent datagram, turned around, passes the path and session checks and opens to what was put in |
| `SrDataPath.WholePacketRoundTrip` | src/sr.rs:305-521 | what is sent as one datagram decodes to exactly the trimmed packet, for both IP versions and every accepted cipher pairing |
| `SrDataPath.PairIsCut` | src/fragment.rs:351-377 | the two fragments are a cut of the packet |
| `SrDataPath.FragmentedRoundTrip` | src/sr.rs:305-521 | what is sent as two datagrams decodes to two fragments that, inserted in either order, answer nothing and then exactly the trimmed packet |
| `SrDataPath.OneOrTwoDatagrams` | src/sr.rs:305-389 | there is no third case |
| `SrWire.SendsExactly` | src/sr.rs:305-389 | a packet is sent if and only if its IP header is sound, the path has one to six valid links, and it fits: encrypted and padded into one datagram, or unencrypted into two fragments |
| `SrWire.WholeDatagram` | src/sr.rs:348-389 | the bytes of a single datagram: path backwards, session, type 0x14, 0x18 or 0x23, method, and as payload the trimmed packet through the session cipher and then the outer one |
| `SrWire.FragmentDatagrams` | src/sr.rs:323-347 | the bytes of two: unencrypted fragments of type 0x22 or 0x24, the first with the bytes up to the limit, the second, marked EOP, with the rest |
| `SrWire.MonitorSends` | src/sr.rs:587-606 | a monitor message is sent if and only if its type is one of the two and the path is valid, unencrypted, as type 0x15 or 0x16 with the body as payload |
| `SrWire.AcceptsOnly` | src/sr.rs:402-521 | what is accepted carries this path with index 0, this session and token, a type that fits what it decodes to, and encryption only as configured |
| `SrWire.FragmentAnswers` | src/sr.rs:498-521 | what a fragment answers is the reassembled packet trimmed, of the version its type says |
| `SrWire.DeclaredPacketReturns` | src/sr.rs:305-521 | a packet as long as it declares, sent as one datagram, comes back whole |
| `SrWire.DeclaredPairReturns` | src/sr.rs:305-521 | sent as two, it comes back whole in either order |
| `SrDataPath.MonitorRoundTrip` | src/sr.rs:587-606 | monitor requests and responses survive the path |
| `SrMonitor.SrMonitor.constructor` | src/sr.rs:627-636 | an idle monitor with zero counters |
| `SrMonitor.SrMonitor.Request` | src/sr.rs:642-663 | a first request, or one after the peer was down, starts anew with the flag and count one; any other counts on, wrapping at 2^32; state and body in full |
| `SrMonitor.SrMonitor.AcceptResponse` | src/sr.rs:665-686 | refuses exactly a foreign id or a response without the counter flag, and then changes nothing; else the peer is up, with its count and the delay recorded |
| `SrMonitor.RecordedDelays` | src/sr.rs:707-727 | the delays recorded are the last sample, the greatest of all, and the least since the last zero, which also means "none yet" |
| `SrMonitor.SrMonitor.UpdatePeerState` | src/sr.rs:688-697 | the peer is down exactly when the last response is more than five seconds old |
| `SrMonitor.SrMonitorResponder.Respond` | src/sr.rs:733-756 | a flagged request restarts the count at one, another counts on if it is active, and else nothing is answered; the reply in full |
| `SrMonitor.StepKeeps` | src/sr.rs:642-756 | every send, loss, duplication and delivery keeps the joint invariant of client, responder and network |
| `SrMonitor.ReplyCountsCopies` | src/sr.rs:733-756 | a reply comes if and only if a flagged request was heard, and counts, modulo 2^32, the request copies heard from the latest flagged one on |
| `SrMonitor.RunsAreSafe` | src/client.rs:926-963 | from an inactive responder, over a network that loses, reorders and duplicates, the received count exceeds the sent one at most by the added request copies, and the client is established only if the responder received the first request |
| `SrMonitor.SafeExactlyFromInactive` | src/sr.rs:733-756 | for a new monitor and an empty network every run is safe if and only if the responder begins inactive |
| `SrMonitor.ActiveResponderMisleads` | src/sr.rs:733-756 | a responder active from an earlier run establishes the client although the first request was lost, with its own old count plus one |
| `SrMonitor.OvertakesExactlyWhenOverrun` | src/sr.rs:642-756 | in every run the received count can overtake the sent one if and only if at some point more request copies had been heard, as the responder counts them, than requests sent |
| `SrMonitor.NoCopiesNoOverrun` | src/sr.rs:642-756 | without added request copies it cannot, whatever is lost, reordered, or duplicated among the responses |
| `SrMonitor.OnlyFirstRequestFlagged` | src/sr.rs:642-663 | a request carries the restart flag if and only if it is the first of its run, whatever the responder's past |
| `SrMonitor.DuplicationOvertakes` | src/sr.rs:733-756 | one duplicated request makes a run end with three received and two sent |
| `RelayPermits.StepKeeps` | src/dns/runtime.rs:207-282 | every atomic step of every worker keeps: counters equal holders, slots within the limit, no permit refused |
| `RelayPermits.RoomForPermit` | src/dns/relay.rs:157-179 | a worker with a slot and no permit always finds the permit count below the limit |
| `RelayPermits.SlotTakenExactly` | src/dns/runtime.rs:266-282 | an attempt is refused exactly if the count read is at the limit, succeeds exactly if the count is still that and the exchange does not fail, and is otherwise repeated with the present count |
| `RelayPermits.PermitTakenExactly` | src/dns/relay.rs:157-179 | the same for permits |
| `RelayPermits.FreeSlotIsTaken` | src/dns/runtime.rs:266-282 | a task alone gets a slot whenever one is free |
| `RelayPermits.EveryRunIsSafe` | src/dns/relay.rs:157-186 | in every interleaving both counters are exact and bounded, permits lie inside slots, and no worker is refused a permit |
| `RelayPermits.DrainedCountersAreZero` | src/dns/runtime.rs:322-328 | when all tasks have ended both counters are zero again |
| `SrGroups.NormalizedIsUsable` | src/managed/workflow.rs:997-1034 | normalised settings are usable by the tunnel, normalising twice changes nothing, and validity is unaffected |
| `SrGroups.NormalizedIsTidied` | src/managed/workflow.rs:997-1020 | field by field, if and only if: mtu kept in 576..1500 and else 1392; algorithm and key kept when the algorithm is known and the key has at least 16 or 32 UTF-16 units, else "null" and empty; keepalive changes only from Some(true) with fewer than six links; nothing else changes |
| `SrGroups.DroppedExactly` | src/managed/workflow.rs:956-992 | a group is dropped exactly when none of its first five entries is usable |
| `SrGroups.NextLocalSrId` | src/managed/workflow.rs:1036-1045 | the wrapping loop ends while an id is free and returns the first free one after the counter |
| `SrGroups.FindFree` | src/managed/workflow.rs:1036-1045 | an id is free as long as not all non-zero ones are taken or reserved |
| `SrGroups.RoomIsNeeded` | src/managed/workflow.rs:1036-1045 | distinct non-zero ids beside the reserved ones are no more than 2^32 - 1 in all, so the room that sanitising requires is the least that lets the loop end |
| `SrGroups.ReservedIds` | src/managed/workflow.rs:940-952 | exactly the positive ids that occur once in all groups |
| `SrGroups.ChooseId` | src/managed/workflow.rs:970-975 | the entry's own id when it is unique in its group and not taken, else a fresh one; a reserved id goes to its own entry |
| `SrGroups.LabelEntries` | src/managed/workflow.rs:964-977 | all entries get distinct non-zero ids not taken before, and the settings that `NormalizedIsTidied` describes |
| `SrGroups.SanitizeGroup` | src/managed/workflow.rs:956-992 | the group without its local ids is `ExpectedGroup`: valid ones of the first five, in order, with the primary index following its entry |
| `SrGroups.SanitizeGroups` | src/managed/workflow.rs:937-995 | across all groups local ids are set, non-zero and pairwise distinct, an entry with a globally unique positive id keeps it; each returned group is made of the valid ones of the first five entries of the group it comes from, in order, with the settings of each tidied field by field, and the former primary, if it survives, is the entry tried first |
| `SrGroups.OrderedIsPermutation` | src/managed/workflow.rs:703-713 | the trial order is a permutation that starts with the primary |
| `SrGroups.FormerPrimaryComesFirst` | src/managed/workflow.rs:978-991 | a former primary that survives is the one tried first |
| `UdpResponse.FoldIsRemainder` | src/dns/packet.rs:278-281 | folding ends below 2^16, keeps the sum modulo 65535, and gives zero only for zero |
| `UdpResponse.FinishVerifies` | src/dns/packet.rs:278-284 | sum plus checksum folds to 0xffff, also where 0 is replaced by 0xffff |
| `UdpResponse.AddBytes` | src/dns/packet.rs:268-276 | adds exactly the big-endian words, an odd byte as a high half, without leaving 32 bits |
| `UdpResponse.FinishChecksum` | src/dns/packet.rs:278-284 | the fold loop ends with the checksum |
| `UdpResponse.ChecksumsVerify` | src/dns/packet.rs:217-260 | the header and the pseudo-header sum of every built packet verify |
| `UdpResponse.ParseBuiltIpv4` | src/dns/packet.rs:160-182 | the IPv4 parser reads back addresses, identification and segment |
| `UdpResponse.Ipv4Reads` | src/dns/packet.rs:160-182 | which packets the IPv4 parser reads and every field of the result, from the bytes |
| `UdpResponse.ParseBuiltUdp` | src/dns/packet.rs:191-205 | the UDP parser reads back ports and payload |
| `UdpResponse.UdpReads` | src/dns/packet.rs:191-205 | the same for UDP |
| `UdpResponse.SegmentChecksum` | src/dns/packet.rs:252-260 | the pseudo-header and segment sum is finished without overflowing 32 bits for any segment that fits |
| `UdpResponse.PseudoSumIsOfBytes` | src/dns/packet.rs:252-260 | the sum is that of the twelve pseudo-header bytes (RFC 768) followed by the segment |
| `UdpResponse.BuildUdpResponse` | src/dns/packet.rs:217-250 | fails exactly when the lengths do not fit 16 bits; otherwise the header bytes are fixed, the header and the pseudo-header bytes with the segment each sum to 0xffff, the UDP checksum is never zero, and the packet parses back to its inputs |
| `DnsLookup.Pass` | src/dns/transport.rs:204-212 | one pass in record order accepts every target of a name accepted before it, and only names reached through CNAME records that live at least the lifetime kept |
| `DnsLookup.AcceptNames` | src/dns/transport.rs:199-217 | only names reached through CNAME records that live at least the lifetime, and all within eight hops; the canonical name is the last one taken in |
| `DnsLookup.FirstOnlyInOrder` | src/dns/transport.rs:236-237 | addresses keep the order of their first occurrence |
| `DnsLookup.FirstOnlyKeeps` | src/dns/transport.rs:236-237 | the same addresses, none twice |
| `DnsLookup.CollectAddresses` | src/dns/transport.rs:219-237 | the addresses of accepted names in records of the wanted type, each once, and a lifetime no longer than any of their records' |
| `DnsLookup.ParseAnswers` | src/dns/transport.rs:199-243 | a right reading of the answers, with the canonical name the passes give: for A only and all (within eight hops) addresses of `HostA` records, for AAAA of `HostAaaa` records, of reachable names; the canonical name is another reachable name, and there is none only if the query reaches only itself |
| `DnsLookup.ReadingIsRight` | src/dns/transport.rs:199-243 | a right reading has only addresses owned by names reached through CNAME records that live at least as long as the reading, all addresses within eight hops, no duplicates, and lives no longer than any address record of a name within eight hops |
| `DnsLookup.ReadingIsTyped` | src/dns/transport.rs:219-237 | an A reading has an address only from a `HostA` record of a reachable name and every such address within eight hops, an AAAA reading the same with `HostAaaa`; an empty one means there is no such record |
| `DnsLookup.CanonicalIsChainEnd` | src/dns/transport.rs:199-217 | for a chain of at most eight CNAME records, in any order, the canonical name is its end |
| `DnsLookup.Server.Exchange` | src/dns/transport.rs:52-55 | one query is sent for the name and answered or not |
| `DnsLookup.Ask` | src/dns/transport.rs:51-64 | one query, which ends in a right reading that has addresses, in an explained failure, or in a name the answer leads to |
| `DnsLookup.Lookup` | src/dns/transport.rs:41-71 | the server is asked at most eight times, for no name twice, each the canonical name of the previous answer, which had no address; a success is a right reading of the last answer; a failure means that the exchange failed, that the last answer has neither address nor another name, that its canonical name was asked for before, or that it leads on after eight queries |
| `DnsLookup.Follow` | src/dns/transport.rs:41-71 | the loop: exactly the names of the trail are asked for, in order |
| `DomainRules.DomainRuleMatchesLabels` | src/dns/policy.rs:155-167 | a domain rule matches if and only if its labels are a suffix of the name's labels |
| `DomainRules.OtherRulesMatch` | src/dns/policy.rs:155-167 | a suffix rule matches every name that ends in its text, an exact rule only that name |
| `DomainRules.KindsNest` | src/dns/policy.rs:155-167 | on the same text every exact match is a domain match and every domain match a suffix match |
| `DomainRules.NormalizeMeans` | src/dns/policy.rs:514-516 | normalising strips white space around the name and dots at its end, no more and no less, and lowers A to Z |
| `DomainRules.ParsesExactly` | src/dns/policy.rs:126-145 | a rule parses if and only if what follows its optional mark is well dotted and at most 253 long; the mark gives the kind |
| `DomainRules.LabelsWellDotted` | src/dns/policy.rs:518-534 | all labels are valid if and only if the characters are: letters, digits, dashes, underscores and dots, no dot at an end or beside another, and none of 64 in a row without a dot |
| `DomainRules.PrintedRuleParses` | src/dns/policy.rs:126-180 | every rule that parses is printed in a form that parses to the same rule |
| `Tlv.ParseAll` | src/protocol.rs:328-359 | the loop computes `ParseFrom`, errors and their offsets included |
| `Tlv.Registry` | src/protocol.rs:249-300 | the type codes are 1 to 10, 15 and 16 |
| `Tlv.RefusedOne` | src/protocol.rs:328-359 | an attribute is refused exactly for an unknown type, a length below two, or bytes that are missing, with that error and offset |
| `Tlv.ParseOfEncodeAll` | src/protocol.rs:315-359 | concatenated encodings parse to the same list, except that one final empty attribute is dropped |
| `Tlv.EncodeOfParsed` | src/protocol.rs:328-359 | what parses encodes to the bytes read, leaving at most two |
| `Tlv.StrictRoundTrip` | src/protocol.rs:362-372 | whatever the strict parser accepts encodes to exactly those bytes |
| `Tlv.StrictAccepts` | src/protocol.rs:362-372 | the strict parser gives a list back if and only if its last value is not empty, and otherwise refuses |

## Left out

- SrReassembly.SrFragmentReassembler.Insert: requires a fragment with data, which `Fragment::parse` guarantees (src/fragment.rs:53-55); zero-length fragments built by hand are not modelled.
- The sort of a group's parts (src/fragment.rs:302) is modelled as placing the new part in order; `OrderIsUnique` shows that there is only one order.
- In `TraditionalReassembly` any entry among equally old ones may be evicted; the source takes whichever its hash map yields first.
- Text forms of addresses and CIDRs, domain resolution and the printed form of routes: `RoutePolicy` starts from what they yield, including failures.
- `resolve_route_targets` and `push_route` (src/tun.rs:541-608, 733-745), which only add easy members, and the Linux and macOS route commands.
- In `RouteTransactions` requests, keys and row attributes are numbers, because the transaction only compares them; how Windows rows are filled is not modelled.
- The operating system's keyring and the JSON and SHA-256 libraries; the entries of one account are keyed by slot, which `NamesAreInjective` justifies.
- CredentialStore.Save: requires a generation that is not in use; the source draws 128 random bits and does not check (src/bin/openiwan/credentials.rs:398-409). A write or deletion that fails is taken to have no effect.
- A save over a manifest that cannot be read leaves the old chunks unnamed (src/bin/openiwan/credentials.rs:296-305); `Tidy`, the starting condition of the naming results, therefore includes a readable manifest.
- Key derivation, AES, MD5, HMAC, `SrOuterCipher::new` and the zeroing of secrets.
- SrMonitor.RunsAreSafe: covers one run of fewer than 2^32 requests that begins with an inactive responder, as `SafeExactlyFromInactive` shows it must, and with nothing of an earlier run under way: messages of an earlier session are refused by the session check (src/sr.rs:417-421).
- How a session ends, the client's receive and heartbeat loops, and reconnects.
- In `RelayPermits` the list of worker threads and its reaping, and what is relayed; a reply written just after a generation change is possible in the source and is not excluded.
- SrGroups.SanitizeGroups: requires as many free ids as entries need them; by `RoomIsNeeded` the source's loop could not end otherwise. Other threads that draw from the shared counter at the same time are not modelled.
- Whether an entry's address text is an IPv4 address is an input of `SrGroups`.
- DNS wire parsing and the checks of response code and question; in `DnsLookup` names and addresses are numbers, because they are only compared, and the server answers each name in one way, which loses nothing because a lookup asks for no name twice.
- The packet engine's decision which queries to answer, relay or drop, and the resolution of DNS policy settings.
- TLV integer accessors, control-packet signatures, and the traditional (not segment-routed) data packets.
- Sockets, TUN devices, the command line, HTTP, OIDC and the controller client.

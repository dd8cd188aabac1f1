# Verified model of the EndlessNet client API

This project models, in Dafny, the client side of map-stream v3 (the protocol that keeps a node's cached
network map in step with a producer that signs it), the validators that decide what such a map may say, and
three smaller pieces of the same library: coordinator failover, the bounded line reader and node
credentials. It also models the release-promotion rules of the system-test module.

`dafny verify dfyconfig.toml` checks the whole project.

## How the model is laid out

| file | what it models |
|---|---|
| `Text.dfy`, `Ordering.dfy` | trimming and ordering of strings; lists up to order and what a sort promises |
| `NetworkMap.dfy` | the records of a map, an event and a trust bundle; the library calls as parameters with stated laws |
| `Merge.dfy` | the position-index merge of a delta into a list |
| `Cidr.dfy`, `Acl.dfy`, `Applications.dfy`, `Sharing.dfy`, `MapValidation.dfy` | address arithmetic and the map validators |
| `SigningTrust.dfy`, `MapSign.dfy` | trust bundles, the canonical payload, signing and verification |
| `MapStream.dfy`, `MapSafety.dfy`, `Convergence.dfy` | one event, whole runs, and following a producer over an unreliable network |
| `SnapshotClone.dfy`, `MapMemory.dfy` | maps and events as they lie in memory: copying, applying an event, the client |
| `Failover.dfy`, `LineReader.dfy`, `NodeCredential.dfy` | the smaller pieces |
| `GateKey.dfy`, `Promotion.dfy` | release promotion |
| `Consistency.dfy` | a concrete environment, producer, map, signer, credential and release that meet the assumed laws |

Loops of the source are methods with loops, each proved against a predicate or function that does not mention
the loop; objects whose fields change are classes. Library calls (`net/netip` text, Ed25519, SHA-256, base64,
JSON, sorts, regular expressions, the field checks of `clientapi/wireguard/validate.go`) are function
parameters. What is assumed of them is written down as a predicate: `LawfulNet`, `LawfulSorters`,
`LawfulCrypto`, `LawfulRelays`, `Unforgeable`, `SignsFor`, `LawfulRules`, `LawfulUsable` and
`NodeCredential.Lawful`. A sort is any function that returns an ordered permutation, since `sort.Slice` is not
stable. `Consistency.dfy` and `Failover.UsableExample` show that the laws can be met. Instants are whole
nanoseconds since the zero time, strings are sequences of Unicode scalar values, and counters are unbounded.

## Where the code does not do what one might expect

Each of these is proved, with the exact condition under which the expected behaviour holds.

- A trust bundle is validated with trimmed key IDs and searched with the stored ones, so a bundle can be accepted
  although its active key never resolves (`ActiveKeyResolvesIff`, `AcceptedButNeverResolves`).
- A map signature's expiry is counted from the issue time truncated to a second, so a lifetime not longer
  than the truncated fraction has already ended when the map is signed (`FreshSignatureVerifiesIff`, `DeadWhenSigned`).
- URL normalisation trims space and then slashes and is not idempotent on texts such as `"a /"`
  (`NormIdempotentIff`, `NormNotIdempotent`), so a coordinator list can change once a coordinator has answered
  (`ListStaysIff`, `ListChanges`).
- Deltas match peers and relays by trimmed IDs but records keep theirs: a record whose ID has space around it can
  be neither removed nor replaced (`RemovalTakesEffectIff`, `RemovedButPresent`, `UntrimmedPeerOutlivesRuns`).
- Compatibility evidence is matched by a NUL-joined key. If a declared contract name contains NUL, a released record
  is accepted although one of its entries names no declared gate (`FieldCoverageIff`, `NulGoesUnnoticed`).
- The two extra tests of `applicationPrefixAllowed`, for length zero and for mapped addresses, follow from its list
  of blocks (`PrefixAllowedIff`).

## Model

| member | source | states |
|---|---|---|
| Convergence.RunTracksHistory | clientapi/v1/mapstream.go:20-61 | convergence safety: over any delivery of a producer's deltas and full maps with loss, repetition, reordering, any clock readings and any heartbeats or checkpoints, the cache is at every moment one of the producer's maps up to list order; a delta keeps its index or raises it by one, a full map keeps it or takes it to that map |
| Convergence.ClientCatchesUp | clientapi/v1/mapstream.go:20-61 | convergence: if the missing deltas occur in order somewhere in the deliveries, or one full map does and the deltas after it, each while its key is trusted and its windows are open, and no older full map follows, the client ends at the producer's map or a later one, whatever else is delivered |
| Convergence.NextDeltaIsAccepted | clientapi/v1/mapstream.go:44-57 | progress: a cache equal to the producer's base up to list order accepts the next signed delta exactly while the key it is signed under is trusted and the windows of signature and leases are open, and gets the producer's result up to list order |
| Convergence.FullMapIsAccepted | clientapi/v1/mapstream.go:39-43 | recovery: a full map takes a client at any other of the producer's maps to it exactly under the same conditions, and leaves a client that has it where it is |
| Convergence.BeatOutcome | clientapi/v1/mapstream.go:31-38 | a heartbeat or checkpoint is taken exactly by the clients at the map it announces and tells every other client to resync; without a hash it announces a revision only |
| Convergence.DeltaOutcomeAt | clientapi/v1/mapstream.go:44-57 | the delta from map j is accepted at map j while it can be verified and rejected otherwise, is already applied at map j+1, and tells a client at any other map to resync |
| Convergence.FullMapOutcome | clientapi/v1/mapstream.go:39-43 | a full map is already applied for a client that has it, and otherwise accepted while it can be verified and rejected else |
| Convergence.AnyChangeConnects | clientapi/v1/mapstream.go:80-107 | a producer can publish any change of a map that does not drop the relay credential or touch the registration binding: the signed delta of the difference leads from one map to the other |
| MapStream.DifferenceReaches | clientapi/v1/mapstream.go:80-107 | the delta of the difference of two maps, with the fields that differ, the records that are new or different and the IDs that are gone, takes one to the other up to order, under the revision and signature of the first |
| MapStream.AbsentFieldsStay | clientapi/v1/mapstream.go:81-95 | what a delta leaves out stays as it is |
| MapStream.EventAcceptedIff | clientapi/v1/api.go:342-382 | an event is well-formed exactly if it carries what its kind needs and nothing else |
| Convergence.RunNeverFallsBack | clientapi/v1/mapstream.go:20-61 | while no full map older than n is delivered, a client at map n or later stays there |
| Convergence.StepTracks | clientapi/v1/mapstream.go:20-61 | one delivery keeps the client at map k, or moves it to map k+1 by a delta, or to the map a full map carries |
| Convergence.DeltaRespectsOrder | clientapi/v1/mapstream.go:80-107 | a delta takes two orderings of one map to two orderings of one result, or is refused by both |
| Convergence.ResultIgnoresOrder | clientapi/v1/mapstream.go:63-78 | validation, key resolution and signature verification together do not depend on the order of peers, STUN endpoints and relays |
| Consistency.AssumptionsAreMet | clientapi/v1/mapstream.go:20-61 | the assumptions of the convergence and authenticity results hold together: a concrete lawful environment, trust bundle and producer whose signed delta takes a client from the first map to the second, while a key outside the bundle has signed what the producer never published |
| MapStream.EveryRunIsAuthentic | clientapi/v1/mapstream.go:17-78 | after any events in any order at any times the cache is the initial one or a validated map that the only bundle key with its key ID signed, stored with the hash of its own canonical payload |
| MapStream.CacheIsAProducerMap | clientapi/v1/mapstream.go:17-78 | if the keys of the trust bundle signed only the producer's maps, then under arbitrary events, forged with any other key or replayed, the cache agrees with one of those maps on every signed field |
| MapStream.ReplayIsIdle | clientapi/v1/mapstream.go:24-38 | an accepted event received again, at any time, is reported as already applied (or, for a heartbeat or checkpoint, accepted) and changes nothing |
| MapStream.ReplaysAreIdle | clientapi/v1/mapstream.go:24-38 | replaying the accepted event any number of times leaves the cache unchanged |
| MapStream.BeatsKeepCache | clientapi/v1/mapstream.go:31-38 | heartbeats and checkpoints never change the cache, hence never its verification window |
| MapStream.ChangedCacheIsVerified | clientapi/v1/mapstream.go:39-57 | a cache changes only to a verified result that carries the event's revision and signature |
| MapMemory.ApplyMapStreamEvent | clientapi/v1/mapstream.go:20-61 | in memory the outcome of an event is what the values of map and event determine, case by case; a returned map reaches only newly allocated memory, nothing of the event or the current map |
| MapMemory.ApplyMapDelta | clientapi/v1/mapstream.go:80-107 | copying, taking over the event's network, node and upserts by reference, merging and copying again yields the delta applied to the map as a value, or its first merge error, in newly allocated memory only |
| MapMemory.MergePeers | clientapi/v1/mapstream.go:109-141 | merging references to peers has the value of merging the peers |
| MapStream.VerifyResult | clientapi/v1/mapstream.go:63-78 | a result passes exactly if it is a valid map, its key ID resolves at that instant, and its signature verifies under that key |
| MapMemory.MapClient.Receive | clientapi/v1/mapstream.go:17-19 | the cache is replaced only when the event is accepted, and then by a map in memory of its own |
| MapMemory.ReceiveAll | clientapi/v1/mapstream.go:17-19 | a consumer's loop over events in memory ends with the value of the run over these events, in its initial map or in newly allocated memory |
| MapMemory.ReceiveThenOverwrite | clientapi/v1/mapstream.go:80-107 | separation: after an accepted event, overwriting any list that existed before, of the event, of the old cache or elsewhere, leaves the new cache as it is |
| MapMemory.ReceiveThenReplace | clientapi/v1/mapstream.go:192-280 | the same for any cell: a time, a signature, a credential, a configuration |
| MapStream.UntrimmedPeerOutlivesRuns | clientapi/v1/mapstream.go:109-141 | a cached peer whose ID has space around it is neither removed nor changed by any run of events without a full map |
| MapSafety.EveryRunIsSafe | clientapi/v1/networkmap_validate.go:12-146 | over any run, every cache but the initial one is about this node in its network, hosts services and applications on known keys only, confines grants to routes and applications to allowed addresses, ties every sharing grant to this node, routes every shared address to one peer with a key of its own outside the local ranges, and has a grant for every foreign peer |
| MapSafety.AcceptedIsSafe | clientapi/v1/networkmap_validate.go:20-146 | every accepted map has these guarantees |
| MapSafety.NothingElseIsAsked | clientapi/v1/networkmap_validate.go:20-146 | and a map with them whose access-control and sharing grants are accepted is accepted |
| Consistency.RichMapIsAccepted | clientapi/v1/networkmap_validate.go:20-146 | a concrete map with a sharing grant, access-control grants, an application, a service and a relay credential is accepted |
| Merge.MergeRecords | clientapi/v1/mapstream.go:109-141 | the index-accelerated loop yields the kept records, replaced in place where an upsert carries their ID, followed by the remaining upserts, or the first ID error; the same code serves relays |
| Merge.MergeIsMapUpdate | clientapi/v1/mapstream.go:109-141 | for distinct current IDs the merge is "current minus removed, overridden by upserts" as a map, an upsert replacing the record whose ID is its trimmed ID; survivors keep their places, new records follow in upsert order, an ID removed and upserted is present, and IDs stay distinct exactly if no upsert carries the ID of a kept record with space around it |
| Merge.UntrimmedStays | clientapi/v1/mapstream.go:109-141 | no delta removes or replaces a record whose own ID is not trimmed |
| Merge.RemovalTakesEffectIff | clientapi/v1/mapstream.go:109-121 | a requested removal takes effect exactly if the ID of the record is trimmed |
| Consistency.RemovedButPresent | clientapi/v1/mapstream.go:116-121 | a concrete peer that stays although its ID is removed |
| Merge.MergeMapped | clientapi/v1/mapstream.go:109-141 | the merge commutes with any conversion of the records that keeps their IDs |
| Merge.ChangeIsMerge | clientapi/v1/mapstream.go:109-141 | every change between two lists with clean IDs is the merge of the changed records and the removed IDs |
| Merge.MergeAcceptedIff | clientapi/v1/mapstream.go:109-141 | a merge is refused exactly if a trimmed ID is blank or repeated among the removals or among the upserts |
| Merge.MergeRespectsOrder | clientapi/v1/mapstream.go:143-175 | merging into two orderings of one list fails alike or yields two orderings of one list |
| Merge.PutContents | clientapi/v1/mapstream.go:123-140 | as a multiset the result is the upserts and the kept records no upsert carries |
| Merge.NormalizedIdSet | clientapi/v1/mapstream.go:177-190 | the set of trimmed IDs, or the first complaint read from the left |
| Merge.IdListAccepted | clientapi/v1/mapstream.go:177-190 | a list is accepted exactly if no trimmed ID is empty and no two agree |
| MapSign.CanonicalIff | clientapi/v1/mapsign.go:189-228 | if sort keys tell peers and relays apart, payloads are equal exactly for maps that agree on every signed field (binding up to space) and on peers, STUN endpoints and relays up to order |
| MapSign.PayloadDeterminesContents | clientapi/v1/mapsign.go:189-228 | equal payloads mean equal signed contents and equal metadata, with no condition on the keys |
| MapSign.VerificationWindow | clientapi/v1/mapsign.go:157-186 | the instants of successful verification form one interval, the intersection of the skewed signature window with every lease; with a sharing grant it is at most two minutes wide |
| MapSign.VerificationIgnoresOrder | clientapi/v1/mapsign.go:175-186 | reordering the lists of a map does not affect its verification |
| MapSign.VerifySignatureAt | clientapi/v1/mapsign.go:127-187 | accepts exactly the maps that are signed under the key, within the signature window and with every lease open |
| MapSign.SignThenVerify | clientapi/v1/mapsign.go:68-106 | a signed map verifies under the signer's key exactly from five minutes before the truncated issue time until its expiry, while its sharing grants hold |
| MapSign.SignIff | clientapi/v1/mapsign.go:68-106 | signing succeeds exactly for a positive lifetime, a key with an ID and a signer that answers the canonical payload with a signature |
| MapSign.VerifiedIsSigned | clientapi/v1/mapsign.go:127-187 | a verified map has a signature of the known version and algorithm by the trusted key over its own payload, within its window; a blank key or key ID verifies nothing |
| MapSign.FreshSignatureVerifiesIff | clientapi/v1/mapsign.go:75-79 | a map verifies at the instant it was signed exactly if its lifetime exceeds the truncated fraction of a second |
| Consistency.DeadWhenSigned | clientapi/v1/mapsign.go:75-79 | a concrete signature, made one nanosecond after a full second for one nanosecond, that does not verify when it is made |
| SigningTrust.Validate | clientapi/v1/signing_trust.go:61-101 | accepts exactly the bundles whose keys are well-formed, match their fingerprints, have distinct trimmed IDs and include the active one |
| SigningTrust.ResolveKey | clientapi/v1/signing_trust.go:103-125 | the first-match scan computes the resolution of a key ID |
| SigningTrust.ResolveIsUnique | clientapi/v1/signing_trust.go:103-125 | a resolved key is the only bundle key with that ID, is trusted at that instant, and has its own fingerprint as ID; and such a key is resolved |
| SigningTrust.ResolutionWindow | clientapi/v1/signing_trust.go:113-125 | a key of a valid bundle stored under its trimmed ID resolves exactly from the beginning to the end of its lifetime |
| SigningTrust.BundleValidIff | clientapi/v1/signing_trust.go:61-101 | a bundle is valid exactly if it has the known version, holds the active key, and every key is Ed25519 under its own fingerprint with a distinct ID and a lifetime that does not end before it begins |
| SigningTrust.ActiveKeyResolvesIff | clientapi/v1/signing_trust.go:73-113 | in an accepted bundle the active key resolves exactly while it is trusted and if its ID is stored without surrounding space |
| SigningTrust.AcceptedButNeverResolves | clientapi/v1/signing_trust.go:73-113 | a concrete accepted bundle whose only key never resolves |
| Cidr.OverlapsIffShared | clientapi/v1/application.go:62-72 | the overlap test on masked addresses says exactly that two blocks share an address |
| Cidr.OverlapsShorter | clientapi/v1/application.go:62-72 | blocks are nested or disjoint |
| Cidr.CoversIffSubset | clientapi/v1/acl_grants.go:33-44 | the family, bit-length and contains test says exactly that every address of a canonical destination lies in the route |
| Cidr.ContainsIff | clientapi/v1/acl_grants.go:33-44 | a prefix holds exactly the addresses of its family from the masked one on, as many as its length leaves |
| Acl.ValidateAclGrants | clientapi/v1/acl_grants.go:8-59 | accepts exactly the peers whose grants are restricted, bounded, canonical, covered by a route and well-formed in their ports |
| Acl.DestinationAcceptedIff | clientapi/v1/acl_grants.go:33-48 | a canonical destination is accepted exactly if its whole address set lies in one allowed route |
| Acl.AclAcceptedIff | clientapi/v1/acl_grants.go:8-59 | grants are accepted exactly if there are none, or the peer is restricted without ports of its own and every grant names canonical blocks inside routes and good ports, within the limits |
| Acl.GrantsStayInsideRoutes | clientapi/v1/types.go:287-293 | in an accepted peer the union of grants permits no address outside the peer's routes, and there only well-formed ports unless a grant for that very address names none |
| Applications.PrefixAllowedIff | clientapi/v1/application.go:62-72 | a prefix is allowed exactly if none of its addresses lies in one of the ten forbidden blocks |
| Applications.ForbiddenKinds | clientapi/v1/application.go:62-72 | forbidden are exactly the mapped, unspecified, loopback, multicast and link-local addresses and the rest of 0.0.0.0/8 and 240.0.0.0/4 |
| Applications.TargetIff | clientapi/v1/application.go:20-52 | a target is a canonical block without forbidden addresses, an exact domain or an origin |
| Applications.ValidateApplicationBindings | clientapi/v1/application.go:81-129 | accepts exactly the maps whose applications have bound hosts, a valid target and routes within it |
| Applications.ApplicationAcceptedIff | clientapi/v1/application.go:81-129 | an application is accepted exactly if its policy hash is one, its hosts are known by their current keys and named once, its target is valid, and its routes, one for each of its own connectors, lead to reachable blocks of the target |
| Applications.RoutesStayInScope | clientapi/v1/application.go:104-126 | every accepted route CIDR is the target range itself or one host, none of its addresses is forbidden or in the overlay, and its connector is bound to its current key |
| Applications.IdentitiesIgnoreOrder | clientapi/v1/application.go:82-85 | with distinct peer IDs the identity table does not depend on the order of the peers |
| Sharing.ValidateGrant | clientapi/v1/sharing.go:47-112 | accepts exactly the grants with distinct endpoints, a lease of at most two minutes, disjoint canonical hosts and disjoint well-formed rights |
| Sharing.GrantAcceptedIff | clientapi/v1/sharing.go:47-112 | a grant is accepted exactly if its ends have distinct identities and keys and one or two ordinary hosts each, share no address, hold a lease of at most two minutes, and no protocol and port is matched by two rights |
| Sharing.HostPrefixes | clientapi/v1/sharing.go:194-212 | one or two canonical unicast hosts, at most one per family, and their prefixes |
| Sharing.SameIps | clientapi/v1/sharing.go:214-219 | comparing sorted copies compares address lists up to order |
| Sharing.ValidateSharePeerGrants | clientapi/v1/sharing.go:129-192 | accepts exactly the maps in which every grant is valid, bound at both ends and exclusive, grant IDs are distinct and every foreign peer is granted |
| Sharing.GrantBoundIff | clientapi/v1/sharing.go:140-184 | a sound grant is bound exactly if its local end is this node, its remote end is a peer with exactly its network, key and addresses, and that peer alone has the key and is routed the addresses |
| Sharing.LocalBoundIff | clientapi/v1/sharing.go:221-234 | the local end is accepted exactly if it is this node under its current key and its hosts are the node's assigned addresses |
| Sharing.LocalEndIsThisNode | clientapi/v1/sharing.go:221-234 | the hosts of the local end are exactly the parsed assigned addresses of the node |
| Sharing.GrantIsTiedHere | clientapi/v1/sharing.go:47-166 | every grant of an accepted map ties this node under its current key to another identity with another key, for at most two minutes, started by the recipient only, and no two grants have one ID |
| Sharing.ValidateSharePeerGrantsAt | clientapi/v1/sharing.go:117-127 | in addition every lease is open at that instant |
| Sharing.RightsBound | clientapi/v1/sharing.go:89-110 | each protocol and port is matched by at most one right, ranges are together as wide as the set of ports they open, never above 65535, and ICMP is granted at most once |
| Sharing.SharedAddressHasOnePeer | clientapi/v1/sharing.go:140-184 | every remote address of a grant is carried by exactly one peer, the granted one, whose key no other peer has; it is none of the addresses assigned to the node and lies outside the local ranges when the remote network differs |
| Sharing.ForeignPeerIsGranted | clientapi/v1/sharing.go:186-190 | every peer of another network is the remote end of a grant and has the network, key and addresses it names |
| Sharing.SharesIgnoreOrder | clientapi/v1/sharing.go:129-192 | the sharing checks do not depend on the order of the peers |
| MapValidation.ValidateSnapshot | clientapi/v1/networkmap_validate.go:20-146 | the validator accepts exactly the maps whose header, identities, applications, sharing, peers, endpoints and relays are all accepted |
| MapValidation.ValidateServiceHosts | clientapi/v1/networkmap_validate.go:197-215 | hosts only on approved services, each bound to the key its identity has in this map and named once |
| MapValidation.ValidatePeers | clientapi/v1/networkmap_validate.go:76-84 | every peer is accepted and no two have one ID |
| MapValidation.AcceptanceIgnoresOrder | clientapi/v1/networkmap_validate.go:20-146 | acceptance of a map does not depend on the order of its peers, STUN endpoints and relays |
| SnapshotClone.CloneNetworkMapSnapshot | clientapi/v1/mapstream.go:192-227 | the copy has the value of the original, and every list, nested list and cell it reaches is newly allocated |
| SnapshotClone.SnapshotKept | clientapi/v1/mapstream.go:192-227 | writes outside the memory a map reaches change neither that memory nor the value of the map |
| SnapshotClone.ClonePeers | clientapi/v1/mapstream.go:205-218 | the same for peers, their time cells, grants, destination lists and port lists |
| SnapshotClone.CloneApplications | clientapi/v1/mapstream.go:229-240 | the same for applications, their hosts, routes and route CIDRs |
| SnapshotClone.CloneServices | clientapi/v1/mapstream.go:242-251 | the same for services |
| SnapshotClone.CloneDnsConfig | clientapi/v1/mapstream.go:253-264 | the same for the DNS configuration and its nameservers, nil to nil |
| SnapshotClone.CloneShares | clientapi/v1/sharing.go:236-244 | the same for share grants |
| Failover.CallsPermute | clientapi/v1/api.go:61-96 | over any run of calls the active URL is the head of a duplicate-free permutation of the original list, for URLs with no space before their trailing slashes |
| Failover.ListStaysIff | clientapi/v1/api.go:61-96 | for any URLs and any check of URLs: over all runs in which exactly the unusable URLs are refused, the list stays a permutation of the original exactly if no URL has a space before its trailing slashes or no call gets past the check of its first URL |
| Failover.ListChanges | clientapi/v1/api.go:539-546 | a concrete usable URL, `"https://c/a /"`, which is kept as `"https://c/a "`, contacted as `"https://c/a"` and replaced by that after a 2xx answer |
| Failover.CallMovesWinnerToFront | clientapi/v1/api.go:430-466 | only a 2xx answer changes the list: it moves that coordinator to the front and keeps the others in order |
| Failover.ContactsEachOnce | clientapi/v1/api.go:430-460 | a call contacts each coordinator at most once, in list order, and goes past only those that failed over |
| Failover.FirstAvailableDecides | clientapi/v1/api.go:430-466 | the first coordinator that can be reached and does not answer 408, 429 or a server error decides the call: a 2xx is a success, anything else final |
| Failover.NoneAvailable | clientapi/v1/api.go:460-460 | if there is none, the call fails with all of them |
| Failover.ActiveUrlStays | clientapi/v1/api.go:539-546 | a client with an active URL never loses it |
| Failover.Api.Request | clientapi/v1/api.go:420-468 | the failover loop: whom it contacts, what it returns and the new coordinator list |
| Failover.Api.SetActiveBaseUrl | clientapi/v1/api.go:539-546 | the active URL and the list after a success |
| Failover.Api.PollEnrollment | clientapi/v1/api.go:222-225 | polling goes through a copy and leaves this client unchanged |
| Failover.NormalizeControlPlaneUrls | clientapi/v1/api.go:81-96 | keeps each non-blank normal form at its first occurrence |
| Ordering.CollectForms | clientapi/v1/api.go:81-96 | the loop with a set of forms already seen, which this and the cleaning of scopes share, keeps first occurrences only |
| Failover.NormalizeMembers | clientapi/v1/api.go:81-96 | the result holds exactly the non-blank normal forms, each once |
| Failover.NormIdempotentIff | clientapi/v1/api.go:85-85 | normalising twice changes nothing exactly if no space stands before the trailing slashes |
| Failover.NormNotIdempotent | clientapi/v1/api.go:85-85 | a concrete URL on which normalising is not idempotent |
| LineReader.ReadBoundedLine | clientapi/v1/lineio.go:15-37 | for every stream and every way the buffer splits it, the loop ends with the bytes through the first newline, or the rest with the stream's error, or fails if these exceed the limit; it never holds more than the limit |
| LineReader.LineEndsAt | clientapi/v1/lineio.go:22-31 | a line ends with the first newline, however the stream ends, and fails if it is longer than the limit |
| LineReader.LineRunsOut | clientapi/v1/lineio.go:22-36 | without a newline it is all there is, together with the way the stream ended |
| LineReader.FirstLineAfter | clientapi/v1/lineio.go:22-34 | a chunk without newline only extends the line that follows, so the split does not matter |
| NodeCredential.SignThenValidate | clientapi/v1/nodecredential.go:59-97 | a credential that signs validates under the signer's key exactly before expiry and for a blank scope or one of its trimmed scopes, and gives back the trimmed identity and scopes |
| NodeCredential.ValidIsAuthentic | clientapi/v1/nodecredential.go:130-171 | a credential that validates is of the known kind, in time and scope, and the holder of the trusted key signed exactly its trimmed identity, set of scopes and expiry |
| NodeCredential.TamperingNeedsSignature | clientapi/v1/nodecredential.go:130-171 | two credentials that validate under one key agree on identity, scopes and expiry unless its holder signed two payloads |
| NodeCredential.SignIff | clientapi/v1/nodecredential.go:59-97 | signing succeeds exactly for an identity, at least one scope and a signer that answers with a signature |
| Consistency.CredentialAssumptionsAreMet | clientapi/v1/nodecredential.go:59-97 | the assumptions of the credential round trip hold together: a concrete codec and signed credential, accepted for its scope and refused for another |
| NodeCredential.PayloadDependsOnScopeSet | clientapi/v1/nodecredential.go:190-209 | two scope lists sign the same payload exactly if their sets of trimmed non-blank scopes agree; without any there is no payload |
| NodeCredential.CleanScopesIdempotent | clientapi/v1/nodecredential.go:211-215 | trimming, deduplicating and sorting together are idempotent |
| NodeCredential.CleanScopesIgnoreOrder | clientapi/v1/nodecredential.go:211-215 | and forget everything but the set of scopes |
| NodeCredential.Clean | clientapi/v1/nodecredential.go:227-242 | keeps each trimmed non-blank value at its first occurrence |
| Promotion.AcceptedIffBuildable | systemtests/releasecontract/contract.go:315-337 | an envelope is accepted exactly if it can be built from the same inputs, up to the schema text |
| Promotion.BuildIff | systemtests/releasecontract/contract.go:262-313 | an envelope is built exactly if the request names the digests of the three records and comes from the release workflow, the evidence says that the system tests passed for exactly these candidate bytes, and the provenance is about them and backs every component and module |
| Promotion.AcceptedIsTested | systemtests/releasecontract/contract.go:315-337 | so an accepted envelope is about a candidate that passed, by its digest, with the evidence and provenance of that candidate |
| Promotion.BuiltResolves | systemtests/releasecontract/contract.go:365-424 | every built envelope resolves for production with the tested candidate's set and digest unchanged |
| Promotion.ResolvesIff | systemtests/releasecontract/contract.go:365-424 | production resolves exactly a released envelope referred to by the digest of its bytes, with referenced records of the system tests and the release workflow and a resolved set that is a candidate with an image for every component, and resolves it to that set |
| Promotion.ProvenanceCoversExactly | systemtests/releasecontract/contract.go:216-258 | accepted provenance names exactly the candidate's components and modules and backs each of them |
| Promotion.ValidateCandidate | systemtests/releasecontract/contract.go:55-93 | accepts exactly the candidates with a valid header and valid components, modules and contracts, none named twice |
| Promotion.AcceptedIsSound | systemtests/releasecontract/contract.go:55-93 | an accepted candidate has immutable names, commits and images, and every name, repository, module path and contract once |
| Promotion.ValidateCandidateProvenance | systemtests/releasecontract/contract.go:208-260 | accepts exactly the provenance whose records are as many, distinct and back every component and module |
| Promotion.ValidateCompatibilityGates | systemtests/releasecontract/contract.go:188-202 | accepts exactly well-formed gates with distinct keys |
| Promotion.CheckEvidence | systemtests/releasecontract/contract.go:154-171 | the evidence loop and its final count |
| Promotion.ReleasedIff | systemtests/releasecontract/contract.go:97-173 | a released component is accepted exactly if it is the candidate itself, promoted by the release repository and approved, and its referenced evidence matches the gates key by key |
| Promotion.EvidenceCoversKeys | systemtests/releasecontract/contract.go:154-171 | by key, accepted evidence is a permutation of the declared gates |
| Promotion.EvidenceCoversGates | systemtests/releasecontract/contract.go:154-171 | if no declared contract contains NUL there is exactly one entry per declared gate, field by field |
| Promotion.FieldCoverageIff | systemtests/releasecontract/contract.go:154-171 | acceptance implies field-by-field coverage exactly if no declared contract contains NUL |
| Consistency.NulGoesUnnoticed | systemtests/releasecontract/contract.go:154-171 | a concrete released record, accepted although its one entry names a consumer and a contract nobody declared |
| GateKey.KeyInjective | systemtests/releasecontract/contract.go:204-206 | gates whose provider and consumer contain no NUL have distinct keys, whatever the contract text |
| GateKey.KeyDeterminesFields | systemtests/releasecontract/contract.go:204-206 | a gate with no NUL in any name shares its key with no other fields |
| GateKey.KeyCollision | systemtests/releasecontract/contract.go:204-206 | other fields with the same key whenever the contract contains NUL |

## Left out

- HTTP transport, TLS, headers, URL syntax, JSON decoding and the generated RPC code: input and output over libraries; a coordinator's answer is an unusable URL, a transport error or a status code.
- The bytes of hashes, signatures, base64, JSON and IP text: parameters with the laws named above.
- Nil and empty slices are not told apart: a list is a sequence, also where the encoder or `reflect.DeepEqual` would distinguish them.
- Field checks of single records (text, hostnames, keys, endpoints, DNS configuration, the lists of applications and services by themselves): predicates of the record, because they add only easy members; the checks that relate records are modelled.
- The relay module's records and its endpoint check: a relay is an ID, an address and other fields; its check is assumed to be independent of order and to leave no two relays with one ID.
- Authentication of the relay credential: it is carried in a map and checked against its network and node but is not signed.
- Monotonic revisions: a snapshot or resync event adopts any revision it carries, so none is claimed.
- The producer: the convergence results assume its history of signed deltas, in which no two maps share both revision and hash.
- Error texts: a rejected event, map or record is reported without its message.
- Protocol version and capability negotiation of a stream, registration, public errors, idempotency keys and the RPC services: straight-line checks.
- Migration inventories, schemas, file output and the command line of the release tool.

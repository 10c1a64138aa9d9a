# BFT-KV-Store core, modelled in Dafny

BFT-KV-Store is a replicated key-value store. Every key holds one
operation-based CRDT: a counter, a grow-only set or a two-phase set. A
client update becomes a signed operation whose predecessors are the hashes
of the key's current heads. Replicas swap such operations over an
anti-entropy protocol, and each replica computes a key's heads and value
from the hash graph of the operations it holds.

This project models that core as pure functions over immutable values and
proves properties about them. It covers:

- the signed-operation layer;
- the causal-graph computation of heads and value, and its three reducers;
- Kahn's topological sort;
- the sorted-slice set library and the slice helpers;
- the per-key storage cells;
- the HEADS / MSGS / NEEDS handlers with their connection state;
- the operation constructors and the client request dispatch;
- the message framing;
- the peer registry;
- the stand-alone PN-counter.

Conventions:

- **Crashes.** A Go panic, `logger.Fatal` or unbounded recursion is the
  `Crash` outcome of `Wrappers.Outcome`. A Go `error` is a `Result`.
- **Opaque functions.** SHA-256, Ed25519 and the JSON codec are fields of
  `Operations.Crypto`. Every property holds for every choice of them, or for
  every choice meeting a stated assumption. `SoundKey` says a secret key
  signs and verifies as Ed25519 promises. `RoundTrips` says the JSON codec
  reads one given operation back. `HashInjectiveOn` and an acyclicity rank
  are the other assumptions. `Operations.SigningPremisesMet` exhibits a
  choice meeting both signing premises for any key and operation.
- **Map order.** Go walks maps in an unspecified order. The model walks
  them in ascending key order. Lemmas show that the value, the set of heads
  and the missing predecessors do not depend on that choice. The order of
  the heads does depend on it, and so do the bytes and hash of the next
  operation built on them; see "## Left out".

| file | module | models |
|---|---|---|
| wrappers.dfy | Wrappers | Option, Result, Outcome |
| order.dfy | StringOrder | Go's byte-wise string order |
| hex.dfy | Hex | hex encoding and decoding as the program uses them |
| utils.dfy | Utils | utils/map.go |
| set.dfy | SortedSet | set/set.go, including in-place removal on shared slices |
| operations.dfy | Operations | signing, reading and hashing of operations |
| reducers.dfy | Reducers | the counter, gset and 2pset reducers |
| graph.dfy | CausalGraph | CalculateOperations and propagateNode |
| kahn.dfy | KahnOrder | opTopologicalSort |
| topo.dfy | TopoSort | CalculateOperationsTopologicalOrder |
| crdts.dfy | Crdts | crdts.go, counter.go, gset.go, 2pset.go |
| storage.dfy | Storage | storage/main.go |
| message.dfy | Message | protocol/message.go |
| userapi.dfy | UserApi | getOperation, opMsg and newMsg |
| broadcast.dfy | Broadcast | the handlers of protocol/broadcast.go |
| context.dfy | AppContext | AddNewNode |
| pncounter.dfy | PNCounter | PNCounter.go |

## Model

| member | source | states |
|---|---|---|
| Utils.Map | utils/map.go:3-9 | same length as the input; element i is f of input element i |
| Utils.Filter | utils/map.go:11-19 | no longer than the input; holds exactly the input elements satisfying f |
| Utils.FilterKeepsOrder | utils/map.go:11-19 | any ordering relation that holds between input elements holds between the kept ones, so filtering a sorted slice gives a sorted slice |
| Utils.FilterCounts | utils/map.go:11-19 | each kept element occurs as often as in the input; every other element occurs zero times |
| SortedSet.New | set/set.go:22-24 | the empty set, which is strictly ascending |
| SortedSet.BinarySearch | set/set.go:36 | returns the insertion point (the count of elements below val), and found holds exactly when val is a member, sitting at that index |
| SortedSet.Has | set/set.go:53-56 | true exactly when val is a member |
| SortedSet.Add | set/set.go:35-42 | strictly ascending with contents s ∪ {val}; unchanged when val is already present, one longer otherwise |
| SortedSet.Remove | set/set.go:44-51 | strictly ascending with contents s − {val}; unchanged when val is absent, one shorter otherwise |
| SortedSet.Union | set/set.go:58-63 | strictly ascending with contents s ∪ o, for any o, sorted or not |
| SortedSet.Diff | set/set.go:65-70 | strictly ascending with contents s − o, for any o |
| SortedSet.FromSlice | set/set.go:26-33 | strictly ascending, holding exactly the distinct input elements |
| SortedSet.Intersect | set/set.go:72-90 | strictly ascending with contents s ∩ o |
| SortedSet.StrictUnique | set/set.go:11-20 | two strictly ascending sequences with the same members are equal, so each set has exactly one representation |
| SortedSet.FromSliceExample | set/set_test.go:9-17 | FromSlice of 3,1,2,3,2 is 1,2,3 |
| SortedSet.UnionExample | set/set_test.go:19-29 | the union of {1,2,3} and {3,4} is 1,2,3,4 |
| SortedSet.DiffExample | set/set_test.go:40-50 | the difference of {1,2,3} and {3,4} is 1,2 |
| SortedSet.IntersectExample | set/set_test.go:61-71 | the intersection of {1,2,3} and {3,4} is 3 |
| SortedSet.RemoveInPlace | set/set.go:44-51 | the in-place removal leaves the backing array's length as it was and reads as Remove through the returned header |
| SortedSet.DiffInPlace | set/set.go:65-70 | Diff through in-place removals reads as Diff and keeps the backing array's length |
| SortedSet.DiffInPlaceTestedCase | set/set_test.go:52-55 | in the tested case, {1,2,3} − {3,4}, the caller's slice still reads 1,2,3 |
| SortedSet.DiffInPlaceClobbersArgument | set/set.go:44-70 | Diff([a,b,c],[a]) turns the caller's slice into b,c,c, which has lost a and is no longer strictly ascending |
| Operations.ReadOperation | crdts/operations.go:35-58 | an operation exactly when the payload is at least 96 bytes, the signature over bytes 96.. verifies under key 0..32 with signature 32..96, and the JSON parses; a shorter payload is refused as invalid |
| Operations.SignOperation | crdts/operations.go:60-74 | the result begins with the public key and ends with the operation's JSON |
| Operations.SignedReadsBack | crdts/operations.go:46-74 | with a sound key, what SignOperation produced reads back exactly when its JSON parses, and reads back as the operation exactly when the codec round-trips it |
| Operations.HashOfHex | crdts/operations.go:24-33 | hashing the hex form of a payload is hashing the payload |
| Hex.DecodeSucceedsIff | protocol/broadcast.go:283-287 | hex decoding succeeds exactly on even-length strings of hex digits |
| Hex.DecodeEncode | crdts/operations.go:25-27 | decoding the hex encoding gives back the bytes, without error |
| Hex.EncodeInjective | crdts/operations.go:27 | distinct digests have distinct hex forms |
| Reducers.Payload | crdts/operations.go:212-214 | the "value" field of a JSON object (null when absent); none when the payload is not an object, where the type assertion panics |
| Reducers.CounterFoldIsSum | crdts/operations.go:207-216 | the counter reducer crashes exactly when some inc/dec lacks a number; otherwise it adds Σinc − Σdec to its start value |
| Reducers.SetFoldDescribed | crdts/operations.go:218-242 | the set reducers crash exactly on a malformed add/rmv; otherwise a member is present exactly when some operation names it, and (2pset) no rmv does |
| Reducers.ReduceIsExpected | crdts/operations.go:202-262 | the value is crash for an unknown type or a malformed operation, else Σinc − Σdec, the added members, or the members added and never removed |
| Reducers.ReduceOrderFree | crdts/operations.go:162-168 | any rearrangement of the same operations reduces to the same value |
| CausalGraph.Collect | crdts/operations.go:95-107 | holds a hash exactly when some payload with that hash reads back with the key's type; each entry is such a payload and its operation |
| CausalGraph.CollectBySet | crdts/operations.go:103-106 | with hashes injective, the pool depends only on which payloads the log holds, not on their order or copies |
| CausalGraph.Prune | crdts/operations.go:111-137 | a sub-map of the input, unchanged on what survives, and causally closed |
| CausalGraph.PruneKeepsClosedParts | crdts/operations.go:116-136 | every causally closed part of the input survives pruning |
| CausalGraph.NothingMissingIffNothingPruned | crdts/operations.go:116-130 | the first pass reports no missing predecessor exactly when pruning deletes nothing |
| CausalGraph.Raise | crdts/operations.go:174-186 | the key's tier becomes the larger of its old tier and the given one (the given one for a new key); every other tier is unchanged |
| CausalGraph.Propagate | crdts/operations.go:173-200 | when the walk completes: tiers only grow, the key reaches at least its tier, and only predecessors or already-raised keys get a positive tier |
| CausalGraph.PropagatePreds | crdts/operations.go:188-199 | when the walk completes, every listed predecessor reaches at least the given tier |
| CausalGraph.TiersFrom | crdts/operations.go:139-147 | when every walk completes, every operation has a tier, and only predecessors have a positive one |
| CausalGraph.PropagateSettles | crdts/operations.go:188-199 | after a walk from a key, every predecessor of a tiered operation has a positive tier |
| CausalGraph.TierZeroIffFrontier | crdts/operations.go:139-200 | once all walks finish, an operation has tier 0 exactly when no surviving operation names it as a predecessor |
| CausalGraph.PropagateTerminates | crdts/operations.go:173-200 | with acyclic predecessors, the walk from a key finishes within |ops| levels |
| CausalGraph.TiersTerminate | crdts/operations.go:139-147 | with acyclic predecessors, the outer loop's walks all finish |
| CausalGraph.Enumerate | crdts/operations.go:162-168 | walks each surviving hash once, in ascending order |
| CausalGraph.HeadsOf | crdts/operations.go:149-166 | holds exactly the payloads of the walked operations at tier 0 |
| CausalGraph.Live | crdts/operations.go:95-137 | the operations left after collecting and pruning form a causally closed map |
| CausalGraph.CalculateOperations | crdts/operations.go:91-171 | crashes on an unknown type; a result carries the requested type, and its heads are payloads of the log that read back with that type |
| CausalGraph.CalcHeadsAreFrontier | crdts/operations.go:139-168 | the heads are exactly the payloads of the surviving operations that no surviving operation names as a predecessor |
| CausalGraph.CalcValueInAnyOrder | crdts/operations.go:162-170 | any duplicate-free walk over the surviving operations reduces to the computed value |
| CausalGraph.CalcConverges | crdts/operations.go:91-171 | replicas holding the same payloads, in any order and with any copies, compute the same heads, value and missing predecessors |
| CausalGraph.CalcDoesNotCrash | crdts/operations.go:139-170 | a known type, well-formed payloads and acyclic predecessors mean no crash |
| CausalGraph.WellFormedReduces | crdts/operations.go:207-242 | a reducer never panics on well-formed operations of a known type |
| KahnOrder.Succs | crdts/operations.go:294-310 | the successors of k, ascending: exactly the keys naming k as an in-graph predecessor |
| KahnOrder.InvInit | crdts/operations.go:329-333 | the queue seeded with the keys that have no in-graph predecessor, in ascending order, satisfies the loop invariant |
| KahnOrder.Strike | crdts/operations.go:347-358 | strikes u off one successor's pending predecessors, queueing that successor when none are left |
| KahnOrder.VisitSuccessors | crdts/operations.go:338-359 | one dequeue keeps the invariant and strictly shrinks the set of keys not yet listed |
| KahnOrder.Kahn | crdts/operations.go:323-363 | lists each key at most once, each after all of its predecessors, and lists every key whose predecessors are all listed |
| KahnOrder.StuckNeverListed | crdts/operations.go:337-360 | no key of a set in which each key waits on another never lists |
| KahnOrder.KahnCompleteIffNotStuck | crdts/operations.go:323-363 | the sort lists every key exactly when no set of keys is stuck behind a predecessor cycle |
| KahnOrder.CoverIffSameLength | crdts/operations.go:316-318 | the list covers the keys exactly when it is as long as the key set, so the length check detects an incomplete sort |
| KahnOrder.SuccessorVisitsAsWritten | crdts/operations.go:344-354 | the successor loop as written makes one visit per original index, reading the backing array the removals keep shifting |
| KahnOrder.SuccessorLoopSkipsAsWritten | crdts/operations.go:344-354 | with successors a < b < c the loop visits a, c, c: b is skipped and c visited twice |
| KahnOrder.VisitAsWritten | crdts/operations.go:342-359 | the inner loop as written only appends to the queue and leaves a valid, strictly ascending successor slice |
| KahnOrder.KahnAsWritten | crdts/operations.go:337-360 | the sort as written only extends the list |
| KahnOrder.KahnLosesKeyAsWritten | crdts/operations.go:323-363 | for z before a < b < c, the sort as written returns z, a, c, c: b is lost and c doubled, yet the length check passes |
| TopoSort.Decoded | crdts/operations.go:266-270 | element i is the decoded prefix of input string i |
| TopoSort.Readable | crdts/operations.go:271-279 | every payload that reads back is present under its hash, each entry read from a payload of the batch |
| TopoSort.OpStrings | crdts/operations.go:265-270 | maps the hash of every input string to an input string with that hash |
| TopoSort.SortedKeys | crdts/operations.go:282-292 | the readable hashes, strictly ascending |
| TopoSort.GraphOf | crdts/operations.go:281-310 | the dependency graph is well formed |
| TopoSort.GraphOfEdges | crdts/operations.go:294-310 | the nodes are the readable operations; an edge is a named predecessor that is itself a node, and edges to other hashes are dropped |
| TopoSort.TopologicalOrder | crdts/operations.go:264-321 | crashes exactly when some readable operations are stuck behind a predecessor cycle; otherwise lists each readable operation's string exactly once (by hash), after its predecessors |
| TopoSort.OrderFromKahn | crdts/operations.go:312-320 | from any list Kahn's algorithm may return: a crash exactly when keys are stuck, else a topological order |
| TopoSort.CrashIffStuck | crdts/operations.go:316-318 | the length check fires exactly when some keys are stuck |
| TopoSort.CompleteIsListed | crdts/operations.go:312-320 | a complete Kahn list mapped back to strings is a topological order of the batch |
| TopoSort.HashesOfStrings | crdts/operations.go:312-314 | the strings a list maps to hash back to the list, and each is an input string |
| Crdts.HashPreds | crdts/counter.go:23-26 | the predecessors pair up with the heads, each the hash of its head |
| Crdts.CreateCrdtRecord | crdts/crdts.go:39-53 | op "new", no predecessors, null payload, the requested type, and a 16-digit hex nonce that decodes to the 8 random bytes |
| Crdts.NewCRDT | crdts/crdts.go:63-71 | an error exactly for a type other than counter, gset or 2pset; the id is the SHA-256 of the signed bytes; with a sound key, the bytes read back as the creating record exactly when the codec round-trips it |
| Crdts.CounterPayloadAsWritten | crdts/counter.go:9-11 | Counter{value} marshals to an empty JSON object, since its field is unexported |
| Crdts.CounterAmountLostAsWritten | crdts/counter.go:22-34 | an inc built from that payload is malformed for the counter reducer, so reducing it crashes |
| Crdts.CounterPayload | crdts/counter.go:9-11 | the corrected payload carries the amount under "value", where the reducer reads it |
| Crdts.NewCounterRecord | crdts/counter.go:13-20 | op "new", no predecessors, type counter, the empty object the struct marshals to, contributing nothing |
| Crdts.IncCounterRecord | crdts/counter.go:22-34 | op "inc", type counter, predecessors the head hashes, carrying and contributing +val |
| Crdts.DecCounterRecord | crdts/counter.go:36-48 | op "dec", type counter, predecessors the head hashes, carrying val and contributing −val |
| Crdts.CounterRoundTrip | crdts/operations.go:207-216 | reducing one inc of val gives val; one dec of val gives −val |
| Crdts.NewCounterOp | crdts/counter.go:13-20 | with a sound key, reads back as the new-counter record exactly when the codec round-trips it |
| Crdts.IncCounterOp | crdts/counter.go:22-34 | with a sound key, reads back as the inc record exactly when the codec round-trips it |
| Crdts.DecCounterOp | crdts/counter.go:36-48 | with a sound key, reads back as the dec record exactly when the codec round-trips it |
| Crdts.SetPayload | crdts/gset.go:7-9 | the payload carries the value under "value", where the set reducers read it |
| Crdts.AddGSetRecord | crdts/gset.go:11-23 | op "add", type gset, predecessors the head hashes, naming val |
| Crdts.AddTwoPhaseSetRecord | crdts/2pset.go:11-23 | op "add", type 2pset, predecessors the head hashes, naming val |
| Crdts.RemoveTwoPhaseSetRecord | crdts/2pset.go:25-37 | op "rmv", type 2pset, predecessors the head hashes, naming val |
| Crdts.SetRoundTrip | crdts/operations.go:218-242 | reducing a gset add of val gives {val}; a 2pset add then rmv of val gives the empty set |
| Crdts.AddGSetOp | crdts/gset.go:11-23 | with a sound key, reads back as the gset add record exactly when the codec round-trips it |
| Crdts.AddTwoPhaseSetOp | crdts/2pset.go:11-23 | with a sound key, reads back as the 2pset add record exactly when the codec round-trips it |
| Crdts.RemoveTwoPhaseSetOp | crdts/2pset.go:25-37 | with a sound key, reads back as the 2pset rmv record exactly when the codec round-trips it |
| Storage.Update | storage/main.go:111-116 | the recomputed cell keeps log and type, and its heads and value are the ones the log yields; a crash exactly when that computation crashes |
| Storage.Assign | storage/main.go:28-52 | refuses a key in use, then an unparsable operation, leaving the store as it was; otherwise succeeds, or crashes exactly when computing the new cell crashes |
| Storage.AssignInstalls | storage/main.go:32-48 | a successful Assign changes only its fresh key, whose log is the one operation, typed by it, with heads and value recomputed |
| Storage.AssignKeepsConsistent | storage/main.go:28-52 | Assign keeps every cell's heads and value the ones its log yields |
| Storage.Append | storage/main.go:73-109 | refuses an unknown key, an unparsable operation, a type mismatch, then exactly the operations naming a predecessor that hashes no logged operation; otherwise succeeds, or crashes exactly when the recomputation crashes |
| Storage.AppendExtends | storage/main.go:82-108 | a successful Append changes only its key, appending the operation to the log, keeping the type and recomputing heads and value |
| Storage.AppendKeepsConsistent | storage/main.go:73-109 | Append keeps every cell's heads and value the ones its log yields |
| Storage.Get | storage/main.go:60-71 | an error exactly for an absent key; otherwise the cell's stored value, heads and type |
| Storage.GetReadsLog | storage/main.go:60-71 | on a store whose cells agree with their logs, Get reads the value and heads the key's log computes to |
| Storage.GetAfterAssign | storage/main.go:28-71 | after Assign, Get returns the operation's type and the heads and value of its one-operation log |
| Storage.RecomputeIgnoresCopy | storage/main.go:103-116 | a log with one of its own payloads appended again yields the same result |
| Storage.ReappendDoesNotCrash | storage/main.go:73-109 | re-appending a payload the log holds does not stop the process |
| Storage.ReappendIsIdempotent | storage/main.go:103-116 | re-appending a payload the log holds leaves heads and value unchanged |
| Message.HeadersAreFourBytes | protocol/message.go:12-31 | every header constant is four bytes, and no two are equal |
| Message.NewMessage | protocol/message.go:41-47 | the given header, empty content, not malformed |
| Message.MessageFromPayload | protocol/message.go:49-64 | ok exactly when the payload has four bytes or more, and malformed exactly when not; on success header and content put back together give the payload |
| Message.AddContent | protocol/message.go:66-74 | the header is kept; the content is replaced when serialisation succeeds, and the message is marked malformed when it fails |
| Message.Send | protocol/message.go:80-92 | an error exactly for a malformed message; otherwise the bytes written begin with the header and are header plus content long |
| Message.SendThenParse | protocol/message.go:49-92 | what a well-formed message with a four-byte header sends parses back as that message |
| Message.NewMessageRoundTrip | protocol/message.go:41-92 | a message built from a declared header and given content round-trips through Send and MessageFromPayload |
| UserApi.Round | protocol/user_api.go:116 | the nearest integer, halves rounded away from zero |
| UserApi.Request | protocol/user_api.go:110-154 | for a legal pair: the requested tag and type, the head hashes as predecessors, and the rounded amount (counter) or the named value (sets) |
| UserApi.GetOperation | protocol/user_api.go:110-154 | invalid for every pair outside counter /inc /dec, gset /add and 2pset /add /rmv; a counter needs a number, else wrong value type; with a sound key, the bytes read back as the Request record exactly when the codec round-trips it |
| UserApi.OpMsg | protocol/user_api.go:82-108 | refuses an unparsable body or unknown key; a refusal leaves the store alone; accepts exactly when the operation GetOperation built on the key's heads is appended, replying with the store Append left; stops exactly when Append stops; refuses when either step errs |
| UserApi.OpMsgBuildsOnHeads | protocol/user_api.go:94-103 | with a sound key and a round-tripping record, an accepted update is appended to its key's log, and its predecessors are the hashes of the heads the key had |
| UserApi.NewMsg | protocol/user_api.go:16-49 | refuses an unparsable body or unknown type; for a valid type, replies with the new key exactly when Assign files the creating operation under the hex of its id, stops exactly when Assign stops, and refuses when Assign errs |
| UserApi.NewMsgFilesUnderRepliedKey | protocol/user_api.go:29-45 | with a sound key and a round-tripping record, the replied key is new and now holds exactly the creating record, with the requested type |
| Broadcast.HashesOf | protocol/broadcast.go:268 | the hashes of the hex strings, as a set |
| Broadcast.OnConnection | protocol/broadcast.go:156-164 | sent, received and missing start empty, and the shared set is the pool |
| Broadcast.Fresh | protocol/broadcast.go:349 | the received operations not already in the pool |
| Broadcast.Reconcile | protocol/broadcast.go:343-352 | missing becomes (missing ∪ hashes) − hashes of received; when empty, pool and shared set absorb what was received; otherwise they are unchanged |
| Broadcast.File | protocol/broadcast.go:357-368 | a `new` goes to Assign and anything else to Append: it stops exactly when that call stops, keeps the store that call returns on success, and keeps the old store when the call errs, as it does for a `new` under a held key or an update under a missing key |
| Broadcast.FileShape | protocol/broadcast.go:357-368 | filing either keeps the store or ends the key's log with the operation and touches no other key; a `new` only under a key not yet held, anything else only under a held key |
| Broadcast.Deliver | protocol/broadcast.go:356-369 | other keys are untouched, the key's log only grows, and everything it gains is a decoded payload of the delivery order |
| Broadcast.DeliverOne | protocol/broadcast.go:356-369 | delivering one operation is filing its hex-decoded payload |
| Broadcast.DeliverConcat | protocol/broadcast.go:356-369 | delivering a + b is delivering a, then b from the store a left, and a stop in a stops everything |
| Broadcast.DeliverKeepsConsistent | protocol/broadcast.go:354-369 | delivery keeps every cell's heads and value the ones its log yields |
| Broadcast.HandleMissing | protocol/broadcast.go:342-377 | while hashes are missing, one NEEDS for them and nothing else changes; otherwise the batch new to the pool is delivered once, in topological order, under the key, and the pool never shrinks; a stop only once nothing is missing, and only when the new operations' predecessors close a cycle or storage stops while filing them in such an order |
| Broadcast.StoppingIsHandled | protocol/broadcast.go:348-369 | with nothing missing, a cycle among the new operations or a stop while delivering them in topological order is a stop handleMissing allows |
| Broadcast.HeadsMissing | protocol/broadcast.go:266-269 | the announced heads minus the hashes of the shared set |
| Broadcast.OnHeads | protocol/broadcast.go:258-272 | drops an unparsable body; otherwise handles the announced heads the shared set lacks, with every guarantee of HandleMissing, stops included |
| Broadcast.Accepted | protocol/broadcast.go:282-297 | exactly the messages that hex-decode and read back as operations |
| Broadcast.PredsOf | protocol/broadcast.go:299-304 | exactly the predecessors the accepted operations name |
| Broadcast.MsgsIntake | protocol/broadcast.go:281-309 | accepted messages join recvd and nothing else changes; unresolved is the named predecessors hashing to nothing in mconn ∪ recvd |
| Broadcast.OnMsgs | protocol/broadcast.go:274-312 | drops an unparsable body; otherwise handles the unresolved predecessors with the grown recvd, with every guarantee of HandleMissing, stops included |
| Broadcast.Requested | protocol/broadcast.go:323-329 | exactly the elements of mconn − sent whose image is asked for, ascending |
| Broadcast.Reply | protocol/broadcast.go:323-329 | exactly the shared operations not sent before whose hash is asked for |
| Broadcast.OnNeeds | protocol/broadcast.go:314-340 | sends the reply unless it is empty; sent grows by exactly the reply; nothing else changes |
| Broadcast.NeedsNeverResends | protocol/broadcast.go:323-331 | two successive NEEDS rounds never send the same operation twice |
| Broadcast.OnNeedsAsWritten | protocol/broadcast.go:323 | as written the reply and sent are the corrected ones, but mconn is rewritten in place, keeping its length |
| Broadcast.OnNeedsClobbersSharedSetAsWritten | protocol/broadcast.go:323 | with a already sent, mconn [a,b,c] becomes [b,c,c] |
| Broadcast.Broadcast | protocol/broadcast.go:135-141 | the pool gains the operation's hex; the MSGS sent carries it; that string hashes to the operation's hash |
| AppContext.Registered | context/main.go:19-23 | true exactly when the pair is registered |
| AppContext.AddNewNode | context/main.go:15-29 | unchanged when the pair is present; otherwise the pair is appended at the end |
| AppContext.AddNewNodeIdempotent | context/main.go:15-29 | registering twice is registering once |
| AppContext.AddNewNodeKeepsNoDuplicates | context/main.go:19-28 | no pair is ever registered twice, and the members are the old pairs plus the new one |
| PNCounter.NewCounter | PNCounter.go:31-51 | no history, no heads, and valid |
| PNCounter.Bump | PNCounter.go:76-78 | adds v to one node's entry, a missing entry reading as 0, and leaves the others alone |
| PNCounter.UpdateHeads | PNCounter.go:92-97 | the heads become (heads ∪ {new}) − preds |
| PNCounter.Apply | PNCounter.go:125-133 | records the update; moves the heads; adds the value to the node's positives for inc or negatives for dec, and leaves every other entry alone |
| PNCounter.CurrentHeads | PNCounter.go:100-106 | the heads, each once |
| PNCounter.GenerateUpdate | PNCounter.go:54-82 | the update's predecessors are the current heads and its id the hash of its draft; it is applied locally |
| PNCounter.GenerateLeavesOneHead | PNCounter.go:58-72 | after a local update whose hash is new to the heads, it is the only head |
| PNCounter.Effect | PNCounter.go:109-134 | no change for a known id or a missing predecessor; otherwise applies the update |
| PNCounter.EffectIdempotent | PNCounter.go:113-116 | applying a remote update twice is applying it once |
| PNCounter.SumBump | PNCounter.go:141-147 | adding v to one entry adds v to the sum |
| PNCounter.ApplyKeepsValid | PNCounter.go:125-149 | applying a new update keeps the value equal to the sum of the history's contributions |
| PNCounter.GenerateKeepsValid | PNCounter.go:54-82 | a local update with a new hash keeps the counter valid |
| PNCounter.EffectKeepsValid | PNCounter.go:109-134 | every remote update keeps the counter valid |
| PNCounter.TwoReplicaScenario | PNCounter.go:151-172 | node1 inc 5 and node2 dec 3, exchanged, with node1 receiving twice: both read 2 |

## Left out

- Sockets, channels, goroutines and mutexes are left out. Every handler is one sequential transition, and a message sent is an `Output` value. This covers the polling loop, the reader goroutines and `conn.Write`.
- The HEADS messages that onConnectionToAnotherReplica sends are left out. They need `GetHeads` and the `HEADS` constant, and neither is part of this model. Only the connection state it sets up is modelled.
- readMsg is left out: it forwards what `Storage.Get` returns, and Get is modelled.
- Request and message bodies arrive already parsed, as an `Option`. JSON parsing is an opaque function.
- SHA-256, Ed25519 and JSON marshalling are opaque functions. `SignOperation`'s marshal error cannot happen for the records built here, so it is not modelled.
- Random bytes (the CRDT nonce, the PN-counter UUID) are parameters, and a failing random source is not modelled.
- Crdts.NewCRDT: the nonce's 8 random bytes are a parameter, and `rand.Read` errors are left out.
- Reducers.Reduce: the counter total is an exact `real`, not a float64, so float rounding of large totals is not modelled.
- UserApi.Round: `int(math.Round(v))` is modelled on `real`. The conversion's behaviour for values outside the int range is not modelled.
- PNCounter.Apply: Go's `int` wraps around at 64 bits; the model uses unbounded integers.
- PNCounter.NewCounter: the `ID` and `CreatorNode` fields are left out, because no operation reads them.
- PNCounter.GetValue is a ghost function. It sums a map by picking keys, so the model states the sum rather than computing it.
- PNCounter.GenerateKeepsValid: assumes the new update's hash is not already recorded. A hash collision in Go would overwrite history.
- IncCounterRecord: uses the corrected payload `{"value": val}`. As written, `Counter{val}` marshals to `{}` (Findings, row 3).
- DecCounterRecord: uses the corrected payload, for the same reason as IncCounterRecord.
- IncCounterOp: signs the corrected record, so its bytes and hash differ from what the program signs.
- DecCounterOp: signs the corrected record, so its bytes and hash differ from what the program signs.
- Request: a counter update carries the corrected payload.
- GetOperation: a counter update is signed with the corrected payload.
- OpMsg: accepts a counter /inc or /dec. As written, the program's Append recomputation panics on that operation's empty payload (crdts/operations.go:212-214), and the request ends in a crash.
- HeadsOf: the heads are listed in ascending order of their hashes; Go lists them in map order, which varies from run to run.
- GetOperation: the predecessors follow the order of the heads, so the signed bytes and hash of an update are one of the several Go can produce.
- GenerateUpdate: the heads are hashed into the update's id in ascending order; Go formats them in map order, so the model picks one of the possible ids.
- CausalGraph.CalculateOperations: `PredsMissing` is a set. Go's slice may hold duplicates in any order.
- CausalGraph.Propagate: the recursion carries a depth bound of |ops|. Running out stands for Go's unbounded recursion on a predecessor cycle and is a crash. TiersTerminate shows an acyclic graph never runs out.
- CausalGraph.CalcConverges: assumes SHA-256 is injective on the payloads involved.
- TopoSort.TopologicalOrder: uses the corrected successor loop (see Findings). The as-written loop is modelled separately, in KahnOrder.
- Set aliasing through `slices.Insert` is left out: Add can shift elements in place when capacity allows. Capacity is not modelled, so the main model treats Add, Union and FromSlice as pure values. In-place `Remove` is modelled, in SortedSet.RemoveInPlace and SortedSet.DiffInPlace.
- The aliasing of `mconn` with `M` is left out: onConnectionToAnotherReplica makes mconn share M's slice, and the model copies it as a value.
- Message headers are byte sequences, not Go strings. Their bytes are the ASCII of the header names.
- The commented-out second connection algorithm in broadcast.go is left out, as are the test prototype in crdts_test.go and protocol/errors.go.

## Findings

| source | as written | input that shows it | evidently intended | confidence | as-written member | corrected member |
|---|---|---|---|---|---|---|
| protocol/broadcast.go:323 | `set.Diff(connData.vars.mconn, connData.vars.sent)` removes elements inside mconn's own backing array, so the connection's shared set is rewritten | mconn = [a, b, c], sent = [a]: after the NEEDS round mconn reads [b, c, c] | compute mconn − sent without touching mconn | high (not executed) | Broadcast.OnNeedsClobbersSharedSetAsWritten | Broadcast.OnNeeds |
| crdts/operations.go:344-354 | the range over `uNode.succs` reads a backing array that `set.Remove(uVal.succs, succ)` shifts left on every iteration | z precedes a < b < c and nothing else: the sort returns z, a, c, c, and the length check passes | visit each successor of the dequeued key exactly once | high (not executed) | KahnOrder.KahnLosesKeyAsWritten | KahnOrder.Kahn |
| crdts/counter.go:9-11 | `Counter{value: val}` has an unexported field, so the operation's payload marshals as `{}` | IncCounterOp(key, 5, heads): the reducer finds no "value" and its `.(float64)` assertion panics | serialise the amount under "value", as the set payloads do | high (not executed) | Crdts.CounterAmountLostAsWritten | Crdts.CounterRoundTrip |

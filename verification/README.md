# etcdlabs: the MemberStatus codec, the cluster registry and the request guard

This project models three parts of etcdlabs and proves what they promise:

- the wire codec of `MemberStatus` (`cluster/clusterpb/clusterpb.pb.go`): sizing, encoding into a
  preallocated buffer, decoding over a struct and skipping unknown fields with nested groups. It
  follows the Protocol Buffers Encoding specification, sections "Base 128 Varints",
  "Length-Delimited Records", "Last One Wins" and "Groups";
- the cluster registry (`cluster/`): member list, port allocator, host index, initial-cluster
  string, leader scan, the status of a member, and the stop/restart branches of the web handler
  with their quorum guard;
- the random text generator of `backend/web/utils.go`.

Code that works step by step is a method or a class with the source's fields, proved against a
function of values; the theorems are lemmas about those functions, over all inputs and all runs.

| file | what it holds |
|---|---|
| `Bits.dfy` | Go's `\|`, `&`, `<<`, `>>` on unsigned integers, bit by bit, and the arithmetic they amount to |
| `Wire.dfy` | bytes, integer ranges, errors, int conversions |
| `Varint.dfy` | varints: canonical encoding, reading, the encoding and decoding loops |
| `Message.dfy` | the nine fields, the canonical encoding and its size |
| `Skip.dfy`, `Grammar.dfy` | `skipClusterpb`, and the grammar of fields as trees |
| `Decode.dfy` | decoding as a function; sequencing, merge, field order, round trip |
| `Language.dfy` | the language that `Unmarshal` accepts, as trees, and the message each sentence stands for |
| `FieldView.dfy` | what a list of fields says of each number: the bytes that `Marshal` writes and the struct that `Unmarshal` leaves, in the struct's own names |
| `Refusals.dfy` | which inputs are refused, with which error, and what is left by then |
| `UnknownFields.dfy`, `Minimal.dfy`, `RuntimeSafety.dfy` | unknown fields leave no trace; the canonical encoding is shortest; exactly when Go's bounds checks fail |
| `Codec.dfy` | `Size`, `MarshalTo`, `Marshal`, `Unmarshal` in place |
| `Member.dfy` | member status, its transitions, waiting for a leader |
| `Registry.dfy`, `InitialCluster.dfy`, `Cluster.dfy` | the registry as a value, the initial-cluster string, the `Cluster` class |
| `Handler.dfy` | stop-node and restart-node requests, the quorum guard over runs |
| `Random.dfy`, `Decimal.dfy` | `randBytes`, `multiRandStrings`, `multiRandKeyValues`; decimal printing |

## Reading notes

- Strings on the wire are byte sequences. Integers are unbounded; a conversion, shift or sum that
  can leave Go's range is written out (`Int64`, `Int32`, `Shl`, `Report`).
- Adding a declared length to a position may wrap. Decoding as a function reports `PastEnd(missing)`,
  which does not depend on where the input starts, and `Report` turns it into what the Go program
  does for an input of a given length: an EOF error, or a run-time bounds failure when the sum wraps.
  `Unmarshal` is proved to answer exactly that. `RuntimeFailureIff` gives the inputs on which a bounds
  check fails, and only those: what precedes some field decodes, and that field declares an end that is
  no int (`FieldOverruns`; within a group, ends count from the start of the group). `TextFieldOutcome`
  says what a string field leads to at any position, and `DeclaredEndCanWrap` is a concrete input.
- A struct that failed to decode keeps what was written to it; the outcome of decoding includes it.
- The generated code repeats the varint loop and the six string cases; here each is one method.
- The comment at `cluster/cluster.go:339` says that `Remove` removes the member. The code stops the
  entry that moved into the freed place, or indexes past the end (lines 374-380); the contract of
  `Cluster.Cluster.Remove` says so. The comment at `cluster/cluster_other.go:153` says that `FindIndex`
  answers -1 for an endpoint of no member; `ExactIffNoRemoval` proves that the index holds exactly the
  live hosts if and only if nothing was removed.
- The guard of stop-node compares the count before the stop, so a cluster can lose its quorum:
  `StopKeepsQuorumIff` says exactly when a stop keeps it, `QuorumIsLost` reaches the bound that
  `QuorumGuard` proves.
- A member whose server was never launched has a nil `srv`, which the program dereferences in
  `allMemberIDs`, `Restart`, `Stop`, `Remove` and, with the embedded client, in `Client`. The outcome
  `Panicked` (`NilServer` for one member) stands for that; `Add` can leave such a member behind, and then
  waiting for a leader panics as soon as some member runs.
- Names come from the size, so they can clash after a removal: `AlwaysDistinctIff` and `GrowthIff` say
  exactly when they do not, and `RemoveThenAdd` shows the shortest clash.
- A method is proved against a function of values, and what the source promises is said beside it in
  the source's own names, numbers and texts: `Says` for the bytes of `Marshal`, the struct's fields in
  `Unmarshal`, states and flags in the transitions, names and URLs in `Start` and `Add`.
- Answers of etcd, gRPC, the rate limiter, the file system, the clock and the random source are
  parameters. The configuration that etcd hands back is assumed to keep names and addresses.
- Lemmas carry `{:induction false}`: every proof is the one that is written.

## Model

| member | source | states |
|---|---|---|
| Varint.EncodeVarint | cluster/clusterpb/clusterpb.pb.go:147-155 | on a buffer with Sov(v) bytes left, writes exactly the canonical varint, returns the next offset, and touches no other byte |
| Varint.SovVarint | cluster/clusterpb/clusterpb.pb.go:195-204 | computes the number of bytes of the canonical varint |
| Varint.EncodeLength | cluster/clusterpb/clusterpb.pb.go:147-155 | encoder and sizer of a varint agree |
| Varint.SovIsLeast | cluster/clusterpb/clusterpb.pb.go:195-204 | the size is the least n with v < 128^n |
| Varint.SovUint64 | cluster/clusterpb/clusterpb.pb.go:195-204 | a uint64 needs 1 to 10 bytes |
| Varint.ReadVarint | cluster/clusterpb/clusterpb.pb.go:213-227 | the shift-and-or loop yields the digit sum modulo 2^width, the position after the varint, and the overflow or EOF error, with the digits read so far when it fails |
| Varint.ReadUint64 | cluster/clusterpb/clusterpb.pb.go:406-420 | the loop over 64 bits yields the digit sum modulo 2^64 |
| Varint.ReadUint32 | cluster/clusterpb/clusterpb.pb.go:454-468 | the Hash loop yields the low 32 bits of the digit sum |
| Varint.PassVarint | cluster/clusterpb/clusterpb.pb.go:512-524 | the loop that only passes over a varint ends where reading it would |
| Varint.ScanEncoded | cluster/clusterpb/clusterpb.pb.go:213-227 | reading inverts the canonical encoding of every uint64, whatever follows |
| Varint.ScanAccepts | cluster/clusterpb/clusterpb.pb.go:213-227 | reading accepts exactly 1 to 10 bytes with the top bit set on all but the last, over-long ones included, and yields the sum of the digits at their positions |
| FieldView.EncodedDigits | cluster/clusterpb/clusterpb.pb.go:147-155 | the canonical varint is well formed and its digits sum to the value |
| Refusals.ScanFailsIff | cluster/clusterpb/clusterpb.pb.go:214-220 | reading a varint fails exactly when none of the first ten bytes ends it, with EOF below ten bytes and overflow from ten on, keeping the digits read |
| Bits.OrStep | cluster/clusterpb/clusterpb.pb.go:223-223 | ORing a shifted digit into a 64- or 32-bit accumulator is adding it to the unbounded sum modulo 2^width |
| Bits.AndMask | backend/web/utils.go:37-37 | masking with 2^s - 1 is remainder by 2^s |
| Bits.BitsOf | cluster/clusterpb/clusterpb.pb.go:149-149 | the modelled bitwise OR and AND have exactly the bits of either and of both |
| Message.SizeOfFieldsIsLength | cluster/clusterpb/clusterpb.pb.go:156-193 | the sizes of fields add up to the length of their encoding |
| Codec.StatusMessage.Size | cluster/clusterpb/clusterpb.pb.go:156-193 | Size is the length of the canonical encoding |
| Codec.StatusMessage.MarshalTo | cluster/clusterpb/clusterpb.pb.go:65-127 | on a buffer of at least Size bytes, writes the canonical encoding, returns Size, leaves the later bytes alone; what it writes is one field per part of the struct that is not zero, in ascending order, each with that part's value |
| Codec.StatusMessage.Marshal | cluster/clusterpb/clusterpb.pb.go:55-63 | the result is the canonical encoding, which holds each non-zero part of the struct, by name, under its own number with its value (true as 1) and nothing else |
| Codec.Copy | cluster/clusterpb/clusterpb.pb.go:74-74 | copy moves as many bytes as fit; AppendText proves that all of them do |
| Codec.AppendText | cluster/clusterpb/clusterpb.pb.go:71-74 | appends tag, length and the whole text: the copy is complete |
| Codec.PutText | cluster/clusterpb/clusterpb.pb.go:70-75 | appends one string field to the fields written so far |
| Codec.StatusMessage.Unmarshal | cluster/clusterpb/clusterpb.pb.go:208-489 | on every input, leaves the struct as decoding does, on errors too; succeeds exactly on sequences of accepted fields, and then each part of the struct, by name, has the last value they give it |
| Codec.StatusMessage.UnmarshalField | cluster/clusterpb/clusterpb.pb.go:212-482 | one turn of the loop is one decoding step |
| Codec.StatusMessage.UnmarshalKnown | cluster/clusterpb/clusterpb.pb.go:236-468 | each of the nine cases checks its wire type and stores the decoded value in its own field |
| Codec.UnmarshalText | cluster/clusterpb/clusterpb.pb.go:241-265 | a length-delimited value, with the wrap of the end position |
| Codec.PassUnknown | cluster/clusterpb/clusterpb.pb.go:469-482 | an unknown field is passed over or rejected by the length it claims, with both wraps |
| Skip.SkipClusterpb | cluster/clusterpb/clusterpb.pb.go:490-588 | the recursive skipper computes the length of the first field, wrapped to an int, or its error |
| Skip.SkipToEndGroup | cluster/clusterpb/clusterpb.pb.go:549-577 | the group loop with its recursive calls finds the matching end |
| Skip.SkipGroupBound | cluster/clusterpb/clusterpb.pb.go:549-577 | a group never claims bytes past the end of the input |
| Grammar.SkipsTree | cluster/clusterpb/clusterpb.pb.go:490-588 | the skipper returns exactly the length of any well-formed field, groups nested to any depth, whatever follows |
| Grammar.ParsesTree | cluster/clusterpb/clusterpb.pb.go:490-588 | what the skipper accepts is a well-formed field |
| Grammar.SkipIffTree | cluster/clusterpb/clusterpb.pb.go:490-588 | the skipper accepts n bytes if and only if they are a sentence of the field grammar |
| Decode.DecodeFieldLocal | cluster/clusterpb/clusterpb.pb.go:211-483 | a field read completely is read the same whatever follows |
| Decode.DecodeConcat | cluster/clusterpb/clusterpb.pb.go:208-489 | after x decodes, x + y leads to exactly what y leads to from there, failures and what they leave behind included |
| Decode.DecodesField | cluster/clusterpb/clusterpb.pb.go:236-468 | a field as MarshalTo emits it sets that field and nothing else |
| Decode.AnyOrderMerges | cluster/clusterpb/clusterpb.pb.go:236-468 | single-field encodings in any order, repetitions included, decode over any message to the last-one-wins merge |
| Decode.AnyOrderDecodes | cluster/clusterpb/clusterpb.pb.go:65-127 | field order does not matter |
| Decode.RoundTrip | cluster/clusterpb/clusterpb.pb.go:55-127 | Unmarshal of Marshal gives back every message, zero fields included |
| Decode.EncodeInjective | cluster/clusterpb/clusterpb.pb.go:55-127 | different messages marshal differently |
| Decode.BackToBackMerges | cluster/clusterpb/clusterpb.pb.go:406-468 | two marshalled messages back to back decode to their merge over what was there |
| Language.AcceptedIff | cluster/clusterpb/clusterpb.pb.go:208-588 | Unmarshal accepts an input if and only if it is a sequence of well-formed fields with positive numbers, the nine known ones with their own wire types |
| Language.DecodesIff | cluster/clusterpb/clusterpb.pb.go:208-588 | an input decodes to a message if and only if it is such a sequence whose fields, read one after the other, stand for it |
| Language.ReadsField | cluster/clusterpb/clusterpb.pb.go:236-482 | an accepted field, over-long varints included, sets its own value or, if unknown, nothing |
| Language.DecodeFieldExact | cluster/clusterpb/clusterpb.pb.go:211-483 | a field read completely is read the same when the input ends with it |
| FieldView.EncodeSays | cluster/clusterpb/clusterpb.pb.go:65-127 | the canonical encoding is accepted fields in ascending order that say each part of the message that is not zero |
| FieldView.InterpretReads | cluster/clusterpb/clusterpb.pb.go:236-468 | reading accepted fields gives each part the last value under its number: texts as they are, the flag by being non-zero, the numbers cut to 64 and 32 bits |
| FieldView.DecodedReads | cluster/clusterpb/clusterpb.pb.go:208-489 | decoding succeeds exactly on sequences of accepted fields and reads what they say |
| Refusals.FieldNumberMeans | cluster/clusterpb/clusterpb.pb.go:228-228 | a field number is the int32 congruent to the bits above the wire type |
| Refusals.TagRefused | cluster/clusterpb/clusterpb.pb.go:230-239 | an end-group tag, a number that is not positive and a wrong wire type are refused, each with its error |
| Refusals.ValueCut | cluster/clusterpb/clusterpb.pb.go:406-468 | a value cut short leaves the message alone, but for the two unsigned fields, which keep the digits read |
| Refusals.SkipByWireType | cluster/clusterpb/clusterpb.pb.go:509-584 | what skipping makes of a field, by the wire type of its tag: the claimed length or the error |
| Refusals.GroupCut | cluster/clusterpb/clusterpb.pb.go:549-577 | a group that runs out behind well-formed fields ends in the error of the read that fails |
| UnknownFields.UnknownIffTree | cluster/clusterpb/clusterpb.pb.go:469-482 | a field with an unknown number is passed over, message unchanged, if and only if it is well formed |
| UnknownFields.SpliceUnknown | cluster/clusterpb/clusterpb.pb.go:469-482 | splicing any list of unknown fields in at a field boundary changes nothing in what decoding leads to |
| Minimal.DecodedSize | cluster/clusterpb/clusterpb.pb.go:156-204 | decoding adds at most the length of the input to the size of the message |
| Minimal.CanonicalIsShortest | cluster/clusterpb/clusterpb.pb.go:156-204 | whatever bytes decode to a message, its canonical encoding is no longer and decodes to it too |
| RuntimeSafety.PanicUnreachable | cluster/clusterpb/clusterpb.pb.go:587-587 | the panic that ends skipClusterpb is unreachable from Unmarshal |
| RuntimeSafety.RuntimeFailureIff | cluster/clusterpb/clusterpb.pb.go:208-588 | a bounds check fails at run time if and only if what precedes some field decodes and that field declares an end that is no int |
| RuntimeSafety.FieldFailsIff | cluster/clusterpb/clusterpb.pb.go:236-482 | for one field at any position: a string, an unknown length-delimited field or an unknown group fails exactly when it overruns |
| RuntimeSafety.GroupFailsIff | cluster/clusterpb/clusterpb.pb.go:549-577 | skipping a group fails on a bound exactly when well-formed fields lead to one, possibly nested, whose end is no int |
| RuntimeSafety.TextFieldOutcome | cluster/clusterpb/clusterpb.pb.go:241-265 | what a string field leads to, at any position and with any tag and length varints, by where its declared end lies |
| RuntimeSafety.DeclaredEndCanWrap | cluster/clusterpb/clusterpb.pb.go:260-264 | the check of the declared end can be passed by a sum that wrapped |
| Member.AfterCoherent | cluster/member.go:58-349 | every transition keeps flag and state in agreement and a stopped member without data |
| Member.FreshRunCoherent | cluster/member.go:58-349 | so does every sequence of actions and answers from a new member |
| Member.PollAllSettles | cluster/member.go:181-224 | waiting ends on the first answer that agrees with the server's leader, which is one of the members, and the status is then that answer's |
| Member.AgreedAtIff | cluster/member.go:181-224 | a turn ends the polling exactly when it is the first to agree and none before it still waits for a leader |
| Member.PollAllLast | cluster/member.go:194-221 | while nothing is settled the status is what the last answer makes of it |
| Member.AnswerMeans | cluster/member.go:203-219 | an answer sets the id, and flag and state by whether the member is the leader it names; no leader makes it a follower |
| Member.FirstLeadIff | cluster/member.go:182-192 | the inner loop finds the first leader that is not zero and a member, and none exactly when none is named |
| Member.WaitedEnds | cluster/member.go:154-226 | a member done waiting has settled on one of the members as leader; waiting never stops or starts a member |
| Member.Node.Start | cluster/member.go:35-68 | after a start the member follows, with its identity and data kept; after each failure the status is as it was |
| Member.Node.Restart | cluster/member.go:71-107 | a running member is left alone; a stopped one follows, identity kept, or stays as it was |
| Member.Node.Stop | cluster/member.go:110-151 | a stopped member is left alone; a running one is stopped, shows no data, and keeps name, id and endpoint |
| Member.Node.WaitForLeader | cluster/member.go:154-226 | how waiting ends, the nil server of any member and the reads that never succeed included, and the status it leaves |
| Member.Node.PollUntilAgreed | cluster/member.go:181-224 | the polling loop is the fold over the answers, up to the one that agrees |
| Member.AwaitLead | cluster/member.go:182-192 | the inner loop finds the first non-zero leader among the members |
| Member.Node.FetchMemberStatus | cluster/member.go:232-350 | a healthy answer makes the member leader exactly when its id is the leader's and fills every field; a failure stops it and keeps name, id and endpoint; the embedded client panics on a nil server |
| Registry.StartedConsistent | cluster/cluster.go:144-203 | Start's loop hands out consecutive port pairs and indexes every host |
| Registry.AddedConsistent | cluster/cluster.go:273-311 | Add keeps the registry consistent |
| Registry.RemovedConsistent | cluster/cluster.go:361-372 | so does Remove with its rebuilt index |
| Registry.RunConsistent | cluster/cluster.go:243-383 | so does every sequence of additions and removals |
| Registry.PortsDistinct | cluster/cluster.go:288-289 | all client and peer ports are distinct and below basePort |
| Registry.PortsNeverReused | cluster/cluster.go:288-289 | later members listen on ports that no member had, removed ones included |
| Registry.AddedNamesIff | cluster/cluster.go:263-263 | adding keeps the names different if and only if no member is numbered one above the size |
| Registry.AlwaysDistinctIff | cluster/cluster.go:243-383 | names stay different over a run if and only if no addition of it finds such a member |
| Registry.GrowthIff | cluster/cluster.go:263-263 | they stay different however many members are added if and only if no number is above the size |
| Registry.RemoveThenAdd | cluster/cluster.go:243-383 | after a start, removing one and adding one makes names clash unless the last was removed |
| Registry.RemovedNotExact | cluster/cluster.go:370-372 | the removed host keeps the index it had |
| Registry.ExactIffNoRemoval | cluster/cluster_other.go:153-160 | the index holds exactly the live hosts after a run if and only if the run removed nothing |
| InitialCluster.SplitJoin | cluster/cluster_other.go:16-16 | splitting undoes joining |
| InitialCluster.ReadsBack | cluster/cluster_other.go:11-17 | splitting at ',' and then '=' gives the ordered names and peer URLs |
| Cluster.Cluster.InitialClusterString | cluster/cluster_other.go:11-17 | the loop builds the initial-cluster string of the present members |
| Cluster.Cluster.ShareInitialCluster | cluster/cluster.go:205-207 | afterwards every member holds that string, and nothing else changed |
| Cluster.Cluster.InitialClusterReadsBack | cluster/cluster_other.go:11-17 | the string of a valid cluster reads back as its names and peer addresses |
| Cluster.Cluster.AllMemberIDs | cluster/cluster_other.go:26-33 | the ids of all servers, or the panic exactly when a member has none |
| Cluster.Cluster.Build | cluster/cluster.go:102-207 | the cluster before launch: names, URLs with the schemes of the settings, ports, index, stopped members, one string |
| Cluster.Scheme | cluster/cluster.go:67-85 | http exactly without TLS material and auto TLS, https otherwise |
| Cluster.Cluster.Start | cluster/cluster.go:90-221 | which error and when, in order; otherwise a valid cluster with all members up, their names and URLs by the settings, and one leader at most when no error is returned |
| Cluster.Cluster.WaitForLeader | cluster/cluster.go:409-438 | each error exactly when its cause is present, the panic exactly when a member runs and a member has no server; on success leadIdx is the one leader |
| Cluster.CauseOfEnds | cluster/cluster.go:411-420 | each way in which waits end occurs exactly when a member has its cause |
| Cluster.Cluster.ScanLeaders | cluster/cluster.go:426-437 | an error exactly when two members claim to lead; leadIdx is the first that does |
| Cluster.Cluster.Add | cluster/cluster.go:243-337 | the registry grows by one member whatever the outcome: its name, URLs, ports, index, status and server; each error has its cause; names stay different exactly when the new number is free |
| Cluster.Cluster.Remove | cluster/cluster.go:340-383 | the registry shrinks or is left alone; the member stopped is the one that moved into the place, never the removed one, and shows no data; each panic has its cause |
| Cluster.Cluster.ActiveNodeN | cluster/cluster_other.go:122-134 | counts the members that are not stopped |
| Cluster.ActiveIsCount | cluster/cluster_other.go:122-134 | the count is the number of members whose state is not Stopped |
| Cluster.Quorum | cluster/cluster_other.go:114-119 | the quorum is the least majority |
| Cluster.Cluster.FindIndex | cluster/cluster_other.go:154-160 | a live member's host answers its position; -1 exactly for hosts not indexed |
| Handler.StopNodeRequest | backend/web/handler.go:479-510 | reply and statuses after a stop request, checks in order: limiter, more than half running, stopped already, the panic on a member without a server; an accepted stop stops that member alone |
| Handler.RestartNodeRequest | backend/web/handler.go:511-542 | reply and statuses after a restart request, checks in order; an accepted restart makes that member alone a follower |
| Handler.RequestEffect | backend/web/handler.go:488-542 | an accepted stop lowers the running count by one, a restart raises it, all else changes nothing |
| Handler.StopAcceptedIff | backend/web/handler.go:488-504 | an allowed stop of a running member is accepted exactly when more than half the members run |
| Handler.StopKeepsQuorumIff | backend/web/handler.go:488-493 | an accepted stop keeps a quorum exactly when more than a quorum ran |
| Handler.QuorumGuard | backend/web/handler.go:488-536 | from all members running, no run of requests goes below quorum - 1: one more member would always be a majority |
| Handler.QuorumIsLost | backend/web/handler.go:488-493 | that bound is reached, and then every further stop is rejected |
| Handler.RunsStayCoherent | backend/web/handler.go:479-542 | requests keep every status coherent |
| Random.RandBytes | backend/web/utils.go:30-45 | the result is the accepted letters of the digit stream of the draws, filled from the end |
| Random.DrawnBackwards | backend/web/utils.go:33-44 | read from last to first, it is the first bytesN accepted letters |
| Random.StreamAt | backend/web/utils.go:33-42 | the digit stream by position: ten digits of six bits from each draw, lowest first |
| Random.LetterOf | backend/web/utils.go:37-38 | digits below 26 are small letters, below 52 capital ones, the others are dropped |
| Random.LettersConcat | backend/web/utils.go:36-42 | kept letters stay in the order of their digits |
| Random.MultiRandStrings | backend/web/utils.go:47-59 | sliceN distinct strings, each with its prefix, text and number, in exactly sliceN calls |
| Random.NumberedDiffer | backend/web/utils.go:52-53 | the duplicate test never rejects |
| Random.MultiRandKeyValues | backend/web/utils.go:61-69 | distinct keys and distinct values, paired in order |
| Decimal.ToStringInjective | backend/web/utils.go:52-52 | different numbers print differently |
| Decimal.SignedReadsBack | backend/web/utils.go:52-52 | decimal printing reads back as the number |

## Left out

- Codec.StatusMessage.Size: the sum is not wrapped to an int, because a message whose encoding is that long does not fit in memory.
- Codec.StatusMessage.Unmarshal: inputs longer than the 48-bit address space, which no slice is.
- Cluster.Cluster.Start: members start and wait one after the other here, at once in the source; each touches only its own status.
- Handler.QuorumGuard: status polls between requests, which can mark a member stopped without a request, and changes of membership.
- UpdateMemberStatus, which calls FetchMemberStatus of every member and recovers from its panics.
- Goroutine interleavings, locks and Shutdown: each transition is one step.
- Random.RandBytes: the draws must hold enough accepted digits; the source would go on drawing for ever.
- Negative sizes given to Start, randBytes or multiRandStrings, on which the source panics when it allocates.
- Client, HTTP, JSON, write/get/delete requests, visit counting, rate limiting, TLS material, data directories, wall-clock text beyond the strings passed in, and the frontend.
- encodeFixed64Clusterpb, encodeFixed32Clusterpb, sozClusterpb and the descriptor bytes, which this message does not use.
- getHost: url.Parse is not part of this model; FindIndex takes the host.

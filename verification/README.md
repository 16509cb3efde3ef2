# A verified model of the packet, call and leg bookkeeping

The program captures packets, reassembles IPv4 datagrams and TCP streams, exchanges packets with other
agents in the HEP3 encapsulation, keeps the SIP calls that it finds in a sorted and indexed list, and tells a server
which legs belong to which call. This project models that bookkeeping in Dafny and proves what it promises.

| file | what it models |
|---|---|
| `Common.dfy` | bytes, C strings, filters, bit operations, and the one induction principle for runs (`RunKeeps`) |
| `Vector.dfy` | the growable array of `src/vector.c`, its sorted append and its iterators |
| `HashTable.dfy` | the chained table of `src/hash.c`, with linked heap nodes |
| `Call.dfy` | SIP messages, the dialog state machine and the sort attributes of `src/sip_call.c` |
| `CallStore.dfy` | the call list and its index in `src/sip.c` |
| `CallRuns.dfy` | what the counts of the call list say after a run |
| `Group.dfy` | the chronological traversal of `src/group.c` |
| `KeyedList.dfy` | lists with at most one item per key, which both reassemblers keep |
| `Packet.dfy` | the packets of `src/packet.c` |
| `IpReassembly.dfy` | `capture_packet_reasm_ip` in `src/capture.c`, on the octets of IPv4 headers |
| `IpHeaders.dfy` | IPv4 headers as section 3.1 of RFC 791 lays them out, and datagrams cut into such frames |
| `RepeatedFragments.dfy` | the same function when fragments arrive more than once |
| `RepeatedRuns.dfy` | the same for runs with several datagrams |
| `SipFraming.dfy` | `sip_validate_packet` in `src/sip.c` |
| `SipMessages.dfy` | SIP messages written line by line, decimal numbers, and what the scanners match |
| `TcpReassembly.dfy` | `capture_packet_reasm_tcp` in `src/capture.c` |
| `Hep3.dfy` | the HEP3 sender and receiver of `src/capture_eep.c` |
| `HepWire.dfy` | the octets of a HEP3 packet, position by position, and packets that the receiver refuses |
| `ChunkOrder.dfy` | when the order of HEP3 chunks does not matter to the receiver |
| `LegStore.dfy` | the leg store with its two backlogs, and the update list, in `src/state.cpp` |
| `LegRoles.dfy` | log lines that change the roles of legs: which of them strand data in the store |
| `LegRuns.dfy` | what the leg store holds and tells after a run, told from the updates of the run alone |
| `LineFilter.dfy` | the de-duplication of log lines in `src/state.cpp` |
| `KeyDerivation.dfy` | `P_hash`, `PRF` and the key block in `src/capture_gnutls.c` |

Objects that the program changes in place are classes, and each of their methods is proved to do to the object's
abstract value what a function says. The theorems are about those functions. A theorem about whole runs uses a step
function, a condition that every step meets (`AllOk`), and an invariant; `RunKeeps` is the induction.

What the main results need from their inputs, and why:

- **IPv4 reassembly.** Datagrams with different keys are cut into non-empty, fully captured fragments that lie end to
  end (`WellCut`). `ReassemblyIsExact` needs that no fragment arrives twice. For arrivals with any repetitions,
  `CompletenessExactly` gives the condition: the packet assembles exactly when the last fragment is there and all
  arrivals together are as long as the datagram. With every fragment there, that holds exactly when none came twice.
  `EveryReturn` says for every run, with any interleaving, which calls return and what: the octets of the fragments that
  arrived since the last return, and zeros in place of the others. Once more octets have arrived than the datagram has,
  it is not returned until the 32-bit counter wraps around (`TooMuchNeverAgrees`), and the theorems stop there.
  `RepeatedFragmentLeavesHole` is an input. Frames without twenty octets behind the link header are treated as
  ones that the function rejects.
  `IpHeaders.dfy` starts from the other end: headers written octet by octet, with any options, over data cut in
  multiples of eight octets. `CutAndReassembled` says that whatever is cut so comes back.
- **TCP.** A segment adds its octets to those of its flow exactly when it is appended (`Appends`): nothing is pending
  and it comes in one frame, or its sequence number lies behind that of the pending packet; and the packet stays within
  the size limit. `AdvanceConservesExactly` proves both directions in every run; the only other way to keep the
  account is a segment that is put first where the order makes no difference. Conservation holds for flows
  whose segments are all appended (`Follows`), whatever other flows do; positive, increasing sequence numbers and
  first segments in one frame are enough (`IncreasingFollows`). Framing needs more, and `FramedExactly` says what: in
  such a run, every segment returns its message on time exactly when each finds the right fate (`FramesRight`). Within
  the size that the validation reads, a PSH segment has to find a start line, since the code returns what is no SIP
  with PSH; a larger packet is only returned with PSH, and as a whole. A first segment that was itself cut into IP
  fragments comes in several frames, and then its payload is joined to itself (`FragmentedSegmentIsDoubled`); a later
  one is appended like any other. A message is well formed when its Content-Length line is in the header and has fewer
  than ten digits, it has no NUL octet, and its body is empty or ends in CRLF, which is what the code looks at before it
  splits a payload.
- **HEP3.** The announced length has 16 bits; `LengthAnnounced` says exactly when it is right. The round trip needs
  numbers that fit their fields, version 4 or 6, and a password that leaves room for a terminating NUL in
  the receiver's buffer of 100 octets. A password passes when the receiver's password is a prefix of it.
  The order of the chunks, and chunks of other vendors, are irrelevant if no variable is set twice and the family and
  protocol chunks are there. Where no password is asked for, the latter is necessary (`IndependentExactly`): otherwise
  version or protocol is read from whatever octets come first, even those of a chunk that the receiver ignores
  (`VersionFromIgnoredChunk` has two packets).
- **Leg store.** The deterministic run theorems assume that the clock does not go back, that each egress leg keeps its
  ingress leg, and that no leg plays both roles (`Proper`). Without these roles, the order in which the code forgets
  groups of equal age matters, so `Updates` relates a store to all that the code may make of an update.
  `LineIsSafeExactly` says which lines cost legs the entries that end their data, with a guard that the store could
  check first (`KeepsTimers`): a known egress leg is given another ingress leg while the group of the first one has
  no entry, or a new pair makes a chain of three legs. Lifetimes may be zero. Data stranded in this way stays until an
  update names the leg or renews a group of it (`StrandedForLong`). `RemappingFromEmpty` and `ChainFromEmpty` are runs
  from the empty store in which this happens. What is stored about a leg, and told about it, is said from the lines and
  captured calls alone, in runs that change roles too (`InfoIsLatest`, `SipIsLatest`, `LeftIsFirst`, `Serve`); which
  data an update leaves is exact where the roles are kept (`StoredExactly`).
- **Rotation.** The list outgrows its limit exactly when a new call finds it full of locked calls (`OutgrowsExactly`,
  `WithinExactly`); fewer locks than the limit rule that out (`FewLocksAreSafe`). The code rotates only when the number
  of calls equals the limit, so a list beyond its limit grows with every new call, locked calls or not, until it is
  cleared or rotated directly (`BeyondGrows`, `BeyondExactly`).
- **Key derivation.** HMAC is a parameter. The seed is at least as long as the digests in use and a digest has at
  most 48 octets, because the C code copies both into buffers of these sizes. From TLS 1.2 on any secret will do. Before, the
  code reads the second half of the secret from behind the first one: `AgreeExactly` says when the result is that of
  the RFCs, and `HalvesExactly` that this is guaranteed exactly for secrets of even length, as both callers' are.

Where code and documentation disagree, the model follows the code. The header of `PRF` (`src/capture_gnutls.h`)
cites RFC 2246 alone; from TLS 1.2 on the code expands secrets as RFC 5246 says, with SHA-256 for the suites whose digest
is SHA-1. A HEP3 capture agent id sits in the first two octets of its 32-bit field, where the code puts it on a
little-endian host.

## Model

| member | source | states |
|---|---|---|
| `Common.BitAndMask` | src/hash.c:142 | masking with a power of two less one takes the remainder |
| `Common.BitwiseExactly` | src/capture_gnutls.c:157-158 | bit by bit, what the model's AND and XOR of unsigned numbers are |
| `Vectors.PlaceKeepsSorted` | src/sip.c:1004-1028 | one run of a sorter that follows a total preorder keeps a sorted array sorted |
| `Vectors.PlacePermutes` | src/vector.c:141-173 | a sorted append adds the item and loses none |
| `Vectors.PlaceAllSorts` | src/vector.c:85-108 | cloning a vector of distinct items through its sorter sorts it |
| `Vectors.RepeatedItemStays` | src/vector.c:85-108 | a vector that holds one item twice need not be sorted by a clone: an input with a strict sorter |
| `Vectors.PlaceAllPermutes` | src/vector.c:85-108 | the clone holds the same items |
| `Vectors.PlaceAllDistinct` | src/vector.c:85-108 | the clone of distinct items has distinct items |
| `Vectors.PlaceIsStable` | src/capture.c:1279-1301 | a sorter that stops at an item that is not newer keeps items of one time in arrival order |
| `Vectors.PlaceAllIsStable` | src/group.c:323-345 | the whole merge keeps items of one time in arrival order |
| `Vectors.Vector.Append` | src/vector.c:141-173 | the items after an append are those before with the new one where the sorter puts it, across growth; a null item changes nothing |
| `Vectors.Vector.RunSorter` | src/group.c:323-345 | the sorter loop moves the last item to behind the last item that it must not pass |
| `Vectors.Vector.Insert` | src/vector.c:190-212 | shifts the items between the position and the end; refuses positions out of range and a filled position |
| `Vectors.Vector.Remove` | src/vector.c:215-235 | removes the first occurrence and closes the gap |
| `Vectors.Vector.Clear` | src/vector.c:133-139 | removing the first item again and again ends with an empty vector |
| `Vectors.Vector.Index` | src/vector.c:283-293 | the position of the first occurrence, or -1 exactly when there is none |
| `Vectors.Clone` | src/vector.c:85-108 | the clone is what appending all items through the sorter gives |
| `Vectors.CopyIf` | src/vector.c:110-131 | the copy holds exactly the items that pass, in order, and has no sorter |
| `Vectors.AppendVector` | src/vector.c:175-188 | appends all items of the other vector through the sorter |
| `Vectors.IteratorNext` | src/vector.c:338-356 | the first passing item behind the current one, or the end |
| `Vectors.IteratorPrev` | src/vector.c:358-376 | the last passing item before the current one, or none |
| `Vectors.PrevUndoesNext` | src/vector.c:338-376 | stepping back from where a step forward led returns to the start |
| `HashTables.Slot` | src/hash.c:134-143 | the bucket is in range for every table size of at least one |
| `HashTables.SlotOfPowerOfTwo` | src/hash.c:142 | for sizes that are powers of two the mask is the remainder |
| `HashTables.FirstNeverCounts` | src/hash.c:139-141 | keys that differ in their first character alone have the same hash |
| `HashTables.HashOfNone` | src/hash.c:138-142 | the empty key has the initial hash |
| `HashTables.HashOfOne` | src/hash.c:138-141 | every key of one character has the hash 177573 |
| `HashTables.HashOfTwo` | src/hash.c:138-141 | the hash of every key of two characters, whose second one may be negative |
| `HashTables.HashTable.Hash` | src/hash.c:134-143 | the loop computes the bucket in wrapping arithmetic |
| `HashTables.HashTable.Insert` | src/hash.c:64-91 | insert enqueues under its key and leaves every other key's queue alone |
| `HashTables.HashTable.Find` | src/hash.c:115-132 | find returns the head of the key's queue, or nothing when it is empty |
| `HashTables.HashTable.Remove` | src/hash.c:93-113 | remove drops the head of the key's queue and leaves every other key's queue alone |
| `Calls.Call.UpdateState` | src/sip_call.c:197-246 | the dialog after the new message is the one that all messages determine |
| `Calls.Call.AddMessage` | src/sip_call.c:103-112 | appends the message and gives it its index |
| `Calls.InCallExactly` | src/sip_call.c:208-233 | a call is in conversation exactly when an INVITE was answered by an ACK of the same CSeq before anything else decided it, and no BYE followed |
| `Calls.BackInCallNeedsInvite` | src/sip_call.c:234-238 | a call that ended comes back into conversation only through another INVITE and its ACK |
| `Calls.CompletedHistory` | src/sip_call.c:228-233 | a completed call has a start message before its end message, which is the first BYE |
| `Calls.EndedHistory` | src/sip_call.c:215-227 | a cancelled, busy, rejected or diverted call names the message that caused it |
| `Calls.NoStateExactly` | src/sip_call.c:202-203 | a call has no state exactly without messages or when it did not begin with an INVITE |
| `Calls.SetupExactly` | src/sip_call.c:209-245 | a call is being set up exactly while an INVITE is pending |
| `Calls.StartExactly` | src/sip_call.c:211-214 | in every state, the start message is the last ACK that answered a pending INVITE, and missing exactly when there was none |
| `Calls.EndExactly` | src/sip_call.c:229-232 | in every state, the end message is the last BYE that ended a conversation, and missing exactly when there was none |
| `Calls.InviteCseqExactly` | src/sip_call.c:234-244 | in every state, the stored CSeq is that of the last INVITE that opened a setup |
| `Calls.AttrCompareOrders` | src/sip_call.c:322-367 | the comparison is antisymmetric and transitive |
| `Calls.StrCmpExactly` | src/sip_call.c:346-366 | the text comparison is that of a dictionary: the first different octet decides, or the end of the shorter text |
| `Calls.AttrCompareExactly` | src/sip_call.c:322-367 | numbers are compared by size and texts by their place in a dictionary |
| `Calls.StateOrder` | src/sip_call.c:300-320 | states are sorted by their names |
| `CallStores.CallStore.Find` | src/sip.c:530-534 | the index returns the listed call with the Call-ID, or nothing exactly when there is none |
| `CallStores.CallStore.CheckPacket` | src/sip.c:366-449 | a message goes to its listed call, or to a new one that is listed and indexed after at most one rotation; the store stays consistent, all dialogs stay where their messages have brought them, messages, dialogs and locks of other calls are untouched, and a list in the order of a fixed attribute stays in order |
| `CallStores.CallStore.Run` | src/sip.c:366-449 | in every run of message arrivals, rotations, clears, soft clears, re-sorts and locks, the index stands for the list, Call-IDs and indices are unique, dialogs track their messages, calls only gain messages, an order by index or Call-ID stays, and the counts of listed, locked, created, rotated and cleared calls move as each operation says |
| `CallRuns.NoCallIsLost` | src/sip.c:385-447 | without clears, every call created in a run is listed or was rotated away |
| `CallRuns.OutgrowsExactly` | src/sip.c:385-387 | an operation takes the list beyond its limit exactly when a new call finds it full of locked calls |
| `CallRuns.WithinExactly` | src/sip.c:385-387 | in every run the list stays within its limit exactly when that never happens |
| `CallRuns.BeyondExactly` | src/sip.c:385-387 | in every run the list is beyond its limit exactly when that happened and nothing since has brought it back |
| `CallRuns.BeyondGrows` | src/sip.c:385-387 | a list beyond its limit is not rotated by messages: it grows by every new call |
| `CallRuns.FewLocksAreSafe` | src/sip.c:815-830 | with fewer locks than the limit, the list stays within it |
| `CallRuns.Session` | src/sip.c:366-449 | a run on a new store: the bound and the account of all calls, from conditions on the operations |
| `CallRuns.JamFromNew` | src/sip.c:385-387 | a new store with limit one holds two calls after a call, a lock and another call |
| `CallStores.CallStore.Rotate` | src/sip.c:815-830 | the first unlocked call leaves the list and the index |
| `CallStores.CallStore.Clear` | src/sip.c:782-792 | an empty list with an empty index |
| `CallStores.CallStore.ClearSoft` | src/sip.c:794-813 | the list keeps exactly the calls that the filter shows, and the new index agrees with it |
| `CallStores.CallStore.SortList` | src/sip.c:988-1002 | the list is a permutation of itself in the order of the sort options, and the index stands |
| `CallStores.CallStore.SetSortOptions` | src/sip.c:975-980 | changing the options sorts the list anew |
| `CallStores.CallStore.ListCall` | src/sip.c:441-445 | the new call is inserted where the sorter puts it; a list in order stays in order |
| `CallStores.RotationSparesLocked` | src/sip.c:815-830 | rotation never removes a locked call and removes at most one |
| `CallStores.VictimIsFirst` | src/sip.c:818-821 | all calls before the one that leaves are locked |
| `CallStores.RoomIsFullExactly` | src/sip.c:385-387 | a new call makes the list outgrow its limit exactly when it is beyond it already or full of locked calls; beyond the limit nothing is rotated |
| `CallStores.RoomInOrder` | src/sip.c:385-387 | rotation keeps a list in the order of an attribute that never changes |
| `CallStores.ListedAfterAppend` | src/sip.c:393-400 | a call with a new Call-ID adds one answer to the search and changes no other |
| `CallStores.ListedAfterRemoval` | src/sip.c:821-826 | dropping a call drops the answer for its Call-ID and no other |
| `CallStores.SortedCallListed` | src/sip.c:441-445 | where the sorter puts a call is nothing to the search by Call-ID |
| `CallStores.ClonedCalls` | src/sip.c:988-1002 | a sorted clone lists the same calls with the same unique Call-IDs and indices |
| `CallStores.AppendedInOrder` | src/sip.c:1004-1028 | a sorted append keeps a list in the order of the sort options in that order |
| `CallStores.AppendAllInOrder` | src/sip.c:988-1002 | cloning puts any list into the order of the sort options |
| `CallStores.OrderMeans` | src/sip.c:1004-1028 | for every sort attribute and direction, which lists are in order, in terms of the calls' indices, message counts, Call-IDs and states |
| `CallStores.SkippedExactly` | src/sip.c:366-383 | which messages may open a call |
| `Groups.Group.GetNextMsg` | src/group.c:223-256 | the next shown message of the merged timeline; the recursion ends |
| `Groups.Group.GetPrevMsg` | src/group.c:258-293 | the previous shown message of the merged timeline; the recursion ends |
| `Groups.Group.Merge` | src/group.c:234-240 | appending all calls through the time sorter builds the timeline |
| `Groups.TraversalVisitsAll` | src/group.c:223-256 | stepping from null visits every shown message of every call exactly once and ends |
| `Groups.TraversalIsChronological` | src/group.c:323-345 | it visits them in the order of their times |
| `Groups.TraversalIsStable` | src/group.c:323-345 | messages of one time come in the order of the calls and of their messages |
| `Groups.SingleCallInOrder` | src/group.c:228-232 | with a single call the traversal visits its shown messages in the order in which they arrived |
| `Groups.AllToAt` | src/group.c:236-240 | the messages that are merged: those of each call behind those of the calls before it, in their order |
| `Groups.VisitsExactly` | src/group.c:250-253 | the traversal visits exactly the messages of all calls, or those with SDP |
| `Groups.UnknownSteps` | src/group.c:228-246 | from a message that is not in the group a step forward starts over and a step back leads nowhere; so does a step back from null in a single call |
| `Groups.PrevUndoesNextStep` | src/group.c:258-293 | stepping back undoes each step forward, the first one included |
| `Groups.PrevFromEnd` | src/group.c:279-283 | stepping back from the end starts at the last shown message |
| `Packets.Packet.constructor` | src/packet.c:34-48 | a new packet has the given addresses, no frames and no payload |
| `Packets.Packet.Clone` | src/packet.c:50-67 | a new packet with the same addresses, type, frames and sequence number and without payload |
| `Packets.Packet.AddFrame` | src/packet.c:117-127 | appends a frame |
| `Packets.Packet.SetPayload` | src/packet.c:135-151 | replaces the payload |
| `IpReassembly.SumInBound` | src/capture.c:662-685 | the captured length reaches the expected one exactly when every fragment has arrived |
| `IpReassembly.AssemblesExactly` | src/capture.c:684-710 | the two counters agree, and the lengths read again add up to the datagram, exactly when every fragment has arrived |
| `IpReassembly.FragmentExactly` | src/capture.c:634-640 | a fragment is told from a whole datagram exactly when there are several |
| `IpReassembly.PendingStep` | src/capture.c:634-757 | one fragment moves its own datagram on and no other |
| `IpReassembly.BlitIsPayload` | src/capture.c:712-742 | copying all fragments to their offsets rebuilds the datagram, whatever their order |
| `IpReassembly.ResultExactly` | src/capture.c:634-757 | a call returns exactly when the last missing fragment arrives, and then the original octets |
| `IpReassembly.ReassemblyIsExact` | src/capture.c:634-757 | in every run, for every arrival order and interleaving, exactly the last missing fragment returns its datagram, and nothing of it stays pending |
| `IpReassembly.ReturnedExactlyOnce` | src/capture.c:634-757 | of all calls of a run, exactly one returns a packet of a datagram all of whose fragments arrive, with its octets |
| `IpReassembly.PassedOver` | src/capture.c:600-627 | frames without a whole IP header, of another version, or with a datagram that is too large are passed over |
| `IpHeaders.HeaderIsRead` | src/capture.c:569-582 | every header laid out by section 3.1 of RFC 791, with any options, is read as it was written: all lengths, identifications, flags and offsets, protocol and addresses |
| `IpHeaders.WholeIsReturned` | src/capture.c:604-640 | a whole datagram under such a header is returned at once, with the size of its data |
| `IpHeaders.CutIsWellCut` | src/capture.c:634-757 | data cut in multiples of eight octets under such headers is well cut |
| `IpHeaders.CutAndReassembled` | src/capture.c:634-757 | for all datagrams cut so, in every arrival order and interleaving, the call for each frame returns exactly when it is the last missing one, and then the data of all parts and their protocol |
| `RepeatedFragments.SumAllAtLeast` | src/capture.c:662-663 | the captured length counts repeated fragments again, and is too large exactly when there are any |
| `RepeatedFragments.CompletenessExactly` | src/capture.c:662-710 | for every sequence of arrivals, the packet assembles exactly when the counters agree; with every fragment there, exactly when none came twice; without, only when one did |
| `RepeatedFragments.ResultWithHoles` | src/capture.c:684-757 | a packet that assembles holds the octets of the fragments that came, and zeros elsewhere |
| `RepeatedFragments.FirstReturn` | src/capture.c:634-757 | from any list of pending packets, the first call that returns is the first one whose arrivals make the counters agree, and it returns these octets |
| `RepeatedRuns.PendingIs` | src/capture.c:634-757 | in every run, with any interleaving and repetitions, what is pending for a datagram is what arrived of it since it was last returned |
| `RepeatedRuns.EveryReturn` | src/capture.c:634-757 | in every such run, each call returns exactly when these arrivals make the counters agree, and then their octets and zeros elsewhere |
| `RepeatedRuns.TooMuchNeverAgrees` | src/capture.c:662-684 | once more octets have arrived than the datagram has, nothing further makes the counters agree |
| `RepeatedFragments.RepeatedFragmentLeavesHole` | src/capture.c:684-742 | three fragments of eight octets of ones: the first, the first again and the last give twenty-four octets with zeros in the middle |
| `IpReassembly.IpReassembler.Reassemble` | src/capture.c:479-758 | the method does to the list and the packet buffer what one step of the run does |
| `IpReassembly.IpReassembler.CopyFragments` | src/capture.c:715-742 | the copy loop writes every fragment to its offset |
| `IpReassembly.IpReassembler.FindPacket` | src/capture.c:642-650 | the first pending packet with source, destination and identification |
| `SipFraming.Skip` | src/sip.c:284-306 | the end of a run of octets of one class |
| `SipFraming.FirstCl` | src/sip.c:290-297 | the first Content-Length line of a payload |
| `SipFraming.FirstBlank` | src/sip.c:299-306 | the first blank line of a payload |
| `SipFraming.Validate` | src/sip.c:263-326 | a payload with several messages is cut inside itself |
| `SipFraming.HeaderAgrees` | src/sip.c:290-306 | a payload that shows the header of a message shows its Content-Length and its end |
| `SipFraming.VerdictShort` | src/sip.c:284-311 | a payload that ends before its message is partial if it begins with a start line, and otherwise not SIP |
| `SipFraming.VerdictLong` | src/sip.c:308-325 | a payload that shows a whole message is complete, or is cut exactly where the message ends |
| `SipFraming.VerdictExactly` | src/sip.c:263-326 | the verdict tells whether the first message is there and where it ends, for every part of a stream |
| `SipFraming.ShortestIsWellFormed` | src/sip.c:284-325 | a request line, a Content-Length line in its short form and no body make a well-formed message |
| `SipMessages.StartExactly` | src/sip.c:200 | the start line test accepts exactly what the regular expression matches, for requests and responses |
| `SipMessages.ClExactly` | src/sip.c:201 | the Content-Length test accepts exactly what the regular expression matches |
| `SipMessages.NumberOfDecimal` | src/sip.c:296-297 | the number read from the decimal digits of n is n |
| `SipMessages.RequestLineStarts` | src/sip.c:200 | a method, a URI with its scheme and whatever follows is a start line |
| `SipMessages.StatusLineStarts` | src/sip.c:200 | `SIP/2.0`, a status code of three digits and whatever follows is a start line |
| `SipMessages.VerdictOfMessage` | src/sip.c:263-326 | for every message written line by line, with any header fields around a Content-Length line of any number below ten to the ninth: the verdict in terms of that number and the length of the body, and whether the message is well-formed |
| `SipMessages.MessageIsComplete` | src/sip.c:263-326 | every such message whose Content-Length is that of its body, which is empty or ends in CRLF, is well-formed and complete |
| `KeyedLists.PutLookup` | src/capture.c:779-793 | storing a packet changes what is pending for its flow or datagram and for no other |
| `KeyedLists.DropLookup` | src/capture.c:839-863 | removing a packet changes what is pending for its flow or datagram and for no other |
| `TcpReassembly.ListStep` | src/capture.c:760-866 | a segment moves its own flow on and no other, and at most one packet per flow is pending |
| `TcpReassembly.FateConserves` | src/capture.c:800-865 | whatever the verdict, what is returned and what stays are the octets before and those of an appended segment |
| `TcpReassembly.FateHolds` | src/capture.c:779-798 | whatever is returned or stays holds the frames of all segments in the order in which they came, and their greatest sequence number |
| `TcpReassembly.EmptySegmentPasses` | src/capture.c:768-770 | a segment without payload is returned at once with its frames and changes nothing |
| `TcpReassembly.ExtendedIs` | src/capture.c:779-824 | the octets after joining: appended, put first, joined to itself or too many |
| `TcpReassembly.ConservesExactly` | src/capture.c:779-865 | a segment keeps the account of its octets exactly when it is appended, or is put first where the order makes no difference |
| `TcpReassembly.AdvanceConservesExactly` | src/capture.c:760-866 | the same for the next segment of every run whose account is right so far |
| `TcpReassembly.BytesAreConserved` | src/capture.c:760-866 | in every run that appends the segments of a flow, returned and pending octets are exactly those that arrived |
| `TcpReassembly.IncreasingFollows` | src/capture.c:806-812 | segments with positive, increasing sequence numbers are appended |
| `TcpReassembly.FateFrames` | src/capture.c:826-865 | an appended segment returns the message exactly when its last octet is there if and only if it finds the right fate |
| `TcpReassembly.FramedExactly` | src/capture.c:760-866 | in every run that appends the segments of a flow, all messages are returned on time exactly when each segment finds the right fate |
| `TcpReassembly.MessagesAreFramed` | src/capture.c:760-866 | for every segmentation and interleaving in which each segment finds the right fate, a prefix of the messages is returned and exactly the rest is pending |
| `TcpReassembly.SegmentReturnsExactly` | src/capture.c:836-865 | in such a run a segment returns the next message exactly when it brings the data to that message's end, and nothing otherwise |
| `TcpReassembly.OneSegmentRun` | src/capture.c:800-842 | a run that meets the conditions: a message in one segment is returned at once and nothing is pending |
| `TcpReassembly.FragmentedSegmentIsDoubled` | src/capture.c:800-824 | a first segment that comes in several frames is joined to its own payload: one of the inputs outside of the condition |
| `TcpReassembly.ValidatePacket` | src/sip.c:263-326 | with several messages the packet's payload is cut to the first |
| `TcpReassembly.TcpReassembler.Reassemble` | src/capture.c:760-866 | the method does to the list of packets what one step of the run does, and returns what it returns |
| `TcpReassembly.TcpReassembler.FindPacket` | src/capture.c:772-777 | the first pending packet of the flow |
| `TcpReassembly.TcpReassembler.KeepRest` | src/capture.c:846-852 | what the returned packet does not keep goes back into the list |
| `Hep3.ScanAppliesAll` | src/capture_eep.c:754-842 | the parser loop over the octets of sound chunks takes them one by one and ends |
| `Hep3.OrderIsIrrelevant` | src/capture_eep.c:754-842 | permuting the chunks and inserting chunks of other vendors does not change what is received |
| `Hep3.PermutedSame` | src/capture_eep.c:772-838 | chunks that set different variables may be permuted |
| `Hep3.OthersChangeNothing` | src/capture_eep.c:766-770 | chunks of other vendors change nothing |
| `ChunkOrders.IndependentExactly` | src/capture_eep.c:744-842 | for every list of sound chunks that set no variable twice: order and foreign chunks are irrelevant exactly when the family and protocol chunks are there |
| `ChunkOrders.ForeignDecides` | src/capture_eep.c:744-770 | for every list of chunks without family or protocol, a foreign chunk in front decides what is received |
| `ChunkOrders.VariantTargets` | src/capture_eep.c:766-838 | order and foreign chunks do not change which variables are set |
| `Hep3.SendV3` | src/capture_eep.c:386-568 | the buffer is filled to the end with the header and the chunks |
| `Hep3.LengthAnnounced` | src/capture_eep.c:496-510 | the length written is the length announced exactly when it fits into 16 bits |
| `HepWire.EncodeIsWire` | src/capture_eep.c:386-568 | the octets of the whole packet, as numbers and arithmetic on the inputs |
| `HepWire.FieldsAt` | src/capture_eep.c:404-489 | the places of magic, total length, family, protocol, ports, times, protocol type, agent id and payload |
| `HepWire.ChunksAreCopiedWhole` | src/capture_eep.c:772-833 | of every chunk that the sender writes, the receiver copies the whole body and no more, but no password longer than its buffer |
| `HepWire.OverlayIs` | src/capture_eep.c:823-827 | a shorter password chunk leaves the end of a longer one before it in the buffer |
| `HepWire.UnterminatedExactly` | src/capture_eep.c:844-852 | the password check runs over the end of its buffer exactly when a password is asked for and the buffer has no NUL |
| `HepWire.BadChunkIsDropped` | src/capture_eep.c:761-774 | a packet with a chunk of no length, or a general one of no type, behind any sound chunks is dropped |
| `Hep3.EncodeIs` | src/capture_eep.c:517-556 | the fixed header, the addresses, the password and the payload make up the packet |
| `Hep3.RoundTrip` | src/capture_eep.c:737-861 | decoding what was encoded gives the same addresses, ports, times, protocol, version and payload when the passwords agree, and nothing when they do not |
| `Hep3.PasswordCheck` | src/capture_eep.c:844-852 | a password passes exactly when it is not empty and begins with the receiver's |
| `Hep3.ReceiveV3` | src/capture_eep.c:737-861 | the loop ends for every input and computes what the recursive parser says |
| `LegStores.CleanUnclassifiedKeeps` | src/state.cpp:271-296 | the first cleanup leaves no data without a timer |
| `LegStores.CleanClassifiedKeeps` | src/state.cpp:332-354 | the second cleanup leaves no data without a timer |
| `LegStores.UpdateKeeps` | src/state.cpp:488-513 | every update that keeps the roles keeps the store consistent |
| `LegStores.NoLegOutlivesItsTimers` | src/state.cpp:271-354 | after every run, whatever has data was updated within the first lifetime, or its group within the second |
| `LegStores.RunIsGood` | src/state.cpp:766-781 | after every run, the entries hold the times of the last updates and none is older than its lifetime |
| `LegStores.GroupsLiveAndDieTogether` | src/state.cpp:332-354 | a leg with a known ingress leg keeps its data exactly while its group was updated within the lifetime; then nothing of the group is left |
| `LegStores.ForgetKeeps` | src/state.cpp:332-354 | without chains of legs, forgetting any groups leaves no data without a timer |
| `LegRoles.UpdateKeepsTimers` | src/state.cpp:766-783 | an update whose line the guard accepts leaves no data without a timer, whatever roles it changes |
| `LegRoles.AcceptedRunKeepsTimers` | src/state.cpp:488-513 | the same for every run of such updates |
| `LegRoles.StrandingRun` | src/state.cpp:271-354 | every line that the guard does not accept begins a run of lines of known pairs and captured calls that ends with data without a timer, whichever groups the code forgets first |
| `LegRoles.StrandedForLong` | src/state.cpp:271-354 | data without a timer stays in every run whose updates neither name the leg nor renew a group of it |
| `LegRoles.LineIsSafeExactly` | src/state.cpp:766-783 | a line strands no data in any such run exactly when the guard accepts it |
| `LegRoles.EntryTakesAlong` | src/state.cpp:342-350 | an old group entry takes the entries of its egress legs along, which is how a chain loses one |
| `LegRoles.RemappingFromEmpty` | src/state.cpp:774-778 | from the empty store: a line, silence, and a line with another ingress leg strand data |
| `LegRoles.ChainFromEmpty` | src/state.cpp:774-778 | from the empty store: two lines that make a chain of three legs begin a run that strands data |
| `LegRoles.ProperRunIsSound` | src/state.cpp:766-783 | every run that keeps the roles ends in a store from which the guard decides |
| `LegRoles.RolesKeepTimers` | src/state.cpp:774-778 | the guard accepts every line that keeps the roles |
| `LegRuns.InfoIsLatest` | src/state.cpp:766-770 | in every run, whatever roles change, what is stored of the log about a leg is what the latest line that names it tells, in the role in which it names it |
| `LegRuns.SipIsLatest` | src/state.cpp:488-497 | in every run, the stored call of a leg is the latest captured one with news, and no later one differs in what is compared |
| `LegRuns.LeftIsFirst` | src/state.cpp:774-776 | in every run, the ingress leg of a leg is the one of the first line in which it is the egress leg |
| `LegRuns.PairIsKept` | src/state.cpp:774-776 | a leg that was once an egress leg has an ingress leg for good |
| `LegRuns.OwnTimeIsLatest` | src/state.cpp:501-501 | in every run, an entry of the first backlog has the time of the latest update with news that names its leg |
| `LegRuns.GroupTimeIsLatest` | src/state.cpp:503-506 | in every run, an entry of the second backlog has the time of the latest update with news that renews its group |
| `LegRuns.RepeatedIsNoNews` | src/state.cpp:492-495 | a captured call that repeats the stored one changes nothing |
| `LegRuns.StoredExactly` | src/state.cpp:488-513 | where the roles are kept, an update with news leaves exactly the data that it brings and that was there, of the legs that are in a young group, or in none and young themselves |
| `LegRuns.RunStoresExactly` | src/state.cpp:271-354 | the same for every update of every run that keeps the roles |
| `LegRuns.ActiveIs` | src/state.cpp:798-824 | a group is active exactly when one of its legs, told from the lines, has no call that came to its end |
| `LegRuns.Serve` | src/state.cpp:847-861 | after any updates of a new store, whatever roles they change, each group is told with exactly the legs that were first egress legs of its ingress leg, and with the latest that the lines and calls say about each leg |
| `LegStores.LegStore.CleanupUnclassified` | src/state.cpp:271-296 | the loop over the oldest entries removes exactly the expired ones, and the data of those without a known group |
| `LegStores.LegStore.CleanupClassified` | src/state.cpp:332-354 | the loop forgets the groups of expired entries, and all of them when the roles are kept |
| `LegStores.LegStore.CleanupGroup` | src/state.cpp:342-350 | forgets an ingress leg and exactly its egress legs |
| `LegStores.LegStore.FindIngressLeg` | src/state.cpp:675-690 | an ingress leg is its own, an egress leg has the mapped one, others have none |
| `LegStores.LegStore.InsertPair` | src/state.cpp:774-776 | both views of the map get the pair unless the egress leg is mapped already |
| `LegStores.LegStore.UpdateFromSngrep` | src/state.cpp:488-513 | a captured call without news changes nothing; another one makes of the store what an update may make of it, and the update of the run where the roles were kept |
| `LegStores.LegStore.UpdateFromClass4` | src/state.cpp:766-783 | a log line makes of the store what an update may make of it, whatever roles it changes, and the update of the run where the roles are kept |
| `LegStores.LegStore.NextDifferentKey` | src/state.cpp:382-395 | skips exactly the entries with the same key, and ends |
| `LegStores.LegStore.PrepareUpdate` | src/state.cpp:646-663 | a group is told with exactly its egress legs, each once |
| `LegStores.LegStore.IsCallActive` | src/state.cpp:798-824 | a group is active exactly when one of its legs is |
| `LegStores.LegStore.GenerateUpdateList` | src/state.cpp:847-861 | one entry per ingress leg, in strictly ascending order, for all groups or exactly the active ones |
| `LegStores.EgressExactly` | src/state.cpp:650-653 | the right view lists exactly the egress legs that the left view maps |
| `LegStores.ViewsInsert` | src/state.cpp:774-776 | inserting a pair with a new egress leg keeps the two views equal and the right one in order |
| `LineFilters.LineFilter.TryInsert` | src/state.cpp:356-362 | remembers the line; tells whether it was not remembered |
| `LineFilters.TakenExactly` | src/state.cpp:246-269 | a line is taken exactly when it was never submitted or its latest submission is more than ten minutes old |
| `KeyDerivation.PHash` | src/capture_gnutls.c:85-126 | the loop fills the destination with the first octets of the recursively defined stream and nothing else |
| `KeyDerivation.ExpandIs` | src/capture_gnutls.c:100-124 | it does not matter how many blocks of the stream are computed |
| `KeyDerivation.ExpandPrefix` | src/capture_gnutls.c:85-126 | a shorter request is a prefix of a longer one |
| `KeyDerivation.BlockExactly` | src/capture_gnutls.c:104-123 | every block of an expansion is the HMAC of its running value and the seed, where each running value is the HMAC of the one before |
| `KeyDerivation.TwoBlocks` | src/capture_gnutls.c:104-123 | the first two blocks, for every digest |
| `KeyDerivation.PRF` | src/capture_gnutls.c:128-181 | two streams of two parts of the secret's memory added bit by bit, or one stream of the suite's digest, for secrets of any length |
| `KeyDerivation.PrfExactly` | src/capture_gnutls.c:134-181 | bit by bit, the function in terms of the streams, the halves of the secret and the digests |
| `KeyDerivation.AgreeExactly` | src/capture_gnutls.c:134-156 | the result is that of the RFCs for all digest algorithms exactly from TLS 1.2 on or where the second half that is read is the right one |
| `KeyDerivation.HalvesExactly` | src/capture_gnutls.c:134-156 | whatever lies in memory, the right second half is read exactly for secrets of even length |
| `KeyDerivation.Connection.ProcessClientKeyExchange` | src/capture_gnutls.c:627-693 | the keys of both sides are consecutive parts of the expansion of the derived master secret, in the order of section 6.3 of RFC 5246 |
| `KeyDerivation.BlockIsFilledExactly` | src/capture_gnutls.c:645-648 | the keys never exceed the requested block, and use it up exactly in CBC mode with keys of whole octets |
| `KeyDerivation.KnownBlocks` | src/capture_gnutls.c:42-47 | for the suites that the program knows, exactly in CBC mode |
| `KeyDerivation.KnownKeyPlaces` | src/capture_gnutls.c:650-690 | where the six keys of the known suites are in the block |
| `KeyDerivation.LabelsSpell` | src/capture_gnutls.c:635-656 | the two labels are those of sections 6.3 and 8.1 of RFC 5246 |

## Left out

- Capture devices, sockets, signals, dump and gzip files, the terminal interface, the web socket server, AMQP, settings and option files.
- Clock readings, HMAC, and the filter of a soft clear are parameters; the text form of network addresses is replaced by their octets.
- Regular expressions are replaced by the scanners they describe for start line, Content-Length and first blank line.
- Messages with NUL octets or with Content-Length values of ten or more digits are outside of the framing theorems. For a payload of exactly the largest size the code leaves no room for a terminating NUL; the model ends the text there all the same.
- IPv6: only frames of version 4 are modelled. The lengths of IPv6 fragments count the fragment header, so order independence would not hold for them.
- Link headers with VLAN tags or NFLOG records and IP-in-IP tunnels: the model starts behind one link header of fixed length.
- TCP runs with segments that are not appended: `AdvanceConservesExactly` says that they break the account, but not what is framed afterwards.
- HEP version 2: its length field has one octet, so no round trip holds.
- The rebuilt Ethernet frame of a packet received by HEP3, and text addresses in it.
- Allocation failures, freeing of memory and the destroyers of vectors; the `memset` after `realloc` in the vector.
- Sorter callbacks are modelled as the comparison they make, since all of them share one loop.
- The list of active calls: the code appends a call only if it is there already, so it stays empty.
- X-Call-ID relations, SDP and RTP stream matching, retransmission marks, and the other sort attributes of calls.
- The comparison buffers of 256 octets in `call_attr_compare`.
- `vector_iterator_count`, `vector_set_item` and the remaining accessors, which only add easy members.
- Query filters in the leg store, and the insertion of an empty entry by a filtered query.
- The splitting of log lines into fields; a line without ingress Call-ID or a negative lifetime ends the program.
- RTP counters are part of a leg's data, but the separate update of these counters is not modelled.
- The TLS handshake around the key derivation, record decryption, and the connection list.
- Calls.Call.AddMessage: does not set the message's pointer to its call, because messages are values that their call holds.
- Packets.Packet.Clone: copies the octets of the frames, without their capture headers with time and lengths.
- Packets.Packet.AddFrame: keeps the octets of a frame, without its capture header.
- CallStores.CallStore.CheckPacket: says that the list stays in order for the attributes that never change (index and Call-ID), because message counts and states of listed calls change without the list being sorted again; `ListCall` and `SortList` say when their order holds.
- IpReassembly.IpReassembler.Reassemble: requires that the assembly stays inside the captured frames and the packet buffer, because the C code does not check it; `ReassemblyIsExact` shows that it does for well cut datagrams. It also excludes protocol 4, whose tunnels the code unwraps.
- Hep3.ReceiveV3: stops where the C code would access memory outside of its buffers, because what happens then is not defined.

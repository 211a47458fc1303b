# Netlink reading, dump printing and two-thread forwarding, verified

Dafny models of the parts of the repository that hold logic of their own, and proofs about them:

* **The attribute cursor** of yalin (`Words`, `Rtattr`, `Attributes`): `align` by masking on 64-bit words, and
  `rtattr_next` with its subtraction in wrapping unsigned arithmetic, on arbitrary bytes.
* **The vlan LINKINFO decoder** (`LinkInfo`, `LinkInfoCodec`): `rta_to_str_IFLA_LINKINFO` as a program over
  memory, an encoder, and the proof that decoding gives the last-value-wins meaning of the encoded list.
* **The macro walker** of address messages (`Walkers`), compared with the cursor.
* **`netlink_listen`** (`Listen`, `ListenWalk`, `ListenRuns`): both loops over a run of receive outcomes, on framed and other
  datagrams. The framing is that of
  RFC 3549, sections 2.2 and 2.3.2.
* **`hexdump` and `carrydump`** (`Text`, `Hexdump`, `CLexer`, `Carrydump`, `CarrydumpLexed`, `CarrydumpColumns`), each with
  readers that get the bytes back.
* **The flag-set printer** (`Flags`), with a splitter that gets the flags back.
* **yak's forwarder** (`Forwarder`, `ForwarderSafety`, `ForwarderRuns`, `YakThreads`): its two threads and the
  network cards as a transition system over any number of ports, one step per call, in any interleaving; and the
  loop bodies of both threads as methods that are runs of that system, with the rest of it moving in between.

`Bytes`, `Words` and `Sequences` hold little-endian words, machine arithmetic and regrouping of concatenations. `dafny verify dfyconfig.toml` checks everything.

## What is assumed

* **Memory** is a sequence of bytes on a little-endian host. Pointers are offsets in it; a read beyond its end is an
  outcome of its own (`Overrun`), and so is the use of a null cursor (`NullDeref`). `RTA_OK`, `RTA_NEXT`, `IFA_RTA`,
  `NLMSG_ALIGN` and the attribute numbers have the meaning the Linux headers give them; those headers are not part of
  the repository.
* **A handler** of `netlink_listen` is a function of all the messages it has been given so far, so it may keep state.
  `recvmsg` is a sequence of outcomes: an error number, or a datagram with its truncation flag, of any bytes that fit
  the buffer. The buffer's first contents are a parameter, as is how many repeats of a message on which the loop sticks
  are watched (`turns`).
* **The C lexer** that reads `carrydump` output keeps comments as tokens, works on text after line splicing, and takes
  quotes as punctuation (none occurs outside comments).
* **DPDK.** A ring is a bounded FIFO that holds one entry less than its size and refuses an entry when full; a burst
  dequeue returns the smaller of 32 and what is there. A pool is a set of mbufs; allocation takes any free one. A
  transmit call of one frame accepts it, and gives the mbuf back later, or refuses it and leaves it to the caller. The card
  takes mbufs of the port's pool to receive into. Frames sit in one segment, and received frames hold at least an Ethernet
  header. `tap_recv` does not test its allocation, so its step is enabled only while the pool has an mbuf, and
  `AllocationCanFail` shows that this does restrict the runs. Reads and writes of the tap device succeed: the program
  exits otherwise.

## Model

| member | source | states |
|---|---|---|
| Rtattr.AlignIsLeastMultiple | yalin/yalin/rtattr.h:21-27 | for every power of two and every word, the mask form is the least multiple not below the word exactly when the sum does not wrap; when it wraps the result is 0 |
| Rtattr.AlignIdempotentMonotone | yalin/yalin/rtattr.h:21-27 | aligning twice is aligning once, and longer lengths align to longer ones |
| Rtattr.LeastMultipleIsLeast | yalin/yalin/rtattr.h:21-27 | what "least multiple" means: no other multiple not below the length is smaller |
| Rtattr.AlignIsPadded | yalin/yalin/rtattr.h:48 | with 4 the mask form is the padded length of an attribute |
| Rtattr.RtattrNext | yalin/yalin/rtattr.h:45-63 | the wrapping comparison in plain terms: a next attribute is returned exactly when bytes remain, the length is not zero and the aligned length exceeds the rest or more than 4 bytes remain behind it; with the caller's second test, exactly when another header fits; the step off an attribute from its own length succeeds exactly when that length is no multiple of four, and leaves a negative rest |
| Attributes.WalkInside | yalin/yalin/rtattr.h:164-189 | on arbitrary bytes the loop ends and all headers inspected lie inside the payload, aligned and at least four bytes apart, exactly when the payload can hold one header |
| Attributes.AttrAt | yalin/yalin/rtattr.h:29-43 | type, length and payload of an encoded attribute read back through the accessors |
| Attributes.EncIn | yalin/yalin/rtattr.h:29-52 | an encoded list stands in memory attribute by attribute, each at the next multiple of four |
| LinkInfo.VlanLoop | yalin/yalin/rtattr.h:164-189 | the nested loop computes the effect of the headers the cursor inspects, in their order, or the first failure among them |
| LinkInfo.RtaToStrLinkInfo | yalin/yalin/rtattr.h:141-200 | the whole decoder: checks, kind string through the 100-byte buffer, wrapped step to the data, nested loop, each with its failures |
| LinkInfo.ReadAnything | yalin/yalin/rtattr.h:86-126 | on arbitrary bytes whose region holds a header: all headers inspected lie in the region, and the loop succeeds exactly when each id, protocol and flags header has a length from its header's to its value's and the value ends in memory; otherwise the first that does not decides between a read outside the memory and the read-miss exit |
| LinkInfo.PayloadAlone | yalin/yalin/rtattr.h:86-126 | with the memory cut behind the nested payload, the loop succeeds exactly when every id, protocol and flags header inspected has a length from its header's to its value's and two or eight bytes of payload behind it, whatever its own length; and unless the cut is felt as a read beyond it, the bytes behind the payload do not matter |
| LinkInfo.BareHeaderBorrows | yalin/yalin/rtattr.h:86-98 | a payload of one bare id header is read as holding the two bytes behind it |
| LinkInfo.VisitAttr | yalin/yalin/rtattr.h:86-126 | reading a well-formed attribute gives the value its payload holds; unknown types change nothing |
| LinkInfo.ReadList | yalin/yalin/rtattr.h:167-189 | for any non-empty list of vlan attributes and ignored types, any order and repetition, last padding counted or not, the result is the last-value-wins fold |
| LinkInfoCodec.DecodeEncode | yalin/yalin/rtattr.h:141-194 | decoding an encoded LINKINFO attribute, anywhere in any memory, gives the fold of its list |
| LinkInfoCodec.EmptyDataBorrows | yalin/yalin/rtattr.h:164-189 | an empty list is not read as empty: the vlan attribute that follows in memory is taken instead |
| LinkInfoCodec.DecodesIffNonEmpty | yalin/yalin/rtattr.h:141-194 | decoding recovers the encoded list's meaning in every memory exactly when the list is not empty |
| LinkInfoCodec.RoundTrip | yalin/yalin/rtattr.h:153-194 | decoding is the inverse of encoding on every `{proto, id, flags}` |
| LinkInfoCodec.DecodesLastValues | yalin/yalin/rtattr.h:153-194 | for a list that is not empty the three fields are the last values of types 5, 1 and 2, and 0 for a type that does not occur |
| LinkInfoCodec.AnyData | yalin/yalin/rtattr.h:159-194 | behind a vlan kind, data of any bytes gives a vlan line exactly when every header inspected is readable and its value ends in memory; otherwise the first that is not decides which failure it is |
| LinkInfoCodec.OtherKind | yalin/yalin/rtattr.h:149-199 | any other kind comes out as unknown, as it stands in memory, cut to 99 characters |
| LinkInfoCodec.OtherKindEncoded | yalin/yalin/rtattr.h:149-199 | every kind but vlan of less than a hundred characters comes out as it was encoded, whatever stands behind it |
| LinkInfoCodec.VlanWithoutData | yalin/yalin/rtattr.h:162-199 | a vlan kind with an attribute of another type than its data behind it comes out as the unknown kind "vlan" |
| LinkInfoCodec.VlanUnpadded | yalin/yalin/rtattr.h:159-162 | a vlan kind whose length is a multiple of four leads to the use of a null cursor |
| LinkInfoCodec.Refused | yalin/yalin/rtattr.h:131-150 | the assertions fail exactly on a root of another type than 18 or a first attribute of another type than 1; a kind of more than a hundred bytes, or of less than a header, is the read-miss exit |
| LinkInfoCodec.SampleDecodes | yalin/test/analyze_rta_IFLA_LINKINFO.c:6-13 | the literal bytes of the program's own test decode to protocol 0x81, id 10 and flags 0xffffffff00000001 |
| Walkers.AddrMsgAttrs | yalin/yalin/dump.h:45-64 | the loop over `RTA_OK` and `RTA_NEXT`, with its wrapping remaining length, visits the headers of `OkWalk` |
| Walkers.OkWalkList | yalin/yalin/dump.h:57-63 | over a list the macro loop visits every attribute in order, then what the walk finds behind it with the length that is left, wrapped if the last padding was not counted |
| Walkers.OkWalkExactIff | yalin/yalin/dump.h:57-63 | the loop visits exactly the list if and only if the length counts the last padding, or the bytes behind the list hold a length below a header's |
| Walkers.OkWalkStrays | yalin/yalin/dump.h:57-63 | a list and a memory where it visits a header behind the list and runs out of the memory |
| Walkers.AddrMsgPrintsAll | yalin/yalin/dump.h:45-64 | an address message of sixteen and eight header bytes and a padded list, which its length field covers, has exactly its attributes printed, in order |
| Walkers.CursorList | yalin/yalin/rtattr.h:45-63 | over a padded list the cursor visits every attribute in order but a bare last header behind others |
| Walkers.SameWalkIff | yalin/yalin/rtattr.h:45-63 | the two walkers visit the same attributes in the same order exactly when the list is not empty and does not end in a bare header behind others |
| Listen.GoesOnIff | yalin/yalin/request.h:36 | the unsigned comparison of the signed status goes on exactly when it is negative or covers a header |
| Listen.AfterStep | yalin/yalin/request.h:42 | a step of zero leaves the status alone; a step within the buffer subtracts |
| ListenWalk.FramedWalk | yalin/yalin/request.h:35-44 | in a buffer that starts with a framed datagram the inner loop sees its messages and stops with its remnant, whatever the buffer holds behind it |
| ListenWalk.GoesAstray | yalin/yalin/request.h:36-43 | a message longer than what was received leaves a status that makes the loop go on behind it |
| ListenWalk.StopsIff | yalin/yalin/request.h:35-44 | on arbitrary buffers the inner loop leaves a datagram by itself exactly when it is framed, or when it reads, behind the bytes received, a header whose length leads back; otherwise it sticks on a message it never steps off or runs over the buffer |
| ListenWalk.LeadsBackIff | yalin/yalin/request.h:37-43 | which lengths lead back: the top few of 32 bits, by how far the cursor has strayed |
| ListenWalk.LeadingBackStops | yalin/yalin/request.h:35-44 | a buffer whose datagram is not framed and which the loop leaves all the same |
| ListenWalk.TurnsRepeat | yalin/yalin/request.h:35-44 | a loop that sticks hands its last message over again and again; any other does not depend on how long it is watched |
| ListenWalk.StuckReturns | yalin/yalin/request.h:38-40 | a loop that sticks returns at the first repeat the handler answers negatively |
| ListenWalk.StuckForEverIff | yalin/yalin/request.h:36-44 | it never ends exactly when the handler answers neither a message before nor any repeat negatively |
| Listen.HandleDatagram | yalin/yalin/request.h:35-44 | the inner loop, in its own arithmetic and on any buffer, calls the handler on the messages in order up to the first negative answer, goes on behind the bytes received as its comparison says, repeats a message it does not step off for as long as it is watched, and ends with the status it stops at, stuck, or with a header beyond the buffer |
| Listen.HandleOutcome | yalin/yalin/request.h:22-53 | one turn of the receive loop, for any outcome and any buffer: transient errors go round again, other errors and end of stream return -1; a datagram the inner loop leaves goes round again if it was cut or the status is zero, and exits otherwise; the buffer then starts with the datagram and is old behind it |
| Listen.NetlinkListen | yalin/yalin/request.h:4-55 | a run of any outcomes, from any contents of the buffer, plays the tape of its messages and ending events from the first to the one that ends it |
| Listen.PlayMeans | yalin/yalin/request.h:35-44 | playing a tape calls the handler on the messages in order up to and including the first it answers negatively, whose answer is the result; with none such, all are handled and the first ending event decides |
| ListenRuns.UnpackPack | yalin/yalin/request.h:35-44 | packing messages with any padding and walking the datagram gives the same messages and no remnant |
| ListenRuns.UnpackMore | yalin/yalin/request.h:35-44 | over whole padded messages the loop goes on to whatever the buffer holds behind them |
| ListenRuns.CutDatagram | yalin/yalin/request.h:35-49 | a datagram cut anywhere inside a message: with less than a header of it the loop stops there; with more, the handler is given that part too and the loop goes on with a negative status behind the announced end, before it looks at the truncation flag |
| ListenRuns.CutIsNotRetried | yalin/yalin/request.h:46-49 | sixteen bytes flagged as cut, in a buffer of zeros: two calls, and the loop sticks instead of going round again |
| ListenRuns.PackUnpack | yalin/yalin/request.h:35-44 | messages, padding and remnant together are the datagram; the remnant is shorter than a header |
| ListenRuns.ListenClean | yalin/yalin/request.h:19-54 | over well-formed datagrams and transient errors the handler sees exactly all messages in order up to its first negative answer; the remnant exit is never taken, and the loop neither sticks nor leaves the buffer |
| ListenRuns.FirstNegative | yalin/yalin/request.h:38-40 | if message k, counted across datagrams, is the first answered negatively, that answer is returned after exactly k calls |
| ListenRuns.TransientErrorsInvisible | yalin/yalin/request.h:23-27 | deleting all EINTR, EAGAIN and ENOBUFS outcomes changes neither calls nor result, in any run |
| ListenRuns.TransientAnywhere | yalin/yalin/request.h:23-27 | each of the three, anywhere in a run, is as if it had not been |
| ListenRuns.FatalAnywhere | yalin/yalin/request.h:28-33 | any other error, and an empty datagram, end a run that gets so far with -1 |
| ListenRuns.LeftoverDecides | yalin/yalin/request.h:46-53 | bytes left over behind whole messages make the run exit if the datagram was not cut, and go on if it was |
| ListenRuns.OversizedRunsOver | yalin/yalin/request.h:36-43 | a message that announces more than the buffer takes the loop beyond it after one call, however much of it arrived |
| ListenRuns.LongerRun | yalin/yalin/request.h:19-54 | runs agree with their beginnings: more outcomes change nothing once a run has ended, and otherwise it goes on from the same calls |
| ListenRuns.EndsIff | yalin/yalin/request.h:35-53 | in any run, the remnant exit, sticking and leaving the buffer each happen exactly when no message before is answered negatively and the first outcome that ends the run ends it so |
| ListenRuns.EndOfDatagram | yalin/yalin/request.h:35-53 | a framed datagram ends a run exactly when it is uncut and leaves bytes over; any other sticks or leaves the buffer exactly when no header read behind it leads back |
| Hexdump.PrintHexdump | yalin/yalin/hexdump.h:8-39 | the chunking loop appends the rows of sixteen bytes with their offsets |
| Hexdump.RowByPosition | yalin/yalin/hexdump.h:14-34 | where everything of a row stands: offset and colon, for each byte a blank and its two digits, and its character, the byte itself if it can be printed and a dot if not |
| Hexdump.RowBlanks | yalin/yalin/hexdump.h:20-34 | both gaps before byte 8, the filling of a short row and the line break |
| Hexdump.ReadsBack | yalin/yalin/hexdump.h:8-39 | the reader recovers every row and offset, across the gap at column 8, short rows and offsets of more than four digits |
| Hexdump.LinesCover | yalin/yalin/hexdump.h:12-38 | the rows in order are the buffer, each at its offset |
| Hexdump.DumpInjective | yalin/yalin/hexdump.h:8-39 | two buffers have the same dump exactly when they are the same |
| Text.Hex04Inverse | yalin/yalin/hexdump.h:14 | the offset column reads back as the offset, however wide |
| Text.Hex04Width | yalin/yalin/hexdump.h:14 | it has four digits, and more only if the offset needs them |
| Carrydump.PrintCarrydump | yalin/yalin/hexdump.h:41-77 | the chunking loop appends title, declaration, rows of eight constants with their comments, and closing |
| Carrydump.LexRowsIff | yalin/yalin/hexdump.h:50-75 | the rows lex to the constants and comments meant exactly when no row shows `*` directly before `/` |
| CarrydumpLexed.LexesAsIntendedIff | yalin/yalin/hexdump.h:41-77 | the whole text lexes to what is meant exactly when the title has no line break and no row shows `*` directly before `/` |
| CarrydumpLexed.RecoversBytes | yalin/yalin/hexdump.h:41-77 | under that condition the constants outside comments are exactly the bytes, partial last row included |
| CarrydumpLexed.EarlyCloseAddsConstant | yalin/yalin/hexdump.h:63-70 | without it they need not be: 2a 2f 31 reads back with a fourth constant |
| CarrydumpLexed.EarlyCloseMayBeHarmless | yalin/yalin/hexdump.h:63-70 | yet 2a 2f reads back unchanged although its comment ends early |
| CarrydumpColumns.ReadsBack | yalin/yalin/hexdump.h:50-76 | read by column, the constants give the bytes of every buffer, whatever the comments show |
| CarrydumpColumns.CarryInjective | yalin/yalin/hexdump.h:41-77 | under one title, two buffers print alike exactly when they are the same |
| CarrydumpColumns.RowShows | yalin/yalin/hexdump.h:51-71 | where everything but the constants of a row stands: blanks, comment marks, and each character, the byte itself if it can be printed and a dot if not |
| Flags.MaskTestsBit | yalin/yalin/flags.h:32 | the mask test is the test of the bit |
| Flags.Strncat | yalin/yalin/flags.h:34-35 | appends at most the given number of characters; overflows exactly when they and the terminator do not fit |
| Flags.SnprintflagsLong | yalin/yalin/flags.h:24-39 | the buffer overflows exactly when the long text is not shorter than it; otherwise it holds that text |
| Flags.LongFields | yalin/yalin/flags.h:24-39 | the fields of the long text are the table's long names at exactly the set bits below its size and below 32, in ascending order |
| Flags.ShortFields | yalin/yalin/flags.h:41-56 | the same of the short text and the short names |
| Flags.SnprintflagsShort | yalin/yalin/flags.h:41-56 | the same with the short text |
| Flags.JoinLength | yalin/yalin/flags.h:30-37 | the text has the characters of its names and a bar between each two |
| Flags.NewFlagsOverflow | yalin/yalin/flags.h:83-103 | with all ten flags set the text has 133 characters, so the local buffer of 100 overflows |
| Flags.SplitJoin | yalin/yalin/flags.h:30-37 | splitting at bars undoes joining non-empty names without bars |
| Flags.PrintedFlagsReadBack | yalin/yalin/flags.h:24-56 | splitting the text and looking the names up gives the flags restricted to the table's bits |
| Flags.PrintAlikeIff | yalin/yalin/flags.h:24-56 | two flag words print alike exactly when they agree on the table's bits |
| ForwarderSafety.StepKeeps | yak/main.c:40-94 | if the ring can hold the pool, every step of either thread or a card, in any state, keeps ownership, host-to-card order and card-to-host order of every port |
| ForwarderSafety.StepSafe | yak/main.c:40-94 | whatever the sizes, every step keeps each mbuf in at most one place, and card-to-host order |
| ForwarderRuns.NothingLostIff | yak/main.c:40-94 | these invariants hold in every reachable state exactly when the ring can hold the whole pool |
| ForwarderRuns.LostOnFullRing | yak/main.c:90 | an enqueue on a full ring, whose result is ignored, leaves an mbuf of the pool in no place |
| ForwarderRuns.NoneTwice | yak/main.c:40-94 | whatever the sizes, in every reachable state no mbuf is in two places; no ring lists one twice, and none about to be freed is free already |
| ForwarderRuns.NoneLostNoneTwice | yak/main.c:40-94 | if the ring can hold the pool, in every reachable state each mbuf of each pool is in exactly one place |
| ForwarderRuns.EnqueueNeverFailsIff | yak/main.c:89-90 | the enqueue whose result is ignored never fails, in any run, exactly when the ring can hold the whole pool |
| ForwarderRuns.YakEnqueueNeverFails | yak/port.c:64-100 | with 8191 mbufs and a ring of size 8192 it never fails, for any number of ports |
| ForwarderRuns.YakRingIsTight | yak/port.c:64-100 | with that ring and a pool of another size it never fails exactly up to 8191 mbufs |
| ForwarderRuns.AllocationCanFail | yak/tap.c:27-35 | whatever the sizes, the tap thread alone, with no step of a card or the forwarding thread, brings itself to an empty pool |
| ForwarderRuns.HostFramesKeepOrder | yak/main.c:52-64 | if the ring can hold the pool: frames handed to the card are a prefix of the frames read, and the rest is the burst, the ring and the frame in hand, in order; refusal by the card is the only drop |
| ForwarderRuns.WireFramesKeepOrder | yak/main.c:21-38 | whatever the sizes: what the tap got is the order-preserving selection by ether type of the received frames handled so far, each handled frame freed exactly once |
| ForwarderRuns.ForHostIff | yak/main.c:23-28 | the frames for the host are those whose bytes 12 and 13 are 86 dd, 08 00, 08 06 or 81 00 |
| ForwarderRuns.WireFramesByType | yak/main.c:21-38 | in every reachable state the tap has got exactly the frames with those bytes among the received frames handled so far, in their order |
| ForwarderRuns.DrainBound | yak/main.c:47-64 | if the ring can hold the pool: a frame with p before it in the ring has been handed to the card after the transmit part of p/32 + 1 further visits to the port, whatever else happens |
| ForwarderRuns.RoundRobin | yak/main.c:82-92 | for ports i < j, frames read from i less frames read from j is 0 or 1 in every reachable state |
| YakThreads.Yak.TapRecv | yak/tap.c:27-35 | takes one mbuf from the pool and fills it with the frame read, with anything happening in between; without an mbuf, and only then, the outcome is the null pointer the program would use |
| YakThreads.Yak.TapSend | yak/tap.c:37-42 | writes the frame, then gives the mbuf back, with anything happening in between |
| YakThreads.Yak.PortInput | yak/main.c:21-38 | one received frame is written or not by its type, and freed either way |
| YakThreads.Yak.RingEnqueue | yak/main.c:90 | the mbuf goes to the end of the ring if there is room, and nowhere otherwise |
| YakThreads.Yak.TapVisit | yak/main.c:89-90 | the tap thread's loop body, interleaved with anything, is a run whose own steps are allocation, read of the given frame and enqueue, unless the pool is empty when the allocation comes |
| YakThreads.Yak.TxOne | yak/main.c:56-63 | one frame of the burst is handed to the card, and freed exactly if the card refuses it |
| YakThreads.Yak.FromHost | yak/main.c:52-64 | the first half of a forwarding visit, interleaved with anything, checks the ring and hands a burst of at most 32 to the card, each with the card's answer |
| YakThreads.Yak.FromWire | yak/main.c:69-75 | the second half receives at most 32 frames and handles and frees each |
| YakThreads.Yak.FwdVisit | yak/main.c:46-77 | the forwarding loop body, with the other thread and the cards doing anything at every point, is a run whose own steps are exactly those of one visit |

## Left out

- DPDK itself and device setup (`port_configure`, `tap_alloc`): library calls and ioctls; only sizes and ownership matter here.
- `ip_reassembly/` and `chained_mbuf/`: reassembly and chaining happen inside DPDK.
- `bpf/` and `yoda/`: library plumbing and an empty loop.
- `types.h` tables, the statistics branches of `rta_to_str`, and the wording of the printed vlan line: fixed tables and formats.
- Link, route and neighbour walkers of `dump.h`: they size their region with the macro for address messages, so no exact walk is claimed for them.
- Sockets (`netlink_open`, `netlink_close`) and `recvmsg`: the latter is a sequence of outcomes.
- Listen.NetlinkListen: stated for finite runs; `LongerRun` says that an endless one agrees with all its beginnings.
- Listen.HandleDatagram: memory behind the buffer is not modelled: a header there ends the run (`Beyond`), and a message that reaches there is cut at the buffer's end.
- `rtattr_read_8bit`, `rtattr_read_32bit`: the same reader at sizes the decoder does not use.
- The dump that `rta_to_str_IFLA_LINKINFO` prints for an unknown kind: its outcome is `Unknown`, and `carrydump` is modelled by itself.
- The wider gap at column 8 of `carrydump`'s comments: its test is never true, as a row has eight bytes.
- CarrydumpLexed.RecoversBytes: one way only, because the constants alone can survive an early end of a comment (`EarlyCloseMayBeHarmless`); the two-way statements are `LexesAsIntendedIff`, and `CarrydumpColumns.CarryInjective` for a reader by column.
- Flags.Strncat: does not say what memory holds after an overflow.
- Flag names against the kernel's bit positions: the table index is the bit number, as in the code.
- The crash on an empty pool as a step of the transition system: there the tap thread waits for an mbuf; `YakThreads.Yak.TapRecv` has the outcome.
- Statistics and packet dumps that yak prints: output only.

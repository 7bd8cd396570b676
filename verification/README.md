# A Dafny model of the media and signalling core

The project models nine parts of the `re` library (version 4.6.0) and of the intercom server built on it, and
proves what each of them is for. Each part is described twice: once as functions over values, which carry the
theorems, and once in the form the C code has (classes with fields, loops, positions moved in a buffer, arrays
written in place), where every method is proved to compute exactly those functions.

| part | modules | main results |
|---|---|---|
| AV1 over RTP | `Leb128`, `Av1Obu`, `Av1Layout`, `Av1Receiver`, `Av1Packetizer`, `Av1Tight` | every packet parses by its own W field; bytes are conserved; packets are full but for a few bytes; an independent receiver gets the units back exactly when no unit is cut inside a packet |
| DNS names | `DnsName`, `DnsCompression`, `DnsSaving` | any message of names and other bytes reads back, with one shared suffix table; a name written before takes two bytes; circles are refused |
| Worker pool | `AsyncPool`, `AsyncProgress`, `AsyncCode` | in every interleaving: lists partition the work items, callbacks at most once with exactly known values, none after cancellation, all after shutdown; from every reachable state shutdown can finish and every waiting submission can get its callback |
| BFCP codec | `BfcpAttr`, `BfcpMsg`, `BfcpUnknown`, `BfcpWire`, `BfcpCode` | attribute trees of any nesting round trip, also with unknown attributes anywhere among them; the wire format field by field |
| BFCP client | `BfcpClient`, `BfcpAnswers`, `BfcpVerdicts` | every run: FIFO, one request on the network, four transmissions, one callback; ids differ over 65535 calls, so an answer is used once; verdicts are those of the transport |
| Dependency descriptor | `DdBits`, `DdCodec`, `DdBounds`, `DdVectors`, `DdCode` | bit-level round trip; ns(n) is prefix-free; exactly which byte strings the decoder handles inside its arrays |
| Audio buffer | `Aubuf`, `AubufStream`, `AubufBound`, `AubufFill`, `AubufCode` | every run: counter exact, a byte queue in order, a bound on the queue; when playback starts and starts again |
| RTSP and H.264 | `Rtsp`, `RtspCode`, `FuA`, `FuACode` | any segmentation of the TCP stream gives the same events; FU-A streams are received exactly |
| Signal and layout | `Fir`, `FirCode`, `ResampCode`, `Vidmix` | ring filter is a convolution in any chunks; in-place downsampling is selection; tiles never overlap and have the stated sizes |

`Bytes` holds bytes, results and concatenation, `Arith` the arithmetic of products and quotients.

`mbuf` is a byte sequence with a position, lists are sequences, allocation succeeds, callbacks and packets sent
are recorded, and what the outside world decides (transport errors, values of work handlers, the effect of an
RTSP request) is a parameter. `Byte` is an integer below 256; shifts and masks of the C code are written as
division and remainder.

## Where the code does not do what it seems to promise

* AV1: reassembly fails at LEB128 size boundaries. A unit that fits without a prefix but not with one is retried
  with a shorter length whose prefix is one byte shorter than reserved, so the rest of the unit starts a second
  element of the same packet, and nothing tells a receiver that the two belong together. `Av1Layout.Straddles` is the
  guard of that branch, `Av1Packetizer.CutWitness` the smallest case (128 bytes left, 129 bytes of room), and
  `Av1Packetizer.Reassembly` says that the units come back if and only if the count of such cuts is zero.
* AV1: a last unit without size field and without payload is lost, since the scan stops when fewer than two bytes
  are left (`Av1Obu.ScanUnsizedLast`).
* BFCP: an attribute whose value has two bytes but whose length claims more is decoded, and decoding goes on after
  its first word, inside what it claimed (`BfcpUnknown.FixedSizeLeavesRest`).
* Dependency descriptor: the decoder checks only the number of templates against the arrays of `struct dd`, and
  writes past the others when a byte string brings a seventeenth decode target indication, a seventeenth frame
  difference in a template or a fifth resolution. `DdBounds.InsideIff` says exactly which byte strings keep
  every write inside, `DdBounds.InsideWhenDecoded` puts it in terms of the decoded descriptor, and
  `DdBounds.OverrunWitness` is a string of ten bytes that does not.
* Audio buffer: the silence behind short data is missing on a first read that drops old frames. The
  caller's buffer is blanked only if fewer bytes are queued than asked for *before* the drop.
  `AubufStream.ReadOutput` gives the exact condition, `AubufStream.StaleFirstRead` a family of reads that meet it, and
  `AubufStream.StaleWitness` a run that leads to one.
* Audio buffer: timestamps that never decrease do not keep packets in order, because reading part of a frame
  moves its timestamp on (`AubufStream.OverlapReorders`). The buffer is a byte queue as long as each frame
  finds no later one at the end of the queue (`AubufStream.AtEndIff`, `AubufStream.RunFate`). Frames that do not begin before
  the last one ended do so (`AubufStream.HorizonAtEnd`), and so do frames without timestamps
  (`AubufStream.UntimedAtEnd`).
* RTSP: an interleaved frame that announces more than 16380 bytes can never be delivered
  (`Rtsp.OversizeNeverDelivered`). A NUL byte before the blank line of a request stalls the connection for good, since the
  search is `strstr` (`Rtsp.NulStalls`).
* H.264: a frame whose last NAL unit is empty is sent without a marker (`FuA.MarkerMissing`).
* Video mixer: with a focused source that is not visible, the last source gets no tile if the number of visible
  sources is even and at least 6 (12 in full-focus mode) (`Vidmix.WhoIsShown`, `Vidmix.HiddenFocusWitness`).
* Worker pool: a submission without work handler reports the error value that its recycled work item was left
  with, because `re_async` does not reset it. `AsyncPool.CallbacksAtMostOnce` says what that value is in every reachable
  state, `AsyncPool.StaleError` that it is 0 if and only if no handler had run on the item or the last one returned 0, and
  `AsyncPool.StaleWitness` is a run in which it is not.

## Model

| member | source | states |
|---|---|---|
| `Leb128.CalcSize` | re-4.6.0/src/av1/pkt.c:51-64 | the loop computes the number of bytes that the encoding takes |
| `Leb128.EncodeTo` | re-4.6.0/src/av1/obu.c:46-65 | appends the LEB128 form of the value |
| `Leb128.DecodeFrom` | re-4.6.0/src/av1/obu.c:77-102 | the number and bytes used, at most eight groups; EBADMSG when the bytes end early |
| `Leb128.RoundTrip` | re-4.6.0/src/av1/obu.c:46-102 | every number is read back and exactly its own bytes are used, whatever follows |
| `Leb128.RoundTripAtMost` | re-4.6.0/src/av1/obu.c:77-102 | the library decoder reads back every number below 2^56 |
| `Leb128.LargestNumber` | re-4.6.0/src/av1/obu.c:77-102 | the numbers that the decoder gets whole are those of 56 bits |
| `Leb128.EncodeForm` | re-4.6.0/src/av1/obu.c:46-65 | bit 7 on every byte but the last; the number of bytes is the least possible |
| `Leb128.CutShort` | re-4.6.0/src/av1/obu.c:77-102 | a number of which bytes are missing is refused |
| `Av1Obu.HeaderRoundTrip` | re-4.6.0/src/av1/obu.c:116-203 | a sized unit is decoded with its type, size and payload, whatever follows |
| `Av1Obu.TruncatedRefused` | re-4.6.0/src/av1/obu.c:148-203 | every proper prefix of a sized unit is refused with EBADMSG |
| `Av1Obu.HeaderBits` | re-4.6.0/src/av1/obu.c:148-203 | the layout of the header byte; EBADMSG for the forbidden bit, ENOTSUP for an extension; without size flag the unit takes the rest |
| `Av1Obu.NotSent` | re-4.6.0/src/av1/obu.c:19-34 | of the types that AV1 defines, exactly temporal delimiters, tile lists and padding are not sent |
| `Av1Obu.UnsizedRoundTrip` | re-4.6.0/src/av1/obu.c:116-203 | a unit without size flag is decoded with its type and payload |
| `Av1Obu.ScanRoundTrip` | re-4.6.0/src/av1/obu.c:263-291 | the buffer of any list of units is well formed and scanning it finds exactly the sendable ones, in order |
| `Av1Obu.ScanUnsizedLast` | re-4.6.0/src/av1/obu.c:263-291 | a last unit without size is found after any list of sized ones, if and only if its payload is not empty |
| `Av1Obu.CountRtp` | re-4.6.0/src/av1/obu.c:263-291 | counts the sendable units, 0 for a malformed buffer |
| `Av1Layout.FragmentFits` | re-4.6.0/src/av1/pkt.c:198-311 | the fragment with its prefix fits the room; it is empty exactly when the packet is full |
| `Av1Layout.PartialFragment` | re-4.6.0/src/av1/pkt.c:240-311 | a fragment that leaves part of its unit ends the packet, except exactly in the straddling case |
| `Av1Layout.FillShape` | re-4.6.0/src/av1/pkt.c:323-374 | only the last element of a packet can lack a prefix, and then there are at most three |
| `Av1Layout.FillConserves` | re-4.6.0/src/av1/pkt.c:323-374 | a packet loses, repeats and reorders no byte of the units |
| `Av1Layout.FillProgress` | re-4.6.0/src/av1/pkt.c:323-374 | a packet is never empty and leaves less work, so packetizing ends |
| `Av1Layout.RunChained` | re-4.6.0/src/av1/pkt.c:409-453 | every payload has 1 to maxlen-1 bytes; Z is the Y before it; the marker only on the last packet, N only on the first |
| `Av1Layout.RunFailure` | re-4.6.0/src/av1/pkt.c:391-458 | the only error is the one that the scan of the buffer ends in |
| `Av1Layout.SplitsAlike` | re-4.6.0/src/av1/pkt.c:198-374 | the number of in-packet cuts depends on the sizes of the units and the flags only |
| `Av1Receiver.EncodeAggr` | re-4.6.0/src/av1/pkt.c:77-81 | the aggregation header is decoded to the same Z, Y, W and N |
| `Av1Receiver.WFieldAgrees` | re-4.6.0/src/av1/pkt.c:323-374 | elements of that shape parse by the W field into exactly what was written |
| `Av1Receiver.FilledPacketParses` | re-4.6.0/src/av1/pkt.c:323-374 | every packet parses by the W that the loop chose |
| `Av1Receiver.RunReceived` | re-4.6.0/src/av1/pkt.c:391-458 | the receiver ends with nothing open, and one extra unit for each in-packet cut |
| `Av1Receiver.RunConserves` | re-4.6.0/src/av1/pkt.c:391-458 | the elements of all packets concatenate to the units, cuts or not |
| `Av1Packetizer.FindAllowed` | re-4.6.0/src/av1/pkt.c:101-132 | the loop finds the first sendable unit of the rest of the buffer, its end, or the error |
| `Av1Packetizer.Context.UpdateCurrObu` | re-4.6.0/src/av1/pkt.c:101-132 | the pending work becomes that of the scanned rest of the buffer |
| `Av1Packetizer.Context.CopyFragment` | re-4.6.0/src/av1/pkt.c:149-183 | appends prefix and the next len bytes of the unit, header byte included, and leaves the rest |
| `Av1Packetizer.Context.CalcFragmentLenWithPrefix` | re-4.6.0/src/av1/pkt.c:198-220 | the estimate with its retry gives a fragment that fits with its prefix, non-empty in two bytes or more |
| `Av1Packetizer.Context.CalcFragmentLen` | re-4.6.0/src/av1/pkt.c:240-311 | the decision tree of the code computes the specified fragment, which fits the packet; ERANGE only for an overfull packet |
| `Av1Packetizer.CopyObusToPacket` | re-4.6.0/src/av1/pkt.c:323-374 | the loop fills the packet as specified, with its W and Y, or fails as the scan does |
| `Av1Packetizer.Packetize` | re-4.6.0/src/av1/pkt.c:391-458 | EINVAL cases; otherwise the packets of the layout up to the first that the handler refuses, with its error or that of the scan |
| `Av1Packetizer.SendAll` | re-4.6.0/src/av1/pkt.c:429-453 | the sending loop gives the handler exactly those packets, clears the new-stream flag with the first, and ends |
| `Av1Packetizer.NoneRefused` | re-4.6.0/src/av1/pkt.c:440-449 | a handler that refuses nothing is given every packet, and the error is that of the scan |
| `Av1Packetizer.Reassembly` | re-4.6.0/src/av1/pkt.c:198-374 | the receiver gets the sendable units exactly if and only if no unit is cut inside a packet; the surplus is the number of cuts |
| `Av1Packetizer.CutsBySize` | re-4.6.0/src/av1/pkt.c:198-374 | buffers with equally long units have equally many cuts |
| `Av1Packetizer.PacketsOf` | re-4.6.0/src/av1/pkt.c:391-458 | for every buffer: bounds, chained bits and conservation, and a prefix of the bytes on failure |
| `Av1Packetizer.EndToEnd` | re-4.6.0/src/av1/pkt.c:391-458 | from any list of units through buffer, packets and receiver back to the list, if and only if uncut |
| `Av1Packetizer.NeverCuts` | re-4.6.0/src/av1/pkt.c:198-311 | packets of at most 129 bytes, or units of at most 127, never run into the faulty branch |
| `Av1Packetizer.CutWitness` | re-4.6.0/src/av1/pkt.c:208-216 | a 128-byte unit in 129 bytes of room is not received as it was |
| `Av1Tight.LastUnprefixed` | re-4.6.0/src/av1/pkt.c:240-311 | the last unit, among the first three elements, goes without a prefix and as far as it fits |
| `Av1Tight.WholeWithPrefix` | re-4.6.0/src/av1/pkt.c:198-311 | a unit goes in whole with its prefix exactly when both fit and leave room for a next element |
| `Av1Tight.FillTight` | re-4.6.0/src/av1/pkt.c:323-374 | a packet that does not end the work lacks at most a prefix and a byte of being full |
| `Av1Tight.PacketsTight` | re-4.6.0/src/av1/pkt.c:391-458 | so does every packet but the last, for every buffer and packet size |
| `Av1Tight.AggrLayout` | re-4.6.0/src/av1/pkt.c:77-81 | where Z, Y, W and N stand in the aggregation header |
| `DnsName.LabelsSpell` | re-4.6.0/src/dns/dname.c:162-222 | joining the labels of a name with dots spells it |
| `DnsName.DecodeName` | re-4.6.0/src/dns/dname.c:162-222 | ends on every message and position; equals the specification; text and terminator fit 256 bytes |
| `DnsName.CopyLabel` | re-4.6.0/src/dns/dname.c:162-222 | the copying loop, within its array |
| `DnsName.TooManyJumps` | re-4.6.0/src/dns/dname.c:189-208 | a name that takes more than 256 jumps is refused |
| `DnsName.CirclesRefused` | re-4.6.0/src/dns/dname.c:189-208 | pointers that lead only to each other are refused, whatever their number |
| `DnsName.FoldByteIs` | re-4.6.0/src/dns/dname.c:58-63 | names are compared up to the case of the 26 ASCII letters and nothing else |
| `DnsCompression.Lookup` | re-4.6.0/src/dns/dname.c:58-71 | an entry with the name up to ASCII case; none if and only if the table has none |
| `DnsCompression.Message.EncodeName` | re-4.6.0/src/dns/dname.c:91-150 | appends the specified bytes, updates the table, EINVAL for an empty label |
| `DnsCompression.EncodeLabels` | re-4.6.0/src/dns/dname.c:107-150 | the byte loop with back-patched label lengths |
| `DnsCompression.DecodeReads` | re-4.6.0/src/dns/dname.c:162-222 | the decoder gives the labels at a position, up to the jump limit, and goes on where the name ends |
| `DnsCompression.TailReads` | re-4.6.0/src/dns/dname.c:91-150 | an encoded tail reads as its labels with pointers strictly backwards, and new entries point to their names |
| `DnsCompression.SpecReads` | re-4.6.0/src/dns/dname.c:37-55 | encoding one name keeps every table entry pointing to its own name |
| `DnsCompression.WriteKeepsTable` | re-4.6.0/src/dns/dname.c:37-55 | the same for any sequence of names and other bytes |
| `DnsCompression.MessageRoundTrip` | re-4.6.0/src/dns/dname.c:91-222 | decoding at any name of any message gives that name up to case and stops right after it; byte for byte without compression |
| `DnsSaving.LookupIff` | re-4.6.0/src/dns/dname.c:58-71 | a name is found if and only if the table has it in some spelling |
| `DnsSaving.Recorded` | re-4.6.0/src/dns/dname.c:37-55 | a name written within reach of a pointer is in the table |
| `DnsSaving.SpecUnique` | re-4.6.0/src/dns/dname.c:91-150 | no name is recorded twice |
| `DnsSaving.PointerBits` | re-4.6.0/src/dns/dname.c:74-77 | a pointer is two ones and fourteen bits of offset |
| `DnsSaving.KnownIsPointer` | re-4.6.0/src/dns/dname.c:101-103 | a known name is a pointer, and the table stays as it is |
| `DnsSaving.KnownTail` | re-4.6.0/src/dns/dname.c:125-135 | a new name whose tail is known is its first label and a pointer |
| `DnsSaving.RepeatedTakesTwo` | re-4.6.0/src/dns/dname.c:91-150 | in any message, a name that was written before, in any spelling, takes exactly two bytes |
| `DnsSaving.PlainBytes` | re-4.6.0/src/dns/dname.c:107-150 | without compression the bytes are the labels with their lengths, whatever the table knows |
| `DnsSaving.RefusedIff` | re-4.6.0/src/dns/dname.c:113-150 | EINVAL only for an empty label other than the root; without compression, for every such name |
| `AsyncPool.InitInv` | re-4.6.0/src/async/async.c:211-269 | a new pool satisfies the invariant |
| `AsyncPool.KeepTake` | re-4.6.0/src/async/async.c:43-83 | taking work keeps the invariant |
| `AsyncPool.KeepRun` | re-4.6.0/src/async/async.c:43-83 | so does a work handler |
| `AsyncPool.KeepPush` | re-4.6.0/src/async/async.c:43-83 | so does handing the item to the main thread |
| `AsyncPool.KeepDequeue` | re-4.6.0/src/async/async.c:149-168 | so does the first section of queueh |
| `AsyncPool.KeepRelease` | re-4.6.0/src/async/async.c:149-168 | so does freeing the item |
| `AsyncPool.KeepSubmit` | re-4.6.0/src/async/async.c:283-316 | so does a submission |
| `AsyncPool.KeepCancel` | re-4.6.0/src/async/async.c:325-372 | so does a cancellation |
| `AsyncPool.KeepDestroy` | re-4.6.0/src/async/async.c:86-127 | so does shutdown, after which no callback is due |
| `AsyncPool.KeepRuns` | re-4.6.0/src/async/async.c:43-372 | so does every sequence of steps; cancelled stays cancelled |
| `AsyncPool.ListsPartition` | re-4.6.0/src/async/async.c:43-83 | in every reachable state each item is in one list once; a current one is with one worker, or queued once, or in queueh |
| `AsyncPool.CallbacksAtMostOnce` | re-4.6.0/src/async/async.c:149-168 | no submission is called back twice; a value is that of its own work handler, or, without one, what its work item was left with |
| `AsyncPool.StaleError` | re-4.6.0/src/async/async.c:283-316 | without a work handler the value is 0 if and only if no handler had run on the item or the last one, another submission's, returned 0 |
| `AsyncPool.StaleWitness` | re-4.6.0/src/async/async.c:283-316 | a run in which a submission without work handler is called back with the 7 of another |
| `AsyncPool.CancelledNeverCalled` | re-4.6.0/src/async/async.c:325-372 | a submission with the cancelled id that has not been called back and is not being called back never is, whatever happens later |
| `AsyncPool.DestroyedAllCalled` | re-4.6.0/src/async/async.c:86-127 | after shutdown every uncancelled submission with a callback has been called back |
| `AsyncProgress.CanShutDown` | re-4.6.0/src/async/async.c:86-127 | from every state of every interleaving there are steps to the end of shutdown |
| `AsyncProgress.ShutdownCompletes` | re-4.6.0/src/async/async.c:86-127 | and at that end every uncancelled submission with a callback has been called back |
| `AsyncProgress.Drain` | re-4.6.0/src/async/async.c:43-83 | a live pool with a worker can work off everything without cancelling anything |
| `AsyncProgress.EverySubmissionCanFinish` | re-4.6.0/src/async/async.c:43-168 | in every reachable state before shutdown every waiting submission can get its callback, with a value |
| `AsyncProgress.TakesOldest` | re-4.6.0/src/async/async.c:65-67 | in every interleaving a worker takes the oldest submission that waits |
| `AsyncProgress.QueueIsFifo` | re-4.6.0/src/async/async.c:77-79 | finished items reach the main thread in the order they were pushed, over every run |
| `AsyncProgress.DroppedOnlyById` | re-4.6.0/src/async/async.c:325-372 | a submission is dropped only by a cancellation of its own id |
| `AsyncProgress.CancelledNeverRuns` | re-4.6.0/src/async/async.c:343-369 | a work handler that had not run when its submission was cancelled never runs |
| `AsyncCode.Async.constructor` | re-4.6.0/src/async/async.c:211-269 | idle workers and one free work item for each |
| `AsyncCode.Async.Submit` | re-4.6.0/src/async/async.c:283-316 | one Submit step, reusing the first free item if there is one |
| `AsyncCode.Async.Take` | re-4.6.0/src/async/async.c:43-83 | one Take step |
| `AsyncCode.Async.Run` | re-4.6.0/src/async/async.c:43-83 | one Run step |
| `AsyncCode.Async.Push` | re-4.6.0/src/async/async.c:43-83 | one Push step |
| `AsyncCode.Async.QueuehTake` | re-4.6.0/src/async/async.c:149-168 | one Dequeue step |
| `AsyncCode.Async.QueuehRelease` | re-4.6.0/src/async/async.c:149-168 | one Release step |
| `AsyncCode.Async.CancelId` | re-4.6.0/src/async/async.c:325-372 | one Cancel step |
| `AsyncCode.Async.DestroyPool` | re-4.6.0/src/async/async.c:86-127 | one Destroy step |
| `AsyncCode.CancelWaiting` | re-4.6.0/src/async/async.c:325-372 | the first loop moves exactly the matching waiting items to the free list and clears them |
| `AsyncCode.CancelCurrent` | re-4.6.0/src/async/async.c:325-372 | the second loop clears exactly the matching current items |
| `AsyncCode.Notify` | re-4.6.0/src/async/async.c:86-127 | ECANCELED for each callback of a list, in order, and none left |
| `AsyncCode.NotifyBoth` | re-4.6.0/src/async/async.c:86-127 | both lists: one call for each callback still set, waiting ones first |
| `BfcpAttr.ValueRoundTrip` | re-4.6.0/src/bfcp/attr.c:58-388 | every value in range is read back by its attribute type |
| `BfcpAttr.WholeWords` | re-4.6.0/src/bfcp/attr.c:58-208 | encoded attributes are whole 32-bit words |
| `BfcpAttr.AttrRoundTrip` | re-4.6.0/src/bfcp/attr.c:58-388 | an attribute tree that fits its lengths is decoded anywhere in a buffer, and the position is right after it |
| `BfcpAttr.AttrsRoundTrip` | re-4.6.0/src/bfcp/attr.c:152-417 | the same for lists |
| `BfcpMsg.HeaderRoundTrip` | re-4.6.0/src/bfcp/msg.c:31-77 | the header is decoded to the same fields |
| `BfcpMsg.MsgRoundTrip` | re-4.6.0/src/bfcp/msg.c:95-193 | same header, same tree, no unknown attributes, exactly the bytes written |
| `BfcpUnknown.ItemsDecode` | re-4.6.0/src/bfcp/attr.c:360-417 | with raw attributes of unknown types anywhere between and inside: the known ones unchanged and in order, one unknown for each raw one, the mandatory unknown types in order |
| `BfcpUnknown.MessageDecodes` | re-4.6.0/src/bfcp/msg.c:161-193 | the same for a whole message anywhere in a buffer; the first sixteen unknown mandatory types are kept |
| `BfcpUnknown.FixedSizeLeavesRest` | re-4.6.0/src/bfcp/attr.c:265-290 | a value of two bytes that claims more: the decoder goes on after the first word, which is right if and only if one word was claimed |
| `BfcpWire.HeaderLayout` | re-4.6.0/src/bfcp/msg.c:31-45 | the fields of the header by their big-endian place |
| `BfcpWire.HeaderRefused` | re-4.6.0/src/bfcp/msg.c:48-77 | ENODATA, EBADMSG for the version, ENOSYS for a fragment, in this order, and accepted otherwise |
| `BfcpWire.AttrLayout` | re-4.6.0/src/bfcp/attr.c:58-140 | type, mandatory bit, length without padding, value, and fewer than four zeros to a whole word |
| `BfcpWire.GroupLayout` | re-4.6.0/src/bfcp/attr.c:152-208 | for a grouped attribute the length is that of everything, and the sub-attributes follow the value |
| `BfcpWire.ValueLayout` | re-4.6.0/src/bfcp/attr.c:72-128 | the bytes of each kind of value |
| `BfcpWire.TypeTable` | re-4.6.0/src/bfcp/attr.c:265-352 | which attribute type has which kind of value |
| `BfcpWire.AttrRefused` | re-4.6.0/src/bfcp/attr.c:241-294 | a plain attribute is refused if and only if its length is below 2, beyond the buffer, or too short for its type |
| `BfcpCode.AttrEncode` | re-4.6.0/src/bfcp/attr.c:58-140 | value after a gap, header into the gap, padding: the attribute's bytes; EINVAL for an unknown type |
| `BfcpCode.AttrsEncode` | re-4.6.0/src/bfcp/attr.c:152-208 | the attribute list's bytes at the end of the buffer |
| `BfcpCode.AttrTreeEncode` | re-4.6.0/src/bfcp/attr.c:152-208 | one attribute with its sub-attributes and back-patched length |
| `BfcpCode.MsgEncode` | re-4.6.0/src/bfcp/msg.c:95-120 | header with the word count in front of the attributes |
| `BfcpCode.AttrDecode` | re-4.6.0/src/bfcp/attr.c:232-388 | as the decoding function, for every buffer; unknown mandatory types are kept up to sixteen |
| `BfcpCode.AttrsDecode` | re-4.6.0/src/bfcp/attr.c:391-417 | the same for a stretch of the buffer, whose end is put back |
| `BfcpCode.MsgDecode` | re-4.6.0/src/bfcp/msg.c:161-193 | as the decoding function; the position is put back on a header error |
| `BfcpClient.StepInv` | re-4.6.0/src/bfcp/request.c:56-197 | every event keeps the transaction invariant |
| `BfcpClient.EveryRun` | re-4.6.0/src/bfcp/request.c:56-197 | timer armed exactly while something is queued; callbacks in order of acceptance, none twice or skipped; only the head has been sent, at most four times, with waits 500, 1000, 2000, 4000 |
| `BfcpClient.TimedOutAfterFour` | re-4.6.0/src/bfcp/request.c:80-109 | ETIMEDOUT is reported only after four transmissions |
| `BfcpClient.AllCalledBack` | re-4.6.0/src/bfcp/request.c:80-109 | without answers every accepted request is called back after four timeouts each |
| `BfcpAnswers.EveryRunTids` | re-4.6.0/src/bfcp/request.c:157-163 | in every run ids are 1 to 65535, and requests within 65535 calls of each other have different ones |
| `BfcpAnswers.OnlyItsAnswer` | re-4.6.0/src/bfcp/request.c:119-139 | an answer completes the first request exactly when all three fields agree; any other changes nothing |
| `BfcpAnswers.NoSecondAnswerEver` | re-4.6.0/src/bfcp/request.c:112-163 | an answer that has completed a request completes no later one of the next 65534 calls, whatever happens in between |
| `BfcpAnswers.AcceptedIff` | re-4.6.0/src/bfcp/request.c:143-197 | no error returned if and only if the request was accepted; otherwise the error is that of the encoder or the transport |
| `BfcpVerdicts.EveryVerdict` | re-4.6.0/src/bfcp/request.c:56-197 | in every run a reported failure is that of a transmission of the same request, or ETIMEDOUT; and every failed transmission is reported, to the handler or to the caller |
| `BfcpClient.Client.DispatchLoop` | re-4.6.0/src/bfcp/request.c:56-77 | as the transition function |
| `BfcpClient.Client.TmrHandler` | re-4.6.0/src/bfcp/request.c:80-109 | as the transition function |
| `BfcpClient.Client.HandleResponse` | re-4.6.0/src/bfcp/request.c:112-140 | handled exactly when it answers the head; as the transition function |
| `BfcpClient.Client.VRequest` | re-4.6.0/src/bfcp/request.c:143-197 | as the transition function, with the error returned |
| `DdBits.NsRoundTrip` | re-4.6.0/src/dd/putbit.c:80-108 | ns(n) is prefix-free: each v < n is read back and exactly its bits are consumed |
| `DdBits.PutBit.One` | re-4.6.0/src/dd/putbit.c:24-55 | one more bit, growing the buffer when needed |
| `DdBits.PutBit.Write` | re-4.6.0/src/dd/putbit.c:58-77 | the low bits of the value, most significant first |
| `DdBits.PutBit.WriteNs` | re-4.6.0/src/dd/putbit.c:80-108 | the ns(n) code of the value |
| `DdBits.GetBit.Bit` | re-4.6.0/src/h264/getbit.c:41-61 | the next bit, or 0 at the end |
| `DdBits.GetBit.Read` | re-4.6.0/src/h264/getbit.c:109-125 | the next n bits as a number, nothing consumed when there are fewer |
| `DdBits.GetBit.ReadNs` | re-4.6.0/src/h264/getbit.c:136-156 | the ns(n) decoder |
| `DdCodec.LayersRoundTrip` | re-4.6.0/src/dd/dd_enc.c:30-72 | legal steps between templates have an encoding and are read back |
| `DdCodec.FdiffsRoundTrip` | re-4.6.0/src/dd/dd_enc.c:97-130 | frame differences 1 to 16 round trip |
| `DdCodec.ChainsRoundTrip` | re-4.6.0/src/dd/dd_enc.c:133-170 | chain count, protection and differences round trip |
| `DdCodec.RendersRoundTrip` | re-4.6.0/src/dd/dd_enc.c:173-182 | render resolutions round trip |
| `DdCodec.StructureRoundTrip` | re-4.6.0/src/dd/dd_enc.c:185-224 | the dependency structure round trips |
| `DdCodec.ExtRoundTrip` | re-4.6.0/src/dd/dd_enc.c:227-252 | the extended fields round trip |
| `DdCodec.Encodes` | re-4.6.0/src/dd/dd_enc.c:255-275 | legal descriptors encode; they take more than three bytes exactly when extended |
| `DdCodec.RoundTrip` | re-4.6.0/src/dd/dd.c:301-328 | for descriptors that fit the arrays: decoding the bytes, whatever fills the last one, gives back every field |
| `DdCodec.TooManyTemplates` | re-4.6.0/src/dd/dd.c:71-111 | more than eight templates are refused with EOVERFLOW |
| `DdCodec.BySize` | re-4.6.0/src/dd/dd.c:301-328 | EBADMSG below three bytes, the mandatory fields alone for three, extended fields for more |
| `DdCodec.EncodeRefuses` | re-4.6.0/src/dd/dd_enc.c:55-252 | EBADMSG exactly for a step between layers that the format cannot express, else ENOTSUP exactly for active targets |
| `DdVectors.MandatoryBytes` | re-4.6.0/src/dd/dd_enc.c:17-27 | the three mandatory bytes |
| `DdVectors.LayerCodes` | re-4.6.0/src/dd/dd_enc.c:30-72 | the codes of the four steps between templates |
| `DdVectors.ChainBits` | re-4.6.0/src/dd/dd_enc.c:133-170 | two chains, bit by bit |
| `DdVectors.BrowserVector` | re-4.6.0/test/dd.c:250-310 | the descriptor of a browser is encoded to its bytes and decoded from them |
| `DdBounds.RowsInIff` | re-4.6.0/src/dd/dd.c:114-134 | a table stays inside its array exactly when its rows are short enough or the bits end first |
| `DdBounds.FdiffsInIff` | re-4.6.0/src/dd/dd.c:137-169 | a row of frame differences stays inside exactly when its bits do not announce and bring seventeen |
| `DdBounds.RendersInIff` | re-4.6.0/src/dd/dd.c:205-221 | the resolutions stay inside exactly when there are at most four or the bits end first |
| `DdBounds.ChainsInside` | re-4.6.0/src/dd/dd.c:172-202 | with at most 16 targets the chains stay inside |
| `DdBounds.InsideIff` | re-4.6.0/src/dd/dd.c:224-328 | exactly which byte strings keep every write of the decoder inside its array, in terms of their bits |
| `DdBounds.InsideWhenDecoded` | re-4.6.0/src/dd/dd.c:301-328 | a byte string that decodes does so inside the arrays if and only if its descriptor fits them |
| `DdBounds.LegalInside` | re-4.6.0/src/dd/dd.c:301-328 | what is encoded for a legal descriptor is decoded inside the arrays, to the same descriptor |
| `DdBounds.OverrunWitness` | re-4.6.0/src/dd/dd.c:114-134 | a byte string on which the decoder writes outside template_dti |
| `DdCode.WriteLayers` | re-4.6.0/src/dd/dd_enc.c:55-72 | the layers' bits, only the end mark for no template, or EBADMSG for a step that has none |
| `DdCode.WriteFdiffs` | re-4.6.0/src/dd/dd_enc.c:97-130 | the frame differences' bits |
| `DdCode.WriteChains` | re-4.6.0/src/dd/dd_enc.c:133-170 | the chains' bits |
| `DdCode.WriteStructure` | re-4.6.0/src/dd/dd_enc.c:185-224 | the structure's bits or its error |
| `DdCode.WriteExt` | re-4.6.0/src/dd/dd_enc.c:227-252 | the extended fields' bits, or the error for active targets |
| `DdCode.EncodeDd` | re-4.6.0/src/dd/dd_enc.c:255-275 | bytes that begin with the descriptor's bits, no more than needed |
| `DdCode.ReadLayers` | re-4.6.0/src/dd/dd.c:71-111 | as the parsing function: EOVERFLOW past eight templates, EBADMSG when bits end; one to eight templates |
| `DdCode.ReadFdiffs` | re-4.6.0/src/dd/dd.c:137-169 | stops exactly at a write outside its array; without one, as the parsing function |
| `DdCode.ReadChains` | re-4.6.0/src/dd/dd.c:172-202 | the same, zeros once the bits end |
| `DdCode.ReadStructure` | re-4.6.0/src/dd/dd.c:224-261 | the same; then there are at most 16 decode targets |
| `DdCode.ReadExt` | re-4.6.0/src/dd/dd.c:264-290 | the same, and the shift by the number of targets is defined |
| `DdCode.DecodeDd` | re-4.6.0/src/dd/dd.c:301-328 | decides for every byte string whether all writes stay inside; if so, the result is that of the decoding function |
| `Aubuf.InsertKeepsSorted` | re-4.6.0/src/list/list.c:229-250 | sorted insertion keeps the queue sorted |
| `Aubuf.TakeContents` | re-4.6.0/rem/aubuf/aubuf.c:77-120 | a read leaves the bytes behind those it takes, and its subtractions add up to their number |
| `Aubuf.DropCounted` | re-4.6.0/rem/aubuf/aubuf.c:420-428 | with an exact counter the drop loop ends with an exact counter, at no more than was wished for |
| `Aubuf.StepCounted` | re-4.6.0/rem/aubuf/aubuf.c:270-452 | every operation keeps the counter exact |
| `Aubuf.RunCounted` | re-4.6.0/rem/aubuf/aubuf.c:77-120 | over every run the counter, which the code only adds to and subtracts from, is the sum of the unread bytes, whatever the timestamps |
| `AubufStream.StepFate` | re-4.6.0/rem/aubuf/aubuf.c:270-452 | one step in which an appended frame finds no later one: bytes out, then bytes left, are bytes before, then bytes added |
| `AubufStream.RunFate` | re-4.6.0/rem/aubuf/aubuf.c:270-521 | over every run in which that holds at each append, the pieces heard and lost, then what is queued, are the appended bytes in order |
| `AubufStream.UntimedInOrder` | re-4.6.0/rem/aubuf/aubuf.c:296-300 | frames without timestamps, of one rate, do not begin before the last one ended |
| `AubufStream.HorizonAtEnd` | re-4.6.0/rem/aubuf/aubuf.c:270-318 | frames that do not begin before the last one ended find no later one, however far it has been read |
| `AubufStream.UntimedAtEnd` | re-4.6.0/rem/aubuf/aubuf.c:296-300 | so do frames without timestamps, from a new buffer |
| `AubufStream.AtEndIff` | re-4.6.0/src/list/list.c:229-250 | a frame goes to the end exactly when the last queued one is not later |
| `AubufStream.OverlapReorders` | re-4.6.0/rem/aubuf/aubuf.c:104-108 | equal timestamps after a partial read put new bytes before old ones |
| `AubufStream.ReadOutput` | re-4.6.0/rem/aubuf/aubuf.c:374-452 | the output is the bytes heard and then silence, for every caller's buffer, exactly when the read is not stale |
| `AubufStream.StaleFirstRead` | re-4.6.0/rem/aubuf/aubuf.c:420-431 | a first read of more than the wished latency is stale when the bytes are there |
| `AubufStream.StaleWitness` | re-4.6.0/rem/aubuf/aubuf.c:420-431 | a run of two appends after which a first read of two bytes returns one byte of the caller's |
| `AubufStream.LaterRead` | re-4.6.0/rem/aubuf/aubuf.c:374-452 | once started and filled, a read returns the next min(sz, cur) bytes and silence behind them, drops nothing, and leaves exactly the others |
| `AubufBound.StepBounded` | re-4.6.0/rem/aubuf/aubuf.c:302-314 | one step with equal packets that go to the end keeps at most ceil(max/p) frames, only the head of them partly read |
| `AubufBound.RunBounded` | re-4.6.0/rem/aubuf/aubuf.c:302-314 | so does every run, and the counter stays below max + p |
| `AubufBound.FromNew` | re-4.6.0/rem/aubuf/aubuf.c:132-163 | both results for every such run of a new buffer |
| `AubufBound.FromNewInOrder` | re-4.6.0/rem/aubuf/aubuf.c:270-318 | and so when no frame begins before the last one ended |
| `AubufFill.AppendsFill` | re-4.6.0/rem/aubuf/aubuf.c:293-295 | packets that fit what is left to fill count it down by their sizes |
| `AubufFill.SilentBefore` | re-4.6.0/rem/aubuf/aubuf.c:403-417 | until the wished stock is there every read is silence |
| `AubufFill.PlaybackStarts` | re-4.6.0/rem/aubuf/aubuf.c:270-452 | when it is there, the next read returns the bytes appended first |
| `AubufFill.SoundWhenFull` | re-4.6.0/rem/aubuf/aubuf.c:422-433 | with nothing to fill, a read takes all it can |
| `AubufFill.AfterUnderrun` | re-4.6.0/rem/aubuf/aubuf.c:403-449 | a read that finds too little asks for the stock again, less itself if a packet is larger than the stock |
| `AubufFill.RefillsAfterUnderrun` | re-4.6.0/rem/aubuf/aubuf.c:293-449 | after that, silence until packets have filled it, then sound |
| `AubufFill.ReadsFill` | re-4.6.0/rem/aubuf/aubuf.c:444-449 | less than a packet is waited for by reads alone |
| `AubufFill.ReadsDoNotFill` | re-4.6.0/rem/aubuf/aubuf.c:444-449 | a whole packet is not: no number of reads starts playback |
| `AubufFill.FlushIsNew` | re-4.6.0/rem/aubuf/aubuf.c:505-521 | after any run a flushed buffer is a new one, but for its statistics, last packet size and started flag |
| `AubufFill.DropsOnlyFirst` | re-4.6.0/rem/aubuf/aubuf.c:422-432 | frames are dropped for latency at most once |
| `AubufFill.Statistics` | re-4.6.0/rem/aubuf/aubuf.c:306-406 | the two counters are the numbers of overruns and underruns of the run |
| `AubufFill.OneSecond` | re-4.6.0/rem/auframe/auframe.c:110-116 | timestamps are microseconds |
| `AubufCode.Insert` | re-4.6.0/src/list/list.c:229-250 | the search from the tail inserts as specified |
| `AubufCode.ReadFrames` | re-4.6.0/rem/aubuf/aubuf.c:77-120 | the next min(sz, cur) bytes over the buffer; queue and counter as specified |
| `AubufCode.DropOld` | re-4.6.0/rem/aubuf/aubuf.c:420-428 | the loop ends, since the counter is exact, and keeps the specified frames |
| `AubufCode.Enqueue` | re-4.6.0/rem/aubuf/aubuf.c:302-314 | sorted insertion, and on an overrun the head is dropped and subtracted |
| `AubufCode.AudioBuffer.Append` | re-4.6.0/rem/aubuf/aubuf.c:270-318 | the specified next state, counter exact |
| `AubufCode.AudioBuffer.Read` | re-4.6.0/rem/aubuf/aubuf.c:374-452 | the specified next state and output, counter exact |
| `AubufCode.AudioBuffer.Flush` | re-4.6.0/rem/aubuf/aubuf.c:505-521 | the specified next state, counter exact |
| `Rtsp.NextUnitStable` | intercom_test/src/rtsp_server.c:993-1070 | later bytes do not change where a complete unit ends |
| `Rtsp.ProcessSplit` | intercom_test/src/rtsp_server.c:993-1070 | handling a stream may be cut anywhere |
| `Rtsp.AnySegmentation` | intercom_test/src/rtsp_server.c:972-1072 | every segmentation ends in the session, buffer and events of one-shot delivery, unless the buffer overflows |
| `Rtsp.OverflowPrefix` | intercom_test/src/rtsp_server.c:987-992 | an overflow closes the connection after the first events of one-shot delivery |
| `Rtsp.OversizeNeverDelivered` | intercom_test/src/rtsp_server.c:1006-1013 | a frame announced beyond the limit gives no event; the connection closes exactly when the bytes pass the limit |
| `Rtsp.RequestEndIff` | intercom_test/src/rtsp_server.c:1054-1061 | a request ends exactly behind the first blank line, if no NUL is before it |
| `Rtsp.RequestComplete` | intercom_test/src/rtsp_server.c:1054-1061 | a stream that begins with a request has a complete unit if and only if it has such a blank line |
| `Rtsp.NulStalls` | intercom_test/src/rtsp_server.c:1054-1059 | with a NUL before the blank line of a request no event follows, however the stream goes on; the connection closes exactly when the bytes pass the limit |
| `Rtsp.RtpStripped` | intercom_test/src/rtsp_server.c:1019-1038 | the payload found is the packet's, with any sources and extension |
| `Rtsp.FramingRoundTrip` | intercom_test/src/rtsp_server.c:993-1070 | the server gets out of the stream exactly the requests and sounds put in |
| `Rtsp.SegmentedRoundTrip` | intercom_test/src/rtsp_server.c:972-1072 | the same for every segmentation without overflow |
| `Rtsp.SoundPlayed` | intercom_test/src/rtsp_server.c:1015-1039 | a packet is played exactly with backchannel and speaker ready, on the right channel, and with a payload |
| `Rtsp.ShortFrame` | intercom_test/src/rtsp_server.c:1015-1039 | a frame shorter than an RTP header is passed over |
| `Rtsp.TeardownEnds` | intercom_test/src/rtsp_server.c:1054-1072 | once a request has freed the client nothing that follows has an effect |
| `RtspCode.FindBlank` | intercom_test/src/rtsp_server.c:1054-1061 | the end of the first blank line before any NUL |
| `RtspCode.Frame` | intercom_test/src/rtsp_server.c:1015-1039 | plays the payload of a backchannel packet, nothing otherwise |
| `RtspCode.Client.Recv` | intercom_test/src/rtsp_server.c:972-1072 | session, buffer, events and closing as specified; the loop ends because each turn shrinks the buffer |
| `FuA.FragmentsOk` | intercom_test/src/rtsp_server.c:1258-1309 | fragments fit 1200 bytes; S exactly on the first, E exactly on the last, never both |
| `FuA.PayloadsOk` | intercom_test/src/rtsp_server.c:1225-1311 | every payload has 1 to 1200 bytes |
| `FuA.PayloadSizes` | intercom_test/src/rtsp_server.c:1225-1309 | up to 1200 bytes one packet as it is; else fragments, all but the last of 1200 bytes, as few as possible |
| `FuA.FrameIsOneRun` | intercom_test/src/rtsp_server.c:1352-1366 | a frame of non-empty units is one run of packets with one timestamp |
| `FuA.FramePacket` | intercom_test/src/rtsp_server.c:1352-1366 | the k-th packet is numbered k later modulo 2^16, and has the marker exactly if it is the last |
| `FuA.NaluReceived` | intercom_test/src/rtsp_server.c:1225-1311 | an RFC 6184 receiver gets the unit, whole or fragmented |
| `FuA.StreamReceived` | intercom_test/src/rtsp_server.c:1352-1366 | over any stream it gets the exact frames, units and timestamps, across all wrap-arounds |
| `FuA.StampedAt` | intercom_test/src/rtsp_server.c:1352-1366 | frame k is stamped k fifteenths of a second later on the 90 kHz clock of 32 bits |
| `FuA.MarkerMissing` | intercom_test/src/rtsp_server.c:1229-1230 | a frame has a marker exactly when its last unit is not empty |
| `FuACode.VideoSender.SendFragments` | intercom_test/src/rtsp_server.c:1258-1309 | the loop over the offset sends the specified packets |
| `FuACode.VideoSender.SendNalu` | intercom_test/src/rtsp_server.c:1225-1311 | the packets of one unit, and the sequence number after them |
| `FuACode.VideoSender.SendFrame` | intercom_test/src/rtsp_server.c:1352-1366 | the packets of one frame, then the timestamp moves on |
| `Fir.FilteredSplit` | re-4.6.0/rem/fir/fir.c:39-67 | filtering may be cut anywhere |
| `Fir.AnyChunks` | re-4.6.0/rem/fir/fir.c:39-67 | filtering in any chunks is the clamped convolution of the whole stream |
| `Fir.PerChannel` | re-4.6.0/rem/fir/fir.c:39-67 | each channel is filtered as a stream of its own |
| `Fir.ImpulseResponse` | re-4.6.0/rem/fir/fir.c:52-58 | one sample comes out as the taps in order, then silence |
| `Fir.ConvAdds` | re-4.6.0/rem/fir/fir.c:52-58 | the filter is linear before the clamp |
| `Fir.Saturates` | re-4.6.0/rem/fir/fir.c:60-65 | rounds down, and saturates at the ends of 16 bits |
| `Fir.DownAt` | re-4.6.0/rem/auresamp/resamp.c:106-161 | output frame t is input frame t times ratio, converted |
| `Fir.DownMono` | re-4.6.0/rem/auresamp/resamp.c:106-130 | sample by sample for mono input |
| `Fir.DownStereo` | re-4.6.0/rem/auresamp/resamp.c:133-161 | sample by sample for stereo input; mono output adds the halves |
| `Fir.HalfIs` | re-4.6.0/rem/auresamp/resamp.c:133-145 | halves are rounded toward zero |
| `Fir.DownLength` | re-4.6.0/rem/auresamp/resamp.c:326-337 | the number of output samples is the one auresamp reports |
| `Fir.DownSplit` | re-4.6.0/rem/auresamp/resamp.c:106-161 | chunks of whole output frames may be downsampled one by one |
| `Fir.ResampleAnyChunks` | re-4.6.0/rem/auresamp/resamp.c:301-340 | resampling in such chunks is filtering everything and keeping every ratio-th frame |
| `FirCode.SizeOk` | re-4.6.0/rem/fir/fir.c:42-48 | the mask test accepts exactly the powers of two up to 256 |
| `FirCode.Pushed` | re-4.6.0/rem/fir/fir.c:55 | the ring keeps holding the last samples of the stream |
| `FirCode.Tap` | re-4.6.0/rem/fir/fir.c:57-58 | the ring gives the right sample for each tap, across the 32-bit wrap of the index |
| `FirCode.FirFilter.Reset` | re-4.6.0/rem/fir/fir.c:17-23 | silence for every ring size |
| `FirCode.FirFilter.Accumulate` | re-4.6.0/rem/fir/fir.c:52-58 | the convolution of the stream at its last sample |
| `FirCode.FirFilter.Filter` | re-4.6.0/rem/fir/fir.c:39-67 | the filtered stream, also in place; nothing for an unsupported size |
| `ResampCode.DownMonoToMono` | re-4.6.0/rem/auresamp/resamp.c:106-116 | selection of the input as it was, also in place |
| `ResampCode.DownMonoToStereo` | re-4.6.0/rem/auresamp/resamp.c:119-130 | the same; in place the ratio must be at least 2 |
| `ResampCode.DownStereoToMono` | re-4.6.0/rem/auresamp/resamp.c:133-145 | the same, each pair halved toward zero and added |
| `ResampCode.DownStereoToStereo` | re-4.6.0/rem/auresamp/resamp.c:148-161 | the same, pair by pair |
| `ResampCode.Downsampler.Resample` | re-4.6.0/rem/auresamp/resamp.c:301-340 | refused exactly when the output is too small; else every ratio-th frame of the filtered stream, and their number |
| `Vidmix.Rows` | re-4.6.0/rem/vidmix/vidmix.c:177-184 | the least side of a square that holds n tiles |
| `Vidmix.CalcRows` | re-4.6.0/rem/vidmix/vidmix.c:177-184 | the loop finds that side |
| `Vidmix.NoSharedPixel` | re-4.6.0/rem/vidmix/vidmix.c:91-151 | disjoint rectangles are those that share no pixel |
| `Vidmix.TilesInside` | re-4.6.0/rem/vidmix/vidmix.c:91-151 | every tile lies in the frame, for every list, view and size |
| `Vidmix.TilesDisjoint` | re-4.6.0/rem/vidmix/vidmix.c:91-151 | tiles of different sources do not overlap |
| `Vidmix.TilesShareNoPixel` | re-4.6.0/rem/vidmix/vidmix.c:91-151 | no pixel belongs to two sources |
| `Vidmix.GridTile` | re-4.6.0/rem/vidmix/vidmix.c:133-148 | without focus: the whole frame for one source, side by side for two or three, else row by row in list order |
| `Vidmix.FocusTile` | re-4.6.0/rem/vidmix/vidmix.c:101-132 | with a focus: it fills the frame from the top left up to the others and a pixel; these have one size and go down the right side, then left along the bottom |
| `Vidmix.TilesNonEmpty` | re-4.6.0/rem/vidmix/vidmix.c:91-151 | in a frame at least six pixels larger than the number of sources every tile has pixels |
| `Vidmix.WhoIsHidden` | re-4.6.0/rem/vidmix/vidmix.c:219-253 | without focus a source has a tile unless it is the hidden self view or hidden content; a full-screen focus has none |
| `Vidmix.WhoIsShown` | re-4.6.0/rem/vidmix/vidmix.c:219-256 | every other source has a tile if and only if there is no focus, the focus is visible, or the count is odd or small |
| `Vidmix.HiddenFocusWitness` | re-4.6.0/rem/vidmix/vidmix.c:107-131 | six sources and a focused one that is hidden: the sixth has no tile |
| `Vidmix.SourceMix` | re-4.6.0/rem/vidmix/vidmix.c:91-151 | the rectangle lies in the frame, and is the one that the layout theorems speak of |
| `Vidmix.FocusMix` | re-4.6.0/rem/vidmix/vidmix.c:101-132 | around a focused source: the rectangle lies in the frame; none past the last slot |
| `Vidmix.Mix` | re-4.6.0/rem/vidmix/vidmix.c:219-256 | the two loops give every source its tile and find the full-screen background |

## Left out

- Sockets, TLS, STUN, HTTP, camera and sound devices, the relay server, and every printer of names: foreign calls and text with no hard property.
- AV1: NULL arguments and allocation.
- `Av1Obu`: extension headers are rejected with ENOTSUP as in the code, not modelled further.
- DNS: an encoder without hash table; writing anywhere but at the end of the buffer; resource records and the DNS client, which add easy members or timers and hash tables.
- Worker pool: the grow/shrink timer and condition signalling; submissions after shutdown has begun; the mutexes themselves (steps are critical sections); cancellation is issued by the main thread.
- BfcpCode.AttrsEncode: states nothing for attributes longer than 255 bytes or values out of range, whose length byte the code truncates, because the format has no decoding for them.
- BfcpCode.AttrTreeEncode: as AttrsEncode.
- BfcpCode.MsgEncode: as AttrsEncode; the room left for the header is filled with zeros, where the code leaves the memory as it is.
- BfcpCode.AttrEncode: as AttrsEncode for the value; attributes given as NULL and encode handlers are not modelled, and the argument list is a tree.
- BFCP client: response handlers that issue requests themselves; the server side; the outcomes of transmissions come from a function.
- Dependency descriptor: active decode targets, which the encoder refuses; fields that are not sent are absent; what the decoder does after a write outside an array, which is undefined; an encoder given counts larger than the arrays of its own argument.
- DdBits.PutBit.Write: the EINVAL for more than 32 bits is not modelled, because no caller in the encoder asks for more.
- Audio buffer: the adaptive mode and its jitter statistics, which depend on wall-clock time and floating point; `aubuf_get`; frames without descriptor. A frame's sample rate, channels and format are one number, its bytes per second, and the update of a timestamp on a partial read looks at that frame's own rate.
- RTSP: what a request does (a parameter of the model), and the media policy of SETUP and PLAY.
- H.264: allocation failure in the middle of a unit; the interleaved TCP or UDP transport below the packets; several clients, which do not share counters.
- FIR: the product of channels and taps is taken not to overflow 32 bits; upsampling and `auresamp_setup`, which would add only easy members.
- Video mixer: scaling and drawing inside a rectangle; sources without a picture (their tile stays empty); products of frame size and tile count are taken not to overflow 32 bits.
- Memory pools, reference counts, hash and list internals, and the message queue are replaced by sequences, maps and a reliable FIFO.

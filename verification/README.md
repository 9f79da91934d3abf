# Wirepas dual-MCU link library: model and proofs

A gateway talks to its Wirepas sink over a serial line. The C library `gateway/c-mesh-api/lib` frames
requests, waits for confirms, polls for indications, cuts long packets into fragments and puts received
fragments together again; `gateway/sink_service/source/data.c` keeps a credit count on top of it. This
project models those parts in Dafny, in the form the C code has (loops over arrays, objects with fields
updated in place, intrusive linked lists), proves each method equal to a function of its inputs or of the
old state, and proves the library's promises about those functions and about whole runs.

`dafny verify dfyconfig.toml` verifies the project. Dependencies go from top to bottom:

| file | what it holds |
|---|---|
| `Bytes.dfy`, `TimeUtil.dfy` | little-endian fields; time conversions in 32-bit arithmetic |
| `Crc.dfy` | the table-driven frame check, the bitwise remainder it stands for, burst detection |
| `Slip.dfy`, `SlipLink.dfy`, `SlipSync.dfy` | framing (the "PROTOCOL" section of RFC 1055) in place; sending and receiving; when the receiver stays in step |
| `UtHash.dfy` | the intrusive hash table: two doubly linked lists per element, bucket doubling |
| `Fragments.dfy`, `ReassemblySpec.dfy`, `Reassembly.dfy` | completeness by sum of sizes; the store as a map; the C functions over the hash table, with allocation count |
| `Tiles.dfy`, `DsapTx.dfy`, `DsapRx.dfy` | cutting a payload, the sender's loop and packet ids, the receiver's handler |
| `Gathering.dfy`, `Tracking.dfy`, `EndToEnd.dfy` | one packet from sender to buffer; what arrivals alone tell of each packet; whole runs of many interleaved, lost and abandoned packets |
| `Requests.dfy`, `Corruption.dfy`, `StaleConfirms.dfy`, `Polling.dfy` | request/confirm exchange, damaged confirms, frame-id reuse, indication burst |
| `IndicationQueue.dfy` | the indication ring shared by the polling and the dispatching thread |
| `CallbackTable.dfy`, `Credit.dfy` | the table of pending transmissions and the downlink credit count |
| `Scratchpad.dfy` | block-wise upload and download of a scratchpad image |

## Where the code falls short of its promise

The model follows the code. Each of these is stated with the exact condition under which the promise holds.

- The SLIP loops write through an index of eight bits, on either side. A payload comes back from what `Slip_encode`
  lays exactly when it has at most 253 octets and fewer than 256 escaped ones (`Slip.DecodeOfEncodeIff`). One of 254
  octets leaves a decoded length of 0 (`Slip.BodyDecodesIff`), from which the checksum length is computed as a negative
  number; one of 130 delimiters is cut to at most eight octets by the encoder (`Slip.LostInEncoding`).
- `Slip_send_buffer` lays the frame exactly when the escaped payload has fewer than 256 octets and the escaped
  frame at most twice the payload plus two (`SlipLink.LaidIff`). With one octet more the closing delimiter goes
  past the end of the buffer, as for the payload db c0 c0 c0 (`SlipLink.OverrunExample`); with two more the frame is
  cut short, as for some nine octets (`SlipLink.TruncatedExample`). Leaving the former aside, what is sent is delivered
  exactly when it is laid, has at most 253 octets of payload, and has an escaped frame of four octets or more that fits
  the receiver (`SlipSync.SentDeliveredIff`).
- The receive loop stores one octet past its buffer exactly when it reports the overflow
  (`SlipLink.CollectFrame`).
- Garbage of four or more octets costs one call, and the receiver recovers, exactly when it overflows the buffer
  or decodes to a length that is neither 0 nor 1 modulo 256 with its last escape inside the buffer
  (`SlipSync.GarbageSurvivedIff`); 256 zeros do not (`SlipSync.PlainGarbageIff`).
- A frame whose escaped form has fewer than four octets is never received (`SlipSync.FrameReceivedIff`).
- A burst within two adjacent octets of a frame of up to 253 payload octets passes the check exactly when it turns the
  last payload octet by 0x89 and the low checksum octet by 0xA1 (`Slip.BurstPassesIff`).
- The node asks for a repetition by a frame whose checksum field reads FF FF. A confirm damaged so that its field reads
  the same is taken for that, and the request goes out again although the node has carried it out; any other damage a
  burst does ends the exchange (`Corruption.DamagedConfirm`).
- When the sum of sizes equals the full size, the packet is covered exactly if no octet comes twice and none
  lies beyond the packet (`Fragments.SumTestMeaning`). Fragments [0..2), [1..3) and a last one [4..5) fool the test
  (`Fragments.SumTestFooledByOverlap`), and the handler delivers an octet the packet never had in place of the missing
  one (`DsapRx.OverlapFoolsHandler`). An offset beyond the packet fools it too (`Fragments.SumTestFooledByOffset`); with
  it the handler delivers two such octets (`DsapRx.OffsetFoolsHandler`) or, from offset 1499 on, copies outside its
  buffer (`DsapRx.CopyLeavesBuffer`).
- A packet that passes the sum test leaves the store and is delivered exactly when its full size is at most 1500; a
  larger one stays, and the application gets the buffer as it was (`DsapRx.DeliveredIffItFits`). Nine fragments of 180
  octets are such a packet (`DsapRx.OversizeDeliversOldBuffer`).
- A confirm 256 requests old passes for the current one in some run (`StaleConfirms.OneMoreAccepted`); no stale
  confirm is accepted, whatever the traffic, exactly when none with the current id can be reached by the wait
  (`StaleConfirms.SafeIff`).
- A report of a transmission gives back the right credit exactly when one table entry carries its id
  (`Credit.CreditReturnedIff`); in some run two outstanding messages share an id (`Credit.ReusedIdLeaksCredit`).
- The weight of a message is kept in eight bits and vanishes for the empty message, and for some others when
  the mtu is below six octets (`Credit.WeightsSurviveIff`); sixteen weightless messages cost the next one
  its callback (`Credit.EmptyMessagesLoseCredit`).
- A scratchpad download treats the answer 1 as success but copies the block only on 0, so it can report
  success over unread octets (`Scratchpad.DownloadReadsNothing`); it returns the node's memory whatever the
  buffer held exactly when no block is answered 1 (`Scratchpad.DownloadReadsIff`).
- The scratchpad loops end exactly when the reported block limit is not zero, there is nothing to transfer, or some
  request is refused (`Scratchpad.EndsIff`). With a limit of zero and a node that refuses nothing they ask for blocks
  of no octets for ever (`Scratchpad.NoLimitNeverEnds`).
- 33 554 430 ms is converted precisely to internal time and coarsely back, and loses 430 ms; the round trip
  loses at most 8 ms exactly below that value (`TimeUtil.RoundTripIff`). The coarse branch shifts right
  where an exact conversion would shift left, which the same lemma covers.
- Comments that differ from the code: `slip_encode_buffer` is said to report overflow as -1 but returns -6,
  while its caller tests -1; `handle_indication` is said to return 1 when indications are pending but returns
  their number.

## Model

| member | source | states |
|---|---|---|
| Bytes.Le16RoundTrip | gateway/c-mesh-api/lib/wpc/include/util.h:17-51 | the two octets of a 16-bit field decode to the value encoded |
| Crc.LutIsEightShifts | gateway/c-mesh-api/lib/wpc/slip.c:22-51 | each of the 256 table entries is its index taken through eight division steps by x^16+x^12+x^5+1 |
| Crc.TableEqualsBitwise | gateway/c-mesh-api/lib/wpc/slip.c:72-84 | on every buffer and start value the table-driven register is the bit-by-bit remainder, most significant bit first |
| Crc.CrcFromBuffer | gateway/c-mesh-api/lib/wpc/slip.c:72-84 | the loop returns that remainder of the first len octets, started at 0xFFFF |
| Crc.BurstChangesRemainder | gateway/c-mesh-api/lib/wpc/slip.c:72-84 | two bit strings of one length that differ only inside sixteen consecutive bits have different remainders |
| Crc.TwoByteBurstChangesChecksum | gateway/c-mesh-api/lib/wpc/slip.c:72-84 | payloads of one length that differ only inside two adjacent octets have different checksums |
| Slip.EscapeShape | gateway/c-mesh-api/lib/wpc/slip.c:124-147 | an escaped string never contains the delimiter, has no dangling escape, and at most doubles in length |
| Slip.EscapeRoundTrip | gateway/c-mesh-api/lib/wpc/slip.c:94-147 | unescaping an escaped string gives the string, whatever follows it in memory |
| Slip.EscapedOctets | gateway/c-mesh-api/lib/wpc/slip.c:124-147 | the octets on the wire: DB DC for C0, DB DD for DB, any other for itself |
| Slip.UnescapedOctets | gateway/c-mesh-api/lib/wpc/slip.c:94-109 | an octet other than DB reads as itself, DB DC as C0, DB before anything else as DB; what follows is read on its own |
| Slip.WrappedAt | gateway/c-mesh-api/lib/wpc/slip.c:96-106 | a cell written through an eight-bit index holds the last octet whose number is the cell's modulo 256 |
| Slip.DecodeBuffer | gateway/c-mesh-api/lib/wpc/slip.c:94-109 | the in-place loop reads past its buffer exactly for a frame that ends it with a dangling escape; otherwise it returns the number of unescaped octets modulo 256 and leaves them as an eight-bit index does: all in front up to 256, the last ones wrapped around above; the rest of the buffer is untouched |
| Slip.EncodeBuffer | gateway/c-mesh-api/lib/wpc/slip.c:124-147 | reports -6 exactly when the escaped input does not fit fewer than 256 octets of room; otherwise it is written through the eight-bit index, its length returned modulo 256; nothing is written elsewhere |
| Slip.DecodeResult | gateway/c-mesh-api/lib/wpc/slip.c:154-175 | non-negative exactly when the checksum field matches the octets before it; otherwise one of the two CRC errors, which `Slip.DecodedExactly` tells apart |
| Slip.Decode | gateway/c-mesh-api/lib/wpc/slip.c:149-176 | stays inside the buffer exactly for frames with their last escape inside it and an unescaped length other than 0 and 1 modulo 256; then returns the result for the octets the decoded length covers, with the unescaped frame at the front of the buffer |
| Slip.DecodedExactly | gateway/c-mesh-api/lib/wpc/slip.c:149-176 | for every frame that can be decoded: the number of octets the index covers less two when the last two are the checksum of the others, else -7 when these two read FF FF and -5 when they do not |
| Slip.EscapedDecodes | gateway/c-mesh-api/lib/wpc/slip.c:94-176 | the same for the escaped form of any 2 to 255 octets, with no octet lost |
| Slip.DummyDecodes | gateway/c-mesh-api/lib/wpc/slip.c:162-172 | a frame whose checksum field is FF FF decodes to -7, unless that is its checksum |
| Slip.Encode | gateway/c-mesh-api/lib/wpc/slip.c:178-214 | lays the escaped payload followed by its escaped checksum, low octet first; an overflow at a checksum octet is added to the size instead of being reported, and would make the source write in front of the room exactly when it leaves a negative size |
| Slip.GoesInFrontIff | gateway/c-mesh-api/lib/wpc/slip.c:188-206 | a size made negative by an unnoticed error, with which the source would write in front of the room: exactly when the payload does not fit, or its first checksum octet does not fit behind fewer than six octets laid |
| Slip.EmissionIsBodyIff | gateway/c-mesh-api/lib/wpc/slip.c:178-214 | what is laid is the escaped frame exactly when the escaped payload has fewer than 256 octets |
| Slip.BodyDecodesIff | gateway/c-mesh-api/lib/wpc/slip.c:94-176 | an escaped frame of a payload decodes to its length exactly when that is at most 253; for 254 the decoded length is 0 |
| Slip.DecodeOfEncode | gateway/c-mesh-api/lib/wpc/slip.c:149-214 | decoding what the encoder lays for a payload of up to 253 octets with fewer than 256 escaped ones returns its length and leaves its octets in front |
| Slip.DecodeOfEncodeIff | gateway/c-mesh-api/lib/wpc/slip.c:149-214 | decoding what the encoder lays returns the payload's length exactly when it has at most 253 octets and fewer than 256 escaped ones |
| Slip.LostInEncoding | gateway/c-mesh-api/lib/wpc/slip.c:124-147 | 130 delimiters are laid as at most eight octets, which do not decode to 130 |
| Slip.BurstPassesIff | gateway/c-mesh-api/lib/wpc/slip.c:149-175 | a frame of up to 253 payload octets, hit within two adjacent octets anywhere, passes the check exactly when the last payload octet is turned by 0x89 and the low checksum octet by 0xA1 |
| Slip.BurstReported | gateway/c-mesh-api/lib/wpc/slip.c:162-172 | a burst within two adjacent octets that does not pass is reported as -7 exactly when it leaves FF FF in the checksum field, and as -5 otherwise |
| Slip.CorruptedFrameRejected | gateway/c-mesh-api/lib/wpc/slip.c:149-176 | a frame of up to 253 payload octets, hit inside two adjacent ones of them, decodes to a negative result |
| SlipLink.SendBuffer | gateway/c-mesh-api/lib/wpc/slip.c:216-242 | sends what the encoder lays, or its cut form, between delimiters, or reports an error when the write fails; the closing delimiter leaves the buffer exactly when what is laid has twice the payload plus three octets |
| SlipLink.LaidIff | gateway/c-mesh-api/lib/wpc/slip.c:216-242 | the delimited escaped frame is what is sent exactly when the escaped payload has fewer than 256 octets and the escaped frame at most twice the payload plus two |
| SlipLink.TruncatedExample | gateway/c-mesh-api/lib/wpc/slip.c:196-230 | nine octets whose frame needs twice the payload plus four |
| SlipLink.OverrunExample | gateway/c-mesh-api/lib/wpc/slip.c:196-230 | four octets for which twice the payload plus three are laid |
| SlipLink.CollectFrame | gateway/c-mesh-api/lib/wpc/slip.c:244-316 | the receive loop consumes the wire and yields the outcome of the recursive scan, ending on every wire; it stores past its buffer exactly when that outcome is the overflow |
| SlipLink.GetBuffer | gateway/c-mesh-api/lib/wpc/slip.c:244-328 | leaves its receiving buffer exactly on overflow or for a frame that cannot be decoded inside it; otherwise returns the decoded length with the payload in the caller's buffer, or the timeout or CRC error; the caller's buffer is untouched unless a payload is returned |
| SlipLink.ScanFrameSize | gateway/c-mesh-api/lib/wpc/slip.c:276-311 | only frames of four octets up to the receiving buffer's size reach the decoder |
| SlipLink.SilenceReturned | gateway/c-mesh-api/lib/wpc/slip.c:257-266 | a wire that falls silent before a frame is complete makes the call return -2 at once; what comes after the silence is left for the next call |
| SlipSync.ReadErrorsIgnored | gateway/c-mesh-api/lib/wpc/slip.c:267-270 | failed reads change neither the frame returned nor what is left on the wire |
| SlipSync.FrameReceivedIff | gateway/c-mesh-api/lib/wpc/slip.c:276-289 | a frame behind quiet noise is the next one received exactly when its escaped form has at least four octets |
| SlipSync.TooLongReturned | gateway/c-mesh-api/lib/wpc/slip.c:300-311 | an octet more than the receiving buffer holds makes the call return -1 |
| SlipSync.FramesReceivedInOrder | gateway/c-mesh-api/lib/wpc/slip.c:244-328 | for any list of frames separated by quiet noise, that many calls return exactly those frames in order and leave what follows |
| SlipSync.DeliversIff | gateway/c-mesh-api/lib/wpc/slip.c:318-327 | a received frame of some payload delivers it, inside the buffers, exactly when it has at most 253 octets |
| SlipSync.ReceiverStaysInStep | gateway/c-mesh-api/lib/wpc/slip.c:244-328 | over frames of any correct encoder, with quiet noise between them and read errors anywhere, every call of a session stays inside its buffers and returns the next payload of up to 253 octets |
| SlipSync.SentDeliveredIff | gateway/c-mesh-api/lib/wpc/slip.c:178-328 | a payload sent behind quiet noise is the next one received exactly when it has at most 253 octets and fewer than 256 escaped ones and an escaped frame of four octets or more that fits sender and receiver; payloads whose closing delimiter goes past the sender's buffer aside |
| SlipSync.SenderAndReceiverInStep | gateway/c-mesh-api/lib/wpc/slip.c:178-328 | over what the sender puts on the wire for any list of such payloads, with quiet noise and read errors, every call returns the next payload |
| SlipSync.GarbageSurvivedIff | gateway/c-mesh-api/lib/wpc/slip.c:276-319 | apart from the octet stored on overflow, the call that meets a run of garbage stays inside its buffers exactly when the garbage overflows or decodes to a length other than 0 and 1 modulo 256 with room for its last escape |
| SlipSync.ResynchronisesAfterGarbage | gateway/c-mesh-api/lib/wpc/slip.c:223-230 | after such a run of four or more octets, one call is lost and the next returns the following frame |
| SlipSync.PlainGarbageIff | gateway/c-mesh-api/lib/wpc/slip.c:94-109 | garbage without escapes is survived exactly when its length is neither 0 nor 1 modulo 256 |
| UtHash.AppendList | gateway/c-mesh-api/lib/wpc/include/uthash.h:281-287 | the application-order list grows by the new element at its end, all links consistent |
| UtHash.UnlinkList | gateway/c-mesh-api/lib/wpc/include/uthash.h:453-480 | the neighbours of a removed element are linked to each other, the list losing just it |
| UtHash.PushChain | gateway/c-mesh-api/lib/wpc/include/uthash.h:768-779 | a bucket chain gains the element at its head, all links consistent |
| UtHash.UnlinkChain | gateway/c-mesh-api/lib/wpc/include/uthash.h:790-803 | a bucket chain loses just the removed element, all links consistent |
| UtHash.PushBucket | gateway/c-mesh-api/lib/wpc/include/uthash.h:768-779 | the element joins the bucket its hash value selects and no other, and the count of that bucket goes up by one |
| UtHash.RemoveBucket | gateway/c-mesh-api/lib/wpc/include/uthash.h:790-803 | afterwards the buckets hold every member but the removed one, counts exact |
| UtHash.MoveHandle | gateway/c-mesh-api/lib/wpc/include/uthash.h:857-869 | an element moved during doubling keeps the buckets exact and the number of elements beyond the ideal chain length exact; its bucket's expansion multiplier grows only when outgrown |
| UtHash.MoveChain | gateway/c-mesh-api/lib/wpc/include/uthash.h:853-871 | a whole old chain is walked to its end while its links are rewritten, each element ending in its new bucket |
| UtHash.ExpandBuckets | gateway/c-mesh-api/lib/wpc/include/uthash.h:834-884 | twice the buckets hold the same members, each in the bucket its hash value selects, counts exact; the result counts the elements beyond the ideal chain length |
| UtHash.CeilingIsLeast | gateway/c-mesh-api/lib/wpc/include/uthash.h:849-851 | the ideal chain length is the least number of elements per bucket that suffices for all |
| UtHash.Table.MakeTable | gateway/c-mesh-api/lib/wpc/include/uthash.h:215-245 | a new table has 32 empty buckets and the one list element |
| UtHash.Table.Find | gateway/c-mesh-api/lib/wpc/include/uthash.h:156-176 | finds the element of a key exactly when the abstract map has the key, with the map's value |
| UtHash.Table.FindInBucket | gateway/c-mesh-api/lib/wpc/include/uthash.h:746-765 | the walk of one chain returns an element with the key, or none exactly when the chain has none |
| UtHash.Table.Add | gateway/c-mesh-api/lib/wpc/include/uthash.h:399-418 | adding an absent key extends the map by it and the insertion order at its end, keeping the table valid |
| UtHash.Table.AddToBucket | gateway/c-mesh-api/lib/wpc/include/uthash.h:768-787 | the buckets gain the element; their number doubles exactly when the bucket has reached its threshold and doubling is not inhibited |
| UtHash.Table.Expand | gateway/c-mesh-api/lib/wpc/include/uthash.h:834-884 | doubling keeps the members and updates the statistics; it is inhibited after two doublings in a row that left more than half the elements beyond the ideal length |
| UtHash.Table.Delete | gateway/c-mesh-api/lib/wpc/include/uthash.h:453-480 | the map loses the key, the insertion order loses just the element, the table stays valid |
| Fragments.SumTestIffCovered | gateway/c-mesh-api/lib/wpc/reassembly/reassembly.c:150-189 | for pairwise disjoint fragments inside the packet the sum of sizes equals the full size exactly when every octet is held |
| Fragments.SumTestMeaning | gateway/c-mesh-api/lib/wpc/reassembly/reassembly.c:167-182 | when the sum test passes, for any fragments at all, the packet is covered exactly if they are disjoint and no octet lies beyond the packet |
| Fragments.SumTestFooledByOverlap | gateway/c-mesh-api/lib/wpc/reassembly/reassembly.c:167-182 | [0..2), [1..3) and the last fragment [4..5) pass the test for the full size 5 and leave octet 3 out |
| Fragments.SumTestFooledByOffset | gateway/c-mesh-api/lib/wpc/reassembly/reassembly.c:167-182 | two disjoint fragments, one beyond the packet, pass the test and leave an octet out |
| Fragments.CopiedInPlace | gateway/c-mesh-api/lib/wpc/reassembly/reassembly.c:209-216 | after copying, every octet of a fragment disjoint from the others is at its place |
| Fragments.CopiedUntouched | gateway/c-mesh-api/lib/wpc/reassembly/reassembly.c:209-216 | octets no fragment holds are not written |
| Fragments.CopiedHeld | gateway/c-mesh-api/lib/wpc/reassembly/reassembly.c:209-216 | after copying, an octet some fragments hold is that of one of them |
| ReassemblySpec.ExpiredIffIdle | gateway/c-mesh-api/lib/wpc/reassembly/reassembly.c:286-314 | a packet is expired exactly when idle for at least (timeout + 1) seconds |
| ReassemblySpec.CollectedIffIdle | gateway/c-mesh-api/lib/wpc/reassembly/reassembly.c:286-314 | garbage collection removes exactly the packets idle for that long when their clock reading is taken, and leaves the others as they are |
| ReassemblySpec.OwnKeyOnly | gateway/c-mesh-api/lib/wpc/reassembly/reassembly.c:232-284 | adding for one key and retrieving it leave every other key's entry alone |
| ReassemblySpec.OwnEntryDecides | gateway/c-mesh-api/lib/wpc/reassembly/reassembly.c:232-269 | what an addition does depends only on the entry of its own key |
| ReassemblySpec.TakenIff | gateway/c-mesh-api/lib/wpc/reassembly/reassembly.c:93-148 | a fragment is taken exactly when its packet exists or can be allocated, its offset is new and both its blocks can be allocated; a refused one leaves at most an empty packet of its key |
| ReassemblySpec.RetrievedIff | gateway/c-mesh-api/lib/wpc/reassembly/reassembly.c:191-225 | a packet is taken out and its size reported exactly when it is complete and the caller's size suffices; otherwise nothing changes, and the size becomes 0 exactly for an incomplete packet |
| ReassemblySpec.AllocationsUpdate | gateway/c-mesh-api/lib/wpc/reassembly/reassembly.c:93-148 | replacing an entry changes the blocks in use by two for each fragment more or less |
| ReassemblySpec.AllocationsInsert | gateway/c-mesh-api/lib/wpc/reassembly/reassembly.c:72-91 | a new entry takes one block and two for each fragment |
| ReassemblySpec.AllocationsRemove | gateway/c-mesh-api/lib/wpc/reassembly/reassembly.c:209-224 | a removed entry gives back one block and two for each fragment |
| Reassembly.Reassembler.CreatePacketInHash | gateway/c-mesh-api/lib/wpc/reassembly/reassembly.c:72-91 | an absent key gets a new empty packet and one block is taken, or nothing changes when allocation fails |
| Reassembly.Reassembler.FindOrCreate | gateway/c-mesh-api/lib/wpc/reassembly/reassembly.c:232-250 | yields the packet of the key, new or found, or none exactly when it is absent and cannot be allocated |
| Reassembly.Reassembler.AddFragmentToFullPacket | gateway/c-mesh-api/lib/wpc/reassembly/reassembly.c:93-148 | succeeds exactly for a new offset with both allocations; then the fragment is prepended and two blocks are taken, else nothing changes and none leaks |
| Reassembly.Reassembler.IsPacketFull | gateway/c-mesh-api/lib/wpc/reassembly/reassembly.c:150-189 | the summing loop caches and returns whether the sizes reach the known full size |
| Reassembly.Reassembler.AddFragment | gateway/c-mesh-api/lib/wpc/reassembly/reassembly.c:232-269 | the whole call equals the function on the map from keys to fragments, on every allocation outcome, with the count of live blocks equal to packets plus twice the fragments |
| Reassembly.Reassembler.CopyAndFree | gateway/c-mesh-api/lib/wpc/reassembly/reassembly.c:209-216 | a copy would leave the caller's buffer exactly when some fragment reaches beyond it; otherwise every fragment is copied in list order and its two blocks freed |
| Reassembly.Reassembler.GetFullMessage | gateway/c-mesh-api/lib/wpc/reassembly/reassembly.c:271-284 | a copy would leave the caller's buffer exactly when a complete packet that fits the size given has a fragment beyond it; otherwise the call equals the function on the map, error cases included, and frees what the packet held |
| Reassembly.Reassembler.Turn | gateway/c-mesh-api/lib/wpc/include/uthash.h:1061-1063 | one step of the iteration visits the next element in insertion order, also when the current one is deleted |
| Reassembly.Reassembler.GarbageCollect | gateway/c-mesh-api/lib/wpc/reassembly/reassembly.c:286-314 | one pass, deleting while iterating and reading the clock anew for each packet in insertion order, leaves exactly the packets not expired at their reading, with the block count exact |
| Tiles.CountBounds | gateway/c-mesh-api/lib/wpc/dsap.c:188-193 | full tiles and the last, non-empty one add up to the length |
| Tiles.TileBounds | gateway/c-mesh-api/lib/wpc/dsap.c:232-242 | tiles lie inside the payload, are neither empty nor above the mtu, follow one another, and the last ends the payload |
| Tiles.TilesDisjoint | gateway/c-mesh-api/lib/wpc/dsap.c:232-242 | different tiles share no octet |
| Tiles.TileOf | gateway/c-mesh-api/lib/wpc/dsap.c:232-242 | every octet of the payload lies in a tile |
| DsapTx.FragmentFields | gateway/c-mesh-api/lib/wpc/dsap.c:234-257 | the 16-bit offset, length and last flag the loop computes for fragment i are those of tile i |
| DsapTx.OffsetBits | gateway/c-mesh-api/lib/wpc/dsap.c:127-146 | the offset field holds the offset in its low twelve bits, the last flag in its top bit and nothing between |
| DsapTx.Sender.HandFragment | gateway/c-mesh-api/lib/wpc/dsap.c:111-153 | the request handed to the stack for fragment i carries the tile's octets, offset and flag |
| DsapTx.Sender.SendFragments | gateway/c-mesh-api/lib/wpc/dsap.c:232-280 | the loop hands over the fragments in order, up to and including the first one refused, and reports that answer |
| DsapTx.Sender.DataTxRequest | gateway/c-mesh-api/lib/wpc/dsap.c:156-299 | a short payload takes one request and no packet id, a longer one all its fragments under one id, one above 1500 octets none; a link error is reported with its own code, a refusal with the node's; the callback is registered exactly on success |
| DsapTx.OnlyLastFragmentTracked | gateway/c-mesh-api/lib/wpc/dsap.c:127-136 | a transmission report is asked for on the last fragment only, and there exactly when a callback is given; the unacknowledged option and the four bits of the hop limit are on all |
| DsapTx.Tried | gateway/c-mesh-api/lib/wpc/dsap.c:264-279 | the loop stops behind the first refused fragment and nowhere before it |
| DsapTx.StopsAtRefusal | gateway/c-mesh-api/lib/wpc/dsap.c:264-279 | a fragmented payload is sent on only while the link reports no error and the node's confirm is 0 |
| DsapTx.MadeWhenNoneRefused | gateway/c-mesh-api/lib/wpc/dsap.c:186-280 | a payload none of whose requests is refused takes the least number of requests of at most mtu octets that hold it, one if it is empty |
| DsapTx.CounterIsIndex | gateway/c-mesh-api/lib/wpc/dsap.c:228-228 | the 16-bit counter is the number of fragmented sends modulo 65536 |
| DsapTx.SharedIdIff | gateway/c-mesh-api/lib/wpc/dsap.c:228-228 | across every wrap, two sends share a packet id exactly when a multiple of 4096 sends apart |
| DsapRx.Handler.Accept | gateway/c-mesh-api/lib/wpc/dsap.c:347-386 | a fragment that completes its packet takes it out of the store and to the application, any other only changes the store; the copy would leave the buffer exactly when a fragment of a packet of up to 1500 octets reaches beyond it |
| DsapRx.Handler.FragIndication | gateway/c-mesh-api/lib/wpc/dsap.c:318-404 | the handler equals its function: parsed fragment, delivery, and garbage collection when enabled and due, unless that copy would leave the buffer |
| DsapRx.ParsedFields | gateway/c-mesh-api/lib/wpc/dsap.c:338-346 | the offset is read from the low twelve bits and the flag from the top one, whatever the three between hold |
| DsapRx.DeliveredIffItFits | gateway/c-mesh-api/lib/wpc/dsap.c:347-386 | a packet that passes the sum test leaves the store, its fragments copied over the buffer and delivered, exactly when its full size is at most 1500; a larger one stays and the buffer is delivered as it was; nothing is delivered otherwise |
| DsapRx.OctetDelivered | gateway/c-mesh-api/lib/wpc/dsap.c:347-386 | each octet delivered of a packet of up to 1500 is one a fragment brought for its place, or the buffer's own where none has any |
| DsapRx.OversizeDeliversOldBuffer | gateway/c-mesh-api/lib/wpc/dsap.c:347-386 | nine fragments of 180 octets from an empty store deliver the old buffer, whatever they hold, and the packet stays in the store |
| DsapRx.OffsetFoolsHandler | gateway/c-mesh-api/lib/wpc/dsap.c:347-386 | from an empty store, a last fragment at offset 2 and one at a higher offset make the handler deliver four octets of which the packet held two |
| DsapRx.OverlapFoolsHandler | gateway/c-mesh-api/lib/wpc/dsap.c:347-386 | from an empty store, [0..2), [1..3) and the last fragment [4..5) make the handler deliver five octets of which the packet held four |
| DsapRx.CopyLeavesBuffer | gateway/c-mesh-api/lib/wpc/dsap.c:347-353 | with an offset from 1499 on, which twelve bits hold, the copy would leave the 1500-octet buffer |
| Gathering.WireRoundTrip | gateway/c-mesh-api/lib/wpc/dsap.c:111-153 | what the receiver reads from the packed offset and flag is the fragment the sender cut |
| Gathering.GatheredCoversIff | gateway/c-mesh-api/lib/wpc/reassembly/reassembly.c:150-189 | stored tiles cover the payload exactly when every tile has arrived |
| Gathering.SumReachesIff | gateway/c-mesh-api/lib/wpc/reassembly/reassembly.c:150-189 | their sizes add up to the payload's length exactly then |
| Gathering.HoldingMore | gateway/c-mesh-api/lib/wpc/reassembly/reassembly.c:93-189 | a tile that had not come is kept, and the packet becomes full exactly when it was the last one missing, in any order of arrival |
| Gathering.CopyYieldsPayload | gateway/c-mesh-api/lib/wpc/reassembly/reassembly.c:191-225 | copying all tiles out in the order they are listed yields the payload |
| EndToEnd.OwnStep | gateway/c-mesh-api/lib/wpc/reassembly/reassembly.c:232-269 | full size 0 is reported until the last missing fragment and the payload's length with it; duplicates change nothing |
| EndToEnd.AcceptStep | gateway/c-mesh-api/lib/wpc/dsap.c:347-386 | the payload is delivered byte for byte exactly with the last missing fragment, and its entry is gone |
| Tracking.GotIsSeen | gateway/c-mesh-api/lib/wpc/dsap.c:347-403 | while a packet is neither complete nor given up, what is tracked of it is what has been seen of it since nothing was held |
| Tracking.CollectionTimes | gateway/c-mesh-api/lib/wpc/dsap.c:394-403 | with collection enabled no arrival is handled without one in the last five seconds, and two are more than five seconds apart; disabled it never runs |
| Tracking.CollectedIffIdle | gateway/c-mesh-api/lib/wpc/dsap.c:394-403 | along a run a packet is given up exactly when the last collection is more than five seconds ago and its last new fragment came at least timeout + 1 seconds ago |
| Tracking.CompletedWhenAllSeen | gateway/c-mesh-api/lib/wpc/dsap.c:347-403 | a packet nothing is held of, all of whose fragments arrive without it being given up, is completed by the last of them and not before, whatever became of others |
| Tracking.CompletedOnceIffSeen | gateway/c-mesh-api/lib/wpc/dsap.c:318-404 | a packet never given up is completed in a run exactly if all its fragments arrive, and then once |
| EndToEnd.SweepKeepsInv | gateway/c-mesh-api/lib/wpc/dsap.c:394-403 | garbage collection takes out of the store exactly the packets the tracker gives up |
| EndToEnd.HandleStep | gateway/c-mesh-api/lib/wpc/dsap.c:318-404 | every call of the handler keeps the store equal to the tracker, each entry with exactly its fragments and stamp, and delivers exactly on completion |
| EndToEnd.Run | gateway/c-mesh-api/lib/wpc/dsap.c:318-404 | after every run of fragments of any packets, in any order, duplicated, interleaved, lost and given up, the store is what the tracker says |
| EndToEnd.DeliversCompletions | gateway/c-mesh-api/lib/wpc/dsap.c:318-404 | the deliveries of a run are the payloads of the packets completed, in order of completion, and nothing else |
| EndToEnd.DeliveredWhenAllSeen | gateway/c-mesh-api/lib/wpc/dsap.c:318-404 | a packet all of whose fragments arrive with no collection of its entry in between is delivered once, byte for byte, by the last of them, whatever happens to abandoned packets, and leaves the store |
| EndToEnd.CollectedKeyIsFree | gateway/c-mesh-api/lib/wpc/dsap.c:394-403 | once a packet has been given up nothing counts as held of it, and its key is out of the store and free for any other packet |
| EndToEnd.WellSpacedIsWellBehaved | gateway/c-mesh-api/lib/wpc/dsap.c:228-228 | packets the receiver still holds something of that are fewer than 4096 sends apart never share a key |
| EndToEnd.SendsDeliveredOnce | gateway/c-mesh-api/lib/wpc/dsap.c:156-404 | from the senders' counters to the application, through every wrap and with packets lost and given up: under that spacing a packet that is never given up is delivered once if all its fragments arrive, and not otherwise |
| Requests.Requester.SendRequestLocked | gateway/c-mesh-api/lib/wpc/wpc_internal.c:135-232 | one exchange: the frame id advances modulo 256, and result, confirm and consumption of the link are those of the exchange function |
| Requests.Requester.WaitForConfirm | gateway/c-mesh-api/lib/wpc/wpc_internal.c:161-231 | the waiting loop ends on every link and computes the exchange |
| Requests.AwaitBounded | gateway/c-mesh-api/lib/wpc/wpc_internal.c:161-231 | success means the last reception answers the request and no earlier one did; receptions and transmissions are bounded by the attempts and retries left |
| Requests.AwaitAt | gateway/c-mesh-api/lib/wpc/wpc_internal.c:161-231 | what the wait comes to at reception n, all before it being foreign or asking for a repetition: success, the error that ends it, or going on |
| Requests.ExchangeBounded | gateway/c-mesh-api/lib/wpc/wpc_internal.c:135-232 | at most 53 receptions and 4 transmissions whatever the link does; success only with matching primitive id + 0x80 and frame id |
| Requests.ConfirmedIff | gateway/c-mesh-api/lib/wpc/wpc_internal.c:135-232 | for any payloads: an exchange is confirmed by its n-th reception exactly when the request was accepted for sending, that reception answers it, and each earlier one is foreign, at most 49, or asks for a repetition, at most 3, each accepted for sending |
| Requests.FailsWith | gateway/c-mesh-api/lib/wpc/wpc_internal.c:135-232 | an exchange that fails does so with the code of the first reception that ends the wait, -1 after a refused transmission, or -3 at the fiftieth foreign frame |
| Requests.BoundsReached | gateway/c-mesh-api/lib/wpc/wpc_internal.c:41-46 | some link makes an exchange take exactly 53 receptions and 4 transmissions and lose synchronisation |
| Corruption.DamagedConfirm | gateway/c-mesh-api/lib/wpc/wpc_internal.c:161-193 | a confirm hit by a burst that does not pass the check makes the request go out again exactly when the hit left FF FF in the checksum field; otherwise the exchange ends with -5 |
| Corruption.DummyConfirm | gateway/c-mesh-api/lib/wpc/wpc_internal.c:166-182 | the node's dummy confirm with its checksum field set to FF FF makes the request go out again |
| StaleConfirms.AcceptedAnswersCurrent | gateway/c-mesh-api/lib/wpc/wpc_internal.c:195-231 | with fewer than 256 requests between the oldest item on the link and the current one, an accepted confirm answers the current request and nothing older is left |
| StaleConfirms.NoStaleConfirmAccepted | gateway/c-mesh-api/lib/wpc/wpc_internal.c:135-232 | the same at every point of every run with late, damaged and lost confirms, dummies that ask for a repetition, and answers to repeated requests |
| StaleConfirms.NextKeepsInv | gateway/c-mesh-api/lib/wpc/wpc_internal.c:135-232 | sends, arrivals and waits keep what is on the link in the order of its requests |
| StaleConfirms.CollectTakesFront | gateway/c-mesh-api/lib/wpc/wpc_internal.c:161-231 | a wait takes what it receives off the front of the link and leaves the rest |
| StaleConfirms.AnsweredAfterRepeats | gateway/c-mesh-api/lib/wpc/wpc_internal.c:161-231 | some run brings up to three dummies and then the confirm of any request, which is accepted with whatever it carries |
| StaleConfirms.SafeIff | gateway/c-mesh-api/lib/wpc/wpc_internal.c:161-231 | no stale confirm is accepted for any primitives exactly when no intact confirm the wait can reach has the current id without being the current one |
| StaleConfirms.OneMoreAccepted | gateway/c-mesh-api/lib/wpc/wpc_internal.c:137-147 | some run brings a confirm exactly 256 requests old, and with the same primitive it is accepted |
| Polling.Host.HandleIndication | gateway/c-mesh-api/lib/wpc/wpc_internal.c:277-306 | an indication is acknowledged asking for more exactly when some are pending and it is not the last one wanted, and handed on; otherwise the timeout error |
| Polling.Host.GetIndicationLocked | gateway/c-mesh-api/lib/wpc/wpc_internal.c:320-365 | the poll reads, acknowledges and returns what the burst function says, error cases included |
| Polling.PollAtMostMax | gateway/c-mesh-api/lib/wpc/wpc_internal.c:352-362 | at most the wanted number of indications reaches the callback, whatever the link does |
| Polling.BurstIsExact | gateway/c-mesh-api/lib/wpc/wpc_internal.c:277-365 | whatever arrives: the burst reads on while more are pending and wanted, acknowledging each; it ends with what its last indication says, or with -2 at the first one that does not come |
| Polling.PollIsExact | gateway/c-mesh-api/lib/wpc/wpc_internal.c:320-365 | a whole poll whatever arrives: nothing and 0 after a confirm that says nothing is pending, such a burst otherwise |
| Polling.AcknowledgementsAgree | gateway/c-mesh-api/lib/wpc/wpc_internal.c:277-365 | without link errors the host reads on exactly when its last acknowledgement asked for more, the final one asks for none, and the result says whether some are left |
| Polling.BurstDrains | gateway/c-mesh-api/lib/wpc/wpc_internal.c:277-365 | against a node that sends only while polled or asked for more, host and node end the burst together: no wait is in vain, the indications come in order, and the node is left stopped with exactly the rest |
| Polling.PollDrains | gateway/c-mesh-api/lib/wpc/wpc_internal.c:320-365 | a whole poll of a node whose confirm says whether it has anything queued: the host reads the first indications, as many as there are or are wanted, in order, waits for nothing else, returns 1 exactly when some are left, and those are what the node keeps |
| Polling.PollFails | gateway/c-mesh-api/lib/wpc/wpc_internal.c:327-344 | a poll that may read nothing returns -4 and one whose request failed returns its code; neither waits, reads or acknowledges |
| Polling.PollReactionExists | gateway/c-mesh-api/lib/wpc/wpc_internal.c:320-365 | there is such a node to every host |
| Polling.ReactionExists | gateway/c-mesh-api/lib/wpc/wpc_internal.c:277-365 | every host meets such a reaction of the node |
| IndicationQueue.Queue.OnIndicationReceived | gateway/c-mesh-api/lib/platform/linux/platform.c:134-159 | inserts at the write index, or reports no room exactly when the indices meet on a non-empty queue |
| IndicationQueue.AsksForRoom | gateway/c-mesh-api/lib/platform/linux/platform.c:182-217 | in every interleaving the poller asks for as many indications as there are free slots, thirty at most, or for none when the last slot has been given back and the flag does not say so yet |
| IndicationQueue.PollGrants | gateway/c-mesh-api/lib/platform/linux/platform.c:182-217 | every poll of every run may insert exactly as many indications as slots are free, thirty at most; it does not happen on a full ring, or when the last slot has been given back and the flag does not say so yet |
| IndicationQueue.AdvanceFreesOne | gateway/c-mesh-api/lib/platform/linux/platform.c:119-119 | advancing the read index gives back the slot of the indication just dispatched and no other |
| IndicationQueue.EmptyIffNothingPending | gateway/c-mesh-api/lib/platform/linux/platform.c:119-124 | except between the dispatcher's two stores the flag says exactly whether nothing is pending |
| IndicationQueue.IndicesTell | gateway/c-mesh-api/lib/platform/linux/platform.c:182-209 | the two indices determine the number of pending indications up to empty or full |
| IndicationQueue.NextKeepsInv | gateway/c-mesh-api/lib/platform/linux/platform.c:86-217 | every step of either thread keeps the ring invariant, also a poll between the dispatcher's two stores |
| IndicationQueue.FifoWithoutLoss | gateway/c-mesh-api/lib/platform/linux/platform.c:86-217 | in every interleaving what is dispatched is a prefix of what was received, nothing is dropped, and an idle empty queue has dispatched all |
| IndicationQueue.HeldSlotStable | gateway/c-mesh-api/lib/platform/linux/platform.c:106-119 | from taking a slot to advancing the read index, the slot holds the indication that is due and no step of either thread changes it |
| IndicationQueue.NeverNoRoom | gateway/c-mesh-api/lib/platform/linux/platform.c:139-144 | the "No more room" branch is never taken |
| IndicationQueue.RunExtends | gateway/c-mesh-api/lib/platform/linux/platform.c:86-217 | every enabled step of a reachable state extends the run |
| IndicationQueue.PollTakesIn | gateway/c-mesh-api/lib/platform/linux/platform.c:134-217 | from every reachable state with an idle poller, outside the dispatcher's two stores, a poll can take in any indications there is room for, thirty at most |
| IndicationQueue.EverythingGetsThrough | gateway/c-mesh-api/lib/platform/linux/platform.c:86-217 | from every reachable state some continuation dispatches everything received so far and then any further indications, in order: the queue never gets stuck |
| CallbackTable.FirstFree | gateway/c-mesh-api/lib/wpc/dsap.c:54-63 | the slot chosen is free and every slot before it is busy |
| CallbackTable.CallbackOf | gateway/c-mesh-api/lib/wpc/dsap.c:68-83 | no callback exactly when no busy entry has the id, otherwise that of the last such entry |
| CallbackTable.IndicationTable.SetIndicationCb | gateway/c-mesh-api/lib/wpc/dsap.c:50-66 | succeeds exactly when an entry is free, and then the first free one is taken and no other changes |
| CallbackTable.IndicationTable.GetIndicationCb | gateway/c-mesh-api/lib/wpc/dsap.c:68-83 | releases every busy entry with the id and returns the callback of the last of them |
| CallbackTable.TotalAfterRegister | gateway/c-mesh-api/lib/wpc/dsap.c:50-66 | registering adds the id's weight to the sum over the table |
| CallbackTable.TotalAfterRelease | gateway/c-mesh-api/lib/wpc/dsap.c:68-83 | releasing an id takes its weight out once for every entry that carried it |
| CallbackTable.RegisterThenRelease | gateway/c-mesh-api/lib/wpc/dsap.c:50-83 | what was registered is found again, and releasing it restores the outstanding entries |
| Credit.Sink.SendMessage | gateway/sink_service/source/data.c:98-139 | a message is refused exactly when counter and weight exceed the limit; otherwise counter, id and table become those of the three steps of a send |
| Credit.Sink.TxIndication | gateway/c-mesh-api/lib/wpc/dsap.c:301-316 | a report releases the id and gives its weight back exactly when our callback was registered |
| Credit.FreeEntry | gateway/c-mesh-api/lib/wpc/dsap.c:288-292 | under the limit of 16 a message with weight always finds a free entry |
| Credit.IndicateKeepsBalance | gateway/sink_service/source/data.c:44-48 | a report at any moment of a send takes off the counter what it takes out of the table, modulo 256 |
| Credit.NextKeepsInv | gateway/sink_service/source/data.c:98-137 | every step of a send and every report keeps counter and table in balance |
| Credit.CounterIsOutstandingWeight | gateway/sink_service/source/data.c:98-137 | over whole runs: the outstanding weight never exceeds the limit, the counter equals it whenever a message is checked, and is zero when nothing is outstanding |
| Credit.OutstandingFragments | gateway/sink_service/source/data.c:98-137 | over whole runs a message is refused exactly when the requests made for it exceed the limit together with the outstanding weight, which grows by their number when the stack accepts it and never exceeds the limit |
| Credit.AllReported | gateway/sink_service/source/data.c:44-48 | from every point of a run between two sends, once all outstanding messages have been reported the counter is zero and the table free |
| Credit.CallbackAlwaysRegistered | gateway/c-mesh-api/lib/wpc/dsap.c:288-292 | over whole runs the callback of every accepted message is entered in the table |
| Credit.CreditReturnedIff | gateway/sink_service/source/data.c:44-48 | a report keeps counter and table equal exactly when one entry carries its id |
| Credit.ReusedIdLeaksCredit | gateway/sink_service/source/data.c:98-137 | in some run 255 refused messages lie between two accepted ones; the ids are equal, and one report releases both and gives back one |
| Credit.WeightsSurviveIff | gateway/sink_service/source/data.c:101-101 | every acceptable non-empty message has a non-zero eight-bit weight exactly when the mtu is at least six |
| Credit.WeightExactly | gateway/sink_service/source/data.c:101-101 | the weight of any message is the least number of pieces of at most mtu octets that hold it, modulo 256 |
| Credit.WeightIsFragments | gateway/sink_service/source/data.c:101-101 | for an mtu of at least six a message of up to 1500 octets weighs that number itself |
| Credit.WeightIsRequests | gateway/sink_service/source/data.c:101-101 | it is the number of requests the stack makes for the message when none is refused |
| Credit.EmptyMessagesLoseCredit | gateway/sink_service/source/data.c:98-137 | sixteen empty messages fill the table; the next message's credit is never given back |
| Scratchpad.Node.BlockRequest | gateway/c-mesh-api/lib/wpc/msap.c:249-282 | a block above 112 octets is refused locally; otherwise it is requested and the node's memory changes as its reply says |
| Scratchpad.Node.BlockReadRequest | gateway/c-mesh-api/lib/wpc/msap.c:406-441 | the block is copied into place exactly when the answer is 0; the rest of the buffer is untouched |
| Scratchpad.Node.UploadLocalBlockScratchpad | gateway/c-mesh-api/lib/wpc/wpc.c:931-967 | whenever the loop can end it does; its requests, its result and the node's memory are those of the transfer functions |
| Scratchpad.Node.DownloadLocalScratchpad | gateway/c-mesh-api/lib/wpc/wpc.c:1035-1071 | likewise for reading into the caller's buffer |
| Scratchpad.EndsIff | gateway/c-mesh-api/lib/wpc/wpc.c:945-965 | either loop is over after some number of rounds exactly when the block limit is not zero, nothing is to be transferred or some request is refused, and then after as many rounds as its walk has blocks or one more |
| Scratchpad.NoLimitNeverEnds | gateway/c-mesh-api/lib/wpc/wpc.c:945-965 | with a block limit of zero and no request refused no number of rounds is enough |
| Scratchpad.BlocksTileRange | gateway/c-mesh-api/lib/wpc/wpc.c:945-965 | a completed transfer asked for contiguous, non-empty blocks within the limit from start to start + len, and no others |
| Scratchpad.AnswersAre | gateway/c-mesh-api/lib/wpc/wpc.c:952-964 | the transfer goes on while the answers are 0 or 1 and reports the first other code |
| Scratchpad.CodeTells | gateway/c-mesh-api/lib/wpc/wpc.c:934-957 | the eight bits the loops keep tell every answer of the node, and no link error passes for an answer on which they go on |
| Scratchpad.LimitTooLarge | gateway/c-mesh-api/lib/wpc/wpc.c:945-958 | with a reported limit above 112 a longer transfer fails with code 6 before it has asked for anything, and a shorter one takes a single block |
| Scratchpad.UploadStores | gateway/c-mesh-api/lib/wpc/wpc.c:931-967 | an accepted upload leaves the image at its addresses and the rest of the memory unchanged |
| Scratchpad.UploadedExactly | gateway/c-mesh-api/lib/wpc/wpc.c:945-965 | after any upload, also one that fails, an octet of the node's memory is that of the image if its block was requested and stored, and what it was otherwise |
| Scratchpad.DownloadedExactly | gateway/c-mesh-api/lib/wpc/wpc.c:1049-1069 | after any download, also one that fails, an octet of the buffer is the node's if its block was requested and answered 0, and what it was otherwise |
| Scratchpad.DownloadReadsIff | gateway/c-mesh-api/lib/wpc/wpc.c:1049-1070 | a download that reports success returns the node's memory for every initial buffer exactly when no block was answered 1 |
| Scratchpad.DownloadOfUpload | gateway/c-mesh-api/lib/wpc/wpc.c:931-1071 | with any two block limits from 1 to 112, a download with every block answered 0 after an accepted upload returns the image |
| Scratchpad.DownloadReadsNothing | gateway/c-mesh-api/lib/wpc/msap.c:432-440 | a one-octet download answered 1 reports success and leaves the buffer as it was |
| TimeUtil.WithinASecondIff | gateway/c-mesh-api/lib/wpc/include/util.h:77-90 | the conversion to milliseconds never exceeds the exact value, and is less than a second below it exactly when the whole seconds in milliseconds fit 32 bits |
| TimeUtil.MsExactly | gateway/c-mesh-api/lib/wpc/include/util.h:77-90 | below the limit the last millisecond reached, above it the whole seconds in 32 bits |
| TimeUtil.InternalExactly | gateway/c-mesh-api/lib/wpc/include/util.h:103-118 | below the limit the last 1/128 second reached, above it the whole seconds divided by 128 |
| TimeUtil.RoundTripIff | gateway/c-mesh-api/lib/wpc/include/util.h:77-123 | milliseconds to internal time and back never gain, and lose at most 8 exactly below 33 554 430 ms |
| TimeUtil.LastFullPrecision | gateway/c-mesh-api/lib/wpc/include/util.h:103-118 | 33 554 430 ms comes back as 33 554 000 ms |

## Left out

- `gateway/sink_service/c-mesh-api` repeats `gateway/c-mesh-api`; one model serves both.
- The serial driver, clocks, sleeps, mutexes as such, process exit and logging: reads and writes are events of the wire, time is a parameter, the timestamp of the last answer is not modelled.
- The D-Bus handlers, the Python services, `msap.c`, `csap.c`, `attribute.c` beyond the two block requests, and the mapping of result codes by `convert_error_code`.
- Fields carried through unchanged (addresses, endpoints, quality of service, travel time, epoch timestamps) and the little-endian host assumption.
- SlipLink.CollectFrame: reports the store past the buffer instead of carrying it out. So do the other methods that say
  when the source leaves its memory (`outside`, `overran`): nothing is promised of what it does from there on.
- SlipLink.SendBuffer: the octet stored past the buffer is still there when the frame is written.
- UtHash.Table.Add: the table's own allocations succeed (the source exits otherwise); the hash function is a parameter; the bucket index is the remainder by the number of buckets, which is kept a power of two.
- Reassembly.Reassembler.GetFullMessage: the caller's buffer is not the hash's own memory; the fragment list of a packet is a sequence.
- Sorting, selection, Bloom filter and circular-list macros of the hash and list headers: nothing calls them.
- DsapRx.Handler.FragIndication: a data callback is registered (without one the source skips garbage collection after a delivery), and one clock reading serves the whole call.
- EndToEnd.Run: allocations succeed, packets are those the sender makes, no two of which the receiver holds something have one key, and the clock stays below 2^32 seconds.
- EndToEnd.SendsDeliveredOnce: no fragment of the packet counted comes after all have come; without that it may be delivered once for each complete round.
- Requests.Requester.SendRequestLocked: confirms are received whole or as an error; the link state is a function of the number of receptions and transmissions.
- StaleConfirms.NextKeepsInv: what arrives during a wait counts as on the link when the wait begins, and repeating a request never fails.
- IndicationQueue.NextKeepsInv: the poller's read of flag and indices is one snapshot; spurious wake-ups and shutdown are not modelled.
- Credit.WeightIsRequests: the sink service and the stack use the same mtu.
- Credit.Sink.SendMessage: adding to and subtracting from the counter are single steps, as are handing over and registering.
- Scratchpad.Node.UploadLocalBlockScratchpad: is about the runs of the loop that end, by `Scratchpad.EndsIff` all but those with a block limit of zero and no request refused; likewise `Scratchpad.Node.DownloadLocalScratchpad`.
- SlipSync.SentDeliveredIff: leaves aside payloads whose closing delimiter goes past the sender's buffer.
- Scratchpad.BlocksTileRange: the block limit read from the node is between 1 and 112 and the range does not wrap around 32-bit addresses.

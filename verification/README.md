# A model of the network and timing core

This project models, in Dafny, the pieces of the repository whose correctness
does not show in any single line of code, and proves what they promise:
checksums and CRCs, address printing, the address-to-name index, netlink
attributes and the address flush, the blocking message queue, the multiplexed
timer and the aligned field reader. One module stands for one component.

| module | models |
|---|---|
| `Octets` | octets, 16-bit words, bits by position, optional results |
| `OnesComplement` | the Internet checksum as sections 1 and 2 of RFC 1071 define it, and ones' complement arithmetic |
| `InCksum` | `in_cksum` and `in_cksum_shouldbe` |
| `Gf2` | polynomials over GF(2): bit-serial division, linearity, the division theorem |
| `CrcBits` | octets and words as bits |
| `Crc16`, `Crc10` | the two table-driven CRCs, with their full constant tables |
| `OsiChecksum` | the Fletcher checksum of ISO 8473-1, Appendix C, section C.3 |
| `AddressText` | reading IPv6 text by section 2.2 of RFC 4291 |
| `NumberText`, `Ipv6Text` | the texts that the printers produce |
| `CanonicalText` | their form: sections 4.1 and 4.3 of RFC 5952, and when a dotted quad is printed |
| `AddrToStr` | `addrtostr` and `addrtostr6` writing into a buffer |
| `RtAttributes` | `addattr_l`, `parse_rtattr_flags`, `parse_rtattr` and the `RTA_` macros |
| `AddrFlush` | the flush part of `print_addrinfo`, the dump walk, `flush_update`, `ipaddr_flush` |
| `NameTables`, `LinkNames` | the hash index of `addrtoname.c` and the keys of its link-level tables |
| `MsgQueue` | the linked list of the message buffer |
| `MsgProtocol` | its mutex and condition variable, as a state machine over all interleavings |
| `MulTimer` | the timer slots |
| `FieldReader` | `cpack.c` |

How the original's world appears here:

- The byte order of the machine is a parameter (`le`) of the checksum and
  netlink models; the parity of a piece's address is a field of the piece.
- Unsigned wrap-around, truncating `%`, the cut to 16 bits of header fields and
  the reading of 32 bits as a signed number are written out. The accumulator of
  `in_cksum` is a signed `int`, whose overflow is undefined in C; the model wraps
  at 2^32, and every addition goes through `InCksum.Plus`, whose precondition
  bounds it: no value reaches 2^31 up to 65024 octets.
- Memory of the name tables is a sequence of nodes and a pointer is a position in
  it, so that two chains could share a node; that they never do is proved.
- The kernel of the flush is a parameter: what it answers to each dump and which
  sends go through. A dump request that cannot be sent is a dump without an
  answer. The label pattern and the address prefix of the filter are one
  uninterpreted predicate. The resolver of the name tables is the text that each
  lookup brings along.
- Whether an allocation of the message queue succeeds is a parameter.
- Callbacks of timers are arbitrary lists of set and delete calls, possibly
  different at every tick.

Five properties that one might expect are false of the code; the model keeps the
code, gives an input and states exactly when they hold:

- `create_osi_cksum` yields octets that do not verify when one of the two exact
  solutions is negative and congruent to 1 modulo 255 (`OsiChecksum.ChecksumVerifies`,
  `OsiChecksum.MissedExample`).
- `put_msg_to_buffer` signals only when the buffer was empty, so a wake-up is lost
  exactly when a second thread is blocked (`MsgProtocol.SignalExact`,
  `MsgProtocol.TwoWaitersCanStick`).
- An attribute whose length or type does not fit its 16-bit header field does not
  parse back (`RtAttributes.RoundTrip`, `RtAttributes.WideTypeLost`,
  `RtAttributes.LongPayloadLost`).
- `le64addr_string` and `linkaddr_string` share a table, so a call does not always
  return the text it would format itself: it does if and only if the first call on
  the same octets used the same formatter or the octets read the same backwards
  (`LinkNames.RunLinkNames`, `LinkNames.MixedFormatters`).
- The buffer of the flush is overrun if and only if a matching message is longer
  than all of it (`AddrFlush.Flusher.QueueDelete`, `AddrFlush.Flusher.IpaddrFlush`,
  `AddrFlush.OverrunExample`).

## Model

| member | source | states |
|---|---|---|
| `OnesComplement.RfcSumRep` | tcpdump-4.9.2/in_cksum.c:53-54 | The end-around-carry sum of RFC 1071 agrees modulo 65535 with the plain total of all words and is zero exactly when the total is |
| `OnesComplement.RfcSumIs` | tcpdump-4.9.2/in_cksum.c:53-54 | Any 16-bit value with these two properties is the RFC's sum: folding may be deferred at will |
| `OnesComplement.ByteOrderIndependent` | tcpdump-4.9.2/in_cksum.c:181-194 | A little-endian machine computes the big-endian checksum with its octets exchanged, for every data |
| `InCksum.ReduceRep` | tcpdump-4.9.2/in_cksum.c:53-54 | REDUCE keeps the sum modulo 65535 and never turns a nonzero sum into 0 |
| `InCksum.StepEnterSwapped` | tcpdump-4.9.2/in_cksum.c:95-102 | Putting aside the first octet at an odd address leaves the sum one byte shift ahead of the stream |
| `InCksum.StepLeaveSwapped` | tcpdump-4.9.2/in_cksum.c:126-135 | A second byte shift brings the sum back in step |
| `InCksum.StepWord` | tcpdump-4.9.2/in_cksum.c:107-125 | Adding a word keeps the meaning of the sum, in step or out of step; the accumulator is at most 65535 * (256 + words so far) before and after |
| `InCksum.StepFill` | tcpdump-4.9.2/in_cksum.c:86-87 | The same for the octet that completes a word begun in an earlier piece |
| `InCksum.Plus` | tcpdump-4.9.2/in_cksum.c:107-125 | Every addition must stay below that bound, so it fits a signed 32-bit int for at most 65024 octets and does not wrap for at most 130562, padding included |
| `InCksum.AddBlocks` | tcpdump-4.9.2/in_cksum.c:107-125 | Each summing loop, unrolled 16, 4 or 1 times, takes in whole blocks while they last and leaves the sum meaning exactly those octets |
| `InCksum.AddPiece` | tcpdump-4.9.2/in_cksum.c:74-137 | One piece, of any length and parity, after any earlier pieces: the sum and the half-filled word stand for all octets so far |
| `InCksum.InCksum` | tcpdump-4.9.2/in_cksum.c:56-148 | For every vector of pieces of at most 130562 octets the result is the RFC 1071 checksum of the concatenated octets, so neither splitting nor alignment matters |
| `InCksum.InCksumShouldBe` | tcpdump-4.9.2/in_cksum.c:156-200 | The result is the ones' complement sum of the field and the computed checksum in host order: two folds suffice |
| `InCksum.ShouldBeRepairs` | tcpdump-4.9.2/in_cksum.c:161-194 | For every packet and every even field offset the value installed in the field makes the checksum 0, and it is the old field if the packet already verified |
| `InCksum.Repair` | tcpdump-4.9.2/in_cksum.c:56-200 | Summing a packet in any pieces, installing what `in_cksum_shouldbe` returns and summing again in any other pieces gives 0; a packet that verified is unchanged |
| `Gf2.DivisionTheorem` | tcpdump-4.9.2/checksum.c:89-106 | Bit-serial division computes the one quotient and the one remainder, for every generator, register and message |
| `Gf2.ZeroRemainder` | tcpdump-4.9.2/checksum.c:112-124 | From an empty register the remainder is zero if and only if the message is a multiple of the generator |
| `Gf2.TopDividesShifted` | head_info/head_info.c:54-59 | Adding message bits at the top of the register divides the message followed by d zeros |
| `Gf2.BurstSeparates` | head_info/head_info.c:42-61 | For every generator of degree d with constant term 1, two messages that differ only inside d consecutive bits leave different remainders |
| `Gf2.OwnRemainder` | head_info/head_info.c:42-61 | A message followed by its own remainder leaves none |
| `Crc16.TableIsDivision` | head_info/head_info.c:16-40 | Each of the 256 constants is the remainder of its index by x^16 + x^12 + x^5 + 1 |
| `Crc16.TableStep` | head_info/head_info.c:56-57 | One lookup and one exclusive or do the eight divisions of one octet, for every register and octet |
| `Crc16.Crc16CCITCalculate` | head_info/head_info.c:42-61 | The loop returns the register of bit-serial division over all bits of the image |
| `Crc16.CrcIsRemainder` | head_info/head_info.c:42-61 | That value is the one remainder of the image times x^16 by the generator |
| `Crc16.BurstDetected` | head_info/head_info.c:16-61 | Two images of equal length, any length, that differ only inside 16 consecutive bits have different CRCs |
| `Crc16.SeventeenBitsCanCollide` | head_info/head_info.c:16-61 | 16 is the best possible: two images that differ inside 17 bits have the same CRC |
| `Crc16.AppendedCrcVerifies` | head_info/head_info.c:42-61 | The CRC of an image with its own CRC appended is zero |
| `Crc10.TableIsDivision` | tcpdump-4.9.2/checksum.c:53-87 | Each of the 256 constants is the remainder of its index by the polynomial 0x633 |
| `Crc10.ComputeEntry` | tcpdump-4.9.2/checksum.c:89-110 | The start-up computation of each entry yields the stored constant, so its assertion cannot fail |
| `Crc10.TableStep` | tcpdump-4.9.2/checksum.c:119-121 | One pass of the loop shifts the eight bits of one octet in at the bottom, for every register and octet |
| `Crc10.VerifyCrc10Cksum` | tcpdump-4.9.2/checksum.c:112-124 | For every 16-bit start, of which only ten bits matter, and every message the result is bit-serial division |
| `Crc10.ResultIsRemainder` | tcpdump-4.9.2/checksum.c:112-124 | The result is the one remainder of the start followed by the message |
| `Crc10.ZeroMeansDivisible` | tcpdump-4.9.2/checksum.c:112-124 | From 0 the result is 0 if and only if the generator divides the message |
| `OsiChecksum.Accumulate` | tcpdump-4.9.2/checksum.c:150-165 | The loop computes both Fletcher sums of the PDU with its field cleared, modulo 2^32 |
| `OsiChecksum.StoredResidue` | tcpdump-4.9.2/checksum.c:175-186 | The adjusted octet is never 0, and is congruent to the exact solution unless that is negative and 1 modulo 255 |
| `OsiChecksum.VerifiesExactly` | tcpdump-4.9.2/checksum.c:134-137 | Installed octets make both sums vanish if and only if they are congruent to the two exact solutions |
| `OsiChecksum.ChecksumVerifies` | tcpdump-4.9.2/checksum.c:167-188 | The stored octets verify if and only if neither exact solution is negative and 1 modulo 255 |
| `OsiChecksum.OldFieldIgnored` | tcpdump-4.9.2/checksum.c:136-161 | What the field held before does not matter |
| `OsiChecksum.MissedExample` | tcpdump-4.9.2/checksum.c:138-189 | A PDU of three octets whose computed checksum does not verify |
| `OsiChecksum.CreateOsiCksum` | tcpdump-4.9.2/checksum.c:138-189 | For every PDU of at most 5803 octets and every field inside it: the result is the pair of stored solutions, no octet is 0, and the PDU verifies exactly outside the missed residue |
| `NumberText.DottedReads` | tcpdump-4.9.2/addrtostr.c:73-90 | A printed dotted quad reads back as its four octets |
| `Ipv6Text.BestRunUnique` | tcpdump-4.9.2/addrtostr.c:126-148 | There is one best run of zeros: longest, then first, at least two words (section 4.2 of RFC 5952) |
| `Ipv6Text.TextReads` | tcpdump-4.9.2/addrtostr.c:150-212 | The text, with `::` and the dotted tail, read by section 2.2 of RFC 4291 denotes the same eight words |
| `Ipv6Text.DistinctTexts` | tcpdump-4.9.2/addrtostr.c:98-213 | Distinct addresses print differently |
| `CanonicalText.TextCanonical` | tcpdump-4.9.2/addrtostr.c:163-210 | Every text has lower-case digits and separators only, and no number in it has leading zeros |
| `CanonicalText.DottedExactly` | tcpdump-4.9.2/addrtostr.c:181-182 | A text has a dot if and only if the first five words are zero and the sixth is 0xffff, or the sixth is zero and the seventh is not |
| `AddrToStr.FindBestRun` | tcpdump-4.9.2/addrtostr.c:126-148 | The search finds the best run, or none when no run has two words |
| `AddrToStr.PrintIpv4` | tcpdump-4.9.2/addrtostr.c:61-93 | It succeeds exactly with 16 characters of space, and then writes the dotted quad and a terminator |
| `AddrToStr.NeededBound` | tcpdump-4.9.2/addrtostr.c:163-210 | No address needs more than 46 characters |
| `AddrToStr.AddrToStr6` | tcpdump-4.9.2/addrtostr.c:98-213 | It succeeds if and only if the buffer has the room the address needs, so always with 46 characters; then the buffer holds the canonical text and a terminator. The text reads back as the 16 octets and has a dotted quad if and only if the first ten octets are zero and the next two are 255, or are zero and the two after them are not both zero |
| `RtAttributes.WalkInside` | ip_route/rtnetlink.h:174-184 | On arbitrary octets every attribute visited lies wholly inside the given length and none overlap |
| `RtAttributes.AlignMultiple` | ip_route/rtnetlink.h:174-175 | The aligned length is the next multiple of four |
| `RtAttributes.WalkLaid` | ip_route/rtnetlink.h:174-184 | The attributes the walk visits stand one behind the other, each padded to a multiple of four, with the length and type found there; the walk stops only where no header fits or its length is below four or above what is left |
| `RtAttributes.LaidPlaces` | ip_route/rtnetlink.h:179-180 | Every attribute starts a multiple of four behind the start |
| `RtAttributes.MaskedExactly` | ip_route/ip_flush.c:755-755 | The type has the bits of the stored type that are not in the flags, position by position |
| `RtAttributes.WalkCount` | ip_route/ip_flush.c:754-759 | Each step of the walk consumes at least four octets |
| `RtAttributes.ParseRtattrFlags` | ip_route/ip_flush.c:748-764 | On arbitrary octets, any length and flags, the attributes met start at multiples of four, one behind the other, as long as one can be read; each table entry is the first of them whose type, with the flag bits taken out, is its index, and is missing if and only if there is none; what is left over is reported |
| `RtAttributes.ParseRtattr` | ip_route/ip_flush.c:766-769 | Every entry has its type and lies inside the length; for attributes that were appended and fit their fields each entry is the first one of its type with its exact payload, and nothing is left over |
| `RtAttributes.Message.AddAttr` | ip_route/ip_flush.c:366-386 | Refuses exactly what exceeds the bound and then changes nothing; otherwise header and payload are written at the next multiple of four, nothing else is written, the new length is the next multiple of four behind them, and the message encodes the earlier attributes and the new one |
| `RtAttributes.BuiltWalks` | ip_route/ip_flush.c:748-764 | The walk over appended attributes that fit their fields finds them all in order and ends with length 0 |
| `RtAttributes.RoundTrip` | ip_route/ip_flush.c:366-386 | What was appended parses back if and only if every length and type fits its 16-bit field |
| `RtAttributes.WideTypeLost` | ip_route/ip_flush.c:379-379 | An attribute of type 65536 that is appended and read back under type 0 |
| `RtAttributes.LongPayloadStops` | ip_route/ip_flush.c:380-380 | The walk stops at any attribute with 65532 octets of payload, whose length field is 0 |
| `RtAttributes.LongPayloadLost` | ip_route/ip_flush.c:366-386 | A message that was built from one attribute and parses to nothing |
| `RtAttributes.EntriesMatch` | ip_route/ip_flush.c:754-759 | Without flags, the first attribute found of a type is the first one appended with it |
| `AddrFlush.Flusher.FlushUpdate` | ip_route/ip_flush.c:1094-1113 | A send that goes through empties the buffer into the list of batches; one that fails changes nothing |
| `AddrFlush.AgreeUnderBits` | ip_route/ip_flush.c:818-821 | Two masked fields agree if and only if they have the same bit at every position where the mask has a one |
| `AddrFlush.PassesExactly` | ip_route/ip_flush.c:816-844 | The tests let an address pass if and only if it is on the interface of the filter and of its family, where it names them, has its scope and flags in every bit of the masks, and its label and prefix |
| `AddrFlush.PrimarySelected` | ip_route/ip_flush.c:1156-1162 | When the loop stops after one round, every address selected is a primary one |
| `AddrFlush.Flusher.QueueDelete` | ip_route/ip_flush.c:846-862 | One delete request follows all earlier ones; the fill mark stays within the buffer if and only if the message alone fits it |
| `AddrFlush.Flusher.PrintAddrInfo` | ip_route/ip_flush.c:783-862 | Short messages are refused, others that the filter does not select are passed over without effect, each one it selects, of any length, becomes one request with the next number |
| `AddrFlush.Flusher.DumpFilter` | ip_route/ip_flush.c:916-1016 | Unless a send fails, one request per matching message of this dump, in dump order, up to an end marker, an error, a short message or a remnant, which decide how the walk ends |
| `AddrFlush.SeqIncreases` | ip_route/ip_flush.c:857-858 | While the counter does not wrap, the requests of a round are numbered consecutively from the number after the dump's |
| `AddrFlush.NumbersIncrease` | ip_route/ip_flush.c:857-858 | Over all rounds, while the counter does not wrap, the numbers of the requests strictly increase and none is the number of any dump |
| `AddrFlush.RequestsSelected` | ip_route/ip_flush.c:783-862 | Whatever the kernel answers, over all rounds only addresses that the filter selects are deleted |
| `AddrFlush.Flusher.IpaddrFlush` | ip_route/ip_flush.c:1116-1167 | Whatever the kernel does, with or without a limit: never more rounds than the limit, and success only after a dump without a match or, if bit 0 of the flags must be clear, after one round; unless a send fails, the outcome is what the dumps determine, the batches sent concatenate to the requests of all rounds, each for an address the filter selects, and the buffer was overrun if and only if one of them is longer than all of it |
| `AddrFlush.OverrunExample` | ip_route/ip_flush.c:849-858 | A dump of one long message whose request does not fit the buffer |
| `AddrFlush.HitsOfSnapshot` | ip_route/ip_flush.c:783-862 | For a dump that lists an address set the requests are exactly for the addresses that the filter selects |
| `AddrFlush.RoundEmpties` | ip_route/ip_flush.c:1116-1167 | When the requests of a round are carried out and no address that the filter selects is added, none is left |
| `AddrFlush.FlushSucceeds` | ip_route/ip_flush.c:1116-1167 | Against such a kernel exactly the requests of the first dump are sent and no selected address is left; the flush reports success after at most two dumps if and only if the limit is not one round, or nothing had to be deleted, or only primary addresses were asked for |
| `NameTables.ChainsDisjoint` | tcpdump-4.9.2/addrtoname.c:1238-1254 | No node occurs twice, neither in one chain nor in two |
| `NameTables.Tables.NewNode` | tcpdump-4.9.2/addrtoname.c:1238-1254 | The slot handed out is blank, in no chain and was never handed out before |
| `NameTables.Tables.Append` | tcpdump-4.9.2/addrtoname.c:243-244 | Filling the blank end and linking a fresh node keeps every chain acyclic, disjoint from all others and ended by exactly one blank node |
| `NameTables.Tables.Find` | tcpdump-4.9.2/addrtoname.c:239-242 | The walk ends at the first node with the key, or at the blank end if and only if the key is missing |
| `NameTables.Tables.Lookup` | tcpdump-4.9.2/addrtoname.c:349-364 | The node of the key, entered only if missing; no occupied node changes key or name, and no slot is handed out again |
| `NameTables.Tables.Name` | tcpdump-4.9.2/addrtoname.c:230-276 | The name given at first stays; no other name changes; no slot is handed out again |
| `NameTables.Tables.AddService` | tcpdump-4.9.2/addrtoname.c:769-791 | A services entry goes to the end of its chain even if its port is there already, and earlier entries keep precedence |
| `NameTables.StaysPut` | tcpdump-4.9.2/addrtoname.c:339-365 | Growth of the tables moves no entry to another node |
| `NameTables.NodesApart` | tcpdump-4.9.2/addrtoname.c:339-365 | Two entries share a node if and only if they are the same entry |
| `NameTables.Tables.RunLookups` | tcpdump-4.9.2/addrtoname.c:339-416 | Over any sequence of lookups two return the same node if and only if their keys are equal; the node stores its key in the bucket the key hashes to, the keys of a chain stay distinct and at home, no occupied node changes, and no slot is handed out again |
| `NameTables.Tables.RunNames` | tcpdump-4.9.2/addrtoname.c:691-792 | From empty tables, over any mix of lookups and services entries, every answer is that of a map in which the first entry for a bucket and key stays; names once given stay and no slot is handed out again |
| `NameTables.FirstWins` | tcpdump-4.9.2/addrtoname.c:691-792 | The answer to every operation is the text that the first operation on its bucket and key brought |
| `LinkNames.EtherKeyInjective` | tcpdump-4.9.2/addrtoname.c:345-347 | The three stored words are equal if and only if the six octets are |
| `LinkNames.BucketBits` | tcpdump-4.9.2/addrtoname.c:349-349 | The bucket is below 4096 and each of its twelve bits says whether the two words differ there |
| `LinkNames.RunLookupEmem` | tcpdump-4.9.2/addrtoname.c:339-365 | Two calls return the same node if and only if their six octets are equal; the node stores the three words of these octets in the bucket (i ^ j) & 4095, bit by bit, and no call alters an occupied node |
| `LinkNames.RunLookupBytestring` | tcpdump-4.9.2/addrtoname.c:372-416 | The same for byte strings of any lengths, with the words of the first six octets, the first four, or none |
| `LinkNames.FormatLink` | tcpdump-4.9.2/addrtoname.c:588-599 | The text shows the octets in order: two lower-case digits each that read back as the octet, a colon between two octets, and nothing else |
| `LinkNames.FormatLe64` | tcpdump-4.9.2/addrtoname.c:550-558 | The same text of the octets from the last to the first |
| `LinkNames.LinkTextInjective` | tcpdump-4.9.2/addrtoname.c:588-599 | Different octets make different texts |
| `LinkNames.LinkTextShows` | tcpdump-4.9.2/addrtoname.c:588-599 | Each octet stands at three times its position and reads back, for strings of any length |
| `LinkNames.AnswerIsFirst` | tcpdump-4.9.2/addrtoname.c:537-600 | The answer to a call is what the first call on its octets formatted |
| `LinkNames.RunLinkNames` | tcpdump-4.9.2/addrtoname.c:537-600 | Over any sequence of calls of both formatters the answer shows the octets in the order of the first call on them, and is the text a call would format itself if and only if that call used the same formatter or the octets read the same backwards |
| `LinkNames.MixedFormatters` | tcpdump-4.9.2/addrtoname.c:537-600 | Two calls on the octets 1 to 8, the second of which does not return its own text |
| `MsgQueue.Buffer.Put` | msg_queue/msg_process.c:20-47 | The message goes behind all others and the signal is sent exactly when the buffer was empty; chain, last pointer and count stay consistent |
| `MsgQueue.Buffer.TakeFirst` | msg_queue/msg_process.c:64-72 | The oldest message is delivered, once |
| `MsgQueue.Buffer.GetTimeout` | msg_queue/msg_process.c:125-139 | The oldest message, or none exactly when the buffer is empty |
| `MsgQueue.Buffer.Clear` | msg_queue/msg_process.c:143-177 | Exactly the newest message is left and returned; every other one is freed once, in order |
| `MsgQueue.Buffer.Dispose` | msg_queue/msg_process.c:263-288 | Every message ever put has then been delivered once or freed once |
| `MsgQueue.Buffer.SendMsgEx` | msg_queue/msg_process.c:222-260 | A new element with its own copy of the data, cut to 4096 octets, goes behind all others; nothing changes exactly when an allocation fails, as it must for data of negative length |
| `MsgProtocol.MutexKept` | msg_queue/msg_process.c:30-46 | Every step of any number of threads keeps mutual exclusion |
| `MsgProtocol.WakeupKept` | msg_queue/msg_process.c:58-77 | With at most one thread blocked no step loses a wake-up |
| `MsgProtocol.SignalExact` | msg_queue/msg_process.c:32-38 | A signal leaves no thread behind if and only if at most one was blocked |
| `MsgProtocol.NeverLost` | msg_queue/msg_process.c:30-77 | In every interleaving with at most one thread blocked at a time, a thread still blocked implies an empty buffer or a signal on its way |
| `MsgProtocol.NeverStuck` | msg_queue/msg_process.c:30-77 | Such a run never reaches a state where a message waits and everybody else sleeps or is away |
| `MsgProtocol.QueueStep` | msg_queue/msg_process.c:30-177 | Every step appends one message or drops some from the front; clearing leaves one, and only a get can take the last one |
| `MsgProtocol.GetEndings` | msg_queue/msg_process.c:58-139 | A get takes the oldest message; from an empty buffer a timed get that has waited leaves with none, any other waits and gives up the mutex |
| `MsgProtocol.FifoRun` | msg_queue/msg_process.c:30-177 | In every run, with any number of threads, the buffer holds the newest messages put, in the order of the puts |
| `MsgProtocol.TwoWaitersCanStick` | msg_queue/msg_process.c:30-77 | With two blocked consumers a run reaches such a state |
| `MulTimer.Timers.SetTimer` | mul_timer/mul_timer.c:57-95 | The first free slot, or -1 exactly in the error cases; no live timer has that handle, and no other slot changes |
| `MulTimer.Timers.DelTimer` | mul_timer/mul_timer.c:99-109 | Clears that slot and no other |
| `MulTimer.Timers.HandleTick` | mul_timer/mul_timer.c:112-128 | A timer live before the tick that no callback deletes moves on by one tick, whatever the callbacks do; slots fire in order, each at most once, with their own function and argument, and only if live and due before the tick or given out during it; a slot that is off and not given out does not fire and stays off, and does not change unless a call touches it |
| `MulTimer.Timers.Run` | mul_timer/mul_timer.c:57-128 | Over any sequence of ticks and calls a timer that nothing deletes has fired once per full interval of ticks, and its counter holds the remainder; a slot that is off does not fire unless a set call gives it out |
| `MulTimer.Timers.DeleteAndRun` | mul_timer/mul_timer.c:99-128 | A deleted timer does not fire until a set call returns its handle again |
| `MulTimer.LiveRunDivMod` | mul_timer/mul_timer.c:112-128 | The first of these facts about the run as a function of the start and the events |
| `MulTimer.QuietRun` | mul_timer/mul_timer.c:112-128 | The second |
| `MulTimer.TickInOrder` | mul_timer/mul_timer.c:115-127 | The order of the firings within a tick, at every slot the tick has come to |
| `FieldReader.Reader.NextBoundary` | tcpdump-4.9.2/cpack.c:41-50 | The first multiple of the alignment from the position on |
| `FieldReader.Reader.AlignAndReserve` | tcpdump-4.9.2/cpack.c:56-69 | The aligned position, refused exactly when the field does not fit there |
| `FieldReader.Reader.Advance` | tcpdump-4.9.2/cpack.c:72-80 | The position stays inside the buffer, and moves on by the distance exactly when that is inside and the sum does not wrap |
| `FieldReader.Reader.Read` | tcpdump-4.9.2/cpack.c:94-155 | The little-endian field at the next aligned position; a failure leaves the position alone |
| `FieldReader.PackedField` | tcpdump-4.9.2/cpack.c:94-155 | Where a field of a packed list stands, and that its octets denote its value |
| `FieldReader.Reader.ReadAll` | tcpdump-4.9.2/cpack.c:94-155 | From any list of fields packed at natural alignment, with any padding and cut off anywhere or followed by more, exactly the fields that are whole come out, with their values |

## Left out

- Sockets, ioctl, netlink transport, GPIO, I2C, serial lines, files, signals and clocks: they are parameters or absent.
- Name resolution, the constant name tables and the `print-*.c` printers: long lists with shallow claims.
- Firmware header, LED controllers, subnet and netmask helpers, string searches, configuration and GPS parsing: easy members or missing definitions.
- `lookup_nsap`, `lookup_protoid`, `getname6`, `ipxsap_string`, `intoa` and the other formatters of `addrtoname.c`: the lookups have the shape of those modelled, and the formatters only supply the text.
- `inet_addr_match` and the label pattern of the flush filter: part of one uninterpreted predicate.
- AddrFlush.Flusher.IpaddrFlush: the buffer holds requests, not octets; the loop without a limit is looked at for any finite number of rounds.
- AddrFlush.Flusher.DumpFilter: datagrams appear as the messages in them; a stream that ends without an end marker is the end of the connection.
- AddrToStr.AddrToStr6: what a failed call leaves in the buffer is not modelled.
- InCksum.InCksum: beyond 65024 octets the original relies on signed overflow, which C leaves undefined.
- Crc16.Crc16CCITCalculate: the signed loop index, which overflows for images of 2 GB and more, is not modelled.
- `dup_msg_element`, which copies an owned pointer: not modelled.
- LinkNames.RunLinkNames: the calls that `linkaddr_string` hands on to the formatters of Ethernet and Frame Relay addresses are not part of it.
- MsgQueue.Buffer.Dispose: it is the action of one thread; the original takes no lock in it.
- NameTables.Tables.NewNode: failing allocations are not modelled.
- MulTimer.Timers.Run: timers set inside a callback are covered from the next tick on; whether they count the tick they are set in depends on the order of slots.
- MulTimer.Timers.SetTimer: an argument is a text with its length; the pointer aliasing of the original is not modelled.

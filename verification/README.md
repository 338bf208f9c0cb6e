# CC1352 Greybus firmware: a verified model

The firmware bridges a Linux Greybus host, reached over a UART with HDLC framing, to Greybus nodes
reached over TCP. This project models its protocol code in Dafny and proves what that code promises.

- `Sequences`, `Numbers`: a shared law of concatenation, and minimum and maximum.
- `Crc16`, `ErrorDetection`: the frame check sequence of RFC 1662, Appendix C, bit by bit, and the
  errors it is certain to notice.
- `Hdlc`, `HdlcStream`, `HdlcReference`, `HdlcDriver`: the codec of `src/hdlc.c`. `HdlcDriver` is the
  C driver with its fields, buffer and loops; `Hdlc` holds the functions on values its methods are
  proved against; `HdlcStream` and `HdlcReference` hold the laws over whole byte streams.
- `Greybus`, `GreybusHdlc`, `Transport`, `NodeRx`: message layout, messages over HDLC, messages over
  TCP, and what the receiving thread does with them.
- `MdnsName`, `MdnsDecode`, `MdnsEncode`, `MdnsRoundTrip`, `MdnsTable`, `MdnsCompress`: the DNS name
  codec of `src/mdns.c`, against RFC 1035, section 4.1.4, as a relation.
- `MdnsAnswer`, `MdnsSection`, `MdnsResponse`: the answer walk and its caller, when their result is
  right, and well-formed responses for which it is not.
- `NodeCache`, `NodeRuns`, `NodeSockets`, `NodeManager`: the node cache with its two slabs, the interface
  ids and the sockets.
- `ApBridge`, `Svc`, `SvcReplies`, `SvcTraces`, `SvcSession`: the routing map and the SVC as a state
  machine over it, message by message and over whole sessions.
- `Gateway`: the way from HDLC bytes through the SVC and back to HDLC bytes.

Configured sizes (`HDLC_MAX_BLOCK_SIZE`, the numbers of nodes, interfaces and AP cports) are
parameters. The UART is an ordered byte sequence; callbacks and sent messages are logs; socket calls
move as many bytes as a plan of return values says; what a connection attempt returns is an argument.
`crc16_ccitt` belongs to Zephyr and is not part of this model: it is written out from RFC 1662.

Where the code differs from its documentation or its standard, the model follows the code:

- A flag does not clear a pending escape, so an escape followed by a flag does not abort a frame as
  RFC 1662, section 4.3, has it (`HdlcReference.AbortNotHonoured`), and an escape left pending costs
  the next frame unless its address byte is one that is sent escaped (`HdlcStream.StreamRoundTrip`).
- On buffer overflow the register is reset after the new byte has gone through it
  (`HdlcReference.StateSinceFlag`), so after an overflow a body is delivered whose check sequence does
  not cover its address (`HdlcReference.OverflowDelivers`).
- Labels of 64 to 191 bytes, reserved by RFC 1035, are taken as labels.
- `mdns_answer_check` looks neither at the record type (`src/mdns.c:528`), nor at the extracted length,
  nor at whether the extraction succeeded. `MdnsSection.CheckRightIff` is the exact condition, over
  well-formed sections with records of any type, under which its result is right. Otherwise left-over
  bytes complete a short name (`MdnsResponse.LeftOverBytesAnswer`), or labels without a root, such as the
  strings of a TXT record, are taken for a name (`MdnsResponse.LabelsWithoutRootAnswer`); both come in
  responses that fit the 100-byte receive buffer (`MdnsResponse.SensorTakenForNode`,
  `MdnsResponse.TextTakenForNode`).
- `mdns_string_table_find` proves no more than a prefix match: an offset it offers stands for the name
  exactly when the root comes right after the match (`MdnsTable.StandsForIffRootFollows`), and a name
  that repeats a label refers to itself (`MdnsTable.RepeatedLabelNeverExpands`). What the encoder makes
  of a whole name is right exactly under the same condition (`MdnsCompress.MadeStandsIff`,
  `MdnsCompress.MadeFromEarlierIff`).
- `include/node.h` says `node_filter` also notices removed nodes; it only adds
  (`NodeRuns.FilterAppends`).
- Interface ids repeat after 253 allocations whether or not the old interface is gone. The cache and
  the slabs agree throughout a run exactly when every new id is fresh (`NodeRuns.RunAgreesIffFresh`);
  `NodeRuns.RepeatedIdBreaksAgreement` is a run in which one is not.
- `node_destroy_all` destroys half of the nodes, rounded up, and forgets the others, whose slots stay in
  use; so its assertion holds exactly for at most one node and nothing forgotten before
  (`NodeRuns.DestroyAllReleasesHalf`), and later discoveries have only the room that is left
  (`NodeRuns.DiscoveryAfterStop`).
- The flag that says a peer has closed is never cleared by a message that arrives whole, so one closed
  connection keeps the messages of the other nodes from the AP (`NodeRx.ForwardedIffNotClosed`,
  `NodeRx.ClosedPeerSilencesOthers`).
- A create request may bind AP cport 0, while it is free, to a node; its response then goes out on
  another AP cport or is dropped (`Svc.DivertedResponse`), and only then does a session not follow its
  specification (`SvcTraces.TraceIsExpected`).

## Model

| member | source | states |
|---|---|---|
| Crc16.Residue | src/hdlc.c:159-184 | for every byte sequence, appending the complemented register low byte first drives the receiver's register to 0xf0b8 |
| ErrorDetection.BurstChangesCrc | src/hdlc.c:80-92 | two bit strings that differ only within 16 consecutive bits never have the same register |
| ErrorDetection.OddErrorChangesCrc | src/hdlc.c:80-92 | nor do two that differ in an odd number of bits |
| ErrorDetection.AdjacentBytesChangeCrc | src/hdlc.c:80-92 | nor two byte sequences that differ only in two adjacent bytes |
| ErrorDetection.GoodIffFcs | src/hdlc.c:80-92 | the receiver's register is 0xf0b8 exactly for the byte sequences that end with the check sequence the sender would append |
| ErrorDetection.PresetComplements | src/hdlc.c:162 | the register's preset is that of RFC 1662: the check sequence is that of a register from zero over the message with its first sixteen bits complemented |
| Hdlc.StuffedIsTransparent | src/hdlc.c:52-63 | a stuffed body has no 0x7e, and every 0x7d in it is followed by 0x5d or 0x5e |
| Hdlc.ChunkingIrrelevant | src/hdlc.c:132-138 | any split of a byte stream into process-buffer calls leads to the same state and callbacks |
| Hdlc.ReceiveValid | src/hdlc.c:80-130 | over every stream the buffer stays within its size, the register covers the buffer or all of it but the first byte, and every delivered payload is at least four bytes shorter than the buffer |
| HdlcStream.FrameReceived | src/hdlc.c:111-130 | one encoded frame after any reachable state is taken whole, or, exactly when a pending escape meets an unescaped address, leaves no trace |
| HdlcStream.FramesReceived | src/hdlc.c:159-184 | encodings of any fitting frames are taken in order, once each, back to idle; even control bytes only update the sequence number |
| HdlcStream.StreamRoundTrip | src/hdlc.c:111-138 | round trip and resynchronisation after any garbage and for any chunking, with the exact condition under which the first frame is lost |
| HdlcStream.AcceptAllDelivers | src/hdlc.c:85-89 | accepted frames cause exactly one callback for each odd control byte, in order |
| HdlcStream.SequenceNumber | src/hdlc.c:85-87 | an even control byte with n in its three high bits sets the sequence number to n |
| HdlcReference.ReceiverRefinesReference | src/hdlc.c:80-130 | on every stream the state machine's callbacks are those of a decoder that cuts the stream at flags and judges whole segments |
| HdlcReference.StateSinceFlag | src/hdlc.c:98-130 | after every stream, buffer and register in terms of the data bytes since the last flag, overflow resets included |
| HdlcReference.DeliveredIffSealed | src/hdlc.c:80-109 | a segment is delivered exactly when the data bytes the buffer keeps are address, odd control byte, payload and check sequence as a sender would encode them; after an overflow the check sequence leaves out the address |
| HdlcReference.OverflowDelivers | src/hdlc.c:98-109 | a full buffer of anything, then a body whose check sequence does not cover its address, sent without a flag in between, is delivered |
| HdlcReference.EscapePending | src/hdlc.c:114-121 | an escape is pending exactly when the last byte other than a flag is an escape |
| HdlcReference.AbortNotHonoured | src/hdlc.c:114-121 | an escape before the closing flag does not abort the frame and stays pending |
| HdlcReference.CorruptionDropped | src/hdlc.c:80-96 | an accepted body changed by a burst of at most 16 bits or in an odd number of bits has no effect at all |
| HdlcReference.AdjacentBytesDetectable | src/hdlc.c:80-92 | changing one byte or two adjacent ones is such a change |
| HdlcDriver.Driver.UartPollOutCrc | src/hdlc.c:52-63 | the wire grows by the stuffed byte and the register takes one step |
| HdlcDriver.Driver.BlockSendSync | src/hdlc.c:159-184 | the wire grows by exactly one frame: flag, stuffed address, control, payload and check sequence, flag |
| HdlcDriver.Driver.ProcessFrame | src/hdlc.c:80-96 | the new driver state is that of the frame function, whatever stale bytes the buffer holds |
| HdlcDriver.Driver.SaveByte | src/hdlc.c:98-109 | the byte is kept in the buffer, with a reset first when it is full |
| HdlcDriver.Driver.RxInputByte | src/hdlc.c:111-130 | one byte moves the driver as the receiver function says |
| HdlcDriver.Driver.ProcessBuffer | src/hdlc.c:132-138 | a whole buffer moves the driver as the run of its bytes |
| Greybus.ParseSerialized | include/greybus_messages.h:21-36 | parsing inverts serialising, whatever bytes follow |
| Greybus.WholeIffSerialized | src/main.c:84-104 | a message is parsed exactly when the bytes start with its serialised form, header pad bytes excepted |
| Greybus.SerializeLayout | include/greybus_messages.h:21-36 | where each field stands, byte by byte, numbers little-endian |
| Greybus.OperationIdsCyclic | src/greybus_messages.c:17-25 | operation ids run through 1..65535 cyclically, so any 65535 consecutive ones are distinct |
| GreybusHdlc.GbMessageHdlcSend | include/hdlc.h:84-96 | the message assembled in a local buffer goes out as one Greybus frame |
| GreybusHdlc.FrameImage | include/hdlc.h:84-96 | one whole frame as it is on the wire, with its escapes and its check sequence |
| GreybusHdlc.SubmittedIffSerialized | src/main.c:84-112 | a frame payload is submitted exactly when it starts with a serialised message and the heap has room, and as that message; it is refused exactly when it claims more bytes than there are or the heap is full |
| GreybusHdlc.WholeStackRoundTrip | src/main.c:84-112 | after any garbage and for any chunking, the messages sent over HDLC are submitted in order, once each, with every field intact, while the heap has room; only a pending escape costs the first |
| Transport.Socket.WriteData | src/node.c:141-154 | all of the data, or an error after a prefix of it, for every sequence of partial sends |
| Transport.Socket.ReadData | src/node.c:156-169 | exactly the next bytes of the stream, or an error, for every sequence of partial receives; 0 exactly when the stream ends first |
| Transport.Socket.MessageSend | src/node.c:308-336 | cport, header and payload go out in that order, or a prefix of them and one report that the module is gone |
| Transport.Socket.InfWrite | src/node.c:415-428 | the same for the interface's write function, which reports a failure a second time |
| Transport.Socket.MessageReceive | src/node.c:171-211 | a received message is the one at the front of the stream and exactly its bytes are consumed; the peer counts as closed only at the end of a stream that stops inside a message; and while the socket keeps delivering, the outcome is the one the stream calls for |
| Transport.SendAll | src/node.c:308-331 | any sequence of messages goes out back to back over any fragmentation |
| Transport.ReceiveAll | src/node.c:171-211 | repeated receiving gives back the same messages in order and leaves what follows them |
| NodeRx.RxThread.HandleReadable | src/node.c:278-303 | one readable socket: the message is passed on, or the removal of the module is reported, as the flag and the reception say |
| NodeRx.ForwardedIffNotClosed | src/node.c:278-303 | over every sequence of receptions, a whole message is passed on exactly when no peer has closed since the last short read that was an error |
| NodeRx.NoMessageReported | src/node.c:285-296 | every reception that is no message has its module reported as removed |
| NodeRx.ClosedPeerSilencesOthers | src/node.c:278-303 | after one peer has closed, none of the messages other nodes send is passed on, and each is answered by reporting its sender's module as removed |
| MdnsName.WalkIffDecodes | src/mdns.c:128-169 | on every packet, cyclic or malformed included, the label walk completes exactly when the name expands by RFC 1035 within 16 pointers per label and 64 labels, and yields that expansion and its end |
| MdnsName.ExpansionUnique | src/mdns.c:128-169 | a packet offset has at most one layout and one expansion |
| MdnsName.SkipAgreesWithWalk | src/mdns.c:434-454 | every name that can be extracted can be skipped |
| MdnsName.SubstringExact | src/mdns.c:128-169 | on every packet a substring is found exactly where at most 16 pointers lead to a length byte whose label fits, and it is that label |
| MdnsName.SkipIff | src/mdns.c:434-454 | on every packet a name is skipped exactly when at most 64 labels are followed by the root or by a pointer that leads to a length byte, and to the end of that |
| MdnsDecode.GetNextSubstring | src/mdns.c:128-169 | the pointer loop computes the substring function and reads only below the packet size |
| MdnsDecode.StringSkip | src/mdns.c:434-454 | the loop leaves the offset after the name, or leaves it alone and fails |
| MdnsDecode.StringExtract | src/mdns.c:456-499 | the first `capacity` bytes of the dotted labels are written and nothing else changes; length and end offset on success, empty and untouched on failure; the end is where skipping ends |
| MdnsEncode.StringMake | src/mdns.c:296-337 | without a table, succeeds exactly when the encoded labels fit, writes exactly them, and returns their end |
| MdnsRoundTrip.NameRoundTrip | src/mdns.c:296-337 | a name of up to 64 labels, with or without its final dot, takes its length plus 2 bytes and is decoded to the same labels and end; with more labels it is not decodable |
| MdnsRoundTrip.WalkEncoded | src/mdns.c:456-499 | encoded labels anywhere in a packet are walked back, within the budget and not beyond it |
| MdnsRoundTrip.SplitPieces | src/mdns.c:306-329 | a name is cut at its dots, and empty pieces count |
| MdnsTable.StringTable.Add | src/mdns.c:277-294 | the table holds the last min(16, n) of the n offsets added |
| MdnsTable.StringTable.Find | src/mdns.c:213-267 | an offset is found exactly when one of those held leads to the labels of the name |
| MdnsTable.LeadsToPrefix | src/mdns.c:238-263 | from an offset that is found, the walk has the queried labels as a prefix |
| MdnsTable.WalkExact | src/mdns.c:456-499 | on every packet, which labels the walk yields before it stops, and that it is complete at the root only |
| MdnsTable.StandsForIffRootFollows | src/mdns.c:238-263 | such an offset stands for the queried name if and only if the root comes right after the labels that matched |
| MdnsTable.RepeatedLabelNeverExpands | src/mdns.c:306-324 | encoding a name that repeats a label finds the label just written, and the reference to it makes a name with no expansion at all |
| MdnsAnswer.AnswerCheck | src/mdns.c:512-552 | the loop with its in-place name buffer computes the check function |
| MdnsAnswer.QueryRecv | src/mdns.c:561-605 | the first 100 bytes of the datagram: header counts, the skipping of questions, and the answer walk, in place |
| MdnsCompress.StringMake | src/mdns.c:296-337 | with a table: labels are written and their offsets added, each after a search in vain, until an offset is found that leads to the others, which are replaced by a reference to it; or it fails for want of room |
| MdnsCompress.MadeInFull | src/mdns.c:331-336 | when nothing is found, the bytes are those written without a table |
| MdnsCompress.MadeStandsIff | src/mdns.c:311-316 | with a reference, the name made is walked back to the given labels if and only if, once the reference is written, the remaining labels are still where it points and the root follows them |
| MdnsCompress.MadeFromEarlierIff | src/mdns.c:311-316 | when the match and what ends it lie wholly in the packet before the call, that is so if and only if what ends it there is the root |
| MdnsSection.WalkKeepsBoundaries | src/mdns.c:521-550 | in a well-formed section, with records of any type, every iteration starts at a true record boundary |
| MdnsSection.SectionChecked | src/mdns.c:512-552 | on a well-formed section, whole or cut at its end, the walk stays within the contract of the C code and depends only on the texts it extracts from the whole records, complete or not |
| MdnsSection.CutEndsWalk | src/mdns.c:523-551 | a record whose fields or data run past the packet is not looked at, and nothing after it |
| MdnsSection.UnskippedOwner | src/mdns.c:522-545 | a record whose owner name cannot be skipped is read as if it had none |
| MdnsSection.CheckTextsExact | src/mdns.c:536-545 | for given first contents of the name buffer, the walk returns true exactly when some text starts with "zephyr." and the query, or stops early and is completed by left-over bytes |
| MdnsSection.CheckRightIff | src/mdns.c:512-552 | on every well-formed section, whole or cut, whose whole records have at least two bytes of data, the result is right whatever the uninitialised buffer holds if and only if some record's data are a name that answers, or no extracted text begins like an answer and none can be completed to one |
| MdnsSection.CheckRightForPtrIff | src/mdns.c:528-545 | the same when only PTR records count as answers |
| MdnsSection.CheckRightIffNotCompletable | src/mdns.c:512-552 | when all data are names, only completable texts are in the way |
| MdnsSection.CheckFindsAnswers | src/mdns.c:512-552 | and when no text is a proper prefix of what is looked for, the result is right |
| MdnsSection.SingleRecordExact | src/mdns.c:536-545 | for a single record of any type: right exactly when it answers, or its text neither begins like an answer nor is a proper prefix of one |
| MdnsResponse.ReceiveWellFormed | src/mdns.c:554-605 | on what the receive buffer holds of a well-formed response with records of any type, the receiving function reports every answer, and nothing else unless some text begins like an answer or can be completed to one |
| MdnsResponse.CutResponseRefused | src/mdns.c:534-551 | a response that is cut before its first record ends is no answer |
| MdnsResponse.CutTextRefused | src/mdns.c:561-568 | such as a datagram of 223 bytes with a TXT record, whatever its text |
| MdnsResponse.ResponseEncoded | src/mdns.c:573-605 | header, counts and records encoded one after the other make a well-formed response with those data |
| MdnsResponse.LeftOverBytesAnswer | src/mdns.c:536-545 | for every service and any first contents of the name buffer, a response naming a six-byte instance of it and the bare name "zephyr." is accepted, though a record answers only if the instance is "zephyr"; and how long that response is |
| MdnsResponse.LabelsWithoutRootAnswer | src/mdns.c:456-499 | for every service, a response with one record whose data are labels without a root, as in a TXT record, is accepted though the data are no name; and how long it is |
| MdnsResponse.TypeIgnored | src/mdns.c:528-545 | for every service, a record of any type whose data are the wanted name is accepted |
| MdnsResponse.SensorTakenForNode | src/tcp_discovery.c:46-70 | the first of these for the query of the discovery thread and a device called "sensor", in a response of 70 bytes, which the receive buffer holds |
| MdnsResponse.TextTakenForNode | src/tcp_discovery.c:46-70 | the second for that query and a TXT record, in a response of 50 bytes |
| NodeCache.CounterIsCyclic | src/greybus_interfaces.c:23-31 | interface ids run through 3..255 cyclically |
| NodeCache.SameIdIffFarApart | src/greybus_interfaces.c:23-31 | two allocations share an id exactly when they are a multiple of 253 apart |
| NodeCache.DiscoveryAgreesIffFresh | src/node.c:430-464 | discovering an address enters the node whenever both slabs have room, and keeps the cache, both slabs and the ids in agreement exactly when the id the node gets is not cached yet; otherwise two cached nodes share it; and it loses no slot |
| NodeCache.YoungMeansFresh | src/greybus_interfaces.c:23-31 | that is so as long as no live interface is 253 allocations old |
| NodeCache.FindsOwnEntry | src/node.c:92-103 | under agreement the lookup by id finds the interface's own entry |
| NodeCache.ConnectAgrees | src/node.c:369-408 | opening a connection keeps agreement: entry and interface have the same socket; and it loses no slot |
| NodeCache.DestroyAgrees | src/node.c:466-483 | destroying an interface keeps agreement, shortens the cache by one and loses no slot |
| NodeCache.AllKnownIffNoneLost | src/node.c:430-483 | under agreement the cache leads to every interface in use exactly when cache length and slot counts are equal |
| NodeRuns.FilterAppends | src/node.c:492-512 | from every state, discovery appends entries for uncached active addresses only and announces exactly their ids in order; afterwards every active address is cached or a slab is full |
| NodeRuns.FilterAgreesIffFresh | src/node.c:492-512 | a whole discovery keeps agreement exactly when every id it hands out is fresh |
| NodeRuns.YoungMeansFreshDiscoveries | src/greybus_interfaces.c:23-31 | they are when no live interface gets 253 allocations old |
| NodeRuns.RunAgreesIffFresh | src/node.c:430-525 | over every run of discoveries, connections, removals and stops, addresses, ids and interfaces in the cache stay distinct, entries agree with their interfaces, and both slabs have the same count, if and only if every id handed out on the way is fresh |
| NodeRuns.RunLosesHalves | src/node.c:514-525 | over such a run, slots are lost only by stopping, half of the cached nodes each time, and the cache and the lost slots together fit both slabs |
| NodeRuns.DiscoveryAfterStop | src/node.c:492-525 | discovery after a stop with n nodes enters every active address, or exactly min(nodes, interfaces) less n/2 and what was lost before |
| NodeRuns.RunsFromStart | src/node.c:430-525 | all that holds from the initial state, every run of at most 253 allocations agrees throughout, and without stops the cache leads to every interface in use |
| NodeRuns.CreateFailsOnlyWithoutSlots | src/node.c:105-121 | creation fails only for want of a slot, so the full-cache branch is unreachable |
| NodeRuns.RepeatedIdBreaksAgreement | src/node.c:466-483 | after a run of exactly 253 allocations that agrees throughout, the next node gets the id of the first, and destroying it removes the first one's entry |
| NodeRuns.DestroyAllReleasesHalf | src/node.c:514-525 | the loop destroys exactly the first half of the entries, rounded up, and keeps agreement; the other slots are lost, with those lost before; the final assertion holds exactly for at most one node and none lost |
| NodeSockets.SocketsConserved | src/node.c:369-483 | over every run, for every socket, how often it is held and how often it has been closed together grow by how often it is opened |
| NodeSockets.OpenedOnce | src/node.c:369-483 | so from the start a socket opened once is held by exactly one interface or has been closed exactly once |
| NodeSockets.ConnectAccounts | src/node.c:369-408 | opening a connection changes nothing, or stores the socket, exactly on cport 0 without one for an interface the cache knows when connecting works |
| NodeManager.Nodes.FindByAddr | src/node.c:64-77 | finds an entry exactly when the address is cached |
| NodeManager.Nodes.FindByIdInCache | src/node.c:92-103 | finds the first entry with the id |
| NodeManager.Nodes.NewInterfaceId | src/greybus_interfaces.c:23-31 | hands out the counter and moves it on, 255 to 3 |
| NodeManager.Nodes.RemoveAtPos | src/node.c:123-129 | the last entry takes the place of the removed one |
| NodeManager.Nodes.NewInterface | src/node.c:430-464 | allocation, roll-back and cache entry in place, as the creation function says |
| NodeManager.Nodes.NodeFilter | src/node.c:492-512 | the loop over active addresses computes the filter function |
| NodeManager.Nodes.DestroyInterface | src/node.c:466-483 | socket closed, cache and slabs changed as the destruction function says |
| NodeManager.Nodes.CreateConnection | src/node.c:369-408 | the return value in every case: 0, the socket there is, -22 when no entry has the id, or what connecting returns; and socket updates in both places |
| NodeManager.Nodes.DestroyAll | src/node.c:514-525 | the loop leaves the state of the destruction function, again in agreement, and its assertion holds exactly for at most one node and none lost before |
| ApBridge.RunKeeps | src/apbridge.c:22-50 | over every run from the empty map free slots are all zero and occupied ones carry their interface's id; fresh endpoints stay distinct |
| ApBridge.NeverTheAp | src/apbridge.c:76-101 | no slot is bound to the AP itself, and only free and SVC slots have id 0 |
| ApBridge.InverseIffDistinct | src/apbridge.c:52-61 | reverse lookup is right for every node connection exactly when node endpoints are distinct |
| ApBridge.RepliesComeBack | src/apbridge.c:149-168 | after any run with fresh endpoints, a reply from where an AP cport leads arrives on that AP cport |
| ApBridge.LookupFindsConnections | src/apbridge.c:52-61 | a node endpoint leads to an AP cport only through a connection to it |
| ApBridge.SvcLookup | src/apbridge.c:52-61 | replies to the AP's SVC cport go to AP cport 0 exactly when slot 0 is free or connected to SVC cport 0 |
| ApBridge.CreateThenDestroy | src/apbridge.c:76-147 | destroying right after a successful creation restores the map, whichever end is named first |
| ApBridge.CreateExactly | src/apbridge.c:22-116 | when a creation succeeds, in terms of its arguments and the nodes there are, which error comes out otherwise, and exactly what is bound |
| ApBridge.DestroyExactly | src/apbridge.c:118-147 | a destruction succeeds exactly when one end is the AP, frees exactly the AP's cport, and ends the SVC's readiness exactly for SVC cport 0 |
| Svc.SentOnZero | src/svc.c:82-96 | with AP cport 0 open, whatever the SVC sends goes out there once |
| Svc.HandleOne | src/svc.c:266-326 | a message that does not divert AP cport 0 causes exactly the headers the specification lists |
| Svc.SlotStaysOpenIff | src/svc.c:194-241 | a message leaves AP cport 0 free or with the SVC if and only if it is not a successful request to bind it, while free, to anything else |
| Svc.DivertedResponse | src/svc.c:194-218 | the response to such a request goes out on another AP cport, the first that is free or leads to the SVC, or is dropped when there is none |
| SvcTraces.TraceIsExpected | src/svc.c:266-338 | over every run: supported requests answered once, in order, on AP cport 0, with response bit and operation id; one hello per version response; nothing else; if and only if no message diverts that cport |
| SvcTraces.ResponsesAreNotAnswered | src/svc.c:311-322 | a message with the response bit is never answered, and only the version response leads to a request |
| SvcReplies.CreateStatusIsTrue | src/svc.c:194-218 | every create request is answered with its operation id, an empty payload, and result 0 exactly when the AP cport was free and is now routed to the requested endpoint, 1 otherwise; nothing else changes |
| SvcReplies.DestroyStatusIsTrue | src/svc.c:220-241 | every destroy request is answered the same way, with result 0 exactly when one end is the AP |
| SvcReplies.PlainReply | src/svc.c:116-192 | every other supported request is answered with result 0 and the payload due, and changes nothing |
| SvcReplies.PayloadDue | src/svc.c:116-192 | those payloads, type by type |
| SvcReplies.HelloSent | src/svc.c:74-80 | a version response is followed by a hello request with the endo id and the AP's interface id |
| SvcReplies.OthersIgnored | src/svc.c:314-325 | no other message does anything |
| SvcReplies.ConnectionRead | include/greybus_protocols.h:1005-1012 | the fields of connection requests, byte by byte |
| SvcReplies.VersionSent | src/svc.c:363-369 | a start that succeeds binds AP cport 0 to the SVC and sends version 0.1 |
| SvcReplies.StopClears | src/main.c:141-148 | a stop leaves the SVC not ready and every slot free, and sends nothing |
| SvcTraces.StartIffFree | src/main.c:127-140 | starting succeeds exactly when AP cport 0 is free, and then sends one version request on it |
| SvcTraces.Session | src/main.c:114-152 | stop, start and any messages: the version request, then exactly what the messages call for, if and only if none of them diverts AP cport 0 |
| SvcSession.Bridge.NodeApAdd | src/apbridge.c:22-37 | range check, occupied check, or the slot is bound; nothing else changes |
| SvcSession.Bridge.NodeApRemove | src/apbridge.c:39-50 | the slot in range becomes all zero; out of range an error and no change |
| SvcSession.Bridge.NodeToApCport | src/apbridge.c:52-61 | the first slot with these values, or a failure |
| SvcSession.Bridge.ApbridgeDeinit | src/apbridge.c:67-74 | every slot becomes all zero |
| SvcSession.Bridge.ConnectionCreate | src/apbridge.c:76-116 | map and status as the creation function says |
| SvcSession.Bridge.ConnectionDestroy | src/apbridge.c:118-147 | map, status and SVC readiness after a destruction |
| SvcSession.Bridge.ConnectionSend | src/apbridge.c:157-168 | from a node or the SVC: the message goes out on the looked-up AP cport or is dropped |
| SvcSession.Bridge.ConnectionSendFromAp | src/apbridge.c:154-156 | from the AP: the message is handed to the interface and cport of the slot; the SVC handles it on its cport 0 and refuses it on others |
| SvcSession.Bridge.NewOperationId | src/greybus_messages.c:17-25 | hands out the counter and moves it on, 65535 to 1 |
| SvcSession.Bridge.ControlSendRequest | src/svc.c:55-72 | one request with a new operation id, which is returned, or an error when no slot leads to the SVC |
| SvcSession.Bridge.ResponseHelper | src/svc.c:82-96 | one response to the request's type and operation id |
| SvcSession.Bridge.HandleMsg | src/svc.c:266-326 | the dispatcher in place, as the handler function says |
| SvcSession.Bridge.ControlStart | src/main.c:127-140 | readiness, the SVC connection, the version request, and the discovery thread running once that has succeeded |
| SvcSession.Bridge.ControlStop | src/main.c:141-148 | discovery stopped, not ready, an empty map, and the node cache as node_destroy_all leaves it |
| Gateway.WireToWire | src/main.c:84-112 | requests that a host frames for AP cport 0, after any harmless bytes and for any chunking, are exactly what the SVC handles; and a host that decodes the frames carrying its replies gets those messages in every field, with exactly the headers of the specification |

## Left out

- MdnsEncode.StringMake: models the call without a string table, which is how its only caller makes it (`src/mdns.c:416-417`); `MdnsCompress.StringMake` models the call with one.
- MdnsCompress.MadeStandsIff: is about labels of 1 to 191 bytes and references below 0x4000 to offsets that hold no pointer themselves, as the offsets of such labels do.
- MdnsRoundTrip.NameRoundTrip: the guarantee covers labels of 1 to 191 bytes without dots; longer labels, which no DNS name has, get a truncated length byte.
- MdnsAnswer.AnswerCheck: record data of fewer than two bytes, when the walk meets one before its first match, make the code compare through a null pointer, and a query longer than the name buffer makes it read past it; both are excluded by preconditions.
- MdnsSection.CheckRightIff: whole records with fewer than two bytes of data, as just said, and owner names beyond the limits of the code.
- MdnsAnswer.QueryRecv: packets shorter than the 12-byte header, whose counts the code reads from uninitialised memory.
- GreybusHdlc.GbMessageHdlcSend: messages that do not fit its local buffer of HDLC_MAX_BLOCK_SIZE bytes, which the code copies unchecked; a TCP node can send one.
- GreybusHdlc.SubmittedIffSerialized: frame payloads that stop before the size field, and headers that claim less than their own size, make the C length arithmetic wrap; they are reported as outside the contract and nothing is claimed about them.
- GreybusHdlc.WholeStackRoundTrip: the heap is taken to have room for every message.
- Transport.Socket.MessageReceive: the same for headers that claim less than their own size.
- Transport.Socket.InfWrite: reports of a removed module are counted; what the second one finds after the first has destroyed the interface is not modelled.
- NodeRx: polling, the pipe, the sockets on which polling reports an error, and how the cache changes between two receptions.
- NodeRuns.RunAgreesIffFresh: only interfaces the cache leads to are connected or removed, and stopping without agreement, which may reach interfaces that have been freed, is excluded.
- NodeManager.Nodes.DestroyAll: the same exclusion of states without agreement.
- NodeCache: slots are named by allocation number, so a freed slot that is handed out again counts as a new one; what a stale pointer to it would see is not modelled.
- ApBridge: the interface pointers that stay in the map after a node has been removed.
- SvcSession.Bridge.ConnectionSendFromAp: AP cports that are free, where the code dereferences a null pointer, and AP cports at or above AP_MAX_NODES, taken from the wire and used as an index unchecked.
- Gateway.WireToWire: requests that arrive after AP cport 0 has been disconnected, for the same reason.
- Svc: payloads shorter than the fields the connection and power-mode handlers read; whether sending the request itself fails; the freeing of messages.
- Thread interleavings: senders are serialised and the id counters are used one call at a time.
- UART interrupts, work queues and the ring buffer between them and the decoder.
- mDNS sockets and polling, the query header, and the loop and the socket of the discovery thread.
- The local node's fixed replies, the log back end, and memory conservation for every message.

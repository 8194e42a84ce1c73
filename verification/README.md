# A verified model of the cvd adb and fastboot cores

This project models, in Dafny, the parts of `base/cvd/adb` and `base/cvd/fastboot` that carry data, and proves
what they promise. `dafny verify dfyconfig.toml` checks all of it.

* **The adb stream protocol.** Local sockets, the OPEN / OKAY / WRTE / CLSE exchange, delayed acknowledgements,
  draining and teardown. `StreamProtocol` is one socket, `StreamConnection` the two ends of one connection with
  the messages between them, `StreamSystem` two processes with any number of sockets and arbitrary interleavings,
  `StreamCloses` the CLSEs of whole runs.
  `SocketGraph` is the graph of sockets and their peers in an explicit memory, in which following a pointer to a
  freed socket is an observable failure; `SocketTables` is the imperative code over it. `SmartRequest` is what a smart
  socket makes of the bytes of its client.
* **Byte chains and framing.** `IoVectors` is `Block` and `IOVector`; `Framing` the packet format and a plain
  one-pass parse; `PacketReaders` the incremental reader; `FdConnections` the reader and writer of a byte transport.
* **The fastboot UDP transport.** `UdpHost` is the host's code against a socket whose every outcome is given;
  `UdpSystem` is host, target and a network that loses, delays, reorders and repeats datagrams; `UdpDelivery` joins
  the two: what a call does at the target.
* **Vendor boot images.** `VendorBootImage` says what the bytes of an image mean and proves that writing and
  reading are inverse; `VendorBootRepack` is the cursor-based updater and the replacement of a ramdisk fragment;
  `VendorBootLaws` states what the replacement preserves, `VendorBootRepeat` what repeating it does.
* **Strings that the two ends exchange.** `Strings` (split and join), `Banner` (features and the delayed-ack
  decision), `HostService` (serial and command).

What comes from outside (reads and writes of fds, datagrams, the order of events) is a parameter or an event that
every theorem quantifies over. Sizes that the code keeps in 32 bits are reduced modulo 2^32 where that can matter.
The field offsets of the vendor boot header and of the ramdisk table entry are those of Android's public
`bootimg.h`, header versions 3 and 4, and the footer is that of Android Verified Boot; neither header file is part
of this model.

## Findings

Properties that do not hold as one would first state them are kept as the code has them, with the exact condition:

* A UDP datagram copy that is exactly 2^16 - 1 exchanges old is taken for a new one
  (`UdpSystem.ReplayIsConsumed`), and a host that goes on after a call without an answer reuses its number
  (`UdpDelivery.NumberIsReused`), so that a late answer to the abandoned request is taken for the answer to the next
  one, which the target never sees (`UdpSystem.AbandonedIsAnswered`). Delivery is exactly once in all runs if and
  only if copies live for at most 2^16 - 2 exchanges and the host sends nothing but the same request after a call that
  ended without an answer (`UdpSystem.ExactlyOnceIff`); at most once per number needs the first condition alone
  (`UdpSystem.AtMostOnceIffShortLived`).
* One end of an adb connection can send several CLSEs (`StreamCloses.TwoClses`): one for its teardown and one for every
  OKAY that comes later (`StreamCloses.ClsesAreAccountedFor`). All but the first that is taken are dropped
  (`StreamCloses.LaterClsesAreDropped`).
* A smart socket returns -1, which its client takes for having been closed, without closing it exactly if its bytes so
  far are a whole request that starts with `host-transport-id:` and does not go on with a 64-bit number and a colon
  (`SocketGraph.NegativeMeansClosed`, `SmartRequest.StraysIff`), for instance `0013host-transport-id:x`
  (`SmartRequest.StrayRequest`, `SocketGraph.MalformedIdIsLeftOpen`). Such a client stays open, and whatever it sends
  later strays again (`SmartRequest.StrayStays`).
* A request to a smart socket is not cut off behind its length: bytes that arrive with it become part of the service
  name, behind a zero in place of the first of them. What a request is taken for does not depend on how the bytes are
  cut into blocks if and only if there are none behind it, or its length or transport id is bad, or it has a bad serial
  that the further bytes do not make good (`SmartRequest.CutMattersUnless`).
* Replacing a vendor ramdisk succeeds even if the new content runs into the AVB footer, which then overwrites the end
  of the content (`VendorBootLaws.FooterCanDamage`; exactly when: `VendorBootLaws.ContentSurvives`). The new image says
  what it should if and only if the updated image is intact: nothing in it passes for a footer that is none, and its
  footer covers only padding, zeros behind the content or equal bytes (`VendorBootLaws.ReplacementPreservesMeaning`).
  Repeating the replacement changes nothing more below 4 GiB (`VendorBootRepeat.RepeatChangesNothing`); from there on,
  where the 32-bit seek to the footer wraps around, it can fail (`VendorBootRepeat.RepeatCanFail`).
* The number of table entries is compared with the bytes before the end of the table, not with its room, so the search
  for a name can leave the image (`VendorBootLaws.SearchCanLeave`). It does so exactly if it comes to an entry whose
  name does not start in the image (`VendorBootRepack.ReplaceFragment`), and some search does exactly if the last entry is
  one (`VendorBootRepack.SomeSearchLeaves`).
* The nonblocking connection delivers one packet per read, so a second complete packet waits for more bytes
  (`FdConnections.SecondFrameWaits`), and a writer that drains the buffer between poll and lock makes the run loop
  meet the CHECK of DispatchWrites (`FdConnections.WriterDrainsBeforeDispatch`).
* The destructive `coalesce` of a chain with one remaining block behind spent slots leaves the start index past the
  end (`IoVectors.IOVector.Coalesce` says exactly when).
* Assigning a moved `Block` exchanges the position with a size that is 0 by then: the target starts over and the source
  keeps its cursor, so it is a move if and only if the cursor was at the start (`IoVectors.MoveAssign`).
* A list of one empty feature name, or a name with a separator in it, does not survive the banner
  (`Banner.BannerRoundTrip` is an if and only if). A colon in the value of a property ends what is read of the banner,
  and the features are lost (`Banner.ColonLosesFeatures`).
* `parse_host_service` looks at the first character of an empty rest for exactly the inputs `vsock:`, `tcp:vsock:` and
  `udp:vsock:` (`HostService.ReadsBeyondIff`); the result does not depend on it (`HostService.BeyondIsIrrelevant`). It
  also takes an empty port for a port (`HostService.HostAndPort`).

## Model

| member | source | states |
|---|---|---|
| IoVectors.Resize | base/cvd/adb/types.h:68-75 | within the capacity only the line between content and spare storage moves; no byte of the storage changes |
| IoVectors.MoveAssign | base/cvd/adb/types.h:57-64 | content and storage change owner and the target starts over at 0, because the exchange of the position reads the size that was just cleared; the two blocks are what a move makes of them if and only if the source's cursor was at the start |
| IoVectors.FillFrom | base/cvd/adb/types.h:95-101 | bytes passed in the target followed by bytes to come in the source stay the same string, one of the two is exhausted, and neither block changes size |
| IoVectors.IOVector.Clear | base/cvd/adb/types.cpp:29-39 | no bytes are left and the last block is handed out for reuse |
| IoVectors.IOVector.MoveFrom | base/cvd/adb/types.cpp:19-27 | the bytes move over and the source is empty and valid |
| IoVectors.IOVector.Append | base/cvd/adb/types.h:207-214 | bytes after are bytes before followed by the block, also when the block is empty |
| IoVectors.IOVector.PopFrontBlock | base/cvd/adb/types.cpp:138-146 | exactly the unread rest of the front block goes, whether or not spent slots are trimmed |
| IoVectors.IOVector.DropFront | base/cvd/adb/types.cpp:41-63 | the abstract bytes lose exactly the first len, for every layout of blocks; no index leaves the chain |
| IoVectors.IOVector.TakeFront | base/cvd/adb/types.cpp:65-112 | result and rest are a split of the bytes at len, on the move, copy-out and copy-back paths alike; both chains stay valid |
| IoVectors.IOVector.TrimFront | base/cvd/adb/types.cpp:114-129 | the bytes are unchanged and the chain starts at its first byte |
| IoVectors.IOVector.Iovecs | base/cvd/adb/types.cpp:193-204 | the spans handed out concatenate to exactly the bytes |
| IoVectors.IOVector.CoalesceCopy | base/cvd/adb/types.h:247-264 | one block with exactly the bytes; the chain is unchanged |
| IoVectors.IOVector.Coalesce | base/cvd/adb/types.cpp:148-191 | all four paths return exactly the bytes; the start index stays in bounds if and only if it was not the one-block case behind spent slots |
| Framing.HeaderRoundTrip | base/cvd/adb/types.h:148-155 | decoding an encoded header gives the header |
| Framing.HeaderIsOnto | base/cvd/adb/types.h:148-155 | every 24 bytes are the encoding of the header they decode to |
| Framing.ParseResumes | base/cvd/adb/apacket_reader.cpp:33-113 | parsing a stream in two parts, carrying the pending bytes over, is parsing it at once |
| Framing.ParseIsLossless | base/cvd/adb/apacket_reader.cpp:33-113 | without an oversized header, the frames of the packets and the pending bytes are the stream again |
| Framing.ParseFrames | base/cvd/adb/transport.cpp:498-512 | what a writer framed parses to the packets written, with whatever follows left over |
| PacketReaders.APacketReader.AddBytes | base/cvd/adb/apacket_reader.cpp:33-113 | a block of any size does to packets, error and pending bytes exactly what the plain parse of pending bytes and block says, on the zero-copy and the fallback path |
| PacketReaders.APacketReader.AddPacket | base/cvd/adb/apacket_reader.cpp:26-31 | the packet goes behind the others and nothing is pending |
| PacketReaders.APacketReader.GetPackets | base/cvd/adb/apacket_reader.cpp:115-120 | all packets are handed over once, pending bytes stay |
| PacketReaders.APacketReader.PrepareForNextPacket | base/cvd/adb/apacket_reader.cpp:122-125 | nothing is pending |
| PacketReaders.FeedIsParse | base/cvd/adb/apacket_reader.cpp:33-113 | for every cutting of a stream into blocks the packets, the error and the rest are those of the parse of the concatenation |
| PacketReaders.FramesSurviveAnyCut | base/cvd/adb/transport.cpp:498-512 | any list of framed packets, cut anywhere, comes back unchanged with nothing left |
| PacketReaders.ReadStream | base/cvd/adb/apacket_reader.cpp:33-120 | a reader drained after every block delivers the packets of the plain parse and fails on exactly the streams with an oversized header |
| FdConnections.NonblockingFdConnection.ReadReady | base/cvd/adb/transport_fd.cpp:94-126 | one read delivers exactly the next packet of the parse of all bytes received, if there is one, and otherwise none |
| FdConnections.NonblockingFdConnection.DeliveredIsPrefix | base/cvd/adb/transport_fd.cpp:94-126 | what was delivered and the parse of what is buffered are the parse of everything received |
| FdConnections.NonblockingFdConnection.DispatchWrites | base/cvd/adb/transport_fd.cpp:177-201 | bytes taken by the fd followed by bytes buffered are always the bytes framed; exactly what the fd took leaves the buffer, and outcomes and the writable flag say what is left |
| FdConnections.NonblockingFdConnection.Write | base/cvd/adb/transport_fd.cpp:203-218 | a packet is framed behind the ones before it, whatever the fd takes |
| FdConnections.SecondFrameWaits | base/cvd/adb/transport_fd.cpp:108-126 | of two frames in one read the second is delivered only after another read |
| FdConnections.WriterDrainsBeforeDispatch | base/cvd/adb/transport_fd.cpp:70-92 | a writer can empty the buffer between the poll and the dispatch, which then meets its CHECK |
| StreamConnection.ReadKeeps | base/cvd/adb/sockets.cpp:176-250 | reading from the fd and sending keeps the invariant of a connection with everything on the way |
| StreamConnection.WriteKeeps | base/cvd/adb/sockets.cpp:122-173 | so does writing to the fd and acknowledging |
| StreamConnection.EnqueueKeeps | base/cvd/adb/sockets.cpp:252-268 | so does taking data over from the wire |
| StreamConnection.OkayKeeps | base/cvd/adb/sockets.cpp:418-442 | so does an acknowledgement, also the first one, which makes the connection |
| StreamConnection.CloseKeeps | base/cvd/adb/sockets.cpp:344-380 | so does closing, with and without bytes to drain |
| StreamConnection.PeerCloseKeeps | base/cvd/adb/adb.cpp:593-615 | so does the CLSE of the other end |
| StreamSystem.ReceiveKeeps | base/cvd/adb/adb.cpp:499-624 | every case of OPEN, OKAY, CLSE and WRTE, for known, unknown, closed and mismatched sockets, keeps the invariant of the whole system |
| StreamSystem.ApplyKeeps | base/cvd/adb/sockets.cpp:382-416 | every event at a process keeps the invariant of the whole system |
| StreamSystem.CreditIsConserved | base/cvd/adb/sockets.cpp:122-250 | in every reachable state credit, data on the way, bytes not written and acknowledgements on the way add up to the window, in both directions |
| StreamSystem.StreamsArePrefixes | base/cvd/adb/sockets.cpp:122-268 | in every reachable state what one end's fd took is a prefix of what the other end read, and for a live receiver the rest is its queue and the data on the way |
| StreamSystem.OrderlyCloseLosesNothing | base/cvd/adb/sockets.cpp:344-380 | an end closed by the other's CLSE was given everything the other read, and once gone has written it all unless its fd failed |
| StreamSystem.WindowIsBounded | base/cvd/adb/sockets.cpp:176-250 | credit stays above minus one packet, reading is armed exactly while there is credit, and no queue exceeds the window by a whole packet |
| StreamSystem.AcksSurviveTheSignBit | base/cvd/adb/adb.cpp:553-591 | every acknowledgement on the way is read back as the number written although it passes through int32 |
| StreamSystem.DrainIsGraceful | base/cvd/adb/sockets.cpp:344-380 | unwritten bytes always have the fd watched, so the CHECK in local_socket_close cannot fail, and a socket goes away only with its queue written or its fd broken |
| StreamSystem.OneCloseEach | base/cvd/adb/sockets.cpp:516-538 | the teardown of an end says CLSE exactly once, when a connected end stops being live |
| StreamCloses.ClsesAreAccountedFor | base/cvd/adb/adb.cpp:553-591 | over every run the CLSEs that one end has sent the other are the one of its teardown, if it was connected, and one for each OKAY that reached it afterwards |
| StreamCloses.LaterClsesAreDropped | base/cvd/adb/adb.cpp:593-615 | of the CLSEs that one end sends the other all but the first one taken change nothing but the wire |
| StreamCloses.TakingCloses | base/cvd/adb/adb.cpp:593-615 | taking a CLSE leaves its socket closed, and is a step that changes nothing else if it was closed already |
| StreamCloses.TwoClses | base/cvd/adb/adb.cpp:553-591 | a run in which one end has two CLSEs on the way while the other end is live |
| StreamSystem.BlockedSenderWaitsForSomething | base/cvd/adb/sockets.cpp:418-442 | a connected sender that is not read has data or acknowledgements on the way, or a receiver that waits to write |
| StreamSystem.OpensNameTheRightWindow | base/cvd/adb/adb.cpp:505-512 | no OPEN on the way is refused for its window |
| StreamSystem.RunsAreSymmetric | base/cvd/adb/sockets.cpp:544-589 | the two processes can be exchanged in every run, so each result holds at both ends |
| SocketGraph.RunsStaySound | base/cvd/adb/sockets.cpp:64-380 | over every list of events no freed socket is touched, also not by the rest of a read after the peer took the data, peering is symmetric, every local socket is in exactly one list under a non-zero id of its own, and a socket put aside has bytes its fd is watched for |
| SocketGraph.CloseKeeps | base/cvd/adb/sockets.cpp:344-380 | closing a socket with any kind of peer keeps the graph sound |
| SocketGraph.SmartCloseKeeps | base/cvd/adb/sockets.cpp:951-959 | so does closing a smart socket with its client |
| SocketGraph.TieKeeps | base/cvd/adb/sockets.cpp:887-907 | so does tying a client to a host service in place of its smart socket |
| SocketGraph.LeaveKeeps | base/cvd/adb/sockets.cpp:921-936 | so does the smart socket's part of leaving a client waiting for a device service; that its reading stops is the caller's part |
| SocketGraph.SmartTakeKeeps | base/cvd/adb/sockets.cpp:784-944 | for all bytes a smart socket has got and everything that may come of a request, the graph stays sound, the client is closed exactly if the request is refused, and the result is negative exactly then and for a malformed transport id |
| SmartRequest.Unhex | base/cvd/adb/sockets.cpp:613-651 | the loop gives the number of the hexadecimal digits, and 0xffffffff if there is anything else |
| SmartRequest.OnlyDigitsCount | base/cvd/adb/sockets.cpp:804-808 | a length is refused exactly if it is zero or not made of digits; four digits cannot exceed the limit |
| SmartRequest.Read | base/cvd/adb/sockets.cpp:799-849 | the steps of the code recognize the request that the bytes are and leave them with a zero behind it |
| SmartRequest.StraysIff | base/cvd/adb/sockets.cpp:832-840 | the request is one with a bad transport id if and only if it is whole, names a transport id and does not go on with a 64-bit number and a colon, whatever arrives behind it |
| SmartRequest.StrayRequest | base/cvd/adb/sockets.cpp:833-836 | 0013host-transport-id:x is such a request |
| SmartRequest.StrayStays | base/cvd/adb/sockets.cpp:792-840 | once a request has strayed, it strays again with everything that arrives later |
| SmartRequest.HeardOnPart | base/cvd/adb/sockets.cpp:792-821 | however the bytes are cut into blocks, a smart socket decides exactly if they are enough, and then on a part that ends with a block |
| SmartRequest.LongerPart | base/cvd/adb/sockets.cpp:817-849 | bytes behind a request never turn it into or from one with a bad transport id, always change the name of a service or destination, and rescue a bad serial exactly if the longer text has a serial and a command |
| SmartRequest.CutMattersUnless | base/cvd/adb/sockets.cpp:792-849 | every cutting gives what the request alone is, if and only if nothing is behind it, its length or transport id is bad, or it has a bad serial that no further bytes make good |
| SocketGraph.GiveKeeps | base/cvd/adb/sockets.cpp:210-230 | giving data to a remote, local or smart peer keeps the graph sound, and after a result that is not negative the socket still exists |
| SocketGraph.ResumeKeeps | base/cvd/adb/sockets.cpp:217-249 | so the rest of the read, which touches the socket again, is safe and keeps the graph sound |
| SocketGraph.NegativeMeansClosed | base/cvd/adb/sockets.cpp:220-229 | a closed socket gets a negative result, and one that gets it is still open if and only if its bytes so far are a request with a malformed transport id at a smart socket |
| SocketGraph.MalformedIdIsLeftOpen | base/cvd/adb/sockets.cpp:833-836 | the client whose first bytes are such a request gets a negative result and stays open |
| SocketGraph.LeftClientIsConnecting | base/cvd/adb/sockets.cpp:184-250 | a client whose request was for a device ends up as the connecting socket of the stream protocol, no longer read |
| SocketGraph.RemoteReadFollowsProtocol | base/cvd/adb/sockets.cpp:204-250 | towards a remote peer the socket is what the stream protocol says |
| SocketGraph.PeerKeeps | base/cvd/adb/sockets.cpp:973-979 | so does giving a lone socket a new smart or remote peer |
| SocketGraph.GoodIsSafe | base/cvd/adb/sockets.cpp:344-380 | in a sound graph every pointer that an event follows leads to a socket that exists |
| SocketTables.SocketTable.Find | base/cvd/adb/sockets.cpp:64-79 | the first listed socket with the id, and the peer id if one is asked for; none exactly if there is none |
| SocketTables.SocketTable.InstallLocal | base/cvd/adb/sockets.cpp:81-92 | a new id that no listed socket has, at the end of the list |
| SocketTables.SocketTable.RemoveSocket | base/cvd/adb/sockets.cpp:94-100 | the socket is in neither list any more and the others keep their order |
| SocketTables.Erase | base/cvd/adb/sockets.cpp:94-100 | moving what stays to the front and cutting off the rest leaves exactly the other addresses in order |
| SocketTables.SocketTable.Close | base/cvd/adb/sockets.cpp:344-380 | the steps of the code give the table the graph model predicts, send at most one CLSE and touch no other pair |
| SocketTables.SocketTable.CloseAll | base/cvd/adb/sockets.cpp:102-114 | the restarting scan ends, leaves exactly the sockets that had nothing to do with the transport, in order and untouched, and sends exactly the CLSEs due in list order |
| SocketTables.SocketTable.TieToService | base/cvd/adb/sockets.cpp:887-907 | client and service are each other's peers afterwards, the smart socket is gone, the table sound |
| SocketTables.SocketTable.LeaveWaiting | base/cvd/adb/sockets.cpp:921-936 | the client has no peer, its OPEN is sent on the chosen transport with the right window, the smart socket is gone; the reading of the client is stopped by its own function, see SendOutgoing |
| SocketTables.SocketTable.SmartEnqueue | base/cvd/adb/sockets.cpp:784-944 | the bytes are kept and read as the code does, and result, table and packets of what comes of the request are those of the graph model |
| SocketTables.SocketTable.Flush | base/cvd/adb/sockets.cpp:122-173 | the table and the packets sent are those of the stream protocol; only a socket that had finished draining goes away |
| SocketTables.SocketTable.Enqueue | base/cvd/adb/sockets.cpp:252-268 | data goes behind the queue; the result code, the table and the packets are those of the stream protocol |
| SocketTables.ReadUpTo | base/cvd/adb/sockets.cpp:182-202 | however short the single reads are, the loop takes what is there up to the limit and sees the end only if it stays below it |
| SocketTables.SocketTable.SendOutgoing | base/cvd/adb/sockets.cpp:176-250 | for a peer of any kind everything read is charged and given on once, result, table, packets and read arming are those of the graph model, the socket is not touched after a negative result and closes at the end of the fd otherwise; the table stays sound |
| SocketTables.RemoteSendsFollowProtocol | base/cvd/adb/sockets.cpp:487-505 | towards a remote peer the packet is the WRTE of the stream protocol |
| SocketTables.SocketTable.Ack | base/cvd/adb/sockets.cpp:418-442 | the socket is what the stream protocol says, and unchanged for an acknowledgement of the wrong kind |
| UdpSystem.ExactlyOnceIff | base/cvd/fastboot/udp.cpp:207-326 | over all runs the target consumes the host's requests in order and once, the host accepts the answers likewise and the counters differ by at most one, if and only if no copy outlives 2^16 - 2 exchanges and the host sends nothing but the same request after a call that ended without an answer |
| UdpSystem.AtMostOnceIffShortLived | base/cvd/fastboot/udp.cpp:207-326 | whatever the host does after such a call, the ends stay in step and the target consumes at most one of the requests sent under each number, if and only if no copy outlives 2^16 - 2 exchanges |
| UdpSystem.StepKeeps | base/cvd/fastboot/udp.cpp:253-326 | no loss, delay, repetition or reordering of datagrams and no giving up breaks that invariant |
| UdpSystem.AbandonedIsAnswered | base/cvd/fastboot/udp.cpp:283-317 | the answer to a request that the host gave up is taken for the answer to the next one; the outcome is exactly once only if the two are the same |
| UdpSystem.SmoothRun | base/cvd/fastboot/udp.cpp:207-326 | any requests and answers are those of a run |
| UdpSystem.ReplayIsConsumed | base/cvd/fastboot/udp.cpp:93-99 | a first request that turns up again after 2^16 - 1 exchanges is consumed a second time |
| UdpHost.MatchMeansSameNumber | base/cvd/fastboot/udp.cpp:86-99 | two packets match only if their numbers agree modulo 2^16 |
| UdpHost.UdpTransport.AwaitMatch | base/cvd/fastboot/udp.cpp:266-280 | the first datagram that matches is the answer, unless a time-out, a failure or a short datagram comes first; nothing more is received |
| UdpHost.UdpTransport.Transact | base/cvd/fastboot/udp.cpp:258-287 | a request goes out at most the allowed number of times, always the same bytes, until a matching answer comes; the answer, the number of copies and what was received are functions of what the socket does |
| UdpHost.UdpTransport.SendSinglePacket | base/cvd/fastboot/udp.cpp:253-326 | whatever the target does, the datagrams sent are those of a chain of exchanges and copies of its next request, the counter advances once per exchange and the buffer holds what fits of the data accepted |
| UdpHost.ErrorsStay | base/cvd/fastboot/udp.cpp:289-323 | once the target reports an error every later answer of the chain is an error, so testing the last one suffices |
| UdpHost.NoErrorAccepted | base/cvd/fastboot/udp.cpp:289-323 | a chain whose last answer is no error has none in it and kept the id of the call |
| UdpHost.UdpTransport.SendData | base/cvd/fastboot/udp.cpp:207-251 | on success every chunk has a complete chain and the result counts all data that came back; a failure leaves whole chunks and an exactly described partial one; each exchange took its own share of what happened on the socket, one after the other |
| UdpHost.ChunksConcatenate | base/cvd/fastboot/udp.cpp:217-226 | the chunks are the data again and none exceeds the packet size |
| UdpHost.ExchangesAreNumbered | base/cvd/fastboot/udp.cpp:207-326 | exchange by exchange: consecutive numbers on request and answer, the id of the call, data and continuation flags where they belong |
| UdpHost.PayloadsAreTheData | base/cvd/fastboot/udp.cpp:207-251 | with retransmissions left out the payloads sent are the data |
| UdpDelivery.CallIsARun | base/cvd/fastboot/udp.cpp:207-326 | a successful call is part of a run as it happened, with its time-outs, repetitions, strange datagrams and whatever the target got in between, if what arrives comes from the network; the run ends with its requests sent and its answers accepted |
| UdpDelivery.UnansweredCallIsARun | base/cvd/fastboot/udp.cpp:283-317 | so is a call that ends without an answer, and its run ends with the host giving up the last request |
| UdpDelivery.ExchangeRuns | base/cvd/fastboot/udp.cpp:258-287 | one exchange, with all that happens on the socket until its answer, is the step of the runs that takes that answer |
| UdpHost.TransactedCut | base/cvd/fastboot/udp.cpp:258-287 | an answered exchange takes from the socket exactly what comes up to its answer |
| UdpHost.UnansweredCut | base/cvd/fastboot/udp.cpp:258-287 | a request without an answer takes exactly what comes up to the time-out of its last attempt |
| UdpDelivery.AwaitedIsDelivered | base/cvd/fastboot/udp.cpp:266-280 | of any datagrams that come, the receive loop accepts what the host of the runs accepts |
| UdpDelivery.CallArrivesOnce | base/cvd/fastboot/udp.cpp:207-251 | in every run whose host made a successful call, the target has consumed the data of the call exactly once and in order, and what the call returns is what the target answered |
| UdpDelivery.PartArrivesInOrder | base/cvd/fastboot/udp.cpp:207-251 | at every moment of a call, however it ends, what the target has consumed of it is a prefix of its data |
| UdpDelivery.NumberIsReused | base/cvd/fastboot/udp.cpp:315-317 | the first request after a call without an answer goes under the number of the request that got none |
| UdpHost.UdpTransport.InitializeProtocol | base/cvd/fastboot/udp.cpp:153-203 | success means an acceptable query and initialization answer, the counter goes on from the target's number and the packet size is the smaller of the two |
| UdpHost.UdpTransport.Read | base/cvd/fastboot/udp.cpp:328-345 | the buffer starts with exactly the data received, and an overflow is an error |
| UdpHost.UdpTransport.Write | base/cvd/fastboot/udp.cpp:347-362 | all chunks went over and data that comes back is an error |
| VendorBootImage.MultipleIsQuotient | base/cvd/fastboot/vendor_boot_img_utils.cpp:206-208 | rounding by repeated pages is dividing and multiplying |
| VendorBootImage.RoundUp | base/cvd/fastboot/vendor_boot_img_utils.cpp:206-208 | the result is at least the value, and less than one page above it, if and only if the 32-bit sum does not wrap |
| VendorBootImage.RoundUpIsLeastMultiple | base/cvd/fastboot/vendor_boot_img_utils.cpp:206-208 | it is a multiple of the page size, and without wrap-around the least one that is not below the value |
| VendorBootImage.DecodeEncode | base/cvd/fastboot/vendor_boot_img_utils.cpp:316-427 | reading the bytes written for an intact image gives the image |
| VendorBootImage.DecodedIsRegular | base/cvd/fastboot/vendor_boot_img_utils.cpp:137-162 | what a sound image says can be written down again |
| VendorBootRepack.CheckHeader | base/cvd/fastboot/vendor_boot_img_utils.cpp:130-162 | for version 4 exactly the proper version 4 headers pass |
| VendorBootRepack.DataUpdater.Copy | base/cvd/fastboot/vendor_boot_img_utils.cpp:39-49 | succeeds exactly if both cursors stay inside, appends the old bytes to what was written, and otherwise changes nothing |
| VendorBootRepack.DataUpdater.Replace | base/cvd/fastboot/vendor_boot_img_utils.cpp:51-68 | passes over the old bytes and appends the new ones, as many as a 32-bit size covers |
| VendorBootRepack.DataUpdater.Skip | base/cvd/fastboot/vendor_boot_img_utils.cpp:70-78 | both cursors move and what is skipped stays zero |
| VendorBootRepack.DataUpdater.Seek | base/cvd/fastboot/vendor_boot_img_utils.cpp:80-85 | both cursors go to the offset if it is inside |
| VendorBootRepack.CopyFooter | base/cvd/fastboot/vendor_boot_img_utils.cpp:197-202 | if the image has a footer it goes to the same place of the new one, and otherwise nothing changes |
| VendorBootRepack.FindUnique | base/cvd/fastboot/vendor_boot_img_utils.cpp:290-312 | the index exactly if one entry has the name, which of missing and several otherwise, and outside exactly if it comes to an entry whose name does not start in the image |
| VendorBootRepack.SomeSearchLeaves | base/cvd/fastboot/vendor_boot_img_utils.cpp:290-312 | some name makes the search leave the image if and only if the name of the last entry does not start in it |
| VendorBootRepack.SizesAreInside | base/cvd/fastboot/vendor_boot_img_utils.cpp:357-375 | once the search has seen all names, the sizes read later are in the image |
| VendorBootRepack.PadArithmetic | base/cvd/fastboot/vendor_boot_img_utils.cpp:377-382 | padding computed modulo 2^32 ends at the checked offset if and only if no number wrapped and the sizes agree |
| VendorBootRepack.CopyFragments | base/cvd/fastboot/vendor_boot_img_utils.cpp:357-375 | all fragments in order with the new one in place; succeeds exactly if they fit; the total is kept modulo 2^32 |
| VendorBootRepack.CopyTable | base/cvd/fastboot/vendor_boot_img_utils.cpp:398-412 | every entry as it was, with its offset the sum of the new sizes before it and the new size where it belongs |
| VendorBootRepack.ReplaceFragment | base/cvd/fastboot/vendor_boot_img_utils.cpp:316-427 | succeeds exactly if the image is sound, the name is there once and everything has its place without wrapping; the result is the written form of the updated image; it reads outside the image exactly if the search for the name does |
| VendorBootLaws.ReplacementPreservesMeaning | base/cvd/fastboot/vendor_boot_img_utils.cpp:316-427 | the new image has the same length, and it says what the old one said with the update made, with offsets that are prefix sums totalling the ramdisk size and the footer kept, if and only if the updated image is intact |
| VendorBootLaws.SaysIffIntact | base/cvd/fastboot/vendor_boot_img_utils.cpp:316-427 | the bytes written for an image say what the image says if and only if it is intact |
| VendorBootLaws.EncodeDecode | base/cvd/fastboot/vendor_boot_img_utils.cpp:316-427 | writing down what a sound image with prefix-sum offsets says gives its bytes again, but for the padding of the ramdisk |
| VendorBootLaws.OthersAreFound | base/cvd/fastboot/vendor_boot_img_utils.cpp:398-412 | who follows the offsets in the new table finds every other fragment as before, byte for byte, and the new one in its place |
| VendorBootLaws.OffsetsLeadToFragments | base/cvd/fastboot/vendor_boot_img_utils.cpp:398-412 | when offsets are prefix sums, reading by offset finds the same fragments as reading in order |
| VendorBootLaws.ReplaceTwice | base/cvd/fastboot/vendor_boot_img_utils.cpp:316-427 | if the first result is intact, replacing a fragment twice succeeds if and only if the last replacement alone does, and gives the same bytes |
| VendorBootRepeat.RepeatChangesNothing | base/cvd/fastboot/vendor_boot_img_utils.cpp:316-427 | repeating a replacement succeeds and gives the same bytes, for every image below 4 GiB whether or not the footer damaged it, and for intact ones of any size |
| VendorBootRepeat.RepeatOn | base/cvd/fastboot/vendor_boot_img_utils.cpp:316-427 | so it is for every image whose footer reaches no further than the last 64 bytes of its table |
| VendorBootRepeat.RepeatCanFail | base/cvd/fastboot/vendor_boot_img_utils.cpp:197-202 | an image of more than 4 GiB for which a replacement succeeds and leaves nothing that could be replaced in again |
| VendorBootLaws.ContentSurvives | base/cvd/fastboot/vendor_boot_img_utils.cpp:197-202 | the content is intact if and only if there is no footer, it ends before it, or it agrees with it where they overlap |
| VendorBootLaws.FooterCanDamage | base/cvd/fastboot/vendor_boot_img_utils.cpp:425-426 | a concrete image for which a successful replacement loses a byte of the table to the footer and does not say what it should |
| VendorBootLaws.SearchCanLeave | base/cvd/fastboot/vendor_boot_img_utils.cpp:331-346 | a header alone that claims ten entries passes the checks, and the search for any name leaves the image |
| Strings.Split | base/cvd/libbase/strings.cpp:37-53 | the index loop yields the pieces between delimiters |
| Strings.Join | base/cvd/libbase/include/android-base/strings.h:97-109 | the loop yields the things with the separator between them |
| Strings.PiecesAreFree | base/cvd/libbase/strings.cpp:37-53 | no piece has a delimiter or a character that the string does not have |
| Strings.JoinPieces | base/cvd/libbase/strings.cpp:37-53 | joining the pieces gives the string |
| Strings.PiecesOfJoined | base/cvd/libbase/strings.cpp:37-53 | splitting what was joined gives the things if none has the separator |
| Banner.FeaturesRoundTrip | base/cvd/adb/transport.cpp:1250-1260 | a feature list survives its string form if and only if no name has a comma and it is not one empty name |
| Banner.Transport.SetFeatures | base/cvd/adb/transport.cpp:1275-1278 | features and the delayed-ack flag are those of the string |
| Banner.Transport.ParseBanner | base/cvd/adb/adb.cpp:351-405 | the loop over the properties gives the fold of single properties; features are forgotten first |
| Banner.GetConnectionString | base/cvd/adb/adb.cpp:294-316 | the string is kind, properties and features in order |
| Banner.ParsedIsClean | base/cvd/adb/adb.cpp:351-405 | whatever the banner, the list read has no name with a separator and is not one empty name |
| Banner.BannerRoundTrip | base/cvd/adb/adb.cpp:294-405 | whatever the properties, as long as they have no colon, the other end recovers the feature list if and only if the list is clean, and then the delayed-ack decision and the kind |
| Banner.ColonLosesFeatures | base/cvd/adb/adb.cpp:351-405 | a colon in the value of a property loses the features and delayed acks, but not the kind |
| Banner.DeviceBannerRoundTrip | base/cvd/adb/adb.cpp:294-405 | a device's three properties and everything else come across |
| Banner.BothEndsAgree | base/cvd/adb/adb.cpp:505-512 | after both banners the ends agree on delayed acks and neither refuses an OPEN of the other for its window |
| HostService.Parse | base/cvd/adb/sockets.cpp:662-780 | whenever it succeeds, serial, colon and a non-empty command are the whole input; the condition of each CHECK is a proved precondition |
| HostService.HostAndPort | base/cvd/adb/sockets.cpp:744-779 | a plain host, digits and a command are found again, whatever the command holds |
| HostService.HostAlone | base/cvd/adb/sockets.cpp:754-779 | without a port all that follows the host is the command |
| HostService.PrefixedSerial | base/cvd/adb/sockets.cpp:695-708 | with one of the fixed prefixes the serial ends at the second colon |
| HostService.TcpOrUdp | base/cvd/adb/sockets.cpp:710-779 | a protocol in front of an address stays with the serial, with a port and without |
| HostService.Vsock | base/cvd/adb/sockets.cpp:716-779 | a vsock serial keeps its extra colon, with a port and without |
| HostService.Bracketed | base/cvd/adb/sockets.cpp:726-743 | an address in brackets may hold colons, with a port behind it and without |
| HostService.AddressParses | base/cvd/adb/sockets.cpp:726-779 | whatever is in front of an address, it ends at its colon, and what follows decides about a port |
| HostService.Endings | base/cvd/adb/sockets.cpp:754-779 | digits up to a colon are a port and belong to the serial, and anything else is the command |
| HostService.ReadsBeyondIff | base/cvd/adb/sockets.cpp:710-727 | the first character of an empty rest is read if and only if the input is vsock:, alone or behind tcp: or udp: |
| HostService.BeyondIsIrrelevant | base/cvd/adb/sockets.cpp:716-742 | the character read behind an empty rest does not change the result |

## Left out

- StreamSystem.Handle: the packet handler is modelled on values, because the two processes and their wires are one state of the proof; the in-place form of the socket operations is in SocketTables. CNXN, AUTH and STLS, the online test, the check for reverse connections and the trailing NULs of service names are not modelled.
- SocketTables.SocketTable: sockets are records in an explicit memory from addresses to sockets, not heap objects, so that a dangling pointer is something a run can show; the list lock is not modelled.
- SocketTables.SocketTable.SendOutgoing: what comes of a recognized request (handling a host request, the search for a transport, the creation of a service socket) is decided by the environment; a device name that is too long for the OPEN ends the process at a CHECK, which is not modelled.
- SocketTables.SocketTable.Flush: the fd side of sockets (fdevents, shutdown, deferred close) is reduced to what is armed.
- StreamSystem.BlockedSenderWaitsForSomething: safety only; that what is waited for comes about depends on the fds and the network.
- StreamSystem.Enabled: an fd event comes only while it is armed, one read gives at most MAX_PAYLOAD bytes, and ids are not reused; the wrap-around of 32-bit ids is excluded.
- IoVectors.IOVector.DropFront: asks for a length below 2^32, because the code counts in an unsigned int; growth of the storage of vectors is not modelled.
- FdConnections.NonblockingFdConnection.DispatchWrites: what the fd takes in one call is below 2^32 bytes, for the same reason.
- UdpSystem.Apply: the target and the network are a stated environment that follows the fastboot protocol document; the agreement on the first number (device query and initialization) comes before the runs.
- UdpDelivery.UnansweredCallIsARun: for calls that end after the last time-out; those that end with an error of the socket or a short datagram are in the contract of SendData only.
- UdpHost.UdpTransport.SendData: the counter is an unbounded number of which packets carry 16 bits; clocks are reduced to time-outs that the socket reports.
- VendorBootRepack.ReplaceFragment: asks that the header states the entry size of the structure, because the code mixes the two sizes otherwise, and a page size of at most 2^32 - 2128, beyond which RoundUp says that the header offset wraps around; error texts are reduced to kinds.
- Replacing the default ramdisk (the same copying steps with a table of one entry) and reading and writing the files are not modelled.
- HostService.Parse: modelled on values; the code moves two views over the input.
- Version and checksum negotiation (update_version, check_header), the TLS, USB and mDNS transports, and the rest of adb, fastboot and cvd are not modelled.

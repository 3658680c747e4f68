# Verified model of the nexus-stun node

A Dafny model of the parts of the mesh-VPN node that carry a protocol, a wire format or a table of
state: the relay, the name server, the STUN client and the peer discovery. `dafny verify dfyconfig.toml`
checks the whole project.

## How it is laid out

| file | what it holds |
|---|---|
| `Bytes.dfy`, `IpAddress.dfy`, `DottedNames.dfy` | byte strings, big-endian integers, `net.IP`, `strings.Split` and `strings.Join` |
| `RelayCodec.dfy` | the relay frame format as functions of the bytes, single frames and streams |
| `RelayConnection.dfy` | `readMessage` and `sendMessage` on a connection that hands over bytes piece by piece; the relay client |
| `RelayProtocol.dfy` | the relay as a state machine, one handler per connection, and its invariant |
| `RelayDelivery.dfy`, `RelayRegistry.dfy` | what every run of it guarantees: frames, order, exactly-once; who can be reached |
| `RelayServer.dfy` | the server object on its real connections, each method one atomic section; its history is a run of the state machine |
| `RelayBytes.dfy` | the relay in bytes and numbers: frames written and read, registration, ping, forwarding |
| `DnsName.dfy`, `DnsTermination.dfy`, `DnsMeaning.dfy`, `DnsEncoding.dfy` | the name decompressor: code, when it comes back, what its results mean, its inverse |
| `DnsMessage.dfy`, `DnsServer.dfy` | question section, response builders, a response reader, the server object |
| `Stun.dfy`, `StunClient.dfy` | binding responses; what the client remembers over many discoveries |
| `StunReports.dfy` | the client in bytes and numbers: what a datagram reports is what is remembered |
| `Liveness.dfy`, `Discovery.dfy` | the peer table as a function of the event trace; the object with its in-place records |

Imperative code of the source is a class or a method with a loop; each is proved against a function
(`Encode`, `Read`, `Step`, `ParseName`, `FindAddress`, `Update`, ...), and the properties are lemmas about
that function over all inputs, all runs or all reachable states.

The relay's state keeps history that no step looks at: what has arrived on a connection, the frames its
handler read and the fate of each, and a log of the frames written to it with the handler and frame
they came from. `WireIsWholeFrames` ties that log to the bytes on the wire.

Formats and limits are also stated in bytes and numbers, without the named constants, so that writer and
reader cannot be wrong together: `RelayBytes`, `StunReports`, `FourByteForm`, `DecodedBits`, `HeaderChecks`,
`NameSyntax`, `NameWritten`, `HeaderWritten`, `AnswerWritten`, `SaysRight` in `HandleQuery`, `StatusInLetters`,
the sample of RFC 5769 section 2.2, and a DNS query with its answer.

## What holds only under a condition, and exactly when

* A frame survives the codec if and only if its names have at most 255 bytes and its payload at most
  65535: the writer cuts name lengths to one byte and does not check the payload (relay.go:267, 244),
  the reader rejects longer payloads (relay.go:212). `RelayCodec.RoundTrip`, and `RoundTripInNumbers`.
* The frames a relay handler reads make up what arrived if and only if no read deadline passes in the
  middle of a frame: the loop goes on after a timeout there (relay.go:149-152).
  `FramingHoldsUntilFrameIsCut`, with a run in which a Ping that nobody sent is read,
  `TimeoutInsideFrameForgesFrame`.
* A registered client stays reachable if and only if no handler registers or deletes its name in the
  meantime: the deferred delete goes by name only (relay.go:134). `ReachableIffNameUntouched`, with a run
  in which a live client is taken out of the map by its own former connection, `OldHandlerDeletesNewEntry`.
  The map is at every moment exactly the set of live handlers if and only if no two of them ever serve
  the same name at once, `MapIsExactWithoutSharing`.
* A name survives the DNS encoder, and leaves the reader just past it, if and only if each of its
  dot-separated parts has 1 to 191 bytes (dns.go:320, 344). `NameRoundTrip`. For every other name but
  the root the name itself comes back different or not at all, `NameReadBack`; the root comes back, but
  one byte too early, `RootNameLeavesAByte`.
* `parseDNSName` comes back if and only if the pointers met do not lead to an offset met before.
  Pointing to before the start of the calling name is enough, pointing to before the pointer is not.
  On any stack with room for more calls than a datagram has bytes, the datagram crashes the server if
  and only if its question loop gets to such a name: `HandleQuery`, and `LoopQueryCrashes` for one.
* A response to at most 65535 addresses is read back in full if and only if the name in its question is
  encodable and every address has a 4-byte form: `ResponseRoundTrip`, and `HandleQuery` for what the
  server answers. Queries can ask for names that are not, `LocalButNotEncodable`. With more addresses
  the answer count in the builder's bytes wraps, `AnswerCountWraps`; such bytes do not fit a datagram,
  so that the write (dns.go:199) fails.
* What follows a STUN message in its datagram changes nothing if and only if the message is refused for
  its header or settles the outcome by itself: `TailIsIgnoredIffClosed`. Attribute headers and values
  are read as far as the datagram goes, not as far as the stated length (stun.go:191, 198), so a message
  is unsettled exactly when the loop gets to a cut header that may still become an address attribute, or
  to an address attribute that runs past the end. Overlong attributes of other kinds never matter:
  either way no address is found. `OverlongAttributes` shows the three cases; attribute lists that fill
  the message are safe, `ResponseOfAttributes`.
* A wildcard query for the bare domain (dns.go:181) cannot reach its branch, since only names that end
  in a dot and the domain get there. `BareDomainIsNotLocal`.
* A peer that has announced that it is offline is reported only by the first check that also finds its
  last heartbeat late. `OfflinePeerIsReported`.

Where comments and code differ, the model follows the code: the NAT test speaks of the same local port
(stun.go:251), but every request dials a port of its own (stun.go:117), so the model takes the second
reply as an independent answer. The repository's own README.md describes a STUN server; the code is a
STUN client.

## Model

| member | source | states |
|---|---|---|
| RelayCodec.AcceptedIsCanonical | relay.go:182-251 | every frame the reader accepts re-encodes to exactly the bytes consumed, so a forwarded Data frame is byte for byte the one received |
| RelayCodec.RoundTrip | relay.go:182-270 | reading what was written, whatever follows, gives the message back and its exact size, if and only if its lengths are in range |
| RelayCodec.MoreInputChangesNothing | relay.go:182-227 | the outcome of a read never changes when more bytes arrive behind it |
| RelayCodec.CutFrameStarves | relay.go:182-227 | every proper prefix of a frame is recognised as incomplete: no frame is a prefix of another |
| RelayCodec.StreamRoundTrip | relay.go:182-251 | any list of in-range messages written back to back is read as that list, and what follows as if it stood alone |
| RelayCodec.ReadAllIsLossless | relay.go:182-227 | for any bytes, the messages read and the rest left over account for every byte |
| RelayCodec.ResumedReading | relay.go:147-154 | reading, waiting and reading on delivers what one reading of the whole stream delivers, wherever it was cut |
| RelayConnection.Connection.ReadFull | relay.go:184-185 | io.ReadFull over pieces: exactly the next n bytes, or failure with everything used up |
| RelayConnection.Connection.ReadText | relay.go:253-263 | one length-prefixed string is taken off the stream, or everything is used up |
| RelayConnection.Connection.ReadPayloadOf | relay.go:205-219 | from the payload length on, the payload is taken off the stream; a short read and an oversized length are told apart |
| RelayConnection.Connection.ReadMessage | relay.go:182-227 | the frame at the front of the stream is taken off it whatever the pieces; timeout, disconnection and oversized payload are told apart |
| RelayConnection.Connection.ReceiveAll | relay.go:140-154 | read in a loop up to the first read that fails, the frames of any in-range messages, in any pieces, come back as those messages with nothing left over |
| RelayConnection.Connection.Write | relay.go:235-250 | a write puts all of the buffer on the wire, or a beginning of it and then fails for good |
| RelayConnection.Connection.SendMessage | relay.go:229-251 | the frame of the message is written in one write |
| RelayConnection.RelayClientConn.Connect | relay.go:327-347 | connecting writes the registration frame with the node's name, and fails, with the connection closed, exactly if the network does not take all of it |
| RelayConnection.RelayClientConn.Send | relay.go:350-365 | the frame is written whole or cut; after a successful in-range Send on a stream of whole frames, a reader gets what it got before and then exactly this message |
| RelayProtocol.StepKeepsInv | relay.go:106-251 | every atomic step of any handler or of the network keeps the invariant, and history only grows |
| RelayProtocol.ReachableIsOk | relay.go:85-251 | every reachable state, under any interleaving, satisfies the invariant |
| RelayDelivery.WireIsWholeFrames | relay.go:229-251 | in every run the bytes written to a connection read back as whole frames, those of its log in order; only a failed write leaves the start of one more, which no reader takes for a frame |
| RelayDelivery.ForwardingIsFifo | relay.go:140-180 | the Data frames on a connection that came from one handler are frames that handler read, in that order, none twice, unchanged |
| RelayDelivery.EveryFrameIsAccountedFor | relay.go:156-180 | every frame read has exactly one fate, and stands in the one log entry that its fate names (on a connection registered under its destination name) or in none |
| RelayDelivery.ForwardingOutcome | relay.go:167-180 | whatever other handlers do between lookup and write, a Data frame is delivered as the next whole frame if and only if its destination was found and its connection is open, unbroken and takes it |
| RelayDelivery.DiscardedIfCut | relay.go:147-154 | in any run, bytes of a connection are thrown away if and only if a read deadline passes in the middle of a frame |
| RelayDelivery.FramingHoldsUntilFrameIsCut | relay.go:147-154 | frames read and bytes pending make up what arrived, if and only if no read deadline passed in the middle of a frame |
| RelayDelivery.ReadsWhatWasSent | relay.go:140-154 | if no read deadline passes in the middle of a frame, a handler has read a prefix of the messages its client sent |
| RelayDelivery.EndToEndFifo | relay.go:106-251 | from client to client, in runs in which no read deadline cuts a frame of the sender: the Data frames that arrive are among the messages sent, in the order sent, none twice |
| RelayDelivery.TimeoutInsideFrameForgesFrame | relay.go:149-152 | a run in which a timeout inside a frame makes the handler read a Ping that nobody sent |
| RelayRegistry.EntriesAreServed | relay.go:107-137 | in every reachable state each map entry is keyed by the name its connection registered, and its handler is live and the connection open |
| RelayRegistry.ReachableIffNameUntouched | relay.go:126-137 | a client in the map stays in it exactly as long as no handler registers or deletes its name |
| RelayRegistry.MapIsExactWithoutSharing | relay.go:126-137 | at every moment of a run the map is exactly the set of live registered handlers, if and only if at no moment two live handlers share a name |
| RelayRegistry.OldHandlerDeletesNewEntry | relay.go:132-137 | a run in which a handler on its way out deletes the newer registration of the same name |
| RelayServer.Server.constructor | relay.go:53-58 | a new server has no connections and an empty history |
| RelayServer.Server.Accept | relay.go:85-104 | a new connection gets a handler of its own: one Accept step |
| RelayServer.Server.Arrive | relay.go:184-185 | a piece that the network brings to a connection is one Arrive step |
| RelayServer.Server.HangUp | relay.go:149-154 | the end of a stream is no step: nothing changes until a read meets it |
| RelayServer.Server.ReceiveRegistration | relay.go:109-130 | one readMessage on the connection, in whatever pieces: a frame, or an oversized one, is the Receive step, which registers or ends the handler; the end of the stream is the Quit step |
| RelayServer.Server.ReceiveMessage | relay.go:147-163 | one readMessage on the connection, in whatever pieces, and the switch: a frame, or an oversized one, is the Receive step, a timeout is the Stall step, the end of the stream is the Quit step |
| RelayServer.Server.Return | relay.go:142-145 | a cancelled context is the Quit step |
| RelayServer.Server.Lookup | relay.go:167-175 | the lookup under the read lock is the Lookup step |
| RelayServer.Server.Forward | relay.go:177-179 | sendMessage on the connection of the destination, which takes as much as it has room for, is the Write step |
| RelayServer.Server.Pong | relay.go:161-162 | sendMessage of a Pong on the own connection is the Write step |
| RelayServer.Server.Unregister | relay.go:132-137 | the deferred delete by name is the Unregister step |
| RelayServer.Server.Close | relay.go:107 | the deferred close, after which the connection takes no write, is the Close step |
| RelayServer.Server.KeepsEndToEndFifo | relay.go:85-251 | whatever methods have been called: what is on a connection of the object reads back as whole frames, and those from another client are messages it sent, in order, none twice, if no read deadline cut a frame of it |
| RelayBytes.FramesWritten | relay.go:44-50 | Data frames, registrations, Ping and Pong in bytes: types 1, 2, 3 and 4, counted names, four-byte payload length, high byte first |
| RelayBytes.FramesRead | relay.go:182-227 | the bytes 3 and 4 are frames by themselves, and a frame of a type other than 1, 3 and 4 ends with its destination |
| RelayBytes.DataIsRead | relay.go:205-219 | a Data frame is read as the message in it if its four-byte length is at most 65535, and refused as oversized otherwise |
| RelayBytes.LongDataIsRefused | relay.go:211-214 | a length above 65535 is refused before the payload is there |
| RelayBytes.RoundTripInNumbers | relay.go:182-270 | a message survives if and only if it is of type 3 or 4, or its names have at most 255 bytes and, for type 1, its payload at most 65535 |
| RelayBytes.FirstFrame | relay.go:109-130 | a first frame of type 2 enters the connection under its source; of any other type with names, it ends the connection |
| RelayBytes.OtherFirstFrame | relay.go:109-117 | any first frame that does not begin with 2, well-formed or oversized, ends the connection unregistered |
| RelayBytes.PingIsAnswered | relay.go:161-162 | the byte 3 is answered by the byte 4 on the same connection |
| RelayBytes.DataIsForwarded | relay.go:147-180 | read, looked up and written, a Data frame of at most 65535 bytes of payload appears on the destination byte for byte as it was taken from the source |
| DottedNames.JoinSplit | dns.go:329-343 | joining a split name gives the name back |
| DottedNames.SplitJoin | dns.go:329-343 | splitting joined parts gives the parts back when there are some and none has a dot |
| IpAddress.FourByteForm | dns.go:225 | the 4-byte form of an address: four bytes as they are, the last four of a mapped one, nothing for any other |
| IpAddress.EqualIsSameAddress | stun.go:263 | addresses are equal if they are the same bytes or two forms of one IPv4 address |
| DnsName.ParseDnsName | dns.go:308-339 | the loop with its recursive call computes ParseName for any stack depth and any input, reading only inside the data |
| DnsTermination.StackOfMessageLengthDecides | dns.go:308-339 | with room for one call more than there are bytes, the result is that of every larger stack, and overflow means that the chain of pointers revisits an offset |
| DnsTermination.PointingBackTerminates | dns.go:320-330 | when every pointer met leads to before the start of the call that meets it, as many calls as the offset suffice |
| DnsTermination.PointingBeforeThePointerIsNotEnough | dns.go:320-330 | a message whose pointer leads to before itself and on which no stack is enough |
| DnsMeaning.WalkIsParsed | dns.go:308-339 | every walk over labels and pointers to a zero byte is parsed, to the dotted name that it spells |
| DnsMeaning.ParseNameMeansWalk | dns.go:308-339 | a name is delivered if and only if there is such a walk; it is what the walk spells, with one more dot exactly if the last label is followed only by pointers, and the next offset ignores where pointers led |
| DnsMeaning.NameSyntax | dns.go:308-339 | the parser step by step in numbers: 0 ends, 1 to 191 count a label, from 192 on two bytes are a pointer of 14 bits; what is cut off is malformed |
| DnsEncoding.EncodeDnsName | dns.go:341-349 | the loop writes each dot-separated part with its length byte and a final zero |
| DnsEncoding.NameWritten | dns.go:341-349 | a part without dots is written behind its length, the rest after the dot in the same way, and a zero byte at the end |
| DnsEncoding.ParsedPartsAreShort | dns.go:308-339 | no message makes the parser deliver a name with a part of more than 191 bytes |
| DnsEncoding.NameReadBack | dns.go:308-349 | in any context, a name other than the root is read back as itself, the next offset aside, if and only if all its parts have 1 to 191 bytes |
| DnsEncoding.NameRoundTrip | dns.go:308-349 | in any context a name just encoded is read back, with the reader just past it, if and only if all its parts have 1 to 191 bytes |
| DnsEncoding.RootNameLeavesAByte | dns.go:341-349 | the empty name is written as two zero bytes, of which a reader takes one |
| DnsMessage.ParseQuestionSection | dns.go:134-150 | the question loop computes ParseQuestions on any data, reading only inside it |
| DnsMessage.OverflowsOnLoops | dns.go:134-150 | on a stack with room for one call more than the message has bytes, the question loop overflows if and only if it gets to a name whose pointers come back to an offset |
| DnsMessage.QuestionsRoundTrip | dns.go:134-150 | the question loop inverts the encoding of any list of questions with encodable names |
| DnsMessage.BuildResponse | dns.go:202-228 | the response for one address is the response format for that list of one |
| DnsMessage.BuildMultiResponse | dns.go:230-255 | the response for a list of addresses, in order, in the response format |
| DnsMessage.BuildNxDomain | dns.go:257-269 | the negative response is the response format with code 3 and no answers |
| DnsMessage.AnswerInContext | dns.go:219-225 | an answer with pointer 0xC00C is read anywhere as the address record of the name at offset 12, if and only if the address has a 4-byte form |
| DnsMessage.HeaderWritten | dns.go:206-211 | the twelve header bytes: identifier, 0x8180 or 0x8183, one question, the answer count, two empty sections |
| DnsMessage.QuestionWritten | dns.go:214-216 | the question is the name written, its type and its class, high byte first |
| DnsMessage.AnswerWritten | dns.go:219-225 | the sixteen bytes of an answer for a 4-byte address, which stands in it unchanged |
| DnsMessage.RecordsOfFour | dns.go:244-252 | 4-byte addresses are to be read as records of type and class 1 with just these addresses, in order |
| DnsMessage.RootQuestionIsMisread | dns.go:202-255 | no response about the root name is read back as it was meant |
| DnsMessage.ResponseRoundTrip | dns.go:202-255 | for any name and up to 65535 addresses, a reader recovers identifier, flags, question and all answers in order, with nothing left over, if and only if the name is encodable and all addresses have a 4-byte form |
| DnsMessage.AnswerCountWraps | dns.go:232-237 | in the builder's bytes for more than 65535 addresses a reader sees only the first of them, modulo 65536 |
| DnsServer.Server.AddPeer | dns.go:44-49 | a peer is added or replaced and nothing else changes |
| DnsServer.Server.RemovePeer | dns.go:52-56 | a peer is removed and nothing else changes |
| DnsServer.Server.AllAddresses | dns.go:182-188 | the addresses collected, in whatever order the map gives, are those in the table, each as often as it is there |
| DnsServer.Server.HandleNexusQuery | dns.go:169-200 | the response is for the peer asked for, for all peers on a wildcard, or negative |
| DnsServer.Server.HandleQuery | dns.go:121-167 | what any datagram leads to; a local question is answered under its identifier, and for up to 65535 answers the buffer handed to the write reads back as that question with the right answers if and only if the name is encodable and the addresses have a 4-byte form; for an encodable name it says what SaysRight has in numbers: a 4-byte address as it is in the table, a mapped one without its prefix, all addresses for a wildcard, code 3 for the rest; on a stack for more calls than there are bytes, a crash if and only if the question loop gets to a pointer loop |
| DnsServer.LocalButNotEncodable | dns.go:160-163 | a query for a local name that is not encodable, and the garbled question written for it |
| DnsServer.LoopQueryCrashes | dns.go:134-150 | a query of 14 bytes whose name is a pointer to itself |
| DnsServer.BareDomainIsNotLocal | dns.go:160-181 | the branch for the bare domain is never reached |
| DnsServer.LocalMeansBelow | dns.go:160-163 | local are exactly the questions of type 1 for a name that ends in a dot and the domain |
| DnsServer.RightIsSaidRight | dns.go:169-200 | the answers chosen from the table, put into a response, are read as SaysRight has them in numbers |
| DnsServer.AnswerSample | dns.go:121-228 | a query of 21 bytes for a peer at 10.0.0.5 and the 37 bytes of its answer |
| Stun.ParseXorMappedAddr | stun.go:221-232 | the loop over the four address bytes computes DecodeXorMapped |
| Stun.XorBit | stun.go:226-230 | a bit of the exclusive or is set if and only if it is set in exactly one operand |
| Stun.SameBits | stun.go:226-230 | the bits below its width determine a number |
| Stun.CookieParts | stun.go:12-19 | the masks for address and port are the four bytes of the magic cookie and their upper half |
| Stun.DecodedBits | stun.go:221-232 | port and address differ from the bytes received exactly in the bits of the magic cookie 0x2112A442 |
| Stun.SampleMaskedAddress | stun.go:221-232 | the masked bytes A1 47 E1 12 A6 43 are 192.0.2.1, port 32853 |
| Stun.DecodeEncodedXor | stun.go:221-232 | decoding undoes the masking of RFC 8489 section 14.2, for every address and port |
| Stun.DecodeEncodedMapped | stun.go:234-241 | decoding undoes the layout of RFC 8489 section 14.1, for every address and port |
| Stun.ParseBindingResponse | stun.go:166-219 | the attribute loop computes ParseResponse on any data |
| Stun.HeaderChecks | stun.go:166-186 | the four header checks in bytes and in their order: size, cookie, type 0x0101, stated length |
| Stun.ResponseOfAttributes | stun.go:166-241 | the response made of any attribute list gives the address of the first address attribute, and an error if and only if there is none, whatever the padding and the bytes after it |
| Stun.AcceptedIsAttributes | stun.go:188-216 | whatever is accepted has a list of other attributes at its front and then the address attribute decoded |
| Stun.MaskedAndClearAgree | stun.go:202-241 | masked and clear responses for one endpoint are understood alike through the whole parser |
| Stun.TailIsIgnoredIffClosed | stun.go:186-200 | what follows a message in its datagram changes nothing, if and only if the message is refused for its header or is closed: the loop gets to no cut header that may still be an address attribute and to no address attribute that runs past the end |
| Stun.OverlongAttributes | stun.go:190-200 | messages with an overlong address attribute, with a cut header of one, and with an overlong attribute of another kind: only the last is closed |
| StunClient.Client.constructor | stun.go:70-75 | a new client remembers nothing |
| StunClient.Client.Discover | stun.go:79-112 | one call changes the memory as Discovery says: the first server to answer, in list order, and the NAT test if it is the first configured |
| StunClient.Client.DetectNatType | stun.go:245-274 | the verdict from two results, or unknown |
| StunClient.EndpointIsLatestAnswer | stun.go:79-112 | after any calls the public endpoint is that of the first server to answer in the latest call that got an answer |
| StunClient.FailuresChangeNothing | stun.go:82-111 | calls in which no server answers leave no trace |
| StunClient.NatTypeIsLatestVerdict | stun.go:103-106 | the NAT type is the verdict of the latest call that the first configured server answered, with a second one to compare |
| StunClient.NoProbeNoVerdict | stun.go:103-106 | before the first such call there is no verdict |
| StunClient.ResultsAreLatest | stun.go:90-94 | the table of results holds for each server its latest first answer, and nothing for others |
| StunReports.ReportIsResult | stun.go:114-147 | a datagram whose first address attribute, under 0x0020 or 0x0001, holds ip and port is answered with that endpoint, if the message fits 1024 bytes, whatever follows it |
| StunReports.AnswersInNumbers | stun.go:130-141 | a reply is an answer if and only if an address is found in its first 1024 bytes |
| StunReports.LongMessageIsNoAnswer | stun.go:130-141 | a message that states more than 1004 bytes of attributes is never an answer |
| StunReports.DiscoverReports | stun.go:79-112 | the endpoint that the first answering server reports is the result, the public endpoint and the entry in the table; without a second answer the NAT type is unknown |
| StunReports.ReportsAreCompared | stun.go:245-274 | after two reports the verdict is a cone if address and port are the same, and symmetric otherwise, whatever the forms |
| StunReports.EndpointIsLatestReport | stun.go:79-112 | after any calls the public endpoint is the one reported in the latest answer |
| StunReports.ResultIsLatestReport | stun.go:90-94 | the table holds what each server reported in its latest first answer |
| StunReports.NatTypeComparesLatestReports | stun.go:103-106 | after any calls the NAT type compares the two reports of the latest probing call |
| StunReports.SampleResponse | stun.go:166-232 | the sample response of RFC 5769 section 2.2 reports 192.0.2.1, port 32853 |
| Liveness.UnknownUntilSeen | discovery.go:128-137 | the table has exactly the names, other than the node's own, that have sent a heartbeat |
| Liveness.RecordIsLastBeat | discovery.go:121-171 | a record holds the last heartbeat and its time; missed counts the late checks since, from 999 after an offline announcement |
| Liveness.StatusInLetters | discovery.go:150-171 | only the status "offline" in its seven letters, of another known node, changes the table, and it sets missed to 999 |
| Liveness.OfflineCountsFrom999 | discovery.go:163-171 | after a heartbeat and then "offline", missed is 999 plus the late checks since |
| Liveness.LateInNumbers | discovery.go:239-240 | a check is late if it comes more than three intervals after the last heartbeat |
| Liveness.LateTicks | discovery.go:220-248 | of the ticks of the period up to number m exactly max(0, m - floor(L/P) - 1) are late after time L |
| Liveness.MissedWhileSilent | discovery.go:220-248 | that many heartbeats count as missed for a peer last heard of at L |
| Liveness.SilentPeerIsReported | discovery.go:234-248 | a check at a tick reports a silent peer if and only if its last heartbeat is more than nine intervals ago |
| Liveness.ReportWindow | discovery.go:220-248 | exactly one tick lies more than nine and at most twelve intervals after a heartbeat: the first report |
| Liveness.OfflinePeerIsReported | discovery.go:163-171 | after an offline announcement the first late check reports the peer, and none before |
| Discovery.Service.constructor | discovery.go:45-50 | a new service knows no peers |
| Discovery.Service.HandleHeartbeat | discovery.go:121-148 | the table changes as Heartbeat says, in the record of that peer only |
| Discovery.Service.HandlePresence | discovery.go:150-171 | the table changes as Announce says: missed becomes 999 for a known node other than this one that says "offline", and nothing else changes |
| Discovery.PeerInfo.Check | discovery.go:239-246 | one record is checked in place, and a warning given, as Checked and Late say |
| Discovery.Service.CheckPeerHealth | discovery.go:234-248 | every record is checked once, in whatever order, and the peers warned about are those Reported says |
| Discovery.Service.GetPeer | discovery.go:251-259 | a fresh copy of the record, or nothing if the name is unknown |
| Discovery.Service.GetPeers | discovery.go:262-271 | a map of fresh, separate copies with the content of the table |

## Left out

- Sockets, TLS, accept and serve loops, MQTT, tickers, locks, contexts and logging: replaced by events, byte streams and explicit times.
- Write atomicity: one conn.Write of a frame is one step; a failed write ends output on its connection.
- LastSeen and PublicKey of a relay client (relay.go:27-34): never read by the relay.
- RelayConnection.Connection.SendMessage: the buffer is built as a value; array capacity and copying are not modelled.
- RelayConnection.Connection.ReceiveAll: stops at the first read that fails; going on after a timeout is RelayServer.Server.ReceiveMessage.
- RelayServer.Server.Forward: a handler is a phase in a map of the server object, not a goroutine with a stack; the steps are interleaved by the caller.
- RelayServer.Server.ReceiveRegistration: before the registration no deadline is set, so the model has no call for a read that waits for ever.
- DnsName.ParseDnsName: the Go stack is a number of nested calls; its limit in bytes is not modelled.
- DnsServer.Server.HandleQuery: the shared read buffer of the serve loop (dns.go:93, 117) is taken as one immutable datagram per query, and the answer from upstream is network I/O.
- The DNS cache and upstream resolver fields (dns.go:21-23), which no query uses, and filling the table from the configuration (dns.go:70-79).
- Stun.ParseBindingResponse: transaction identifiers and address families are not checked, because the code does not check them; building the request (stun.go:149-164) is a constant.
- StunClient.Client.Discover: round-trip times and error texts are not kept.
- Discovery.Service.HandleHeartbeat: JSON decoding is a parameter (a message, or none), and the update callback is absent.
- Discovery.Service.CheckPeerHealth: one check reads the clock once for all peers; the missed counter does not overflow.
- Publishing heartbeats and the local endpoint (discovery.go:173-218, 274-290): MQTT output only.
- crypto.go: rests on primitives outside the repository.
- dashboard.go, main.go, config.go, wireguard.go: plumbing, command wiring and device calls that would add only easy members.

# Models of the protocol cores of the mDNSResponder tree

This project states, in Dafny, what several small and intricate parts of the mDNSResponder sources
compute, and proves properties of them. The files of each part:

- `NameWire.dfy`, `MessageWire.dfy`, `MessageLaws.dfy`, `Compression.dfy`, `Repeats.dfy`: the DNS
  wire decoder of the registration server (names with compression pointers, integers, record data,
  records, whole messages with and without compression, EDNS options).
- `DsoTlv.dfy`, `DsoSession.dfy`, `DsoRuns.dfy`, `DsoEvents.dfy`: DNS Stateful Operations (RFC 8490): building and
  reading TLVs, scatter/gather output, the table of outstanding requests, session establishment,
  what holds over every run, and what every message makes an endpoint tell.
- `DsoLifecycle.dfy`, `DsoOrder.dfy`, `DsoConnections.dfy`, `DsoActivities.dfy`: the two lists of DSO connections and
  the activity lists, first as values with all runs of them, then as linked lists edited through
  their links: the two lists of connections, each with its activities held by value, in
  `DsoConnections`, and the activity list of one connection in `DsoActivities`.
- `CtiWire.dfy`, `CtiConnection.dfy`: marshalling, buffer growth and framing of the CTI protocol.
- `InterfaceDiff.dfy`, `InterfaceList.dfy`: the update of the list of interface addresses, as a
  multiset difference and as list surgery.
- `WakeupTimers.dfy`, `WakeupList.dfy`: arming and cancelling wakeups, and the timer scan with its
  restarts.
- `TxtText.dfy`, `TxtReading.dfy`, `Base64.dfy`: the TXT record printer and reader and the bounded Base64 encoder of
  the `dns-sd` tool.
- `Bytes.dfy`, `Lists.dfy`, `Counting.dfy`: octets and big-endian integers, sequences without
  repetition, counting.

A class (`Cursor`, `DsoState`, `Registry`, `ActivityList`, `Buffer`, `Connection`, `OutMessage`,
`Transport`, `Scanner`, `Interfaces`, `EventLoop`) follows the source step by step and is proved equal
to a function of the old state; the theorems are then about that function, and say what it computes
in terms of octets, characters, type numbers and the system's own entries. Callbacks, random numbers,
clocks and what the system calls return are parameters, so a theorem holds for all of them.

## Where the code does something other than one would expect

The model follows the code. These differences are stated as lemmas:

- The TLV loop does not count a TLV's four header octets when it checks for room
  (`DSO/dso.c:792`). `DsoTlv.AcceptsIff` says exactly which messages are accepted, which reach up to
  four octets past their end, and as which TLVs; `DsoTlv.AcceptsWholeTlvs` is the case of those that
  end where the message ends, and `DsoTlv.AcceptsShortLastTlv` is a message that overruns. A model
  message therefore comes with the four octets that follow it in memory.
- Receipt of a message out of place cancels the connection but goes on (`DSO/dso.c:780`), so its
  event is still delivered. `DsoRuns.CancelledButToldIff` says for every message exactly when, and
  `DsoRuns.CancelledButTold` is an instance.
- A client whose first request is refused is told so although it has no session; this is the only
  event on a live connection without one. `DsoRuns.LiveEventHasSession` says exactly when there is a
  session, and `DsoRuns.RefusedClientTold` is a run that ends without one.
- A keepalive only ever lowers the two timeouts (`DSO/dso.c:641-678`), and a connection starts with
  both at 0 (`DSO/dso.c:202-262`). So in every run they stay 0, and a server reports 0 whatever its
  peer asked for: `DsoRuns.TimeoutsNeverGrow` and `DsoRuns.TimeoutsStayZero`.
- A message of an unsupported length whose sender disregards the low-water mark is written after the
  pieces of the write before it, which go out once more, and without a length of its own
  (`DSO/dso-transport.c:244-249` and `410-422`): `DsoTlv.Transport.MessageWrite`.
- `dso_drop_activity` finalizes an activity whether or not it is on the connection's list
  (`DSO/dso.c:489-519`): `DsoActivities.ActivityList.Drop`. That it is on the list is exactly what the
  tallies of activities need: `DsoLifecycle.DropKeepsInvIff`.
- A message that is only a header clears the recorded primary TLV if it is a response, but not if it
  is a request: `DsoRuns.HeaderOnlyPrimary`. `DsoRuns.ToldTlvsIff` says that this is the only way for
  a callback to see TLVs that are not the message's.
- A response can end its request without anyone being told: `DsoRuns.AnswerToldIff` says exactly when.
- `cti_connection_i32_put` swaps the value twice (`ServiceRegistration/cti-proto.c:134-138`):
  `CtiWire.I32RoundTripsIff` and `CtiWire.I32Swapped`.
- A CTI string of 65536 octets or more is cut, because its length is stored in 16 bits:
  `CtiWire.FieldsRoundTripIff` and `CtiWire.LongStringIsCut`.
- TXT record data of more than 255 octets is shortened to its length modulo 256
  (`ServiceRegistration/fromwire.c:485-488`): `MessageLaws.TxtKeptIff` and `MessageLaws.TxtShortened`.
- Of several OPT records in one message the last with any option replaces what was read before:
  `MessageLaws.LastOptWins`.
- Printing a TXT record loses its zero-length strings: `TxtText.RegisterReadsBack`.
- The comment at `ServiceRegistration/ioloop.c:364-367` says that a wakeup that fired is back on the
  list only with a later time. That is the caller's duty: `WakeupTimers.RearmedIsDueAgain` says
  exactly when it is due again, and `WakeupTimers.FiresAfterIff` that in any scan it fires after the
  call exactly then, and once; `WakeupTimers.FiresTwiceIff` gives scans in which it fires twice.

## Model

| member | source | states |
|---|---|---|
| NameWire.MasksAreRanges | ServiceRegistration/fromwire.c:122-165 | On all octets, the bit masks that tell pointers from labels are the ranges of the model, and the two octets of a pointer denote the offset they are shifted and masked into |
| NameWire.ParseIffExpansion | ServiceRegistration/fromwire.c:114-176 | A name parses to these labels and this end if and only if following strictly backward pointers (RFC 1035 section 4.1.4) from the offset gives them |
| NameWire.ParsedShape | ServiceRegistration/fromwire.c:83-176 | Every parsed name is labels of 1 to 63 octets closed by its only root label, and the offset moved forward within the length |
| NameWire.WalkBounded | ServiceRegistration/fromwire.c:114-176 | No path of labels and legal pointers is longer than (base + 1) * (len + 1), on any octets |
| NameWire.Cursor.ParseLabel | ServiceRegistration/fromwire.c:83-112 | A label is read exactly when it fits, and otherwise the cursor stays |
| NameWire.Cursor.ParseNameIn | ServiceRegistration/fromwire.c:114-193 | The recursive parser computes ParseName through its moving cursor, ends, and makes at most (base + 1) * (len + 1) calls |
| NameWire.Cursor.ParseU8 | ServiceRegistration/fromwire.c:195-208 | Reads one octet or leaves the cursor |
| NameWire.Cursor.ParseU16 | ServiceRegistration/fromwire.c:210-223 | Reads two octets as a big-endian integer or leaves the cursor |
| NameWire.Cursor.ParseU32 | ServiceRegistration/fromwire.c:225-239 | Reads four octets as a big-endian integer or leaves the cursor |
| NameWire.Cursor.ParseU64 | ServiceRegistration/fromwire.c:241-257 | Reads eight octets as a big-endian integer or leaves the cursor |
| NameWire.EncodeParse | ServiceRegistration/fromwire.c:114-176 | An uncompressed name anywhere in a message parses back to its labels |
| NameWire.CompressionInvisible | ServiceRegistration/fromwire.c:122-148 | Replacing a name's suffix by a legal pointer to an earlier equal suffix changes none of the labels read |
| MessageWire.ParseRDataAt | ServiceRegistration/fromwire.c:389-524 | The record data parser computes ParseRData for every record type and leaves the cursor at the end of the data; Compression.RDataAtIff says what that is, by type number |
| MessageWire.ParseRRAt | ServiceRegistration/fromwire.c:526-583 | Reads one record, with or without data, as ParseRR does |
| MessageWire.ParseSectionAt | ServiceRegistration/fromwire.c:670-700 | Reads the counted records of one section, at most 50 |
| MessageWire.OptParse | ServiceRegistration/fromwire.c:39-81 | Reads the options of one OPT record to its end, or fails |
| MessageWire.EdnsOfAdditional | ServiceRegistration/fromwire.c:702-713 | Collects the options over the additional section as the source's list pointer does |
| MessageWire.WireParse | ServiceRegistration/fromwire.c:658-720 | The whole message parser computes ParseMessage |
| MessageLaws.MessageLayout | ServiceRegistration/fromwire.c:658-720 | On success every section has its header's count, at most 50, and the records lie in consecutive ranges from offset 0, each section starting where the one before ended |
| MessageLaws.DataFillsLength | ServiceRegistration/fromwire.c:389-542 | A record ends exactly its announced data length after its fixed part, and the data parsed accounts for that many octets |
| MessageLaws.DataIsEncoding | ServiceRegistration/fromwire.c:389-524 | Data without names, and TXT data up to 255 octets, is read only from its standard encoding: the parsed data encodes back to the very octets |
| MessageLaws.RDataRoundTrip | ServiceRegistration/fromwire.c:389-524 | The standard encoding of record data of every known shape parses back to it |
| MessageLaws.RRRoundTrip | ServiceRegistration/fromwire.c:543-583 | The standard encoding of a record parses back to it |
| MessageLaws.MessageRoundTrip | ServiceRegistration/fromwire.c:658-720 | The standard encoding of a message parses back to the same records and options |
| Compression.NameAtReads | ServiceRegistration/fromwire.c:114-176 | A name written as labels or as some labels and a pointer to an earlier place holding the others, itself perhaps compressed, is read as the whole name |
| Compression.NameAtIsSpelled | ServiceRegistration/fromwire.c:114-176 | Every name compressed so is spelled by a path of labels and strictly backward pointers |
| Compression.RDataAtIff | ServiceRegistration/fromwire.c:389-524 | By type number: 2, 5 and 12 are read as a name, 33, 24 and 25 as the fields of SRV, SIG and KEY, 1 and 28 as an address of 4 or 16 octets, 16 as text and every other type as its octets, each if and only if the octets hold such data, with names spelled by paths of backward pointers below the data's end |
| Compression.RecordAtIff | ServiceRegistration/fromwire.c:526-583 | The same for a record: name, type, class and, where expected, ttl, length and data |
| Compression.MessageAtIff | ServiceRegistration/fromwire.c:658-720 | Octets parse to a message if and only if they hold it: a header with its counts, and its records one after the other, compressed in any legal way or not at all |
| Compression.OptionsAreIff | ServiceRegistration/fromwire.c:702-714 | The additional section gives a message these options if and only if the data of every record of type 41 is an encoding of options, and these are those of the last such record that has any, or there are none |
| Compression.MalformedOptFails | ServiceRegistration/fromwire.c:702-714 | A message is refused if the data of any OPT record in its additional section is no encoding of options |
| Compression.CompressedMessageParses | ServiceRegistration/fromwire.c:658-720 | So a message whose names are compressed by legal pointers, anywhere in it, parses to the records it holds |
| MessageLaws.OptionsExact | ServiceRegistration/fromwire.c:39-81 | OPT data (RFC 6891 section 6.1.2) yields these options if and only if it is their encoding |
| MessageLaws.SingleOpt | ServiceRegistration/fromwire.c:702-713 | The options of a message's only OPT record are recovered exactly |
| MessageLaws.LastOptWins | ServiceRegistration/fromwire.c:39-81 | A later OPT record with options replaces those read before |
| MessageLaws.TxtKeptIff | ServiceRegistration/fromwire.c:485-493 | TXT data is kept whole if and only if it has at most 255 octets |
| MessageLaws.TxtShortened | ServiceRegistration/fromwire.c:485-493 | Of 256 octets of TXT data none is kept |
| DsoTlv.ReceiveTlvs | DSO/dso.c:783-821 | The TLV loop computes the recorded primary and additional TLVs |
| DsoTlv.AcceptsIff | DSO/dso.c:783-821 | The loop accepts a message as these TLVs, ending at some offset, if and only if the octets up to there are their encoding, the last begins before the message's end, and the offset is from that end to four octets past it |
| DsoTlv.AcceptsWholeTlvs | DSO/dso.c:783-821 | The loop ends at the message's end with these TLVs if and only if the message is their encoding, and never accepts more than four octets past it |
| DsoTlv.AcceptsShortLastTlv | DSO/dso.c:792-800 | A message whose last TLV is four octets short is accepted and read past its end |
| DsoTlv.RecordsAllTlvs | DSO/dso.c:802-819 | A primary TLV and the first ten of any number of additional ones are recorded in order |
| DsoTlv.OutMessage.StartTlv | DSO/dso.c:266-290 | Opens a TLV with its opcode and room for the length |
| DsoTlv.OutMessage.AddBytesNoCopy | DSO/dso.c:292-307 | The TLV's payload grows by octets that are not copied |
| DsoTlv.OutMessage.AddBytes | DSO/dso.c:309-323 | The TLV's payload grows by octets copied at the cursor |
| DsoTlv.OutMessage.AddByte | DSO/dso.c:325-338 | The payload grows by one octet |
| DsoTlv.OutMessage.AddU16 | DSO/dso.c:340-354 | The payload grows by a big-endian 16-bit integer |
| DsoTlv.OutMessage.AddU32 | DSO/dso.c:356-372 | The payload grows by a big-endian 32-bit integer |
| DsoTlv.OutMessage.FinishTlv | DSO/dso.c:374-390 | Stores the length, and the message is then the encoding of one more TLV |
| DsoTlv.OutMessage.Length | DSO/dso.c:620-623 | The length is that of the message with the no-copy octets in place |
| DsoTlv.BuiltMessageParses | DSO/dso.c:266-390 | What the builder finished, the receive loop records: its primary TLV and the first ten others, with the same opcodes and payloads (RFC 8490 section 5.4.4) |
| DsoTlv.Transport.WriteStart | DSO/dso-transport.c:244-288 | A write starts with the two-octet length, for lengths 12 to 65535 |
| DsoTlv.Transport.Write | DSO/dso-transport.c:369-405 | Each non-empty piece is registered, at most four in all |
| DsoTlv.Transport.WriteFinish | DSO/dso-transport.c:335-358 | The pieces are written in order; a failed or short write cancels |
| DsoTlv.Transport.MessageWrite | DSO/dso-transport.c:410-422 | The octets written are the big-endian length and the message as a copying builder would have made it, in at most four pieces; for other lengths nothing, or, if the refusal is disregarded, the earlier pieces and the message |
| DsoSession.DsoState.MakeMessage | DSO/dso.c:536-618 | Issues a request as Issue does, makes a unidirectional message or a reply, or refuses; the octets of the header are the ID, the response bit, opcode 6, the response code and four zero counts |
| DsoSession.HeaderOctets | DSO/dso.c:553-612 | The twelve octets of a header: the ID of a request or response, or 0, the response bit, opcode 6, the response code of a response, and zero counts |
| DsoSession.DsoState.ChooseId | DSO/dso.c:575-601 | The ID is the first usable of at most 1001 draws, and the slot is free |
| DsoSession.DsoState.IgnoreResponse | DSO/dso.c:521-534 | Every slot with the context forgets it |
| DsoSession.DsoState.MessageReceived | DSO/dso.c:680-836 | The receiver computes Receive: table, session, TLVs, cancellation and event; DsoEvents.MessageOutcome says what that is |
| DsoSession.KeepaliveTakesLesser | DSO/dso.c:641-678 | Of each timeout a server reports, and a client adopts, the lesser of its own and the received one; a payload that is not eight octets of reasonable timeouts changes nothing and is answered with an error |
| DsoEvents.MessageOutcome | DSO/dso.c:625-836 | For every message: one of a wrong length, with non-zero counts or overlong TLVs, or answering nothing, cancels and tells nothing; otherwise, with a callback, a first TLV of type 1 makes a server report and a client adopt of each timeout the lesser, or is a format error, one of type 2 is told as the delay of its four octets, or is a format error, and any other message is passed on as a request or as the response to the request its ID names |
| DsoEvents.FlagBits | DSO/dso.c:680-714 | On all octets, the response bit and the response code are those of the masks |
| DsoEvents.IssueIff | DSO/dso.c:568-606 | A request is issued if and only if there is a free slot and a usable ID among 1001 draws; it gets the first such ID and, with its context, the first free slot, and otherwise nothing changes |
| DsoEvents.PeerAnswerSettles | DSO/dso.c:553-606 | The answer a peer makes from the octets of an issued request's header settles that request: its context is told and the table is as it was |
| DsoSession.FreeSlotExists | DSO/dso.c:585-606 | While the count is below the maximum there is a free slot |
| DsoSession.IssueRefusedIff | DSO/dso.c:570-600 | A request is refused exactly when the table is full or none of 1001 draws is usable |
| DsoRuns.ReachableInv | DSO/dso.c:536-618 | In every reachable state the count is the number of non-zero IDs, these are distinct, and a server without a session has nothing outstanding |
| DsoRuns.FreshStartsRun | DSO/dso.c:209-262 | The state of a new connection, without session, requests or timeouts, starts a run |
| DsoRuns.TimeoutsNeverGrow | DSO/dso.c:641-678 | Over any run a client's timeouts never grow, a server's never change, and a reported pair is at most what the server had at any earlier time |
| DsoRuns.TimeoutsStayZero | DSO/dso.c:202-262 | From a new connection on both timeouts stay 0 and a server reports only 0 |
| DsoRuns.SessionNeverReverts | DSO/dso.c:202-207 | A session once established stays |
| DsoRuns.SessionGainedIff | DSO/dso.c:717-771 | A client gains a session exactly by a response without error to an outstanding ID, a server exactly by a request with a valid header (RFC 8490 section 5.1) |
| DsoRuns.ServerResponseHasSession | DSO/dso.c:775-781 | The server half of the check for a missing session is never taken |
| DsoRuns.TableAgrees | DSO/dso.c:570-740 | After any run the table holds exactly the requests issued and not yet answered, with their contexts |
| DsoRuns.ResponseMatchesRequest | DSO/dso.c:711-747 | A response event carries the context stored when its ID was issued, or NULL if it was ignored in between |
| DsoRuns.AtMostOneAnswer | DSO/dso.c:711-737 | Each request issued gets at most one response event |
| DsoRuns.AnswerToldIff | DSO/dso.c:700-833 | In every run a message answers a request if and only if it is a response to an outstanding ID, which is then outstanding no more; the callback gets the response, with the stored context, if and only if also the counts are zero, the TLVs are accepted, and the primary one is no keepalive and no retry delay |
| DsoRuns.UnexpectedResponseCancels | DSO/dso.c:739-747 | A response to an ID that is not outstanding tells nobody and cancels the connection |
| DsoRuns.LiveEventHasSession | DSO/dso.c:770-833 | After an event on a connection still live there is a session if and only if there was one before, or it is a server's, or a request was answered without error |
| DsoRuns.RefusedClientTold | DSO/dso.c:717-833 | A run of two steps that ends with an event on a live connection without a session |
| DsoRuns.CancelledButToldIff | DSO/dso.c:775-833 | A message cancels a live connection and is still told if and only if it is a well-formed request to a client with a callback and no session, and not a keepalive it adopts |
| DsoRuns.CancelledButTold | DSO/dso.c:775-833 | A client without a session that gets a request of the header alone is cancelled and still told |
| DsoRuns.ToldTlvsIff | DSO/dso.c:728-833 | Whenever anything is told, the recorded TLVs are the message's own, unless it is a request of the header alone and earlier TLVs were recorded |
| DsoRuns.HeaderOnlyPrimary | DSO/dso.c:728-734 | A response of the header alone clears the primary TLV, a request leaves an earlier one |
| DsoRuns.AnswerRestoresTable | DSO/dso.c:602-737 | Issuing a request and receiving its answer restores the table and delivers the request's context |
| DsoLifecycle.RunInv | DSO/dso.c:83-159 | Counts of places, holders and callbacks agree after every run |
| DsoLifecycle.ExactlyOnePlace | DSO/dso.c:99-159 | Every connection created is in exactly one of live, awaiting cleanup and freed, and every activity is held by one connection or was freed once |
| DsoLifecycle.CallbacksExactlyOnce | DSO/dso.c:99-159 | The cancel and finalize callbacks and the transport and activity finalizers are called once where due and not otherwise |
| DsoLifecycle.DropKeepsInvIff | DSO/dso.c:489-519 | Dropping an activity, on a live or a cancelled connection, keeps all counts if and only if the activity is on that connection's list |
| DsoLifecycle.CancelIdempotent | DSO/dso.c:99-125 | Cancelling twice is cancelling once |
| DsoLifecycle.AddKeepsNamesDistinct | DSO/dso.c:392-487 | Adding an activity keeps names of one kind distinct on a connection |
| DsoLifecycle.AddedIff | DSO/dso.c:392-487 | An activity is added if and only if none of its kind on the list has its name or, when it has no name, its context, named or not |
| DsoOrder.FreedInOrder | DSO/dso.c:131-154 | When a connection is freed the finalizers of its activities come first, then its transport's, and its own last |
| DsoOrder.LifeInOrder | DSO/dso.c:99-159 | In every run the callbacks of a connection come in the order create, cancel, transport finalizer, finalize |
| DsoConnections.Registry.FindBySerial | DSO/dso.c:83-93 | A connection is found by its serial number if and only if it is live |
| DsoConnections.Registry.StateCreate | DSO/dso.c:209-262 | The new connection is at the head of the live list with a new serial number |
| DsoConnections.Registry.StateCancel | DSO/dso.c:99-125 | The links are edited so that the lists are those of Cancel |
| DsoConnections.Registry.IdleCleanup | DSO/dso.c:127-159 | Everything awaiting cleanup is freed in order: its activities' finalizers, its transport's, its own |
| DsoConnections.Registry.StateAddActivity | DSO/dso.c:441-487 | The activity is put on the list of a live or cancelled connection, held by its value, unless one like it is there |
| DsoConnections.Registry.StateDropActivity | DSO/dso.c:489-519 | The activity is taken off the list of a live or cancelled connection, if it is on it, and finalized |
| DsoActivities.ActivityList.Find | DSO/dso.c:392-438 | The first activity of the kind with that name, or without a name with that context, and none without either |
| DsoActivities.ActivityList.Add | DSO/dso.c:441-487 | A new node is linked in front, and the values are those of WithAdded |
| DsoActivities.ActivityList.Drop | DSO/dso.c:489-519 | The link to the node is pointed past it if the node is on the list, and the activity is finalized in either case |
| DsoActivities.ActivityList.FinalizeAll | DSO/dso.c:131-139 | Walking the links calls the finalizers of ActivityEvents, in list order |
| CtiWire.NetOrderStored | ServiceRegistration/cti-proto.c:117-145 | Storing a value put in network order leaves its big-endian octets, on either byte order |
| CtiWire.FailsIffPastEnd | ServiceRegistration/cti-proto.c:178-320 | A read fails exactly when it would pass the message's end, and then leaves the cursor where the source does |
| CtiWire.FieldReadIff | ServiceRegistration/cti-proto.c:178-320 | A field is read from some octets if and only if they are that field's: big-endian numbers, any octet but 0 for true, counted data, and 0xffff for NULL |
| CtiWire.FieldRoundTrip | ServiceRegistration/cti-proto.c:104-320 | One field put reads back as the same field |
| CtiWire.FieldsRoundTripIff | ServiceRegistration/cti-proto.c:104-336 | Any sequence of fields put reads back identically, with nothing left, if and only if no string has 65536 octets or more |
| CtiWire.LongStringIsCut | ServiceRegistration/cti-proto.c:167-176 | A string of 65536 octets arrives empty |
| CtiWire.I32RoundTripsIff | ServiceRegistration/cti-proto.c:133-138 | A value put by i32_put reads back exactly when the host is big-endian or its octets are a palindrome |
| CtiWire.I32Swapped | ServiceRegistration/cti-proto.c:133-138 | The value 1 arrives as 2 to the 24th on a little-endian host |
| CtiWire.ReadDeliversFrames | ServiceRegistration/cti-proto.c:399-443 | However the stream is cut into reads, exactly its length-prefixed frames are delivered, in order |
| CtiWire.ZeroLengthCloses | ServiceRegistration/cti-proto.c:424-436 | After a zero-length frame the next call delivers nothing and closes |
| CtiWire.DeframeFrames | ServiceRegistration/cti-proto.c:399-443 | Deframing inverts framing of non-empty payloads |
| CtiWire.SentMessagesArrive | ServiceRegistration/cti-proto.c:338-443 | Messages created, filled and sent arrive as the same messages with the same fields, however the reads fall |
| CtiConnection.GrowthIsAmortised | ServiceRegistration/cti-proto.c:74-115 | Over any puts the octets moved by growth stay below twice the octets written |
| CtiConnection.GrowthDoubles | ServiceRegistration/cti-proto.c:87-101 | Growth leaves twice the capacity and room for what is about to be put, moving what was written; without need for room nothing grows or moves |
| CtiConnection.Buffer.MakeSpace | ServiceRegistration/cti-proto.c:74-102 | Makes room, keeps what was written, and moves it only when it grows |
| CtiConnection.Buffer.Put | ServiceRegistration/cti-proto.c:104-115 | Appends octets |
| CtiConnection.Buffer.PutU64 | ServiceRegistration/cti-proto.c:117-124 | Two halves in network order are the big-endian 64-bit integer |
| CtiConnection.Buffer.PutI32 | ServiceRegistration/cti-proto.c:133-138 | Appends the value swapped twice |
| CtiConnection.Buffer.PutString | ServiceRegistration/cti-proto.c:167-176 | Appends the length cut to 16 bits and the octets; NULL is 0xffff |
| CtiConnection.Connection.MessageCreate | ServiceRegistration/cti-proto.c:338-356 | Starts a message with room for its length and its type |
| CtiConnection.Connection.MessageSend | ServiceRegistration/cti-proto.c:358-385 | Sends the frame of what was put, for sizes a frame can hold |
| CtiConnection.Connection.Parse | ServiceRegistration/cti-proto.c:178-191 | Takes the next octets, or closes and leaves the cursor |
| CtiConnection.Connection.ParseString | ServiceRegistration/cti-proto.c:288-319 | Reads a string as ParseField does |
| CtiConnection.Connection.ParseDone | ServiceRegistration/cti-proto.c:327-336 | True exactly when the whole message was read |
| CtiConnection.Connection.Read | ServiceRegistration/cti-proto.c:399-443 | One call of the reader is one step of RxStep, and a datagram callback may close the connection |
| InterfaceDiff.ExactDifference | ServiceRegistration/posix.c:62-208 | For every name, family, address and mask: deleted is old minus seen, added is seen minus old, kept is what both have, and the new list has what was seen |
| InterfaceDiff.NothingLost | ServiceRegistration/posix.c:121-208 | No known address is lost or doubled, flags included |
| InterfaceDiff.ListHoldsEntries | ServiceRegistration/posix.c:62-309 | For every name, address and mask: the list then holds as many as the system has entries with them that are up, have a mask and are of the interface asked for; the listener is told as many deleted, added and unchanged as that makes; and a new address has the flags of such an entry |
| InterfaceDiff.EventsInOrder | ServiceRegistration/posix.c:279-309 | The listener is told of the deleted, then of the new, then of the unchanged addresses, the last two in the order of the list, in which the new ones are last |
| InterfaceDiff.ListenerFollows | ServiceRegistration/posix.c:279-307 | The events of one scan take a listener from the old multiset to the new |
| InterfaceDiff.ListenerAlwaysCurrent | ServiceRegistration/posix.c:279-307 | Over any run of scans a listener that replays all events holds the current multiset |
| InterfaceList.Take | ServiceRegistration/posix.c:123-150 | The first node with the key is unlinked through the link that leads to it |
| InterfaceList.Scanner.SeeItem | ServiceRegistration/posix.c:121-206 | One address moves its known node to the kept chain or adds a new node, and the chains stay apart |
| InterfaceList.Interfaces.Map | ServiceRegistration/posix.c:49-309 | The list becomes kept then added, with its own nodes and new ones only, none twice, and the listener is told the difference |
| WakeupTimers.FiresWhenDue | ServiceRegistration/ioloop.c:357-363 | Whatever the callbacks do, what fires is due when it fires, and nothing before it on the list is |
| WakeupTimers.FiresOnTimeAndOnce | ServiceRegistration/ioloop.c:344-379 | A wakeup that is armed only for later during the scan fires only if it was due when the scan began, and once |
| WakeupTimers.DueFires | ServiceRegistration/ioloop.c:344-379 | A due wakeup that is not due at the end fired, unless a callback touched it |
| WakeupTimers.ExactlyTheDueFire | ServiceRegistration/ioloop.c:344-379 | Of the wakeups no callback touches exactly the due ones fire, whatever the callbacks do to others |
| WakeupTimers.FiredWasDue | ServiceRegistration/ioloop.c:357-370 | A wakeup that the callbacks arm only for later than the scan's now fires only if it was due when the scan began |
| WakeupTimers.FiresAtMostOnce | ServiceRegistration/ioloop.c:357-370 | And it fires at most once |
| WakeupTimers.DueShrinks | ServiceRegistration/ioloop.c:364-369 | Where the callbacks arm only for later, the set of due wakeups shrinks with every one that fires, so the restarts end |
| WakeupTimers.StepListedIffSet | ServiceRegistration/ioloop.c:208-227 | A wakeup is listed if and only if its time is set |
| WakeupTimers.RearmedIsDueAgain | ServiceRegistration/ioloop.c:364-369 | A wakeup that arms itself in its callback is due again exactly when it did not arm for later |
| WakeupTimers.FiresAfterIff | ServiceRegistration/ioloop.c:364-369 | In any scan, whatever came before a call and whatever happens to other wakeups, the call's wakeup fires after it if and only if the call armed it for no later than the scan's now, and then once |
| WakeupTimers.FiresTwiceIff | ServiceRegistration/ioloop.c:364-369 | Where it is the only due wakeup, the scan that fires it, arms it and fires it again is possible if and only if it was armed so |
| WakeupList.EventLoop.AddRemove | ServiceRegistration/ioloop.c:208-227 | Adds at the end unless listed, or takes off the list |
| WakeupList.EventLoop.AddWakeEvent | ServiceRegistration/ioloop.c:264-282 | Arms a wakeup, or refuses a null callback or a negative time |
| WakeupList.EventLoop.CancelWakeEvent | ServiceRegistration/ioloop.c:284-289 | Takes the wakeup off the list and clears its time |
| WakeupList.EventLoop.RunTimers | ServiceRegistration/ioloop.c:344-379 | The scan ends once callbacks arm only for later; its events are legal, none listed is due afterwards, and the next event is the earliest of the listed times and the limit |
| TxtText.ShowTXTRecord | Clients/dns-sd.c:803-835 | Prints what Show gives, for well-formed and other records |
| TxtText.BuildTxt | Clients/dns-sd.c:1543-1567 | Builds the record of its arguments in the buffer, or reports a bad parameter exactly when it does not fit |
| TxtReading.ArgumentReads | Clients/dns-sd.c:1533-1575 | An argument is read as what its pieces mean, cut at 255 octets: a backslash, an x and two hexadecimal digits of either case are an octet, any other character after a backslash is itself, and so is any character without one and a backslash at the end |
| TxtReading.PiecesOf | Clients/dns-sd.c:1533-1575 | Every argument is made of such pieces |
| TxtReading.OctetPrints | Clients/dns-sd.c:828-831 | An octet prints as itself, after a backslash if the shell gives it a meaning; a backslash as four; a control character as two, an x and two upper-case hexadecimal digits |
| TxtReading.StringPrints | Clients/dns-sd.c:809-834 | A record prints string by string, each that is not empty after a space |
| TxtReading.InvalidPrints | Clients/dns-sd.c:809-810 | A string that would pass the record's end prints as invalid data |
| TxtText.MetaIff | Clients/dns-sd.c:828 | The characters that get a backslash are those of the source's list, and NUL |
| TxtText.ShowIsQuoted | Clients/dns-sd.c:812-832 | The shell meets no bare metacharacter of the list and no control character below 0x20 in what is printed |
| TxtText.RegisterReadsBack | Clients/dns-sd.c:803-835 | Registering the words of a printed record gives the record without its empty strings; the same record if and only if it has none and has at most 8900 octets |
| Base64.Base64Encode | Clients/dns-sd.c:468-495 | Writes the first min(length of the encoding, buffer length - 1) characters and a NUL, and nothing else |
| Base64.EncodeLength | Clients/dns-sd.c:475-493 | The encoding has four characters for every three octets begun |
| Base64.DecodeEncode | Clients/dns-sd.c:468-495 | Decoding the encoding (RFC 4648 section 4) returns the input |
| Base64.EncodeDecode | Clients/dns-sd.c:468-495 | Nothing but the encoding of an input decodes to it |

## Left out

- Sockets, select and kqueue, TLS, Network Framework and listeners: a read is some octets of what was asked for, a write appends to a sequence.
- Allocation failure: every allocation succeeds. Serial numbers and times are unbounded integers.
- Logging and printing for debugging, and the freeing of memory as such.
- Callbacks that call back into the lists or the session they are called from; the wakeup callbacks are the exception, they may arm and cancel any wakeup.
- What a CTI datagram callback does to the reader while a message is delivered, other than closing the connection.
- The keepalive half of `dso_idle`, and a failed write while an error response is sent.
- DsoLifecycle.RunInv: runs drop only activities that are on their connection's list; DsoLifecycle.DropKeepsInvIff says that any other drop breaks the tallies.
- DsoActivities.ActivityList.Add: asks for an activity with an address of its own, as one just allocated has.
- The byte order of DSO transaction IDs: they are only copied and compared.
- WakeupList.EventLoop.AddWakeEvent: asks for a clock that reads more than 0, because a time of 0 means that a wakeup is not set.
- WakeupList.EventLoop.RunTimers: asks that from some callback on wakeups are armed only for later than the scan's now, as they are once the clock has passed it.
- `ioloop_wakeup_release` and wakeups freed by their own callbacks.
- The branches of `posix.c` for systems other than Linux; a netmask is of its address's family.
- The shell is taken to drop a backslash before any character and to separate words at bare spaces; a word that begins with `#` is not special in it.
- The general deframers of `ioloop.c` and `dso-transport.c`, which lose a length prefix that is split between two reads.
- The 255-octet limit on whole names, which the source does not enforce.
- The advertising proxy, the discovery proxy, keys, signatures and configuration files.

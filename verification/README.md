# Verified model of the device protocols

A Dafny model of the parts of this firmware whose behaviour spans many functions
or many steps, with proofs. `dafny verify dfyconfig.toml` checks everything.

| files | models |
|---|---|
| `BerSpec`, `BerEncoder`, `BerDecoder`, `OidOrder` | the BER codec: a backward encoder in a fixed buffer and a bounds-checked decoder, against the octets of an abstract value |
| `Mib`, `SnmpMessage`, `SnmpValues`, `SnmpPlan`, `SnmpRepetitions`, `SnmpBulk`, `MibTable`, `SnmpAgent`, `SnmpGuarantees` | the SNMPv2c agent: the derived MIB, request parsing, GET, GETNEXT and GETBULK planning, the reply to every datagram |
| `Poller`, `Outages` | the soak poller: a second encoder and reader of the same messages, and its outage detector |
| `Calendar`, `Rfc3339` | civil dates, day numbers and timestamps |
| `ZtpText`, `ZtpResponse`, `WifiIni`, `ZtpApply`, `ZtpReadings` | the text formats of zero-touch provisioning and the two-phase application of a bundle |
| `ZtpEnvelope`, `ZtpNesting` | the canonical enrollment request, and when it is JSON |
| `ZtpFraming`, `ZtpTransport` | framing in both directions, and reassembly shared between the Bluetooth and the main thread |
| `Improv`, `ImprovWindow` | Improv RPC frames and the client's encoder; the provisioning window shared by three threads |
| `Handover`, `HandoverSafety`, `HandoverCredentials`, `HandoverGestures` | the boot hand-over between hook, application and provisioner, with power cuts, and what becomes of credentials in it |
| `Gesture`, `GestureLaws`, `ButtonWork` | the button gesture classifier, and the work item that debounces and ticks it |
| `Common` | shared vocabulary |

Code that changes state is modelled as classes and methods with the source's
fields and loops. Each such method is proved equal to a function of its inputs or
of the old state, and the promises of the source are proved of those functions:
over all inputs, over every run, or over every interleaving.

Inputs the code takes from its platform are parameters: what a join test, a flash
operation, base64 or unsealing answers; the MIB values; the times of events. A
power cut is a limit on the number of flash operations; what comes after it has no
effect. An erase is atomic and programming a word can only clear bits. The Wi-Fi
credentials store is a foreign library: entries are assumed to keep their order, a new
name to come last, an existing one to stay in its place, and a deletion that fails to
have removed entries from the front.

## Where the code differs from what is said about it

- `lib/common/boot_request.h` says only the provisioner clears a request. With an
  image that has a header but does not validate, the hook boots the application,
  which writes its own request over it, and without credentials it does so at
  every boot (`RequestOutlivesApplication`, `NeverSettles`).
- The same header says an operator's window returns to an application that still
  has working credentials. Both services delete the old credentials before they
  store the new ones, so a failed store or a power cut in between leaves none
  (`WindowLosesCredentials`); `OperatorWindowEnds` says exactly when some remain.
- Both ignore the result of the deletion. If it fails, an old network stays in front
  of the joined one and the device comes up with that (`FailedDeleteKeepsOldNetwork`;
  the exact condition is in `ProvisioningSurvivesCuts`).
- `ztp_apply.c` orders Wi-Fi before Cumulocity because Wi-Fi must be proven first.
  A bundle without a Wi-Fi module keeps Cumulocity data without any join
  (`C8yAfterWifiExactly`, `C8yAlone`).
- A write that comes while a message is still outstanding is answered with success
  and dropped. If the device is released before the message ends, its end is
  received as a message of its own (`EndTakenForMessage`). A message abandoned on the
  same connection becomes the beginning of the next one (`LeftoverJoins`). The exact
  condition for both is in `MessageExact`.
- The end of a message whose notice does not fit in the queue leaves the receiver
  busy for good (`FullQueueShutsOut`), and nothing else does (`ShutOutExactly`).
- The OID decoder reads one octet for the first two arcs; section 8.19 of X.690
  allows more. Names beyond that change when they are echoed (`EchoChangesWideNames`).
- The poller's `_oid` writes the first two arcs in one octet where the agent would
  need two, so the encoders differ for such names (`OidOctetsAgree`).
- The SNMP design says the end of the view is truncated as the standard allows. After
  endOfMibView a GETBULK repeater gets no further slots, where section 4.2.3 of RFC
  3416 gives it a place in every repetition, so the places of the others shift
  (`LeavesPlacesOut`); the list is an allowed one exactly when all repeaters get the
  same number of slots (`AllowedExactly`; `AllowedCutExactly` for what is sent). That section's truncations for message
  size and for processing time are not what cuts the list here.
- A MIB row number is an octet, so the walk order would break at interface 256 if
  the table had room for it (`ViewSortedExactly`); the configuration stops at 8.
- A MAC field beyond 26 characters is cut in the canonical request, which then is no
  JSON text (`LongMacIsNotJson`); from 28 on addresses collide
  (`RequestFromBytesExactly`, `LongMacsCollide`). The firmware itself passes only 0 or
  17 characters (`mac_str` in `apps/wifi-provisioner/src/ztp.c`).
- Years outside 0000 to 9999 do not survive a timestamp (`RoundTrip`). The parser
  takes fractions, lower-case letters, second 60 and 31 February, which are not written
  back (`FormatOfParse`).
- An outage threshold below 1 records nothing (`DetectsExactly`).
- Credentials accepted just as the Improv window closes are thrown away, and the
  state they set keeps the device from taking any others until it reboots
  (`StuckExactly`, `FrameAtExpiry`).
- With required authorization the main thread reads the state, and writes it after a
  frame may have changed it. A frame accepted in between lets a second set of
  credentials on its way (`TwoOnTheWay`) or takes the authorization away under the
  first (`DiscardedNotStuck`); without such a frame neither happens (`OneExactly`).
- A first Improv piece of one byte, or a pause of 2 s, starts the frame over
  (`PiecesExactly`).
- The debounce puts the next tick off, so the quiet time of 700 ms is 730 ms in effect
  (`PressesLater`, `DeviceIsBatch`). Two presses a little further apart are an identify
  pattern or nothing depending on when the work item ran: at exactly 730 ms when it is
  never late, from 730 to 787 ms when it may be 4 ms late (`DevicePauseExactly`,
  `TicksDecide`).

## Model

| member | source | states |
|---|---|---|
| BerSpec.ReadTlvOfTlv | lib/snmp/snmp_ber.c:46-73 | Reading a tag, length and value written in front of any octets gives them back and leaves exactly those octets, for every content shorter than 2^32 (section 8.1.3 of X.690). |
| BerSpec.ReadTlvExactly | lib/snmp/snmp_ber.c:209-248 | A TLV is read from exactly the octets that are a tag, a length in the short form or in 1 to 4 octets, the content and the rest. |
| BerSpec.IntRoundTrip | lib/snmp/snmp_ber.c:75-116 | The octets of every integer read back, sign-extended from the first, as that integer. |
| BerSpec.IntOctetsShortest | lib/snmp/snmp_ber.c:75-94 | No octet string with the same value is shorter: the encoding is minimal (section 8.3.2 of X.690). |
| BerSpec.Int32OctetsLength | lib/snmp/snmp_ber.c:77-91 | Every int32 takes one to four octets, so the scratch array never overruns. |
| BerSpec.Uint32OctetsLength | lib/snmp/snmp_ber.c:98-113 | Every uint32 takes one to five octets, the fifth being the sign octet. |
| BerSpec.ReadIntOfIntTlv | lib/snmp/snmp_ber.c:263-281 | The decoder's INTEGER reader inverts the writer for every int32, whatever follows. |
| BerSpec.ReadIntExactly | lib/snmp/snmp_ber.c:263-281 | An INTEGER is accepted with one to five octets, and no other tag is one. |
| BerSpec.ReadSubIdsOfSubIds | lib/snmp/snmp_ber.c:309-328 | Sub-identifiers of any 32-bit value read back in order, and the list is refused exactly when it exceeds the capacity. |
| BerSpec.OidRoundTrip | lib/snmp/snmp_ber.c:125-177 | An OID comes back through the codec if and only if it has 2 to 32 arcs, its second arc is below 40 and its first two arcs combine to less than 128; the wire format itself has no such limit. |
| BerSpec.ReadOidExactly | lib/snmp/snmp_ber.c:293-333 | An OID is accepted if and only if it has an octet, no dangling continuation bit and no more arcs than fit. |
| BerSpec.ReadNameEncodable | lib/snmp/snmp_ber.c:293-333 | A name the decoder accepted can be written back faithfully if and only if its first octet had the high bit clear. |
| BerEncoder.PrependTwice | lib/snmp/snmp_ber.c:28-36 | Two writes behave as one write of both: overflow is sticky and happens exactly when the total does not fit. |
| BerEncoder.UintOctets | lib/snmp/snmp_ber.c:96-116 | Unsigned digits with a zero octet in front when the top bit is set are the minimal two's-complement form. |
| BerEncoder.Encoder.PutByte | lib/snmp/snmp_ber.c:28-36 | The content grows at the front by one octet or the encoder overflows; an overflowed encoder never touches its buffer again. |
| BerEncoder.Encoder.PutBytes | lib/snmp/snmp_ber.c:38-44 | A run of octets lands in its own order although it is written from the back; exact and sticky overflow. |
| BerEncoder.Encoder.PutLen | lib/snmp/snmp_ber.c:46-65 | Writes the definite length form of any length below 2^32. |
| BerEncoder.Encoder.Wrap | lib/snmp/snmp_ber.c:67-73 | What was written since the mark becomes the value of one TLV, or the encoder overflows. |
| BerEncoder.Encoder.PutInt | lib/snmp/snmp_ber.c:75-94 | The in-place loop with an arithmetic shift writes the minimal INTEGER of every int32. |
| BerEncoder.Encoder.PutUintTagged | lib/snmp/snmp_ber.c:96-116 | Writes the minimal non-negative form of every uint32 under an application tag. |
| BerEncoder.Encoder.PutOctetStr | lib/snmp/snmp_ber.c:118-123 | Writes an OCTET STRING of any length below 2^32, exact or overflowed. |
| BerEncoder.Encoder.PutOid | lib/snmp/snmp_ber.c:125-177 | Writes the OID's octets for every OID, also one of fewer than two arcs (an empty value). |
| BerEncoder.Encoder.PutEmpty | lib/snmp/snmp_ber.c:179-189 | Writes a tag with a zero length (NULL and the varbind exceptions). |
| BerDecoder.Decoder.GetTlv | lib/snmp/snmp_ber.c:209-248 | Succeeds exactly on a well-formed TLV inside the bounds; then it returns that tag and that value and the cursor is right behind it. |
| BerDecoder.Decoder.Enter | lib/snmp/snmp_ber.c:250-261 | Opens a nested decoder on exactly the content of a TLV with the expected tag. |
| BerDecoder.Decoder.GetInt | lib/snmp/snmp_ber.c:263-281 | Accepts exactly one-to-five-octet INTEGERs and returns the value cast to int32. |
| BerDecoder.Decoder.GetOctet | lib/snmp/snmp_ber.c:283-291 | Returns the octets of an OCTET STRING in place, or fails. |
| BerDecoder.Decoder.GetOid | lib/snmp/snmp_ber.c:293-333 | Returns the arcs, or fails on an empty value, a dangling continuation bit or more arcs than fit, for every capacity. |
| OidOrder.OidCmp | lib/snmp/snmp_ber.c:344-357 | The scan over the common length computes the lexicographic order. |
| OidOrder.OidCmpIsTotalOrder | lib/snmp/snmp_ber.c:344-357 | The order is total: zero exactly for equal names, antisymmetric, transitive. |
| Mib.ViewSortedExactly | lib/snmp/snmp_mib.c:125-156 | The leaves are strictly increasing if and only if there are fewer than 256 interfaces or the table ends before the first wrapped row number. |
| Mib.LeafTable.Init | lib/snmp/snmp_mib.c:125-156 | The nested loops fill the table with exactly the described leaves, cut at its capacity, sorted under the stated condition. |
| Mib.LeafTable.AddLeaf | lib/snmp/snmp_mib.c:80-91 | Appends a leaf, or leaves a full table alone. |
| Mib.NextIsLeastAbove | lib/snmp/snmp_mib.c:192-201 | In a sorted table exactly the leaves from the found index on lie above the OID: GETNEXT finds the least one above. |
| Mib.NextOfOwnOid | lib/snmp/snmp_mib.c:203-211 | The following array entry is GETNEXT on the leaf's own OID. |
| Mib.WalkVisitsAllAbove | lib/snmp/snmp_mib.c:192-211 | Iterating GETNEXT from any OID visits every leaf above it once, in order, and ends. |
| Mib.LeafTable.GetExact | lib/snmp/snmp_mib.c:182-190 | Finds the leaf with the OID, or there is none. |
| Mib.LeafTable.GetNext | lib/snmp/snmp_mib.c:192-201 | The linear scan returns the specified next leaf. |
| Mib.LeafTable.NextLeaf | lib/snmp/snmp_mib.c:203-211 | Stepping to the next array entry equals a lookup of the leaf's own OID. |
| SnmpMessage.ParseOfEncode | lib/snmp/snmp_agent.c:159-232 | Whole-message round trip: for all fields and every nonempty list of encodable names the request parser recovers the tag, the three integers and the names in order, cut at its capacity with the too-many flag (section 3 of RFC 3416). |
| SnmpMessage.ParseRefuses | lib/snmp/snmp_agent.c:159-232 | A message of another community, or with an empty list, is dropped. |
| SnmpMessage.OtherVersion | lib/snmp/snmp_agent.c:170-176 | So is any other version. |
| SnmpMessage.DecodeOfEncode | lib/snmp/snmp_agent.c:103-130 | A message decodes to itself, values included, if and only if all its names are encodable. |
| SnmpMessage.WireSample | lib/snmp/snmp_agent.c:103-130 | The octets of one message, and the request the parser takes from them: the order of the PDU's integers. |
| SnmpValues.PutValue | lib/snmp/snmp_mib.c:228-313 | Each leaf kind writes exactly the typed value the abstract varbind has. |
| MibTable.IfTable | lib/snmp/snmp_mib.c:253-298 | GET of 1.3.6.1.2.1.2.2.1.c.i, for every interface count below 256, every row i and each of the eleven columns c, answers that name with that counter or attribute of interface i under its type. |
| MibTable.SystemGroup | lib/snmp/snmp_mib.c:228-251 | The same for the seven objects of the system group. |
| MibTable.OtherScalars | lib/snmp/snmp_mib.c:250-309 | And for ifNumber.0 and the three firmware objects under the value of sysObjectID. |
| MibTable.ViewCount | lib/snmp/snmp_mib.c:125-156 | There are 11 objects and 11 for each interface. |
| MibTable.MissingName | lib/snmp/snmp_mib.c:182-190 | GET of any other name answers noSuchInstance (0x81) under it. |
| MibTable.NextReads | lib/snmp/snmp_mib.c:192-201 | GETNEXT answers what a GET of the next name answers, or endOfMibView (0x82) under the requested one. |
| SnmpValues.EmitVarbind | lib/snmp/snmp_agent.c:80-97 | A planned varbind is written as its abstract varbind: value first, then name, then the SEQUENCE around both. |
| SnmpValues.EncodeResponse | lib/snmp/snmp_agent.c:103-130 | The backward encoder produces exactly the abstract message, or 0 exactly when it does not fit the buffer. |
| SnmpAgent.ParsedRequest.Parse | lib/snmp/snmp_agent.c:159-232 | The parser accepts exactly the datagrams the pure reader accepts and fills the same fields and names. |
| SnmpAgent.ParsedRequest.ParseNames | lib/snmp/snmp_agent.c:207-229 | The varbind loop stores the names in order and stops with the too-many flag at its capacity. |
| SnmpPlan.PlanGet | lib/snmp/snmp_agent.c:236-248 | GET plans one varbind per name: the leaf's value, or noSuchInstance. |
| SnmpPlan.PlanGetNext | lib/snmp/snmp_agent.c:261-269 | GETNEXT plans the least leaf above each name, or endOfMibView under the same name. |
| SnmpPlan.ChainShape | lib/snmp/snmp_agent.c:303-336 | A repeater's chain has one slot per leaf above its name and one endOfMibView. |
| SnmpPlan.ChainSlot | lib/snmp/snmp_agent.c:303-336 | The k-th slot of a chain, by index: the leaf, or endOfMibView under the last leaf's name. |
| SnmpPlan.BulkPlan.Step | lib/snmp/snmp_agent.c:308-334 | One walker's turn appends the next slot of its chain if there is one, whatever its cursor and done flag stand for. |
| SnmpPlan.BulkPlan.Repeat | lib/snmp/snmp_agent.c:306-336 | All repetitions append the round-robin interleaving of the chains, cut where the output is full. |
| SnmpPlan.PlanGetBulk | lib/snmp/snmp_agent.c:271-339 | For every request the plan is one GETNEXT answer per non-repeater, then the interleaving of the repeaters' chains up to max-repetitions, cut at the capacity; per repeater, nothing follows its endOfMibView. |
| SnmpBulk.BulkLength | lib/snmp/snmp_agent.c:271-339 | The answer holds min(capacity, sum over the names) varbinds: one for a name before the non-repeaters count is reached, min(max-repetitions, leaves above it + 1) for any other, counted on the request's own integers. |
| SnmpBulk.BulkSlot | lib/snmp/snmp_agent.c:271-339 | Where every varbind is: the k-th successor of the j-th name stands behind exactly the varbinds of the rounds and names before it. |
| SnmpBulk.BulkBegins | lib/snmp/snmp_agent.c:277-290 | The answer begins with one varbind per name, in order: of all names with a repetition, of the non-repeaters without. |
| SnmpRepetitions.RepeatedIsChain | lib/snmp/snmp_agent.c:316-332 | A repeater's chain is the sequence section 4.2.3 of RFC 3416 defines for it, up to the first endOfMibView, which that sequence then repeats. |
| SnmpRepetitions.AllowedExactly | lib/snmp/snmp_agent.c:303-336 | Before the capacity cut the plan is a list that section allows (all repetitions, or those up to one in which every repeater had ended) if and only if every repeater gets the same number of slots. |
| SnmpRepetitions.AllowedWhenCut | lib/snmp/snmp_agent.c:303-336 | With the cut: if they get the same number within the repetitions that fit, the plan is such a list cut at the capacity. |
| SnmpRepetitions.AllowedCutExactly | lib/snmp/snmp_agent.c:303-336 | The list that is sent is such a list, cut at the capacity, if and only if it fills the capacity and holds nothing but endOfMibView under the standard's names from the first left-out place on, or does not fill it and every repeater gets the same number of slots. |
| SnmpRepetitions.LeavesPlacesOut | lib/snmp/snmp_agent.c:308-312 | Input at which it is not, in every view of three leaves or more: of two repeaters one is at the last leaf, and its place in the second repetition is left out. |
| SnmpAgent.Agent.Send | lib/snmp/snmp_agent.c:103-139 | The reply at the tail of the transmit buffer is the encoded message, or the length is 0 exactly when it does not fit. |
| SnmpAgent.Agent.HandleRequest | lib/snmp/snmp_agent.c:341-398 | For every datagram the transmit buffer holds exactly the specified reply: nothing, tooBig, notWritable, genErr or the answer. |
| SnmpGuarantees.ReadNamesComplete | lib/snmp/snmp_agent.c:207-229 | A parsed list keeps min(length, capacity) names and is flagged if and only if it is longer than the capacity. |
| SnmpGuarantees.UnencodableIsAboveMib | lib/snmp/snmp_agent.c:254-259 | A parsed name that cannot be written back lies above the whole MIB. |
| SnmpGuarantees.AnswersEncodable | lib/snmp/snmp_agent.c:236-269 | GET and GETNEXT answer one varbind per name, and all of them survive the wire if and only if all requested names do. |
| SnmpGuarantees.CompleteOrTooBig | lib/snmp/snmp_agent.c:341-398 | Every GET or GETNEXT is answered: with tooBig, index 0 and an empty list exactly when the request is too long or the full answer does not fit; otherwise with one varbind per name, decoding to exactly those if and only if every name is encodable (section 4.2.1 of RFC 3416). |
| SnmpGuarantees.BulkOrTooBig | lib/snmp/snmp_agent.c:271-398 | For every GETBULK the reply is tooBig exactly when the request holds too many names or the plan does not fit; otherwise it is the encoded plan, and decodes to it if and only if every name it answers is encodable: all of them, or without repetitions the non-repeaters. |
| SnmpGuarantees.RefusedOrServed | lib/snmp/snmp_agent.c:341-398 | Which PDU tags are answered how, and which requests get tooBig (1, index 0), notWritable (17, index 1) or genErr (5, index 0) with the request's id and an empty list. |
| SnmpGuarantees.EchoChangesWideNames | lib/snmp/snmp_ber.c:307-309 | Counterexample: the name 0x80 is read as 3.8 and echoed as 0x81 0x00, which reads as 3.9.0. |
| Poller.PyTlvIsTlv | scripts/soak/poll.py:54-62 | The poller's length and TLV encoder equals the agent's for every value. |
| Poller.PyIntIsIntTlv | scripts/soak/poll.py:65-66 | Python's signed to_bytes with that bit length is the agent's minimal INTEGER for every non-negative value. |
| Poller.PyOid | scripts/soak/poll.py:69-78 | The insert-at-front loop writes one octet for the first two arcs and then the sub-identifiers; too few arcs or a first octet above 255 raise. |
| Poller.OidOctetsAgree | scripts/soak/poll.py:69-78 | Poller and agent write the same octets of a name if and only if its first two arcs combine to less than 128. |
| Poller.GetRequestsAgree | scripts/soak/poll.py:81-84 | For every request id below 2^31 the poller's GET is byte for byte the agent's encoding of that message if and only if the name's first two arcs combine to less than 128. |
| Poller.PyReadsTlv | scripts/soak/poll.py:87-95 | The unchecked Python reader, at any position, reads exactly a TLV the agent wrote. |
| Poller.PyReadsReply | scripts/soak/poll.py:98-121 | The uptime parser reads exactly the encoded TimeTicks from a reply with the right request id. |
| Poller.PyReadsAny | scripts/soak/poll.py:98-125 | For every message: the poller reads its first value if and only if that is TimeTicks in a response without an error to its own request, and nothing otherwise. |
| Poller.SliceClamps | scripts/soak/poll.py:87-95 | A value that is cut off is read as far as it goes. |
| Poller.PollReadsUptime | scripts/soak/poll.py:81-121 | End to end: the agent takes the poller's datagram for a GET of sysUpTime.0, and the poller reads from the reply exactly the agent's uptime, for every request id below 2^31 and every uptime. |
| Calendar.EraIsFloor | apps/wifi-provisioner/src/ztp_manifest.c:80 | C's truncating division with the code's adjustment is floor division by 400. |
| Calendar.DayEraIsFloor | apps/wifi-provisioner/src/ztp_manifest.c:95 | The same for day numbers and 146097. |
| Calendar.CivilOfDays | apps/wifi-provisioner/src/ztp_manifest.c:77-103 | From every valid Gregorian date to its day number and back is the identity. |
| Calendar.DaysOfCivil | apps/wifi-provisioner/src/ztp_manifest.c:77-103 | From every integer day number to its date and back is the identity, and the date is valid. |
| Calendar.NextDateIsNextDay | apps/wifi-provisioner/src/ztp_manifest.c:77-86 | The day number of the next calendar date, leap rule included, is one more. |
| Calendar.DayNumbersFromEpoch | apps/wifi-provisioner/src/ztp_manifest.c:77-86 | The closed form equals counting days one by one from 1970-01-01. |
| Calendar.CivilMonotone | apps/wifi-provisioner/src/ztp_manifest.c:90-103 | Later day numbers are later dates. |
| Rfc3339.RoundTrip | apps/wifi-provisioner/src/ztp_manifest.c:90-139 | Parsing a formatted time returns it if and only if its year is 0000 to 9999, with the cast of the year to int included. |
| Rfc3339.Samples | apps/wifi-provisioner/src/ztp_manifest.c:90-113 | Three times as they are written. |
| Rfc3339.FormatOfParse | apps/wifi-provisioner/src/ztp_manifest.c:115-139 | The other way round: an accepted text is what its time is written as if and only if it has no fraction, capital letters, a second below 60 and a day its month has. |
| Rfc3339.ParseFields | apps/wifi-provisioner/src/ztp_manifest.c:115-139 | A text of any two-digit fields is accepted if and only if they are in range, with the 31st of every month and second 60, and is the time it says. |
| Rfc3339.ParseIgnores | apps/wifi-provisioner/src/ztp_manifest.c:120-127 | A fraction and lower-case letters are read as if they were not there. |
| Rfc3339.TextOrderIsTimeOrder | apps/wifi-provisioner/src/ztp_manifest.c:90-113 | For those years formatted times compare as text exactly as the times do, negative times included (section 5.6 of RFC 3339). |
| Rfc3339.ParseUint | apps/wifi-provisioner/src/ztp_manifest.c:58-73 | Accepts exactly one to nine decimal digits and returns their value. |
| Rfc3339.UintReads | apps/wifi-provisioner/src/ztp_manifest.c:58-75 | A decimal number of up to nine digits is read as it is, and a longer one not. |
| ZtpText.LinesOfJoin | apps/wifi-provisioner/src/ztp_manifest.c:16-27 | Splitting inverts writing lines one after the other. |
| ZtpText.JoinOfLines | apps/wifi-provisioner/src/ztp_manifest.c:16-27 | Splitting loses nothing: writing the lines again gives the buffer, up to a missing last newline. |
| ZtpText.LinesExactly | apps/wifi-provisioner/src/ztp_manifest.c:16-27 | The lines of a text are the one list of texts without newlines that writes it back, up to a last newline. |
| ZtpText.KvOfIs | apps/wifi-provisioner/src/ztp_manifest.c:25-34 | A line is the record (key, value) if and only if, without one trailing CR, it reads key=value with no '=' in the key. |
| ZtpText.RecordsRoundTrip | apps/wifi-provisioner/src/ztp_manifest.c:16-37 | Records written as lines read back as they are. |
| ZtpText.KvNext | apps/wifi-provisioner/src/ztp_manifest.c:16-37 | Yields the next record and moves the cursor to where the remaining ones start, or reports that there are none. |
| ZtpText.ManifestHeader | apps/wifi-provisioner/src/ztp_manifest.c:178-193 | The last device_id and the last protocol_version of the whole text count. |
| ZtpText.NextField | apps/wifi-provisioner/src/ztp_manifest.c:40-56 | Splits off the next run of characters between spaces. |
| ZtpText.NextModule | apps/wifi-provisioner/src/ztp_manifest.c:195-226 | Yields the next module line, or a malformed one, and skips every other record. |
| ZtpText.NextEntry | apps/wifi-provisioner/src/ztp_apply.c:37-77 | One step of the INI walk: a section header or a key=value pair, other lines skipped. |
| ZtpReadings.FieldsOfSpaced | apps/wifi-provisioner/src/ztp_manifest.c:40-56 | Fields written with single spaces between them are read back. |
| ZtpReadings.ModuleReads | apps/wifi-provisioner/src/ztp_manifest.c:195-226 | What a module line of any number of fields is, by its key. |
| ZtpReadings.EntriesRoundTrip | apps/wifi-provisioner/src/ztp_apply.c:37-79 | Written sections and pairs are read back as they are. |
| ZtpReadings.CarriageReturn | apps/wifi-provisioner/src/ztp_apply.c:37-79 | One carriage return at the end of a line is no part of it. |
| ZtpResponse.ResponseParse | apps/wifi-provisioner/src/ztp_manifest.c:141-176 | The pass answers with the last value of each record (the last readable one for numbers and times), and with nothing unless the version is 1 and the status is known. |
| ZtpReadings.ResponseReads | apps/wifi-provisioner/src/ztp_manifest.c:141-176 | A response with every record once: which record becomes which part, and which word which status. |
| ZtpReadings.EncryptedReads | apps/wifi-provisioner/src/ztp_manifest.c:166-168 | A record whose key goes on behind "encrypted." marks the response, and no other. |
| WifiIni.ParsePriority | apps/wifi-provisioner/src/ztp_apply.c:163-173 | Reads an optional sign and the digits among the first six characters, or refuses. |
| WifiIni.WifiStage.CloseSection | apps/wifi-provisioner/src/ztp_apply.c:117-133 | Keeps a section that names a network exactly when it beats the best so far; the best stays the first of maximal priority. |
| WifiIni.WifiStage.OnEntry | apps/wifi-provisioner/src/ztp_apply.c:135-177 | Takes one entry: a section closes the one before, a usable pair extends the open [network] section, an unusable one is refused. |
| WifiIni.WifiStage.Stage | apps/wifi-provisioner/src/ztp_apply.c:179-195 | Stages the first network of maximal priority among the [network] sections with an SSID, without a password for an open one; refuses any unusable value, and reports a body without a network. |
| WifiIni.StagedOnce | apps/wifi-provisioner/src/ztp_apply.c:179-195 | That outcome is unique. |
| WifiIni.StagedFits | apps/wifi-provisioner/src/ztp_apply.c:81-89 | A staged SSID has 1 to 32 characters and a password at most 64: nothing is truncated. |
| ZtpReadings.TwoNetworks | apps/wifi-provisioner/src/ztp_apply.c:117-195 | A body of two networks as text: refused if a value of either does not fit, else the second counts if and only if its priority is higher, and an open one has no password. |
| ZtpReadings.PriorityReads | apps/wifi-provisioner/src/ztp_apply.c:163-173 | A decimal number of up to six characters, its sign among them, is its priority. |
| ZtpReadings.PriorityCut | apps/wifi-provisioner/src/ztp_apply.c:163-173 | Of a longer one the first six characters count. |
| ZtpApply.Applier.StageC8y | apps/wifi-provisioner/src/ztp_apply.c:255-274 | Stages the last value of each key over all [c8y] sections, refusing values that do not fit and a body without a URL. |
| ZtpApply.Applier.StageModule | apps/wifi-provisioner/src/ztp_apply.c:321-351 | Unpacks and stages one module; afterwards the payload buffer is clear. |
| ZtpApply.Applier.WifiCommit | apps/wifi-provisioner/src/ztp_apply.c:199-220 | Joins, and stores only after the join succeeded. |
| ZtpApply.Applier.CommitAll | apps/wifi-provisioner/src/ztp_apply.c:431-441 | Commits what is staged in table order and stops at the first failure. |
| ZtpApply.Applier.ApplyManifest | apps/wifi-provisioner/src/ztp_apply.c:371-444 | Does and answers what the specification says, and leaves no staging state at any return, whatever bundles came before. |
| ZtpApply.NothingBeforeAllStaged | apps/wifi-provisioner/src/ztp_apply.c:394-429 | No join or store happens unless the manifest is for this device and every module with an applier staged; a store follows a successful join of the same network. |
| ZtpApply.DoneExactly | apps/wifi-provisioner/src/ztp_apply.c:371-444 | Success is answered exactly when something staged and all of it was joined and stored. |
| ZtpApply.C8yAfterWifiExactly | apps/wifi-provisioner/src/ztp_apply.c:298-303 | Cumulocity data is always kept after a stored network if and only if the bundle brings a network or no Cumulocity data: a bundle with Cumulocity data alone is kept without any join. |
| ZtpApply.C8yAlone | apps/wifi-provisioner/src/ztp_apply.c:371-444 | Input at which it is: a manifest text for any device whose one module is a clear c8y.v2 one is for that device, stages, and stores Cumulocity data without a join. |
| ZtpApply.LastOfTypeWins | apps/wifi-provisioner/src/ztp_apply.c:396-420 | Of several modules of a type the last one counts. |
| ZtpReadings.C8yReads | apps/wifi-provisioner/src/ztp_apply.c:233-274 | A body as text: each value of [c8y] is staged as what its key says, and refused beyond its room; other sections do not count. |
| ZtpReadings.ModulesStage | apps/wifi-provisioner/src/ztp_apply.c:321-351 | What a module of each type is staged as, and which error an unusable one gives. |
| ZtpReadings.WrongManifest | apps/wifi-provisioner/src/ztp_apply.c:376-386 | A manifest of another version or for another device does nothing and answers a protocol error. |
| ZtpReadings.BundleAnswers | apps/wifi-provisioner/src/ztp_apply.c:431-444 | The effects and the answer of every staged bundle, for every answer of the network and the stores. |
| ZtpEnvelope.JsonPlain | apps/wifi-provisioner/src/ztp_envelope.c:26-34 | Accepts exactly printable ASCII without quote and backslash. |
| ZtpEnvelope.RequestCanonical | apps/wifi-provisioner/src/ztp_envelope.c:36-89 | Refuses a null or unplain string, reports a text that does not fit with its terminator, and otherwise renders the canonical text. |
| ZtpEnvelope.CanonicalIsObject | apps/wifi-provisioner/src/ztp_envelope.c:59-84 | The text is one JSON object if and only if the address has at most 26 characters; its members are in the order of section 3.2.3 of RFC 8785 at both levels. |
| ZtpNesting.CanonicalNests | apps/wifi-provisioner/src/ztp_envelope.c:53-84 | The text ends outside a string with all its brackets closed if and only if the address has at most 26 characters. |
| ZtpNesting.LongMacIsNotJson | apps/wifi-provisioner/src/ztp_envelope.c:53-84 | Beyond 26 characters it is no JSON text at all (RFC 8259, any white space, no escapes). |
| ZtpEnvelope.MacFieldsExactly | apps/wifi-provisioner/src/ztp_envelope.c:53-57 | Two addresses render to the same field if and only if they are equal, or both have at least 28 characters and the first 28 in common. |
| ZtpEnvelope.CanonicalInjective | apps/wifi-provisioner/src/ztp_envelope.c:59-84 | Equal bytes if and only if the requests agree in all but address and time, their addresses render alike and their timestamps are equal; for years 0000 to 9999 the times are equal then. No limit on the address. |
| ZtpEnvelope.RequestFromBytesExactly | apps/wifi-provisioner/src/ztp_envelope.c:53-84 | For those years the bytes determine the request if and only if its address has fewer than 28 characters. |
| ZtpEnvelope.LongMacsCollide | apps/wifi-provisioner/src/ztp_envelope.c:53-57 | Inputs that collide: any 28 characters, and the same with more behind them. |
| ZtpFraming.ChunksJoin | scripts/ztp_provision.py:50-54 | The pieces of a payload, joined, are the payload. |
| ZtpFraming.SendMessage | apps/wifi-provisioner/src/ztp.c:474-502 | Sends exactly the framed message as far as the link lasts; refuses only an MTU of 5. |
| ZtpFraming.Reader.Listen | scripts/ztp_provision.py:57-75 | After any list of notifications the buffer and the end flag are those of the pure reader on that list. |
| ZtpFraming.ReaderHolds | scripts/ztp_provision.py:57-75 | After any number of a message's notifications the relay holds a beginning of it, and the end only after the last. |
| ZtpFraming.SendThenRead | apps/wifi-provisioner/src/ztp.c:474-502 | Sending and reading are inverse at every MTU but 5, and above 5 every fragment fits one notification. |
| ZtpFraming.FrameSizes | apps/wifi-provisioner/src/ztp.c:474-502 | How many fragments a message takes, and that each but the last is full. |
| ZtpFraming.FragmentLength | apps/wifi-provisioner/src/ztp.c:476-480 | A fragment carries min(180, MTU - 5) octets. |
| ZtpTransport.HeldIs | apps/wifi-provisioner/src/ztp.c:225-243 | A payload is left out exactly when the payloads do not all fit; otherwise the buffer is their concatenation, empty only before the first one. |
| ZtpTransport.Transport.RxFragment | apps/wifi-provisioner/src/ztp.c:225-243 | A whole fragment is kept, counted as overflow, or posts the message as kick, overflow or response by what the payloads amount to. |
| ZtpTransport.Transport.WriteRequest | apps/wifi-provisioner/src/ztp.c:245-278 | One write is one step of the link: dropped while a message is outstanding, refused at a wrong offset, else a piece of a fragment. |
| ZtpTransport.Transport.OnDisconnected | apps/wifi-provisioner/src/ztp.c:414-427 | One step of the link; `AfterDisconnect` and `DisconnectWhileBusy` say what it amounts to. |
| ZtpTransport.Transport.ReleaseReset | apps/wifi-provisioner/src/ztp.c:583-586 | The main thread forgets the message before it lets the relay write again. |
| ZtpTransport.Transport.ReleaseClear | apps/wifi-provisioner/src/ztp.c:586-587 | Clearing the busy flag is a step of its own. |
| ZtpTransport.Transport.ResponseBytes | apps/wifi-provisioner/src/ztp.c:661 | What the main thread parses as a response is the concatenation of the accepted payloads, and fits the buffer. |
| ZtpTransport.StepInv | apps/wifi-provisioner/src/ztp.c:225-278 | Every step of every interleaving keeps: at most one received message outstanding, none unless the flag is set, and its kind is what the payloads amount to. |
| ZtpTransport.RunInv | apps/wifi-provisioner/src/ztp.c:196-278 | That holds after every run, and while the main thread handles a response there is one that fits the buffer. |
| ZtpTransport.Accepted | apps/wifi-provisioner/src/ztp.c:245-278 | A message whose first write comes while nothing is outstanding is taken whole, in pieces of any size, whatever the main thread and the button do meanwhile. |
| ZtpTransport.MessageExact | apps/wifi-provisioner/src/ztp.c:245-278 | From every reachable state: a message whose first write comes while nothing is outstanding is taken whole behind the payloads an abandoned one left, and posted as what both amount to; if something is outstanding, at most a shorter end of it comes through. Once its terminator is accepted the payloads are the message if and only if nothing was outstanding and nothing was left over. |
| ZtpTransport.LeftoverJoins | apps/wifi-provisioner/src/ztp.c:217-243 | Input at which something is left over: a fragment of an abandoned message is received as the beginning of the next. |
| ZtpTransport.AfterDisconnect | apps/wifi-provisioner/src/ztp.c:414-427 | From every reachable state with nothing outstanding, whatever a connection left half-received: after a disconnect the next message comes through as it is. |
| ZtpTransport.DisconnectWhileBusy | apps/wifi-provisioner/src/ztp.c:418-425 | While a message is outstanding a disconnect changes nothing that follows. |
| ZtpTransport.RefusedWrite | apps/wifi-provisioner/src/ztp.c:245-278 | Prepared writes, wrong offsets, writes while a message is outstanding and pieces beyond the longest fragment change nothing that follows. |
| ZtpTransport.EndTakenForMessage | apps/wifi-provisioner/src/ztp.c:255-257 | A run from the start in which a response whose first fragment comes before the release is received without that fragment and posted as a response. |
| ZtpTransport.ShutOutExactly | apps/wifi-provisioner/src/ztp.c:86-91 | From every reachable state, every schedule keeps the relay shut out if and only if the flag is set and no message is outstanding. |
| ZtpTransport.FullQueueShutsOut | apps/wifi-provisioner/src/ztp.c:86-91 | A run from the start that gets there: a handled kick, a full queue of presses, and a message whose notice no longer fits. |
| Handover.Device.BootRequestSet | lib/common/boot_request.c:31-51 | The record is erased and written word by word, as far as power and the flash allow; success is reported exactly for a whole write. |
| Handover.Device.BootRequestClear | lib/common/boot_request.c:53-64 | One erase. |
| Handover.Device.BootRequestRead | lib/common/boot_request.c:15-29 | Returns the record exactly when the magic is there. |
| Handover.Device.BootGoHook | lib/mcuboot-hooks/prov_hooks.c:44-109 | The early exits launch the provisioner exactly when magic and target ask for it and the image can be launched. |
| Handover.Device.ResolveCreds | lib/common/net.c:399-457 | The first stored name that fits decides; otherwise usable built-in credentials. |
| Handover.Device.RequestProvisioner | lib/common/prov_handoff.c:28-42 | Writes a request only when an image header is present. |
| Handover.Device.Boot | lib/common/net.c:792-802 | From reset: the provisioner with its reason, the application with credentials, or a new request. |
| Handover.Device.HandleGesture | lib/common/prov_handoff.c:74-106 | The button patterns of the application as flash operations, and whether it reboots. |
| Handover.Device.TrySettings | apps/wifi-provisioner/src/improv.c:540-577 | Join, delete, store, clear, in that order, as flash operations. |
| Handover.Device.EndWindow | apps/wifi-provisioner/src/improv.c:662-681 | The end of the window leaves exactly with a returning request or resolvable credentials. |
| Handover.Device.Handle | apps/wifi-provisioner/src/ztp.c:749-828 | Every event of the whole device, with power lasting any number of flash operations, is one step of the protocol. |
| HandoverSafety.SetOpsWrite | lib/common/boot_request.c:45-47 | After each flash operation of a request the record is its first words and erased words behind them. |
| HandoverSafety.RequestCut | lib/common/prov_handoff.c:87-102 | A cut anywhere in an erase gesture leaves an end of the store and an old, erased or torn record. |
| HandoverSafety.RunInv | lib/mcuboot-hooks/prov_hooks.c:44-57 | In every run a running provisioner has a request in flash, and a running application, if the provisioner can be launched, has no complete one. |
| HandoverSafety.RequestOutlivesApplication | lib/common/boot_request.h:6-8 | In every run only the provisioner removes a complete request, if and only if the image is absent or launchable: an image with a header that does not validate lets the application overwrite one. |
| HandoverSafety.CutInProvisioner | lib/common/boot_request.h:7-8 | A cut inside the provisioner comes back into the provisioner unless every operation of an exit was done. |
| HandoverSafety.StoreHoldsJoined | apps/wifi-provisioner/src/improv.c:543-559 | Over every run the store only gains credentials that passed a join in the provisioner. |
| HandoverSafety.StepStore | apps/wifi-provisioner/src/improv.c:555-559 | One step adds only joined credentials, and loses some only to an erase gesture or after a join. |
| HandoverSafety.TwoBootsSettle | lib/mcuboot-hooks/prov_hooks.c:58-109 | From every flash contents, torn and foreign records included, two uninterrupted boots reach the provisioner or the application with credentials, if and only if the provisioner can be launched or usable credentials are built in. |
| HandoverSafety.NeverSettles | lib/common/prov_handoff.c:44-50 | Otherwise a device without credentials never settles, and with a header in the partition it writes the request and reboots forever. |
| HandoverGestures.EraseHoldLeads | lib/common/prov_handoff.c:87-102 | An uninterrupted erase hold leaves the reason 1 or 2 in the record by whether credentials still resolve, boots into the provisioner, and its window ends in the application if and only if they do. |
| HandoverGestures.PatternLeads | lib/common/prov_handoff.c:77-83 | The provisioning pattern writes an operator's request and its window goes back with the store as it was; without an image header it does nothing, and a record that cannot be written leaves the application running. |
| HandoverGestures.BootLaunches | lib/mcuboot-hooks/prov_hooks.c:44-109 | From reset, with any flash contents, the provisioner runs if and only if magic and target ask for it and the image passes every check; it goes back if and only if the reason is 2. |
| HandoverGestures.SettingsLead | apps/wifi-provisioner/src/improv.c:540-577 | What Wi-Fi settings do to the flash and the mode, by whether they join, the window is open, they are stored, and a bundle has more to come. |
| HandoverGestures.OthersLead | apps/wifi-provisioner/src/improv.c:630-682 | A bundle without Wi-Fi, a press and the end of a closed window in the provisioner. |
| HandoverCredentials.KeepsCredentials | apps/wifi-provisioner/src/improv.c:540-577 | A step of the provisioner from credentials that resolve leaves some that resolve if and only if some are built in, or no join test went ahead, or the flash operations performed leave a usable entry; for every power limit and every answer of the flash. |
| HandoverCredentials.WindowKeepsCredentials | apps/wifi-provisioner/src/improv.c:618-684 | Over a whole window, cuts and reboots included, credentials still resolve if and only if some are built in or the last join test that went ahead left a usable entry. |
| HandoverCredentials.OperatorWindowEnds | apps/wifi-provisioner/src/improv.c:662-681 | An operator's window ends in the application with credentials exactly under that condition; otherwise the application asks for the provisioner again. |
| HandoverCredentials.WindowLosesCredentials | apps/wifi-provisioner/src/improv.c:555-565 | Inputs at which an operator's window loses the one working network: a store that fails after the deletion, and a power cut between deletion and store. |
| HandoverCredentials.ComesUpExactly | lib/common/net.c:399-457 | Stored credentials are the ones that resolve if and only if no other name that fits stands in front of them, or the one that does is unusable and they are built in. |
| HandoverCredentials.ProvisioningSurvivesCuts | apps/wifi-provisioner/src/improv.c:555-577 | On the way out after a join, wherever the power fails and whatever the flash answers: the next boot is the provisioner with the request intact until the request is erased; then the application comes up with exactly the joined credentials if and only if the deletion left no other name in front of them. |
| HandoverCredentials.FailedDeleteKeepsOldNetwork | apps/wifi-provisioner/src/improv.c:555 | Input at which it does not: the deletion fails, whose result is ignored, and the device comes up with the network it had. |
| Gesture.Classifier.OnPress | lib/common/button_gesture.c:29-40 | A press event moves the fields as the presses they summarise say. |
| Gesture.Classifier.OnRelease | lib/common/button_gesture.c:42-67 | Erase is emitted exactly on releasing a hold of at least the erase time; otherwise the press joins the sequence. |
| Gesture.Classifier.OnTick | lib/common/button_gesture.c:69-96 | A tick closes a quiet sequence with the answer of the press-level classifier; `SequenceAnswers` and `GestureMeans` say which. |
| Gesture.Classifier.Replay | lib/common/button_gesture.c:11-101 | Over every non-decreasing event sequence the fields and outputs follow the press-level classifier. |
| Gesture.PatternSnoc | lib/common/button_gesture.c:53-65 | The sticky spoiled flag is right: a sequence stays a pattern exactly while each further press is short and in the window. |
| Gesture.RunIsBatch | lib/common/button_gesture.c:69-96 | A run whose pauses are decided by a limit emits what a batch classifier with that limit for its quiet time says about its button edges alone. |
| GestureLaws.SequenceAnswers | lib/common/button_gesture.c:69-96 | For every setting and every n: n short presses with short pauses within the window, with any ticks, are answered with provision if n is the one count, else identify if it is the other, else nothing. |
| GestureLaws.GestureMeans | lib/common/button_gesture.c:42-96 | In any run: provision and identify come at a tick after the quiet time of exactly as many short presses within the window, the last that were heard; erase exactly at the release of a hold of the erase time. |
| GestureLaws.WarnsOnce | lib/common/button_gesture.c:69-80 | A hold is announced once, at its first tick after the erase time. |
| Gesture.Classifier.Busy | lib/common/button_gesture.c:98-101 | When it is false, no tick does anything until the next press. |
| Gesture.ScheduleIndependent | lib/common/button_gesture.c:69-96 | Any two tick schedules of period at most T give the same provision, identify and erase sequence when no pause between presses lies in [quiet, quiet + T), a property of the button edges alone. |
| Gesture.PauseExactly | lib/common/button_gesture.c:69-96 | For every pause: all tick lists of period at most T leave the classifier in the same state if and only if the pause is not in [quiet, quiet + T). |
| ButtonWork.Button.OnEdge | lib/common/button.c:51-60 | An edge of the line puts off whatever was due to 30 ms later. |
| ButtonWork.Button.WorkFn | lib/common/button.c:80-122 | One run of the work item is one step of the device: a change of the line first, then a tick unless the change was a gesture, and 50 ms to the next run while a sequence is in progress. |
| ButtonWork.PressesLater | lib/common/button.c:51-60 | Whatever the line does, bouncing included, no press is recorded in the 30 ms after a run that saw the line up: a pause below quiet + 30 ms is never closed. |
| ButtonWork.DeviceIsBatch | lib/common/button.c:80-122 | On a clean line, with runs at most a given time late, the device from rest to rest does what the batch classifier says with a quiet time of 730 ms, when no pause lies in the range the ticks decide. |
| ButtonWork.DevicePauseExactly | lib/common/button.c:80-122 | For every pause and every bound on lateness: all runs of the device over the pause find the same at the next press if and only if the pause is not in that range, which ends at min(699, 650 + 13 late) + 80 + 2 late. |
| ButtonWork.TicksDecide | lib/common/button.c:80-122 | For every pause of the range that fits the pattern window, two whole runs of the device with the same recorded presses, one an identify pattern and one nothing. |
| Improv.Rpc.Checksum | apps/wifi-provisioner/src/improv.c:349-357 | The sum of the octets modulo 256. |
| Improv.Rpc.HandleFrame | apps/wifi-provisioner/src/improv.c:360-417 | Validates and dispatches one frame; credentials are offered once, only in the authorized state, and a full queue reverts it. |
| Improv.Rpc.WriteRpc | apps/wifi-provisioner/src/improv.c:419-461 | One write is one step of the receiver: continue, start over, refuse, or complete a frame. |
| Improv.TakesExactlyClientFrames | apps/wifi-provisioner/src/improv.c:366-391 | A frame yields credentials if and only if it is the client's frame for them, with an SSID of 1 to 32 bytes and a password of at most 64. |
| Improv.FrameArrives | apps/wifi-provisioner/src/improv.c:430-459 | Any frame arrives whole in any number of pieces if the first has two bytes and no pause reaches 2 s. |
| Improv.ClientFrameArrives | scripts/improv_provision.py:43-50 | What the client's encoder sends is what the device is offered. |
| Improv.PiecesExactly | apps/wifi-provisioner/src/improv.c:432-441 | In any number of nonempty pieces the credentials are offered if and only if the first has at least two bytes and no pause reaches 2 s. |
| Improv.LongWriteArrives | apps/wifi-provisioner/src/improv.c:419-461 | A frame in pieces at their offsets arrives whole, however it is cut and whatever the pauses. |
| Improv.OtherWrites | apps/wifi-provisioner/src/improv.c:424-448 | Prepared writes and wrong offsets change nothing; a write beyond the longest frame is an invalid one. |
| Improv.ExecuteStartsOver | apps/wifi-provisioner/src/improv.c:430-437 | The execution of a prepared write begins a frame, whatever is in progress. |
| Improv.OneByteChanged | apps/wifi-provisioner/src/improv.c:366-370 | Changing any single byte of a frame sent in one write offers nothing and changes no state; the error is that of an invalid frame, or, when the length grew, the rest is waited for. |
| Improv.FrameErrors | apps/wifi-provisioner/src/improv.c:360-417 | What a client is told about any whole frame: identify, unknown command, unusable settings, not authorized, accepted, ignored, or a full queue. |
| Improv.ParseResult | scripts/improv_provision.py:53-59 | The index loop returns the length-prefixed strings between header and checksum. |
| Improv.ResultRoundTrip | apps/wifi-provisioner/src/improv.c:496-508 | The client reads back the URL the device sent, or none. |
| ImprovWindow.Provisioner.Serve | apps/wifi-provisioner/src/improv.c:618-684 | The loop, with frames and presses from the other threads between any two of its steps, also between its reading the state and its writing it: every schedule, with the two results below. |
| ImprovWindow.RunInv | apps/wifi-provisioner/src/improv.c:618-684 | In every run in which no frame is accepted between a guard that read the authorized state and the write behind it, at most one set of credentials is on its way, only in the provisioning state, and a required authorization has its period running. |
| ImprovWindow.LeavesExactly | apps/wifi-provisioner/src/improv.c:655-682 | The device leaves if and only if new credentials are stored or the window ends with something to go back to, and the window closes and opens exactly then and at a press. |
| ImprovWindow.TestedIsSent | apps/wifi-provisioner/src/improv.c:630-633 | The credentials that are tested are the ones that were sent. |
| ImprovWindow.FailedTest | apps/wifi-provisioner/src/improv.c:546-565 | After a failed test the client is told why, and the next credentials count if and only if the device is authorized then. |
| ImprovWindow.AuthorizedForAMinute | apps/wifi-provisioner/src/improv.c:643-660 | A press authorizes for 60 s; the wait ends then or at the window's end, and the authorization with it. |
| ImprovWindow.PressReopens | apps/wifi-provisioner/src/improv.c:636-642 | A press opens a closed window for its whole length. |
| ImprovWindow.NoAuthNoRace | apps/wifi-provisioner/src/improv.c:643-659 | Without required authorization that is every run. |
| ImprovWindow.OneExactly | apps/wifi-provisioner/src/improv.c:643-659 | Every run that does not stop between a guard and its write keeps at most one set of credentials on its way, throughout, if and only if it has no such frame. |
| ImprovWindow.TwoOnTheWay | apps/wifi-provisioner/src/improv.c:643-649 | Run from the start, with required authorization, that lets two sets on their way: a frame comes between the guard and the write of a second press. |
| ImprovWindow.StuckExactly | apps/wifi-provisioner/src/improv.c:631-634 | Every run that has not left, with races and without, no longer takes credentials or authorizes if and only if it once took the last credentials on their way from the queue while the window was closed and the state was still provisioning. |
| ImprovWindow.DiscardIsLast | apps/wifi-provisioner/src/improv.c:631-634 | Without a race any discard is one of those. |
| ImprovWindow.DiscardedNotStuck | apps/wifi-provisioner/src/improv.c:655-681 | Run from the start, with required authorization, in which credentials are thrown away and the device still takes others. |
| ImprovWindow.FrameAtExpiry | apps/wifi-provisioner/src/improv.c:650-681 | Counterexample: a frame between the timeout of the wait and the closing of the window is accepted and thrown away, and reopening the window does not help. |
| Outages.Detect | scripts/soak/poll.py:394-477 | For a threshold of at least 1 the loop records exactly the batch specification's outages; below 1 it records none. |
| Outages.RunsAreMaximal | scripts/soak/poll.py:432-437 | The specification's runs are exactly the maximal runs of failed probes. |
| Outages.RunsInOrder | scripts/soak/poll.py:432-437 | They come in order and do not overlap. |
| Outages.OutagesAre | scripts/soak/poll.py:437-470 | One outage per run that counts, from its first failed probe to the first good one behind it, with the time since the outage before. |
| Outages.DetectsExactly | scripts/soak/poll.py:437 | The detector meets the specification if and only if the threshold is at least 1 or no probe fails after a success. |

## Left out

- Sockets, poll loops, GATT registration, advertising, Wi-Fi driver calls, GPIO, LEDs and logging: platform I/O, replaced by parameters or atomic steps.
- PSA cryptography, base64, the settings store and image validation: foreign libraries, replaced by their answers; `ztp_envelope_build` around the canonical request is a sequence of such calls.
- `snmp_trap.c` and `ber_put_ipaddress`: another caller of the same encoder, and one more writer of the same shape.
- `lib/opcua`, `lib/modbus`, the `tedge_glue.c` files, display, LED and identify code: thin mappings onto unseen libraries.
- `sim_pump.c`, `sim_environment.c` and `sim_switch.c`: floating point, and a source of MIB values, which are arbitrary inputs here.
- Most of `net.c`, `liveness.c`, `diag.c` and `softap.c`: only whether credentials resolve is taken from `net.c`.
- The identity record and the Cumulocity record in flash are not part of the hand-over state; neither decides what boots.
- SnmpValues.PutValue: the sysDescr text is an input already cut to the 95 characters its buffer holds.
- SnmpMessage.DecodeOfEncode: the repository has no decoder for whole responses, so the reader here is a reference reader built from the agent's own readers.
- Poller.PollReadsUptime: the community leaves 100 octets of the transmit buffer; near that limit the agent would answer tooBig.
- Gesture.ScheduleIndependent: asks for a positive quiet time; the press counters are unbounded where the source counts in 32 bits.
- ZtpTransport.MessageExact: the first write of the message carries at least one octet, and fragments carry at most 512, the device's own limit.
- ZtpTransport.ShutOutExactly: says that a schedule lets the relay in again, not how soon the main thread takes a message.
- SnmpRepetitions.AllowedWhenCut: one way only; `AllowedCutExactly` has both.
- Handover.Device.Handle: Wi-Fi settings and bundles are single events with the answers of the join and of each flash call as parameters; the Bluetooth start-up failure that reboots with the request in place is a power cut without flash operations.
- WifiIni.WifiStage.Stage: the walk's callback is a call of the entry method; the bytes a shorter value leaves behind its terminator are not modelled, since the length decides.
- ZtpApply.Applier.StageModule: an oversized or undecodable payload is an answer of the unpacking parameter.
- ImprovWindow.RunInv: handling a frame is one step of the Bluetooth thread, which outranks the main thread; the main thread's reads and writes of the state are separate steps.
- ButtonWork.Button.WorkFn: one run of the work item is one step; an edge in the middle of a run would be put off to 50 ms by it instead of 30.
- ButtonWork.DeviceIsBatch: the line does not change again before its last change was recorded; bouncing is not modelled there (`PressesLater` allows it).
- ZtpNesting.LongMacIsNotJson: texts without backslashes; the keys and the nonce of a request are base64.
- Outages.Detect: durations are differences of probe times without rounding; the reboot detection, the report fields copied from it and the early stop conditions of the loop are not modelled, so the probes are those the loop took.
- Rfc3339.RoundTrip: time arithmetic is unbounded where the source uses 64 bits.
- Improv.Rpc.WriteRpc: the button and identify side effects of a frame are reduced to the state, the error and the queue.

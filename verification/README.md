# sctp-probe: a verified model of its log, rule engine, server tables and codecs

sctp-probe accepts SCTP connections, decodes SBc-AP messages, logs them in a SQLite table, answers them by rules and
exports the log as a packet capture. This project models that behaviour in Dafny 4.11 and proves what it keeps.
`dafny verify dfyconfig.toml` checks everything.

## What is modelled

**Octets and text.** `Bytes.dfy` (module `Octets`) has the `struct` formats. `Checksum.dfy` has the Internet checksum
(RFC 1071) as the source's fold loop, proved against the one's complement sum. `Base64.dfy` has section 4 of RFC 4648
and Python's lenient decoder. `Hex.dfy` has the `0x%04x` text of identifiers, Python's `int(text, 16)`, the spaced dump
and `bytes.fromhex`.

**Export.** `Packet.dfy` has the Ethernet, IPv4 and SCTP DATA frame of `_build_packet` and a dissector written from the
standards (section 3.1 of RFC 791, sections 3 and 3.3.1 of RFC 4960) that believes the length fields it reads.
`Export.dfy` has the selection of rows, the `export_pcap` loop and a reader of capture files.

**Codec.** `SbcAp.dfy` has PDU values, with Python's dictionaries as maps, and the ASN.1 runtime as a parameter `Codec`: a
pair of partial functions. Where a lemma needs the runtime to undo itself it names `Encoder.InvertsReplies`: each reply
PDU that the templates build from identifiers below 65536, if it is encoded at all, is decoded to what it was. Nothing is
assumed about other PDUs. `Decoder.dfy` and `Encoder.dfy` have everything above that runtime.

**Store.** `Store.dfy` has the two tables as maps with the highest key ever given out, every query and update as a
function on `Db`, and the `Store` class whose methods are proved equal to those functions. `Tables.dfy` has the scan in
the order of ids. `Polling.dfy` has a reader that follows the log with `since_id`.

**Rule engine.** `Rules.dfy` has `_match` and the first match. `RuleEngine.dfy` has `evaluate` as a method that runs
alone on a `Store` object. `Engine.dfy` has the whole message pipeline of any number of connections as a state machine:
each `await` of `_on_message`, `evaluate` and `_execute` ends a step, and the steps of all connections, of the rule and
message endpoints, of a session reset and of the send endpoint interleave in any order. A schedule is any sequence of
steps; a step that is not enabled changes nothing, so a statement about all schedules is a statement about all runs.
`EngineInvariant.dfy` has the inductive invariant. `LogOrder.dfy`, `FireCount.dfy`, `FireCountTight.dfy`, `FireGuard.dfy`,
`Reconciliation.dfy`, `Isolation.dfy`, `Delivery.dfy`, `Stamps.dfy` and `Cancellation.dfy` have the theorems about runs, and `Capture.dfy` the way from a
run to what a reader of the exported capture sees.

**Server.** `Registration.dfy` has the start, stop, accept and clean-up sections of `SctpServer` as a state machine over
the listener table, all listener entries ever made and all handlers. `SctpServer.dfy` has the object with the
dictionaries that are changed in place. `Broadcast.dfy` has `send_to_peer` and the loops of `send_bytes`.
`Replay.dfy` has sending again what was logged.

## Where the code and its documents differ

The model follows the code.

- README.md:212 of the repository says a session reset clears messages and rules. `_reset_session_sync` deletes the
  rules only (`Store.OperationsKeepValid`, `Polling.Event`).
- A logged reply is not a delivered reply: `send_to_peer` returns silently for an unknown peer, and the reply is then
  logged. `Delivery.EveryReplyHasItsSend` finds for each logged reply of each run the send that was its own, which
  delivered it exactly if the address was registered at that moment; `Delivery.LoggedWithoutDelivery` is a run that logs a
  reply and delivers nothing.
- An export without a session id covers the rows of all sessions.
- `recv` takes messages of up to 65535 octets and `_build_packet` up to 65484, so one received message above that makes
  every export that selects it raise (`Capture.LongArrivalFails`, with the runs of `Capture.LongArrivalRun`).
- A rule with a negative count is active but never fires (`FireCount.FireBound`).

## False in general, and exactly when true

- *A listener's peers are its live connections.* A clean-up pops from whatever listener is registered under the port at
  that time. `Registration.StaleCleanup` loses a live connection after a stop and a restart;
  `Registration.ExactIffGuarded` gives the condition on each accept and clean-up, and
  `Registration.DisciplinedIsExact` a discipline that meets it.
- *A rule fires at most `count` times.* With n evaluations between snapshot and increment the bound is count + n - 1
  (`FireCount.FireBound`), and it is reached (`FireCountTight.BoundIsTight`). `FireGuard.WithinIffRoom` and
  `FireGuard.OvershootIffNotWithin` give the condition on each snapshot: counter and open evaluations together below the
  count.
- *A reply reaches the connection its request came on.* After `SctpServer.TwoCopies` it reaches another one;
  `SctpServer.ReplyReachesItsConnection` gives the condition: no listener before its own holds the address.
- *A logged reply was delivered.* `Delivery.LoggedWithoutDelivery` is a run in which it was not;
  `Delivery.EveryReplyHasItsSend` gives the condition for each reply.
- *A broadcast reaches every connection once.* `SctpServer.TwoCopies` is a run after which one connection gets two copies
  and another none; `Broadcast.OneCopyEach` gives the condition.
- *A reply echoes the identifiers of its request.* `Encoder.InventedIdentifier` has a reply that carries an identifier its
  request lacks, `Encoder.DroppedIdentifiers` one that drops both; `Encoder.EchoExact` gives the condition on template and
  columns.
- *An export holds the whole session.* `Capture.LastRowMissing` has runs, from 1001 rows on, whose last row is not exported;
  `Export.ExportIsPrefix` gives the condition.
- *An export of logged messages returns.* `Capture.LongArrivalRun` has runs after which it raises;
  `Export.ExportReturns` gives the condition.
- *What was logged can be sent again.* `Replay.BlankCannotBeReplayed` has the one input whose dump is refused;
  `Replay.ReplayRoundTrip` gives the condition: exactly when it is not empty.

## Model

| member | source | states |
|---|---|---|
| Checksum.ComputeChecksum | sctp_probe/export.py:47-54 | the padding, the word sum and the fold loop end and compute 65535 minus the one's complement sum, for data of any length |
| Checksum.OnesComplementUnique | sctp_probe/export.py:52-53 | the folded sum is the only number up to 65535 that is congruent to the sum modulo 65535 and is zero only for a zero sum |
| Checksum.FoldKeepsResidue | sctp_probe/export.py:53 | one fold keeps the sum modulo 65535 |
| Checksum.ReorderingKeepsChecksum | sctp_probe/export.py:51-54 | data with the same 16-bit words in any order have the same checksum |
| Checksum.SplitCombines | sctp_probe/export.py:51-54 | split at an even offset, the checksums combine by end-around addition |
| Checksum.ByteOrderIndependence | sctp_probe/export.py:51-54 | swapping the bytes of every word swaps the bytes of the checksum |
| Checksum.ChecksumVerifies | sctp_probe/export.py:112-113 | for a header whose word at an even offset is zero, the word to write there so that the header's checksum becomes 0 is its checksum, and no other but the second zero |
| Base64.JoinUndoesSplit | sctp_probe/decoder.py:69-70 | regrouping octets into sextets and back is lossless |
| Base64.DecodeUndoesEncode | sctp_probe/export.py:139 | the lenient decoder of the export gives back what the decoder module encoded |
| Base64.TestVectors | sctp_probe/decoder.py:69-70 | the test vectors of RFC 4648 for one to three octets |
| Base64.EncodeGroup | sctp_probe/decoder.py:69-70 | every three octets are encoded by themselves |
| Base64.EncodedForm | sctp_probe/decoder.py:69-70 | the text is one symbol of the alphabet for each group of six bits, and then only equals signs |
| Base64.EncodedLength | sctp_probe/decoder.py:69-70 | four characters for every three octets begun |
| Base64.DecodeSkips | sctp_probe/export.py:138-141 | a foreign ASCII character anywhere changes nothing; one outside ASCII makes the row be skipped |
| Base64.DecodeIncomplete | sctp_probe/export.py:138-141 | symbols that break off inside a group of four do not decode |
| Hex.ParsePrinted | sctp_probe/encoder.py:29-36 | parsing the printed text of any natural gives the natural |
| Hex.PrintInjective | sctp_probe/decoder.py:81-91 | different numbers print differently |
| Hex.PrintParsed | sctp_probe/decoder.py:91 | a digit text without superfluous zeros is the printed form of its value |
| Hex.FilterMatches | sctp_probe/rules.py:39-45 | a filter equals a decoded identifier exactly when it is canonical and denotes the same number |
| Hex.FromSpaced | sctp_probe/main.py:281-283 | removing the spaces of a dump and parsing it gives its octets |
| Hex.FromHexSound | sctp_probe/main.py:283 | whatever text is accepted, its octets print as that text in lower case without white space |
| Hex.SpacedForm | sctp_probe/decoder.py:65-66 | the dump has two lower-case digits for each octet, in order, and one blank between octets |
| Hex.NegativeText | sctp_probe/decoder.py:91 | a negative number has its sign after the prefix and at least six characters |
| Hex.ReadsSpelling | sctp_probe/encoder.py:34 | digits of either case are read with white space around them, a sign and a prefix |
| Hex.UnderscoreBetween | sctp_probe/encoder.py:34 | one underscore between digits does not change the number |
| Hex.ReadCharacters | sctp_probe/encoder.py:33-36 | text with any other character is no number |
| Hex.RefusesEmpty | sctp_probe/encoder.py:31-36 | missing text, empty text and a bare prefix are read as the default 0 |
| Hex.FromHexPairs | sctp_probe/main.py:283 | pairs of digits of either case are read as their octets |
| Hex.FromHexConcat | sctp_probe/main.py:283 | accepted texts one after the other give the octets of both |
| Hex.SplitPair | sctp_probe/main.py:283-285 | a pair that is broken off, or split by white space, is refused |
| Packet.DissectUndoesBuild | sctp_probe/export.py:57-118 | a dissector that trusts the length fields finds in every built frame, written out in octets, the MAC and IP addresses of the direction, all constant fields and the payload to the octet, whatever the payload ends in |
| Packet.Ipv4Verifies | sctp_probe/export.py:98-113 | every IPv4 header built has checksum 0 |
| Packet.PacketSize | sctp_probe/export.py:66-112 | building succeeds exactly up to 65484 octets, and the frame has 62 + 4 ceil(n/4) octets |
| Packet.SizeBound | sctp_probe/export.py:25-33 | the IPv4 length field is the frame minus 14, and the frame fits the declared snapshot length exactly up to 65472 octets of payload |
| Packet.PaddingIsZero | sctp_probe/export.py:69-85 | the payload starts after 62 octets and zeros follow it |
| Export.ExportIsPrefix | sctp_probe/export.py:128-137 | the exported rows are a prefix of all exportable rows of the session, and all of them exactly when none stands after the first 1000 rows of the log |
| Export.AllRowsAreStored | sctp_probe/store.py:160-165 | the candidates are exactly the stored rows, in ascending order of id |
| Export.ExportedRows | sctp_probe/export.py:128-141 | a row is exported if and only if it is among the first 1000, has the session asked for if one is, and its base 64 is not empty and decodes |
| Export.GlobalOctets | sctp_probe/export.py:25-33 | the 24 octets of the file header |
| Export.FrameFitsHeader | sctp_probe/export.py:25-33 | a frame fits the snapshot length read from that header exactly up to 65472 octets of payload |
| Export.AppendRow | sctp_probe/export.py:134-154 | one pass of the loop takes the file of the first i rows to the file of the first i + 1, or to the exception |
| Export.ExportPcap | sctp_probe/export.py:128-156 | the loop over the store's answer makes the file that is the header and the records of the selected rows, or raises exactly when one of them cannot be packed |
| Export.FailureStays | sctp_probe/export.py:149-153 | a row that cannot be packed ends the export whatever follows |
| Export.ExportReturns | sctp_probe/export.py:148-154 | a file comes back exactly when every selected payload has at most 65484 octets and every selected time fits 32 bits |
| Export.PcapRoundTrip | sctp_probe/export.py:57-156 | a reader of capture files shows, in order, the seconds, microseconds, direction's addresses and raw payload of exactly the selected rows |
| Decoder.IeValIsFirst | sctp_probe/decoder.py:73-78 | lookup finds the first IE with the id |
| Decoder.IeValAbsent | sctp_probe/decoder.py:73-78 | lookup finds nothing when no IE has the id |
| Decoder.IesToDict | sctp_probe/decoder.py:94-105 | the loop fills the dictionary of all IEs |
| Decoder.FlattenIsLast | sctp_probe/decoder.py:94-105 | the dictionary shows the last IE of each key, a name and an id of the same text being one key, unlike the identifier columns |
| Decoder.FlattenKeys | sctp_probe/decoder.py:94-105 | the dictionary has exactly the keys of the IEs |
| Decoder.DecodeKeepsOctets | sctp_probe/decoder.py:108-162 | the dump and the base 64 of a decoded message give its octets back, even when decoding failed |
| Decoder.DecodedOrRaw | sctp_probe/decoder.py:108-162 | which octets are logged raw, with no type, identifiers or dictionary, and that all others are SBc-AP with the dictionary of their IEs |
| Decoder.DecodedType | sctp_probe/decoder.py:38-46 | the type for each procedure code 0 to 6 and either direction, and none for other codes |
| Decoder.RequestsAreTold | sctp_probe/decoder.py:38-46 | requests of different procedures never get the same type |
| Decoder.DecodedIdentifiers | sctp_probe/decoder.py:137-147 | the identifier columns show the numbers of the first IE 5 and the first IE 11, or nothing |
| Decoder.KeysOfIes | sctp_probe/decoder.py:94-105 | the dictionary key and value of each form of IE |
| Encoder.ReplyIdentifiers | sctp_probe/encoder.py:130-172 | for every template that yields octets and identifiers below 65536, the octets decode to the message type of the template and the identifiers given, or none for an error indication |
| Encoder.BuiltDecodes | sctp_probe/encoder.py:54-125 | the same for each builder's PDU, given identifiers below 65536 and a runtime that encodes it |
| Encoder.WrrTemplates | sctp_probe/encoder.py:141-149 | the four names that stand for a write-replace response with identifiers |
| Encoder.SwrTemplates | sctp_probe/encoder.py:150-153 | the two names for a stop response |
| Encoder.ErrTemplates | sctp_probe/encoder.py:154-157 | the two names for an error indication, which carries no identifiers |
| Encoder.IndicationTemplates | sctp_probe/encoder.py:158-166 | the three names for indications, two of them for the same message |
| Encoder.UnknownTemplate | sctp_probe/encoder.py:168-169 | any other name yields nothing |
| Encoder.TimeoutsYieldNothing | sctp_probe/encoder.py:139-140 | the two timeout templates yield nothing |
| Encoder.TemplateCauses | sctp_probe/encoder.py:141-157 | the cause that each template reports |
| Encoder.UnknownAreas | sctp_probe/encoder.py:143-145 | the one unknown area of the partial success, and none elsewhere |
| Encoder.BuiltNames | sctp_probe/encoder.py:54-125 | direction, procedure code and name of each template's PDU |
| Encoder.IdentifierIes | sctp_probe/encoder.py:55-57 | both identifiers as named IEs of 16 bits |
| Encoder.ArgumentsWin | sctp_probe/encoder.py:39-42 | an identifier argument that is given and not empty wins over the request's column |
| Encoder.ColumnEcho | sctp_probe/encoder.py:39-42 | a column survives parsing and printing exactly when it is present and canonical |
| Encoder.EchoExact | sctp_probe/rules.py:87-94 | a reply decodes to the identifier columns of its request if and only if the template carries identifiers and the columns are canonical, or it carries none and the columns are empty |
| Encoder.MissingBecomesZero | sctp_probe/encoder.py:29-42 | every echoing template answers a request without a Message-Identifier with the identifier 0 |
| Encoder.InventedIdentifier | sctp_probe/encoder.py:141-142 | such a request and its WRR_SUCCESS reply, which decodes to "0x0000" |
| Encoder.DroppedIdentifiers | sctp_probe/encoder.py:83-91 | a request with both identifiers and its ERR_IND_SEMANTIC reply, which decodes to neither |
| Encoder.EchoEndToEnd | sctp_probe/encoder.py:54-125 | from the octets of a request that carries both identifiers, a reply of any echoing template decodes to the same two texts and to the template's message type |
| Tables.ScanOrder | sctp_probe/store.py:160-165 | a scan gives only rows that are kept, by strictly ascending id |
| Tables.ScanComplete | sctp_probe/store.py:160-165 | a scan misses no row that is kept |
| Tables.ScanCut | sctp_probe/store.py:151-152 | a higher cursor cuts rows off the front of the answer and nothing else |
| Store.GetMessagesAnswer | sctp_probe/store.py:141-167 | an answer has rows after the cursor whose direction and type are those that non-empty filters name, by ascending id, at most min(max(1, limit), 1000), and leaves no such row out before its end or while there is room |
| Store.GetRulesAnswer | sctp_probe/store.py:197-204 | the snapshot has exactly the active rules by ascending id |
| Store.OperationsKeepValid | sctp_probe/store.py:107-259 | every update keeps keys and ids consistent, gives out only fresh keys, and a reset keeps the messages |
| Store.WantedMeets | sctp_probe/store.py:151-158 | the WHERE clause accepts a row exactly if it has the direction and the type that non-empty filters name |
| Store.MessageUpdates | sctp_probe/store.py:107-139 | what a save and a delete of all messages leave, and that rules, session and counters stay |
| Store.RuleUpdates | sctp_probe/store.py:169-259 | what saving, deleting and counting rules leave: exactly the named rule goes, exactly the named counter rises by one |
| Store.ResetUpdates | sctp_probe/store.py:236-250 | a reset stores the new session id, removes every rule and keeps messages and counters |
| Store.Store.constructor | sctp_probe/store.py:13-54 | a new store is empty and valid |
| Store.Store.Save | sctp_probe/store.py:107-139 | adds the row under the next, unused id and returns that row |
| Store.Store.Get | sctp_probe/store.py:141-167 | the same of the answer of the store object |
| Store.Store.AddRule | sctp_probe/store.py:169-195 | stores the rule under the next, unused id with a zero counter and returns it |
| Store.Store.ActiveRules | sctp_probe/store.py:197-204 | the answer has exactly the active rules by ascending id |
| Store.Store.RemoveRule | sctp_probe/store.py:206-214 | removes that rule alone and returns how many rows went |
| Store.Store.RemoveAllRules | sctp_probe/store.py:216-224 | removes all rules, keeps the key counter, and returns their number |
| Store.Store.RemoveAllMessages | sctp_probe/store.py:226-234 | removes all messages, keeps the key counter, and returns their number |
| Store.Store.Reset | sctp_probe/store.py:236-250 | a new session id and no rules; the messages and both key counters stay |
| Store.Store.Increment | sctp_probe/store.py:252-259 | adds one to the counter of an existing rule and does nothing for a missing one |
| Polling.ReceivesInOrder | sctp_probe/store.py:141-165 | for any interleaving of saves, deletes, resets and polls, received ids rise strictly and every wanted row left in the log up to the cursor was received |
| Polling.ShortAnswerCatchesUp | sctp_probe/store.py:160-165 | after an answer below the limit every wanted row in the log was received |
| Polling.SavedUpToDelete | sctp_probe/store.py:107-136 | up to the first delete a wanted row that is saved is stored unchanged, and was received by the time the cursor passes it |
| Polling.SavedIsReceived | sctp_probe/store.py:107-165 | a wanted row that is saved and not deleted before the cursor passes it is among the received rows then and ever after, whatever follows |
| Polling.ReceivedGrows | sctp_probe/store.py:141-165 | what was received stays received in its place under all later events |
| Polling.Drain | sctp_probe/store.py:151-165 | without writes, polls with any limits receive the wanted rows in order, as many as the clamped limits allow |
| Polling.DrainCount | sctp_probe/store.py:160-165 | without writes, exactly the first ceil(k / L) polls answer rows, and then all k rows are received |
| Rules.FindMatch | sctp_probe/rules.py:25-28 | the loop with early return finds the first rule that meets the documented conjunction, or says that none does |
| Rules.MatchIsDeclared | sctp_probe/rules.py:30-56 | the guards of `_match` amount to the conjunction of DESIGN.md:245-256, for zero, positive and negative counts |
| Rules.ChosenIsLowest | DESIGN.md:245-260 | over the stored rules the one executed is the one of lowest id that meets the conjunction, and none exactly when none meets it |
| Rules.RepliesItsTemplate | sctp_probe/rules.py:73-97 | a rule has a reply if and only if its action is auto_reply, its template is not empty, and the encoder makes these octets of that template and the message's columns |
| Rules.ReplyHasType | sctp_probe/rules.py:81-94 | such a reply decodes to the message type of that template |
| RuleEngine.RuleEngine.Evaluate | sctp_probe/rules.py:22-136 | run alone, it counts the chosen rule once, sends only to a reachable peer, and logs one reply row unless there is nothing to send or the send raised; what it sends is what the encoder makes of the chosen rule's own template |
| RuleEngine.EvaluationSends | sctp_probe/rules.py:81-109 | exactly these octets are sent, and exactly if the peer is registered and the send does not raise |
| RuleEngine.EvaluationCounts | sctp_probe/rules.py:71 | the chosen rule's counter rises by one, whether or not anything is sent, and no other |
| RuleEngine.EvaluationLogs | sctp_probe/rules.py:111-131 | one row is logged with these octets, the rule, the way back of the message, the session and the time |
| RuleEngine.EvaluationLogsNothing | sctp_probe/rules.py:73-109 | nothing is logged without octets or if the send raises |
| RuleEngine.AloneRefines | sctp_probe/rules.py:22-136 | with nothing in between, the five steps of the interleaved model change store and deliveries as that method does |
| Delivery.StepGives | sctp_probe/rules.py:99-131 | for any set of replies: every step keeps it that all replies a connection has logged or is about to log are in the set, if the reply that this step sends off is added to it |
| Delivery.EveryReplyHasItsSend | sctp_probe/rules.py:99-131 | after every schedule, each reply in a log has a step at which its connection was sending just this rule's reply to the message of the row before it, counted by the arrivals so far, and which delivered the reply to the connection's peer if the peer was registered at that moment, and otherwise nothing |
| Delivery.SendsAreDistinct | sctp_probe/rules.py:99-131 | no two replies of a log share such a step |
| Delivery.LoggedIsDelivered | sctp_probe/rules.py:99-131 | so, after every schedule, if a connection's address is registered at each of its sends, every reply in its log was sent to that address |
| Delivery.UnknownGetsNothing | sctp_probe/sctp_server.py:109-116 | after every schedule, an address that is registered at no send was sent nothing |
| Delivery.LoggedWithoutDelivery | sctp_probe/sctp_server.py:116 | a run that ends with a reply in the log and in the table and with nothing sent |
| EngineInvariant.StepKeepsInv | sctp_probe/main.py:49-69 | every step of the pipeline keeps the invariant on tables, phases and logs |
| EngineInvariant.AlwaysInv | sctp_probe/main.py:49-69 | the invariant holds after every schedule |
| EngineInvariant.AlwaysOwned | sctp_probe/main.py:302-317 | after every schedule each stored row was saved by some connection, or by the send endpoint and is then the row for the octets it was given |
| EngineInvariant.RunGrows | sctp_probe/store.py:13-47 | between any two moments key counters never fall, stored rows never change, rules keep their conditions and counters never fall |
| LogOrder.ConnectionLog | sctp_probe/sctp_server.py:184-196 | after every schedule, each connection's rows are by ascending id the row of an arrival, at most one reply to it, the row of a later arrival, and so on; rows hold the octets of their arrivals, each arrival that is over has its row unless it was given up before its save, and as long as messages are not deleted all these rows are in the table |
| LogOrder.LoggedReply | sctp_probe/rules.py:111-131 | after every schedule, a logged reply stands right after its message's row, names a rule that matched that row and the connection's peer, has the message type of the rule's template, and repeats the identifiers for every echoing template |
| LogOrder.LoggedOctets | sctp_probe/rules.py:82-131 | after every schedule, the row of an arrival has the dump, base 64 and decoded columns of the octets that arrived, and the row of a reply those of the octets that its rule makes of the row before it |
| LogOrder.LoggedRows | sctp_probe/rules.py:111-131 | after every schedule, the row of an arrival names direction, transport, port and peer, and the row of a reply goes back the same way, names its rule, and holds what the encoder makes of that rule's own template |
| Stamps.EveryRowIsStamped | sctp_probe/main.py:50-66 | after every schedule, each logged row has a step of its own arrival in which its connection read the session and the clock, and the row's session is the one stored then and its times are those |
| Stamps.EveryManualRowIsStamped | sctp_probe/main.py:302-317 | the same for each row of the send endpoint, which names no port, peer or rule and shows the octets it was given |
| Cancellation.CancelledStep | sctp_probe/sctp_server.py:80-82 | a cancelled connection ends with the call that it was awaiting |
| Cancellation.CancelledRun | sctp_probe/sctp_server.py:80-82 | whatever follows, it receives nothing more and saves at most one more row |
| Capture.RunIsCaptured | sctp_probe/export.py:128-156 | after every schedule, a reader of the exported file shows the exported rows in order, each saved by a connection or the send endpoint, the row of an arrival with the octets that arrived, the row of a reply with the octets that its rule made of the row before, and the row of the send endpoint with the octets it was given |
| Capture.LongArrivalFails | sctp_probe/sctp_server.py:186 | after every schedule, an exported row of an arrival longer than 65484 octets makes the export raise |
| Capture.LongArrivalRun | sctp_probe/export.py:75-112 | the runs that receive one message of 65485 octets or more, and whose export raises |
| Capture.LastRowMissing | sctp_probe/export.py:129 | the runs of 1001 sends or more of any octets, whose last row is stored and exportable and not exported |
| Capture.StoredIsExported | sctp_probe/export.py:128-141 | before the thousandth id every stored row that can be exported is exported |
| FireCount.CounterStep | sctp_probe/store.py:252-257 | nothing but an increment by an evaluation that holds it moves a rule's counter |
| FireCount.WindowStep | sctp_probe/rules.py:24-27 | only a snapshot that chooses a rule adds an evaluation to that rule's window |
| FireCount.FireBound | sctp_probe/rules.py:22-71 | with at most n evaluations at once between snapshot and increment, a positive count bounds the counter by count + n - 1, and a negative count keeps it at 0 |
| FireCount.FireBoundByConnections | sctp_probe/rules.py:51-54 | with at most n connections the same bound holds, so one connection never exceeds the count |
| FireCountTight.BoundIsTight | sctp_probe/rules.py:22-71 | for every count and n from 1 up there is a schedule that meets the premise and ends with the counter at count + n - 1 |
| FireGuard.WithinStep | sctp_probe/rules.py:22-71 | while counter and open evaluations of a rule are within its count, a step keeps them so if and only if its snapshot, should it take the rule, finds their sum below the count |
| FireGuard.WithinIffRoom | sctp_probe/rules.py:22-71 | over every run they stay within the count if and only if every snapshot that took the rule found such room |
| FireGuard.HoldersIncrement | sctp_probe/rules.py:64-71 | from any state the open evaluations of a rule can all increment it |
| FireGuard.OvershootIffNotWithin | sctp_probe/rules.py:51-71 | the evaluations open in a state can take the counter past the count if and only if counter and evaluations together exceed it |
| FireGuard.RoomKeepsCount | sctp_probe/rules.py:51-54 | if every snapshot that takes a rule finds room, its counter never passes the count |
| Reconciliation.LogWithinCounter | sctp_probe/rules.py:71-131 | after every schedule, the outbound rows of an existing rule and the evaluations between its increment and their log step are together at most its counter |
| Reconciliation.StepAccounts | sctp_probe/store.py:206-257 | each step's increment is found in a counter, or missed a rule that was gone; what a removal takes is accounted for |
| Reconciliation.IncrementsConserved | sctp_probe/store.py:252-257 | after every schedule these accounts balance, and without removals the counters add up to the increments performed |
| Isolation.RuleIdsNeverReused | sctp_probe/store.py:33-47 | a rule found later under an id given out before already existed then, unchanged but for a counter that only grew |
| Isolation.InFlightIncrement | sctp_probe/rules.py:64-71 | an evaluation in flight across deletes and resets changes no rule created meanwhile, and nothing at all when its rule is gone |
| Isolation.AfterReset | sctp_probe/store.py:236-250 | a rule chosen after a reset was created after that reset |
| Isolation.RuleRequests | sctp_probe/store.py:169-224 | among other connections, what creating and removing rules does, and that connections, messages and session stay |
| Isolation.ResetRequests | sctp_probe/store.py:226-250 | the same for a reset and for deleting the messages |
| Registration.StepLinks | sctp_probe/sctp_server.py:146-201 | each section keeps both dictionaries of every listener linked to the handlers it accepted |
| Registration.PeersMatchTasks | sctp_probe/sctp_server.py:158-168 | in every reachable state each listener has the same addresses in `peers` and `peer_tasks`, with the connection and the task of one accept |
| Registration.StepExact | sctp_probe/sctp_server.py:197-201 | from exact registrations, a step leads to exact registrations if and only if what it finds in the dictionaries meets its guard |
| Registration.ExactIffGuarded | sctp_probe/sctp_server.py:47-201 | over a run, registered listeners hold exactly their live connections at every point if and only if every accept and clean-up met its guard |
| Registration.DisciplinedIsExact | sctp_probe/sctp_server.py:47-201 | they do so, across stops and restarts, if no address is accepted on a port while an earlier handler for both still runs |
| Registration.StaleCleanup | sctp_probe/sctp_server.py:197-201 | a run with a stop and a restart in which an old handler's clean-up removes a live connection |
| Registration.StartsBalance | sctp_probe/sctp_server.py:47-66 | in every run, the listeners made on a port and the starts still open on it are the starts that passed their check and did not fail |
| Registration.HandlerEnds | sctp_probe/sctp_server.py:175-206 | a handler lives until its own clean-up, or until it vanishes under a stopped listener |
| SctpServer.SctpServer.constructor | sctp_probe/sctp_server.py:31-41 | a new server is the initial state |
| SctpServer.SctpServer.BeginStart | sctp_probe/sctp_server.py:47-55 | passes exactly when nobody listens on the port |
| SctpServer.SctpServer.Register | sctp_probe/sctp_server.py:56-66 | puts a fresh entry under the port, also over one that came in during the await; a new port goes last and the others keep their order |
| SctpServer.SctpServer.Pop | sctp_probe/sctp_server.py:69-72 | takes the entry out and returns it, if there is one, and drops its port from the dictionary's order |
| SctpServer.DroppedAt | sctp_probe/sctp_server.py:70 | dropping a port leaves the ports before it and then those after it, in their order |
| SctpServer.SctpServer.Accept | sctp_probe/sctp_server.py:146-168 | enters connection and task under the address in the entry that the loop holds, registered or not |
| SctpServer.SctpServer.Cleanup | sctp_probe/sctp_server.py:197-200 | pops the address from both dictionaries of whatever entry is registered under the port now |
| SctpServer.SctpServer.SendToPeer | sctp_probe/sctp_server.py:109-116 | sends to the connection of the first listener, in dictionary order, that holds the address |
| SctpServer.SctpServer.SendToAll | sctp_probe/main.py:297-300 | with any set of connections whose send raises: it raises exactly when it would send to one of these; otherwise it makes as many sends as there are registrations, to each connection as many as its copies; a broadcast cut short sends no connection more than that |
| SctpServer.DistinctTable | sctp_probe/sctp_server.py:153-168 | in every linked state no connection is registered twice |
| Broadcast.SendToPeer | sctp_probe/sctp_server.py:109-116 | the loop with early return finds the first holder, and nobody exactly when no listener holds the address |
| Broadcast.SendToEach | sctp_probe/main.py:299-300 | the inner loop sends once for each address of the listener up to the first send that raises |
| Broadcast.SendToAll | sctp_probe/main.py:297-300 | over a table that stays as it is, the same for all listeners: all copies, or the exception with no connection sent more than its copies and none sent to a connection that raises |
| Broadcast.CopiesPerConnection | sctp_probe/main.py:298-300 | a connection gets one copy per listener that holds its address if its own listener is the first of them, otherwise none |
| Broadcast.OneCopyEach | sctp_probe/main.py:298-300 | every connection gets exactly one copy if and only if no address is under two listeners |
| SctpServer.TwoCopies | sctp_probe/main.py:298-300 | a run with one address under two listeners, after which a broadcast sends two copies to the one connection and none to the other, which is live, and a reply to the other goes to the first |
| SctpServer.ReachesItself | sctp_probe/sctp_server.py:109-116 | while registrations are exact, bytes for the address of a live connection go to it if and only if no listener before its own holds the address |
| SctpServer.ReplyReachesItsConnection | sctp_probe/sctp_server.py:47-201 | the same at every point of every disciplined run, across stops and restarts |
| Replay.SubmitSpaced | sctp_probe/main.py:280-287 | submitting a dump gives its octets if and only if it is not empty |
| Replay.ReplayRoundTrip | sctp_probe/main.py:302-317 | a row that holds octets gives them back when its dump is submitted, and the new row has the same dump and base 64; exactly when they are not empty |
| Replay.BlankCannotBeReplayed | sctp_probe/main.py:280-287 | a blank is accepted as no octets, and the dump then logged is refused |
| Replay.SubmittedDump | sctp_probe/main.py:281-315 | the logged dump differs from the submitted text only in case and white space |
| Replay.BlanksDoNotMatter | sctp_probe/main.py:281 | texts that differ only in blanks give the same octets |
| Replay.Reception | sctp_probe/sctp_server.py:186-196 | a waiting connection receives any message of 1 to 65535 octets and no other |
| Replay.LoggedCanBeReplayed | sctp_probe/decoder.py:108-114 | after every schedule, the dump of each received message that a connection logged can be submitted and gives the octets that arrived |

## Left out

- `specs/SbcAP_gen.py` and the aligned-PER runtime: a parameter, assumed to decode the reply PDUs that it encodes where a lemma says so.
- IE criticality, cause meanings and the contents of the broadcast area lists: constants with nothing to prove.
- `peek_pdu_type`, `status`, `stop_all`, `export_json`'s text: they would add easy members.
- Sockets, threads and timeouts, and all of `sctp_client.py`: accept, receive, send, close and cancel are steps whose outcome the schedule chooses; the client's connection flag is not modelled.
- FastAPI routing, request models, the WebSocket hub and `session.py`: thin wrappers; a hub failure ends an evaluation like any other (`Fail`).
- SQL text, the JSON of the `decoded` column, WAL mode, several processes on one database file, key overflow at 2^63 - 1, and the session id made up when the table has none.
- Defaults that `_save_message_sync` and `_save_rule_sync` fill in for missing dictionary keys: no caller in the pipeline leaves out a key with a default other than null; the send endpoint leaves out port, peer and rule, which are null (`Rules.ManualFields`).
- Timestamps: taken as seconds and microseconds; ISO parsing, the clock and the truncation of times before 1970 are not modelled.
- SCTP CRC-32c: the code writes 0, and so does the model.
- Non-ASCII digits and white space in `int(text, 16)` and `bytes.fromhex`.
- Engine.Exec: a cancelled handler may still perform the store call it was awaiting and then ends, which allows every order of that race; the time that `delay_ms` asks for is any point at which the schedule takes the next step.
- Registration.Run: an accept loop may enter a connection in any entry ever made for its port, also after `stop`; a connection object without `_sk`, whose handler dies before its `try`, is not modelled.
- SctpServer.SctpServer.SendToAll: the table does not change during the broadcast; the order among the addresses of one listener is any order; a dictionary changed during the loop, which makes Python raise, is not modelled.
- Broadcast.SendToAll: the table does not change during the broadcast.
- RuleEngine.RuleEngine.Evaluate: nothing interleaves; the interleaved form is `Engine.Exec`.
- LogOrder.LoggedReply: the echo is stated for requests that carry both identifiers below 65536; `Encoder.EchoExact` has all columns.

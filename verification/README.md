# The reliability core of the email bridge, modelled and proved

The bridge carries Reticulum packets between one local node and one remote peer over
ordinary email. Outbound packets become one-part messages handed to an SMTP relay. Inbound
messages are fetched over IMAP, judged, injected into the packet pipe, and remembered by a
checkpoint file. This project models the parts that decide whether a packet is lost, sent
twice, or misread, and proves what they promise for every input and every run.

`dafny verify dfyconfig.toml` checks the whole project.

## How the model is laid out

- `Octets`, `Base64`, `Wrapping`, `MailHeader`, `Marker`, `Envelope`, `EnvelopeScan`: the
  envelope codec. An octet is a character below 256. Base 64 follows section 4 of RFC 4648,
  wrapping section 6.8 of RFC 2045, the header reader section 2.2 of RFC 5322. The library
  parsers for addresses, media types and quoted-printable are a record of functions,
  `Envelope.Library`; theorems hold for every such record that meets their stated conditions.
- `Literal`, `Truncation`: the capped literal reader, and when the cap changes a verdict.
- `Checkpoint`: the checkpoint file and its object.
- `Inbound`, `Mailbox`, `Worker`: the handler, the watermark, cleanup, and the fetch method,
  with the answers of the server, the pipe and the file system as inputs.
- `Protocol`, `NoLoss`, `ExactlyOnce`, `CatchUp`: the inbound protocol as a step system over
  the mailbox, the file and the process. `FetchRefinement` shows that a call of the fetch
  method is a run of those steps, with steps of the world among them, whenever the messages
  handed over are ones the server has. `EndToEnd` follows a packet from the encoder to the
  receiver's verdict.
- `IdleLoop`, `Backoff`: the notification channel with the idle loop, and the delays.
- `Aggregator`, `Smtp`, `Outbound`, `Handler`, `Recovery`: the outbound path and SMTP health;
  in `Recovery` every atomic action of every thread is a step of its own.

## What holds, and where the code does less than it says

- Order of delivery. The comment at internal/imap/worker.go:250-257 says that the ceiling
  prevents gaps when the server answers out of order. That is so for completed fetches and for
  transport errors. After an inject failure it is not: the guard at
  internal/imap/worker.go:246 lets the partial fetch count. `NoLoss.GapLosesMail` is a run that
  passes an undelivered message. `NoLoss.WatermarkSoundIffGapless` says exactly when the
  watermark is sound: every recorded UID that the ceiling allows lies below every message that
  is still owed. `NoLoss.NothingIsLost` assumes just this, and only where an inject failure
  ended the fetch; ascending delivery gives it.
- Missing bodies. A fetched message whose body literal is NIL leaves no trace
  (internal/imap/client.go:186-203). `Worker.PassedIffBody`: of the replies that the watermark
  of a completed fetch passes, just those with a body were recorded; `Worker.NilBodyIsPassed`
  is such a fetch. The step system delivers every message with its body.
- Truncation. The comment at internal/imap/client.go:23-31 expects a literal cut at the size
  cap to be classified correctly. With the header, up to its first empty line, within 16 KiB
  this is so for every message that the mail reader accepts, and for every message whose
  header end, as the raw scan looks for it, is in what the cut keeps. The scan wants an empty
  CRLF line, anywhere in the input, before it settles for an empty LF line. So among the
  messages that the reader refuses the cut can hide a marker line deep in the body
  (`Truncation.TruncationCanHideMarker`) or shorten a line to a marker line
  (`Truncation.TruncationCanInventMarker`). `Truncation.TruncationInvisibleIff` gives the
  positions of lines for which either happens, and shows that nothing else does.
- Moving without MOVE. The comment at internal/imap/client.go:331-334 calls the stand-in of
  COPY, STORE and UID EXPUNGE safe. The library sends them in one go, so a COPY may fail while
  the other two succeed, and the messages are gone without a copy. `Mailbox.MoveIsSafeIff`
  says what a caller can check beforehand: a move is safe against every behaviour of the
  server exactly if MOVE is offered, or UIDPLUS is not and nothing is sent, or none of the
  named messages exists. Only injected messages can be affected.
- Recovery. The repository's README says that the interface is offline during recovery. The
  code only guarantees that it is never stuck offline: the startup probe signals online
  whatever the flag says, and a failure that loses the race for the flag signals nothing.
  Never being stuck needs a positive recovery delay, and `Recovery.NeverStuckIff` shows that
  this is exactly what it needs.

## Model

| member | source | states |
|---|---|---|
| Base64.DecodeEncode | internal/envelope/envelope.go:227-231 | decoding undoes encoding for byte strings of every length, padding included |
| Base64.DecodesIffWellFormed | internal/envelope/envelope.go:227-230 | a text decodes if and only if it is whole quanta of the alphabet padded only at the very end |
| Base64.GroupIsBigEndian | internal/envelope/envelope.go:66 | four symbols spell the same 24-bit number as the three octets they encode |
| Base64.SymbolsInOrder | internal/envelope/envelope.go:66 | the symbols are those of the standard alphabet in its order |
| Wrapping.WriteWrapped | internal/envelope/envelope.go:65-74 | the wrapping loop writes the text cut into lines of 76 characters, each ended by CR LF, for every length |
| Wrapping.WrapLines | internal/envelope/envelope.go:65-74 | every emitted line ends in CR LF and has 1 to 76 characters, all from the alphabet or padding |
| Wrapping.StripWrap | internal/envelope/envelope.go:221-226 | dropping CR, LF and space undoes wrapping |
| Wrapping.FitsIffWithinCapacity | internal/envelope/envelope.go:95-103 | for every budget, a wrapped body fits if and only if the packet is within the formula, with division that truncates toward zero |
| Wrapping.EditsKeepText | internal/envelope/envelope.go:221-226 | any sequence of insertions and deletions of CR, LF and space leaves the stripped text alone |
| Wrapping.ForeignCharacterSpoils | internal/envelope/envelope.go:221-230 | a character that is neither of base 64 nor CR, LF or space spoils a body |
| Envelope.Encode | internal/envelope/envelope.go:37-77 | encoding fails exactly for a missing address or packet, and otherwise returns the eight header fields, the empty line and the wrapped body |
| Envelope.EncodedText | internal/envelope/envelope.go:44-77 | an encoded message is, line by line, From, To, Date, Message-ID, MIME-Version, Content-Type, Content-Transfer-Encoding and the marker with their values, the empty line, and the wrapped body |
| Envelope.MessageIdForm | internal/envelope/envelope.go:42-90 | the message id is the identifier at the domain behind the last @ of the bare sender, or at rns-transport if there is none |
| Envelope.DecodeComposed | internal/envelope/envelope.go:140-216 | for a message with the encoder's header and any body, only the size limit and the base 64 text of the body decide the verdict |
| Envelope.RoundTrip | internal/envelope/envelope.go:140-216 | decoding an encoded packet returns the same packet, message id and bare addresses if it is at most MaxPacketSize long, and "ours but broken" if it is longer; addresses may carry display names |
| Envelope.MaxPacketValue | internal/envelope/envelope.go:103 | the size constant is 766266 |
| Envelope.RewrappedRoundTrip | internal/envelope/envelope.go:198-231 | however a body is re-wrapped, the packet comes back while the body stays within its limit |
| Envelope.NotTransportIffUnmarked | internal/envelope/envelope.go:140-191 | a message is "not ours" if and only if it lacks the marker, in its header if readable and in its raw text if not; no other defect makes it so |
| Envelope.ValidIff | internal/envelope/envelope.go:140-216 | decoding succeeds, with just these addresses, id and packet, if and only if the reader accepts the message, the marker is 1, the media type is application/octet-stream, both addresses are there and parse, the body is within its limit and carries a packet that is not empty |
| Envelope.CarriesIff | internal/envelope/envelope.go:218-246 | the body yields a packet exactly under one of the five encoding names, in any letter case and with white space around it, or under none, and for the plain ones the packet is the body |
| MailHeader.ReadWritten | internal/envelope/envelope.go:141 | a header written field by field reads back as the same fields and body |
| MailHeader.FoldedFieldReads | internal/envelope/envelope.go:141 | a field folded at a space reads as the unfolded field |
| MailHeader.ReadUnclosed | internal/envelope/envelope.go:141 | a header that ends with the input reads the same, with no body |
| MailHeader.RefusesBadLine | internal/envelope/envelope.go:141-149 | a line without a colon is refused after any good fields |
| MailHeader.RefusesBadStart | internal/envelope/envelope.go:141-149 | no input and an initial folded line are refused |
| MailHeader.BareLfEndsLine | internal/envelope/envelope.go:141 | a bare LF ends a header line as CR LF does |
| MailHeader.ReadFieldsPrefix | internal/envelope/envelope.go:141 | once the header is closed, what follows changes neither its fields nor whether it is malformed |
| Marker.ScanForMarker | internal/envelope/envelope.go:248-272 | the scanning loop reports the marker if and only if some line of the header carries it |
| Marker.ScanIsExact | internal/envelope/envelope.go:248-272 | the scan is true exactly when an unfolded line before the computed header end has the marker name, ignoring case, and value 1, after trimming |
| Marker.MarkerLineIff | internal/envelope/envelope.go:256-270 | a marker line is one that does not begin with a blank and is the name in any letter case, a colon and a 1, with nothing but white space around the name and the 1 |
| Octets.TrimCuts | internal/envelope/envelope.go:256-267 | trimming takes away the white space at both edges, all of it and nothing else |
| Octets.CharacterClasses | internal/envelope/envelope.go:256-267 | blanks, white space and the case folding of letters, by their codes |
| Marker.ScanPrefix | internal/envelope/envelope.go:249-255 | nothing behind the scan's own header block can change its answer |
| EnvelopeScan.EncodedPrefixIsMarked | internal/envelope/envelope.go:55-63 | every prefix of an encoded message that contains the marker line is recognised by the scan, for any header values that survive the wire |
| Literal.ReadLiteral | internal/imap/client.go:136-148 | on success the buffer is the literal cut at the limit, the source is fully drained, and oversized is reported exactly when it was; it fails exactly when the source breaks within the limit |
| Literal.LimitValue | internal/imap/client.go:32-39 | the size limit of a literal is 1064961 |
| Truncation.TruncationInvisible | internal/imap/client.go:18-39 | with the header, up to its first empty line, within 16 KiB, the cut literal gets the verdict of the whole if the message fits, the mail reader accepts it, or the scan's header end is in what is kept |
| Truncation.TruncationInvisibleIff | internal/imap/client.go:23-39 | for every message with such a header the verdicts agree if and only if the message fits, the mail reader accepts it, or the cut neither hides nor invents a marker, both told by where the marker lines and the cut-short line lie |
| Truncation.ScansAgreeIff | internal/envelope/envelope.go:248-272 | the scan of a cut message loses the marker exactly when every marker line of the header ends behind what the cut scan reaches and no cut-short line replaces it, and gains one exactly when a line that goes on behind the cut is shortened to a marker line |
| Truncation.TruncationCanHideMarker | internal/imap/client.go:28-31 | a message with bare LF line ends whose cut literal is "not ours" although the whole is "ours but broken" |
| Truncation.TruncationCanInventMarker | internal/imap/client.go:28-31 | a message with a four-octet header whose cut literal is "ours but broken" although the whole is "not ours" |
| EndToEnd.SentIsReceived | internal/imap/worker.go:188-232 | the receiver takes an encoded packet as the packet itself within the size bound and from and to the expected addresses, as not ours from others, and as broken beyond the bound, even when the literal is cut |
| EndToEnd.ClassIff | internal/imap/worker.go:188-215 | the class of any message: broken exactly if marked and not in good order, ours exactly if in good order between the expected addresses, not ours exactly if unmarked or in good order for somebody else |
| EndToEnd.UnmarkedIsPassed | internal/imap/worker.go:193-198 | a completed fetch skips all unmarked mail, and if that is all there is injects nothing and moves the watermark past it |
| Checkpoint.JsonRepo.Load | internal/inbox/repo.go:36-50 | a missing or corrupt file loads as the empty record, a read error as a failure |
| Checkpoint.JsonRepo.Save | internal/inbox/repo.go:52-65 | saving replaces the whole record or leaves the file as it was |
| Checkpoint.JsonRepo.GetCheckpoint | internal/inbox/repo.go:67-79 | the stored watermark for this folder and UIDVALIDITY, zero for any other key, or the read error |
| Checkpoint.JsonRepo.AdvanceCheckpoint | internal/inbox/repo.go:81-102 | success raises or resets the watermark to at least the given UID; failure changes nothing |
| Checkpoint.StoreIsGenerationMax | internal/inbox/repo.go:81-102 | after any mix of advances, failures and key changes the file holds the maximum of the successes since the last key change |
| Checkpoint.NeverRegresses | internal/inbox/repo.go:90-99 | from any file, the watermark of a key never regresses while the key is not changed, and failures alone change nothing |
| Inbound.ComputeSafe | internal/imap/worker.go:255-285 | the merge, sort and scan loop finds the largest allowed UID, whatever order the UIDs came in |
| Inbound.WatermarkSpec | internal/imap/worker.go:255-285 | with distinct UIDs the result is the maximum of lastUID and the processed and skipped UIDs strictly below the lowest failure; without failures it is the largest UID delivered |
| Inbound.TallyContents | internal/imap/worker.go:188-232 | what the handler has recorded after the messages it took: the processed, the skipped, and the lowest broken UID |
| Worker.FetchIsTally | internal/imap/client.go:169-209 | every fetch, however it ends, records the tally of the messages handed over before the first reply that stops it, and that reply's refusal; the pipe got just the packets of those |
| Worker.FetchOrderIndependence | internal/imap/worker.go:188-321 | for a fetch that nothing stops, the new checkpoint, the UIDs cleaned up and the multiset of packets in the pipe are the same for every order of the server's replies |
| Inbound.OrderIndependence | internal/imap/worker.go:188-321 | the same for every order of the messages that the handler is given |
| Inbound.SameAddressIff | internal/imap/worker.go:167-180 | two bare addresses compare equal exactly when their local parts are equal and their domains are equal ignoring case |
| Inbound.DisplayNameIsIgnored | internal/imap/worker.go:167-180 | an address compares as its bare form does, on either side |
| Mailbox.Server.UidExpunge | internal/imap/client.go:304-307 | only named messages that are flagged disappear |
| Mailbox.UidsToSet | internal/imap/client.go:311-317 | the set names exactly the listed UIDs |
| Mailbox.AnyPartMayBeReached | internal/imap/client.go:277-309 | a failed command may have reached any part of the messages it names, and no others |
| Mailbox.DeleteUids | internal/imap/client.go:277-309 | without UIDPLUS nothing changes; otherwise the named messages are flagged and then expunged, as far as the server's answers let it get |
| Mailbox.MoveUids | internal/imap/client.go:253-266 | the mailbox, the archive and the error after a move, for every answer of the server to every command, lost answers included |
| Mailbox.MoveIsSafeIff | internal/imap/client.go:331-340 | every message removed is in the archive, for all answers of the server, if and only if MOVE is offered, UIDPLUS is not, or no named message exists |
| Mailbox.RemovedIsArchived | internal/imap/client.go:253-266 | a removed message is in the archive if and only if MOVE was used or the COPY was carried out |
| Mailbox.CleanedMessage | internal/imap/client.go:253-309 | one message under cleanup, for every mode, capability and answer: when it stays, when it is flagged, and when it goes |
| Mailbox.CopiesInOrder | internal/imap/client.go:253-266 | messages are copied in the order in which they are named, each as it is |
| Mailbox.Cleanup | internal/imap/worker.go:336-355 | in every outcome only the named messages are flagged, removed or copied; all other messages and flags are unchanged, and nothing changes without the needed capability; with every answer Done the messages are gone, and in the archive after a move |
| Worker.FetchPass.OnMessage | internal/imap/worker.go:188-232 | the handler's whole effect on its tally and on the pipe, for each class of message and each answer of the pipe |
| Worker.FetchSince | internal/imap/client.go:150-209 | the fetch loop is the handler folded over the replies with a newer UID and a body, cut short by the first error |
| Worker.ItemsMeaning | internal/imap/client.go:175-195 | what is read from the items of a reply, in any order and with any others among them: it fails exactly if a body breaks off, and otherwise gives the last UID and the last body that is not NIL, cut at the limit |
| Worker.NoiseIsPassedOver | internal/imap/client.go:180-193 | items of other kinds and NIL bodies change nothing, wherever they stand |
| Worker.FetchAndProcess | internal/imap/worker.go:182-327 | what one fetch returns, injects, stores, removes and moves in every outcome; it cleans up the UIDs injected in this fetch and covered by the stored checkpoint, and only those, and nothing after an error or a failed save |
| Worker.FetchAccounts | internal/imap/client.go:169-207 | a fetch without an error accounts for every reply with a newer UID and a body, and for nothing else |
| Worker.PassedIffBody | internal/imap/client.go:185-203 | a reply that the watermark of a completed fetch passes was processed or skipped if and only if it has a body |
| Worker.NilBodyIsPassed | internal/imap/client.go:185-203 | a fetched message with a NIL body is passed by the watermark |
| Protocol.WatermarkIsSound | internal/imap/worker.go:250-285 | if what a fetch did not see at or below its watermark is settled, then everything at or below it is |
| Protocol.StepKeeps | internal/imap/worker.go:103-327 | every step of the server, the file and the worker keeps the invariant |
| NoLoss.NothingIsLost | internal/imap/worker.go:103-327 | over every run with crashes, failures and generation changes, a message passed by the stored or in-memory checkpoint was injected, is not ours, or was removed by another client; a broken one is never passed; none of ours leaves the mailbox uninjected by our doing |
| NoLoss.WatermarkSoundIffGapless | internal/imap/worker.go:246-257 | however a fetch ended, everything at or below its watermark is settled if and only if every recorded UID that the ceiling allows lies below every undelivered message still owed |
| NoLoss.AscendingIsGapless | internal/imap/worker.go:250-257 | delivery in ascending order leaves no gap |
| NoLoss.GapLosesMail | internal/imap/worker.go:246-248 | with delivery 8, then 10 refused, then nothing, the checkpoint becomes 8 and message 5 is lost |
| NoLoss.KindOfWhole | internal/imap/client.go:23-39 | wherever truncation is invisible, the class of the fetched literal is the class of the whole message |
| ExactlyOnce.InjectedExactlyOnce | internal/imap/worker.go:103-165 | in fault-free runs, over any number of fetches and reconnects, nothing is injected twice and every valid message passed was injected exactly once, unless another client removed it first |
| ExactlyOnce.RefetchIsEmpty | internal/imap/worker.go:287-327 | after a completed fetch an immediate second one can be handed only messages that arrived since the first began or last took in new mail |
| CatchUp.OneSessionCatchesUp | internal/imap/worker.go:103-327 | from every state that satisfies the invariant one crash, one session and one complete fetch inject every valid message of the generation still owed, and take the checkpoint past everything before the first broken message and not past that one |
| CatchUp.AlwaysCatchesUp | internal/imap/worker.go:73-165 | so it is after every run with crashes, failures and generation changes |
| FetchRefinement.DeliverIsFold | internal/imap/client.go:169-209 | the fetch loop over any replies, stale, bodiless, reordered or breaking off, is the handler folded over the messages they hand over |
| FetchRefinement.StepsAreFold | internal/imap/worker.go:188-232 | the protocol's steps of a fetch, with arrivals, withdrawals, damage and a new generation among them, give that fold's tally and error, and for every injection the packet of that message, in order |
| FetchRefinement.FetchIsRun | internal/imap/worker.go:182-354 | a call of the fetch method, whatever the form of the replies and whatever happens to the mailbox and the file before the fetch ends, is a run of the protocol, given that the messages handed over are ones the server has: the same file, mailbox contents, result and error, and for every injected message its own packet in the pipe, once and in order |
| FetchRefinement.OpenIsStep | internal/inbox/repo.go:67-79 | opening a session is reading the checkpoint: a read error opens none, and otherwise the session begins at the stored watermark |
| IdleLoop.NoLostWakeUp | internal/imap/worker.go:106-113 | in every run an EXISTS that no fetch has begun after is covered by the token or by a fetch still to start in this iteration, unless the session ended or polls |
| IdleLoop.FallBackExactlyAtThree | internal/imap/worker.go:375-385 | polling starts exactly at three idle errors in a row with no wake-up or clean return between them |
| IdleLoop.WakingMakesFetchDue | internal/imap/worker.go:369-398 | a wait that ends in a wake-up or a clean return is followed by a fetch, one that ends in an error is not |
| IdleLoop.TrailingErrorsIff | internal/imap/worker.go:375-398 | the count of errors in a row is the length of the longest tail of errors |
| IdleLoop.FetchesAreWakings | internal/imap/worker.go:386-397 | there is one fetch for each wait that ended in a wake-up or a clean return |
| IdleLoop.Loop | internal/imap/worker.go:357-399 | the loop goes on, falls back, stops or ends exactly when its rounds say so, and fetches once for every wait that ended without an error |
| Backoff.Run | internal/imap/worker.go:73-96 | the sleep after session i is min(base * 2^d, max) for the d dial failures that end at session i-1, within bounds and without overflow of 64 bits |
| Backoff.TrailingDialsIff | internal/imap/worker.go:90-94 | the count of dial failures in a row starts anew after any other end of a session |
| Backoff.DelayIsMonotone | internal/imap/worker.go:90-94 | the delay never shrinks while dial failures go on, and stays at the maximum once there |
| Aggregator.OnlineAggregator.constructor | internal/online/aggregator.go:36-46 | a new aggregator is offline and has said so once |
| Aggregator.OnlineAggregator.SetImap | internal/online/aggregator.go:48-54 | one signal updates its component and reports a change of the combined state |
| Aggregator.OnlineAggregator.SetSmtp | internal/online/aggregator.go:56-62 | one signal updates its component and reports a change of the combined state |
| Aggregator.LogIsDestutteredStream | internal/online/aggregator.go:36-75 | for every interleaving of signals the callback log is the stutter-free form of the combined stream, so it starts offline, alternates, and ends in the current state |
| Smtp.Connect | internal/transport/smtp.go:44-102 | a connection is made exactly when each of its stages succeeds in an unexpired context |
| Smtp.EveryStageCounts | internal/transport/smtp.go:44-149 | a connection needs each of its five stages and a submission each of its ten; if one goes wrong the failure is plain and the relay keeps nothing |
| Smtp.Send | internal/transport/smtp.go:104-149 | the error class for every combination of stage outcomes, and what the relay has accepted afterwards |
| Smtp.UnknownIffUndecidable | internal/transport/smtp.go:132-145 | the outcome is reported unknown exactly when two servers the client cannot tell apart differ on keeping the message, and success exactly when all such servers kept it |
| Smtp.Probe | internal/transport/smtp.go:154-166 | a probe succeeds exactly when it connects, and delivers nothing |
| Outbound.HandlePacket | internal/pipe/handler.go:50-106 | an incomplete request sends nothing; otherwise the composed message goes through the retry loop, and recovery is requested exactly on an unknown outcome or exhausted retries |
| Handler.PacketHandler.HandlePacket | internal/pipe/handler.go:50-119 | the whole callback: what the relay accepts, and that it signals offline and starts a recovery task exactly if the outcome calls for it, recovery is enabled and none is running |
| Outbound.SendWithRetries | internal/pipe/handler.go:66-105 | at most three sends, the waits of one and two seconds after plain failures, and how often the relay accepts the message |
| Outbound.AtMostOnce | internal/pipe/handler.go:66-103 | for every sequence of stage outcomes nothing is sent after success or an unknown outcome and the server keeps the packet at most once, exactly once on success and never after a plain last failure |
| Outbound.RecoveryDueIff | internal/pipe/handler.go:66-103 | recovery is due exactly if an attempt sent the whole message and lost the answer, or all three were made and surely failed |
| Outbound.Recover | internal/pipe/handler.go:140-158 | probe k waits min(base * 2^(k-1), max) and the loop ends at the first success or at cancellation |
| Handler.PacketHandler.BeginRecovery | internal/pipe/handler.go:112-119 | only the caller that sets the flag signals offline and starts a task, and none does when the delay is not positive |
| Handler.PacketHandler.StartupProbe | internal/pipe/handler.go:125-136 | a good probe signals online whatever the flag says; a bad one enters recovery |
| Handler.PacketHandler.RecoveryTask | internal/pipe/handler.go:140-158 | the task signals online exactly when a probe succeeds before cancellation, and clears the flag however it ends |
| Recovery.AtMostOneHolder | internal/pipe/handler.go:112-141 | for any number of interleaved threads at most one holder exists and the flag is set exactly while one does |
| Recovery.PacketBeginsRecovery | internal/pipe/handler.go:66-119 | a packet that calls for recovery, with the flag free, takes SMTP offline, sets the flag and leaves a task waiting to probe |
| Recovery.PacketFindsRecovery | internal/pipe/handler.go:112-119 | with the flag taken or recovery off it changes nothing |
| Recovery.NeverStuckIff | internal/pipe/handler.go:112-158 | in every uncancelled run with SMTP offline there is an open startup probe or a holder yet to signal online, if and only if recovery is enabled |
| Recovery.CanAlwaysComeBack | internal/pipe/handler.go:140-158 | from every reachable uncancelled state at most five steps of the bridge's own threads bring SMTP online once the server answers |

## Left out

- NoLoss.NothingIsLost: assumes delivery without a gap where an inject failure ends a fetch, and a body in every fetched message, because the code loses mail otherwise, as shown above. Mail that arrives during a fetch may be handed over by it, but then with all that arrived before it; a server that completes a fetch with a late message and without an earlier late one is not part of the model.
- Truncation.TruncationInvisible: leaves out messages that the mail reader refuses and whose scan runs behind the cut, because the statement is false for some of them; the exact condition is TruncationInvisibleIff.
- FetchRefinement.FetchIsRun: other clients are still between the end of the fetch and the end of its cleanup, and a completed fetch has a body for every message, as said above.
- Checkpoint.StoreIsGenerationMax: starts from a missing file and has no step that damages it; the step system does have one.
- IdleLoop.Loop: the context and the idle command are inputs, one outcome a round; the concurrent channel is in the step system of the same module.
- Recovery.NeverStuckIff: the online callback is always set, as the program sets it; a handler without one never signals at all.
- The readers of addresses, media types and quoted-printable are library code and stay uninterpreted; the round trip asks that the address reader return a bare address unchanged.
- White space and letter case beyond ASCII: trimming removes ASCII white space only, and names and domains are compared in ASCII, so the Unicode spaces and the long s that the Go functions also accept are not modelled.
- Sockets, TLS, dialling, the choice of authentication and deadlines: only their outcomes appear, as stages that succeed or fail.
- The session set-up and the poll loop (internal/imap/worker.go:103-165 and 401-424) appear as steps of the protocol, not as methods; shutdown is a crash or a cancellation step.
- The log warning about a stuck checkpoint, and all other logging.
- The pipe's own retry loop (internal/pipe/inject.go): its answer is an input of the handler, and success means one accepted packet.
- JSON syntax and the file system: the file is missing, corrupt or a record, and a save replaces all of it or nothing.
- Time: delays are numbers, and which of two ready events comes first is left open.
- Message ids and dates: given to the encoder as text without line ends.
- Configuration loading: its validated bounds appear as preconditions.
- Several folders: the model keeps the one configured folder, as the file keeps one record.

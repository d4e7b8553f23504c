# Verified model of the Link Labs host library

The host library talks to a radio module over a serial line and moves files and firmware through it.
This project models its four protocol parts in Dafny and proves what they promise.

- **Symphony file transfer** (`src/ll_ifc_ftp.c`). A client in three states (IDLE, SEGMENT, APPLY) receives
  the segments of a file over a lossy downlink, keeps a bitmap of what it has, asks for what is missing,
  checks the CRC of the stored file and applies it on the server's order. `FtpClient` is the client as a
  class: the 75-word bitmap and the 46-byte transmit buffer are arrays that its methods fill in place.
  `FtpProtocol` is its transition function. Each method is proved to do to the object, to the stored file
  and to the sequence of calls on the host exactly what that function says, and the theorems about whole
  runs (`FtpInvariant`, `FtpReassembly`, `FtpFileCheck`, `FtpApplySafety`, `FtpDownlink`, `FtpUplinks`,
  `FtpStored`, `FtpHonesty`, `FtpRetry`, `FtpRepair`, `FtpTransfer`, `FtpCausality`, `FtpRefusals`,
  `FtpFileOpen`, `FtpEndToEnd`) are proved about it. Everything the host answers, each
  return code, each clock reading and the content of an opened file, comes from an arbitrary oracle.
  `FtpReference` tells what each message does in each state once more, call by call and in numbers, and
  proves that the transition function does exactly that.
- **Host interface framing** (`src/ll_ifc.c`). `Wire` is the serial line: any read may fail, lose bytes and
  leave anything behind. `HostInterface` holds the methods that send and receive frames,
  `HostInterfaceRuns` the round trips, acceptance, error detection and whole conversations.
- **XMODEM sender** (`src/ll_ifc_xmodem.c`), in `Xmodem` and `XmodemRuns`, with the packet format of
  section 8 of Forsberg's XMODEM/YMODEM Protocol Reference.
- **Check sums and codecs** (`src/ll_ifc_utils.c`, `src/ifc_struct_defs.c`), in `CyclicCheck16`,
  `CyclicCheck32`, `Clock` and `StructCodecs`.

`dafny verify dfyconfig.toml` checks the project.

## Assumptions

- The open callback turns away files that are empty or larger than 256800 bytes (2400 segments of 107
  bytes); the client itself does not look, and its bitmap has room for no more.
- No segment message carries the number 2400. The guard at `src/ll_ifc_ftp.c:149` lets it through, and its
  word lies one past the bitmap (`SegmentBitmap.TrackGuardExact`). Every other number, larger ones
  included, is allowed.
- A segment message that passes the length check has at least 21 bytes. `src/ll_ifc_ftp.c:113` asks for
  17, after which the payload length at line 136 would wrap.
- `ceil` on doubles at `src/ll_ifc_ftp.c:306` is exact for the sizes above.
- A write or an open that fails leaves the stored file as it was. An open that succeeds may leave any
  content.
- A clock on the framing and XMODEM side eventually passes every point in time. On the file-transfer side
  only `FtpRetry.UplinksAreSpaced` asks anything of the clock: that it does not run backwards.
- A line read that fails returns a negative value. For XMODEM, such a read may leave an old answer in the
  caller's byte but does not write a new one there.

## Where the code differs from what one would expect

- The CRC of the stored file is taken from byte 4 up to 16 + size, not up to size: 16 bytes behind the
  file take part in it. `FtpFileCheck.TailDecides` shows that they decide, and
  `FtpTransfer.TransferSucceedsExactly` says for which files a transfer then succeeds.
- The downlink is not always off in IDLE: the ways from APPLY to IDLE and the failed way from SEGMENT to
  APPLY go to IDLE when the close is refused, and then the downlink stays on. `FtpDownlink.RunIsDisciplined`
  gives the exact condition and `FtpRefusals.DownlinkCanStayOn` a run that ends so.
- A refused announcement is answered with a NAK that names the client's own file, not the refused one
  (`src/ll_ifc_ftp.c:344-349`): during a transfer, the server reads a refusal of the very file that was
  accepted. `FtpRefusals.RefusalNamesRefusedExactly` says when the two agree,
  `FtpRefusals.RefusalNamesFileInTransfer` that they never do in SEGMENT and APPLY, and
  `FtpRefusals.RefusalCanNameAnother` gives a run.
- A cancel in SEGMENT is dropped when the close is refused: the client stays in SEGMENT.
  `FtpRefusals.CancelNeedsClose` gives the condition, `FtpRefusals.CancelCanBeDropped` a run.
- After a failed check the file is closed and opened again. If the reopen is refused and then the close on
  the way to IDLE is refused too, the client stays in SEGMENT and goes on writing to a file that is not
  open: `FtpFileOpen.RunKeepsFileOpen` and `FtpFileOpen.RestartStrands` give the condition,
  `FtpFileOpen.WritesToClosedFile` a run.
- The CRC of a message from the server starts behind its type byte (`src/ll_ifc_ftp.c:140`), so that an
  announcement with one wrong byte is obeyed as a cancel (`FtpMessages.TypeIsUnprotected`); damage
  anywhere else is found out (`FtpMessages.DamageIsRejected`).
- A chunk that cannot be read is left out of the CRC instead of ending the check
  (`FtpFileCheck.FileCrcReadsAll`), so that a check can pass although a read failed
  (`FtpRefusals.FailedReadCanPass`). `FtpFileCheck.VerifyFileTrace` says for every host when it passes.
- `recv_packet` ignores whether the reads of payload and checksum succeeded. What it returns is what was
  read exactly as far as these reads did not fail (`HostInterface.RecvPacket`);
  `HostInterfaceRuns.UnreadPayloadIsAccepted` is a line on which the payload was never read.

## Model

| member | source | states |
|---|---|---|
| `FtpReassembly.RunReassembles` | src/ll_ifc_ftp.c:551-641 | in every run, with messages lost, repeated or reordered and any callback failing, each segment whose bit is set is stored at 107 times its number and equals the server's |
| `FtpReassembly.ApplyHoldsTheFile` | src/ll_ifc_ftp.c:466-480 | in APPLY the stored bytes are the server's file over the announced size |
| `FtpEndToEnd.AppliedIsTheFile` | src/ll_ifc_ftp.c:719-734 | whenever apply is called after genuine segments, the store holds the server's file under the applied id and version, over the announced size |
| `FtpEndToEnd.StepApplies` | src/ll_ifc_ftp.c:719-721 | apply is called only in APPLY, first of all calls of the step, with the client's own id, version and size |
| `FtpEndToEnd.AppliesExactlyWhenOrdered` | src/ll_ifc_ftp.c:719-734 | a step calls apply if and only if the client is in APPLY and the message is the order to apply the file with its own id and version |
| `FtpReassembly.MsgStepReassembled` | src/ll_ifc_ftp.c:776-796 | one message keeps the stored segments equal to the server's, whatever the host answers |
| `FtpApplySafety.AppliedOnlyWhenReady` | src/ll_ifc_ftp.c:719-734 | whenever apply is called, that file was opened, then every segment of it written, then its header and CRC checks passed, then it was closed, nothing else was opened or applied since that open, and nothing was written since the check |
| `FtpApplySafety.AppliesAreSeparated` | src/ll_ifc_ftp.c:643-684 | between any two apply calls all of that happened afresh, whatever the first one returned |
| `FtpApplySafety.RunIsSafe` | src/ll_ifc_ftp.c:551-764 | the call history supports the bitmap in SEGMENT and readiness in APPLY, in every run |
| `FtpTransfer.TransferSucceedsExactly` | src/ll_ifc_ftp.c:482-641 | announcement, then all segments in any order with repetitions, no failing call: APPLY is reached with exactly the server's file in the store if and only if header fields and CRC are right as the file lies over what the open left in the store; for every acceptable size |
| `FtpTransfer.WellFormedByItself` | src/ll_ifc_ftp.c:406-429 | for a file that holds its whole header that means: its own header fields match, and its CRC covers its bytes from 4 on and the 16 bytes behind it |
| `FtpTransfer.RunIsDeliver` | src/ll_ifc_ftp.c:776-796 | delivering messages is the run of the client on the bytes of those messages |
| `FtpTransfer.EncodedStep` | src/ll_ifc_ftp.c:103-144 | an encoded message, received, acts as that message |
| `FtpTransfer.WrittenHolds` | src/ll_ifc_ftp.c:466-480 | writing segments of a file puts each where it belongs and touches nothing behind the file |
| `FtpTransfer.ApplyIsReachable` | src/ll_ifc_ftp.c:579-602 | for every id and version, and a host that answers every call with success, two messages lead from the start to APPLY |
| `FtpRepair.RepairCompletes` | src/ll_ifc_ftp.c:579-602 | with fewer than 16 missing the request lists exactly these; once they arrived, in any order and repeated, and were written, the file is read back in the last step and in none before, whatever the host then answers; with a host that does what it is told header and CRC decide between APPLY and starting over |
| `FtpRepair.DeliveryCompletes` | src/ll_ifc_ftp.c:579-602 | the same for any number of missing segments |
| `FtpRepair.RepairProgresses` | src/ll_ifc_ftp.c:579-582 | as long as the writes succeed and something is missing the client stays in SEGMENT with exactly the old and the new segments, and reads nothing back |
| `FtpRepair.RepairDeliversTheFile` | src/ll_ifc_ftp.c:262-285 | a request answered with genuine segments leaves the server's file in the store, in APPLY |
| `FtpTransfer.RepairHappens` | src/ll_ifc_ftp.c:262-285 | for every id and version, with such a host, a run in which that happens |
| `FtpRepair.FinishOutcome` | src/ll_ifc_ftp.c:583-601 | with a host that does what it is told, a complete transfer goes to APPLY exactly when the check passes, and otherwise to SEGMENT with everything missing |
| `FtpRepair.FinishExact` | src/ll_ifc_ftp.c:583-601 | for every host: a complete transfer is read back, and goes to APPLY if and only if those reads are a passed check and the close that follows succeeds |
| `FtpInvariant.ReachableInv` | src/ll_ifc_ftp.c:776-796 | in every reachable state retries are at most 5, SEGMENT has a segment missing and APPLY has none |
| `FtpInvariant.ReachableMissing` | src/ll_ifc_ftp.c:766-774 | in every reachable state the missing list has 1 to num_segs entries in SEGMENT and none in APPLY |
| `FtpInvariant.MsgStepKeepsInv` | src/ll_ifc_ftp.c:482-764 | each message keeps that invariant |
| `FtpInvariant.StartSegmentEffect` | src/ll_ifc_ftp.c:333-352 | a new transfer replaces the whole client state if the open succeeds, and otherwise changes only the time of the last uplink |
| `FtpFileCheck.FileCrcReadsAll` | src/ll_ifc_ftp.c:415-440 | the CRC loop reads every byte from 4 to 16 + size once, in order, in chunks of 1 to 16, and its result is the one CRC of all the reads that succeeded |
| `FtpFileCheck.FileCrcIsOneShot` | src/ll_ifc_ftp.c:415-440 | when no read fails the chunked CRC is the CRC of the whole range |
| `FtpFileCheck.VerifyFileTrace` | src/ll_ifc_ftp.c:442-464 | the check only reads, and for every host it passes if and only if its reads bear it out: four good header reads that match, the whole range covered, and the CRC of what could be read |
| `FtpFileCheck.VerifyFileExact` | src/ll_ifc_ftp.c:369-464 | with reads that succeed the check passes if and only if size, id and version in the header match and the CRC of bytes 4 to 16 + size is the one in the header |
| `FtpFileCheck.TailDecides` | src/ll_ifc_ftp.c:422-429 | of two stores that differ in one byte of the last 16 bytes of that range at most one passes |
| `FtpDownlink.RunIsDisciplined` | src/ll_ifc_ftp.c:319-352 | in every reachable state the downlink was last switched on if and only if the state is not IDLE or the last close was refused |
| `FtpDownlink.DownlinkFollowsState` | src/ll_ifc_ftp.c:506-549 | if no close was ever refused the downlink is on exactly outside IDLE |
| `FtpFileOpen.RunKeepsFileOpen` | src/ll_ifc_ftp.c:589-601 | in every run, in SEGMENT, the file is open if and only if no restart failed since it was opened: closed, reopen refused, close refused |
| `FtpFileOpen.RestartStrands` | src/ll_ifc_ftp.c:589-601 | a restart leaves the client in SEGMENT without its file if and only if exactly that happens |
| `FtpFileOpen.StrandedGoesOnWriting` | src/ll_ifc_ftp.c:579-582 | and then the next segment is written to a file that is not open |
| `FtpFileOpen.WritesToClosedFile` | src/ll_ifc_ftp.c:579-601 | for every id and version a run of three messages in which that happens |
| `FtpDownlink.RefusedCloseLeavesDownlinkOn` | src/ll_ifc_ftp.c:643-657 | a cancel in any APPLY state with a close refused by any code goes to IDLE with the downlink on |
| `FtpRefusals.DownlinkCanStayOn` | src/ll_ifc_ftp.c:643-657 | a run of three messages, for every id and version, that ends in IDLE with the downlink on |
| `FtpRefusals.CancelNeedsClose` | src/ll_ifc_ftp.c:567-570 | a cancel of its file in SEGMENT is obeyed if and only if the close succeeds; otherwise the client is as before |
| `FtpRefusals.CancelCanBeDropped` | src/ll_ifc_ftp.c:512-521 | a run of announcement and cancel that is still in SEGMENT |
| `FtpRefusals.RefusalNamesRefusedExactly` | src/ll_ifc_ftp.c:344-349 | a refusal names the file that was refused if and only if that has the client's own id and version |
| `FtpRefusals.RefusalNamesFileInTransfer` | src/ll_ifc_ftp.c:228-247 | in SEGMENT and APPLY every refusal names the file in transfer, and never the refused one |
| `FtpRefusals.RefusalCanNameAnother` | src/ll_ifc_ftp.c:333-352 | for any two files a run in which the second is refused in the name of the first |
| `FtpRefusals.FailedReadCanPass` | src/ll_ifc_ftp.c:431-435 | a run that reaches APPLY although a read failed during the only check of the file |
| `FtpCausality.DeliverIsCausal` | src/ll_ifc_ftp.c:776-796 | two hosts that answer alike up to the last call of a run give the same run |
| `FtpUplinks.RunUplinksAreIntact` | src/ll_ifc_ftp.c:228-298 | every buffer ever uplinked has length 14 to 44, bytes 1 to 4 are the CRC of bytes 5 on, and it names exactly the file that was opened last; the zeros of a reset client stand only in a refused announcement, sent when no file is open or its close was asked for |
| `FtpUplinks.ReachableRequestIsExact` | src/ll_ifc_ftp.c:604-611 | a request sent in any reachable state names exactly the missing segments when fewer than 16 are, and carries the code for everything otherwise |
| `FtpHonesty.RunIsHonest` | src/ll_ifc_ftp.c:228-367 | in every run each uplink is borne out when sent: an acknowledged announcement follows the successful open of the file it names, a refusal directly follows a failed open (of which file it does not tell), a transfer is acknowledged only when every segment was stored, checked and closed, a request asks for exactly the segments not stored, by number below 16 and for everything from 16 on, and an apply is acknowledged directly after it succeeded, every time |
| `FtpHonesty.RequestTruthful` | src/ll_ifc_ftp.c:262-285 | a request sent in SEGMENT asks for exactly the segments that the calls so far leave unstored |
| `FtpStored.RunTracks` | src/ll_ifc_ftp.c:466-480 | in every run, in SEGMENT, the bitmap is exactly the set of segments written with success since the file was opened or last read back |
| `FtpRetry.TickEffect` | src/ll_ifc_ftp.c:612-638 | a tick does nothing while less than 16 whole seconds have passed; then it sends one counted uplink; after the fifth it ends the transfer, in SEGMENT if and only if the close succeeds |
| `FtpRetry.TickSendsExactly` | src/ll_ifc_ftp.c:612-626 | for normalised times a tick sends an uplink if and only if fewer than 5 retries were made and at least 16,000,000,000 nanoseconds have passed |
| `FtpRetry.TicksSendAtMostFive` | src/ll_ifc_ftp.c:735-761 | any number of ticks sends at most 5 minus retry_count uplinks, and exactly that many when the transfer is given up |
| `FtpRetry.UplinksAreSpaced` | src/ll_ifc_ftp.c:612-626 | with a monotonic clock k uplinks in a run of ticks take at least 16 k seconds |
| `FtpRetry.SilenceEndsTheTransfer` | src/ll_ifc_ftp.c:612-638 | when every tick comes at least 16 seconds after the last uplink and closes succeed, the tick after the fifth retry resets the client |
| `FtpClient.Client.MsgProcess` | src/ll_ifc_ftp.c:776-796 | the object, the store, the host's call log and the returned code after one call are those of the transition function |
| `FtpEndToEnd.Serve` | src/ll_ifc_ftp.c:776-796 | the object, handed any sequence of inputs, goes through exactly the run of these inputs |
| `FtpClient.Client.Init` | src/ll_ifc_ftp.c:798-823 | every field back to its initial value, the transmit buffer to zeros |
| `FtpClient.Client.SendUplink` | src/ll_ifc_ftp.c:72-80 | hands over the first len bytes of the buffer and takes the time |
| `FtpClient.Client.Reset` | src/ll_ifc_ftp.c:83-87 | takes the time and clears the retry count |
| `FtpClient.Client.FileReopen` | src/ll_ifc_ftp.c:90-101 | close and, only if that succeeds, open |
| `FtpClient.Client.AckGenerate` | src/ll_ifc_ftp.c:228-298 | the three 14-byte acknowledgements, filled in place: type, CRC of the rest, code, id, version |
| `FtpClient.Client.AckSegsRequestGenerate` | src/ll_ifc_ftp.c:262-285 | the request for the missing segments, within the 46-byte buffer |
| `FtpClient.Client.NewFileInitialize` | src/ll_ifc_ftp.c:300-312 | file fields set, bitmap cleared, acknowledgement sent |
| `FtpClient.Client.IdleStart` | src/ll_ifc_ftp.c:319-331 | downlink switched off only when the close succeeds |
| `FtpClient.Client.SegmentStart` | src/ll_ifc_ftp.c:333-352 | a refused open is answered with a NAK and starts nothing |
| `FtpClient.Client.ApplyStart` | src/ll_ifc_ftp.c:354-367 | acknowledges the segments only when the close succeeds |
| `FtpClient.Client.VerifyFileInfo` | src/ll_ifc_ftp.c:369-413 | four reads, stopped by the first that fails, and the comparison of the header |
| `FtpClient.Client.ComputeFileCrc` | src/ll_ifc_ftp.c:415-440 | the loop over the stored file refines the recursive CRC |
| `FtpClient.Client.VerifyFile` | src/ll_ifc_ftp.c:442-464 | header check and CRC comparison |
| `FtpClient.Client.WriteSegment` | src/ll_ifc_ftp.c:466-480 | tracks the segment only when the write succeeds |
| `FtpClient.Client.TransitionOutOfSegment` | src/ll_ifc_ftp.c:506-549 | the three ways out of SEGMENT, each with its failing callback |
| `FtpClient.Client.IdleProcess` | src/ll_ifc_ftp.c:482-504 | in IDLE only an announcement or a segment starts a transfer |
| `FtpClient.Client.SegmentProcess` | src/ll_ifc_ftp.c:551-641 | every branch of the SEGMENT state |
| `FtpClient.Client.ApplyTransitionToIdle` | src/ll_ifc_ftp.c:643-684 | goes to IDLE whatever the close returns |
| `FtpClient.Client.ApplyProcess` | src/ll_ifc_ftp.c:686-764 | every branch of the APPLY state |
| `FtpReference.InIdle` | src/ll_ifc_ftp.c:482-504 | in IDLE announcements and segments are taken and everything else is INVALID_VALUE and changes nothing |
| `FtpReference.StartSegmentAnnounced` | src/ll_ifc_ftp.c:333-352 | taking one: the calls one by one, the acknowledgement or refusal byte by byte, the new client and the code, by whether the host opens the file |
| `FtpReference.OutsideIdle` | src/ll_ifc_ftp.c:562-577 | in SEGMENT and APPLY those of other files are taken; announcements of the own file, cancels of others and acknowledgements are NO_ACTION and change nothing |
| `FtpReference.Cancelled` | src/ll_ifc_ftp.c:567-570 | a cancel of the own file: close, downlink off if that succeeds, and the state and code that follow |
| `FtpReference.AppliedInApply` | src/ll_ifc_ftp.c:719-734 | the order to apply in APPLY: apply, its acknowledgement exactly when it succeeded, close, a fresh client, and ERROR when apply or close was refused |
| `FtpReference.NotApplied` | src/ll_ifc_ftp.c:604-611 | other orders to apply: nothing in APPLY, the request for what is missing in SEGMENT |
| `FtpReference.LateSegment` | src/ll_ifc_ftp.c:707-713 | a segment of the own file in APPLY takes the time, clears the retries and does nothing else |
| `FtpReference.SegmentStored` | src/ll_ifc_ftp.c:577-582 | a segment of the own file in SEGMENT: the write at 107 times its number, what it leaves in the store and in the bitmap, and the file finished exactly when none below num_segs is missing |
| `FtpReference.FinishedWell` | src/ll_ifc_ftp.c:583-588 | after a passed check: close, and by its result APPLY with an acknowledgement or IDLE with ERROR |
| `FtpReference.FinishedBadly` | src/ll_ifc_ftp.c:589-601 | after a failed check: bitmap and retries cleared, close, open, and what follows each refusal |
| `FtpReference.Ticked` | src/ll_ifc_ftp.c:612-638 | a tick in SEGMENT and APPLY: the calls, the uplink byte by byte, the client and the code, by elapsed time and retries |
| `FtpMessages.ParseRxMsg` | src/ll_ifc_ftp.c:103-144 | accepts exactly what the layout, the type range and the CRC allow, with the right error otherwise |
| `FtpMessages.ParseExactly` | src/ll_ifc_ftp.c:103-144 | under 17 bytes INVALID_VALUE, a type from 8 on OOR, a wrong CRC ERROR; else each field from its index, numbers low byte first |
| `FtpMessages.TypeCodes` | src/ll_ifc_ftp.c:38-49 | the eight types are the numbers 0 to 7 |
| `FtpMessages.ReadFields` | src/ll_ifc_ftp.c:122-137 | the fields are those at the layout's indices, counters and payload of segments alone |
| `FtpMessages.ParseOfEncode` | src/ll_ifc_ftp.c:103-144 | every message a server can form is read back with all its fields |
| `FtpMessages.DamageIsRejected` | src/ll_ifc_ftp.c:139-143 | one wrong byte anywhere behind the type byte, in CRC, fields or payload, is rejected as an error |
| `FtpMessages.TypeIsUnprotected` | src/ll_ifc_ftp.c:139-143 | a wrong type byte is not: with the type of any message but a segment the message is accepted as one of that type, with its own id, version and size |
| `Bytes.WordIsLittleEndian` | src/ll_ifc_ftp.c:25-30 | the value of a 32-bit field is that of its four bytes, the first one lowest |
| `FtpMessages.UplinkIsIntact` | src/ll_ifc_ftp.c:228-298 | length, CRC, id and version of every generated uplink stand in their places |
| `FtpMessages.UplinkLayout` | src/ll_ifc_ftp.c:228-298 | type, CRC, code, id, version and the listed numbers at their indices |
| `FtpMessages.RequestIsExact` | src/ll_ifc_ftp.c:262-285 | with n missing: n below 16 gives code ACK_NAK_SEGMENT, length 14 + 2 n and a list that reads back as exactly the missing numbers; otherwise code ACK_NAK and length 14 |
| `SegmentBitmap.SegNumTrack` | src/ll_ifc_ftp.c:147-154 | adds exactly that number to the received set; numbers above 2400 change nothing |
| `SegmentBitmap.TransferIsComplete` | src/ll_ifc_ftp.c:156-188 | true if and only if 0 to num_segs - 1 were all received |
| `SegmentBitmap.GetMissingSegs` | src/ll_ifc_ftp.c:190-226 | the number of missing segments and their list in the buffer, or 0xFFFF from the seventeenth on; the first 14 bytes stay |
| `SegmentBitmap.NumMissingSegsGet` | src/ll_ifc_ftp.c:766-774 | num_segs minus the received ones below it; -1 without a file; the buffer is untouched |
| `SegmentBitmap.ReceivedOfSetBit` | src/ll_ifc_ftp.c:151-152 | setting a bit adds one number to the set and leaves all others |
| `SegmentBitmap.MissingExact` | src/ll_ifc_ftp.c:199-223 | the list holds exactly the numbers not received, strictly increasing |
| `SegmentBitmap.MissingCount` | src/ll_ifc_ftp.c:225 | missing and received numbers add up to num_segs |
| `SegmentBitmap.SegmentListRoundTrip` | src/ll_ifc_ftp.c:214-219 | the two-byte list reads back as the numbers |
| `CyclicCheck16.ChecksumIsCrc16` | src/ll_ifc.c:668-692 | the byte-wise checksum is the bit-by-bit CRC-16, for every start value and every input |
| `CyclicCheck16.ByteFormIsBitForm` | src/ll_ifc.c:673-680 | one step of the byte-wise form is eight shifts by the generator |
| `CyclicCheck16.ComputeChecksum` | src/ll_ifc.c:668-692 | the two loops compute the checksum of header and payload joined |
| `CyclicCheck16.ComputeCrc16` | src/ll_ifc_utils.c:4-22 | the nested loops compute the CRC-16, whether plain char is signed or not |
| `CyclicCheck16.Crc16Concat` | src/ll_ifc_utils.c:9-20 | the CRC of a joined string continues from the CRC of its first part |
| `CyclicCheck16.Crc16Xor` | src/ll_ifc_utils.c:9-20 | the CRC is linear over exclusive or |
| `CyclicCheck16.NonzeroStaysNonzero` | src/ll_ifc_utils.c:9-20 | zero bytes behind a nonzero state never bring it to zero |
| `CyclicCheck16.BurstIsNonzero` | src/ll_ifc.c:673-690 | a string that is nonzero only within 16 consecutive bits has a nonzero CRC |
| `CyclicCheck16.BurstChangesCrc16` | src/ll_ifc.c:673-690 | every nonempty error within 16 consecutive bits changes the CRC |
| `CyclicCheck16.CheckValue16` | src/ll_ifc_utils.c:4-22 | the CRC of the digits 1 to 9 is 0x31C3 |
| `CyclicCheck32.ComputeCrc32` | src/ll_ifc_utils.c:24-38 | the loops compute the CRC-32, continued from the given value |
| `CyclicCheck32.Crc32Chains` | src/ll_ifc_utils.c:28-37 | the CRC of a joined string is the CRC of the second part continued from that of the first |
| `CyclicCheck32.Crc32IsUpdateCrc` | src/ll_ifc_utils.c:24-38 | equal to the table-driven update of section 8 of RFC 1952, for every start value and input |
| `CyclicCheck32.ByteIsTableStep` | src/ll_ifc_utils.c:31-35 | one byte of the bit-by-bit form is one table step |
| `CyclicCheck32.RegisterInjective` | src/ll_ifc_utils.c:31-35 | different states stay different under the same input |
| `CyclicCheck32.OneByteChangesCrc32` | src/ll_ifc_utils.c:24-38 | changing one byte changes the CRC |
| `CyclicCheck32.CheckValue32` | src/ll_ifc_utils.c:24-38 | the CRC-32 of the digits 1 to 9 is 0xCBF43926 |
| `Clock.ComputeDiffTime` | src/ll_ifc_utils.c:40-58 | the floor of the elapsed seconds for normalised times |
| `HostInterfaceRuns.ConversationStaysInStep` | src/ll_ifc.c:23-52 | in every conversation from reset, with noise before each reply, call i carries number i modulo 256, the module understands it, the call returns exactly reply i, and no byte of it is left |
| `HostInterfaceRuns.ConverseOnLink` | src/ll_ifc.c:23-52 | performing the calls with hal_read_write on a clear line from a reset on, with the module decoding what stands on the line, is exactly that conversation |
| `HostInterfaceRuns.Perform` | src/ll_ifc.c:23-52 | one call of hal_read_write on a clear line is one exchange, and leaves the line clear |
| `HostInterfaceRuns.UnreadPayloadIsAccepted` | src/ll_ifc.c:620-635 | for every command and nonempty buffer a line on which recv_packet returns the old content of the buffer as payload, its payload read having failed |
| `HostInterfaceRuns.BurstIsRejected` | src/ll_ifc.c:610-635 | a payload hit by an error of at most 16 consecutive bits yields the checksum error |
| `HostInterfaceRuns.BurstInFrameIsRejected` | src/ll_ifc.c:573-646 | a whole response hit by an error of at most 16 consecutive bits, in header, payload or checksum, is never accepted while start byte and length are intact |
| `HostInterfaceRuns.BurstFailsChecksum` | src/ll_ifc.c:628-635 | of two strings that differ in such a burst at most one ends in its own checksum |
| `HostInterfaceRuns.AcceptedExactly` | src/ll_ifc.c:573-646 | success with n bytes if and only if opcode and number match, status is 0, the length field is n and fits, and the checksum is that of header and payload; reading stops right behind it |
| `HostInterfaceRuns.ResultOfResponse` | src/ll_ifc.c:573-646 | the result for every response that arrives whole: -107 when it does not fit, -104 when the checksum is not the CRC, the negative of a nonzero status, -103 for another number, -105 for another opcode, and else the length |
| `HostInterfaceRuns.StaleIsNeverAccepted` | src/ll_ifc.c:580-584 | a response with another message number is never reported as success |
| `HostInterfaceRuns.AckIsDelivered` | src/ll_ifc.c:521-647 | a well-formed acknowledgement behind noise is delivered whole and the line is left right behind it |
| `HostInterfaceRuns.CommandRoundTrip` | src/ll_ifc.c:447-482 | every command frame is decoded to its opcode, number and payload |
| `HostInterfaceRuns.CommandLayout` | src/ll_ifc.c:447-482 | four bytes 0xFF, then 0xC4, opcode, number, length, payload and CRC, high bytes first |
| `HostInterfaceRuns.BurstChangesChecksum` | src/ll_ifc.c:668-692 | an error burst behind an intact header changes the checksum |
| `HostInterface.Link.HalReadWrite` | src/ll_ifc.c:23-52 | bad buffer and length pairs are refused with nothing sent; otherwise one frame goes out, the number advances, the result is that of the reception and backed by reads of this call, and the line's log and clock only move on |
| `HostInterface.Link.ResetState` | src/ll_ifc.c:421-425 | message numbers start over |
| `HostInterface.SendPacket` | src/ll_ifc.c:447-482 | puts wake-up bytes, header, payload and checksum on the line |
| `HostInterface.RecvPacket` | src/ll_ifc.c:521-647 | a non-negative result is backed by reads of this call: a start byte, a header, and those of the other two reads that succeeded; an error of the wait is returned, and -109 when the header cannot be read; on an undisturbed line in time the result is that of the reception function; and when only the read of the payload fails, the old buffer is checked and returned in its place |
| `HostInterface.AwaitFrameStart` | src/ll_ifc.c:531-559 | skips to right behind the first start byte; waits on until a reading of the clock fails (-113) or is more than 2 seconds after the first (-106), one read to each reading, and no sooner; success only when a start byte was read last, -108 only when a failed read left one |
| `HostInterface.Poll` | src/ll_ifc.c:540-554 | one byte and the time after it |
| `HostInterface.Drain` | src/ll_ifc.c:591-601 | empties the line after a response that is too large |
| `XmodemRuns.ReceiverRebuildsPayload` | src/ll_ifc_xmodem.c:222-259 | when the transfer ends normally, a receiver that knows only the bytes on the line has each block once, however often it was sent: the payload and then only 0x1A |
| `XmodemRuns.TransferIsComplete` | src/ll_ifc_xmodem.c:222-259 | the k-th acknowledged packet has number k modulo 256, there are as many as blocks, their data fields are the payload and padding, and progress climbs strictly to the length |
| `XmodemRuns.PlayKeepsOrder` | src/ll_ifc_xmodem.c:222-259 | at every moment of every transfer the acknowledged packets are the first blocks, in order |
| `XmodemRuns.SendsAreBounded` | src/ll_ifc_xmodem.c:229-259 | at most 17 packets for each block, plus one for each answer passed over |
| `XmodemRuns.RefusalsEndTheTransfer` | src/ll_ifc_xmodem.c:229-249 | at every moment the attempt counter is the number of NAKs since the last ACK, whatever ignored answers lie between; it never passes 16 while the transfer lives, and the transfer gives up exactly at the seventeenth |
| `XmodemRuns.OneSendPerAnswer` | src/ll_ifc_xmodem.c:226-228 | each answer is the answer to one packet, in order |
| `XmodemRuns.AckExactly` | src/ll_ifc_xmodem.c:232-237 | 0x06 moves on by up to 128 bytes, to the next number modulo 256, clears the attempts and reports the new offset |
| `XmodemRuns.OtherAnswersExactly` | src/ll_ifc_xmodem.c:238-257 | 0x15 counts and the seventeenth gives -4, 0x18 gives -3, other answers change nothing; the same block stays due |
| `XmodemRuns.FiveAnswers` | src/ll_ifc_xmodem.c:41 | the answers are 0x06, 0x15, 0x18, 0x43 and 0x0A |
| `XmodemRuns.BeginsWithOne` | src/ll_ifc_xmodem.c:223-226 | a transfer begins at offset 0 with packet 1 and no attempts |
| `XmodemRuns.TalkAlternates` | src/ll_ifc_xmodem.c:226-230 | on the line packet k stands directly before answer k |
| `Xmodem.PacketRoundTrip` | src/ll_ifc_xmodem.c:45-70 | every packet decodes to its number and its padded block, with complement and CRC right |
| `XmodemRuns.PacketLayout` | src/ll_ifc_xmodem.c:52-70 | 0x01, number, complement, data, 0x1A up to byte 131, CRC high byte first |
| `Xmodem.SendPayload` | src/ll_ifc_xmodem.c:222-259 | the loop ends; what the line saw is one packet and the answer read after it, in turn, and the transfer is the one for exactly these answers; when it fails for want of an answer, exactly one packet more went out and at most one answer came too late |
| `Xmodem.Send` | src/ll_ifc_xmodem.c:203-266 | success means that the line saw answers up to the start signal, then each packet of a complete transfer with the answer read after it, then the end until an acknowledgement of it was read, and nothing else was written; and it succeeds on every line on which all goes well that holds the start signal, answers that complete the transfer, and an acknowledgement |
| `Xmodem.PlaysTheScript` | src/ll_ifc_xmodem.c:222-259 | a transfer that takes the answers of a line one by one ends exactly with those that complete it |
| `Xmodem.SendPacket` | src/ll_ifc_xmodem.c:45-85 | one packet goes out, and an answer returned is the one that was read after it; it is the next byte of a line on which all goes well |
| `Xmodem.BuildPacket` | src/ll_ifc_xmodem.c:52-70 | the 133-byte array is header, padded data and CRC |
| `Xmodem.GetClientResponse` | src/ll_ifc_xmodem.c:21-42 | one of the five answers, read in this call and the only one, or left from before by a failed read; -2 only when 3 seconds have passed, other errors only from a read that failed with less than -1; and an answer that stands on an undisturbed line is taken, with what stands before it, if 3 seconds do not pass meanwhile |
| `Xmodem.TakeTurn` | src/ll_ifc_xmodem.c:26-39 | one turn of its loop |
| `Xmodem.WaitFor` | src/ll_ifc_xmodem.c:119-142 | success means that the wanted answer was read in this call, after none but other answers; it succeeds when that answer is next on a line on which all goes well |
| `Xmodem.SendByte` | src/ll_ifc_xmodem.c:88-116 | repeats the byte and nothing else; success means that an acknowledgement was read in this call, after the byte was sent, and no other before it; it succeeds at once when one is next on a line on which all goes well |
| `Xmodem.Prompt` | src/ll_ifc_xmodem.c:95-107 | one turn of that loop: the byte, and the answer read after it if there was one |
| `StructCodecs.NetInfoSerialize` | src/ifc_struct_defs.c:60-74 | every field at its index as a big-endian number, and the length is 30 |
| `StructCodecs.NetInfoDeserialize` | src/ifc_struct_defs.c:43-56 | the struct whose fields stand in the buffer as big-endian numbers, and whose serialization it is, for every buffer of 30 bytes |
| `StructCodecs.NetInfoInjective` | src/ifc_struct_defs.c:43-74 | no two structs have the same bytes |
| `StructCodecs.NetInfoLayout` | src/ifc_struct_defs.c:43-74 | the index, width and big-endian value of every field |
| `StructCodecs.NetInfoRoundTrip` | src/ifc_struct_defs.c:43-74 | serialize and then deserialize is the identity, over 30 bytes |
| `StructCodecs.DlBandCfgSerialize` | src/ifc_struct_defs.c:86-95 | every field at its index as a big-endian number, and the length is 14 |
| `StructCodecs.DlBandCfgDeserialize` | src/ifc_struct_defs.c:76-84 | the struct whose fields stand in the buffer as big-endian numbers, and whose serialization it is, for every buffer of 14 bytes |
| `StructCodecs.DlBandCfgInjective` | src/ifc_struct_defs.c:76-95 | no two structs have the same bytes |
| `StructCodecs.DlBandCfgLayout` | src/ifc_struct_defs.c:76-95 | the index, width and big-endian value of every field |
| `StructCodecs.DlBandCfgRoundTrip` | src/ifc_struct_defs.c:76-95 | serialize and then deserialize is the identity, over 14 bytes |
| `StructCodecs.StatsSerialize` | src/ifc_struct_defs.c:112-126 | every field at its index as a big-endian number, and the length is 40 |
| `StructCodecs.StatsDeserialize` | src/ifc_struct_defs.c:97-110 | the struct whose fields stand in the buffer as big-endian numbers, and whose serialization it is, for every buffer of 40 bytes |
| `StructCodecs.StatsInjective` | src/ifc_struct_defs.c:97-126 | no two structs have the same bytes |
| `StructCodecs.StatsLayout` | src/ifc_struct_defs.c:97-126 | the index, width and big-endian value of every field |
| `StructCodecs.StatsRoundTrip` | src/ifc_struct_defs.c:97-126 | serialize and then deserialize is the identity, over 40 bytes |
| `StructCodecs.TimeInfoSerialize` | src/ifc_struct_defs.c:138-147 | every field at its index as a big-endian number, and the length is 13 |
| `StructCodecs.TimeInfoDeserialize` | src/ifc_struct_defs.c:128-136 | the struct whose fields stand in the buffer as big-endian numbers, and whose serialization it is, for every buffer of 13 bytes |
| `StructCodecs.TimeInfoInjective` | src/ifc_struct_defs.c:128-147 | no two structs have the same bytes |
| `StructCodecs.TimeInfoLayout` | src/ifc_struct_defs.c:128-147 | the index, width and big-endian value of every field |
| `StructCodecs.TimeInfoRoundTrip` | src/ifc_struct_defs.c:128-147 | serialize and then deserialize is the identity, over 13 bytes |
| `StructCodecs.Cursor.WriteUint64` | src/ifc_struct_defs.c:37-40 | eight bytes at the cursor, most significant first, the rest untouched |
| `StructCodecs.Cursor.ReadUint64` | src/ifc_struct_defs.c:18-21 | the value that the eight bytes at the cursor encode |
| `StructCodecs.LastEqual` | src/ifc_struct_defs.c:4-40 | equal bytes of fields of one kind mean equal fields |

## Left out

- Swapping `ll_ul_max_port` around an uplink, and the port and acknowledgement arguments of the uplink callback (`src/ll_ifc_ftp.c:72-80`): a saved and restored global that no other modelled code reads.
- The return value of the uplink callback, which no caller looks at, and failures of `gettime` in the file-transfer client, which the source ignores.
- The null-callback check of `ll_ftp_init`, the field `is_processing`, which is only ever cleared, and null arguments of `ll_difftime`.
- The opcode wrappers, getters and setters in `src/ll_ifc.c`, `src/ll_ifc_symphony.c` and `src/ll_ifc_no_mac.c`, including `hal_read_write_exact`: one call of `hal_read_write` each.
- The name and description tables: look-ups settled by reading one branch.
- `src/ll_ifc_transport_pc.c` and `src/ll_ifc_time_pc.c`: the serial port and the clock are `Wire.Line`.
- `ll_xmodem_prepare_module`, the ten seconds' wait and the bootloader's text after the end of an XMODEM transfer: console text and timing. `Xmodem.Send` ends with the acknowledged end of transmission.
- The progress callback of XMODEM is the list of its reports; its null check is not modelled.
- The bound of 65535 on lengths handed to the framing methods: a longer length field is truncated as the source's shifts do, and the round trips are stated for lengths that 16 bits hold.
- HostInterface.Link.HalReadWrite: `message_num` is an unbounded counter whose low byte goes out; the overflow of a 32-bit signed counter after 2^31 calls is not modelled.
- HostInterface.RecvPacket: that a NACK which carries a payload is reported by its code is not promised, because the source does not read that payload and checks the caller's old buffer content instead; the model does the same.
- CyclicCheck16.ComputeCrc16: the accumulator is 32 bits wide and drops what is shifted out; that C leaves a left shift of a negative int undefined is not modelled.
- FtpClient.Client.ComputeFileCrc: 16 + file_size is not wrapped at 32 bits; the size bound makes it fit.
- FtpClient.Client.MsgProcess: parsing and the three reception branches share one parse call, where the source parses in each of its three state handlers.
- Aliasing of the message payload with the receive buffer: the payload is a value once the message is parsed.
- StructCodecs: the structs are values, and `connection_status` is the byte of its enum, whose range the source does not check.
- What the client does when a segment message with number 2400 arrives: the source writes one word past its bitmap.

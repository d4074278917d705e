# Verified model of libsamsung-ipc

A Dafny 4.11 model of the parts of libsamsung-ipc in which data has to survive: the nv_data
store with its recovery protocol, the framing of FMT and RFS messages, the loaders that put
images into the modem, and the codecs and dispatchers around them. `dafny verify
dfyconfig.toml` checks the whole project.

## How the pieces fit

- `Bytes`, `CStrings`, `HexCodec`: C integers in memory, C strings, the update of a window of a
  file, and the hex codec.
- `Storage`: the file system as a class. Each system call is one step; it may fail while
  `faults` is set and may always transfer less than was asked for. The ghost field `history`
  holds the contents after every step, that is, every point at which a caller can be killed.
- `NvModel`, `NvStore`, `NvTheorems`: the nv_data store. `NvStore` holds the imperative
  functions of `rfs.c`; their contracts tie every state in `history` to the relations
  `...Stops` of `NvModel`, and failure-free runs to the functions `LoadResult`, `LoadState`,
  `BackedUp`, `Restored` and `Stored`. `NvTheorems` proves what these relations promise. The
  digest is an unknown function with 16-byte results.
- `Protocol`, `Framing`, `Sessions`: headers, frames, streams of frames, the send and receive
  loops of two families of devices over a link with arbitrary partial and finitely many empty
  transfers, and whole sessions of them.
- `Flash`, `FlashLoader`, `BootImages`, `Upload`: commands with checksums, the modem as an
  interpreter of them, and the senders. That the modem's write-block command stores at an
  address that then advances, and that the herolte driver stores each chunk at its offset, are
  assumptions about the peer.
- `Imei`, `CallList`, `HexDump`, `Handover`: the IMEI codec and its commands, the walk over the
  variable-length call list, the hex dump, and the receive loop that hands messages over to the
  application.

What the methods compute is given by specification functions. What these mean is fixed apart from
their definitions: by the `...Layout` lemmas, which say in literal numbers which byte stands where,
by laws such as `SumConcat` and `CrcConcat`, and for the dump and the read loop by statements over
every line and every run (`DumpShows`, `StateIsReported`, `ResultIff`).

## What was found

Where the code does not do what its names or comments promise, the exact condition is proved.

- A failed `unlink` is only logged by backup and restore, and files are opened without
  truncation. A longer old file then keeps its tail and the call still reports success. The
  pair is valid exactly if nothing longer was kept (`BackedUpPair`, `RestoredPair`, and the
  failing case `BackupStaleTail`). `write_imei` has the same gap (`ImeiEndToEnd`).
- Load renews a backup that is missing or has the wrong size, never a damaged one of the right
  size (`LoadHealsBackupIff`). A write is recoverable at every step exactly if the backup pair
  is valid (`WriteSafeIffBackup`), so a load before the write does not make it safe.
- Backup also checks only the size of the primary file. Every stop of it leaves a valid copy
  exactly if the primary pair is valid (`BackupSafeIffPrimary`); with a damaged one it first
  destroys the only valid copy, and when it completes it gives the damage a fresh digest, unless
  the bytes are those of the backup (`BackedUpExplainedIff`). So runs keep a valid copy exactly
  if they respect a guard on writes and backups (`StepKeepsCopyIff`, `RunsKeepCopyIff`).
- In load a check that fails counts as damage. With a failing call it may restore over a valid
  primary pair; it keeps that for certain exactly if there is no valid backup
  (`LoadKeepsPrimaryIff`). Nor is the backup safe from such a load (`LoadMayLoseBackup`).
- A write checks only the size of the primary file. With a valid backup, what it makes valid
  is its data applied to what a load would have returned exactly if the primary pair was valid
  or the two files agree outside the window (`StoredExplainedIff`). A concrete run of a killed and a
  completed write, with no load in between, ends with torn contents in a valid pair
  (`TornWriteSurfaces`). If each write starts from valid pairs, none ever surfaces
  (`RunIsAtomic`, and with failing calls and backups `RunIsConsistent`).
- `write_imei` returns `errno`, which is 0 after a `write` that transferred nothing. So status 0
  means that everything was stored or that there was such a transfer (`WriteImei`). That leaves
  a pair that never validates if the old digest file was unlinked (`FalseSuccessInvalid`,
  `FalseSuccessExists`); if not, the exact condition is that it ends as the new digest does
  (`FalseSuccessAt`, `FalseSuccessValidIff`).
- `modem_read_loop` is said to end with 0 when the wanted state is reached. Over all runs this
  holds exactly if it starts in that state, or starts before the handover and waits for the SIM
  (`ReadLoopSucceedsIff`). Otherwise it ends elsewhere in exactly three ways: by a missing SIM,
  by a SIM that becomes ready in the normal state while another state is waited for, or by the
  application if its handler is installed from the start (`WrongEndIff`).
- A receiver copies what its first read brought without comparing it with the payload it has
  allocated; the copy stays inside exactly under `HeadFitsIff`. `read_imei` does not check its
  offset (`ImeiInsideIff`), and an entry of the herolte table that ends behind the firmware
  makes the upload never return (`UploadChunk`).

## Model

| member | source | states |
|---|---|---|
| Bytes.SpliceAdjacent | samsung-ipc/utils.c:215-230 | two adjacent partial writes leave the file as one write of their concatenation would, including the zero fill of a gap |
| Storage.FileSystem.FileDataRead | samsung-ipc/utils.c:84-167 | whatever the short reads, a result is exactly the window asked for and lies inside the file; without faults it fails only for bad sizes, a missing file or a window past the end |
| Storage.FileSystem.FileDataWrite | samsung-ipc/utils.c:169-245 | success replaces exactly the window; every state in between and every failure shows the old file with a prefix of the data written; the errno of a failure is 0 exactly if a `write` call transferred nothing without an error, and then a proper prefix was written |
| HexCodec.Data2String | samsung-ipc/utils.c:504-528 | the loop produces the digit string whose inverse is `Unhex`; empty data gives the null pointer |
| HexCodec.String2Data | samsung-ipc/utils.c:550-595 | the nibble loop with its odd-length shift produces the bytes the string stands for, for every string including non-hex characters and white space |
| HexCodec.UnhexHex | samsung-ipc/utils.c:504-595 | decoding the encoded data gives the data back |
| HexCodec.HexUnhex | samsung-ipc/utils.c:504-595 | encoding the decoded string gives it back in lower case and padded to even length, exactly for strings of hex digits |
| HexCodec.HexSpells | samsung-ipc/utils.c:504-528 | byte k is spelled at 2k and 2k + 1 by its high and its low half, in the digits 0123456789abcdef |
| HexCodec.ScanDigitReads | samsung-ipc/utils.c:550-595 | a half byte is read from the next character that is no white space, and is 0 if that is no hex digit or there is none |
| CStrings.StrnEqualIsEquality | samsung-ipc/rfs.c:255-268 | comparing through strndup and strncmp is comparing all bytes of the digest file, also if it holds NUL bytes |
| NvStore.NvStore.Md5Calculate | samsung-ipc/rfs.c:37-83 | a result is 32 hex digits that decode to the digest of the whole file with the secret behind it, and the file has exactly the given size; without faults these sizes suffice |
| NvModel.PairSpellsDigest | samsung-ipc/rfs.c:37-83 | a pair is valid exactly if its digest file spells, in lower-case hex, the digest of the whole data file with the secret behind it |
| NvStore.NvStore.PathCheck | samsung-ipc/rfs.c:85-205 | success means the file exists with the required size, and without faults conversely |
| NvStore.NvStore.PairCheck | samsung-ipc/rfs.c:207-372 | success means that the pair is valid: right size and the digest file equal to the digest; without faults a valid pair succeeds |
| NvStore.NvStore.Check | samsung-ipc/rfs.c:207-287 | the same for the primary pair |
| NvStore.NvStore.BackupCheck | samsung-ipc/rfs.c:289-372 | the same for the backup pair |
| NvStore.NvStore.Replace | samsung-ipc/rfs.c:417-439 | unlinking with the failure only logged and writing stops in no state but the old one, the unlinked one and those with a prefix written; a kept file needs a failing call |
| NvStore.NvStore.Backup | samsung-ipc/rfs.c:374-460 | every state passed is one of `BackupStops`; success ends in `BackedUp`, up to files that could not be unlinked; without faults it succeeds exactly for a primary of the right size |
| NvStore.NvStore.Restore | samsung-ipc/rfs.c:462-547 | every state passed is one of `RestoreStops`, which needs a valid backup before anything changes; success ends in `Restored`; without faults it succeeds exactly for a valid backup |
| NvStore.NvStore.Heal | samsung-ipc/rfs.c:581-590 | the renewal inside load runs only with a valid primary pair and, without faults, only for a backup of the wrong size |
| NvStore.NvStore.Load | samsung-ipc/rfs.c:549-599 | from any state and whatever fails, returned bytes are the primary file of a valid pair; a later load without faults returns the same bytes; every state passed is one of `LoadStops`; without faults result and final state are `LoadResult` and `LoadState` |
| NvStore.NvStore.Read | samsung-ipc/rfs.c:601-631 | a result is the window of the primary file; without faults it succeeds exactly for a non-empty window inside a file of the right size |
| NvStore.NvStore.Write | samsung-ipc/rfs.c:633-705 | every state passed is one of `WriteStops`; success implies that the window fits nv_data, that the final state is `Stored`, and that the state without a digest file was passed; without faults the exact condition of success |
| NvModel.RestoredPrimaryValid | samsung-ipc/rfs.c:462-547 | restoring from a valid backup with everything unlinked gives a valid primary pair with the backup contents and keeps the backup valid |
| NvModel.BackupKeepsPrimary | samsung-ipc/rfs.c:374-460 | no state of a backup touches the primary pair |
| NvModel.HealKeepsPrimary | samsung-ipc/rfs.c:581-590 | nor does any state of the renewal inside load |
| NvTheorems.WriteStopContents | samsung-ipc/rfs.c:633-705 | wherever a write stops the backup files are untouched, and a primary pair that validates holds the old or the completely written contents |
| NvTheorems.WriteCrashSafe | samsung-ipc/rfs.c:633-705 | with both pairs valid and no digest collision of a torn state, after a write killed anywhere the backup is bit for bit the same and load succeeds with the old, the new or the backup contents |
| NvTheorems.WriteSafeIffBackup | samsung-ipc/rfs.c:633-705 | every stop of a write, whether it fits or not, can be loaded if and only if the backup pair was valid |
| NvTheorems.StoredState | samsung-ipc/rfs.c:601-705 | after a completed write the pair is valid whatever the file held before, the contents are the pure splice, reading the window returns the data, load returns the contents, and no other file changed |
| NvTheorems.StoredExplainedIff | samsung-ipc/rfs.c:549-705 | with a valid backup, a completed write applies its data to what a load before it would have returned, exactly if the primary pair was valid or the two files agree byte by byte outside the window |
| NvTheorems.TornWriteSurfaces | samsung-ipc/rfs.c:549-705 | a concrete run of a killed and a completed write, from two valid pairs and without a failing call, after which load returns contents that no choice of whole writes explains |
| NvTheorems.RestoreKeepsBackup | samsung-ipc/rfs.c:462-547 | restore changes nothing before the backup has validated, and never the backup |
| NvTheorems.LoadKeepsCopy | samsung-ipc/rfs.c:549-599 | if a pair is valid when load starts, one is valid at every step of it, whatever calls fail |
| NvTheorems.LoadKeepsPrimaryIff | samsung-ipc/rfs.c:549-599 | with failing calls a load keeps a valid primary pair at every stop exactly if there is no valid backup: a check that fails starts a restore over it |
| NvTheorems.LoadMayLoseBackup | samsung-ipc/rfs.c:549-599 | from every state with a valid backup, a load with failing calls has a stop at which the backup is not valid |
| NvTheorems.RestoreStopContents | samsung-ipc/rfs.c:462-547 | a restore killed between calls shows no valid primary pair other than one with the backup contents |
| NvTheorems.LoadCrashIdempotent | samsung-ipc/rfs.c:549-599 | a load killed at any step and run again returns what the first would have returned |
| NvTheorems.LoadTwice | samsung-ipc/rfs.c:549-599 | the state after a load is a fixed point of load, with the same result |
| NvTheorems.LoadHealsBackupIff | samsung-ipc/rfs.c:581-590 | after load the backup is valid exactly if it was, or had the wrong size |
| NvTheorems.BackedUpPair | samsung-ipc/rfs.c:374-460 | a successful backup yields a valid pair equal to the primary exactly if no longer old file was kept |
| NvTheorems.BackupStaleTail | samsung-ipc/rfs.c:417-426 | a concrete backup that reports success and leaves an invalid pair |
| NvTheorems.BackupSafeIffPrimary | samsung-ipc/rfs.c:374-460 | every stop of a backup of a file of the right size leaves a valid copy exactly if the primary pair is valid, which backup does not check |
| NvTheorems.BackedUpExplainedIff | samsung-ipc/rfs.c:374-460 | with a valid backup, a completed backup leaves what a load returns as it was exactly if the primary pair is valid or has the bytes of the backup; otherwise it certifies the damage |
| NvTheorems.RestoredPair | samsung-ipc/rfs.c:462-547 | a successful restore makes the primary pair byte-equal to the backup pair under the same exact condition, and keeps the backup |
| NvTheorems.BackupThenRestore | samsung-ipc/rfs.c:374-547 | backup, any damage outside the backup pair, restore: the primary pair is back |
| NvTheorems.RestoreRestarts | samsung-ipc/rfs.c:462-547 | a restore interrupted anywhere, with any failures, leaves the backup valid, and rerunning it reaches the state of an uninterrupted one |
| NvTheorems.RunKeepsCopy | samsung-ipc/rfs.c:374-705 | over any run of loads, restores, backups and writes with failures and kills, respecting the guards, every state holds a valid copy and can be loaded |
| NvTheorems.StepKeepsCopyIff | samsung-ipc/rfs.c:374-705 | the guard is exact: from a state with a valid copy, every stop of an operation, whatever calls fail, has one exactly if a write that changes files starts from a valid backup and a backup that does from a valid primary pair |
| NvTheorems.RunsKeepCopyIff | samsung-ipc/rfs.c:374-705 | all runs of given operations from a state with a valid copy keep one at every step exactly if all of them respect the guards |
| NvTheorems.StepKeepsBackupIff | samsung-ipc/rfs.c:374-705 | a valid backup survives every stop of an operation bit for bit exactly if it is neither a backup that changes files nor a load with failing calls |
| NvTheorems.StepIsAtomic | samsung-ipc/rfs.c:462-705 | for each operation that spares the backup in the sense of `StepKeepsBackupIff`, completed, failed or killed, with writes from a valid pair: the backup stays bit for bit and a valid primary pair holds old, written or backup contents |
| NvTheorems.RunIsAtomic | samsung-ipc/rfs.c:462-705 | over any run of such operations, with failing calls, the backup stays bit for bit, and what is loaded is some of the writes applied whole and in order to the initial or backup contents: never a torn write |
| NvTheorems.RewritingPairContents | samsung-ipc/rfs.c:417-460 | at every stop of a rewriting of a pair, also if a file could not be unlinked, a pair that validates holds the old contents of a valid pair or the new ones |
| NvTheorems.StepIsConsistent | samsung-ipc/rfs.c:374-705 | for each of the four operations, completed, failed or killed, with any failing calls: some pair stays valid, and a valid pair holds what one of them held before or what the write makes of it; writes and backups that change files start from valid pairs, which `StepKeepsCopyIff` and `BackedUpExplainedIff` show to be needed |
| NvTheorems.RunIsConsistent | samsung-ipc/rfs.c:374-705 | over any run of loads, restores, backups and writes, with any failing calls and kills, that respects the guards: some copy is always valid, and every valid pair, primary or backup, holds whole writes applied in order, never a torn one |
| Protocol.FmtRoundTrip | samsung-ipc/ipc_utils.c:294-326 | decoding a frame gives the message back in every field; the length field is right exactly up to 65535 bytes |
| Protocol.RfsRoundTrip | samsung-ipc/ipc_utils.c:328-355 | decoding an RFS frame is a projection: payload, low command byte and sequence number survive; the command survives exactly in the RFS group |
| Protocol.FmtFrameLayout | samsung-ipc/ipc_utils.c:294-309 | byte by byte what an FMT frame holds: its length in 16 bits, both sequence numbers, group, index, type and the payload |
| Protocol.RfsFrameLayout | samsung-ipc/ipc_utils.c:328-340 | the same for RFS: its length in 32 bits, index, id and the payload |
| Protocol.FmtDeframeFlatten | samsung-ipc/modems/xmm626/xmm626_kernel_smdk4412.c:262-308 | a stream of well-formed frames is cut by its length fields into exactly these frames |
| Protocol.RfsDeframeFlatten | samsung-ipc/modems/xmm626/xmm626_kernel_smdk4412.c:396-447 | the same for RFS |
| Protocol.FmtStreamRoundTrip | samsung-ipc/modems/xmm626/xmm626_kernel_smdk4412.c:186-316 | any sequence of messages comes back from the byte stream whole, in order and unchanged |
| Protocol.RfsStreamRoundTrip | samsung-ipc/modems/xmm626/xmm626_kernel_smdk4412.c:318-455 | any sequence of RFS messages comes back projected, each within the receiver's limit exactly if its payload is |
| Protocol.FmtSession | samsung-ipc/modems/xmm626/xmm626_kernel_smdk4412.c:186-316 | the byte stream that n sends put on the wire is cut by its length fields into n frames, which decode to the n messages in order |
| Protocol.RfsSession | samsung-ipc/modems/xmm626/xmm626_kernel_smdk4412.c:318-455 | the same for RFS, where the frames decode to the projections of the messages |
| Framing.Xmm626FmtSend | samsung-ipc/modems/xmm626/xmm626_kernel_smdk4412.c:186-242 | for every schedule of partial writes the wire gains exactly the frame, and a prefix of it on failure; without failing or empty transfers it succeeds |
| Framing.Xmm626RfsSend | samsung-ipc/modems/xmm626/xmm626_kernel_smdk4412.c:318-376 | the same for RFS |
| Framing.Xmm626FmtRecv | samsung-ipc/modems/xmm626/xmm626_kernel_smdk4412.c:244-316 | from any read position, for arbitrary bytes and every schedule of reads: success returns the decoded header with as many bytes behind it as it announces and consumes just these, or without a payload the first read; `outside` is set only when the first read brings more than announced; without failing or empty transfers, if the first read brings the header, it succeeds or is `outside` when a whole message is at hand |
| Framing.Xmm626RfsRecv | samsung-ipc/modems/xmm626/xmm626_kernel_smdk4412.c:378-455 | the same for RFS, and without failing or empty transfers a whole message at hand is refused exactly if its length is above 0x80000 |
| Framing.AriesFmtSend | samsung-ipc/devices/aries/aries.c:247-305 | chunks of 4032 bytes put the same bytes on the wire as the unchunked sender; empty transfers are tried again, so it succeeds unless a call fails |
| Framing.AriesRfsSend | samsung-ipc/devices/aries/aries.c:382-439 | the same for RFS |
| Framing.AriesFmtRecv | samsung-ipc/devices/aries/aries.c:307-380 | the same contract for the chunked receiver, which tries empty transfers again behind the first read; only an empty first read makes it fail without a failing call, and then it has consumed nothing; here a length below the header size is `outside` as well |
| Framing.AriesRfsRecv | samsung-ipc/devices/aries/aries.c:441-519 | the same for RFS, with the size limit |
| Framing.HeadFitsIff | samsung-ipc/modems/xmm626/xmm626_kernel_smdk4412.c:262-290 | the first copy stays inside the payload for every possible first read exactly if the frame, as far as one read reaches, is no longer than announced, or no payload is announced |
| Framing.FmtReceivedBytes | samsung-ipc/modems/xmm626/xmm626_kernel_smdk4412.c:262-308 | which bytes at hand become which field of a received message, and which its payload, also for frames that are not well formed |
| Framing.RfsReceivedBytes | samsung-ipc/modems/xmm626/xmm626_kernel_smdk4412.c:396-447 | the same for RFS, with the limit of 0x80000 |
| Sessions.Xmm626FmtSession | samsung-ipc/modems/xmm626/xmm626_kernel_smdk4412.c:186-316 | n calls of the sender, the stream cut at its length fields, n calls of the receiver: for every schedule of partial transfers success returns the n messages in order and unchanged; without failing or empty transfers it succeeds |
| Sessions.AriesFmtSession | samsung-ipc/devices/aries/aries.c:247-380 | the same for the chunked loops, where empty transfers of the sender do no harm |
| Sessions.Xmm626RfsSession | samsung-ipc/modems/xmm626/xmm626_kernel_smdk4412.c:318-455 | the same for RFS: the projections of the n messages return, and without failing or empty transfers the session succeeds exactly if every frame is within the limit of the receiver |
| Sessions.AriesRfsSession | samsung-ipc/devices/aries/aries.c:382-519 | the same for the chunked loops |
| Flash.ChecksumLoop | samsung-ipc/modems/xmm626/xmm626_hsic.c:330-337 | 16-bit accumulation with wrap-around gives (size + code + sum of the bytes) modulo 65536 |
| Flash.SumConcat | samsung-ipc/modems/xmm626/xmm626_hsic.c:330-337 | the sum of a concatenation is the sum of both; with `SumOne` it is the sum of the bytes |
| Flash.HsicPacketLayout | samsung-ipc/modems/xmm626/xmm626_hsic.h:47-51 | byte by byte what an HSIC packet holds: checksum, code, size, data and zeros |
| Flash.MipiPacketLayout | samsung-ipc/modems/xmm626/xmm626_mipi.h:42-53 | byte by byte what a MIPI packet holds: whole size, magic, code, size, data, checksum, magic and the long or short end |
| Flash.HsicParseInverts | samsung-ipc/modems/xmm626/xmm626_hsic.c:311-355 | a receiver that recomputes the checksum accepts every command and recovers code and data, whatever the padding |
| Flash.MipiParseInverts | samsung-ipc/modems/xmm626/xmm626_mipi.c:304-355 | the same for MIPI, exactly while the data is shorter than 64 KiB |
| Flash.FlashReconstructs | samsung-ipc/modems/xmm626/xmm626_hsic.c:397-442 | executing set-address and blocks of any chunk size stores the image at its address and changes nothing else |
| Flash.HsicStreamLayout | samsung-ipc/modems/xmm626/xmm626_hsic.c:397-442 | the packets of an image: command 0x802 with its address, then command 0x804 with its k-th 0x4000 bytes, as many as there are |
| Flash.MipiStreamLayout | samsung-ipc/modems/xmm626/xmm626_mipi.c:424-468 | the same with blocks of 0xDF2 bytes, and the short footer for blocks only |
| Flash.FlashStreamsAgree | samsung-ipc/modems/xmm626/xmm626_mipi.c:424-468 | replaying the HSIC packets and the MIPI packets of an image gives the same modem, with the image at its address |
| Flash.HsicInterrupted | samsung-ipc/modems/xmm626/xmm626_hsic.c:311-442 | whatever beginning of the packet stream gets out, its last packet possibly cut short: memory holds a beginning of the image at its address and is unchanged everywhere else |
| Flash.MipiInterrupted | samsung-ipc/modems/xmm626/xmm626_mipi.c:304-468 | the same for MIPI |
| Flash.ThreeImages | samsung-ipc/modems/xmm626/xmm626_mipi.c:586-659 | firmware, nv_data and MPS data sent in turn are all in memory at the end, and outside their windows nothing is changed, lost or added |
| Flash.FirmwareSurvivesIff | samsung-ipc/modems/xmm626/xmm626.h:38-40 | firmware survives every later nv_data image exactly if it ends before the nv_data address |
| FlashLoader.HsicCommandSend | samsung-ipc/modems/xmm626/xmm626_hsic.c:311-395 | success writes one padded packet for the command; a failure writes a beginning of it, which may be cut short, all or nothing; the exact condition of success without faults |
| FlashLoader.HsicModemDataSend | samsung-ipc/modems/xmm626/xmm626_hsic.c:397-442 | what is written is always a beginning of the packet stream of the image, its last packet possibly cut short, and all of it on success, when only the set-address command was acknowledged; without faults it succeeds exactly for a non-empty image |
| FlashLoader.HsicFirmwareSend | samsung-ipc/modems/xmm626/xmm626_hsic.c:542-559 | success means that the whole packet stream of a non-empty firmware at the firmware address was written |
| FlashLoader.HsicNvDataSend | samsung-ipc/modems/xmm626/xmm626_hsic.c:561-597 | on success every modem that replays the packets holds, in the nv_data window and nowhere else, a primary file that matches its digest |
| FlashLoader.MipiCommandSend | samsung-ipc/modems/xmm626/xmm626_mipi.c:304-355 | the same as for HSIC, with header and short or long footer |
| FlashLoader.MipiModemDataSend | samsung-ipc/modems/xmm626/xmm626_mipi.c:424-468 | the same over MIPI, where every command is acknowledged |
| FlashLoader.MipiNvDataSend | samsung-ipc/modems/xmm626/xmm626_mipi.c:605-641 | the stream of a validated primary file at the nv_data address; without faults it succeeds exactly if a valid copy exists |
| FlashLoader.MaguroImagesSend | samsung-ipc/devices/maguro/maguro.c:136-171 | the boot sequence ends with all three images in the memory of every modem that replays it; without faults it succeeds exactly for non-empty firmware and MPS data and a valid copy of nv_data |
| BootImages.CrcCalculate | samsung-ipc/modems/xmm626/xmm626.c:26-41 | the loop computes the XOR of all bytes |
| BootImages.CrcConcat | samsung-ipc/modems/xmm626/xmm626.c:26-41 | the checksum of a concatenation is the XOR of the checksums |
| BootImages.CrcOne | samsung-ipc/modems/xmm626/xmm626.c:26-41 | the checksum of one byte is the byte, of none it is 0 |
| BootImages.CrcChecks | samsung-ipc/modems/xmm626/xmm626_hsic.c:181-189 | checksumming image and trailing byte gives zero exactly if the byte is the checksum |
| BootImages.SizeTInverts | samsung-ipc/modems/xmm626/xmm626_hsic.c:247-249 | the size that travels is the size of the image, where `size_t` has four bytes and where it has eight |
| BootImages.Xmm616PsiLayout | samsung-ipc/modems/xmm616/xmm616.c:99-154 | what a receiver parses: magic, size, image, and a byte that brings its checksum to zero |
| BootImages.HsicEblLayout | samsung-ipc/modems/xmm626/xmm626_hsic.c:236-292 | the size in the first four or eight bytes, the image, and the byte that brings the checksum to zero |
| BootImages.HsicPsiLayout | samsung-ipc/modems/xmm626/xmm626_hsic.h:41-45 | magic, size, padding, image, and the byte that brings the checksum to zero |
| BootImages.MipiPsiLayout | samsung-ipc/modems/xmm626/xmm626_mipi.h:36-40 | padding, size with the high byte first, magic, image, three bytes 0xFF, and the byte that brings the checksum of the image to zero |
| BootImages.Xmm616PsiSend | samsung-ipc/modems/xmm616/xmm616.c:99-154 | success means that the byte-by-byte sender has sent the whole image and that its running checksum is the one `xmm626_crc_calculate` gives for the block; a failure leaves a beginning of these bytes; on a dependable link it succeeds exactly for a non-empty image |
| BootImages.HsicEblSend | samsung-ipc/modems/xmm626/xmm626_hsic.c:236-292 | for either width of `size_t` and every schedule of partial writes success means a non-empty image that arrived whole between its size and its checksum, failure a beginning of these bytes; on a dependable link it succeeds exactly for a non-empty image |
| BootImages.HsicPsiSend | samsung-ipc/modems/xmm626/xmm626_hsic.c:157-191 | the same for header, image and the byte that makes the receiver's checksum zero |
| BootImages.MipiPsiSend | samsung-ipc/modems/xmm626/xmm626_mipi.c:131-166 | the same over MIPI, where the swapped size field travels most significant byte first and the checksum is the last of four bytes |
| BootImages.Xmm616NvDataSend | samsung-ipc/modems/xmm616/xmm616.c:232-285 | what goes out on success is a primary file that matches its digest |
| Imei.EncodeImei | tools/nv_data-imei.c:585-614 | exactly eight bytes are written, the stored form of the IMEI |
| Imei.DecodeImei | tools/nv_data-imei.c:566-583 | the text is the one the eight bytes stand for |
| Imei.EncodeLayout | tools/nv_data-imei.c:585-614 | the two halves of each stored byte: 0xA and the first digit, then the digits in pairs |
| Imei.DecodeLayout | tools/nv_data-imei.c:566-583 | the character shown for each half of any eight bytes |
| Imei.GetImei | tools/nv_data-imei.c:160-204 | accepted exactly if there are 15 characters, all decimal digits |
| Imei.DecodeEncode | tools/nv_data-imei.c:566-614 | decoding an encoded IMEI gives it back |
| Imei.EncodeInjective | tools/nv_data-imei.c:585-614 | different IMEIs have different stored forms |
| Imei.EncodeDecode | tools/nv_data-imei.c:566-614 | encoding decoded bytes gives them back exactly if the first has the low half 0xA |
| Imei.WriteImei | tools/nv_data-imei.c:749-820 | status 0 exactly if everything was stored or a `write` call transferred nothing without an error; in the second case a proper prefix of the IMEI or, behind the whole IMEI, of the digest is all that was written; every state passed |
| Imei.FalseSuccessInvalid | tools/nv_data-imei.c:793-820 | after status 0 from an empty transfer of the digest, with the old digest file unlinked, the pair never validates, and something can be loaded exactly if the backup was valid |
| Imei.FalseSuccessAt | tools/nv_data-imei.c:793-820 | after an empty transfer behind any number of digest bytes the pair validates exactly if the old digest file was kept, has 32 bytes and ends as the new digest does |
| Imei.FalseSuccessValidIff | tools/nv_data-imei.c:793-820 | such a transfer can leave a valid pair exactly if the old digest file was kept, has 32 bytes and the last byte of the new digest |
| Imei.FalseSuccessExists | tools/nv_data-imei.c:793-820 | such a state exists for every file of the right size and every IMEI that fits |
| Imei.ReadImei | tools/nv_data-imei.c:703-747 | the IMEI shown is decoded from the eight bytes of memory at the offset, in the file or behind its buffer |
| Imei.ImeiInsideIff | tools/nv_data-imei.c:703-747 | memory behind the buffer does not decide what is shown exactly if the offset lies within the file |
| Imei.ImeiEndToEnd | tools/nv_data-imei.c:703-820 | what write_imei stores is what read_imei shows and what the library loads; the pair validates exactly if no stale tail of the digest file is left |
| CallList.EntryExtract | samsung-ipc/call.c:62-90 | the walk with its 8-bit counter returns the entry at the followed offset exactly if it is announced and ends inside the buffer |
| CallList.NumberExtract | samsung-ipc/call.c:92-111 | the returned C string is the number up to its first NUL |
| CallList.WalkStaysInside | samsung-ipc/call.c:75-89 | if an entry is returned, every length byte read and every entry passed lay inside the buffer |
| CallList.ResultIsLocal | samsung-ipc/call.c:75-89 | memory behind the buffer never decides the result, although it may be read |
| CallList.StartOfSerialised | samsung-ipc/call.c:75-82 | following the length fields of a serialised list finds where each entry was put |
| CallList.EntryLayout | include/call.h:111-120 | byte by byte what an entry holds: six fields, the length of the number, one more, and the number |
| CallList.ExtractSerialised | samsung-ipc/call.c:62-111 | extraction returns the entries of a serialised list, all and no more, with their bytes and numbers |
| HexDump.DataDump | samsung-ipc/ipc_utils.c:44-180 | the logged strings are one escaped line for every sixteen bytes begun, which `DumpShows` reads; all buffer accesses are in bounds and the loop terminates |
| HexDump.BuildLine | samsung-ipc/ipc_utils.c:78-168 | despite the rollback one pass advances by the bytes of its line, and the line with its NUL fits the buffer |
| HexDump.EscapeBuffer | samsung-ipc/ipc_utils.c:170-177 | escaping the whole buffer, stale bytes included, stays within the second buffer and yields the escaped line |
| HexDump.LineFitsIff | samsung-ipc/ipc_utils.c:44-168 | a full line fits 81 bytes exactly below offset 0x10000000 |
| HexDump.PrintedEscape | samsung-ipc/ipc_utils.c:170-177 | using the escaped line as a format string prints the line |
| HexDump.DumpDetermines | samsung-ipc/ipc_utils.c:44-180 | equal dumps come from equal data |
| HexDump.DumpShows | samsung-ipc/ipc_utils.c:44-180 | for every byte of the data, the printed line has the offset of the line as hex digits in brackets, and in the places of its column the byte as two upper-case digits and as a character, a point if it is not printable |
| HexDump.CellShows | samsung-ipc/ipc_utils.c:97-137 | each of the sixteen columns holds its byte as two digits, or two blanks behind the data, and is followed by blanks |
| HexDump.AsciiShows | samsung-ipc/ipc_utils.c:145-166 | each byte of a line is shown as itself if printable and as a point if not, with a blank between the halves |
| HexDump.LineShows | samsung-ipc/ipc_utils.c:78-168 | every printed line is made of bracketed offset, columns and characters with three blanks between, and how long the character part is |
| Handover.ModemLoop.ResponseSec | tools/common/modem.c:106-199 | for every message of the group, what becomes of the modem state and whether the loop goes on, ends well or fails |
| Handover.ModemLoop.StartResponseHandle | tools/common/modem.c:273-297 | the same for the whole start handler |
| Handover.ModemLoop.ResponseHandle | tools/common/modem.c:317-358 | one message goes to one handler, and to which |
| Handover.ModemLoop.ReadLoop | tools/common/modem.c:362-426 | the loop's final statics, dispatch log and result are those of the run over its turns |
| Handover.AfterHandover | tools/common/modem.c:317-358 | after the handover everything goes to the application, the callback stays and the modem state is frozen |
| Handover.HandoverSplits | tools/common/modem.c:317-426 | every run is a prefix for the start handler and a suffix for the application, which is reached only in the wanted state |
| Handover.DispatchesInOrder | tools/common/modem.c:381-425 | no message is skipped, repeated or reordered |
| Handover.StateIsReported | tools/common/modem.c:106-297 | after every run the modem state is what the last power-up, phone-state or ready-SIM message to the start handler has told, or the first state |
| Handover.WantedIffReported | tools/common/modem.c:106-358 | a run that starts before the handover is in the wanted state at its end exactly if a message has told the start handler so |
| Handover.ResultIff | tools/common/modem.c:106-426 | every result of the loop, 0, -EACCES, -ENODEV or another failure, comes from exactly one of the listed turns; with 0 the application has taken over |
| Handover.ReadLoopSucceedsIff | tools/common/modem.c:106-426 | over all runs, result 0 of the read loop means the wanted state exactly if the loop starts in that state, or starts before the handover and waits for the SIM |
| Handover.WrongEndIff | tools/common/modem.c:106-426 | a run ends with 0 elsewhere than in the wanted state exactly if one of three turns ends it: a missing SIM or a SIM that becomes ready in the normal state while something else is waited for, or an application handler installed from the start |
| Upload.FindTocEntry | samsung-ipc/partitions/toc/toc.c:25-44 | the first entry with the name before the first empty name; none exactly if there is none |
| Upload.NamedIff | samsung-ipc/partitions/toc/toc.c:25-44 | when the twelve bytes of a name field match a name: up to a NUL, or as far as they go |
| Upload.TargetAgrees | samsung-ipc/devices/herolte/herolte.c:107-108 | the offset of an entry counts from the load address of the boot entry, modulo 2^32 |
| Upload.UploadChunk | samsung-ipc/devices/herolte/herolte.c:63-155 | for every table and firmware: the entries used are the first listed ones with their names; call i carries the i-th 62 KiB of the blob at the offset that far behind the target, modulo 2^32; without a wrap so much of the blob as was sent is in memory and nothing else changed, all of it on success; without failing calls it succeeds if both entries are listed and the blob lies in the firmware, and never returns exactly if the blob ends behind it |

## Left out

- NULL clients and NULL entries of the device tables: each function returns before its first system call.
- The inside of MD5: the digest is any function with 16-byte results. Atomicity assumes only that the torn states of the write at hand do not collide with its start; where calls may fail, also that the digest file left behind matches no mixture of the old file and the one written over it (`NoTornMatch`).
- Crashes of the kernel that lose or reorder completed system calls, and other processes that change the files meanwhile.
- Negative results of converting a large `unsigned int` offset to a 32-bit `off_t`: offsets and sizes are unbounded.
- Logging, ioctl, sysfs, termios, select, timeouts, sleeping and mmap: none of them carries data of the properties above.
- `data_read` and `data_write`: they never advance the buffer, so nothing holds under short transfers; of `data_read`, `Upload` models that it never returns at the end of a file.
- `ipc_rfs_nv_read_item_setup`: its size helper adds its own zero, so the layout claim does not hold; the two write-item extractors are reads at fixed offsets, on which no other property depends.
- The MIPI reply path, whose rounding is not to a multiple of four: replies are an oracle.
- `xmm626_mipi_ebl_send`, port configuration, security start and end, hardware reset: they send further packets of the same form before and after the images; what the images leave in memory does not depend on them.
- The `memcpy` path of `xmm616_nv_data_send` and `xmm616_firmware_send`, whose write loop is `WriteRemaining`.
- `bruteforce_imei_offset`: its `strncmp` stops at zero bytes, so exact matches are not what it decides.
- SMS packing, string tables, gprs, misc, net, sec, svc and gen fillers, `seq_get`: fixed layouts without state.
- Framing.Xmm626FmtRecv: models nothing behind the first copy that leaves the payload, reported as `outside`, where the original is undefined. The same holds for the other three receivers.
- Framing.Link: a transport may return 0 finitely often; endless empty transfers, on which the Aries loops never end, are not modelled.
- Framing.Xmm626FmtSend: requires that header and payload fit 65535 bytes; beyond it the original would copy past the buffer, which has the truncated length. The Aries sender is the same, and the RFS senders at 32 bits.
- FlashLoader.HsicCommandSend: requires data shorter than 2 GiB, because the checksum loop counts in a C `int`; MIPI is the same with its header.
- HexDump.DataDump: requires at most 0x10000000 bytes, beyond which the original overflows its line buffer (`LineFitsIff`).
- HexDump.PutCells: the two nested column loops run here as one loop over sixteen cells; likewise PutAscii.
- Upload.UploadChunk: assumes reads that deliver what they are asked for as far as the firmware goes, and says nothing about memory if the window wraps around 32 bits.
- Handover.ModemLoop.ReadLoop: the endless loop is modelled over any finite number of turns.
- `ipc_fmt_header_setup` and its three siblings fill caller-provided structs; here they return the filled value.

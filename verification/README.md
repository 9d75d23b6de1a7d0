# Verified model of the gas detection host

The program polls gas detectors over two Modbus dialects, shows their readings, raises alarms and
linkage actions, keeps records, and backs up and restores its data. This project models the parts of
it whose correctness is not visible in any one function, and proves what they promise: what the frame
check detects, that decoding inverts encoding, what the alarm table holds after any sequence of
batches, that three stores agree, when a failed restore leaves the files as they were, that a search
pattern means what was typed, and that conflicting operations stay apart.

Code that is made of expressions is modelled by functions; loops and objects that change their fields
are methods and classes, each proved to compute a function that lemmas then speak about. Every lemma is
marked `{:induction false}`: all induction is written out.

| file | contents |
|---|---|
| `Gf2`, `Crc`, `CrcDetection` | polynomials over GF(2), the CRC-16 loop, what it detects and what it misses |
| `Models`, `Modbus`, `Float32`, `Protocol1`, `Protocol2`, `Adapter`, `WireIntegrity` | requests, responses, decoding, and damaged responses |
| `Devices`, `Protocol1Device`, `Protocol2Device` | the device at the other end: what it measures, how it answers a request, and that polling it returns exactly that |
| `AlarmTable`, `Linkage`, `AlarmService` | alarm rows, linkage records, batches |
| `Thinning`, `Stores`, `PortWorker`, `Pipeline`, `WorkerPipeline` | the worker of one port, its stores, all workers as a transition system, and real workers taking turns seen in it |
| `ArchivePath`, `BackupPackage`, `BackupRoundTrip`, `ForeignArchive` | archives: creation, validation, extraction, and archives made elsewhere |
| `Restore`, `RestoreExactness`, `RestoreManifests` | a restore with rollback, the exact conditions on it, and the archives that break it |
| `OwnBackup` | the program's own files packed, validated, staged and restored |
| `RecordExport`, `HistoryQuery`, `LikePattern` | paged reads and search text |
| `RuntimeLocks`, `Acquisition`, `AcquisitionExposure` | the lock manager, the acquisition lifecycle, and when a restore can come beside a polling worker |

## What turned out not to hold

Each of these is a lemma about the code as it is; the exact condition is proved beside it.

- **Protocol 1 misses bursts of 9 bits across the start of the check field.** The high check byte goes first, so
  the check field is not the tail of the polynomial that the receiver divides. Every valid frame has a nine-bit
  burst that passes (`CrcDetection.HighFirstNineBitBurstMissed`), and for every probe response it is accepted with
  other data (`WireIntegrity.Protocol1AcceptsNineBitDamage`). Bursts of 8 bits are detected anywhere, and bursts of
  16 bits wherever they lie before the check field or in it (`CrcDetection.HighFirstBurstDetected`). Protocol 2
  detects every burst of 16 bits.
- **An export may repeat rows.** With a limit above 100 that is not a multiple of 100, and at least
  100 * (limit / 100) rows, the last page is read at the wrong offset (`RecordExport.ExportIsFirstRowsIff`).
- **A manifest may restore two items to one file, and then rollback puts back the wrong content.** A path that
  ends in white space is accepted after a trailing slash is dropped, and is made safe, hence shortened, again
  before it is opened and restored (`ArchivePath.IdempotentIff`, `BackupRoundTrip.StagedItemsDistinctIff`). The
  second item's backup overwrites the first one's with the restored file. `RestoreManifests` shows an archive
  that is accepted and staged (`SharedArchiveIsAccepted`), whose restore always fails, and which without any
  fault leaves the archive's content in place of the file (`SharedTargetLosesAFile`).
- **Rollback loses a file when one archive path is another's temporary name**, such as `config/x` before
  `config/.x.restore_tmp`: again an accepted archive (`RestoreManifests.ClashArchiveIsAccepted`,
  `RestoreManifests.ClashLosesAFile`). Apart from what an interrupted copy itself
  leaves behind, these two are the only causes: `RestoreExactness.RecoveredIs` says what a
  clean rollback leaves at every target, and `RestoreExactness.AlwaysExactIff` for which manifests that is
  always what was there.
- **One empty file stops every backup.** The program's own files make a package iff each has between 1 byte and 512
  mebibytes and a path of at most 260 characters (`OwnBackup.OwnIsUsable`, `OwnBackup.BackUpAndRestore`).
- **A file may come back under another name, or not at all.** When a backup of the program's own files is restored
  and nothing fails, a file is back in its own place iff its path does not end in white space, and it is there
  unless a later file worked through its name (`OwnBackup.BackUpAndRestore`).
- **A failed restore does not bring the database's sidecars back** once the database item went through; before
  that they are untouched (`Restore.RestoreValidatedFiles`).
- **The lock manager keeps a set, not a count.** When a manual and a scheduled backup overlap, the first to end
  releases both. Holders can come into conflict exactly when some operation was acquired while held
  (`RuntimeLocks.ExclusionIff`).
- **After a worker fails, stop may leave others polling, and a restore can run beside them.** A failure ends the
  status RUNNING, after which stop only changes the status; and a further start forgets the handles of workers
  that still poll, which a later stop then leaves alone. Stop ends all polling and frees the lock exactly when the
  service is running and every live worker has a handle, or there is nothing to stop (`Acquisition.StopStopsIff`).
  With two ports, a failure, a start of the failed port and a stop, the status is STOPPED, one worker polls, and a
  restore is granted (`AcquisitionExposure.StopAfterRestartLeavesWorker`). A run is safe throughout exactly when no
  worker fails in it while another one polls (`AcquisitionExposure.SafeThroughoutIff`).
- **A restore never stops a running acquisition.** It takes its own lock first, which is refused while the
  status is running (`Acquisition.RunningExcludesRestore`); the stop that follows finds nothing to stop.
- **After a link error the rest of a pass fails**, because the pass goes on with the closed channel
  (`PortWorker.PassHistoryEvents`). The counts and the offline set stay exact all the same.
- **A parser may raise on an accepted response**: exactly when a controller read reaches a detector number
  above 255 (`Protocol1.ControllerParseInverts`, `Protocol2.ParseInvertsEncoding`), or a probe request
  without a detector id has unit address 0 (`Protocol1.ProbeParse`). Requests built for a target never
  do (`Adapter.PolledReadingIsOwn`).

## Model

| member | source | states |
|---|---|---|
| Crc.ComputeModbusCrc16 | app/device/protocols/crc.py:21-35 | the nested loops over bytes and bits compute the register function that the lemmas are about; only the empty payload is refused |
| Crc.CheckAcceptsExactlyAppended | app/device/protocols/crc.py:51-72 | a frame passes the check iff it is what appending a checksum to some payload yields, in either byte order |
| CrcDetection.RegisterIsRemainder | app/device/protocols/crc.py:21-35 | the register, read as a polynomial, is congruent to sixteen ones followed by the message times x^16, modulo x^16+x^15+x^2+1 |
| CrcDetection.Crc16IsTheRemainder | app/device/protocols/crc.py:21-35 | a register value is the checksum of a payload iff its polynomial is that remainder, which is unique |
| CrcDetection.PassesIffMultiple | app/device/protocols/crc.py:63-72 | a frame passes iff the polynomial of the whole frame, check bytes put in low-first order, is a multiple of the generator |
| CrcDetection.ValidFramesHaveEvenWeight | app/device/protocols/crc.py:63-72 | every frame that passes has an even number of one bits |
| CrcDetection.OddErrorsDetected | app/device/protocols/crc.py:63-72 | flipping any odd number of bits of a valid frame makes the check fail, in both orders |
| CrcDetection.LowFirstBurstDetected | app/device/protocols/crc.py:63-72 | low byte first: every change inside 16 consecutive bits, check field included, makes the check fail |
| CrcDetection.HighFirstBurstDetected | app/device/protocols/crc.py:63-72 | high byte first: every change inside 8 consecutive bits makes the check fail, and so does every change inside 16 that lie before the check field or in it |
| CrcDetection.SingleByteErrorDetected | app/device/protocols/crc.py:63-72 | altering any one byte makes the check fail, in both orders |
| CrcDetection.LowFirstSeventeenBitBurstMissed | app/device/protocols/crc.py:63-72 | 16 is the best possible: a 17-bit burst leaves the verdict on every frame unchanged |
| CrcDetection.HighFirstNineBitBurstMissed | app/device/protocols/crc.py:63-72 | across the start of the check field 8 is the best possible: every valid frame has a 9-bit burst that passes |
| Modbus.RegistersOfBytes | app/device/protocols/protocol_2.py:252-253 | splitting registers into bytes and reading them back returns the registers |
| Modbus.BytesOfRegisters | app/device/protocols/protocol_1.py:269-270 | the other direction, for an even number of bytes |
| Modbus.RegisterValue | app/device/protocols/protocol_2.py:252-254 | a register holds the number that its two bytes make, high byte first |
| Modbus.RequestFrameAsks | app/device/protocols/protocol_2.py:65-78 | the frame of a request names the unit, function 3, the first register and the number of registers, high byte first, and passes the check in the adapter's order |
| Modbus.BaseAcceptsExactlyFrames | app/device/protocols/protocol_2.py:198-228 | base validation accepts a response iff it is the frame that carries the requested number of registers, for the requested unit and function, with its checksum |
| Modbus.BaseRejections | app/device/protocols/protocol_2.py:198-228 | which error a response is rejected with: the first of the checks, in order, that it fails |
| Modbus.AcceptedIsFrame | app/device/protocols/protocol_1.py:217-247 | the registers of an accepted response determine every byte of it |
| Float32.ConcentrationBound | app/device/protocols/protocol_2.py:256-264 | a decoded value is finite and at most a million in magnitude iff its exponent field is below 146, or 146 with a fraction of at most 7611392 |
| Float32.ScaledMonotone | app/device/protocols/protocol_2.py:256-260 | magnitudes are ordered as their exponent and fraction fields |
| Float32.ValueDeterminesRegisters | app/device/protocols/protocol_2.py:256-260 | a non-zero finite value comes from one register pair only |
| Float32.ValueIsIeee | app/device/protocols/protocol_2.py:256-260 | two registers decode to the number that IEEE 754 gives for their sign, exponent and fraction fields |
| Float32.FieldsOfHigh | app/device/protocols/protocol_2.py:256-260 | the three fields are where a register composed of them has them |
| Protocol2.ValidateBlocks | app/device/protocols/protocol_2.py:107-115 | the loop with early return gives the verdict of the first bad block |
| Protocol2.ValidateResponse | app/device/protocols/protocol_2.py:99-116 | the method computes the verdict that the lemmas are about |
| Protocol2.AcceptsExactlyEncodings | app/device/protocols/protocol_2.py:99-116 | a response is accepted iff it is the reference encoding of blocks with status 0..5, unit 0..4 and an admissible concentration, as many as requested |
| Protocol2Device.BlockRejections | app/device/protocols/protocol_2.py:99-116 | a block is rejected for its status first, and otherwise for its unit or its number |
| Protocol2.ParseBlocks | app/device/protocols/protocol_2.py:125-154 | the loop appends one reading a block, in order, or raises |
| Protocol2.ParseResponse | app/device/protocols/protocol_2.py:118-154 | the method computes the parse that the lemmas are about |
| Protocol2.ParseInvertsEncoding | app/device/protocols/protocol_2.py:118-154 | parsing an encoding returns the reading of each block, numbered from the start register; it raises iff a detector number exceeds 255 |
| Protocol2.ReadingDeterminesBlock | app/device/protocols/protocol_2.py:125-154 | a reading comes from one block only, up to the sign of a zero concentration |
| Protocol2.ReadingsDetermineResponse | app/device/protocols/protocol_2.py:118-154 | two accepted responses with equal readings encode the same blocks up to the signs of zero concentrations, and without those are the same frame |
| Protocol2.OneReadingForTarget | app/device/protocols/protocol_2.py:156-195 | any accepted response to the request built for a target gives one reading, with the target's detector, address and controller |
| Protocol2.RequestIsBuiltIff | app/device/protocols/protocol_2.py:50-97 | a request is built iff its address, port, time limit and register range are in their limits |
| Protocol2.RequestAsks | app/device/protocols/protocol_2.py:50-97 | a built request's frame asks the unit for exactly these registers, and its fields say the same |
| Protocol2.TargetIsPolledIff | app/device/protocols/protocol_2.py:156-188 | a target can be polled iff it has the addresses it needs, none of them 0 |
| Protocol2.TargetAsks | app/device/protocols/protocol_2.py:156-188 | a probe is asked for registers 0 to 3, a controller for the four registers of the target's detector number |
| Protocol2Device.SamplesAcceptedIff | app/device/protocols/protocol_2.py:99-116 | a response that carries samples is accepted iff every number is finite and between minus and plus one million |
| Protocol2Device.SamplesAreRead | app/device/protocols/protocol_2.py:118-154 | the readings tell the status, level, gas, unit and signed number of each sample that was put into the registers |
| Protocol2Device.ControllerPolled | app/device/protocols/protocol_2.py:50-188 | the frame for a target, answered by a controller with these samples, gives one reading, which tells the sample of that detector |
| Protocol2Device.ProbePolled | app/device/protocols/protocol_2.py:50-188 | the same for a probe |
| Protocol1.ValidateStatuses | app/device/protocols/protocol_1.py:111-115 | the loop over the even registers finds the first unknown status |
| Protocol1.ValidateResponse | app/device/protocols/protocol_1.py:103-115 | the method computes the verdict that the lemmas are about |
| Protocol1.AcceptsExactlyEncodings | app/device/protocols/protocol_1.py:103-115 | a response is accepted iff it is the reference encoding of registers: for a controller an even number up to 20 with statuses 0..2, for a probe any |
| Protocol1.OwnRejections | app/device/protocols/protocol_1.py:103-115 | after the common checks a probe's response is accepted, and a controller's rejected for more than ten detectors or a broken pair, and then for an unknown status |
| Protocol1.ParseController | app/device/protocols/protocol_1.py:186-214 | the loop appends one reading a register pair, in order, or raises |
| Protocol1.ParseResponse | app/device/protocols/protocol_1.py:117-124 | the method computes the parse that the lemmas are about |
| Protocol1.ControllerParseInverts | app/device/protocols/protocol_1.py:186-214 | parsing an encoding returns the reading of each pair; it raises iff a detector number exceeds 255 |
| Protocol1.ControllerReadingsDetermineResponse | app/device/protocols/protocol_1.py:186-214 | two accepted controller responses with equal readings are the same frame |
| Protocol1.AlarmLevelIsHighestBit | app/device/protocols/protocol_1.py:273-284 | the alarm level is the highest alarm bit that is set, and there is one iff the probe is in alarm |
| Protocol1.ProbeParse | app/device/protocols/protocol_1.py:155-184 | an accepted probe response parses to one reading, except that unit address 0 without a detector id raises |
| Protocol1.ProbeReadingMeaning | app/device/protocols/protocol_1.py:155-184 | status, level and concentration of a reading in terms of the probe's data; concentration times 10^decimals is the signed magnitude |
| Protocol1.SignedRoundTrip | app/device/protocols/protocol_1.py:295-297 | every integer from -32767 to 32767 survives sign-and-magnitude coding |
| Protocol1.ProbeRoundTrip | app/device/protocols/protocol_1.py:155-184 | encoding a value, state, gas, unit and scale and parsing the response gives them back |
| Protocol1.OneReadingForTarget | app/device/protocols/protocol_1.py:126-153 | any accepted response to the request built for a target gives one reading, with the target's detector, address and controller |
| Protocol1.RequestIsBuiltIff | app/device/protocols/protocol_1.py:53-101 | a request is built iff its address, port, time limit and register range are in their limits |
| Protocol1.RequestAsks | app/device/protocols/protocol_1.py:53-101 | a built request's frame asks the unit for these registers, their number modulo 65536, and its fields say the same |
| Protocol1.TargetIsPolledIff | app/device/protocols/protocol_1.py:126-153 | a target can be polled iff it has the addresses it needs, none of them 0 |
| Protocol1.TargetAsks | app/device/protocols/protocol_1.py:126-153 | a probe is asked for registers 0 to 14, a controller for the two registers of the target's detector number |
| Protocol1Device.SamplesAreRead | app/device/protocols/protocol_1.py:186-214 | a controller's response is accepted, and its readings tell the status, level and value of each detector; it raises iff a detector number exceeds 255 |
| Protocol1Device.ControllerPolled | app/device/protocols/protocol_1.py:53-214 | the frame for a target, answered by a controller with these samples, gives one reading, which tells the sample of that detector |
| Protocol1Device.ProbeReadingTells | app/device/protocols/protocol_1.py:155-184 | a probe's reading tells the status, level, number, gas and unit that its data bytes stand for |
| Protocol1Device.ProbePolled | app/device/protocols/protocol_1.py:53-184 | the frame for a probe, answered by it, gives one reading, which tells its sample |
| WireIntegrity.Protocol2RejectsBursts | app/device/protocols/protocol_2.py:198-228 | a response that differs from an accepted one only inside 16 consecutive bits is rejected for the same request |
| WireIntegrity.Protocol1RejectsBursts | app/device/protocols/protocol_1.py:217-247 | the same inside 8 consecutive bits, or inside 16 before the check field or in it |
| WireIntegrity.OddDamageIsRejected | app/device/protocols/protocol_2.py:99-116 | an odd number of flipped bits turns acceptance into rejection, in both protocols |
| WireIntegrity.AlteredByteIsRejected | app/device/protocols/protocol_1.py:103-115 | so does any one altered byte |
| WireIntegrity.Protocol1AcceptsNineBitDamage | app/device/protocols/protocol_1.py:103-115 | every accepted probe response with data has a nine-bit burst that is accepted and decodes to other registers |
| Adapter.TargetRequestsArePollable | app/device/polling/port_worker.py:196-208 | requests built for targets name a detector and are such that no parser raises on them |
| Adapter.PolledReadingIsOwn | app/device/polling/port_worker.py:163-175 | what a polled request accepts is one reading of the polled detector, on which the worker's counters rely |
| Adapter.RequestsAreConfigured | app/device/polling/port_worker.py:196-208 | only detectors of the port's configuration are polled |
| Adapter.ConfigIsPolledIff | app/device/polling/port_worker.py:196-209 | the requests of a port can be built iff port, time limit and the ids and addresses of every target are in their limits and no group is empty |
| PortWorker.TargetsArePolled | app/device/polling/port_worker.py:196-209 | every target of every group is polled in its place, over this port in this protocol, and nothing else is |
| AlarmTable.RowsAreRuns | app/services/alarm_service.py:44-108 | from an empty table, the alarm rows of a detector in order of creation are the run-length encoding of its readings other than INVALID, without the NORMAL runs: start, level and value from the first reading of a run, end from the first of the next |
| AlarmTable.InterleavingDoesNotMatter | app/services/alarm_service.py:44-108 | the rows of a detector depend on its own readings only |
| AlarmTable.ActiveIsImageOfLast | app/services/alarm_service.py:51-91 | the active alarms of a detector are exactly what the status of its last reading calls for |
| AlarmTable.AtMostOneActive | app/db/repositories/alarm_repository.py:28-66 | no detector ever has two active rows |
| AlarmTable.TypeStandsForStatus | app/services/alarm_service.py:11-19 | each status but NORMAL and INVALID opens the one alarm type that stands for it |
| AlarmService.AlarmService.RecoverActive | app/db/repositories/alarm_repository.py:68-84 | the table after ending the active rows of one type, and whether there was one |
| AlarmService.AlarmService.CreateActive | app/db/repositories/alarm_repository.py:34-66 | the id of the active row of that type if there is one, otherwise a new row and its id |
| AlarmService.AlarmService.Reconfigure | app/services/linkage_service.py:109-137 | rules may be edited between batches without disturbing what holds of the tables |
| AlarmService.AlarmService.TriggerForAlarm | app/services/linkage_service.py:189-213 | the record table and the returned ids after the matching rules have inserted their records |
| AlarmService.AlarmService.RecoverOthers | app/services/alarm_service.py:55-77 | walking over the rows that were active at the start recovers exactly the rows of other types |
| AlarmService.AlarmService.IngestReading | app/services/alarm_service.py:49-107 | one reading changes the tables and the four parts of the result as the ledger function says, and the table stays a replay of all readings so far |
| AlarmService.AlarmService.IngestReadings | app/services/alarm_service.py:44-108 | the same for a batch, for any tables that earlier batches left |
| AlarmService.BatchBalances | app/services/alarm_service.py:44-108 | active alarms after a batch are those before plus created minus recovered |
| AlarmService.BatchLinksEveryCreatedAlarm | app/services/linkage_service.py:189-213 | each created alarm has one automatic record for every matching rule and none for others; the returned ids are exactly the inserted rows; no alarm and rule ever have two |
| AlarmService.SplittingDoesNotMatter | app/services/alarm_service.py:44-108 | how readings are split into batches does not matter for the alarm table |
| Linkage.MatchingDistinct | app/db/repositories/linkage_repository.py:127-148 | no rule matches twice |
| Linkage.MatchesIff | app/db/repositories/linkage_repository.py:127-148 | a rule matches iff it and its object are enabled and not deleted and its three conditions are open or met |
| Linkage.FreshAlarmGetsOneRecordPerRule | app/db/repositories/linkage_repository.py:156-198 | for an alarm without records every rule inserts one, in order |
| Linkage.AddAllKeepsUnique | app/db/repositories/linkage_repository.py:156-198 | inserting or ignoring keeps automatic records unique per alarm and rule |
| Thinning.RecordsAreThinning | app/device/polling/port_worker.py:265-277 | with any number of detectors interleaved, the records of each are the greedy thinning of its own readings |
| Thinning.FirstIsKept | app/device/polling/port_worker.py:269-277 | whatever else is polled, the first reading of a detector is recorded |
| Thinning.ThinApart | app/device/polling/port_worker.py:269-277 | consecutive records are at least the interval apart |
| Thinning.SkippedAreClose | app/device/polling/port_worker.py:269-277 | every reading is recorded or closer than the interval to the last record before it |
| Thinning.WindowBound | app/device/polling/port_worker.py:103-107 | a window of length T holds at most floor(T / interval) + 1 records |
| Thinning.KeptConcat | app/device/polling/port_worker.py:265-277 | thinning two batches one after the other is thinning their concatenation |
| Stores.StateStore.Put | app/core/state_store.py:34-40 | one reading replaces the entry of its detector and extends its bounded cache |
| Stores.StateStore.UpdateReadings | app/core/state_store.py:32-44 | after any updates each entry is the latest reading of its detector and each cache its last n readings; readings without a usable id are skipped; the usable ones are published unless the throttle holds them back |
| Stores.StateStore.GetCurveCache | app/core/state_store.py:57-59 | returns the last n readings of the detector |
| Stores.BoundedAppendLastN | app/core/state_store.py:38-40 | appending to a full bounded queue keeps the last n of the whole |
| Stores.RuntimeTables.UpsertReading | app/db/repositories/runtime_repository.py:23-53 | one snapshot row a detector, holding its latest reading |
| Stores.RuntimeTables.AddReading | app/db/repositories/runtime_repository.py:96-123 | one more record, the others as they were |
| PortWorker.PortWorker.Open | app/device/polling/port_worker.py:120-131 | opening neither counts nor clears failures of detectors |
| PortWorker.PortWorker.HandleChannelFailure | app/device/polling/port_worker.py:210-220 | one more failure of the request's detector; offline and an offline reading iff the threshold is reached; reopening loses no count |
| PortWorker.PortWorker.RecordSuccess | app/device/polling/port_worker.py:236-241 | clears the counts of exactly the detectors read, however many readings there are |
| PortWorker.PortWorker.PersistAndPublish | app/device/polling/port_worker.py:265-279 | snapshots, alarms and published state are extended by the same readings, the records by exactly the due ones |
| PortWorker.PortWorker.Receive | app/device/polling/port_worker.py:159-175 | whether a response that arrived counts as invalid or as a success, and what it is worth |
| PortWorker.PortWorker.PollRequest | app/device/polling/port_worker.py:150-175 | a failed, a rejected and an accepted answer are counted as failure, invalid and valid; the readings are what the adapter decodes, the offline reading comes iff the trailing run of failures reaches the threshold, and reopening decides whether the port is open |
| PortWorker.PortWorker.CollectPass | app/device/polling/port_worker.py:150-175 | the events, the valid readings, the offline readings and the failure count of a pass are those its answers determine; after every request each count is the length of the trailing run of channel failures and the offline set is where it reaches the threshold |
| PortWorker.PassHistoryEvents | app/device/polling/port_worker.py:146-175 | a pass has one event for each request, in order, and after a link error every later request of it fails as not open |
| PortWorker.PortWorker.PublishPass | app/device/polling/port_worker.py:176-185 | valid readings are published and thinned first, offline readings after them; the records added are the due ones of both, and every offline detector has an active offline alarm |
| PortWorker.PortWorker.PollOnce | app/device/polling/port_worker.py:144-185 | one pass: counts and offline set stay exact over passes and reopens, stores and records are fed what was collected, and after a pass with one request a detector every offline detector has an active offline alarm |
| PortWorker.PortWorker.Run | app/device/polling/port_worker.py:110-118 | over any number of passes, also with one that raises, the three stores are given the same readings and the records grow by what was due; the port is closed at the end |
| PortWorker.LastTargetDecides | app/device/polling/port_worker.py:103-108 | both dictionaries hold for a detector what its last target in group order says, the interval being at least 1 |
| PortWorker.IntervalIsConfigured | app/device/polling/port_worker.py:103-107 | the interval is the larger of 1 and the seconds of the last target, and 60 without a target |
| PortWorker.IntervalExists | app/device/polling/port_worker.py:103-107 | every detector has exactly one such interval |
| PortWorker.OfflineReadingIs | app/device/polling/port_worker.py:243-263 | an offline reading has the addresses of the detector's last target and no value |
| PortWorker.WrittenIsThinning | app/device/polling/port_worker.py:265-277 | the written records of a detector are the greedy thinning of its readings by the configured number of seconds; the first is there |
| PortWorker.WrittenInWindow | app/device/polling/port_worker.py:265-277 | a window of time holds no more of them than floor(span / configured seconds) + 1 |
| PortWorker.LastOfflineRaisesAlarm | app/device/polling/port_worker.py:243-263 | a detector whose last reading is OFFLINE has an active offline alarm |
| PortWorker.OthersDoNotMatter | app/device/polling/port_worker.py:144-185 | readings of other detectors, also from other workers, leave a detector's alarms alone |
| Pipeline.RunKeepsInvariant | app/device/polling/port_worker.py:265-279 | the invariant that relates the three stores and the alarm table holds in every interleaving of the workers' steps |
| Pipeline.StoresAgree | app/device/polling/port_worker.py:265-279 | between batches of its worker, the snapshot row, the state store entry and the last cached point of a detector are the same reading, the cache is the last 600, and the active alarms are those of its status |
| Pipeline.LagIsOneBatch | app/device/polling/port_worker.py:265-279 | inside a batch the alarm table lacks exactly that batch |
| WorkerPipeline.ValidIsOwn | app/device/polling/port_worker.py:163-175 | the valid readings of a pass are of the worker's own detectors and none is INVALID |
| WorkerPipeline.OfflineIsOwn | app/device/polling/port_worker.py:243-263 | so are its offline readings |
| WorkerPipeline.PassContinuesRun | app/device/polling/port_worker.py:176-185 | what a pass gives to the stores is what further pipeline steps give to the pipeline's logs |
| WorkerPipeline.StoreFieldsAgree | app/core/state_store.py:32-59 | between batches, a detector's snapshot row, state store entry and last cached point hold one reading, the cache is the bounded tail, and the active alarms are those of its status |
| WorkerPipeline.PollInPipeline | app/device/polling/port_worker.py:144-185 | one pass of a real worker keeps stores and pipeline in step, gives them its own batch only, and afterwards the fields agree for all its detectors |
| WorkerPipeline.SurvivesOthers | app/device/polling/port_worker.py:176-185 | a worker's counts, offline set and active offline alarms stay right when another worker publishes its batch |
| WorkerPipeline.NewTeam | app/device/polling/acquisition_service.py:89-105 | on empty stores, one worker for each port begins in step with the pipeline |
| WorkerPipeline.TakeTurns | app/device/polling/port_worker.py:144-185 | any number of real workers polling in any order stay valid, and in the end the fields agree for every detector of every worker |
| ArchivePath.AcceptedIsSafe | app/services/backup_package.py:264-277 | a returned path is two or more proper names joined, the first an allowed directory, within 260 characters |
| ArchivePath.AcceptedIff | app/services/backup_package.py:264-277 | which values are accepted: not absolute, no piece "..", at least two names below one of the three directories, at most 260 characters; the names joined come out |
| ArchivePath.StripIs | app/services/backup_package.py:265-267 | stripping takes white space away at both ends, all of it, and nothing else |
| ArchivePath.SpacesAre | app/services/backup_package.py:265-267 | the white space that is stripped, character by character |
| ArchivePath.ComponentsAppend | app/services/backup_package.py:268-277 | the components of pieces are those of their parts, in order |
| ArchivePath.ComponentsOfOne | app/services/backup_package.py:268-277 | a piece is a component unless it is empty or a dot |
| ArchivePath.ResolveSteps | app/services/backup_package.py:280-288 | a dot stays, a name goes down, two dots go back up |
| ArchivePath.IdempotentIff | app/services/backup_package.py:264-277 | making a returned path safe again changes nothing iff it does not end in white space |
| ArchivePath.FixedPoints | app/services/backup_package.py:264-277 | the paths returned unchanged are exactly the short joins of safe names that do not end in white space |
| ArchivePath.EverySafePathComesOut | app/services/backup_package.py:264-277 | a path that ends in white space can come out, for any safe one below the length limit |
| ArchivePath.AcceptedStaysUnderRoot | app/services/backup_package.py:280-288 | a returned path resolves to itself below any root |
| ArchivePath.JoinInjective | app/services/backup_package.py:264-277 | different name lists make different paths |
| BackupPackage.CreateBackupPackage | app/services/backup_package.py:81-103 | succeeds iff there is a source and all are usable; the archive is the manifest and then every source under its safe path |
| BackupPackage.ParseManifest | app/services/backup_package.py:168-196 | returns the only manifest that the text stands for, or fails when it stands for none |
| BackupPackage.FileIsTakenIff | app/services/backup_package.py:174-187 | a file item is taken iff its path is accepted, its kind is one of three, its size between 1 and 512 mebibytes, and its digest 64 hexadecimal digits |
| BackupPackage.MentionsIff | app/services/backup_package.py:229-230 | a path mentions a license iff the seven letters follow each other in it, in either case |
| BackupPackage.ValidateManifest | app/services/backup_package.py:214-232 | the loop with its seen set accepts iff paths are distinct, none mentions a license, and the database is there |
| BackupPackage.ValidateZipInfos | app/services/backup_package.py:252-261 | the loop with its running total accepts iff every name and size and the sum are within the limits |
| BackupPackage.ValidateZipManifestMatch | app/services/backup_package.py:235-249 | accepts iff the names are exactly the manifest's and every content has its size and digest |
| BackupPackage.ValidateBackupPackage | app/services/backup_package.py:106-132 | returns a manifest with which the archive is accepted, or fails when there is none |
| BackupPackage.AcceptedGuarantees | app/services/backup_package.py:106-132 | an accepted archive keeps the limits on size, number and total of its files, and every file in it but the manifest has an accepted path that the manifest lists |
| BackupPackage.LookupLast | app/services/backup_package.py:143-145 | of several entries with one name the last is opened |
| BackupPackage.Counts | app/services/backup_package.py:252-261 | a file counts once and with its size, a directory for nothing |
| BackupPackage.TruncatedIs | app/services/backup_package.py:143-147 | at most one byte more than the limit is read of an entry |
| BackupPackage.BlockedIff | app/services/backup_package.py:142-147 | a file can be written beside those before it iff none lies inside another |
| BackupPackage.ExtractPackage | app/services/backup_package.py:135-150 | succeeds iff every item can be opened with the stated content and none lies inside another; the tree then holds those contents and nothing else |
| BackupRoundTrip.CreatedIsAcceptedIff | app/services/backup_package.py:81-132 | a created archive is accepted iff it is within the limits, its manifest is acceptable and no path ends in white space, and then with the manifest that was written |
| BackupRoundTrip.ArchiveIsAccepted | app/services/backup_package.py:106-132 | any archive whose manifest text parses to its entries, within the limits, is accepted |
| BackupRoundTrip.CreatedExtracts | app/services/backup_package.py:135-150 | extracting it succeeds iff no path lies inside another, and returns the bytes of every source and nothing else |
| BackupRoundTrip.ExtractValidatedPackage | app/services/backup_package.py:135-150 | validation and extraction together |
| BackupRoundTrip.RoundTrip | app/services/backup_package.py:81-165 | creating, validating and staging returns every source iff the archive fits and no path lies inside another |
| BackupRoundTrip.StagedItemsDistinctIff | app/services/backup_package.py:199-200 | the files that a staged archive is restored from are distinct iff no manifest path ends in white space |
| Restore.RestoreTargetInjective | app/services/backup_service.py:346-357 | different archive paths never restore to the same file |
| Restore.TargetForIff | app/services/backup_service.py:346-357 | exactly the database and what lies below config and maps has a target, and where that is |
| Restore.SharedTargetSameItem | app/services/backup_service.py:346-357 | items that share a target share their staged file |
| Restore.TargetIsLive | app/services/backup_service.py:346-357 | targets and their temporary names lie in the live directories, never in backups, and a target is no database sidecar |
| Restore.SidecarsAre | app/services/backup_service.py:380-387 | the sidecars are the two files beside the database with -wal and -shm after its name |
| Restore.BackupOriginal | app/services/backup_service.py:359-366 | no copy iff the target is missing; a copy equals the target; nothing else changes |
| Restore.RemoveSidecars | app/services/backup_service.py:380-387 | both sidecars of the database are gone unless a removal failed, and nothing else changes |
| Restore.NoSidecarsIff | app/services/backup_service.py:380-387 | they are gone iff neither is there |
| Restore.RestoreItem | app/services/backup_service.py:290-302 | without faults it goes through iff there is a target and a staged file; if it goes through, the target holds the staged file; if anything fails, the target is as it was; the rollback entry leads back to the old content |
| Restore.RollbackRestoredFiles | app/services/backup_service.py:368-378 | the reverse loop, when none of its steps fails, leaves at every listed target what its first entry leads to; without faults none fails |
| Restore.RestoreValidatedFiles | app/services/backup_service.py:282-306 | for any manifest and a fault at any step: what every path holds after success, and after a failure with a clean rollback; without faults it succeeds iff every item has a target and a staged file; paths that are no targets are untouched except temporary names, the rollback directory and, once the database is restored, its sidecars |
| RestoreExactness.SuccessIsCompleteIff | app/services/backup_service.py:290-304 | after success a target holds its staged file iff no item works through its name after the last one that restores it |
| RestoreExactness.RecoveredIs | app/services/backup_service.py:368-378 | what a failure and a clean rollback leave at a target: nothing, the staged file, or what was there, and when |
| RestoreExactness.RollbackIsExactIff | app/services/backup_service.py:368-378 | a target is as before iff nothing was there, or it was neither taken away before it was backed up nor backed up again holding a restored file of other content |
| RestoreExactness.AlwaysExactIff | app/services/backup_service.py:290-306 | rollback after a failure at an item is exact for every disk content iff no target is taken away early and none is backed up again |
| RestoreManifests.ClashOnPaths | app/services/backup_service.py:297-299 | one target is another's temporary name iff the archive paths say so |
| RestoreManifests.ExactIffDistinct | app/services/backup_service.py:290-306 | without temporary names among the archive paths, rollback is always exact iff the items are distinct |
| RestoreManifests.ExactIffNothingTaken | app/services/backup_service.py:290-306 | with distinct items, it is always exact iff no earlier item's temporary name is a later archive path |
| RestoreManifests.FailureIsUndone | app/services/backup_service.py:282-306 | with distinct items, none up to the failing one having a later item's path as temporary name, a clean rollback after any fault leaves every target as it was |
| RestoreManifests.StagedItemsDistinctIff | app/services/backup_package.py:199-200 | the items of a validated and staged archive are distinct iff no manifest path ends in white space |
| RestoreManifests.ValidatedExactIff | app/services/backup_service.py:282-306 | for such an archive, all items with targets and none another's temporary name, rollback is always exact iff no manifest path ends in white space |
| RestoreManifests.SharedArchiveIsAccepted | app/services/backup_package.py:106-150 | an archive with two items for one file is accepted and staged |
| RestoreManifests.SharedTargetLosesAFile | app/services/backup_service.py:290-306 | its restore fails without any fault and leaves the archive's content where the file was |
| RestoreManifests.ClashArchiveIsAccepted | app/services/backup_package.py:106-150 | an archive with a path and its temporary name is accepted and staged |
| RestoreManifests.WitnessesAreAccepted | app/services/backup_package.py:106-150 | two such archives with given names and one-byte files are accepted and staged, for every digest and every manifest text of at most a mebibyte |
| RestoreManifests.ClashLosesAFile | app/services/backup_service.py:290-306 | its restore fails without any fault and the file under the temporary name is gone |
| OwnBackup.PackedUnder | app/services/backup_service.py:328-344 | a live file is packed below its own directory, and under its own path iff that does not end in white space |
| OwnBackup.OwnIsUsable | app/services/backup_package.py:203-211 | a live file can be packed iff it has between 1 byte and 512 mebibytes and a path of at most 260 characters |
| OwnBackup.FilesComeBack | app/services/backup_service.py:282-306 | without faults the restore succeeds, and a file is back iff no later one works through its name |
| OwnBackup.BackUpAndRestore | app/services/backup_service.py:250-306 | database, configuration and maps packed, validated, staged and restored: when this succeeds, and that every file comes back to its own place, and which do not |
| RecordExport.PagesArePrefix | app/db/repositories/record_repository.py:194-209 | the first k pages, one after the other, are the front of the ordered rows |
| RecordExport.ExportRecords | app/db/repositories/record_repository.py:166-192 | the loop ends and returns whole pages of 100 followed by one page of the rest, which is the first rows when the limit fits |
| RecordExport.ExportIsFirstRowsIff | app/db/repositories/record_repository.py:166-192 | the export is the first min(limit, total) rows iff the limit is at most 100, a multiple of 100, or not reached by whole pages; otherwise a row comes twice |
| HistoryQuery.GatherRows | app/services/chart_service.py:107-138 | the nested loops end and gather every row of every detector, or refuse more than 1000 |
| HistoryQuery.QueryHistory | app/services/chart_service.py:102-144 | returns one page of the sorted arrangement and the number of all rows |
| HistoryQuery.PagesAreTheArrangement | app/services/chart_service.py:102-144 | all pages, one after the other, are a sorted arrangement of exactly the gathered rows |
| HistoryQuery.SortedByTime | app/services/chart_service.py:139-140 | sorted rows go from the earliest to the latest, or the other way round, and at one time by id |
| HistoryQuery.EachRowPerOccurrence | app/services/chart_service.py:110-137 | a row comes as often as its detector is asked for |
| HistoryQuery.SortedIsUnique | app/services/chart_service.py:139-140 | rows with distinct ids have one sorted arrangement only |
| HistoryQuery.DetectorOrderDoesNotMatter | app/services/chart_service.py:102-144 | the order in which detectors are named does not change the result |
| LikePattern.NormalisedKeepsWords | app/db/repositories/record_repository.py:415-419 | normalising keeps the words of a text and is idempotent |
| LikePattern.WordsSplitAtSpace | app/db/repositories/record_repository.py:415-419 | every white space separates words, so the words of a text are its runs of other characters |
| LikePattern.WordsOfWord | app/db/repositories/record_repository.py:415-419 | a text without white space is one word |
| LikePattern.SpacedSnoc | app/db/repositories/record_repository.py:415-419 | words are joined by one space |
| LikePattern.TextIs | app/db/repositories/record_repository.py:415-419 | what is searched for is the longest prefix within the limit of the words one space apart |
| LikePattern.EscapedIsCharacterwise | app/db/repositories/record_repository.py:402-405 | the three replacements, one after the other, put one backslash before each special character |
| LikePattern.PatternMatchesIffOccurs | app/db/repositories/record_repository.py:289-309 | the pattern matches a stored text iff the words of the value, one space apart and cut off at the limit, occur in it, up to case folding; when they fit, iff all of them do |
| RuntimeLocks.RuntimeLockManager.AcquireOperation | app/core/runtime_locks.py:33-45 | granted only when nothing active is in conflict, whatever others did while waiting; otherwise nothing changes; without waiting it is granted iff there is no conflict |
| RuntimeLocks.RuntimeLockManager.ReleaseOperation | app/core/runtime_locks.py:47-50 | removes the operation, whoever else holds it |
| RuntimeLocks.ConflictsAreMutual | app/core/runtime_locks.py:14-19 | the conflict table is symmetric and no operation is in conflict with itself |
| RuntimeLocks.ConflictIff | app/core/runtime_locks.py:14-19 | two operations conflict iff they differ and one of them is a restore or a migration |
| RuntimeLocks.ActiveNeverInConflict | app/core/runtime_locks.py:33-50 | in every reachable state no two active operations are in conflict |
| RuntimeLocks.HoldersNeverInConflict | app/core/runtime_locks.py:33-50 | if no operation is acquired while held, the active operations are the held ones and no two holders are ever in conflict |
| RuntimeLocks.CanConflictIff | app/core/runtime_locks.py:33-50 | a run has a continuation in which only what nobody holds is acquired and two holders end in conflict iff at its end some operation is held twice or is held and no longer active |
| RuntimeLocks.ExclusionIff | app/core/runtime_locks.py:33-50 | in a run no operation is acquired while held iff at no point of it two holders can still come into conflict |
| RuntimeLocks.ActiveIffAcquiredLast | app/core/runtime_locks.py:33-50 | an operation is active iff the last step about it is an acquisition |
| Acquisition.AcquisitionService.Start | app/device/polling/acquisition_service.py:71-116 | every path of start, with a failure at any point, ends in the state of the transition function, and reports success iff the service is running |
| Acquisition.AcquisitionService.Stop | app/device/polling/acquisition_service.py:118-130 | the state after stop, and that nothing else changes |
| Acquisition.AcquisitionService.CancelWorkers | app/device/polling/acquisition_service.py:219-231 | ends exactly the workers that have handles |
| Acquisition.AcquisitionService.ReleaseRuntimeLock | app/device/polling/acquisition_service.py:233-237 | gives the lock back iff the service holds it |
| Acquisition.AcquisitionService.WorkerFailed | app/device/polling/acquisition_service.py:211-214 | a failed worker ends the status RUNNING and touches nothing else |
| Acquisition.NextIsSound | app/device/polling/acquisition_service.py:71-130 | every event keeps: RUNNING means lock held and handles present, and the service holds the lock iff "acquisition" is active |
| Acquisition.RunsAreSound | app/device/polling/acquisition_service.py:71-130 | in every run, while the status is RUNNING no restore and no migration is active |
| Acquisition.RunningExcludesRestore | app/services/backup_service.py:205-209 | RUNNING and an active restore exclude each other |
| Acquisition.CoveredAfterIff | app/device/polling/acquisition_service.py:71-116 | of all events, exactly a start over live workers leaves a worker without a handle or without the lock |
| Acquisition.CoveredWithoutFailures | app/device/polling/acquisition_service.py:71-130 | without worker failures, workers poll only while the service is running, all with handles and under the lock |
| Acquisition.CoveredExcludesRestore | app/device/polling/acquisition_service.py:71-130 | no covered worker polls beside a restore or a migration |
| Acquisition.StopStopsIff | app/device/polling/acquisition_service.py:118-130 | in every state, stop ends all polling and frees the lock iff the service is running and every live worker has a handle, or nothing polls and the lock is free |
| AcquisitionExposure.ExposedAfterIff | app/device/polling/acquisition_service.py:71-130 | of all events, exactly the failure of a worker while another one polls leaves workers polling while the service is not running or without a handle |
| AcquisitionExposure.CanEndBesideIff | app/device/polling/acquisition_service.py:84-130 | at any point of a run, it has a continuation without worker failures to a restore or migration beside a live worker iff workers are so exposed there |
| AcquisitionExposure.SafeThroughoutIff | app/device/polling/acquisition_service.py:71-130 | at no point of a run this can still happen iff no worker fails in it while another one polls |
| AcquisitionExposure.FailureLeavesLiveWorker | app/device/polling/acquisition_service.py:211-214 | two workers, one of which fails, lead to an exposed state |
| AcquisitionExposure.StopAfterRestartLeavesWorker | app/device/polling/acquisition_service.py:89-130 | starting the failed port again and stopping leaves the other worker polling without the lock, and a restore is granted beside it |

## Left out

- Protocol2.ParseInvertsEncoding: readings carry no raw hexadecimal text, and all readings of a response share one time.
- Protocol2.ReadingsDetermineResponse: plus and minus zero are the same real number here, so the sign of a zero is not determined.
- Protocol1.ProbeReadingMeaning: the concentration is an exact quotient; the rounding of the division to a double is not modelled.
- Float32.ConcentrationBound: the value is the real number that the bits denote; not-a-number and infinities are told apart by their exponent field only.
- Protocol2Device.ControllerPolled: the device's registers do not change between the request and the answer, and it answers nothing else.
- Protocol1Device.ProbeReadingTells: the number is an exact quotient, as in Protocol1.ProbeReadingMeaning.
- AlarmTable.RowsAreRuns: rows are never deleted in the model, and times are integers; the database's time of update is not kept.
- AlarmService.AlarmService.IngestReadings: a batch is one committed transaction; a database error, which undoes the whole batch, is not modelled.
- Thinning.WindowBound: assumes that the monotonic clock does not go back.
- PortWorker.PortWorker.PollOnce: what the channel answers, whether it opens, and the clock are arbitrary inputs; timeouts, sleeping and port log rows are left out.
- PortWorker.PortWorker.Run: the passes until cancellation are a given list.
- PortWorker.PortWorker.CollectPass: whether the port is open, and the worker's own failure count, are stated for each exchange and not summed up for the pass.
- Pipeline.StoresAgree: the workers have disjoint detectors, and every store operation is one step.
- Restore.RestoreValidatedFiles: files only: directories made on the way stay, and symbolic links, case-insensitive names, time stamps and two names for one file are not modelled. A failing copy may leave anything at its destination; a failing move or delete leaves everything; a directory in the way of a file counts as a fault. A rollback step that fails is reported, not constrained.
- RestoreManifests.ValidatedExactIff: the temporary directories are given, with the staging directory apart from the data directory and the rollback directory a fresh one in the backup directory. Where items are both shared and clash, RestoreExactness.AlwaysExactIff gives the condition.
- RestoreExactness.RollbackIsExactIff: the fault itself may leave something at the temporary name it interrupts, or in the rollback copy that it interrupts; a target that is one of these is excluded unless no fault came.
- WorkerPipeline.TakeTurns: other workers' steps come between passes, not inside one; inside, Pipeline.StoresAgree covers them.
- OwnBackup.BackUpAndRestore: the database is its bytes, the lists of files are given without those the program takes for licenses, and the safety backup before a restore is another archive.
- ArchivePath.AcceptedStaysUnderRoot: resolution is lexical; drive letters and other Windows path rules are left out.
- BackupPackage.ParseManifest: JSON is a library function; the texts for version, time and application, and their checks, are reduced to numbers and a flag.
- BackupPackage.ValidateZipInfos: an entry's recorded size is the length of its content; names with a NUL character are left out.
- BackupRoundTrip.RoundTrip: the size of the archive file on disk is an input, since compression is not modelled, and the digest is an arbitrary function.
- RecordExport.ExportRecords: the ordered matching rows do not change between two pages; the text of the query is not modelled.
- HistoryQuery.QueryHistory: rows do not change during the query; the limit of 20 detectors, the time range and the conversion of rows to points are left out, and time texts are represented by their order.
- LikePattern.PatternMatchesIffOccurs: the database's case folding is an arbitrary function on characters; its limit on pattern length is left out.
- RuntimeLocks.RuntimeLockManager.AcquireOperation: time is the number of wake-ups before the deadline; waiting without a deadline, which no caller uses, may not end and is left out.
- Acquisition.AcquisitionService.Start: start is one step between other callers' steps; permissions, messages, port lists and log entries are left out.
- Acquisition.NextIsSound: the status RECONNECTING is worked out when the status is read and never stored, so it is not a state of the model.
- Acquisition.AcquisitionService.CancelWorkers: a cancelled worker ends; one that outlives the stop timeout is not modelled.
- The serial and TCP channels, the event bus, the web host and all user interface code: foreign input and output, or presentation.
- User management, sessions, migrations, licences, maintenance reminders and configuration parsing: their properties are local to single functions.
- Backup retention, schedules and the database snapshot: they add no property across functions.

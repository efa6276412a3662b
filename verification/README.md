# Proofs about the record tract and its write-ahead log

This project models a bounded in-memory record tape with a chain of processing
stages behind it (the tract), and the write-ahead log that one of those stages
may keep. It proves what the two promise separately and what they promise
together: every record below a durable frontier survives any crash, in order and
with the right bytes.

`dafny verify dfyconfig.toml` checks everything.

## The tract

`Tract` is a step system with one producer and any number of stages, each a
Slider or a durable Persistence stage. One step is one atomic load, one atomic
store, one byte of `memcpy`, one module call, one `write` or one `sync`. What a
step leaves open (which message a load returns, what a module answers, how much a
write transfers, whether it fails) is an input of the step, so a run is a list of
moves and every statement about runs is a statement about every interleaving.

`ViewMemory` is the memory under it: one writer per atomic location, a vector
clock per thread, stores that carry the storer's clock, acquire loads that may
return any message not known to be overwritten and join its clock, and a race
predicate for ordinary accesses. There is no sequentially consistent order
anywhere; interleavings with sequentially consistent loads are the special case
in which every load returns the newest message. Ordinary reads of a slot return
the byte last written, which is what the absence of races, proved below, entitles
them to.

The results, each for every number of stages and every run:

- `TractSteps.RunSafe`: no fail-fast check ever fires and no slot access races.
  The invariant (`TractSafety`) says that every stored frontier value carries the
  knowledge of the upstream progress it was built on; knowledge then travels up
  the chain and once around the ring.
- `TractData.RunFaithful`: the slots hold the retained part of the published
  log, every module is called with the published bytes of position 0, 1, 2, ...
  with refused positions retried, and every durable stage's file holds what it
  archived.
- `TractCadence`: how far any single store may move any frontier, and one sync for
  every store of a durable one.
- `TractJournal`: under any interleaving a Slider refines the single loop that
  also specifies its imperative form, so the exact values its frontier takes are
  known in every run.
- `TractProgress.NoDeadlock` and `TractProgress.Delivers`: one sweep over the
  stages in order brings every frontier to Head, with the exact number of calls
  and syncs, and every sequence of payloads can be driven through the whole tract.
- `TractFull`: a publication that reports Full from the newest Tail means that
  some stage has records to process. From an older Tail it need not:
  `StaleFull` is a run in which it reports Full although every stage has caught up,
  and `FullHasWork` says exactly when there is work left.
- `EndToEnd`: the joining theorems, absorbing failure, no slot reuse before its
  record is durable, exactly-once completion, and the refinement of every module's
  state to a left fold.
- `Demo`: under every interleaving the demo pipeline never sets its failure flag and
  its final check holds; for every record count some run reaches that check.

`TractChecks` and the end of `ViewMemory` say in which states, reachable or not, a
fail-fast check fires, an access races and a durable stage fails, so that the
statements that none does have something to deny. `DemoHash` fixes the payloads and
hashes of the first messages in numbers.

`Tape`, `SliderStage` and `PersistenceStage` hold the same objects as imperative
classes: the ring as a window onto an unbounded log, the nested loops of a
Slider's `process` against a single-loop specification, and the batches of a
durable stage against `DiskHolds`.

## The log

`WalImage` defines the exact bytes of a log for a configuration and a sequence of
payloads. The writer (`PhysicalFile`) is proved to print it however the system
splits writes; the reader, the scanner and recovery (`Reader`, `RecoveryRun`) are
proved to compute the functions of `WalScan` and `WalRecovery` however the system
splits reads, unless an input or output error is injected. About those functions:

- `WalCanonical.ScanIsLongestImage` and `ScanOfImage`: on arbitrary bytes the
  trusted prefix is an image and no longer image is there; scanning an image
  returns its payloads.
- `WalLayout`: the bytes of a log, literal where they are fixed.
- `WalErrors`: which error the reader reports for any header bytes, for a log of
  another configuration and for a record out of place.
- `WalDamage` and `WalTornDamage`: the exact classification of every cut, and of
  every change confined to four consecutive bytes in any file the writer can leave.
  A change that starts in the head or in a whole record is always found. One that
  starts in a torn last record is found exactly if the header, the payload or the
  padding chunk with its first byte is all there, and the place of the first changed
  byte decides the error; otherwise it goes the way of the
  torn record, which recovery cuts off. For torn files "every damage is refused"
  would be false: with less than a record header there, nothing has been checked.
- `WalRecovery`: recovery of arbitrary bytes never fails its own consistency
  check, has the outcome that the configuration and the longest image decide, cuts
  to exactly the trusted prefix or leaves the file alone, and is idempotent.
- `Crc32` and `Crc32Laws`: the bit loop is polynomial division (the CRC of
  section 8 of RFC 1952), a bijection of the register with its inverse given,
  injective in any window of 32 bits, affine, and equal to the byte-table form.
- `CrcField` and `CrcTurns`: a header that contains its own CRC is protected by it
  against every change confined to four bytes, also one across the field's border.

`Durability.CrashRecovers` connects the two halves. It assumes that a crash keeps
a prefix of the file no shorter than the length last synchronized.

## Model

| member | source | states |
|---|---|---|
| LittleEndian.DecodeEncode | include/fexma/binary/little_endian.hpp:28-57 | loading what was stored gives the value back, for every width |
| LittleEndian.EncodeDecode | include/fexma/binary/little_endian.hpp:28-57 | storing what was loaded gives the bytes back |
| LittleEndian.EncodeAt | include/fexma/binary/little_endian.hpp:33-36 | byte `index` is the value divided by 256 to the `index`, cut to a byte |
| LittleEndian.StoreLe | include/fexma/binary/little_endian.hpp:28-37 | the loop writes exactly the encoding at the offset and leaves every other byte alone |
| LittleEndian.LoadLe | include/fexma/binary/little_endian.hpp:45-57 | the accumulating loop computes the decoded value |
| Crc32.Crc32Bytes | src/wal/physical_wal_file.cpp:77-90 | the two nested loops compute `Crc` |
| Crc32.AbsorbByte | src/wal/physical_wal_file.cpp:83-87 | the masked inner loop is eight conditional shift-and-xor steps |
| Crc32.CrcIsRemainder | src/wal/physical_wal_file.cpp:77-90 | the CRC is the complemented remainder of the message, its first 32 bits complemented and 32 zeros appended, by long division over the two-element field |
| Crc32.UpdateInjective | src/wal/physical_wal_file.cpp:82-87 | for a fixed message the loop maps different 32-bit registers to different registers |
| Crc32.BurstDetected | src/wal/physical_wal_file.cpp:77-90 | messages that differ only inside a window of at most four bytes have different CRCs |
| Crc32Laws.CheckValue | src/wal/physical_wal_file.cpp:77-90 | the CRC of the digits 1 to 9 is 0xCBF43926 |
| Crc32Laws.CrcAffine | src/wal/physical_wal_file.cpp:77-90 | the CRC of the exclusive or of three messages of equal length is the exclusive or of their CRCs |
| Crc32Laws.CrcDifference | src/wal/physical_wal_file.cpp:77-90 | two CRCs differ by what the loop computes from zero on the difference of the messages |
| Crc32Laws.TableForm | src/wal/physical_wal_file.cpp:83-87 | one turn of the outer loop equals one look-up in a 256-word table and a shift by eight |
| Crc32Laws.RewindOfUpdate | src/wal/physical_wal_file.cpp:82-87 | running the loop backwards over a message gives back the register it started from |
| Crc32Laws.UpdateOfRewind | src/wal/physical_wal_file.cpp:82-87 | every register is what a message leads to from the rewound one, so a fixed message permutes the registers |
| CrcField.StoredCrcBurst | src/wal/physical_wal_file.cpp:93-103 | two messages, each followed by its CRC computed with the field zeroed, that agree outside four consecutive bytes are equal, field included |
| WalGeometry.Geometry | src/wal/physical_wal_file.cpp:43-123 | offset and stride are the least sufficient multiples of the alignment, nonzero, and both paddings are right even where a 32-bit sum wraps |
| WalGeometry.AlignUpLeast | src/wal/config.cpp:24-30 | overflow is reported exactly when the biased sum does not fit; otherwise the least multiple is returned |
| WalGeometry.ValidConfigNeverOverflows | src/wal/config.cpp:44-65 | a log configuration is valid iff its sizes and first sequence are nonzero, its alignment is a power of two from 8 to 2^31, its stream kind is 0, 1 or 2 and a nonzero kind has nonzero identities: on a 64-bit host no arithmetic check decides it |
| WalGeometry.AlignmentIsPower | src/wal/config.cpp:44-50 | the alignments that pass both tests are exactly the powers of two from 8 to 2^31 |
| WalFormat.DeserializeFileHeaderOfSerialize | src/wal/physical_wal_file.cpp:125-177 | reading a written file header gives the header back |
| WalFormat.SerializeFileHeaderOfDeserialize | src/wal/physical_wal_file.cpp:125-177 | writing a read file header gives all 64 bytes back |
| WalFormat.DeserializeRecordHeaderOfSerialize | src/wal/physical_wal_file.cpp:145-191 | reading a written record header gives the header back |
| WalFormat.SerializeRecordHeaderOfDeserialize | src/wal/physical_wal_file.cpp:145-191 | writing a read record header gives all 24 bytes back |
| WalFormat.StoreFileHeader | src/wal/physical_wal_file.cpp:125-143 | the fourteen stores tile the 64 bytes and produce the serialized header |
| WalFormat.StoreRecordHeader | src/wal/physical_wal_file.cpp:145-155 | the six stores tile the 24 bytes and produce the serialized header |
| WalFormat.LoadFileHeader | src/wal/physical_wal_file.cpp:157-177 | the loads return the deserialized header |
| WalFormat.LoadRecordHeader | src/wal/physical_wal_file.cpp:179-191 | the loads return the deserialized header |
| WalLayout.FileHeadLayout | doc/FILE_FORMAT.md:17-60 | the head of a log byte by byte: literal magic, version, size and flags, each field of the configuration at its offset, the CRC over the header with the field zeroed, zeros up to the record area |
| WalLayout.RecordLayout | doc/FILE_FORMAT.md:62-85 | a record byte by byte: literal magic, version and size, sequence, CRC of the payload, CRC of the header with the field zeroed, payload, zeros up to the stride |
| WalImage.ImageRecord | doc/FILE_FORMAT.md:78-93 | record `n` of an image sits at offset plus `n` strides and carries sequence first plus `n` |
| WalImage.ImageSize | doc/FILE_FORMAT.md:81-93 | an image of `n` records is exactly the offset plus `n` strides long |
| PhysicalFile.PhysicalWalAdapter.WriteBytes | src/wal/physical_wal_file.cpp:385-418 | for every split of the transfers: success iff all bytes were appended in order, otherwise a prefix of them was |
| PhysicalFile.PhysicalWalAdapter.Create | src/wal/physical_wal_file.cpp:235-311 | an existing file is reported and kept as it is; a created log holds exactly the writer's head and all of it is synchronized; what a failed creation leaves is a prefix of that head |
| PhysicalFile.PhysicalWalAdapter.AppendRecord | src/wal/physical_wal_file.cpp:313-342 | success iff exactly the bytes of one record were appended, otherwise a prefix of them was |
| PhysicalFile.PhysicalWalAdapter.Sync | src/wal/physical_wal_file.cpp:344-356 | success makes every byte durable, failure promises nothing new |
| PhysicalFile.PhysicalWalReaderAdapter.Read | src/wal/physical_wal_file.cpp:444-487 | Complete, EndOfFile or Incomplete according only to the bytes left, however the reads are split; on every return, early end and failure included, the buffer holds the next bytes up to the cursor and is otherwise unchanged |
| WalCanonical.AcceptedFileHeader | src/wal/reader.cpp:117-148 | the header checks pass exactly on the one header the writer would have written |
| WalCanonical.AcceptedRecordHeader | src/wal/reader.cpp:206-219 | with the payload's CRC stored, the record header checks pass exactly on the writer's header for this sequence |
| WalCanonical.OpenIffHead | src/wal/reader.cpp:106-165 | opening succeeds iff the file starts with the writer's head for the configuration |
| WalCanonical.ReadGivesBytes | src/wal/reader.cpp:187-257 | a record is only returned for exactly the bytes the writer emits for it |
| WalCanonical.BytesGiveRead | src/wal/reader.cpp:187-257 | the bytes the writer emits are always read back as that record |
| WalCanonical.ScanIsLongestImage | src/wal/reader.cpp:282-322 | on arbitrary bytes that open, the trusted prefix is the image of the payloads read, and every image the file starts with is part of it |
| WalCanonical.ScanOfImage | src/wal/reader.cpp:302-321 | scanning an image is Clean and returns exactly its payloads, count, last sequence and length |
| WalCanonical.CleanIffImage | src/wal/reader.cpp:302-321 | a file that opens scans as Clean iff the whole of it is an image |
| WalErrors.ReaderConfigByFields | src/wal/reader.cpp:90-100 | the configurations a reader accepts, by their fields; the capacity does not matter |
| WalErrors.FileHeaderErrorByBytes | src/wal/reader.cpp:117-148 | for any 64 bytes, which error the header checks give: their order and the literal bytes they compare with, the checks of kind, flags, layout and identity included |
| WalErrors.RecordHeaderErrorByBytes | src/wal/reader.cpp:206-219 | the same for any 24 bytes and any expected sequence |
| WalErrors.OpenOtherLog | src/wal/reader.cpp:139-146 | a log written under another configuration opens iff the two agree in every stored field, otherwise the error is IdentityMismatch |
| WalScan.PaddingComplete | src/wal/reader.cpp:47-69 | the chunked check succeeds iff the whole padding is there and zero |
| WalDamage.ScanOfCut | src/wal/reader.cpp:187-248 | an image cut `cut` bytes into record `whole` scans to `whole` records with the stop decided by `cut` |
| WalDamage.ScanOfLength | src/wal/reader.cpp:71-82 | by length: records are the quotient by the stride, Clean iff the remainder is 0, otherwise IncompleteTail with header, payload or padding error by where the remainder falls |
| WalDamage.ScanOfCutHead | src/wal/reader.cpp:106-115 | a cut before the record area is IncompleteFileHeader and nothing is trusted |
| WalDamage.ScanOfTorn | src/wal/reader.cpp:187-248 | a log that ends inside its next record keeps every earlier record |
| WalDamage.ScanOfShortFile | src/wal/reader.cpp:106-115 | any file that ends before its record area is Corrupted with nothing trusted, and reports IncompleteFileHeader if it is shorter than a header |
| WalDamage.ScanOfDamagedHead | src/wal/reader.cpp:117-164 | any change starting before the record area and confined to four bytes, in a whole head or one cut short, is Corrupted with nothing trusted; by its first byte the error is InvalidFileMagic, UnsupportedFormatVersion, InvalidFileHeaderSize, InvalidFileHeaderCrc or InvalidPhysicalLayout |
| WalDamage.ScanOfDamagedRecord | src/wal/reader.cpp:206-248 | in any file that starts with an image, any change confined to four bytes that starts in record `whole` of it is Corrupted, stops exactly before that record whatever follows, and by its first byte reports InvalidRecordMagic, UnsupportedFormatVersion, InvalidRecordHeaderSize, InvalidRecordHeaderCrc, InvalidPayloadCrc or NonZeroPadding |
| WalDamage.ScanOfMisplacedRecord | src/wal/reader.cpp:215-219 | a whole record with any other sequence than the one that is due stops the scan before it with UnexpectedSequence |
| WalDamage.ScanPastExhaustion | src/wal/reader.cpp:190-204 | behind a log that has used up the sequence space less than a header is an incomplete tail and anything more is UnexpectedSequence |
| WalRecordDamage.DamagedHeaderRefused | src/wal/reader.cpp:206-219 | the header checks alone find every change of a record header confined to four bytes, even one across the payload CRC and the header CRC, and the first changed byte decides the error |
| WalRecordDamage.DamagedRead | src/wal/reader.cpp:187-257 | the exact error for a record with such a change, whole or cut short, from how much of it is there and where the change starts |
| WalTornDamage.ScanOfDamagedTail | src/wal/reader.cpp:187-248 | a change confined to four bytes that starts in a torn last record keeps every earlier record and gets the error of `DamageError`; it is Corrupted if `Noticed` (header, payload or padding chunk with the first changed byte all there), otherwise IncompleteTail |
| Reader.ReadZeroPadding | src/wal/reader.cpp:47-69 | the chunk loop computes `PaddingError`, or an injected input error |
| Reader.WalReader.Open | src/wal/reader.cpp:90-174 | outcome and error are those of `OpenError`, in the order of the checks |
| Reader.WalReader.ReadNext | src/wal/reader.cpp:176-258 | outcome, failure state and count are those of `ReadRecord`; a failure is sticky |
| Reader.ScanWal | src/wal/reader.cpp:282-322 | computes `Scan`; with input errors it reports IoError and at most what is there |
| WalRecovery.RecoverOutcome | src/wal/recovery.cpp:50-99 | on arbitrary bytes: InvalidConfig iff the configuration is, Clean iff the file opens and is an image, Recovered iff the scan ends in an incomplete tail, Refused in every other case; only an incomplete tail is cut and exactly to the trusted prefix, removed plus kept bytes are the original size, nothing readable is lost |
| WalRecovery.ConsistentIff | src/wal/recovery.cpp:86-93 | whatever the file has become after truncation, the check made then passes iff all of it is an image that ends where the trusted prefix did |
| WalRecovery.RecoverTwice | src/wal/recovery.cpp:42-100 | a second recovery changes nothing |
| WalRecovery.RecoverRefusesDamage | src/wal/recovery.cpp:58-60 | in any file that starts with an image, any change confined to four bytes that starts inside it is refused and the file is left alone |
| WalTornDamage.RecoverDamaged | src/wal/recovery.cpp:42-100 | any change confined to four bytes of any file the writer can leave (an image cut anywhere): refused with the file left alone if `MustNotice`, by length and position; otherwise the torn record is cut off and every whole record kept |
| WalRecovery.RecoverTorn | src/wal/recovery.cpp:68-99 | a write torn inside a record costs that record and nothing else |
| WalRecovery.RecoverRefusesCutHead | src/wal/recovery.cpp:58-60 | a log cut before its record area is refused and the file is left alone |
| RecoveryRun.RecoverIncompleteTail | src/wal/recovery.cpp:42-100 | without faults this is `Recover`; with faults the file is untouched or cut to exactly the trusted prefix, and the sizes reported are those of the file before and after |
| RecoveryRun.TruncateAndSync | src/wal/physical_wal_file.cpp:512-559 | for any size: success means cut or extended with zeros to it and synchronized, failure means resized or untouched |
| Tape.DistinctSlots | doc/INVARIANTS.md:39-41 | among `capacity` consecutive positions no two share a slot |
| Tape.BlocksDisjoint | src/record_tract/record_tape.cpp:87-95 | blocks of different slots do not overlap |
| Tape.OtherBlockAfterCopy | src/record_tract/record_tape.cpp:150-152 | copying into one block changes no other block |
| Tape.RecordTape.Open | src/record_tract/record_tape.cpp:108-127 | each status iff its condition, Ok on a fresh tape iff sizes are nonzero and the alignment is a power of two from 8 to 2^31, whatever the arithmetic; success starts with an empty log and zeroed storage of the least sufficient stride |
| Tape.RecordTape.TryPublish | src/record_tract/record_tape.cpp:129-155 | each status iff its condition; success appends the payload to the log, anything else changes nothing |
| Tape.RecordTape.TryView | src/record_tract/record_tape.cpp:157-171 | each status iff its condition; a view is a span of the tape's own storage that shows the logged record |
| Tape.RecordTape.ViewShows | doc/INVARIANTS.md:91-95 | whenever it is looked at, a borrowed span shows the record last published into its slot: its own until the slot is reused |
| Tape.RecordTape.TryWrite | src/record_tract/record_tape.cpp:173-190 | each status iff its condition, whatever Tail says; success changes the named bytes of the record that occupies the slot and no other record |
| Tape.RecordTape.Close | src/record_tract/record_tape.cpp:192-200 | closing is idempotent, releases the storage and drops Tail |
| SliderStage.Slider.Process | include/fexma/record_tract/slider.hpp:46-82 | the nested loops leave the trace of a single loop whatever `read_count` is; over any number of calls the successful positions are 0, 1, 2, ... and the frontier counts them |
| SliderStage.CadenceCompletes | include/fexma/record_tract/slider.hpp:58-81 | exactly the positions up to the first refusal complete, once each and in order |
| SliderStage.CadencePublishes | include/fexma/record_tract/slider.hpp:72-80 | the frontier takes exactly the values `publish_count` apart, and then the point reached |
| SliderStage.PointsAt | include/fexma/record_tract/slider.hpp:72-80 | the `k`-th value published is `publish_count` times `k + 1` beyond the start, only the last one may be nearer |
| SliderStage.PointsEnd | include/fexma/record_tract/slider.hpp:80-93 | the last value published is the point reached, so nothing completed stays unpublished |
| PersistenceStage.Persistence.Open | src/wal/persistence.cpp:34-61 | an invalid configuration is reported iff a field of it or the tape's payload size is invalid, an existing file is reported and kept; success leaves a synchronized head whose header carries each field given, the tape's payload size included |
| PersistenceStage.Persistence.Append | src/wal/persistence.cpp:63-78 | the next sequence is appended or the stage fails for good; an exhausted sequence is never wrapped past |
| PersistenceStage.Persistence.Sync | src/wal/persistence.cpp:80-92 | one sync per call unless failed; success makes every archived record durable |
| PersistenceStage.Persistence.ProcessUntil | src/wal/persistence.cpp:109-146 | append the batch, one sync, then publish; on failure the frontier stays; a failed stage touches nothing |
| PersistenceStage.Persistence.Process | include/fexma/wal/persistence.hpp:91-95 | Empty iff nothing is upstream, ModuleFailed iff failed, Processed takes one batch with one sync |
| PersistenceStage.Persistence.Drain | src/wal/persistence.cpp:109-146 | calling `process` until nothing is upstream takes exactly `CallsToDrain` calls with one sync each, unless the stage fails |
| PersistenceStage.DrainIsCeiling | src/wal/persistence.cpp:125-129 | `CallsToDrain` is the number of records divided by `sync_count`, rounded up |
| Durability.CrashRecovers | src/wal/recovery.cpp:42-100 | whatever prefix a crash leaves, recovery ends Clean or Recovered and keeps a prefix of the archived records with every durable one in it |
| ViewMemory.LoadCausal | doc/INVARIANTS.md:66-79 | an acquire load keeps clocks closed under what every covered store knew |
| ViewMemory.StoreCausal | doc/INVARIANTS.md:66-79 | a release store keeps them closed |
| ViewMemory.ReadableAtLeast | doc/INVARIANTS.md:66-79 | a load returns at least what the thread knows to have been stored |
| ViewMemory.ConflictRaces | doc/INVARIANTS.md:66-79 | an access races with the one another thread has just made to the same byte, unless both read |
| ViewMemory.AcquireOrders | doc/INVARIANTS.md:66-79 | whoever acquires a store knows of every access the storer made before it |
| TractChecks.PublishBreaksIff | src/record_tract/record_tape.cpp:135-144 | in any state, reachable or not, exactly when the producer's fail-fast check fires |
| TractChecks.StageBreaksIff | include/fexma/record_tract/slider.hpp:46-66 | in any state exactly when a stage's checks of its upstream frontier and of its view fire |
| TractChecks.WriteRacesIff | src/record_tract/record_tape.cpp:150-152 | a byte written is checked for a race, and nothing else the producer does |
| TractChecks.ReadRacesIff | src/record_tract/record_tape.cpp:166-170 | a byte read through a view is checked for a race |
| TractChecks.FailsIff | src/wal/persistence.cpp:63-92 | a durable stage fails exactly at an exhausted sequence, a failed write or a failed sync, and that step changes nothing else |
| TractSafety.FrontierOrder | doc/INVARIANTS.md:57-64 | every frontier is at most every frontier before it in the chain |
| TractSafety.HeadWithinCapacity | doc/INVARIANTS.md:25-36 | Head is at most one capacity beyond Tail |
| TractSafety.NoRace | src/record_tract/record_tape.cpp:150-170 | the access a thread is about to make is ordered after every conflicting access |
| TractSteps.TailThenHead | src/record_tract/record_tape.cpp:160-165 | after loading a Tail value only Head values no smaller can be read |
| TractSteps.StageLoadsHead | src/record_tract/record_tape.cpp:157-171 | the two loads of a stage's `try_view` always end in a view |
| TractSteps.RunSafe | doc/INVARIANTS.md:63-79 | in every run, under release and acquire only, no fail-fast check fires and no slot access races |
| TractData.RunFaithful | doc/INVARIANTS.md:45-51 | in every run slots, module calls and files hold exactly the published bytes, in order |
| TractCadence.RunSpaced | doc/INVARIANTS.md:107-111 | in every run Head advances one position per store, a Slider's frontier by one to `publish_count`, a durable frontier by one to `sync_count` |
| TractCadence.RunSyncedOnce | doc/INVARIANTS.md:134-138 | in every run a durable stage stores its frontier once for every sync; only the sync a stage failed at, or one just made, is without a store |
| TractJournal.RunRefinesCadence | include/fexma/record_tract/slider.hpp:46-82 | in every run a Slider's module calls and frontier stores are, call of `process` by call of `process`, those of the single loop `Cadence` from where the last call ended, stopped where its module refused; of a call in progress exactly the rest of that loop is missing |
| TractJournal.SpanPublishes | include/fexma/record_tract/slider.hpp:72-80 | one such call publishes exactly the positions `publish_count` apart from its start and the point it reached, and completes exactly those between |
| TractJournal.JournalIsHistory | include/fexma/record_tract/slider.hpp:58-81 | the stores and accepted calls in that record are, in order, all messages of the stage's frontier and all accepted calls of its module |
| TractProgress.StageCatchesUp | src/wal/persistence.cpp:109-146 | alone, a stage brings its frontier to the one before it in one call of `process` if it is a Slider, in `CallsToDrain` calls with one sync each if it is durable, and in none if nothing is upstream |
| TractProgress.NoDeadlock | include/fexma/record_tract/slider.hpp:46-82 | from every reachable state without a failed durable stage or an exhausted sequence one sweep through the stages in order, without the producer, brings every frontier to Head; each stage that is between calls begins exactly the calls its pending records need: one for a Slider, their number over `sync_count`, rounded up, with one sync each, for a durable stage |
| TractFull.FullHasWork | src/record_tract/record_tape.cpp:141-145 | where publication reports Full, from whatever Tail it has loaded, some stage has records upstream iff the newest Tail is below Head |
| TractFull.StaleFull | src/record_tract/record_tape.cpp:141-145 | a run of the smallest tract in which publication reports Full from an older Tail although every frontier equals Head |
| TractProgress.PublishOne | src/record_tract/record_tape.cpp:129-155 | with a free slot a call of `try_publish` can run to success and appends its payload |
| TractProgress.Delivers | doc/INVARIANTS.md:11-15 | every sequence of payloads of the right size within the sequence space is the log of some run in which every stage has processed all of it; whenever its producer starts a call it offers the payload of its position, and no module refuses |
| EndToEnd.DurableRecordsSurvive | src/wal/persistence.cpp:109-146 | crash anywhere in any run: recovery succeeds and leaves exactly the image of the first `kept` published payloads, with `kept` at least the durable frontier |
| EndToEnd.DurableRecordInPlace | src/wal/persistence.cpp:70-73 | record `i` below the durable frontier has sequence first plus `i` and the payload published at position `i` |
| EndToEnd.CertifiedStaysRecoverable | doc/INVARIANTS.md:134-138 | what was certified at one moment is recovered after a crash at any later moment |
| EndToEnd.FailureAbsorbs | doc/INVARIANTS.md:140-146 | once a durable stage has failed nothing of it changes again: not its file, its count of syncs, its calls or its frontier |
| EndToEnd.NoReuseBeforeDurable | doc/INVARIANTS.md:32-36 | Head never exceeds any stage's frontier plus capacity, the durable one included |
| EndToEnd.ExactlyOnce | include/fexma/record_tract/slider.hpp:58-81 | in every run each module call is about the first position not yet accepted and gets its published bytes, so accepted positions are 0, 1, 2, ...; whenever `process` has returned the frontier is their number |
| EndToEnd.ViewStaysPut | doc/INVARIANTS.md:91-95 | while a stage uses a view the slot holds the published record |
| EndToEnd.StageIsFold | include/fexma/record_tract/slider.hpp:58-81 | under every interleaving a module's state is the left fold over a prefix of the published log |
| Demo.DecodeOfEncode | examples/basic_tract/demo_payload.hpp:52-66 | decoding an encoded message gives it back |
| Demo.EncodeOfDecode | examples/basic_tract/demo_payload.hpp:52-66 | encoding a decoded 16-byte payload gives it back |
| Demo.HashLoop | examples/basic_tract/demo_payload.hpp:68-77 | the byte loop computes `HashPayload` |
| Demo.ComputeExpectedHash | examples/basic_tract/demo_payload.hpp:79-87 | the sequential loop computes `ExpectedHash` |
| DemoHash.HashBackOfHash | examples/basic_tract/demo_payload.hpp:68-77 | the hash can be run backwards over any message, so no message confuses two states |
| DemoHash.FirstPayloads | examples/basic_tract/demo_payload.hpp:52-66 | the bytes of the first two payloads |
| DemoHash.FirstHashes | examples/basic_tract/demo_payload.hpp:79-87 | the expected hashes after one and two messages, in numbers |
| Demo.PayloadValidationModule.Process | examples/basic_tract/demo_modules.hpp:21-32 | accepts exactly the published payload of the next position |
| Demo.RollingHashModule.Process | examples/basic_tract/demo_modules.hpp:44-48 | folds one payload into the hash and counts it |
| Demo.DemoNeverFails | examples/basic_tract/demo_app.cpp:127-159 | in every run of the three roles the published payloads are the demo's and no module refuses a record |
| Demo.FailedNeverSet | examples/basic_tract/demo_app.cpp:95-159 | in every run no branch that sets `failed` is taken: no wrong payload size, no exhausted position, no success at another position than the loop's, no refusal |
| Demo.DemoIsValid | examples/basic_tract/demo_app.cpp:81-87 | once the last frontier reaches the record count, both modules have processed every record, the positions agree and the hash is the expected one |
| Demo.DemoFinishes | examples/basic_tract/demo_app.cpp:81-87 | for every record count some run of the demo reaches the final check, and the check holds there |

## Left out

- Operating system calls, paths, descriptors and the Windows branches are a file that may be there, its bytes with a synchronized length, and a cursor; synchronizing the parent directory may succeed or fail and has no other effect; interrupted calls are bounded by a counter.
- Crashes that leave holes, reordered blocks or bit rot beyond the synchronized length: a crash keeps a prefix. Corruption is a separate result.
- Allocation failure, destructors, cache-line placement, closing the writer, and the fault-injection hooks of the file layer.
- Shifts and bitwise or in the little-endian codec are division and addition, which agree because the combined bytes occupy disjoint bits; `n & (n - 1)` being zero is modelled as being a power of two.
- Positions, record counts and offsets are unbounded naturals where the source's own checks keep them below 2^64; where a sum wraps or is narrowed (padding size, sequence numbers, demo values) the width is explicit.
- Wiring outside the contract: a tape with no stages and concurrent viewers, branching, several producers, several executors of one stage.
- Concurrent `try_write`: it is modelled on the ring with one caller at a time, not as a step of the tract.
- Lifecycle misuse that ends the program is a status of the modelled call; open and close happen outside runs of the tract.
- Tract: a Slider's module reads each payload byte once, in order, before it answers; a durable stage copies the bytes once and may then read them again at any time until the append ends.
- Tract: one modelled write of a record may cross the boundaries between header, payload and padding, which the source writes separately; this only adds behaviours.
- Thread scheduling, yields and the shared `failed` flag of the demo: scheduling is an arbitrary interleaving, and that no branch setting the flag is taken is `Demo.FailedNeverSet`; a closed tape does not occur in a run.

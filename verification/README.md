# SpeechAI firmware: verified core

SpeechAI is a voice-command node on an Altera soft processor. It listens to a microphone, records a
window around a loud sound, compares its spectrogram with a database on an SD card, and sends the word
it recognised over Bluetooth. This project models the parts of its firmware, of the board support
package under it and of the Python scripts beside it that have the most state and arithmetic, and
proves what they promise. The firmware is kept twice in the repository; the copy under `software/` is
the one modelled.

`dafny verify dfyconfig.toml` checks the whole project.

| files | what they model |
|---|---|
| `Ring.dfy`, `JtagUart.dfy` | the interrupt-driven JTAG UART driver, with the host and the interrupt routine acting between any two accesses of the main code to shared state |
| `Fft.dfy` | the recursive radix-2 transform, over any commutative ring with a root of -1, and over pairs of reals |
| `NameCodec.dfy`, `Checksum.dfy`, `Pages.dfy`, `FieldReader.dfy` | the 6-bit name codec, the bit-count checksum and the page layout that the disk formats share |
| `Filesystem.dfy`, `FilesystemReader.dfy`, `ImageWriter.dfy`, `BitErrors.dfy` | the AIFS directory: the page as the script writes it and the C code reads it, where the script puts the files, and what one inverted bit does |
| `Database.dfy`, `DatabaseReader.dfy`, `DatabaseWriter.dfy` | the AIDB database with its two record walks |
| `WordSelection.dfy` | from the comparer's registers to the label of the best base |
| `Alarms.dfy`, `TimeOfDay.dfy` | alarms and the wall clock on a 32-bit tick counter |
| `Microphone.dfy`, `Recorder.dfy` | the sample queue, the microphone driver and the recording loop |
| `Conversation.dfy`, `Meeting.dfy` | what a conversation is, and the event loop that holds it |
| `Bits.dfy`, `Division.dfy`, `Printing.dfy`, `FdPool.dfy` | shift-subtract division, integer printing, and the file descriptor pool |

## How the code is modelled

Code that changes state step by step is a class or a method with loops; each is proved against a
function or a predicate that says what it computes, and the properties are proved of those.

* **Interrupts.** One run of an interrupt routine is atomic, because there is one core. The main code is
  cut at every access to shared state: `Driver.Interrupts` stands there, and lets the routine run any
  number of times with any host activity and any host-inactivity count. The device is assumed to show
  `RAVAIL` as 0 whenever `RVALID` is 0, and the host to send and drain only finitely many bytes during one
  run of the routine (`hostEvents`, any number, chosen anew at every interrupt point); that is why a run ends.
* **Hardware** is a source of inputs: FIFOs, the comparer's result registers, the samples, the clock and
  the buttons are parameters, or a script of passes or events over which the properties hold.
* **Machine integers** wrap where the source's do (`% TWO_32`, `% 256`), and the proofs show where a wrap
  cannot happen.
* **Unbounded ghost counters** (`Clock.now`, `Alarm.history`) give the alarms a time that does not wrap.

## What the code does that its description does not say

* `Read_file_system` and `File_exists` return `DATA_FALSE` on a name without terminator. That is the number
  of `FILE_SYSTEM_OK`, and the checksum is never looked at. For every written directory it is said exactly
  which one-bit errors pass for that reason: those in the last sextet of a name of fifteen characters
  (`BitErrors.OneBitErrorPassesIff`, and `BitErrors.OneBitErrorInLookupIff` for `File_exists`).
  `readDatabase` refuses every one-bit error (`Database.OneBitErrorsAreRefused`).
* The checksum of a directory does not tell a file's tag from the end mark, which have the same number of set
  bits: an end mark in place of a tag cuts the directory short with status OK (`Filesystem.EndMarkCutsShort`).
* An alarm started with the largest 32-bit delay runs at the very next tick unless the counter is just
  about to wrap (`Alarms.StartStandsIff`, `Alarms.Clock.Tick`).
* `settimeofday` multiplies in 32 bits what `gettimeofday` multiplies in 64, so an immediate reading can differ
  from what was set (`TimeOfDay.TimeConservedIff`, with an instance in `TimeOfDay.TimeIsLostAfterWrap`).
* `fft` returns as many values as it was given exactly for powers of two and for the empty list; for other
  lengths it returns fewer, or the twiddle factors run past the odd half (`Fft.FullLengthIff`).
* `value_reducer` saturates on two bit patterns only, and divides by sixteen exactly for samples of at most
  20 significant bits (`Microphone.ReduceIsDivisionIff`).
* A connection that is lost and comes back during a recording erases the table but not the count of the
  margin, so the trigger is missing from the fragment when it was stored before (`Recorder.WindowOfCall`,
  `Recorder.ReturnLosesTrigger`).
* `ai_group_analyse` lets a word decision equal to the number of classes through, and then copies whatever
  that slot holds. The slot is one of the best base's own classes exactly if that base's decision is below
  its class count (`WordSelection.WordIsOwnLabelIff`, with an instance in `WordSelection.SlotBehindTheLabels`).
* `alt_fd_lock` does not look at the descriptor at the high-water mark (`FdPool.GrantIsSoleIff`, with an
  instance in `FdPool.LockOverlooksTheMark`).
* The line feed of a word of fifteen characters lands behind the 16-byte buffer (`Meeting.App.Send`,
  `Meeting.LongWordOverruns`, `Meeting.ShortWordsStay`).

## Model

| member | source | states |
|---|---|---|
| Ring.Count | software/AI_Speech1_bsp/drivers/src/altera_avalon_jtag_uart_init.c:137-139 | how many bytes lie between the two indices of a ring; it is 0 exactly if they are equal and BUF_LEN - 1 exactly if the routine's next-slot test sees a full ring |
| Ring.RingBuffer.Push | software/AI_Speech1_bsp/drivers/src/altera_avalon_jtag_uart_init.c:149-150 | a received byte goes behind the ring's contents, which are otherwise unchanged |
| Ring.RingBuffer.Release | software/AI_Speech1_bsp/drivers/src/altera_avalon_jtag_uart_read.c:140 | publishing `out` removes exactly the oldest `n` bytes from the contents |
| Ring.RingBuffer.Publish | software/AI_Speech1_bsp/drivers/src/altera_avalon_jtag_uart_write.c:126 | publishing `in` appends exactly the bytes stored from `in` on |
| JtagUart.Driver.constructor | software/AI_Speech1_bsp/drivers/src/altera_avalon_jtag_uart_init.c:66-76 | receive interrupts are on and transmit interrupts off, both rings are empty, and nothing has been moved |
| JtagUart.Driver.ReceiveIrq | software/AI_Speech1_bsp/drivers/src/altera_avalon_jtag_uart_init.c:125-167 | the receive half takes bytes in order until the ring is full or all that the device held is taken, leaves RE off only with the ring full, keeps the stream and wakeup invariants, and always does some work |
| JtagUart.Driver.TransmitIrq | software/AI_Speech1_bsp/drivers/src/altera_avalon_jtag_uart_init.c:169-195 | the transmit half sends the oldest bytes in order, never more than the device has room for, leaves WE off only with the ring empty, and always does some work |
| JtagUart.Driver.Irq | software/AI_Speech1_bsp/drivers/src/altera_avalon_jtag_uart_init.c:106-197 | the interrupt routine ends, appends to the received bytes, removes sent ones from the front, keeps the invariants of both streams, and leaves no enabled request unserved |
| JtagUart.Driver.Interrupts | software/AI_Speech1_bsp/drivers/src/altera_avalon_jtag_uart_init.c:106-197 | any number of interrupt runs with any host activity keeps the stream and wakeup invariants; what a reader or writer has seen stays true; every call is one cut, counted with whether it leaves the host timed out |
| JtagUart.Driver.FetchByte | software/AI_Speech1_bsp/drivers/src/altera_avalon_jtag_uart_read.c:136 | a byte that the reader is about to copy is the one it saw, whatever the interrupt routine did before |
| JtagUart.Driver.StoreByte | software/AI_Speech1_bsp/drivers/src/altera_avalon_jtag_uart_write.c:122 | a slot that the writer found free is still free when it is written |
| JtagUart.Driver.CopyOut | software/AI_Speech1_bsp/drivers/src/altera_avalon_jtag_uart_read.c:136-138 | the copy is of the oldest `n` bytes, with interrupts between any two of them, and nothing else in the caller's buffer changes |
| JtagUart.Driver.CopyIn | software/AI_Speech1_bsp/drivers/src/altera_avalon_jtag_uart_write.c:122-124 | the slots behind `in` hold the caller's next bytes, with interrupts between any two of them |
| JtagUart.Driver.SampleUsed | software/AI_Speech1_bsp/drivers/src/altera_avalon_jtag_uart_read.c:122-128 | the sampled run lies inside the array and inside the contents although the routine runs between the two samples; 0 means that the ring was empty |
| JtagUart.Driver.SampleFree | software/AI_Speech1_bsp/drivers/src/altera_avalon_jtag_uart_write.c:106-114 | the sampled run lies inside the array and leaves one slot free although `out` may be stale |
| JtagUart.Driver.ReadRun | software/AI_Speech1_bsp/drivers/src/altera_avalon_jtag_uart_read.c:122-140 | one pass of the inner loop moves the next bytes of the stream to the caller, in order |
| JtagUart.Driver.WriteRun | software/AI_Speech1_bsp/drivers/src/altera_avalon_jtag_uart_write.c:106-126 | one pass of the inner loop moves the caller's next bytes into the stream, in order |
| JtagUart.Driver.ReadAvailable | software/AI_Speech1_bsp/drivers/src/altera_avalon_jtag_uart_read.c:120-142 | the inner loop ends with the space used up, or with all delivered that had arrived before it |
| JtagUart.Driver.Read | software/AI_Speech1_bsp/drivers/src/altera_avalon_jtag_uart_read.c:100-203 | in every interleaving the bytes delivered are the next ones of the receive stream and no other part of the buffer changes; the count is what was moved, a short count means that all that had arrived before the call is delivered, errors move nothing, and RE is on again after any byte was moved; a blocking call fails only after the host was seen timed out during the call, with nothing to deliver, and waits on only from an empty ring and through all the polls followed |
| JtagUart.Driver.Write | software/AI_Speech1_bsp/drivers/src/altera_avalon_jtag_uart_write.c:83-215 | in every interleaving exactly the first bytes of the data, as many as the returned count, enter the transmit stream; fewer than asked for means a full ring, and in a blocking call also an inactive host and, before that, the host seen timed out or room in the ring; a call waits on only from a full ring and through all the polls followed; no wakeup is owed afterwards |
| JtagUart.Driver.AwaitReceive | software/AI_Speech1_bsp/drivers/src/altera_avalon_jtag_uart_read.c:173-174 | the spin ends with a byte seen to have arrived or the host seen to be timed out, or with the polls followed used up; interrupts may come between the two reads of a poll |
| JtagUart.Driver.AwaitTransmit | software/AI_Speech1_bsp/drivers/src/altera_avalon_jtag_uart_write.c:183-184 | the spin ends with a byte seen to have left the ring or the host seen to be timed out, or with the polls followed used up |
| JtagUart.Driver.AwaitRoom | software/AI_Speech1_bsp/drivers/src/altera_avalon_jtag_uart_write.c:183-188 | an inactive host is reported only after the host was seen timed out, or with room in the ring |
| JtagUart.Driver.Close | software/AI_Speech1_bsp/drivers/src/altera_avalon_jtag_uart_init.c:241-254 | success means that every accepted byte has reached the device or that the host is gone; refusal means a non-blocking call with some byte still queued when the call looked, which may have left since; with nothing to send the call succeeds; a blocking call waits on only with something to send and through all the polls followed |
| JtagUart.Driver.NoLostWakeup | software/AI_Speech1_bsp/drivers/src/altera_avalon_jtag_uart_init.c:156-195 | what the invariant that Irq, Interrupts, Read, Write and Close keep says of wakeups: RE off means data in the ring or a reader about to turn it on, and queued bytes mean WE on or a writer about to |
| Fft.TransformIsDft | model/fft.py:94-107 | for every power-of-two length, over every commutative ring with a root whose half power is -1, the recursive transform is the defining sum at every index |
| Fft.TransformIsPoly | model/fft.py:98-107 | the recursive transform evaluates the input polynomial at every power of the root |
| Fft.CombineAll | model/fft.py:103-105 | merging the transforms of the even and odd parts gives the transform of the whole |
| Fft.PolySplits | model/fft.py:100-101 | a polynomial is its even part at z squared plus z times its odd part there |
| Fft.FullLengthIff | model/fft.py:94-107 | the call succeeds with as many outputs as inputs exactly for the empty input and powers of two |
| Fft.TransformLength | model/fft.py:94-107 | whether a call succeeds, and the length of its result, depend on the length of the input alone |
| ComplexNumbers.ComplexIsCommutative | model/fft.py:103-105 | pairs of reals with complex addition and multiplication are such a ring |
| ComplexNumbers.ComplexTransformIsDft | model/fft.py:94-107 | the theorem for exact complex numbers |
| NameCodec.SextetRoundTrip | software/AI_Speech1/src/utils/datatypes.c:22-34 | the 63 characters and the 63 codes below the terminator correspond one to one, and only the terminator ends a string |
| NameCodec.WriteSextets | model/buildimage.py:10-29 | the character loop yields the code of every character in order |
| NameCodec.PadSextets | model/buildimage.py:31-40 | the two padding loops add terminators up to the length that holds at least one and fills the field and its last group |
| NameCodec.PackSextets | model/buildimage.py:42-59 | the shifting buffer emits, group by group, the bit fields of four sextets in three bytes |
| NameCodec.WriteBase64 | model/buildimage.py:4-59 | the writer stores the packed padded codes of the text |
| NameCodec.PackRoundTrip | software/AI_Speech1/src/utils/datatypes.c:43-67 | unpacking undoes packing, for every whole number of groups |
| NameCodec.From64ToBytes | software/AI_Speech1/src/utils/datatypes.c:36-70 | the decoder stores the characters up to the first terminator and a 0, or all of them and reports that there is none; no byte outside the field's slot changes |
| NameCodec.NameRoundTrip | model/buildimage.py:4-59 | every name over the alphabet, of whatever length, is read back by the C decoder from what the writer stores, in 3/4 of the field size when it is shorter than the field |
| NameCodec.ScriptsName | model/buildimage.py:4-59 | the twelve bytes of a name of the script |
| NameCodec.CodesCount | model/buildimage.py:10-23 | the codes count the digits, then the capitals, then the small letters, and the space comes last |
| NameCodec.ReadBase64 | model/buildimage.py:80-102 | the Python decoder collects the text of every group up to that group's own terminator |
| NameCodec.PythonRoundTrip | model/buildimage.py:80-102 | every name over the alphabet is read back by the Python decoder from what the writer stores |
| Checksum.ControlCountSum | software/AI_Speech1/src/utils/control_sum.c:10-23 | the C routine with its wrapping 8-bit accumulator computes 255 minus the number of set bits modulo 256 |
| Checksum.WriterSum | model/buildimage.py:213-225 | the script's unbounded count, masked and complemented at the end, is the same number |
| Checksum.SumCounts | model/buildimage.py:213-225 | checksum and number of set bits add up to 255, modulo 256; no byte at all gives 255 and eight set bits give 247 |
| Checksum.SingleBitErrorsAreDetected | software/AI_Speech1/src/utils/control_sum.c:10-23 | on an accepted page, inverting any one bit of the payload or of the checksum makes it rejected |
| Checksum.TotalOnesUpdate | software/AI_Speech1/src/utils/control_sum.c:13-20 | changing one byte changes the count by the difference of its set bits |
| CStrings.Compare | software/AI_Speech1/src/utils/datatypes.c:133-147 | compare() says whether the first string, up to its end, is a prefix of the second |
| Pages.Read16 | software/AI_Speech1/src/utils/datatypes.c:72-84 | two bytes as a big-endian number |
| Pages.Read32 | software/AI_Speech1/src/utils/datatypes.c:86-98 | four bytes as a big-endian number |
| FieldReader.DecodeField | software/AI_Speech1/src/utils/datatypes.c:36-70 | a decoded field holds the text that the codec packs there, with its closing 0, or reports that it has none |
| FieldReader.FieldStartsWith | software/AI_Speech1/src/disk/ai_fs.c:29-39 | whether a field holds a terminated name that starts with the expected one |
| Filesystem.ScanWritten | software/AI_Speech1/src/disk/ai_fs.c:187-224 | the record walk over written records finds exactly what was written |
| Filesystem.DirectoryRoundTrip | software/AI_Speech1/src/disk/ai_fs.c:167-240 | for every list of at most 28 files that the format can hold, the written page is read back as that list with status OK |
| Filesystem.DirectoryFitsIff | model/buildimage.py:193-210 | the checksum lies where the readers look for it exactly for at most 28 files |
| Filesystem.DamageIsError | software/AI_Speech1/src/disk/ai_fs.c:178-232 | on a written page, too many files for the caller, a wrong checksum and a tag that is neither a file nor the end mark each give the error status |
| Filesystem.HeaderByteDecides | software/AI_Speech1/src/disk/ai_fs.c:45-62 | of the first five bytes of a written page only the version may be another one, an earlier one; otherwise there is no file system |
| Filesystem.NameDecides | software/AI_Speech1/src/disk/ai_fs.c:29-42 | a page with another file system name is good exactly if that name starts like the expected one, and otherwise gives the error status |
| Filesystem.EndMarkCutsShort | software/AI_Speech1/src/disk/ai_fs.c:189-200 | an end mark in place of a tag is not noticed: both have three set bits, and the directory up to there is returned with status OK |
| Filesystem.LookupRoundTrip | software/AI_Speech1/src/disk/ai_fs.c:87-164 | on a written page File_exists finds the first entry that the query is a prefix of, and says so exactly if there is one |
| Filesystem.WrongChecksumIsError | software/AI_Speech1/src/disk/ai_fs.c:108-144 | on a written page with a wrong checksum File_exists gives the error status, whether it finds the name or not |
| Filesystem.FirstMatch | software/AI_Speech1/src/disk/ai_fs.c:136-146 | the index found is a match and no earlier entry is one |
| BitErrors.FlipSplit | software/AI_Speech1/src/utils/control_sum.c:15-17 | an inverted bit changes the part of a number above or below any cut, and leaves the other one |
| BitErrors.NameOneBit | software/AI_Speech1/src/utils/datatypes.c:43-69 | a packed name with one bit inverted has no terminator any more exactly if it has fifteen characters and the bit is in the last sextet |
| BitErrors.ScanOneBit | software/AI_Speech1/src/disk/ai_fs.c:187-232 | on a written directory with one bit inverted the walk ends in a name without terminator exactly if the bit is in such a sextet |
| BitErrors.OneBitErrorIsOkIff | software/AI_Speech1/src/disk/ai_fs.c:193-209 | on any accepted page, a one-bit error is read as OK exactly if header and name are still good and the walk meets a name without terminator |
| BitErrors.OneBitErrorPassesIff | software/AI_Speech1/src/disk/ai_fs.c:207-209 | for every directory of at most 28 files, Read_file_system takes a one-bit error for OK exactly if it is in the last sextet of a name of fifteen characters |
| BitErrors.ShortNamesAreSafe | software/AI_Speech1/src/disk/ai_fs.c:193-209 | with names of at most fourteen characters it never does |
| BitErrors.OneBitErrorInLookupIff | software/AI_Speech1/src/disk/ai_fs.c:106-158 | File_exists takes a one-bit error for OK exactly if it is in such a name and the query matches no file before it, and never says that the file exists or does not |
| FilesystemReader.CheckFilesystem | software/AI_Speech1/src/disk/ai_fs.c:45-61 | Is_filesystem() accepts exactly the right header with a version up to its own |
| FilesystemReader.CheckProper | software/AI_Speech1/src/disk/ai_fs.c:29-42 | isProperFilesystem() accepts exactly a terminated name that starts with the right one |
| FilesystemReader.ReadRecord | software/AI_Speech1/src/disk/ai_fs.c:205-216 | one record goes to its slot, and the records before it stay in theirs |
| FilesystemReader.WalkRecords | software/AI_Speech1/src/disk/ai_fs.c:182-232 | for lists with exactly the declared slots too, if the page lists no more, the walk ends in the status that the page deserves, with exactly the listed files in the first slots; the count is set only at the end mark |
| FilesystemReader.ReadFileSystem | software/AI_Speech1/src/disk/ai_fs.c:167-240 | Read_file_system() returns the status of the loaded page and, when the walk reaches the end mark, the exact list |
| FilesystemReader.FindRecord | software/AI_Speech1/src/disk/ai_fs.c:101-158 | the walk stops at the first record that the query is a prefix of, with its address and length |
| FilesystemReader.FileExists | software/AI_Speech1/src/disk/ai_fs.c:87-164 | File_exists() returns the status of the lookup, and on success the address and length found |
| ImageWriter.WritePage | model/buildimage.py:177-230 | the script writes the page of its file list |
| ImageWriter.AppendFile | model/buildimage.py:138-160 | a file takes its full blocks and one more, which is never full, filled with zeros |
| ImageWriter.PlaceFiles | model/buildimage.py:121-160 | every file's data lie where its directory entry points, and each file begins where the one before ends |
| ImageWriter.FoundFileIsPlaced | model/buildimage.py:121-160 | end to end: the address that File_exists finds for a name is where the data of the first matching file begin, on the directory page followed by the placed content and anything behind it |
| ImageWriter.PlaceBase | model/buildimage.py:162-170 | the database address is the next multiple of sixteen, so that dividing and multiplying by sixteen leads back to it |
| Database.WalksMeet | software/AI_Speech1/src/ai/ai_db.c:121-158 | on every page the walk that skips 21 and 2 bytes and the walk that decodes leave the base records at the same place, after the same number of records and classes |
| Database.ScanBasesWritten | software/AI_Speech1/src/ai/ai_db.c:185-238 | over written base records the decoding walk returns them all, or fails exactly if there are too many or one is too large |
| Database.ScanLabelsWritten | software/AI_Speech1/src/ai/ai_db.c:135-155 | over written label records the walk returns them all, in order |
| Database.DatabaseRoundTrip | software/AI_Speech1/src/ai/ai_db.c:106-249 | a written database is read back field by field and label by label, and accepted exactly if it has at most eight bases whose spectrograms, four times their size at compression one and twice otherwise, fit 32, and whose class counts add up to the number of labels, at most 32 |
| Database.LoadableIff | software/AI_Speech1/src/ai/ai_db.c:223-231 | in sizes: up to eight at compression one, up to sixteen otherwise |
| Database.ScriptsDatabaseIsAccepted | model/buildimage.py:270-320 | the database of the script, two bases of eight classes with spectrograms of five at compression one and sixteen labels, is accepted |
| Database.ScriptsFirstRecord | model/buildimage.py:270-306 | the twenty-three bytes of the first base record that the script writes |
| Database.HeaderByteDecides | software/AI_Speech1/src/ai/ai_db.c:47-71 | of the first eight bytes of a written page one is never looked at, the version may be a later one, and any other change makes it no database |
| Database.NamesDecide | software/AI_Speech1/src/ai/ai_db.c:73-104 | a page with other names is good exactly if each of the three starts like the expected one |
| Database.OneBitErrorsAreRefused | software/AI_Speech1/src/ai/ai_db.c:296-302 | an accepted database with any one bit inverted is not accepted |
| DatabaseReader.CheckDatabase | software/AI_Speech1/src/ai/ai_db.c:48-71 | isDatabase() accepts exactly the right header, phase pattern and a version from its own on |
| DatabaseReader.CheckProper | software/AI_Speech1/src/ai/ai_db.c:73-104 | isProperDatabase() accepts exactly three terminated names that start with the right ones |
| DatabaseReader.StoreBase | software/AI_Speech1/src/ai/ai_db.c:203-220 | every field of the record goes to its table, and the entries before it stay |
| DatabaseReader.LoadList | software/AI_Speech1/src/ai/ai_db.c:167-249 | load_list() succeeds exactly if the walk does with at most 32 classes, and then size, class total and all tables are those of the records |
| DatabaseReader.MakeLinkerTable | software/AI_Speech1/src/ai/ai_group.c:23-30 | sixteen name slots of sixteen bytes |
| DatabaseReader.LoadLinkerList | software/AI_Speech1/src/ai/ai_db.c:106-165 | load_linker_list() succeeds exactly if it meets as many labels as classes, and then every label that has a prepared slot is in it; with more than sixteen labels, stores through the pointers that were never set are assumed to land in memory of no concern |
| DatabaseReader.ReadDatabase | software/AI_Speech1/src/ai/ai_db.c:253-309 | readDatabase() returns the status of the database and, if it is OK, its tables |
| DatabaseWriter.WriteDatabase | model/buildimage.py:236-334 | the script writes the page of its bases and labels |
| Comparer.CountDifference | software/AI_Speech1/src/ai/ai.c:118-152 | for registers that hold matches, the distance in 24 bits, the class in the four above and the card on top, the difference is the sum of the decided class's distances and the last of them once more for every one missing to eight; it stays below the largest 32-bit value, so nothing wraps |
| Comparer.DifferenceIsScore | software/AI_Speech1/src/ai/ai.c:118-152 | the same of the function that the other results are stated with |
| Comparer.ScoreOfMatches | software/AI_Speech1/src/ai/ai.c:196-206 | the score by which the best base is chosen is that of the matches of the class decided on |
| Comparer.Compare | software/AI_Speech1/src/ai/ai.c:196-215 | state, decision and difference of every answer of the comparer; a fault leaves decision and difference as they were |
| WordSelection.SelectBestSuit | software/AI_Speech1/src/ai/ai_group.c:54-79 | the result is the decision of the first OK base with the lowest score plus the class counts before it; the sentinel is always beaten |
| WordSelection.BestReply | software/AI_Speech1/src/ai/ai_group.c:65-76 | the best base is OK, no OK base scores lower, and none before it scores as low |
| WordSelection.JudgeBases | software/AI_Speech1/src/ai/ai_group.c:244-285 | the arrays hold the comparer's answers, unless one is a disk error, which ends the loop |
| WordSelection.ChooseSlot | software/AI_Speech1/src/ai/ai_group.c:293 | the 8-bit word decision on the arrays is the slot of the best reply |
| WordSelection.SlotIsLabel | software/AI_Speech1/src/ai/ai_group.c:293-299 | with a decision below its base's class count the slot is that class's place among all classes, and nothing is cut off |
| WordSelection.OutcomeOnWritten | software/AI_Speech1/src/ai/ai_group.c:229-308 | on a written database and answers without a fault, the outcome is the place of the best decision among all classes, or an error exactly if that is beyond the number of labels |
| WordSelection.ChosenLabel | software/AI_Speech1/src/ai/ai_group.c:229-308 | on a written database, with the best decision below its base's class count the slot chosen is the place of that class, and the labels read are the written ones, one of them at that place |
| WordSelection.WordOfWritten | software/AI_Speech1/src/ai/ai_group.c:195-319 | end to end on a written database: with the best decision below its base's class count and the class's label among the sixteen that have a slot, the call succeeds and the word is that label as it was written; a decision that leads beyond the labels fails |
| WordSelection.WordIsOwnLabelIff | software/AI_Speech1/src/ai/ai_group.c:293-299 | the chosen slot is one of the best base's own classes exactly if its decision is below its class count |
| WordSelection.StatusOnWritten | software/AI_Speech1/src/ai/ai_group.c:195-319 | the status for a written database and any answers: a file error from a wrong start block, a disk error from a failed load or a removed or faulty card at any base, a word or a file error once some base is decided, else no detection if some base finished and bad configuration if none did |
| WordSelection.RefusedIsFileError | software/AI_Speech1/src/ai/ai_db.c:253-309 | a database that is not accepted is a file error, unless the disk fails |
| WordSelection.SlotBehindTheLabels | software/AI_Speech1/src/ai/ai_group.c:295-299 | one base with one class and one label: the decision 1 passes the check, and its slot holds no label |
| WordSelection.EnoughLabels | software/AI_Speech1/src/ai/ai_db.c:160-164 | an accepted label list has a label for every class of the base list, on every page |
| WordSelection.CopyLabel | software/AI_Speech1/src/ai/ai_group.c:301-311 | the copied word is the label with its closing 0 |
| WordSelection.PickWord | software/AI_Speech1/src/ai/ai_group.c:291-318 | from judged bases and loaded labels to the status and the word |
| WordSelection.Analyse | software/AI_Speech1/src/ai/ai_group.c:195-319 | ai_group_analyse() returns the status that page and answers decide; if the slot is a prepared one below the number of labels the word is the label in it (with more than sixteen labels, stores through pointers that were never set are assumed harmless) |
| Alarms.TickDecides | software/AI_Speech1_bsp/HAL/src/alt_tick.c:109-115 | between ticks a time and a flag stand for one tick; the test at the next tick fires exactly if it is that one, and otherwise they go on standing for it |
| Alarms.RearmStands | software/AI_Speech1_bsp/HAL/src/alt_tick.c:127-137 | after a callback at a tick, time and flag stand for the tick as many later as it asked for |
| Alarms.StartStandsIff | software/AI_Speech1_bsp/HAL/src/alt_alarm_start.c:80-96 | a registration stands for the tick `nticks` + 1 later exactly unless `nticks` is the largest value and the counter is not about to wrap |
| Alarms.Alarm.StepAdvances | software/AI_Speech1_bsp/HAL/src/alt_tick.c:109-140 | the step of the loop on an armed alarm is the step of its schedule |
| Alarms.Alarm.Process | software/AI_Speech1_bsp/HAL/src/alt_tick.c:100-141 | one pass of the loop: the new fields of any alarm; an armed one runs exactly if it is due, and a premature one at once |
| Alarms.Clock.Start | software/AI_Speech1_bsp/HAL/src/alt_alarm_start.c:64-112 | the alarm is registered for its tick, or the call fails and changes nothing |
| Alarms.Clock.Tick | software/AI_Speech1_bsp/HAL/src/alt_tick.c:87-148 | through any number of wraps, every alarm of the list runs at exactly the ticks of its schedule, and leaves the list exactly when its callback returns 0; an alarm that is not in the list never runs |
| Alarms.Clock.Stop | software/AI_Speech1_bsp/HAL/src/alt_tick.c:66-73 | exactly that alarm leaves the list |
| TimeOfDay.WallClock.GetTimeOfDay | software/AI_Speech1_bsp/HAL/src/alt_gettod.c:71-124 | both loops end for every stored time, in the reading of that time; without a clock nothing is written |
| TimeOfDay.WallClock.SetTimeOfDay | software/AI_Speech1_bsp/HAL/src/alt_settod.c:72-96 | the reset time and the zone are stored, or nothing is |
| TimeOfDay.BorrowTotal | software/AI_Speech1_bsp/HAL/src/alt_gettod.c:95-107 | the borrow loop keeps the total, or makes it 0 if it is negative |
| TimeOfDay.CarryTotal | software/AI_Speech1_bsp/HAL/src/alt_gettod.c:109-112 | the carry loop keeps the total and leaves less than a second of microseconds |
| TimeOfDay.SecondsAndFraction | software/AI_Speech1_bsp/HAL/src/alt_gettod.c:91-93 | at a rate that divides a million, ticks are whole seconds and a fraction |
| TimeOfDay.ReadingTotal | software/AI_Speech1_bsp/HAL/src/alt_gettod.c:89-112 | the total read is the one set plus the time of the ticks between, plus the difference of the two fractions, but not below 0 |
| TimeOfDay.TimeConservedIff | software/AI_Speech1_bsp/HAL/src/alt_settod.c:82-84 | time is conserved exactly if the 32-bit product gives the right fraction, or the error is hidden at zero |
| TimeOfDay.TimeIsConserved | software/AI_Speech1_bsp/HAL/src/alt_settod.c:82-84 | as long as the product fits 32 bits nothing is lost, and an immediate reading is what was set |
| TimeOfDay.TimeIsLostAfterWrap | software/AI_Speech1_bsp/HAL/src/alt_settod.c:83-84 | a setting whose immediate reading is almost a second off |
| SampleQueue.Queue.Put | software/AI_Speech1/src/microphone/queue.c:11-26 | a sample goes to the end of the queue, or is dropped if there are sixteen |
| SampleQueue.Queue.Pick | software/AI_Speech1/src/microphone/queue.c:28-49 | the oldest sample leaves the queue; the size never exceeds sixteen, so the full status is never returned |
| Microphone.Mic.Irq | software/AI_Speech1/src/microphone/microphone.c:38-60 | at most four arrivals go to the queue, in order, as far as there is room |
| Microphone.Mic.GetSample | software/AI_Speech1/src/microphone/microphone.c:84-118 | the oldest sample, reduced; never full; an error exactly from the 16000th bad sound in a row on |
| Microphone.ReduceIsDivisionIff | software/AI_Speech1/src/microphone/microphone.c:62-82 | the reduction is division by sixteen exactly for samples of at most 20 significant bits |
| Microphone.ReduceIs | software/AI_Speech1/src/microphone/microphone.c:62-82 | the largest and the smallest sixteenth of the range become the largest and the smallest 16-bit value; of every other sample the sixteenth part is kept, cut to 16 bits |
| Recorder.FirstLoud | software/AI_Speech1/src/microphone/recorder.c:98-104 | the trigger is loud and nothing before it is |
| Recorder.LoudIff | software/AI_Speech1/src/microphone/recorder.c:98-104 | as a signed number a loud sample is above 1536 or below -1537 |
| Recorder.Recording.Store | software/AI_Speech1/src/microphone/recorder.c:96-104 | one sample goes to its slot, and the margin counts the samples from the first loud one on |
| Recorder.Recording.Advanced | software/AI_Speech1/src/microphone/recorder.c:126-130 | after a stored sample every slot of the table holds the sample of its age, around the wrap |
| Recorder.Recording.Unroll | software/AI_Speech1/src/microphone/recorder.c:113-116 | reading the table from the slot after the last one gives the last 23900 samples in the order of time, silence before them |
| Recorder.Recording.Take | software/AI_Speech1/src/microphone/recorder.c:88-132 | the first 2048 samples in range are dropped, the others stored; the recording is complete exactly when the margin of 11950 samples from the trigger on is full, and then it is the window |
| Recorder.Recording.LeaveRange | software/AI_Speech1/src/microphone/recorder.c:133-160 | out of range the table is silent and everything starts again |
| Recorder.Recording.Poll | software/AI_Speech1/src/microphone/recorder.c:162-208 | the peripherals take their turns; the listen button starts only while the name is awaited and cancels only otherwise; a lost connection blanks what is stored |
| Recorder.Recording.Step | software/AI_Speech1/src/microphone/recorder.c:59-211 | one pass, after any number of interrupt runs, does what the log of the recording says for the sample that the queue gives, and keeps the invariant of the table; the full branch is unreachable |
| Recorder.Recording.Record | software/AI_Speech1/src/microphone/recorder.c:35-216 | for every script of passes, result, log, queue and bad-sound count are those of playing the script, and a fragment is the window of what the log holds; if the connection never drops out and comes back, a fragment of a call from its start is the last samples that the driver handed over, with the first loud one at index 11950 and only quiet ones before it, however often the speaker leaves the range; a call ends with a fragment exactly if the margin is full, and every other result has its cause in a pass of the script |
| Recorder.RecordsWhatWasPicked | software/AI_Speech1/src/microphone/recorder.c:59-160 | in every call, what the recording holds are the last samples that the driver handed over, in order |
| Recorder.NothingIsBlanked | software/AI_Speech1/src/microphone/recorder.c:133-164 | only the return of a lost connection erases stored samples: without it none is erased in a whole call, whatever the distance sensor says |
| Recorder.WindowOfCall | software/AI_Speech1/src/microphone/recorder.c:35-119 | the window of any complete call is of the last samples handed over, quiet before the middle; the first loud one is at index 11950 exactly if it was not erased by the return of the connection, and without such a return no sample of the window is erased |
| Recorder.CapturedWindow | software/AI_Speech1/src/microphone/recorder.c:107-119 | if the speaker stays in range too, the window is made of all samples handed over in the call but the first 2048: none is missing |
| Recorder.ReturnLosesTrigger | software/AI_Speech1/src/microphone/recorder.c:162-166 | a connection that comes back after the trigger was stored, with the speaker in range from then on, leaves a fragment with no loud sample up to its middle |
| Recorder.FlagDecides | software/AI_Speech1/src/microphone/recorder.c:174-186 | the listen button starts only a call that waits for the name, and cancels only another one |
| Recorder.ResultsHaveCauses | software/AI_Speech1/src/microphone/recorder.c:88-208 | in every call the result is a fragment exactly if 11950 samples have followed the first loud one on; a timeout needs the time to be up, and more than the dropped samples if the speaker is in range, a start, cancel or volume change its button, a reset the button or the connection, an error the sensor or the microphone |
| Recorder.HeldButtonEnds | software/AI_Speech1/src/microphone/recorder.c:162-208 | a button that stays pressed ends every call within ten samples |
| Recorder.ExpiredTimeEnds | software/AI_Speech1/src/microphone/recorder.c:88-157 | once the time is up a call takes at most the samples that it drops at its start |
| Recorder.AwayHoldsNothing | software/AI_Speech1/src/microphone/recorder.c:133-204 | when the speaker is away a call that goes on holds nothing after eleven samples, or after the first one if that is known; after a sensor error it ends with the next sample |
| Recorder.TriggerInTheMiddle | software/AI_Speech1/src/microphone/recorder.c:107-119 | in a complete recording all before index 11950 is quiet, and the trigger is there exactly if it was not erased |
| Talks.MeasureDecreases | software/AI_Speech1/src/main.c:175-264 | every outcome in a session brings its end closer; only the start of a session moves it away |
| Talks.EventDecides | software/AI_Speech1/src/main.c:138-264 | one event in any run: an idle system starts a session exactly by the button or a word that starts with the name; a session ends exactly by silence, a cancel or its fifth outcome, and otherwise an outcome is added to it; volume and noise change nothing |
| Talks.SessionIff | software/AI_Speech1/src/main.c:122-300 | over every run a session is on exactly if one began and neither silence, a cancel nor five outcomes followed |
| Talks.SessionEnds | software/AI_Speech1/src/main.c:175-264 | over every run whose button events start sessions from idle only, from the start of a session the system is idle again after at most five outcomes |
| Talks.OutcomesCount | software/AI_Speech1/src/main.c:175-264 | as long as a session lasts, its outcomes are those of the run |
| Talks.LastOutcomeAt | software/AI_Speech1/src/main.c:190-237 | the last outcome of a session was heard at one event, with no outcome and no change of state since |
| Talks.SentWordIff | software/AI_Speech1/src/main.c:265-290 | over every run, silence sends a word exactly if it is not empty, the session's last outcome was this word and the outcome before it was not a word that it is a prefix of |
| Meeting.CopyString | software/AI_Speech1/src/utils/datatypes.c:118-131 | str_cpy() copies a string that ends in its buffer |
| Meeting.StartsLike | software/AI_Speech1/src/main.c:204 | whether the word is a prefix of the buffer |
| Meeting.Message | software/AI_Speech1/src/output/BLE/BLE.c:103-149 | of a buffer with a word and its line end, exactly those are handed to the radio, whatever lies behind them; a radio that is disconnected or still writing loses them |
| Meeting.App.Retry | software/AI_Speech1/src/main.c:196-236 | a word while one is to be confirmed: variables and buffer go on agreeing with the conversation |
| Meeting.App.OnHeard | software/AI_Speech1/src/main.c:175-237 | a recognised word is the next outcome, or the name starts a session |
| Meeting.App.OnUnrecognised | software/AI_Speech1/src/main.c:242-264 | an unrecognised word is the next outcome |
| Meeting.App.Send | software/AI_Speech1/src/main.c:269-283 | the buffered word leaves with its line end if the radio takes it, and the buffer is cleared; the byte behind the buffer changes exactly for a word of fifteen characters |
| Meeting.App.OnSilence | software/AI_Speech1/src/main.c:265-298 | silence ends the session and sends the pending word exactly if there is one |
| Meeting.App.Handle | software/AI_Speech1/src/main.c:122-300 | one pass of the event loop is one step of the conversation; waiting for the name ends exactly by the button or by a word that starts with the name, and begins again exactly by silence, a cancel, or an outcome after three retries |
| Meeting.App.Run | software/AI_Speech1/src/main.c:122-304 | over every run, state, flag, retry counter, buffer, transaction count and transmitted messages are those of the conversation, and the state is another than waiting for the name exactly if a session began that nothing has ended since |
| Meeting.App.Converse | software/AI_Speech1/src/main.c:122-304 | the same over every run of calls of get_word() with the loop's own flag |
| Meeting.ButtonIsSafe | software/AI_Speech1/src/microphone/recorder.c:174-186 | in every run of calls the listen button starts a session only when the system is idle |
| Meeting.CallDecides | software/AI_Speech1/src/detect.c:37-79 | a call comes to the analysis of a fragment exactly if the recording has filled its margin, to silence only if the time was up, and to a start, a cancel or the volume only by the button for it |
| Meeting.TimeUpIsSilence | software/AI_Speech1/src/detect.c:63-67 | when the time is up and nothing else happens, a call comes to silence or to a fragment with the first sample after the dropped ones, unless the microphone is broken |
| Meeting.HeldButtonIsHeard | software/AI_Speech1/src/detect.c:53-61 | a held button is what a call comes to within ten samples, unless it comes to a fragment or the microphone is broken |
| Meeting.EverySessionEnds | software/AI_Speech1/src/detect.c:37-87 | in every run of calls at most five outcomes pass from the start of a session until the system is idle again |
| Meeting.LongWordOverruns | software/AI_Speech1/src/main.c:269-275 | silence after a first word writes behind the buffer exactly if the word has fifteen characters |
| Meeting.ShortWordsStay | software/AI_Speech1/src/main.c:269-275 | in a run whose words have at most fourteen characters nothing is ever written behind the buffer |
| Meeting.App.FlagSaysIdle | software/AI_Speech1/src/main.c:118-147 | what the invariant that Handle, Run and Converse keep says: the recorder's flag asks for the name exactly when the system is idle; the retry counter is at most 3, and 0 outside retries |
| Division.Shift | model/divison.py:19-21 | one shift doubles what the registers stand for: the masks drop no set bit of ACC or QUO |
| Division.Subtract | model/divison.py:29-32 | the conditional subtraction keeps divisor times quotient plus remainder, and makes the remainder smaller than the divisor |
| Division.Iterate | model/divison.py:16-32 | one iteration takes the next bit of the dividend into quotient and remainder |
| Division.Divide | model/divison.py:1-40 | quotient and remainder, for every 32-bit dividend and every positive divisor |
| Printing.Numeral | software/AI_Speech1_bsp/HAL/src/alt_log_printf.c:281-296 | the numeral has digits below the base and no leading zero but for 0 itself |
| Printing.NumeralValue | software/AI_Speech1_bsp/HAL/src/alt_log_printf.c:281-296 | the numeral stands for its number, in every base from 2 on |
| Printing.NumeralIsUnique | software/AI_Speech1_bsp/HAL/src/alt_log_printf.c:281-296 | no other canonical row of digits stands for the same number |
| Printing.FirstDigit | software/AI_Speech1_bsp/HAL/src/alt_log_printf.c:286-295 | dividing by the place value splits off the first digit, and the remainder has the other ones |
| Printing.CountDigits | software/AI_Speech1_bsp/HAL/src/alt_log_printf.c:247-255 | the counting loop finds the number of digits and the largest place value, which does not wrap |
| Printing.EmitDigits | software/AI_Speech1_bsp/HAL/src/alt_log_printf.c:281-296 | the printing loop prints the numeral |
| Printing.PrintInteger | software/AI_Speech1_bsp/HAL/src/alt_log_printf.c:206-297 | sign, fill and digits of every 32-bit value, signed or not, the most negative one included |
| Printing.FormattedReads | software/AI_Speech1_bsp/HAL/src/alt_log_printf.c:257-296 | the printed text, read strictly as spaces, a sign and digits of the base, is the number |
| Printing.FillIsAsAsked | software/AI_Speech1_bsp/HAL/src/alt_log_printf.c:257-279 | zeros are the fill if they are asked for, and then there is no space; otherwise there are spaces in front of what is printed without a width |
| Printing.LettersHaveCase | software/AI_Speech1_bsp/HAL/src/alt_log_printf.c:281-296 | the letters among the digits have the case asked for |
| Printing.Meaning | software/AI_Speech1_bsp/HAL/src/alt_log_printf.c:206-244 | the number of an argument is the one in the range of its type with the same low 32 bits |
| Printing.FormattedWidth | software/AI_Speech1_bsp/HAL/src/alt_log_printf.c:257-279 | its width is the one asked for or the one needed, whichever is larger |
| FdPool.Pool.constructor | software/AI_Speech1_bsp/HAL/src/alt_dev.c:118-149 | at startup the standard slots refer to the null device and the others are free |
| FdPool.Pool.GetFd | software/AI_Speech1_bsp/HAL/src/alt_get_fd.c:54-101 | the first free slot is taken, if there is one, and the high-water mark covers it |
| FdPool.Pool.ReleaseFd | software/AI_Speech1_bsp/HAL/src/alt_release_fd.c:44-51 | a slot is freed, unless it is a standard one |
| FdPool.Pool.FileLocked | software/AI_Speech1_bsp/HAL/src/alt_open.c:64-92 | the search up to the high-water mark finds a lock on the device exactly if another descriptor holds one |
| FdPool.Pool.Open | software/AI_Speech1_bsp/HAL/src/alt_open.c:105-171 | while a descriptor holds its device exclusively every open of the device fails; a failed open leaves all open slots as they were and opens none |
| FdPool.Pool.Lock | software/AI_Speech1_bsp/HAL/src/alt_fd_lock.c:54-75 | the lock is granted exactly if no other descriptor of the device lies below the high-water mark |
| FdPool.GrantIsSoleIff | software/AI_Speech1_bsp/HAL/src/alt_fd_lock.c:61-69 | a granted lock is the sole descriptor of its device exactly if no other one lies at the mark, or, before the first allocation, in a standard slot |
| FdPool.LockOverlooksTheMark | software/AI_Speech1_bsp/HAL/src/alt_fd_lock.c:61-69 | two descriptors of one device, the second one at the mark: the first one gets its lock |

## Left out

- `altera_avalon_jtag_uart_small` variants, the polling driver: no shared state.
- JtagUart.Driver.Read: the variant with an operating system, where reader and writer wait on event flags and lock semaphores; blocking waits are followed for at most `polls` polls, and a call still waiting then is the outcome `Waiting`.
- JtagUart.Driver.Write: the caller's data are a sequence, not a buffer that could change meanwhile; the build option that throws characters away for an absent host is not modelled.
- The one-second host-inactivity alarm of the UART (`altera_avalon_jtag_uart_init.c:203-225`): `hostInactive` takes any value at any interrupt point instead.
- The `reverse`, `zaz` and `writeschematic` functions of `model/fft.py`, and rounding: the transform is over exact arithmetic.
- FilesystemReader.ReadFileSystem: the walk ends inside the loaded memory. With more files than declared slots the source stores one record behind the list before it finds out; then the list has that slot. The name slots that `selfchecks.c:50-53` prepares are fewer than its declared ones.
- DatabaseReader.LoadLinkerList: only sixteen label slots are ever prepared (ai_group.c:26). What the source stores through a pointer that was never set is taken to land in memory of no concern here, and what it reads through one is an arbitrary text (`stray` of WordSelection.Analyse).
- WordSelection.Analyse: the busy wait of the comparer, the requests written to it and the retries, which its error analysis never asks for; an answer is an error or the result registers.
- DatabaseWriter.WriteDatabase: the bases and labels are parameters in place of the script's fixed tables, and one of the four equal copies is written.
- Alarms.Clock.Tick: callbacks are functions of how often they have run and do not register or remove alarms themselves; the linked list is a sequence, and insertion at its front is kept, but not the pointers.
- TimeOfDay.WallClock.SetTimeOfDay: seconds and microseconds are 32-bit, as in the C library of the target.
- Recorder.Recording.Take: the normaliser is not modelled, and the copy engine is taken to read the table around its end; `dma.c` is not part of this model.
- Recorder.Recording.Poll: of the wait for the connection only its outcome is modelled, and that it blanks the table.
- Meeting.App.Handle: words are what a label can be, at most 15 characters without a 0 or a line feed; speech output, the volume, whose comparison of an unsigned byte with -1 (main.c:157) never holds, the console's copy of the word and the ends of the loop on a fatal status or a reset are left out. Of the memory behind the buffer one byte is modelled.
- Printing.PrintInteger: the format string is not interpreted; base, case, fill and width are parameters. Strings and characters are printed by copying.
- FdPool.Pool.Open: the driver's own open function is its answer, and it does not touch the pool; semaphores are left out, as on the target without an operating system.
- `Prepare_file_system_list` and `ai_group_selfcheck`: they set pointers, and repeat the loop over the bases.
- Registers, interrupt registration, cache and startup code, the SD card, DMA, Bluetooth interrupts, the signal processing in `model/` and the hardware description: inputs or events of this model.

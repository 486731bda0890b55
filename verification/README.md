# Flycast-X verification

A Dafny model of the parts of Flycast-X (a Dreamcast emulator and its original-Xbox port) that hold
real algorithms, with proofs of what they promise. `dafny verify dfyconfig.toml` checks all of it.

- **Audio.** `SpscFifo` is the lock-free byte queue as interleaved atomic steps (cursor loads,
  single-byte copies, cursor publishes), for the Xbox FIFO and the desktop ring alike; `ByteFifo` is
  the same queue as an object. `AudioPipeline` puts `push()`, the feeder thread, the looping hardware
  ring and the wake-up event around an atomic queue, `AudioRefinement` proves that the same system over the
  byte-by-byte queue has no other runs, `PacedPush` that `push()` waits as long as the
  feeder makes progress, and `XboxBackend` has the two loops as methods.
- **Input.** `InputMapping` has ordered input sets, combos and the forward and reverse maps of a
  mapping; `Gamepad` is the press/release state machine on top, and `GamepadResponse` says which
  inputs and keys are down after any run of events.
- **Cheats.** `Cheats` compiles GameShark words into a flat list and interprets the list; direct
  interpretation of the words is defined beside it. `CheatAssembler` makes the words, plain or encrypted, that
  the decoder reads. `CheatQuirks` says what happens where list and codes differ, `CheatLists` which cheats of a
  list run. `CheatManager` has the loops.
- **Savestates.** `Rzip` and `RzipFile` are the chunked stream, `Savestate` the two-pass serializer, the
  RetroArch container and the state file, `StateFiles` the raw, truncated and foreign ones. zlib is a pair of functions with
  `uncompress(compress(x)) == x`, output of at least one byte and at most 0.1 % + 12 bytes of growth.
- **Configuration.** `Ini` and `IniFile` print and parse INI files, `PathList` is the quoted list codec
  and `PathListFile` takes it through such a file, `OptionCodec` and `Settings` layer per-game options over
  global ones, `SettingsSave` says what a save writes in either mode, and `SettingsFile` takes them through a file.
- **Discs.** `IsoFs` reads directories (ECMA-119), `Cue` lays out tracks and `CueSheets` says which sheets it takes, `Chd` and `ChdCache` address
  frames through a one-hunk cache, `DiscTracks` has the two track searches.
- **Drawing.** `Coalesce` batches sorted translucent triangles.
- **GDB.** `Gdb` cuts the byte stream into packets, checks, escapes and packs.

Machine integers are unbounded `int`s with 32-bit wrap-around and signed reading written out (`U32`,
`S32`). Class methods are proved against functions on values; lemmas speak about those functions.

Where a promise turned out false of the code, the code is modelled as it is and the lemma says exactly
when it holds:

- GameShark conditions do not do what the codes say for a 0x0D inside a 0x0E block, a 0x0E nested in a 0x0E, a 0x0D
  in front of a block, of a group write or of an empty group write, an empty group write in a block, and a block
  that ends inside a code; for each, and for every line count, `CheatQuirks` says on which memories the two agree;
- an INI file comes back exactly for good names and for values that do not start with a quote
  (`IniFile.SaveLoadRoundTrip`), and a path list exactly when its first path needs no
  quotes and no path has a line break (`PathListFile.ComesBackFromIniFile`); empty paths are dropped (`PathList.RoundTrip`);
- an encrypted 0x0D code in the last two words of a list is not decrypted (`CheatAssembler.EncryptedTestAtEnd`);
- an overridden option set back to the overriding value does not come back if the game has an entry with another
  value, which is not deleted (`SettingsSave.OverriddenComesBack`);
- a per-game setting without a global entry is lost unless it is the default (`Settings.PerGameRoundTrip`), and
  a text that starts with a quote is lost in the file (`SettingsFile.FileRoundTrip`);
- `RZipFile::Write` ends only for lengths below 2^32 (`Rzip.WriteTerminatesExactly`), and `RZipFile::Read` for larger
  ones only if the stream has no more bytes than the length modulo 2^32 (`Rzip.ReadTerminatesExactly`);
- a directory is listed up to its first sector without records (`IsoFs.ListRoundTrip`), a file read at an offset
  inside a sector starts at the sector, and one past the end reads on (`IsoFs.ReadIsExact`);
- the hunk cache starts out claiming to hold hunk 0x0FFFFFFF, and keeps its claim after a failed read
  (`ChdCache.CachedReadsAreRight`, for every sequence of reads);
- a track that shares a file with a track of another sector size is read from the wrong place, and can run past the
  end of the file (`Cue.MixedSectorSizes`);
- neighbouring draws can be left unmerged, exactly where an entry continues another one after entries that are
  skipped (`Coalesce.NothingLeftToMerge`).

## Model

| member | source | states |
|---|---|---|
| SpscFifo.StreamIntegrity | Platform/xbox/xbox_audio_directsound.cpp:58-106 | in every interleaving of one writer and one reader, bytes read so far + occupied region == bytes accepted so far, and the region never fills the buffer |
| SpscFifo.NoSlotConflict | Platform/xbox/xbox_audio_directsound.cpp:76-105 | in no reachable state do the two threads copy to and from the same slot |
| SpscFifo.RefinesAtomicQueue | Platform/xbox/xbox_audio_directsound.cpp:69-106 | the observable queue changes only when a cursor is published: a write appends its whole block, a read removes exactly what it collected |
| SpscFifo.RefusedExactlyWhenFull | Platform/xbox/xbox_audio_directsound.cpp:74-79 | a write is refused if and only if the block exceeds the free bytes when the other cursor is loaded |
| SpscFifo.ReadTakesTheFront | Platform/xbox/xbox_audio_directsound.cpp:90-105 | one whole read(), whatever the writer does meanwhile, removes from the front exactly what it would have taken from the queue as it was when the write cursor was loaded |
| SpscFifo.TakesAllItMay | Platform/xbox/xbox_audio_directsound.cpp:90-96 | a read takes the most whole frames it was asked for and finds (Xbox), or exactly what it was asked for if that is there (desktop ring) |
| SpscFifo.NeitherThreadIsStuck | Platform/xbox/xbox_audio_directsound.cpp:76-105 | a copy that has begun can always take its next step |
| SpscFifo.CursorsMeasure | flycast/core/audio/audiostream.h:73-123 | both modular arithmetics measure the same distance and its complement |
| SpscFifo.CopyGoesRoundTheRing | flycast/core/audio/audiostream.h:73-123 | both copy forms touch the successive slots of the stream and publish the slot where it ends |
| ByteFifo.Fifo.constructor | Platform/xbox/xbox_audio_directsound.cpp:67 | a new queue is empty |
| ByteFifo.Fifo.Readable | Platform/xbox/xbox_audio_directsound.cpp:69-73 | the number of queued bytes |
| ByteFifo.Fifo.Writable | Platform/xbox/xbox_audio_directsound.cpp:74 | one less than the capacity, minus the queued bytes |
| ByteFifo.Fifo.Write | Platform/xbox/xbox_audio_directsound.cpp:76-87 | the block is queued whole exactly when it fits, otherwise nothing changes |
| ByteFifo.Fifo.Read | Platform/xbox/xbox_audio_directsound.cpp:90-105 | the oldest bytes leave the queue, as many whole frames as asked for and there are |
| AudioPipeline.PipelineKeepsTheStream | Platform/xbox/xbox_audio_directsound.cpp:129-173 | over every run, audio fetched + queue == accepted stream, the hardware ring holds exactly the last bytes rendered, and only whole frames are fetched |
| AudioPipeline.RingIsTheLatestWindow | Platform/xbox/xbox_audio_directsound.cpp:156-164 | each of the last 8192 rendered bytes is in its slot of the ring |
| AudioPipeline.PassFillsTheGap | Platform/xbox/xbox_audio_directsound.cpp:134-166 | a pass whose Locks succeed renders exactly the cyclic interval from the write cursor to the frame-aligned play cursor, less than one turn, whatever push() does meanwhile |
| AudioPipeline.ChannelsNeverSwap | Platform/xbox/xbox_audio_directsound.cpp:89-173 | over every run, each rendered byte is silence or the accepted byte it came from, at the same place of its frame |
| AudioPipeline.RenderedByteKeepsItsChannel | Platform/xbox/xbox_audio_directsound.cpp:89-105 | the same for any log of whole frames |
| AudioPipeline.OriginsIncrease | Platform/xbox/xbox_audio_directsound.cpp:146-166 | without the silence, the output is the stream in order: nothing repeated or reordered |
| AudioPipeline.HeardCount | Platform/xbox/xbox_audio_directsound.cpp:150-159 | nothing fetched is lost if and only if no failed Lock had fetched audio |
| AudioPipeline.PushReturns | Platform/xbox/xbox_audio_directsound.cpp:252-270 | in every interleaving one push() waits at most 6 * (queued frames + 2) + 5 times |
| AudioPipeline.PushReturnsAlone | Platform/xbox/xbox_audio_directsound.cpp:252-270 | from every state push() returns by its own steps, with the feeder standing still |
| AudioPipeline.PassEndsAlone | Platform/xbox/xbox_audio_directsound.cpp:145-173 | from every state a pass ends by the feeder's own steps, with push() standing still |
| AudioPipeline.AllOrNothing | Platform/xbox/xbox_audio_directsound.cpp:252-270 | over one whole call of push(), in every interleaving: nothing is accepted before it returns, and then the whole block or nothing |
| PacedPush.PushWaitsForRoom | Platform/xbox/xbox_audio_directsound.cpp:252-270 | in every interleaving a call of push() returns exactly when a try finds room, when the only try of a call without wait finds none, or when five waits in a row timed out, each after a try that found no room; the block is accepted exactly in the first case |
| PacedPush.GivesUpAfterFiveTimeouts | Platform/xbox/xbox_audio_directsound.cpp:260-268 | a waiting call that ends without the block has last met five full tries, each with a wait that timed out |
| PacedPush.PassSignals | Platform/xbox/xbox_audio_directsound.cpp:143-169 | a pass sets the event exactly when it has fetched audio |
| AudioRefinement.FineRunIsCoarse | Platform/xbox/xbox_audio_directsound.cpp:58-173 | every run of push() and the feeder over the byte-by-byte queue is a run of the pipeline over the atomic queue |
| AudioRefinement.FineStream | Platform/xbox/xbox_audio_directsound.cpp:58-173 | so in every interleaving of single bytes, audio fetched + bytes between the cursors == accepted stream, and the output is silence or accepted bytes of the same channel |
| XboxBackend.Backend.FillGap | Platform/xbox/xbox_audio_directsound.cpp:145-166 | the inner loop, whichever Lock fails first: the chunks that locked are the queue's bytes in order, then silence, at successive places of the ring, and the chunk fetched for the failed Lock has left the queue |
| XboxBackend.Backend.FeederPass | Platform/xbox/xbox_audio_directsound.cpp:134-169 | one whole pass, whichever Lock fails first: ring, cursor, queue and event afterwards |
| XboxBackend.Backend.Push | Platform/xbox/xbox_audio_directsound.cpp:252-270 | the retry loop ends against every behaviour of the feeder, for the first thing that settles the call; the block is queued whole exactly if a try found room, and a waiting call gives up only after five timeouts in a row |
| InputMapping.Remove | flycast/core/input/mapping.cpp:271-281 | all occurrences go, the rest keeps its order, and the count tells whether there were any |
| InputMapping.InsertBackIsInputSet | flycast/core/input/mapping.cpp:247-257 | insertion keeps inputs distinct and never holds both directions of an axis |
| InputMapping.CheckEndsWith | flycast/core/input/mapping.cpp:288-323 | true if and only if the last inputs are those of the combo, in its order or in any order |
| InputMapping.CheckIntersects | flycast/core/input/mapping.cpp:357-369 | true if and only if the combos are the same set of inputs, or the same combo when both are sequential |
| InputMapping.EditsKeepConsistency | flycast/core/input/mapping.cpp:729-784 | after any edits the forward and reverse maps are exact inverses, each key has one combo, and no two combos intersect |
| InputMapping.BoundConsistent | flycast/core/input/mapping.cpp:750-784 | after set_button the key has exactly the new combo, in consistent maps |
| InputMapping.OthersKeepTheirCombo | flycast/core/input/mapping.cpp:764-776 | another key keeps its combo if and only if that combo does not intersect the new one |
| InputMapping.ClearedOthers | flycast/core/input/mapping.cpp:729-748 | clearing a key takes away its combo and leaves every other key with its own |
| InputMapping.LongestIsUnique | flycast/core/input/mapping.cpp:667-699 | no two combos are longest suffix matches of the same inputs |
| InputMapping.ButtonIdIsLongest | flycast/core/input/mapping.cpp:667-699 | the answer is the key of the only longest suffix match |
| InputMapping.Mapping.ClearButton | flycast/core/input/mapping.cpp:729-748 | the key's combos leave both maps, ports out of range change nothing |
| InputMapping.Mapping.SetButton | flycast/core/input/mapping.cpp:750-784 | refused for an empty combo or a bad port; otherwise clears, drops intersecting combos and binds, whatever the order of the walk |
| InputMapping.Mapping.GetButtonId | flycast/core/input/mapping.cpp:667-699 | the key of the longest suffix match, whatever the order of the walk |
| InputMapping.Mapping.GetButtonReleasedIds | flycast/core/input/mapping.cpp:701-727 | the active keys one of whose combos contains the released input, in order |
| Gamepad.HeldKeysHaveTheirCombos | flycast/core/input/gamepad_device.cpp:195-230 | over every run of events: no key held twice, each held key's whole combo is down, a button bit is low exactly while its key is held |
| Gamepad.NothingStaysStuck | flycast/core/input/gamepad_device.cpp:195-230 | from any reachable state, letting go of every input leaves no key held and every bit high |
| Gamepad.NoSilentRemoval | flycast/core/input/gamepad_device.cpp:549-572 | an input leaves the set only in an event about it or its axis |
| Gamepad.ReleasedMembers | flycast/core/input/mapping.cpp:701-727 | on a consistent mapping exactly the held keys whose combo contains the input are released |
| GamepadResponse.PressHoldsLongest | flycast/core/input/gamepad_device.cpp:195-230 | pressing an input that was up appends the key of the longest combo that matches what was pressed last, and lowers its bit exactly if it has one |
| GamepadResponse.LongestExists | flycast/core/input/mapping.cpp:667-699 | if some combo matches what was pressed last, one of them is the longest |
| GamepadResponse.PressWithoutMatch | flycast/core/input/gamepad_device.cpp:195-230 | if no combo matches, keys and bits stay |
| GamepadResponse.RepeatedPress | flycast/core/input/gamepad_device.cpp:195-230 | pressing an input that is down changes nothing |
| GamepadResponse.ReleaseDrops | flycast/core/input/gamepad_device.cpp:195-230 | letting go drops exactly the keys whose combo has the input, and raises their bits |
| GamepadResponse.InputsAreWhatWasSaid | flycast/core/input/gamepad_device.cpp:549-572 | over every run of events an input is down exactly when the last event about it said so, with the thresholds of axes and triggers |
| GamepadResponse.OwnKeyFollowsButton | flycast/core/input/gamepad_device.cpp:195-230 | over every run, a key bound to one input that no other combo uses is held, and its bit low, exactly while that input is down |
| Gamepad.Device.HandleButtonInputDef | flycast/core/input/gamepad_device.cpp:195-230 | the device's fields follow the state machine for one press or release |
| Gamepad.Device.HandleEvent | flycast/core/input/gamepad_device.cpp:549-572 | an axis event releases the opposite direction, then presses or releases its own, and keeps the invariant |
| Cheats.CompiledMeansDirect | flycast/core/cheats.cpp:811-1030 | for every well-shaped code list and every RAM, applying the compiled list equals interpreting the codes directly: guarded writes run exactly when the 16-bit test holds at that point |
| Cheats.ApplyGuarded | flycast/core/cheats.cpp:671-743 | a guard and a write: the write runs if and only if the test holds |
| Cheats.GroupGuarded | flycast/core/cheats.cpp:863-883 | a group write in a block tests before each word |
| Cheats.WriteBack | flycast/core/cheats.cpp:737-738 | writing the value just read changes nothing, so skipping equal values only saves work |
| Cheats.SetLoopFills | flycast/core/cheats.cpp:721-742 | the repeat loop of a repeat-write code fills the words it names |
| Cheats.CopyLoopMoves | flycast/core/cheats.cpp:716-719 | the copy loop moves bytes one after the other |
| Cheats.CodesDecrypt | flycast/core/cheats.cpp:786-805 | decryption recovers every 28-bit plain word from its scrambled form, whatever the top nibble |
| Cheats.ArgsDecrypt | flycast/core/cheats.cpp:807-809 | argument decryption inverts its scrambling |
| Cheats.DecodeAdvances | flycast/core/cheats.cpp:842-1029 | every code takes at least two words, all of them in the list |
| CheatAssembler.PlainDecodes | flycast/core/cheats.cpp:842-1029 | every instruction with its fields in range is read from the words assembled from the fields of its code, wherever they stand |
| CheatAssembler.EncryptedDecodes | flycast/core/cheats.cpp:786-838 | so it is from words encrypted under any seed, unless it is a 0x0D in the last two words |
| CheatAssembler.EncryptedTestAtEnd | flycast/core/cheats.cpp:834-837 | a 0x0D there is read right if and only if its argument is the same encrypted and plain |
| CheatAssembler.Refusals | flycast/core/cheats.cpp:842-1029 | which opcodes, subcodes, relation numbers and missing words are refused, and as what |
| CheatAssembler.DecodedIsEncodable | flycast/core/cheats.cpp:842-1029 | whatever is not refused has its fields in range |
| CheatQuirks.NextInsideBlock | flycast/core/cheats.cpp:966-993 | a 0x0D under a 0x0E, for every line count: from four lines on the 0x0D is ignored, in shorter blocks the guard of the block is lost or falls on the 0x0D; when the write runs, and when that agrees with the codes |
| CheatQuirks.EmptyGroupInsideBlock | flycast/core/cheats.cpp:863-883 | an empty group write under a 0x0E, for every line count: its guard cancels the guard of a next write in the block and makes a write behind the block conditional; when that agrees with the codes |
| CheatQuirks.NextBeforeGroup | flycast/core/cheats.cpp:863-883 | only the first word of a group after a 0x0D is conditional |
| CheatQuirks.BlockInsideBlock | flycast/core/cheats.cpp:994-1022 | a 0x0E under a 0x0E, for all line counts: exactly when the list agrees with the codes; from two lines each on, when a test holds or the write changes nothing |
| CheatQuirks.NextBeforeShortBlock | flycast/core/cheats.cpp:966-1022 | a 0x0D in front of a block and one write agrees with the codes from two lines on; below, exactly when its test holds, and the block's if it has a line, or the write changes nothing |
| CheatQuirks.NextBeforeBlock | flycast/core/cheats.cpp:966-1022 | a 0x0D in front of a block and two writes, for every line count: exactly when the list agrees with the codes; in a block that covers both, when the 0x0D test holds, the block's test holds after the first write, or the second write changes nothing |
| CheatQuirks.BlockEndsInsideCode | flycast/core/cheats.cpp:814-1022 | a block of one write agrees with the codes for every line count but one; there exactly when its test holds or the write changes nothing |
| CheatQuirks.BlockEndsInsideGroup | flycast/core/cheats.cpp:863-883 | in a block with one group write, for every line count: which values are guarded, and agreement exactly when, among the others, the writes from the first failure of the test on change nothing |
| CheatQuirks.NextBeforeEmptyGroup | flycast/core/cheats.cpp:863-883 | a 0x0D in front of an empty group write guards the write after it; agrees exactly when the test holds or that write changes nothing |
| CheatQuirks.CompilationCanDiffer | flycast/core/cheats.cpp:811-1030 | a concrete list and memory on which the compiled list and the codes differ |
| CheatLists.OnlineRunsBuiltIns | flycast/core/cheats.cpp:676-677 | in a network game a list does what its built-in cheats alone do |
| CheatLists.DisabledChangeNothing | flycast/core/cheats.cpp:682-683 | disabled cheats leave memory alone |
| CheatLists.FailedTestPassesOver | flycast/core/cheats.cpp:678-681 | a failed test passes over the next cheat, enabled or not |
| CheatLists.SetLoopPuts | flycast/core/cheats.cpp:721-742 | the repeat loop of a value cheat of any size, stride and increment makes exactly the writes it names |
| CheatLists.StrideIsCells | flycast/core/cheats.cpp:739 | the address step is that many cells of the cheat's size, as long as the product fits in 32 bits |
| CheatManager.Manager.AddGameSharkCheat | flycast/core/cheats.cpp:811-1030 | the whole list is compiled and appended, or the cheat list is left as it was |
| CheatManager.Manager.Store | flycast/core/cheats.cpp:642-656 | the low bytes of a value are stored in their cells of the mirrored RAM |
| CheatManager.Manager.SetRepeatedly | flycast/core/cheats.cpp:721-742 | the repeat loop, in place on RAM, is the specification's |
| CheatManager.Manager.CopyBlock | flycast/core/cheats.cpp:716-719 | the copy loop, in place on RAM, is the specification's |
| CheatManager.Manager.Apply | flycast/core/cheats.cpp:671-743 | the interpreter loop, in place on RAM, is the specification's run of the list |
| Rzip.WritesRoundTrip | flycast/core/archive/rzip.cpp:142-176 | whatever the split into Write calls, the chunks decode to the concatenation |
| Rzip.OpenCurrent | flycast/core/archive/rzip.cpp:31-51 | the 64-bit header is understood if and only if the size is below 2^32 |
| Rzip.OpenLegacy | flycast/core/archive/rzip.cpp:42-47 | the 32-bit header is understood if and only if the first chunk is not empty |
| Rzip.FileRoundTrip | flycast/core/archive/rzip.cpp:26-176 | a whole file of either form, behind any prefix, opens with its size and decodes to its data |
| Rzip.WriteTerminatesExactly | flycast/core/archive/rzip.cpp:153-172 | the Write loop ends if and only if the length is below 2^32 |
| Rzip.ReadTerminatesExactly | flycast/core/archive/rzip.cpp:106-137 | the Read loop ends if and only if the length is below 2^32 or the stream has no more bytes than the length modulo 2^32 |
| Rzip.EmptyChunkIsSkipped | flycast/core/archive/rzip.cpp:113-117 | empty chunks are passed over |
| Rzip.DamageEndsTheStream | flycast/core/archive/rzip.cpp:118-130 | a chunk that cannot be unpacked, or unpacks to more than the header allows, ends the stream |
| RzipFile.Writer.Write | flycast/core/archive/rzip.cpp:142-176 | appends the chunks of the data and adds to the size |
| RzipFile.Writer.Close | flycast/core/archive/rzip.cpp:80-97 | the size field, and only it, is filled in |
| RzipFile.Reader.Open | flycast/core/archive/rzip.cpp:26-66 | fields and file position after opening, with the legacy fix-up; a file that is not RZIP is left where it was |
| RzipFile.Reader.Read | flycast/core/archive/rzip.cpp:99-140 | wherever the loop ends, gives the next bytes of the stream, terminating on (bytes wanted, bytes left in the file) even across empty chunks |
| RzipFile.Reader.ReadParts | flycast/core/archive/rzip.cpp:99-140 | any split into Read calls gives consecutive pieces |
| RzipFile.WriteThenRead | flycast/core/archive/rzip.cpp:26-176 | any split into writes, close, reopen, any split into reads: the bytes come back |
| Savestate.Serializer.Serialize | flycast/core/serialize.h:181-194 | fails exactly past the limit; otherwise stores the bytes at the cursor and nothing else |
| Savestate.TwoPass | flycast/core/nullDC.cpp:188-200 | the dry run's size is the size of the real pass, which never overflows and puts every field in place |
| Savestate.ReadsRestoreFields | flycast/core/serialize.h:131-142 | mirrored reads restore every field and consume exactly the bytes written |
| Savestate.MemSectionIsFound | flycast/core/serialize.cpp:106-134 | behind any other 8-aligned sections the MEM section is found exactly when more than 8 bytes follow its header |
| Savestate.StateRoundTrip | flycast/core/serialize.cpp:103-157 | a state made by the two passes is restored field by field |
| Savestate.ContainerRoundTrip | flycast/core/serialize.cpp:103-148 | so it is as the MEM section of a RetroArch container |
| Savestate.SaveState | flycast/core/nullDC.cpp:227-245 | header, screenshot, then the RZIP stream |
| Savestate.LoadState | flycast/core/nullDC.cpp:293-347 | what the loader hands to the deserializer, for every file |
| StateFiles.RawStateLoads | flycast/core/nullDC.cpp:319-346 | a file that is a state alone, not compressed, loads to that state |
| StateFiles.HeadedStateLoads | flycast/core/nullDC.cpp:293-346 | so does one with header and screenshot in front |
| StateFiles.RawFilesComeBack | flycast/core/nullDC.cpp:293-346 | and the fields come back from either |
| StateFiles.RawContainersComeBack | flycast/core/nullDC.cpp:293-346 | and from a RetroArch container in either |
| StateFiles.ShortStreamsAreRefused | flycast/core/nullDC.cpp:336-352 | an RZIP file is refused if and only if its stream holds fewer bytes than its size field says |
| StateFiles.TruncatedIsRefused | flycast/core/nullDC.cpp:336-352 | a saved file cut anywhere behind its headers is refused |
| StateFiles.ForeignStatesAreRefused | flycast/core/serialize.cpp:134-147 | versions outside the supported range are refused, and another RAM size on a console |
| StateFiles.OldStatesComeBack | flycast/core/serialize.cpp:134-147 | states of every supported version come back field by field, with a RAM size where their version has one |
| Savestate.SaveLoadRoundTrip | flycast/core/nullDC.cpp:227-347 | the state comes back from the file, whatever the screenshot |
| Savestate.LegacyLoads | flycast/core/nullDC.cpp:293-325 | files without a header and with a 32-bit size load too |
| Savestate.WholeStack | flycast/core/nullDC.cpp:188-347 | from the fields to the file and back to the fields |
| Ini.EntryLineParses | flycast/core/cfg/ini.cpp:207-235 | a printed entry parses back if and only if its name and value are good |
| Ini.SectionLineParses | flycast/core/cfg/ini.cpp:193-204 | a printed section header parses back if and only if it has no closing bracket |
| Ini.ParsedLineIsGood | flycast/core/cfg/ini.cpp:185-235 | whatever a line holds, the names read from it are good ones |
| IniFile.SaveLoadRoundTrip | flycast/core/cfg/ini.cpp:180-273 | loading a saved database gives its persistent entries and nothing else, if and only if the saved names and values are good |
| IniFile.ReloadedValue | flycast/core/cfg/ini.cpp:37-46 | a reader of the reloaded file sees each saved value, and no transient-only entry |
| IniFile.LoadIsPrintable | flycast/core/cfg/ini.cpp:180-237 | any text loads to names and values that fit on lines |
| IniFile.SortedPutsUnnamedFirst | flycast/core/cfg/ini.cpp:256-258 | the map order puts the unnamed section, which has no header, first |
| IniFile.Database.SetValue | flycast/core/cfg/ini.cpp:125-138 | sections and entries come into being as needed; transient and persistent values do not touch each other |
| IniFile.Database.LoadText | flycast/core/cfg/ini.cpp:180-237 | the line loop adds what the lines say on top of what is there |
| IniFile.Database.SaveText | flycast/core/cfg/ini.cpp:253-273 | the printed text, transient-only entries left out, headers only for sections with something to save |
| IniFile.Database.Reload | flycast/core/cfg/ini.cpp:180-273 | a saved database loaded into a new one holds the persistent entries exactly when names and values are good |
| PathList.Quote | flycast/core/cfg/option.h:312-331 | the copying loop doubles every quote |
| PathList.SavePaths | flycast/core/cfg/option.h:303-336 | items quoted where needed, separated unless nothing was written yet |
| PathList.LoadPaths | flycast/core/cfg/option.h:208-265 | the index loops compute the decoder, with reads past the end made visible |
| PathList.DecodeOfEncode | flycast/core/cfg/option.h:208-336 | for every list, reading what was written gives its non-empty items, or the current value if there are none |
| PathList.RoundTrip | flycast/core/cfg/option.h:208-336 | the exact condition under which a list comes back |
| PathList.NonEmptyListsComeBack | flycast/core/cfg/option.h:208-336 | every non-empty list of non-empty strings comes back, with any mix of separators and quotes |
| PathListFile.ComesBackFromIniFile | flycast/core/cfg/ini.cpp:180-273 | saved in a file whose other entries are good and loaded by another process, a non-empty list of non-empty paths comes back if and only if its first path needs no quotes and no path has a line break |
| PathListFile.ComesBackAsValue | flycast/core/cfg/ini.cpp:222-233 | through the value parser alone it comes back if and only if its first path needs no quotes |
| PathListFile.CutLoses | flycast/core/cfg/option.h:208-265 | the text of a list, cut at its last quote, reads as another list |
| PathListFile.SplitByIniFile | flycast/core/cfg/ini.cpp:226-233 | a concrete path with a separator that comes back as two |
| OptionCodec.IntRoundTrip | flycast/core/cfg/ini.cpp:81-95 | a printed 32-bit integer is read back, through the unsigned conversion |
| OptionCodec.HexIsRead | flycast/core/cfg/ini.cpp:72-95 | a hexadecimal word in either case is read as the signed number of those bits |
| OptionCodec.LargeIsMinusOne | flycast/core/cfg/ini.cpp:81-95 | a decimal number of more than 32 bits is read as minus one |
| OptionCodec.BoolRoundTrip | flycast/core/cfg/ini.cpp:57-69 | yes and no are read back |
| OptionCodec.YesWords | flycast/core/cfg/ini.cpp:57-69 | four words in any mixture of cases mean yes, and nothing else does |
| OptionCodec.ValueRoundTrip | flycast/core/cfg/option.h:171-199 | every boolean, integer and string option reads back what it writes, whatever its current value |
| Settings.Settings.Reset | flycast/core/cfg/option.h:47-52 | every option at its default, no game, no per-game mode |
| Settings.Settings.Load | flycast/core/cfg/option.h:54-65 | every option loaded from its global or per-game entry; without a section for the game nothing changes |
| Settings.Settings.Save | flycast/core/cfg/option.h:67-72 | every option saved in turn into the database |
| Settings.Settings.SetPerGameConfig | flycast/core/cfg/option.h:81-88 | turning the game's settings off deletes its section and resets everything |
| SettingsSave.SaveOutcomes | flycast/core/cfg/option.h:130-152 | in either mode, overridden or not: what a save of all options leaves in each entry, and that no other entry changes |
| SettingsSave.GlobalRoundTrip | flycast/core/cfg/option.h:114-152 | saving global settings, resetting and loading restores every value that is not overridden, and leaves the entries of overridden options alone |
| SettingsSave.GlobalSaveLeavesOthers | flycast/core/cfg/option.h:130-152 | and changes no entry that is no option's |
| SettingsSave.OverriddenComesBack | flycast/core/cfg/option.h:130-152 | an overridden option comes back in its game if and only if it differs from the overriding value, or the game has no entry with another value |
| Settings.Settings.SaveAndRestart | flycast/core/cfg/option.h:47-76 | save, reset, load, set the game, load per-game: the final options and database |
| Settings.SaveAllEntries | flycast/core/cfg/option.h:130-152 | after a save each option's entry is as if it had been saved alone, and no other entry changed |
| Settings.PerGameRoundTrip | flycast/core/cfg/option.h:114-152 | a per-game option is restored if and only if its global entry gives a value or it had its default; other options always |
| Settings.AllValuesComeBack | flycast/core/cfg/option.h:114-152 | with a global entry for every per-game option, every value is restored |
| Settings.GlobalEntriesKept | flycast/core/cfg/option.h:139-151 | per-game saving leaves every entry alone that is not its own |
| Settings.TransientValuesStayTransient | flycast/core/cfg/option.h:119-138 | options start with a value given for the session only, and whatever they are changed to, saving the global settings leaves its entry as it was |
| Settings.LostWithoutGlobalEntry | flycast/core/cfg/option.h:139-146 | a concrete setting that is lost |
| SettingsFile.FileRoundTrip | flycast/core/cfg/option.h:47-152 | save, write the file, start the game in a new process that reads it: an option is restored if and only if it was written and its text does not start with a quote, or the global entry as read back, or the default, gives its value |
| SettingsFile.FileKeepsWhatComesBack | flycast/core/cfg/option.h:114-152 | with texts that the file keeps, exactly the options that come back in memory come back through the file |
| IsoFs.Iso733RoundTrip | flycast/core/imgread/isofs.cpp:24-30 | every both-endian number of section 7.3.3 of ECMA-119 decodes to itself |
| IsoFs.RecordIsRead | flycast/core/imgread/isofs.cpp:74-112 | the record of section 9.1 of ECMA-119 found at the cursor is read with its kind, address, length and name |
| IsoFs.ListRoundTrip | flycast/core/imgread/isofs.cpp:144-156 | a directory laid out as in section 6.8.1 of ECMA-119 is listed in order up to the first sector without records; that is everything if and only if no later sector has records |
| IsoFs.Directory.Reset | flycast/core/imgread/isofs.cpp:64-72 | the cursor at the start, the data read once |
| IsoFs.Directory.NextEntry | flycast/core/imgread/isofs.cpp:74-112 | one step of the reader, which always advances |
| IsoFs.Directory.List | flycast/core/imgread/isofs.cpp:144-156 | the loop terminates and collects what the reader steps over |
| IsoFs.ReadFile | flycast/core/imgread/isofs.cpp:129-142 | the bytes of the file from the start of the sector that holds the offset |
| IsoFs.AlignedRead | flycast/core/imgread/isofs.cpp:129-142 | at a sector boundary those are the bytes asked for |
| IsoFs.UnalignedRead | flycast/core/imgread/isofs.cpp:129-142 | for every other offset inside the file some disc shows a difference |
| IsoFs.ReadPastEnd | flycast/core/imgread/isofs.cpp:129-142 | past the end the length wraps around and bytes are delivered that are not of the file |
| IsoFs.ReadIsExact | flycast/core/imgread/isofs.cpp:129-142 | for every offset and size: a read gives the file's bytes on every disc if and only if it is empty, at the end, or starts at a sector boundary inside the file |
| Chd.OpenTracks | flycast/core/imgread/chd.cpp:141-244 | the track loop and the session shift, with every exception |
| Chd.OpensExactly | flycast/core/imgread/chd.cpp:179-215 | an image opens if and only if the metadata of every track is accepted and there are enough tracks for its kind |
| Chd.OpenedTrack | flycast/core/imgread/chd.cpp:188-229 | where each track is; exactly the last of several tracks of a disc that is no GD-ROM lies behind the session gap |
| Chd.TrackReadsItsFrames | flycast/core/imgread/chd.cpp:47-60 | every address of a track reads the frame as far into the track's frames as it is into the track, despite wrap-around and session gap |
| Chd.TracksShareNoFrame | flycast/core/imgread/chd.cpp:188-202 | padded tracks occupy disjoint, ascending frame ranges |
| Chd.OpenedTracksOrdered | flycast/core/imgread/chd.cpp:188-237 | the tracks come out sorted and disjoint, so both track searches agree |
| Chd.OpenedTracksHaveKinds | flycast/core/imgread/chd.cpp:163-196 | each track has the sector size of its type, and its bytes are swapped exactly for audio once current GD-ROM metadata was seen |
| ChdCache.CachedReadsAreRight | flycast/core/imgread/chd.cpp:47-60 | for every cache and every sequence of reads, some of which may fail: cached equals uncached if and only if every hit that is the first read, or follows a failed one, finds the tagged hunk in the buffer |
| ChdCache.CacheIsTransparent | flycast/core/imgread/chd.cpp:47-60 | if no read fails, any sequence of reads from a new cache equals uncached reads, exactly when the first is not for the initial tag |
| ChdCache.AfterFailedRead | flycast/core/imgread/chd.cpp:51-56 | a failed read and then the tagged hunk: right if and only if the buffer was left untouched |
| ChdCache.SwapBytes | flycast/core/imgread/chd.cpp:62-70 | pairs of bytes exchanged in place, the rest of the buffer kept |
| ChdCache.SwapTwice | flycast/core/imgread/chd.cpp:62-70 | swapping is its own inverse |
| ChdCache.Image.Read | flycast/core/imgread/chd.cpp:47-90 | the caller's buffer gets the sector of the address, swapped if need be, as an uncached read gives it, from a coherent cache; the cache afterwards |
| Cue.ParseSheet | flycast/core/imgread/cue.cpp:82-310 | the line loop computes the state machine, with every exception |
| CueSheets.AcceptedExactly | flycast/core/imgread/cue.cpp:103-290 | a sheet is accepted if and only if every line may stand where it does, it has 1 to 99 tracks, and a high-density area without sessions has data, audio and data tracks in their places |
| CueSheets.GdRomSheetIsAccepted | flycast/core/imgread/cue.cpp:103-290 | the sheet of a GD-ROM with files of any size is accepted, with its third track at address 45150 |
| CueSheets.TwoSessionSheetIsAccepted | flycast/core/imgread/cue.cpp:103-126 | so is that of a disc with two sessions, the second 11400 addresses behind the first |
| CueSheets.SectorSizeIsNamed | flycast/core/imgread/cue.cpp:25-45 | a track type that names a sector size has that size; the others have raw sectors |
| Cue.StepKeepsInv | flycast/core/imgread/cue.cpp:103-258 | every line that makes sense keeps tracks ordered, apart and addressed, and sessions in order |
| Cue.ParsedSheet | flycast/core/imgread/cue.cpp:152-243 | tracks sorted and disjoint; each address reads byte (FAD - fileStart) * sectorSize, inside its file; audio tracks have 2352-byte sectors |
| Cue.ParsedSessions | flycast/core/imgread/cue.cpp:103-126 | tracks before a session end before it, its own start after it |
| Cue.PositionInFile | flycast/core/imgread/common.h:222-248 | the 32-bit seek position is the place in the file |
| Cue.MixedSectorSizes | flycast/core/imgread/cue.cpp:208-217 | two track types in one file, for every size, pair of types and start: the addresses of the second track, the exact condition for all of them to lie in the file, and that its first address is read from the right place if and only if the sector sizes agree |
| Cue.MixedSheet | flycast/core/imgread/cue.cpp:208-217 | a concrete sheet whose last address lies past the end of the file |
| DiscTracks.TrackNumber | flycast/core/imgread/ImgReader.cpp:5-18 | the first track that has the address, and how far into it; 0xAA when there is none |
| DiscTracks.SectorTrack | flycast/core/imgread/common.cpp:274-284 | the last track that has the address and can read it |
| DiscTracks.BothSearches | flycast/core/imgread/common.cpp:274-284 | on ordered tracks the forward and the backward search choose the same track |
| DiscTracks.TrackBounds | flycast/core/imgread/ImgReader.cpp:20-35 | an open track ends where the next one or the lead-out starts |
| Coalesce.ExtendRun | Platform/xbox/xbox_d3d8_renderer.cpp:465-479 | the inner loop finds the end of the run and its index count |
| Coalesce.DrawSorted | Platform/xbox/xbox_d3d8_renderer.cpp:443-485 | one draw per maximal run, in order, entries that are not valid skipped |
| Coalesce.CoalescingPreservesDrawing | Platform/xbox/xbox_d3d8_renderer.cpp:443-485 | same triangles, materials and order as drawing every valid entry alone, if and only if every continued entry is made of whole triangles |
| Coalesce.WholeTrianglesPreserved | Platform/xbox/xbox_d3d8_renderer.cpp:443-485 | in particular when every count is a multiple of 3 |
| Coalesce.DrawsAreInside | Platform/xbox/xbox_d3d8_renderer.cpp:458-485 | every draw has a material, at least one triangle, and its indices inside the index buffer |
| Coalesce.ValidIsDrawn | Platform/xbox/xbox_d3d8_renderer.cpp:443-485 | every entry that fits belongs to some draw |
| Coalesce.NothingLeftToMerge | Platform/xbox/xbox_d3d8_renderer.cpp:443-485 | some neighbouring draws could still be merged if and only if a valid entry continues another one with at least one entry, and only skipped ones, between them |
| Coalesce.SkippedEntryKeepsApart | Platform/xbox/xbox_d3d8_renderer.cpp:458-464 | a concrete list where a skipped entry keeps two runs apart |
| Gdb.PrefixStable | flycast/core/debug/gdb_server.cpp:95-116 | a complete message stays what it is whatever follows, and no shorter part is complete |
| Gdb.PacketMatcher | flycast/core/debug/gdb_server.cpp:95-116 | the matcher's loop finds the first message's length, if it is complete |
| Gdb.FragmentationDoesNotMatter | flycast/core/debug/gdb_server.cpp:65-70 | any fragmentation of a stream is cut into the same messages and the same rest |
| Gdb.ItemsAreReceived | flycast/core/debug/gdb_server.cpp:920-955 | packets, acknowledgements and breaks come out in order in any fragmentation, each packet as the command it carries, or as one to be sent again if its checksum is wrong |
| Gdb.FrameIsCommand | flycast/core/debug/gdb_server.cpp:937-955 | a packet is taken for a command if and only if its checksum is that of its payload |
| Gdb.DamageIsNoticed | flycast/core/debug/gdb_server.cpp:937-955 | a packet with one wrong byte in its payload is never taken for a command |
| Gdb.FrameIsCut | flycast/core/debug/gdb_server.cpp:104-113 | a framed payload is cut where it ends if and only if it has no hash sign |
| Gdb.BufferNeverFills | flycast/core/debug/gdb_server.cpp:65-70 | with packets of at most 4096 bytes an incomplete message never fills the buffer |
| Gdb.Connection.Receive | flycast/core/debug/gdb_server.cpp:920-955 | the buffer keeps the rest, and each complete message is answered for what it is |
| Gdb.Checksum | flycast/core/debug/gdb_server.cpp:940-942 | the checksum loop sums the payload modulo 256 |
| Gdb.MakeReply | flycast/core/debug/gdb_server.cpp:373-393 | a reply is its escaped text, framed with the checksum of what is sent |
| Gdb.ReplyIsRecovered | flycast/core/debug/gdb_server.cpp:373-393 | every reply is one packet with a valid checksum, and standard unescaping recovers it |
| Gdb.Unpack | flycast/core/debug/gdb_server.cpp:38-54 | the loop ors pairs of digits into place |
| Gdb.PackRoundTrip | flycast/core/debug/gdb_server.cpp:840-858 | unpacking a packed word gives the word |

## Left out

- Cheats.CompiledMeansDirect: proved for well-shaped lists only; `CheatQuirks` takes each construct that the shape excludes in its shortest list, for all tests, line counts, writes and memories, with the exact condition of agreement, because agreement of longer lists depends on the memory at every step.
- Cue.ParsedSheet: speaks of sheets whose lines make sense where they stand (one sector size per file, increasing INDEX 01 positions inside the file, areas that fit); the other direction would have to say what a misplaced track should read.
- Gdb.BufferNeverFills: longer packets end the connection in the network library, which is not modelled.
- Reading the text of a CUE line, the fields of CHD metadata, and the digits of a cheat (`parseCodes`): lexing, which would only add easy members.
- The bit-masked cheats, the built-in cheat format and the widescreen tables of `cheats.cpp`: not produced by GameShark codes.
- Escape sequences in INI files (`cEscape`), 64-bit and floating-point options, and the renderer option that keeps its value on reset.
- List options in per-game settings: the emulator declares none.
- `handle_axis`, which writes buttons and axes directly, the emulator's own buttons and all-ports mode: they bypass the combo state machine.
- DirectSound, Direct3D, sockets, zlib and libchdr appear only through small contracts: Lock succeeds or fails, a draw draws its index range, a codec, a hunk reader that succeeds or fails.
- Sector formats, subcodes and their conversion, the table of contents and drive status.
- IsoFs.ReadFile: sector addresses are added without 32-bit wrap-around, which would need a disc of 2^32 sectors.
- A failed `CreateEvent`, after which `push()` does not wait.
- Failed host writes while saving a state or an RZIP stream.
- Reads past the end of malformed directories and path lists: the model reports them as undefined.
- `ByteFifo.Fifo` and `XboxBackend.Backend` speak of whole calls by one thread; interleaving is the subject of `SpscFifo` and `AudioPipeline`.

# External IRX images and the load-once drivers

The repository packs the I/O processor modules (IRX files) of its drivers into
one image file, stages the modules a program needs into memory before the I/O
processor is reset, and executes each staged module once when the driver that
owns it is initialised.  This project models that path from the text manifest
to the executed bytes and proves what it guarantees.

What the model covers, file by file:

- `ImageConstants`, `Words`, `Bitwise`, `Crc32`, `Rfc1952`: the sizes of the
  format, bytes, 32-bit words with their wraps written out, and the CRC with its
  algebra.
- `Strtok`, `Manifest`, `ManifestText`, `ManifestLines`, `ManifestPrinting`: the
  manifest file, its loader and its fingerprint.
- `ImageFormat`, `Layout`, `Packer`, `PackInputs`, `PackGuard`: the container
  format and the packer with its wrapping cursor.
- `ImageParser`, `Validator`, `PackedImages`, `ByteFormat`, `TableOrder`: the two
  independent readers, how they agree with the packer and with each other, and
  the format byte by byte.
- `Environment`, `Heap`, `StagingSpec`, `StagingInvariant`, `Stager`,
  `StagingRuns`, `StagingOutcomes`, `StagingHistory`: the staging interface, once
  as a state machine on values and once in place over heap blocks, and what it
  answers and holds told without it.  Allocation, opening and reading may fail
  in any combination; one `Env` per call chooses.
- `Requirements`, `BootDevice`: requirement masks, their expansion, and boot
  device names.
- `DriverTable`, `DriverNumbers`, `Drivers`, `InitOutcomes`, `DriverRuns`,
  `DriverCoverage`, `LoadOrder`, `DriverLoader`, `BootCoverage`, `BlockedLoads`,
  `BootLeftovers`: what the 20 init functions load and in which order, the
  per-module guard variables, the exact effect of a call, whole runs of calls,
  the file system initialisations, and what tests on the way keep from being
  loaded.
- `Unloading`, `Sessions`, `Reloading`: the deinit functions, and staging, init
  and deinit calls in any order.
- `StagedImages`, `Corruption`, `ExecutedImages`, `SmallestImage`: statements
  from end to end.
- `StageTest`: the repository's test program of the staging interface.
- `MountPath`: how the hard disk driver takes its working directory apart.

Functions that only compute have no row below; the rows name the statements
about them.  Methods follow the loops and assignments of the source and are
proved against those functions.  What the functions themselves compute is stated
a second time, independently of how they do it: in plain numbers for the formats
and tables, as a flat list of steps for the staging calls, and in closed form for
the init calls.

Where the code is weaker than its description, the model follows the code:

- The packer tests the unaligned sum against 32 bits, but aligning it can still
  wrap to zero (`tools/ps2_irximg.c:359-365`).  It then reports success for an
  image no reader accepts.  `Fits` is the exact condition under which an image
  can be loaded and validated, and `UnusableIffZero` says how a failure shows.
- The validator subtracts an offset it has not compared with the file size
  (`tools/ps2_irximg.c:558`).  The verdict `PastTheEnd` marks the images for
  which it would go on to read beyond its buffer; the C function has no such
  result.  `PastTheEndExactly` says which images these are.
- After an execution that ended with result 1, or with a negative id other than
  -1, the guard at `include/irx_common_macros.h:27` skips the module and a retry
  reports success (`RetryHidesFailure`, `ReportedOnce`).  `SuccessMeansResident`
  gives the exact condition under which a success can be relied on.
- `docs/EXTERNAL_IRX_IMAGE_PLAN.md:474` expects the staged byte count to fall to
  zero once the drivers are initialised.  As long as no execution fails, it does
  exactly when no staged module stands behind a failing test on all the ways to
  it (`StaysIffBlocked`).  For one pass of the boot initialisation that is so
  exactly when the path is not on the hard disk and, booting from mass storage,
  the MX4SIO driver is supported (`BootLeaves`): from the hard disk its driver is
  brought up without its dependencies and two modules stay staged, and in the
  emulator for which `src/ps2_mx4sio_driver.c:56-57` refuses to load its module
  that one stays (`UnsupportedStays`).  One pass of the all-file-systems
  initialisation empties its staging exactly when the program was started from
  the hard disk, the disk is ready and MX4SIO is supported
  (`AllFilesystemsLeave`).
- `include/ps2_fileXio_driver.h:29` says that the fileXio driver requires
  SIO2MAN; its init function brings up no dependency, and neither does the table.
- `str_split` ends in an assertion (`src/ps2_hdd_driver.c:229`).  Its caller has
  already found a hard disk prefix, and there the assertion fails exactly for a
  working directory with a doubled colon, such as `hdd0::pfs:/`
  (`MountCurrentPartition`, `DoubledExample`).  `Spilled` and `Overrun` mark
  directories whose pieces do not fit the buffers they are printed into, such as
  `hdd0:p:pfspfspfs:/` (`OverrunExample`); the C functions have no such result.

## Model

| member | source | states |
|---|---|---|
| Words.AlignUpIsLeast | tools/ps2_irximg.c:55-58 | Below the last sixteen words `align_up_u32` is the least multiple of 16 at or above its argument |
| Words.AlignUpWraps | tools/ps2_irximg.c:55-58 | For every word: the result is the exact alignment modulo 2^32, it is smaller than the argument exactly for the last fifteen words, and the difference the padding loop uses is always the exact padding |
| Words.ReadOfLe | tools/ps2_irximg.c:60-74 | Reading back a written little-endian word gives the word |
| Words.LeOfRead | src/ps2_drivers_img.c:145-151 | Writing back a read word gives the four bytes |
| Words.LowByteFirst | tools/ps2_irximg.c:60-66 | A known word: its low byte is stored first |
| Words.WriteLe | tools/ps2_irximg.c:60-66 | The four bytes at the place become the word's encoding and nothing else in the buffer changes |
| Crc32.UpdateLoop | tools/ps2_irximg.c:32-48 | The two nested loops compute the CRC update from any running value |
| Crc32.BytesLoop | src/ps2_drivers_img.c:153-169 | The runtime's own copy of the loop computes the packer's CRC |
| Crc32.UpdateComposes | tools/ps2_irximg.c:32-48 | Updating over a and then over b is updating over a followed by b, for every running value |
| Crc32.BitStepsLinear | tools/ps2_irximg.c:41-44 | The bit step, taken any number of times, is linear over exclusive or |
| Crc32.BitStepsInjective | tools/ps2_irximg.c:41-44 | The bit step is one-to-one on 32-bit registers |
| Crc32.AbsorbWord | tools/ps2_irximg.c:37-45 | Absorbing up to 32 bits one at a time is absorbing their value at once and then stepping |
| Crc32.BurstDetected | src/ps2_drivers_img.c:153-169 | Two byte strings of one length that differ only within 32 consecutive bits, wherever they start, have different CRCs |
| Crc32.FourByteBurstDetected | src/ps2_drivers_img.c:153-169 | In particular any change confined to four consecutive bytes changes the CRC |
| Rfc1952.MatchesRfc1952 | tools/ps2_irximg.c:32-48 | The bitwise loop equals the table-driven update_crc of section 8 of RFC 1952, written with that section's own constants, for every buffer and running value |
| Rfc1952.KnownCrc | tools/ps2_irximg.c:32-48 | A known answer: the CRC of the bytes ff ff ff 7f |
| Manifest.LogicalCrc | tools/ps2_irximg.c:121-138 | The four updates per entry leave the CRC of the whole encoded stream |
| Manifest.StreamOfOne | tools/ps2_irximg.c:126-135 | An entry contributes its id in little-endian order and its three fields with a zero byte behind each |
| Manifest.StreamSplits | tools/ps2_irximg.c:126-135 | The stream of two lists one after the other is the two streams one after the other |
| Manifest.StreamInjective | tools/ps2_irximg.c:126-135 | The fingerprinted stream is uniquely decodable: equal streams of proper entries are equal manifests |
| ManifestText.TrimLine | tools/ps2_irximg.c:90-106 | The two trimming loops remove exactly leading blanks and trailing blanks and line ends |
| ManifestText.FourFields | tools/ps2_irximg.c:167-177 | The strtok loop accepts exactly the lines with four tokens and keeps those |
| ManifestText.TakeLine | tools/ps2_irximg.c:163-207 | One line is skipped, refused or added for exactly the stated reasons |
| ManifestText.LoadManifest | tools/ps2_irximg.c:140-225 | The loader returns the specified list with its fingerprint, or fails, for every content, read error or file that cannot be opened |
| ManifestText.LoadedIsValid | tools/ps2_irximg.c:179-223 | Whatever the file holds, a loaded manifest has 1 to 128 entries, distinct non-zero ids and non-empty NUL-free fields that fit |
| ManifestLines.FgetsExactly | tools/ps2_irximg.c:143-154 | A fetch takes exactly up to the next line end, or what is left, or 511 bytes of a longer line |
| ManifestLines.SkippedExactly | tools/ps2_irximg.c:163-165 | A line is skipped if and only if nothing but white space or a comment stands before its first zero byte |
| ManifestLines.FieldsRead | tools/ps2_irximg.c:163-207 | Fields with bars between them make an entry, whatever white space surrounds them, if and only if there are four, the list is not full, the first is a new number other than zero, and the others have at most 127 bytes |
| ManifestLines.NumeralParses | tools/ps2_irximg.c:76-88 | The value of every numeral with its space and sign: digits must fit 64 bits, a minus negates in 64 bits, the result must fit 32 |
| ManifestLines.ParsesNumerals | tools/ps2_irximg.c:76-88 | Nothing but numerals is taken for a number |
| ManifestLines.LineByLine | tools/ps2_irximg.c:154-208 | Loading goes line by line: a line is skipped, ends the loading, or adds its entry behind those before it |
| ManifestLines.Refused | tools/ps2_irximg.c:148-221 | A file that cannot be opened, ends in a read error or holds no entry is refused |
| ManifestPrinting.ParseDecimal | tools/ps2_irximg.c:76-88 | Every 32-bit number printed in decimal parses back, in at most ten digits |
| ManifestPrinting.RowFits | tools/ps2_irximg.c:143-154 | An entry line takes at most 394 bytes, so the 512-byte buffer always suffices |
| ManifestPrinting.PrintThenLoad | tools/ps2_irximg.c:140-225 | Printing any valid manifest that the line format can carry, with comment and blank lines anywhere, and loading it returns the manifest |
| ImageFormat.HeaderRoundTrip | tools/ps2_irximg.c:376-386 | The 44 header bytes read back as the header |
| ImageFormat.EntryRoundTrip | tools/ps2_irximg.c:395-403 | Twenty bytes are an entry's encoding if and only if they read back as the entry |
| ImageFormat.TableRoundTrip | tools/ps2_irximg.c:395-411 | The entry table behind any header reads back entry by entry |
| Layout.CursorWraps | tools/ps2_irximg.c:341-366 | The packer's 32-bit cursor is the exact cursor modulo 2^32, wraps included |
| Layout.ImageLength | tools/ps2_irximg.c:388-434 | Header, table, padding and payloads take exactly as many bytes as the exact cursor says, and modulo 2^32 as the header says |
| Layout.OffsetsFit | tools/ps2_irximg.c:356-365 | While the total fits, recorded offsets are exact, aligned, ordered and separated only by padding |
| Layout.PayloadAt | tools/ps2_irximg.c:413-434 | Then the file is as long as declared, each payload stands at its recorded offset, and every gap is fewer than sixteen zeros |
| Packer.Output.WriteZeros | tools/ps2_irximg.c:278-291 | Chunks of at most 64 zeros add up to the count, or the medium is too small for it |
| Packer.FillHeader | tools/ps2_irximg.c:376-386 | The header buffer filled field by field is the header's encoding |
| Packer.FillEntry | tools/ps2_irximg.c:396-403 | The entry buffer filled field by field is the entry's encoding |
| Packer.LayOut | tools/ps2_irximg.c:343-368 | The layout loop records every payload with size, CRC and offset, and fails for exactly the stated inputs |
| Packer.WriteTable | tools/ps2_irximg.c:395-411 | The table loop appends the table, or the medium is too small |
| Packer.WriteBody | tools/ps2_irximg.c:423-434 | The payload loop appends every payload with its exact padding even when the cursor has wrapped, or the medium is too small |
| Packer.PackImage | tools/ps2_irximg.c:316-445 | The exit status is zero exactly when manifest, payloads, size tests and every write succeed, and then the file is the specified image |
| PackInputs.PayloadExactly | tools/ps2_irximg.c:227-306 | The payload of an entry is the file of its name in the directory, with one slash between unless the directory ends with one, if the path has at most 1023 bytes and the file between 1 and 4294967295 |
| PackInputs.GatherExactly | tools/ps2_irximg.c:343-366 | The layout loop gets through if and only if every entry has its file and no size added to its offset leaves 32 bits, and those files are the payloads |
| PackInputs.InputsExactly | tools/ps2_irximg.c:330-366 | The command gets past its inputs if and only if the manifest loads and that is so |
| PackInputs.PackAndValidate | tools/ps2_irximg.c:593-603 | Run one after the other on a manifest with remarks, a directory that holds its files and a total that fits, both commands succeed and the file is as described |
| ImageParser.CheckHeader | src/ps2_drivers_img.c:333-348 | The header tests in 32-bit arithmetic mean what they say in exact arithmetic: nothing wraps |
| ImageParser.CheckEntry | src/ps2_drivers_img.c:375-381 | The entry tests in 32-bit arithmetic place the payload inside the file in exact arithmetic |
| ImageParser.DecodeEntries | src/ps2_drivers_img.c:365-394 | The loop succeeds exactly for tables of good entries with distinct ids, and then holds the table |
| ImageParser.ParseImageEntries | src/ps2_drivers_img.c:298-400 | Outcome and entries are as specified for every file and every choice of failures; only the entry array stays allocated, and only on success |
| Validator.ValidateImage | tools/ps2_irximg.c:447-581 | For every manifest and image file, opened and read or not, the validator's loop computes the specified verdict |
| Validator.LoopVerdict | tools/ps2_irximg.c:538-577 | From any entry on, the loop accepts if and only if all entries are in order, and leaves the file if and only if an entry escapes after none but sound ones |
| Validator.AcceptedExactly | tools/ps2_irximg.c:473-580 | An image is accepted if and only if its header matches and its entries carry the manifest's ids in order over ascending disjoint aligned ranges inside the payload area with right CRCs |
| Validator.AcceptedParses | tools/ps2_irximg.c:495-577 | An accepted image is accepted by the runtime parser too, with the manifest's ids in its order over ascending disjoint payloads whose CRCs are right |
| Validator.PassesInside | tools/ps2_irximg.c:554-562 | An entry that passes the validator's tests lies inside the file if and only if its offset does |
| Validator.PastTheEndExactly | tools/ps2_irximg.c:538-564 | The validator computes a CRC over bytes outside the file if and only if the header matches and, after entries that are altogether sound, one that is otherwise in order has its offset beyond the end and a size that wraps no further than into the file |
| Validator.PastTheEndNeedsOffset | tools/ps2_irximg.c:554-564 | In particular only for an image with an offset beyond its end |
| Validator.OffsetBeyondFile | tools/ps2_irximg.c:554-564 | An offset beyond the end passes the unguarded subtraction: a concrete image for every entry |
| PackedImages.FrontReads | tools/ps2_irximg.c:376-411 | Header and table of a packed image read back as they were meant |
| PackedImages.PackedValidates | tools/ps2_irximg.c:447-581 | The validator accepts what was packed from the same manifest if and only if the aligned total fits 32 bits |
| PackedImages.PackedParses | src/ps2_drivers_img.c:298-400 | The runtime parser reads back every id, offset, size and CRC, and each range holds the packed payload |
| ByteFormat.AcceptsLoadable | src/ps2_drivers_img.c:317-394 | The runtime parser accepts a file if and only if every byte of header and table is as listed in numbers |
| ByteFormat.ValidatorAccepts | tools/ps2_irximg.c:473-580 | The validator accepts a file if and only if header, manifest fingerprint, table, ranges and CRCs are as listed in numbers |
| ByteFormat.ValidatorLeaves | tools/ps2_irximg.c:538-564 | It leaves the file if and only if an entry listed in numbers starts beyond the end after none but good ones |
| ByteFormat.PackedAgainst | tools/ps2_irximg.c:505-552 | An image packed from one manifest is valid against another if and only if it fits, the ids agree in order and the fingerprints agree |
| ByteFormat.PackedExactly | tools/ps2_irximg.c:338-434 | A file satisfies the description of a packed image byte by byte, with every field, padding and payload in its place, if and only if it is the one the packer writes and the total fits |
| PackedImages.GuardMissesWrap | tools/ps2_irximg.c:359-365 | The packer's size test does not cover the alignment: a payload it lets through with a cursor that wraps to zero |
| PackGuard.UnusableIffZero | tools/ps2_irximg.c:359-368 | Of all inputs the packer's size tests let through, those whose image does not fit are exactly those for which some later offset or the file size comes out as zero |
| PackGuard.SingleModule | tools/ps2_irximg.c:359-365 | With one module the test admits sizes up to 0xffffffbf, and the image fits up to 0xffffffb0 |
| PackGuard.UnusableInputs | tools/ps2_irximg.c:316-368 | For every one-line manifest and payload of one of the fifteen sizes in between the command takes its inputs, and the image is rejected by the validator |
| PackGuard.PackThenValidate | tools/ps2_irximg.c:593-603 | Run one after the other on such inputs, packing exits with success and validating with failure |
| Requirements.ExpandRequirements | src/ps2_drivers_img.c:191-296 | What is left marked is exactly the union of the lists of the drivers in the mask |
| Requirements.ExpandUnion | src/ps2_drivers_img.c:191-296 | Requirements combine by union: expand(a or b) is expand(a) together with expand(b) |
| Requirements.ExpandNonEmpty | src/ps2_drivers_img.c:457-463 | Every non-zero mask of known bits asks for at least one module |
| BootDevice.AtMostOne | src/ps2_boot_device.c:82-116 | No path matches two device prefixes |
| BootDevice.FoundIffStarts | src/ps2_boot_device.c:82-116 | The device found is the one whose prefix matches, whatever the order of the tests |
| BootDevice.RootRoundTrip | src/ps2_boot_device.c:44-80 | Every device is recognised in its own root path |
| BootDevice.RootPathListed | src/ps2_boot_device.c:44-80 | The root path of every device, letter by letter |
| Stager.FindEntryIn | src/ps2_drivers_img.c:402-415 | The search returns the first entry with the id |
| Stager.FreeStagedArray | src/ps2_drivers_img.c:417-430 | Frees every buffer of the array and the array, each once, and nothing else |
| Stager.LoadPayload | src/ps2_drivers_img.c:502-525 | One payload is loaded and checked, or its failure is reported with nothing left allocated |
| Stager.FillStaged | src/ps2_drivers_img.c:495-532 | The loading loop gives the specified slots, or the first failure with only the buffers filled so far allocated |
| Stager.Stager.StageFromPath | src/ps2_drivers_img.c:432-548 | Answer and globals as specified on every path through the function; on failure globals and heap are unchanged, and the file is closed on every exit |
| Stager.Stager.Stage | src/ps2_drivers_img.c:550-581 | Refines the specified transition; live blocks remain exactly array, filled buffers and remembered path, and a failure changes neither globals nor heap |
| Stager.Stager.Restage | src/ps2_drivers_img.c:686-702 | Refines the specified transition with the same conservation and failure atomicity |
| Stager.Stager.RestageLast | src/ps2_drivers_img.c:704-710 | Refines the specified transition with the same conservation and failure atomicity |
| Stager.Stager.Discard | src/ps2_drivers_img.c:712-719 | Frees exactly array and buffers and resets the four staging globals |
| Stager.Stager.Forget | src/ps2_drivers_img.c:721-726 | Frees exactly the remembered path and resets the two source globals |
| Stager.Stager.GetStaged | src/ps2_drivers_img.c:738-754 | Returns the buffer of the first slot that still holds the module, with its exact size, or null exactly when there is none |
| Stager.Stager.Release | src/ps2_drivers_img.c:756-783 | Frees exactly the module's buffer, and the array with the last of them |
| StagingInvariant.StageKeepsInv | src/ps2_drivers_img.c:550-581 | Staging keeps the invariant of counters, sizes, ids and source, whatever fails |
| StagingInvariant.RestageKeepsInv | src/ps2_drivers_img.c:686-702 | So does restaging |
| StagingInvariant.ReleaseKeepsInv | src/ps2_drivers_img.c:756-783 | So does releasing |
| StagingInvariant.ClampsIdle | src/ps2_drivers_img.c:765-772 | In a consistent state the clamped subtractions never take their fallback |
| StagingInvariant.SomethingWanted | src/ps2_drivers_img.c:457-463 | The test for an empty request never fires after the mask test |
| StagingOutcomes.FetchOutcome | src/ps2_drivers_img.c:465-548 | Fetching reports the first failing step of the source's order, and else has filled one slot per requested id in ascending order with the bytes its row points at |
| StagingOutcomes.StageOutcome | src/ps2_drivers_img.c:550-581 | So does staging, whose success leaves exactly those slots, their number and bytes, the path and the mask; any failure leaves the state as it was |
| StagingOutcomes.RestageOutcome | src/ps2_drivers_img.c:686-702 | So does restaging with any mask, from the remembered path |
| StagingOutcomes.RestageLastOutcome | src/ps2_drivers_img.c:704-710 | So does restaging the last request |
| StagingRuns.InvEverywhere | src/ps2_drivers_img.c:33-38 | Every reachable state: count is the number of filled slots, bytes their sum, ids ascend, array and path exist exactly when they should |
| StagingRuns.FailureAtomic | src/ps2_drivers_img.c:447-580 | A call that reports an error has changed none of the six globals |
| StagingRuns.RememberedPath | src/ps2_drivers_img.c:577-578 | In every run the remembered path is that of the last successful stage no forget has followed |
| StagingRuns.RememberedMask | src/ps2_drivers_img.c:698-700 | In every run the remembered mask is that of the last successful stage or restage no forget has followed |
| StagingRuns.RestageReproduces | src/ps2_drivers_img.c:704-710 | With an unchanged image and nothing staged, restaging the last request restores exactly the state the last success left |
| StagingHistory.StockOfRun | src/ps2_drivers_img.c:712-783 | After any run a module is staged if and only if some event has staged it and none since has staged anew, discarded or released it, and it holds the bytes that event loaded |
| StagingHistory.EveryState | src/ps2_drivers_img.c:33-38 | The invariant of every reachable state spelled out field by field |
| StagingRuns.Perform | src/ps2_drivers_img.c:550-783 | One call of any kind in place is the specified step |
| StagingRuns.Follow | src/ps2_drivers_img.c:550-783 | The interface in place follows every run from its start with its heap conserved throughout |
| StagedImages.PackThenStage | src/ps2_drivers_img.c:432-581 | Staging from a packed image holds, for each requested module, byte for byte the packed payload |
| StagedImages.RestageFetched | src/ps2_drivers_img.c:686-702 | With nothing staged, restaging any acceptable mask does what fetching it from the remembered path does |
| StagedImages.PackThenRestage | src/ps2_drivers_img.c:686-702 | Restaging from a packed image holds each requested module byte for byte, whatever mask was asked for before |
| StagedImages.PackThenStageMissing | src/ps2_drivers_img.c:502-506 | A requested module that is not in the manifest is reported missing |
| StagedImages.LoadableIffFits | tools/ps2_irximg.c:359-365 | A packed image is refused as malformed if and only if its aligned total does not fit 32 bits |
| TableOrder.FindPermuted | src/ps2_drivers_img.c:402-415 | Searching gives the same entry in any order of the table |
| TableOrder.OrderIrrelevant | src/ps2_drivers_img.c:432-548 | Reordering the entry table changes the answer to no request under no choice of failures |
| Corruption.DamageShows | src/ps2_drivers_img.c:521-525 | Damage within 32 consecutive bits of a payload changes that payload's CRC and nothing outside it |
| Corruption.FourBytesDamage | src/ps2_drivers_img.c:521-525 | A change confined to four consecutive bytes is such damage |
| Corruption.OthersUnaffected | src/ps2_drivers_img.c:495-532 | Every request without the damaged module is answered as from the original, whatever else fails |
| Corruption.DamageNeverStages | src/ps2_drivers_img.c:521-525 | No request with the damaged module succeeds |
| Corruption.DamageReported | src/ps2_drivers_img.c:521-548 | If nothing else fails such a request reports the CRC error and leaves all six globals unchanged |
| SmallestImage.StagedWholeAndDamaged | src/ps2_drivers_img.c:521-547 | A concrete packed image stages, and with one bit of its payload changed is refused with the CRC error |
| StageTest.CheckBootHelpers | tools/ps2_irximg_stage_test.c:31-110 | The test program's part on boot paths and masks finds no mismatch |
| StageTest.ConsumeAll | tools/ps2_irximg_stage_test.c:23-29 | Releasing the ids 1 to 128 leaves nothing staged, whatever was, and keeps the source |
| StageTest.RunCase | tools/ps2_irximg_stage_test.c:241-297 | For any mask: stage, three refusals, release, restage with the same number and bytes, discard |
| StageTest.CheckConvenience | tools/ps2_irximg_stage_test.c:112-190 | The part on the convenience calls finds no mismatch |
| StageTest.Test | tools/ps2_irximg_stage_test.c:192-326 | The repository's test program ends with status 0 on every packed image that holds the 27 modules |
| DriverTable.TablesAgree | src/ps2_drivers_img.c:191-296 | For each of the 20 drivers the modules its init function reaches with its dependencies are exactly those the requirement table lists |
| DriverTable.ProgramLoads | src/ps2_hdd_driver.c:74-141 | A call reaches its own modules, and those of its dependencies exactly if it brings them up |
| DriverTable.StepsDiffer | src/ps2_joystick_driver.c:40-67 | No two steps of a driver's own list fail with the same status |
| DriverNumbers.ProgramListed | include/ps2_hdd_driver.h:22-31 | The acts of every init call, with and without its dependencies, in module ids and header statuses |
| DriverNumbers.BitsInNumbers | src/ps2_drivers_img.c:191-296 | The modules each of the twenty requirement bits expands to, in numbers |
| DriverNumbers.BootMasksInNumbers | src/ps2_drivers_img.c:70-108 | The mask of every boot device, in numbers |
| Drivers.ProgramErrs | include/irx_common_macros.h:27-30 | Every failure of every init function is a negative status |
| InitOutcomes.InitExactly | src/ps2_hdd_driver.c:74-142 | The exact effect of every init call in every consistent state: status, modules asked for in order, and every variable and staged module afterwards |
| InitOutcomes.InitSucceeds | include/irx_common_macros.h:27-30 | An init call succeeds if and only if none of its tests fails and every module still to be tried is staged and yields an id that is not negative and a result other than 1 |
| InitOutcomes.SuccessMeansStarted | include/irx_common_macros.h:30 | After a success every module tried in the call has such an id and result |
| InitOutcomes.ExecExactly | src/ps2_irx_module_image.c:7-26 | One execution in any state: a staged module leaves what the system answers and is gone, one that is not staged sets the id to -1 and leaves the result alone |
| DriverLoader.Loader.Exec | src/ps2_irx_module_image.c:7-26 | Looks up, executes and always releases a staged module, or reports a miss with the result variable untouched |
| DriverLoader.Loader.RunOwn | src/ps2_hdd_driver.c:74-109 | A driver's own list step by step is the specified run of its acts |
| DriverLoader.Loader.Init | src/ps2_hdd_driver.c:111-142 | An init function calling its dependencies' init functions is the flat program, statuses included |
| DriverLoader.Follow | src/ps2_irx_module_image.c:7-26 | A run of init calls in place is the specified run, with the staging heap conserved |
| DriverRuns.LoadOnce | include/irx_common_macros.h:27-30 | In every run each module is executed at most once, on its staged bytes, and missed only if never staged or if it ran and left (-1, -1) |
| DriverCoverage.OnlyRetriesMiss | src/ps2_irx_module_image.c:19-20 | While the calls stay within the staged mask, only a module that ran and left (-1, -1) is ever missed |
| DriverCoverage.OnlyRetriesMissByDriver | src/ps2_irx_module_image.c:19-20 | So it is while only drivers of the mask are called, with or without their dependencies |
| DriverCoverage.EmptyIffAllRan | src/ps2_drivers_img.c:777-782 | After a successful stage nothing is left staged if and only if every module of the mask has been executed |
| DriverCoverage.AllConsumed | src/ps2_drivers_img.c:777-782 | Once every module of the mask has been on the list of some successful call, nothing is left staged |
| DriverCoverage.AllDriversConsumed | src/ps2_drivers_img.c:191-296 | In particular once every driver of the mask has succeeded, with its dependencies if it has any |
| DriverRuns.SettledForever | include/irx_common_macros.h:27 | Variables that have left (-1, -1) are never changed by an init call again |
| DriverRuns.RepeatIsIdle | include/irx_common_macros.h:27 | After a success, calling the init function again executes and changes nothing |
| DriverRuns.SuccessMeansResident | include/irx_common_macros.h:27-30 | A success means all modules are resident if and only if none was stuck from an earlier failed execution |
| DriverCoverage.RetryHidesFailure | include/irx_common_macros.h:27-30 | For every driver: a retry that meets no new failure reports success although a module stuck from an earlier execution is not resident |
| DriverCoverage.ReportedOnce | src/ps2_cdfs_driver.c:33-47 | After every staging that holds the CD driver's module and every outcome that leaves it stuck, the first call of init_cdfs_driver reports the failure and every later one reports success |
| DriverCoverage.TurnsSmooth | include/irx_common_macros.h:27-30 | When no test fails and every module starts in good order, every call of a run succeeds |
| LoadOrder.SmoothOrder | src/ps2_irx_module_image.c:7-26 | A run without mishaps executes the modules in the order in which its calls list them, each where it comes first |
| DriverRuns.StatusNamesStep | src/ps2_hdd_driver.c:86-107 | A status that belongs to a driver's own step is reported only when that very step failed |
| BootCoverage.BootMaskExact | src/ps2_drivers_img.c:70-107 | For every boot device the mask expands to exactly what the boot initialisation loads, plus the two block device modules when booting from the hard disk |
| BootCoverage.BootCovered | src/ps2_drivers_img.c:109-124 | The mask for a path covers booting from it, whatever is asked for besides |
| BootCoverage.AllMaskExact | src/ps2_filesystem_driver.c:117-127 | The all-file-systems mask expands to exactly what bringing up all file systems loads |
| BootCoverage.OnHddIsFromHdd | src/ps2_hdd_driver.c:45-54 | The hard disk driver's test of the working directory agrees with the boot device resolver |
| DriverNumbers.AllFilesystemsOrder | src/ps2_filesystem_driver.c:117-127 | Bringing up all file systems without mishap executes sixteen modules in a stated order and asks for none in vain |
| DriverNumbers.BootOrder | src/ps2_filesystem_driver.c:151-188 | Which modules booting from each device loads, in order |
| BootCoverage.BootMissesNothing | src/ps2_filesystem_driver.c:143-188 | Booting over a staged image asks in vain only for a module that ran and left (-1, -1) |
| BootCoverage.BootMaskTaken | src/ps2_drivers_img.c:109-124 | The mask computed for a path is always one that staging takes |
| BootCoverage.EmptiedIffCovered | src/ps2_drivers_img.c:777-782 | Once each of a list of calls has succeeded and no other was made, nothing is left staged if and only if the calls load all that was staged |
| BootCoverage.BootEmpties | src/ps2_filesystem_driver.c:143-188 | Once every boot call has succeeded over a staging by the path's mask, nothing is left if and only if the path is not on the hard disk and nothing was staged besides that the calls do not load |
| BootCoverage.PlainBootEmpties | src/ps2_filesystem_driver.c:143-188 | With nothing staged besides: if and only if the path is not on the hard disk |
| BootCoverage.SmoothCallsSucceed | src/ps2_filesystem_driver.c:117-188 | Over a staging that covers them, calls made once in order without mishaps all succeed |
| BootCoverage.SmoothBootEmpties | src/ps2_filesystem_driver.c:143-188 | A boot in which neither a test nor an execution fails leaves nothing staged if and only if it is not from the hard disk; for failing tests see `BootLeftovers.BootLeaves` |
| BootCoverage.AllFilesystemsEmpty | src/ps2_filesystem_driver.c:117-127 | Once every call of the all-file-systems initialisation has succeeded over a staging by its mask, nothing is left staged; what stays when tests fail is the subject of `BootLeftovers.AllFilesystemsLeave` |
| BootCoverage.ElsewhereKeepsHddStaged | src/ps2_filesystem_driver.c:127 | In a program not started from the hard disk that initialisation leaves the hard disk driver's three modules staged, however its calls go |
| BootCoverage.HddBootLeavesStaged | src/ps2_filesystem_driver.c:171-181 | Booting from the hard disk leaves the two block device modules staged, however its calls go |
| BlockedLoads.ProgramUnblocked | src/ps2_mx4sio_driver.c:54-79 | For each of the 20 drivers, either flag and any failing tests: exactly which modules a call gets to |
| BlockedLoads.BlockedStays | src/ps2_drivers_img.c:777-782 | After a successful stage, any calls and whatever the system answers: a module of the mask that no call gets to stays staged |
| BlockedLoads.StaysIffBlocked | src/ps2_drivers_img.c:777-782 | If moreover no execution of a staged module fails, exactly those stay, so the staging area is emptied if and only if the calls get to all of the mask: a condition on the calls and the failing tests alone |
| BootLeftovers.PassLeaves | src/ps2_filesystem_driver.c:117-188 | One pass of plain calls leaves exactly what no call loads and what stands behind a failing test |
| BootLeftovers.AllFilesystemsLeave | src/ps2_filesystem_driver.c:117-127 | One pass of the all-file-systems initialisation, whichever tests fail: exactly which modules stay; none if and only if the program was started from the hard disk, the disk is ready and MX4SIO is supported |
| BootLeftovers.BootLeaves | src/ps2_filesystem_driver.c:143-188 | One pass of the boot initialisation, whichever tests fail: exactly which modules stay; none if and only if the path is not on the hard disk and, where MX4SIO is brought up, it is supported |
| BootLeftovers.UnsupportedStays | src/ps2_mx4sio_driver.c:54-66 | While the pipeline test fails a staged MX4SIO module stays staged, whatever is called and however it goes |
| ExecutedImages.PackThenExecute | src/ps2_irx_module_image.c:16-25 | From packer to execution: every module is executed at most once and on exactly the bytes packed for it |
| Unloading.DropsReversed | src/ps2_hdd_driver.c:167-176 | The dependencies are taken down in the reverse order of their bringing up |
| Unloading.UnloadsAreLoads | src/ps2_joystick_driver.c:89-110 | For every driver and flag a deinit call tries to unload exactly what the init call loads |
| Unloading.UnloadAllIs | include/irx_common_macros.h:34 | Unloading resets the variables of exactly the loaded and removable modules on the list and touches nothing else |
| DriverNumbers.DeinitInNumbers | include/irx_common_macros.h:16-34 | A deinit call sets to -1 the variables of exactly those modules of its init call that have an id which is not negative and result 0 or 2 |
| DriverNumbers.OwnUnloadOrder | src/ps2_hdd_driver.c:147-165 | The order in which each driver unloads its own modules |
| DriverNumbers.UnloadOrder | src/ps2_hdd_driver.c:167-176 | The order in which each driver then unloads its dependencies' modules |
| Unloading.SharedGoes | src/ps2_joystick_driver.c:103-110 | A removable dependency goes even if another driver needs it too: nothing counts its users |
| DriverLoader.Loader.Deinit | src/ps2_hdd_driver.c:147-176 | The deinit functions in place |
| Sessions.ExecutedAgain | include/irx_common_macros.h:27-34 | In every session of staging, init and deinit calls in any order, a module is executed again only if the earlier execution left (-1, -1) or a deinit call has unloaded it in between, and a staging call has succeeded in between |
| Sessions.StuckForever | include/irx_common_macros.h:27-34 | Once an execution has left a module stuck, no such session executes it, asks for it or changes its variables again |
| Reloading.ReinitReloads | samples/irximg_sample/irximg_sample.c:73-99 | Deinit, a successful staging of a mask that covers the driver and an init without mishap execute every module anew from its fresh copy, and leave nothing if nothing else was staged |
| Sessions.ExecutedOnHeld | src/ps2_irx_module_image.c:19-25 | Every execution of such a session is on the bytes the last successful staging call before it holds for the module |
| Sessions.Follow | src/ps2_irx_module_image.c:16-25 | The session in place follows its specification with the heap conserved throughout |
| Strtok.TokensOfJoin | tools/ps2_irximg.c:167-171 | Joining non-empty delimiter-free pieces and tokenising gives the pieces back |
| Strtok.JoinOfTokens | src/ps2_hdd_driver.c:221-228 | Joining the tokens of a clean string gives the string back up to one trailing delimiter |
| MountPath.CountPieces | src/ps2_hdd_driver.c:202-212 | The counting pass computes the announced number of pieces |
| MountPath.CountAgainstTokens | src/ps2_hdd_driver.c:202-229 | The announced number is never too small, and right if and only if the string is non-empty without leading or adjacent delimiters |
| MountPath.StrSplit | src/ps2_hdd_driver.c:193-234 | Gives the null-terminated tokens, with nulls for those whose copy fails, or fails its final check exactly for the strings that are not clean |
| MountPath.GetMountInfo | src/ps2_hdd_driver.c:245-277 | Mount string, mount point and new working directory are built from the tokens up to the first null, refused below three of them, and marked when one does not fit its buffer |
| MountPath.FourMount | src/ps2_hdd_driver.c:245-277 | A path of four pieces mounts the first two at the third and moves to the third and fourth |
| MountPath.DocumentedExample | src/ps2_hdd_driver.c:239-243 | The example of the source's comment comes out as it says |
| MountPath.HddClean | src/ps2_hdd_driver.c:46-51 | For a directory on the hard disk the split goes wrong if and only if a colon is doubled |
| MountPath.MountCurrentPartition | src/ps2_hdd_driver.c:279-305 | Every result of the caller: the failing check ends the program if and only if the driver is ready, the directory is on the hard disk, the table is allocated and a colon is doubled; a buffer is too small if and only if it gets as far and the third piece or the first two are too long |
| MountPath.NewCwdFits | src/ps2_hdd_driver.c:265-267 | The new working directory is never longer than the path it is taken from |
| MountPath.MountRejoins | src/ps2_hdd_driver.c:265-267 | Mount point, colon and new directory spell the path again if and only if it has four pieces and no final colon, or three and a final colon |

## Left out

- Calls into the I/O processor, library initialisations, the test for the floating point pipeline and `getcwd` appear only as outcomes the environment chooses (`World`, `Env`).
- The files on disk are maps from paths to contents, and `ftell` is taken to return the true length; hosts whose `long` is too short for a large file are not modelled.
- `strtoul` is taken with a 64-bit `unsigned long`; where it has 32 bits, more numbers are refused.
- The host tool's own allocations are taken to succeed and are not tracked, and neither are its messages, `main` and the listing that `inspect` prints.
- Heap blocks are tracked for the staging interface only; the token table of `str_split`, which the source never frees, is not.
- `expand_requirements` and the `loadIRXs` functions spell out one block of statements per driver and module; here these are the rows of the tables `Marks`, `Own` and `Needs`, taken in the source's order by one loop each.
- The global status variable of each driver; the value the init function returns is modelled.
- Null result pointers of `ps2_drivers_img_get_staged` and of the requirement functions.
- Of the deinit functions, the library shutdowns, the wait for the expansion bay to switch off, the result of unloading and the file system wrappers around them; `__internal_deinit_ps2_filesystem_driver` in `src/ps2_filesystem_driver.c:27-38` calls an init function in a deinit path and is not modelled.
- Network configuration of the two IP drivers and the waiting loops: straight-line polling of foreign calls.
- The convenience wrappers `ps2_drivers_img_stage_for_*` and `ps2_drivers_img_stage_default*`, which appear in `StageTest` as the calls they make, the error strings and the embedded flavour of `ps2_irx_exec`.
- In `StagingRuns` an execution appears as the release it ends with; `DriverRuns` and `Sessions` have the executions themselves.

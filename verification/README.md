# Pre-EFI boot code of the ARC platform: a verified model

The platform boots from a firmware volume: a header, then firmware files at
multiples of 8, each a list of sections at multiples of 4. The SEC and PEI code
walks that volume over raw memory to find images, keeps a database of PPIs
(interfaces that modules publish for each other), takes spin locks between CPUs,
and talks over a 16550 UART. This project models those four parts and the GUID
printer, and proves what each is for.

## How it is modelled

- **Memory** (`Memory.dfy`, `Words.dfy`). One sequence of 2^32 bytes. A pointer is
  a number modulo 2^32, an `EFI_PHYSICAL_ADDRESS` one modulo 2^64; both wrap where
  the code lets them. `AlignAddr` is the bitwise mask of the code, and is proved to
  round up.
- **Volume walkers** (`Volume.dfy`, `Loops.dfy`, `VolumeLaws.dfy`, `VolumeMoves.dfy`,
  `Layout.dfy`). Each loop is a method proved against a function that advances at
  most `fuel` times. What a walk answers is defined where the walk stops; the methods
  require only that it stops, and when it does is itself a theorem. `VolumeMoves`
  says what moves with a volume, and what that takes. `Layout` holds volumes as
  values, prints them, and proves that the byte-level walk refines a first-match
  search on values.
- **PPI database** (`Ppi.dfy`, `PpiLaws.dfy`, `PpiValues.dfy`). A class with an array pool and one byte
  array of memory, in which the descriptors, interfaces, GUIDs and the boot volume
  that `CalcPeimFixup` searches lie, so that a fixup can overwrite anything.
  `PpiLaws` tells an install from memory as it is before the call; `PpiValues` tells
  install, lookup and dispatch from descriptors and GUIDs as values, printed in memory.
- **Spin lock** (`SpinLock.dfy`). A step relation over any number of CPUs: the plain
  read, the compare-exchange and the plain store of the lock are separate steps, and
  so are the read and the store of a shared counter that the section increments.
- **Timed acquire** (`TimedAcquire.dfy`). The loop of `AcquireSpinLock` over what
  its attempts and its counter reads yield, in wrapping 64-bit arithmetic, signed
  and unsigned as the code has it.
- **UART** (`Uart.dfy`, `SerialPort.dfy`). A device with registers, divisor latch
  aliasing, transmit FIFO, shift register, line, receive FIFO, modem status and a
  peer, told by its own offsets and bits and not by the driver's names for them. It may
  make any number of moves at every register access. What keeps the
  driver's polling loops going to an end is stated as two counters of the device:
  nothing may stand still longer than `patience`, and modem status may refuse at
  most `reluctance` times in a row; both are refilled with arbitrary numbers.
- **Witnesses** (`Witnesses.dfy`). Concrete memories on which the code does not do what
  it is meant to.
- **GUIDs** (`Guids.dfy`). The structure, its image in memory, the comparison, the
  text form of section 3 of RFC 4122, and a reader of that form.

## Where the code does not do what it says

Each of these is a theorem: the condition under which the code does meet the
property, or an input on which it does not.

- `PeiFfsFindNextFile` continues from a variable that was never set
  (`PeiServices.c:240`). `Volume.PeiFfsFindNextFile` takes its content as the
  parameter `unset`; `VolumeLaws.UnsetStartsRight` says exactly when the walk starts
  where it is meant to, `VolumeLaws.UnsetMissesFiles` gives a family of contents that
  lose every further file. The theorems about enumeration are about a walk that
  continues from the handle's own address, as it is meant to.
- A file of size zero stops the file loop from making progress
  (`UtilsLib.c:218, 238`): `VolumeLaws.FileWalkStopsIffNotStuck` has the exact
  condition, `Witnesses.StuckVolume` a volume from which `GetFileSection` never
  returns. Sections cannot do that, except with an end next to 2^64:
  `VolumeLaws.SectionWalkTerminates`, `Witnesses.EndlessSections`.
- A file whose header reaches the top of the address space makes the section search
  start at address 0: `VolumeLaws.Containment` has the exact condition,
  `Witnesses.ContainmentNeedsRoom` a volume that is left, and `Layout.TopFileReadsZero`
  what a printed volume then answers.
- The file loops read a header that starts in the volume and ends behind it, so the
  answer can depend on what lies behind the volume:
  `VolumeMoves.AnswerIsTheVolumesIff` has the exact condition,
  `Witnesses.CutHeader` a volume that is called corrupt or not by the bytes behind
  it. A TE header across the end does the same to the entry point:
  `VolumeMoves.TeEntryNeedsHeader`. A header that ends at the top of the address
  space makes every section depend on the bytes at address 0:
  `VolumeMoves.TopHitDepends`, `Witnesses.MoveNeedsRoom`.
- The two walkers disagree where the first file of a type lies outside the 32-bit
  address space: the service's handle is cut to 32 bits before its end is
  computed, and may be NULL. `VolumeLaws.NullHandleDisagrees`,
  `Witnesses.WalkersDiffer`; a NULL handle also restarts an enumeration,
  `Witnesses.EnumerationRestarts`. What the services find there is nevertheless right:
  `VolumeLaws.ServiceFindsSame`.
- `FindSection` advances by the size of a section without aligning again
  (`UtilsLib.c:187`), so it comes to the sections that the layout of section 3.2.4 of
  UEFI PI 1.8, Volume III, puts there exactly when no gap is needed between them:
  `Layout.VisitsLayoutIffPacked`, `Layout.GapReadsAsCorrupt`.
- `FixupPpi` shifts the entry of an interface once for every position-independent
  descriptor that names it: `PpiLaws.EntryShiftedOnceIff` says exactly when that is
  once, `Witnesses.SharedShiftedTwice` is a list of two descriptors with one interface.
- A rejected list is taken out of the database, but its descriptors may stay shifted
  in memory: `PpiLaws.RejectedListUnchangedIff` has the exact condition. A second
  attempt shifts them again: `PpiLaws.RejectedAgain`, and on a concrete list
  `Witnesses.RejectedOnce` and `Witnesses.RejectedTwice`.
- The assertions of the spin lock do not notice a release by a CPU that does not hold
  it: `SpinLock.RogueBreaks`; and nothing else breaks the exclusion:
  `SpinLock.BrokenOnlyByRogue`.
- The timeout measures true time only for counter periods below 2^63, or for shorter
  waits without a roll-over: `TimedAcquire.DeltaIsElapsedIff`. The product
  of frequency and timeout wraps at 2^64, and the assertion then fails too early:
  `TimedAcquire.TimeoutIsExactIff`, `TimedAcquire.TimeoutWraps`.
- `SerialPortInitialize` returns the register base on success, where its comment
  promises `RETURN_SUCCESS` (0), which `SecMain.c:56` relies on. The FIFO control bit
  that it calls a transmitter reset is bit 3 (`Ns16550.c:33`); the device resets its
  transmit FIFO for bit 2, so the value written, 0x0b, does not:
  `SerialPort.KeepsTransmitter`, `SerialPort.SetRegisters`. With bit 7 of the configured line control set
  the divisor latch stays accessible, data written later ends in it and data read
  later comes from it; the contracts of `SerialPortInitialize`, `SerialPortWrite` and
  `SerialPortRead` cover both cases.
- The comment on `SerialPortWaitWritable` (`Ns16550.c:147-157`) gives its second table
  for every configuration other than flow control with cable detection. The code
  reads no modem status at all without hardware flow control, as the contracts of
  `SerialPortWaitWritable` and `SerialPortWrite` say; the second table holds for flow
  control without cable detection.

## Model

| member | source | states |
|---|---|---|
| Memory.AlignAddrIsLeastMultiple | Platform/ARC/Include/Library/UtilsLib.h:148-155 | For every power of two below 256 the mask yields the least multiple not below the address, and 0 exactly when that multiple needs a 65th bit |
| Memory.AlignAddrRoundsUp | Platform/ARC/Include/Library/UtilsLib.h:148-155 | The bitwise form and the arithmetic rounding agree on all 64-bit addresses |
| Guids.CompareGuidsIsEquality | Platform/ARC/Library/UtilsLib/UtilsLib.c:137-144 | Comparing two 64-bit halves is equality of all fields |
| Guids.GuidAtImage | Platform/ARC/Library/UtilsLib/UtilsLib.c:137-144 | Comparing with a GUID stored in memory is comparing with the GUID whose image lies there |
| Guids.ByteToAscii | Platform/ARC/Library/UtilsLib/UtilsLib.c:18-43 | Writes the two digits of a byte, high digit first, and no other cell |
| Guids.GuidToAsciiStr | Platform/ARC/Library/UtilsLib/UtilsLib.c:61-93 | Fills all 37 cells with the 8-4-4-4-12 text and a terminator |
| Guids.ParseText | Platform/ARC/Library/UtilsLib/UtilsLib.c:69-92 | A reader of the text form recovers every GUID from what is printed |
| Guids.SameTextIffEqual | Platform/ARC/Library/UtilsLib/UtilsLib.c:69-144 | Two GUIDs print alike if and only if CompareGuids calls them equal |
| Volume.FindSection | Platform/ARC/Library/UtilsLib/UtilsLib.c:154-192 | The section loop ends with the answer of the section walk: first section of the type, NOT_FOUND, or VOLUME_CORRUPTED for a size below 4 or past the end |
| Volume.GetFileSection | Platform/ARC/Library/UtilsLib/UtilsLib.c:194-243 | The file loop ends at the first file of the type and optional name, and answers what the section search in that file answers |
| Volume.GetTeEntryPoint | Platform/ARC/Library/UtilsLib/UtilsLib.c:245-266 | The entry point of the TE image in the section found, in 32-bit pointer arithmetic; NULL and the status otherwise |
| VolumeLaws.TeEntryIsEntry | Platform/ARC/Library/UtilsLib/UtilsLib.c:256-264 | For a PE image of which n bytes are stripped behind a TE header that gives n and the entry point e: the address returned is that of the image's byte e |
| Volume.GetAprioriFile | Platform/ARC/Library/UtilsLib/UtilsLib.c:268-289 | The body of the raw section of the file with the a priori name |
| VolumeLaws.AprioriName | Platform/ARC/Library/UtilsLib/UtilsLib.c:275-280 | The name looked for is 1b45cc0a-156a-428a-af62-49864da0e6e6 |
| VolumeLaws.AprioriIsRawBody | Platform/ARC/Library/UtilsLib/UtilsLib.c:282-288 | The answer lies 4 bytes behind the first section of type 0x19 of the first file of type 0x02 with that name |
| Volume.PeiFfsFindNextFile | Platform/ARC/Library/PeiCore/PeiServices.c:212-263 | The next file of the type from where the code continues, for every content of the unset variable; the handle is kept on failure |
| VolumeLaws.FindNextIsFirstMatch | Platform/ARC/Library/PeiCore/PeiServices.c:228-262 | On arbitrary bytes the answer is, both ways, the verdict on the first file that the walk comes to and does not pass over; the handle is kept unless one is found, and a NULL volume is refused |
| Volume.PeiFfsFindSectionData | Platform/ARC/Library/PeiCore/PeiServices.c:265-292 | The section search in the file of the handle; INVALID_PARAMETER for NULL |
| VolumeLaws.FindSectionIsFirstMatch | Platform/ARC/Library/UtilsLib/UtilsLib.c:154-192 | On arbitrary bytes the answer of FindSection is, both ways, the verdict on the first address that is behind the end (NOT_FOUND), holds a section too short or too long (VOLUME_CORRUPTED), or one of the type (SUCCESS and its address) |
| VolumeLaws.FileLoopIsFirstMatch | Platform/ARC/Library/UtilsLib/UtilsLib.c:216-242 | The same for the file loop, which realigns after each file |
| VolumeLaws.SectionWalkTerminates | Platform/ARC/Library/UtilsLib/UtilsLib.c:166-188 | The section loop stops if and only if it comes to no address twice; with an end that leaves 2^24 below 2^64 it stops on all bytes, within (end - start) / 4 + 1 advances |
| VolumeLaws.FileWalkStopsIffNotStuck | Platform/ARC/Library/UtilsLib/UtilsLib.c:216-239 | The file loop stops if and only if it comes to no address twice; with an end that leaves 2^24 below 2^64, if and only if it comes to no file of size zero that it passes over, and then within (end - start) / 8 + 1 files |
| VolumeLaws.VolumeWalkStopsIffNotStuck | Platform/ARC/Library/UtilsLib/UtilsLib.c:212-242 | The same conditions decide whether GetFileSection returns, on every volume |
| Witnesses.StuckVolume | Platform/ARC/Library/UtilsLib/UtilsLib.c:216-239 | A volume of 96 bytes with a file of size zero from which GetFileSection never returns |
| Witnesses.EndlessSections | Platform/ARC/Library/UtilsLib/UtilsLib.c:166-188 | Sections of size 4 all around the address space and the end 2^64 - 1: the section loop never stops |
| VolumeLaws.Containment | Platform/ARC/Library/UtilsLib/UtilsLib.c:172-235 | Whatever the headers say: a section returned belongs to a selected file; the file lies inside the volume if and only if it does not pass 2^64; if its header ends below 2^32, header and body of the section lie inside its body, and for a file that ends by 2^32 only if |
| VolumeLaws.FittingContainment | Platform/ARC/Library/UtilsLib/UtilsLib.c:172-235 | For a volume in the address space: section inside the file's body if and only if the file's header ends below the top |
| Witnesses.ContainmentNeedsRoom | Platform/ARC/Library/UtilsLib/UtilsLib.c:235 | A volume at the top of the address space whose walk returns a section at address 4 |
| VolumeLaws.WalkersAgree | Platform/ARC/Library/PeiCore/PeiServices.c:232-291 | On arbitrary bytes, if the first file of the type (if any) lies in the 32-bit address space, as it does in every volume that does, GetFileSection without a name and PeiFfsFindNextFile from NULL followed by PeiFfsFindSectionData return on the same volumes, with the same status and section |
| VolumeLaws.NullHandleDisagrees | Platform/ARC/Library/PeiCore/PeiServices.c:254-280 | If that file lies at a multiple of 2^32 the handle is NULL and the answers always differ |
| VolumeLaws.ServiceFindsSame | Platform/ARC/Library/PeiCore/PeiServices.c:254-291 | On arbitrary bytes, wherever that file lies, a section that the services find is the one that GetFileSection finds, unless the file passes 2^64 |
| Witnesses.WalkersDiffer | Platform/ARC/Library/PeiCore/PeiServices.c:254-280 | A volume across the top of the address space: GetFileSection finds a section, the services report INVALID_PARAMETER |
| Witnesses.EnumerationRestarts | Platform/ARC/Library/PeiCore/PeiServices.c:235-256 | On the same volume PeiFfsFindNextFile succeeds with a NULL handle, which starts the enumeration again |
| VolumeMoves.GetFileSectionMoves | Platform/ARC/Library/UtilsLib/UtilsLib.c:213-238 | Moving the bytes of a volume by a multiple of 8 moves the section found by as much and keeps status and termination, whatever lies around it, if the volume itself decides at each file the walk comes to |
| VolumeMoves.AnswerIsTheVolumesIff | Platform/ARC/Library/UtilsLib/UtilsLib.c:213-238 | The answer is the same whatever lies around the volume if and only if at each file the walk comes to the header as far as it is read lies in the volume, or the bytes of its size that do are already too much, and the header of the file found ends below the top of the address space |
| VolumeMoves.GetFileSectionNeedsHeaders | Platform/ARC/Library/UtilsLib/UtilsLib.c:217-226 | If the volume does not decide at some file, ones around it make it corrupt, and something else does not |
| VolumeMoves.TopHitDepends | Platform/ARC/Library/UtilsLib/UtilsLib.c:235 | If the header of the file found ends at the top or behind it, a section of size 0 at the bottom of memory makes the volume corrupt, and one of size 4 is found |
| Witnesses.CutHeader | Platform/ARC/Library/UtilsLib/UtilsLib.c:217-226 | A volume of 80 bytes that is called corrupt or not, depending on the bytes behind it |
| Witnesses.MoveNeedsRoom | Platform/ARC/Library/UtilsLib/UtilsLib.c:235 | A volume that ends at the top of the address space and loses its section when it is moved down |
| VolumeMoves.GetTeEntryPointMoves | Platform/ARC/Library/UtilsLib/UtilsLib.c:256-264 | The entry point moves with the volume if the TE fields it depends on lie in it |
| VolumeMoves.TeEntryNeedsHeader | Platform/ARC/Library/UtilsLib/UtilsLib.c:260-263 | And if they do not, some other byte behind the volume makes another entry point |
| VolumeMoves.FindNextFileMoves | Platform/ARC/Library/PeiCore/PeiServices.c:232-262 | So does the next handle, continued from the handle's own address |
| VolumeMoves.FindNextFileNeedsHeaders | Platform/ARC/Library/PeiCore/PeiServices.c:243-252 | And under the same condition on the files only |
| VolumeLaws.NextHandleAdvances | Platform/ARC/Library/PeiCore/PeiServices.c:235-262 | The next file found lies at least 8 bytes behind the handle, inside the volume, and below 2^32 it is a handle again; for a file of size zero the same handle is returned |
| VolumeLaws.UnsetStartsRight | Platform/ARC/Library/PeiCore/PeiServices.c:239-240 | For every content of the unset variable: the walk continues where it is meant to if and only if the content plus the file's size, modulo 2^64, falls into the 8 bytes that end at the next file |
| VolumeLaws.UnsetMissesFiles | Platform/ARC/Library/PeiCore/PeiServices.c:239-262 | From a content that leads at or behind the end of the volume every further file is missed |
| Layout.SectionWalkFinds | Platform/ARC/Library/UtilsLib/UtilsLib.c:166-191 | Over the printed sections of a file without gaps before the first section of the type the loop finds that section, at its place in the layout, and NOT_FOUND exactly when there is none |
| Layout.FileWalkFinds | Platform/ARC/Library/UtilsLib/UtilsLib.c:216-242 | Over printed files the loop stops at the first wanted file, at its place in the layout |
| Layout.GetFileSectionFinds | Platform/ARC/Library/UtilsLib/UtilsLib.c:194-243 | For every list of files printed at a multiple of 8, also up to the very top of the address space, GetFileSection answers what first-match search on the list answers, address and status |
| Layout.TopFileReadsZero | Platform/ARC/Library/UtilsLib/UtilsLib.c:235 | Except where the file that decides is a bare header at the top: then it answers what a section search from address 0 answers |
| Layout.VisitsLayoutIffPacked | Platform/ARC/Library/UtilsLib/UtilsLib.c:187 | The loop comes to every section of the layout if and only if all sizes but the last are multiples of 4 |
| Layout.GapReadsAsCorrupt | Platform/ARC/Library/UtilsLib/UtilsLib.c:168-188 | Behind a section of one byte more than a multiple of 4 the walk reports corruption, whatever follows |
| Layout.KindAddressesComplete | Platform/ARC/Library/PeiCore/PeiServices.c:243-260 | The enumerated addresses are those of exactly the files of the type |
| Layout.KindAddressesIncrease | Platform/ARC/Library/PeiCore/PeiServices.c:243-260 | Each comes once, in layout order |
| Layout.EnumerationIsComplete | Platform/ARC/Library/PeiCore/PeiServices.c:232-262 | From NULL, feeding each handle back, one gets the addresses of all files of the type, then NOT_FOUND |
| Words.ReadWritten | Platform/ARC/Library/PeiCore/PeiServices.c:36-39 | A number stored at any address, wrapping or not, is read back |
| Words.WriteKeepsByte | Platform/ARC/Library/PeiCore/PeiServices.c:36-39 | A store keeps every other byte |
| Ppi.PeiCore.constructor | Platform/ARC/Library/PeiCore/PeiCoreMain.c:41-46 | The initial database is empty |
| Ppi.PeiCore.CalcPeimFixup | Platform/ARC/Library/PeiCore/PeiServices.c:19-26 | The free-form section of the first PEIM of the boot volume, as it is in memory at the call |
| Ppi.PeiCore.FixupPpi | Platform/ARC/Library/PeiCore/PeiServices.c:28-40 | The three stores in their order, each reading memory as the one before left it |
| Ppi.PeiCore.PeiInstallPpi | Platform/ARC/Library/PeiCore/PeiServices.c:50-127 | Memory, pool, count and status are those of the specified install, with the fixup found in memory before the call, also where a fixup overwrites the list or the volume; the search has to return only if a position-independent PPI is come to |
| PpiValues.InstallPrinted | Platform/ARC/Library/PeiCore/PeiServices.c:64-127 | For a list of descriptor values printed anywhere: how the install ends by their flags, that the same list with shifted pointers is printed there afterwards, that the entry at each shifted interface is shifted, and that nothing else changes |
| PpiValues.RefusedAtOnce | Platform/ARC/Library/PeiCore/PeiServices.c:64-75 | A NULL list is an invalid parameter, and a full pool is NOT_FOUND, with nothing changed |
| Ppi.PeiCore.PeiLocatePpi | Platform/ARC/Library/PeiCore/PeiServices.c:129-177 | The answer is instance number Instance of the entries with the GUID |
| PpiValues.SameGuidIsEquality | Platform/ARC/Library/UtilsLib/UtilsLib.c:137-144 | Two GUIDs in memory match if and only if all their fields are equal |
| PpiValues.LocateByValue | Platform/ARC/Library/PeiCore/PeiServices.c:149-176 | For a database of descriptors whose GUID pointers lead to GUIDs: the interface of the k-th one with the wanted GUID, and NOT_FOUND if and only if no more than k have it |
| Ppi.PeiCore.DispatchPeims | Platform/ARC/Library/PeiCore/PeiCoreMain.c:124-145 | Terminates; calls each PPI of the final database once, in order; database, interfaces passed and addresses called are those of the specified dispatch |
| Ppi.InstallAppends | Platform/ARC/Library/PeiCore/PeiServices.c:73-127 | Whatever it does to memory, an install keeps the visible entries and adds consecutive descriptors on success, nothing on failure |
| Ppi.LocateFindsInstance | Platform/ARC/Library/PeiCore/PeiServices.c:149-176 | The entry returned is the one before which exactly Instance entries match; NOT_FOUND if and only if no more than Instance match |
| Ppi.DispatchComplete | Platform/ARC/Library/PeiCore/PeiCoreMain.c:137-144 | Each PPI of the final database is called exactly once, in installation order, however many are installed while the loop runs |
| PpiValues.CallByValue | Platform/ARC/Library/PeiCore/PeiCoreMain.c:138-142 | A descriptor is called with its interface, at the address in the first word of it |
| PpiValues.InstalledIsCalled | Platform/ARC/Library/PeiCore/PeiCoreMain.c:137-144 | The descriptors of a list that an entry point installs are called in the same dispatch, in order |
| PpiLaws.EndsSomehow | Platform/ARC/Library/PeiCore/PeiServices.c:80-126 | Every install ends in one of the listed ways |
| PpiLaws.EndsOnce | Platform/ARC/Library/PeiCore/PeiServices.c:80-126 | And in only one: number of descriptors passed and status are determined by memory before the call |
| PpiLaws.InstallFollows | Platform/ARC/Library/PeiCore/PeiServices.c:64-127 | Status, pool and entries told from memory before the call; the pointers of each descriptor passed are shifted exactly once, those before the first position-independent one by 0; the entry it names once for every shifted descriptor that names it; no byte other than those of shifted words changes |
| PpiLaws.EntryShiftedOnceIff | Platform/ARC/Library/PeiCore/PeiServices.c:28-40 | An entry is shifted exactly once if and only if no other shifted descriptor names it, or the other shifts add up to a multiple of 2^32; with one other they never do |
| Witnesses.SharedShiftedTwice | Platform/ARC/Library/PeiCore/PeiServices.c:79-116 | A concrete list whose two descriptors name one interface: installed, and its entry shifted twice |
| PpiLaws.PlainInstall | Platform/ARC/Library/PeiCore/PeiServices.c:64-127 | If nothing is shifted memory is left as it is, for every list: with shared or NULL interfaces, wrapping, or installed before |
| Ppi.FixupByZero | Platform/ARC/Library/PeiCore/PeiServices.c:79-98 | A fixup by 0 changes nothing, whatever the pointers are |
| PpiLaws.RejectedListUnchangedIff | Platform/ARC/Library/PeiCore/PeiServices.c:98-126 | After a rejection memory is as before if and only if no descriptor passed is position-independent or the shift is 0 |
| PpiLaws.RejectedAgain | Platform/ARC/Library/PeiCore/PeiServices.c:98-126 | A second attempt is rejected likewise and leaves the pointers shifted twice |
| Witnesses.RejectedOnce | Platform/ARC/Library/PeiCore/PeiServices.c:80-126 | A concrete boot volume and list: rejected, and its interface pointer stays shifted |
| Witnesses.RejectedTwice | Platform/ARC/Library/PeiCore/PeiServices.c:80-126 | The second attempt on it shifts the pointer once more |
| PpiLaws.InstallKeepsAnswers | Platform/ARC/Library/PeiCore/PeiServices.c:70-118 | An install whose shifted words are separate from the visible entries changes nothing that a lookup reads of them |
| PpiLaws.RunKeepsAnswers | Platform/ARC/Library/PeiCore/PeiServices.c:70-176 | After any sequence of successful and failed installs, each with whatever fixup is found in memory as it then is, the entries are the accepted descriptors in installation order, and every earlier answer is the same |
| SpinLock.StepKeepsInv | Platform/ARC/Library/CpuLib/CpuSync.c:174-225 | Every step of every CPU keeps exclusion, the meaning of the lock word, the assertions and the counter |
| SpinLock.MutualExclusion | Platform/ARC/Library/CpuLib/CpuSync.c:11-225 | In every run: at most one holder, the lock word is 2 exactly when there is one and 1 otherwise, no assertion on the value fails, and the shared counter is the number of increments completed |
| SpinLock.AcquireGoesOn | Platform/ARC/Library/CpuLib/CpuSync.c:101-152 | A CPU in AcquireSpinLock stays in it until it holds the lock or is stopped by the assertion on the time |
| SpinLock.AcquireReturnsHolding | Platform/ARC/Library/CpuLib/CpuSync.c:101-154 | So it does not return without the lock: whatever it is found doing later, it has held the lock in between |
| SpinLock.AttemptIsOneExchange | Platform/ARC/Library/CpuLib/CpuSync.c:174-194 | AcquireSpinLockOrFail alone is over after one exchange, with the lock if nobody held it and without otherwise |
| SpinLock.ReleaseFrees | Platform/ARC/Library/CpuLib/CpuSync.c:210-225 | A release is one check and one store, after which the lock is free |
| SpinLock.UninitializedAsserts | Platform/ARC/Library/CpuLib/CpuSync.c:184-221 | Who checks a lock that was never initialized fails the assertion |
| SpinLock.ExchangeSucceedsIffFree | Platform/ARC/Library/CpuLib/CpuSync.c:187-193 | An attempt succeeds if and only if no CPU holds the lock at its exchange |
| SpinLock.BrokenOnlyByRogue | Platform/ARC/Library/CpuLib/CpuSync.c:210-225 | A run in which exclusion, the meaning of the lock word, an assertion or an increment fails contains a release by a CPU that does not hold the lock |
| SpinLock.RogueBreaks | Platform/ARC/Library/CpuLib/CpuSync.c:220-224 | Such a release leads to two holders without any assertion failing |
| TimedAcquire.AcquireSpinLock | Platform/ARC/Library/CpuLib/CpuSync.c:86-155 | Returns at the first free attempt, or stops at the first poll at which the accumulated total reaches the timeout |
| TimedAcquire.DeltaIsElapsedIff | Platform/ARC/Library/CpuLib/CpuSync.c:129-149 | A poll adds the ticks that passed if and only if the period is below 2^63, or fewer than 2^63 ticks passed and the counter has not rolled over or uses all 64 bits |
| TimedAcquire.TotalIsElapsed | Platform/ARC/Library/CpuLib/CpuSync.c:116-149 | For counters up or down and any number of roll-overs the total is the true number of ticks |
| TimedAcquire.TimeoutIsExactIff | Platform/ARC/Library/CpuLib/CpuSync.c:122-128 | The ticks waited for are floor(frequency * timeout / 1000000) if and only if the product fits 64 bits, and never more |
| TimedAcquire.TimeoutWraps | Platform/ARC/Library/CpuLib/CpuSync.c:122-128 | A product of 2^64 makes the timeout 0 |
| TimedAcquire.AssertionMeasuresTime | Platform/ARC/Library/CpuLib/CpuSync.c:122-150 | The assertion of a poll fails exactly if floor(frequency * timeout / 1000000) ticks have passed, if and only if the product fits 64 bits or the ticks lie outside what the wrap cuts off |
| SerialPort.SerialPortWaitWritable | Platform/ARC/Library/SerialPortLib/Ns16550.c:163-188 | Returns without transmitting; with flow control the last modem status allows transmission by the table in force, without it no modem status is read |
| SerialPort.SerialPortFlush | Platform/ARC/Library/SerialPortLib/Ns16550.c:195-204 | Terminates with FIFO and shift register empty, nothing lost |
| SerialPort.SerialPortWrite | Platform/ARC/Library/SerialPortLib/Ns16550.c:268-320 | Exactly the buffer's bytes in order, each guarded by a modem status that allows it (without flow control none is read); one wait per 1, 16 or extended-size bytes, as bits 0 and 5 of the FIFO control say; if the hardware has that FIFO, no byte is lost; the original count is returned; while the latch is accessible all bytes end in it |
| SerialPort.SerialPortRead | Platform/ARC/Library/SerialPortLib/Ns16550.c:331-380 | Exactly the peer's next bytes in order, RTS clear at each read in flow control mode, modem control left without RTS, rest of the buffer untouched; while the latch is accessible the buffer is filled with it and nothing is received |
| SerialPort.DivIsNearest | Platform/ARC/Library/SerialPortLib/Ns16550.c:232-238 | Below 2^28 baud no natural number is a better divisor, of two as good it is the larger, and the error is at most 8 * baud |
| SerialPort.SetRegisters | Platform/ARC/Library/SerialPortLib/Ns16550.c:245-254 | The seven writes, with nothing thrown away that is still to be transmitted |
| SerialPort.SerialPortInitialize | Platform/ARC/Library/SerialPortLib/Ns16550.c:213-257 | Waits until everything is on the line, programmes divisor and line control (8N1 for 0), returns the base; the latch stays accessible exactly when bit 7 of the line control is set |

## Left out

- Volume.PeiFfsFindNextFile: a NULL pointer to the handle, like a NULL result pointer of PeiFfsFindSectionData, takes the INVALID_PARAMETER branch and is not modelled; pointers are told by what they point to.
- Layout.GetFileSectionFinds: the first wanted file must need no gaps before its first wanted section, because FindSection does not realign; Layout.VisitsLayoutIffPacked and Layout.GapReadsAsCorrupt say what happens otherwise (behind a gap of one or two bytes a section can still be found, by accident of its bytes).
- Layout.EnumerationIsComplete: continues from the handle's address, not from the unset variable; VolumeLaws.UnsetStartsRight says exactly when the code starts there too (another start may still lead to the same file).
- VolumeMoves.AnswerIsTheVolumesIff: volumes that leave fewer than 24 bytes of the address space on either side; so VolumeMoves.GetFileSectionNeedsHeaders and VolumeMoves.FindNextFileNeedsHeaders.
- VolumeMoves.FindNextFileMoves: the handle's own header must lie in the volume, as that of every handle returned under the condition does.
- VolumeLaws.WalkersAgree: for a first file at 2^32 or above and not at a multiple of it the answers agree if the services find a section (VolumeLaws.ServiceFindsSame); for the other answers no condition simpler than comparing them is given.
- VolumeLaws.ServiceFindsSame: a file that passes 2^64, whose end wraps.
- VolumeLaws.NextHandleAdvances: volumes that end within 2^24 bytes of 2^64, where the walk may start again at 0.
- PpiLaws.InstallFollows: where descriptors are shifted, the list must be shorter than the address space and the entries of the shifted interfaces must not overlap it; of an entry that another one overlaps in part only the frame is stated. Without that, Ppi.PeiCore.PeiInstallPpi and Ppi.InstallAppends still hold.
- PpiLaws.RunKeepsAnswers: the words that each install shifts must be separate from the visible entries and their GUIDs in the same way.
- Ppi.PeiCore.CalcPeimFixup: the search must return; a boot volume on which it does not is VolumeLaws.VolumeWalkStopsIffNotStuck's subject.
- Ppi.PeiCore.DispatchPeims: an entry point is a list of installs and byte stores that may depend on the database it is called with; the hand-off block list it receives is uninitialised in the code and not part of this model. The pool is an array beside memory, so entry points do not overwrite it.
- TimedAcquire.DeltaIsElapsedIff: the periods 2^63, 2^63 + 1 and 2^63 + 2, for which the computation of the cycle overflows a signed number. For a counter that counts down, 2^63 ticks between two polls overflow the negation of the difference in the same way; the model lets it wrap, and the theorem then says that the ticks are not measured.
- TimedAcquire.AssertionMeasuresTime: waits of 2^64 ticks or more, after which the total itself wraps.
- SpinLock.MutualExclusion: the compare-exchange is atomic as its comment says (the assembly behind it is not part of this model) and memory is sequentially consistent; fairness and liveness of waiting are not stated.
- SerialPort.SerialPortWrite: an extended FIFO size of 0, for which the outer loop does not end.
- SerialPort.SerialPortRead: requires the peer to have enough bytes, or any at all while the latch is accessible, without which the loop waits for ever; overrun of the receive FIFO is not modelled.
- SerialPort.SerialPortInitialize: baud rates whose product with 16 is 0 modulo 2^32, which divide by zero.
- The polling loops end because of the stated bounds on how long the device may stand still; real hardware has no such bound.
- The register stride and the choice between I/O ports and memory-mapped access, which only place the registers, and the offsets of the registers that are read.
- Logging, the line number in STATUS_INFO, StatusToAsciiStr.
- Int32ToAscii, which leaves one cell unset and writes behind its buffer; the GUID printer is the same idea.
- PeiNotifyPpi, PeiFfsFindNextVolume, PeiFfsGetFileInfo, InitPeims, CalcPeiFixup: constant answers, table lookups and calls of what is modelled.
- SecMain beyond the header layout, SecEntry, DxeIpl, cache, exception, stack switch and long jump stubs.
- InterlockedIncrement, InterlockedDecrement and the 16-bit exchange, which are single calls.
- Files and sections with extended sizes and free space at the end of a volume, which the code does not know; the printer fills its volumes.

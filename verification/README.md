# Bochs: a verified model of its timer scheduler and of some of its table builders

This project models parts of Bochs 2.6 in Dafny and proves properties of the model.
`dafny verify dfyconfig.toml` checks all of it.

**Virtual-time timers** (`TimerTable`, `NaiveScheduler`, `CountdownScheduler`, `Refinement`,
`ClockBounds`, `TimerSchedule`, `SlotHistory`, `Callbacks`, `SelfArming`, `PcSystem`). Bochs lets one 32-bit countdown stand in for up to 64 timers
with 64-bit deadlines. `NaiveScheduler` is the trivial scheduler that compares every timer
with the clock on every tick; `CountdownScheduler` is the algorithm of the source as a
function of its state; `PcSystem` is the object with its fields, updated in place and proved
against those functions. A callback is an arbitrary function from everything fired so far to
a list of register, activate, deactivate and unregister requests. The main result is that
both schedulers do the same over every run. What the source leaves to its callers is
explicit: a run ends with `TableFull`, `BadSlot`, `NullCall`, `ClockOverflow` or `Stuck`, and
the lemmas named `...Exactly` say when the 64-bit clock is the only obstacle. A run in which
some deadline does not fit 64 bits ends with `ClockOverflow` in the reference; `WrapExample`
and `RearmWrapExample` show that the source's state is then no longer meaningful, and
`ClockBounds` gives a bound on intervals and run length under which that never happens.

**AES and carry-less multiplication** (`Gf2`, `Words`, `Pclmulqdq`, `AesField`, `AesTables`,
`AesSbox`, `AesState`, `AesCipher`). Polynomials over GF(2) are an independent definition;
the shift-and-xor loops are proved to compute products and remainders in that sense. The
section numbers are those of FIPS 197.

**CRC-32** (`Crc32`, `Crc32Theory`, `Crc32Remainder`). The lazily built table, the loop over
bytes, the bit-serial register, and the polynomial division of section 3.2.9 of
IEEE 802.3-2012.

**BIOS tables and resources** (`PciBars`, `OptionRom`, `SmbiosTable`, `SmbiosParts`,
`SmbiosWalk`, `SmbiosHandles`, `SmbiosFields`, `SmbiosInit`, `BiosSums`, `BiosHeaders`). Base address allocation (section 6.2.5.1 of the PCI Local Bus
Specification 3.0), option ROMs in shadow RAM, the SMBIOS table (sections 6.1.2 and 6.1.3 of
DMTF DSP0134), and the tool that patches checksums into a BIOS image.

**Smaller parts** (`PageDump`, `LinearRead`, `SegmentChecks`, `DlExit`, `PathNames`, `CanonicalPath`, `Argz`). The
debugger's page table listing and its read of linear memory, segment limit checks with their
cached outcome, the shutdown of reference-counted modules, and the canonicalisation, splitting and joining of
search paths.

`Machine`, `Arithmetic` and `Wrappers` hold integer widths, facts about remainders and masks,
and an optional value.

Some properties that one could expect do not hold of the code; each is stated with the exact
condition, and most with an input at which it fails: `StepExactly` and `RearmedExactly`
(64-bit deadlines), `SizeExactly`, `AlignUpExactly` and `PlaceExactly` (regions below 16
bytes, regions that do not fit), `ReaderFindsTable`, `TiledExactly` and
`HandlesUniqueExactly` (208 processors, 64 KB of structures, 4 TB of memory), `CalcExactly`
(a header too short for its checksum), `OneCallExactly` and `TwoCallsSuffice` (one
canonicalisation call, paths that name nothing) and `SplitJoinExactly` (folded delimiters,
paths of delimiters only).

## Model

| member | source | states |
|---|---|---|
| Refinement.RunRefines | bochs-2.6/pc_system.cc:258-381 | over every run of ticks and requests, with callbacks that issue any requests, the countdown scheduler keeps the clock, the table and the sequence of firings of the naive one, and the invariant holds again, unless a deadline leaves the 64-bit clock |
| ClockBounds.BoundedRunRefines | bochs-2.6/pc_system.cc:258-381 | if all intervals in the table, in the run and in what callbacks ask for are at most p, and the run ends p ticks before the 64-bit clock does, both schedulers do exactly the same |
| ClockBounds.RunBounded | bochs-2.6/pc_system.cc:288-306 | under that bound no deadline ever leaves the clock |
| Refinement.EventRefines | bochs-2.6/pc_system.cc:317-381 | an event at the end of the countdown does what the naive scheduler does on that one tick, callbacks included |
| Refinement.QuietTick | bochs-2.6/pc_system.h:100-104 | while the countdown stays above zero no timer is due, so only the clock moves |
| Refinement.RearmedValid | bochs-2.6/pc_system.cc:332-370 | the invariant is restored before the first callback runs, and the 32-bit gap to the next event is the exact difference of the 64-bit times |
| Refinement.RearmedExactly | bochs-2.6/pc_system.cc:343-356 | re-arming keeps the invariant if and only if no due continuous timer needs a deadline past 2^64 |
| Refinement.RearmWrapExample | bochs-2.6/pc_system.cc:351-356 | one tick before the 64-bit clock ends re-arming the null timer wraps, and the invariant is lost |
| Refinement.GapFits | bochs-2.6/pc_system.cc:366-370 | because the null timer is active within 0xffffffff ticks, the next gap is between 1 and 0xffffffff |
| Refinement.ArmKeepsValid | bochs-2.6/pc_system.cc:475-486 | storing an armed timer and skewing countdown and period never moves the clock, and keeps the invariant exactly when the deadline fits 64 bits |
| Refinement.StepExactly | bochs-2.6/pc_system.cc:258-315 | no request moves the clock, and a request keeps the invariant if and only if it arms no timer past the 64-bit clock |
| Refinement.DeliverRefines | bochs-2.6/pc_system.cc:372-380 | callbacks start from the invariant, keep it, and are called for the same slots in the same order by both schedulers |
| Refinement.InitialValid | bochs-2.6/pc_system.cc:48-83 | the invariant holds after construction and initialisation, at time zero |
| Refinement.TimeIsExact | bochs-2.6/pc_system.h:123-126 | in every valid state the clock reads ticksTotal + period - countdown without wrapping, and the null timer is due no sooner than the countdown ends |
| Refinement.TickNIsTick1s | bochs-2.6/pc_system.h:105-115 | tickn(n) leaves the same counters, table and firings as n calls of tick1 |
| Refinement.TickNComposes | bochs-2.6/pc_system.h:105-115 | tickn(a + b) is tickn(a) followed by tickn(b) |
| Refinement.TickNAdvancesTime | bochs-2.6/pc_system.h:105-115 | tickn(n) moves the clock by exactly n, whatever the callbacks do |
| Refinement.WrapExample | bochs-2.6/pc_system.cc:288-306 | a register request whose deadline wraps is accepted and stores a deadline in the past: the invariant is lost |
| TimerSchedule.FiresExactlyOnSchedule | bochs-2.6/pc_system.cc:335-364 | over any run that spares a slot, that slot fires at its deadline and, if continuous, at every whole period after it, and never else |
| SlotHistory.SlotFollowsSchedule | bochs-2.6/pc_system.cc:335-380 | between any two events of a run with no request for a slot in between, the slot fires exactly on the schedule of the timer it held at the first, a call that is marked but still to come included |
| SlotHistory.CountdownHistory | bochs-2.6/pc_system.cc:317-381 | every run of the countdown scheduler is such a sequence of events, requests inside callbacks included, so this holds for timers that re-arm themselves |
| SlotHistory.RequestSetsTimer | bochs-2.6/pc_system.cc:475-478 | an arming request, wherever it is issued, makes its slot due after the interval asked for |
| Callbacks.HandlersAreServed | bochs-2.6/pc_system.cc:372-380 | in every run, the events after the call of a device's handler are exactly the requests it issues on seeing all firings so far, in order, and then the next call or the end of the tick; the null timer asks for nothing, and no empty slot is called |
| Callbacks.RegisterTakesFreeSlot | bochs-2.6/pc_system.cc:272-312 | a registration, started or not, takes the first free slot, marks it used for the device with the interval asked for, at least one, and touches no other |
| Callbacks.RegisteredSlotKept | bochs-2.6/pc_system.cc:272-312 | over any run, callbacks included, a slot handed out stays in use with its device's handler, and no other registration gets it, until it is unregistered while inactive |
| Callbacks.UnregisterFrees | bochs-2.6/pc_system.cc:535-563 | an active timer is left as it is; otherwise the slot becomes free, without a handler, and the bound sinks if it was the last |
| SelfArming.SelfArmingFires | bochs-2.6/pc_system.cc:335-380 | a one-shot timer due at T whose handler starts it again for n ticks fires at T, T + n, T + 2n and so on, like a continuous one, over any run that leaves it alone otherwise |
| TimerTable.AdmitExactly | bochs-2.6/pc_system.cc:271-286 | a registration is refused if and only if all 63 slots are in use, any other request if and only if its slot is the null timer or not below the bound |
| TimerSchedule.RegisteredTimerFires | bochs-2.6/pc_system.cc:258-315 | a timer registered at tick T for n ticks fires at T + max(n, 1) and, if continuous, at every further multiple |
| TimerSchedule.ActivatedTimerFires | bochs-2.6/pc_system.cc:455-521 | an activated timer follows the schedule of its new interval from now on, the stored interval being used when zero microseconds are asked for |
| TimerSchedule.DeactivatedTimerIsSilent | bochs-2.6/pc_system.cc:523-533 | a stopped timer does not fire although the shortened countdown is left as it was |
| TimerSchedule.OtherSlotsKept | bochs-2.6/pc_system.cc:523-563 | a request changes no slot but the one it names |
| PcSystem.PcSystem.constructor | bochs-2.6/pc_system.cc:48-65 | only the null timer is in the table |
| PcSystem.PcSystem.Initialize | bochs-2.6/pc_system.cc:67-83 | the object is in the initial state of the countdown scheduler and valid; the null timer is due after 0xffffffff ticks |
| PcSystem.PcSystem.TimeTicks | bochs-2.6/pc_system.h:123-126 | returns the clock, and in a valid state the unwrapped sum |
| PcSystem.PcSystem.RegisterTimerTicks | bochs-2.6/pc_system.cc:258-315 | needs a free slot only; takes the first one, sets all its fields, whether the timer is started or not, changes no other slot, leaves the counters alone if it is not started, and is the scheduler's step |
| PcSystem.PcSystem.ActivateTimerTicks | bochs-2.6/pc_system.cc:455-487 | starts the slot for the interval asked for, at least one, from now; its owner and all other slots stay, and it is the scheduler's step |
| PcSystem.PcSystem.ActivateTimer | bochs-2.6/pc_system.cc:489-521 | the same for an interval in microseconds, zero standing for the stored one |
| PcSystem.PcSystem.DeactivateTimer | bochs-2.6/pc_system.cc:523-533 | only the active flag of the slot goes |
| PcSystem.PcSystem.UnregisterTimer | bochs-2.6/pc_system.cc:535-563 | refuses an active timer and changes nothing, else resets every field of the slot, and lowers the bound when it was the last |
| PcSystem.PcSystem.ServiceTimers | bochs-2.6/pc_system.cc:335-364 | the first loop marks exactly the due slots, advances exactly those, and finds the least deadline |
| PcSystem.PcSystem.CallHandlers | bochs-2.6/pc_system.cc:372-380 | the second loop calls the handlers of the marked slots in order, each seeing the effects of those before; it is the step that HandlersAreServed takes apart |
| PcSystem.PcSystem.CountdownEvent | bochs-2.6/pc_system.cc:317-381 | the whole event is the event function of the scheduler |
| PcSystem.PcSystem.Tick1 | bochs-2.6/pc_system.h:100-104 | one tick of the object is one tick of the naive scheduler, and the invariant holds again |
| PcSystem.PcSystem.TickN | bochs-2.6/pc_system.h:105-115 | the loop ends, is n ticks of the naive scheduler, and the clock moves by n |
| PcSystem.PcSystem.TimeUsecSequential | bochs-2.6/pc_system.cc:432-446 | each result is one more than the larger of the current time and the previous result |
| CountdownScheduler.MinDeadline | bochs-2.6/pc_system.cc:332-364 | the least deadline of the active timers: a lower bound, and attained |
| Pclmulqdq.ClmulIsProduct | bochs-2.6/cpu/aes.cc:407-415 | the loop, which may stop early, leaves every coefficient of the polynomial product of its two words |
| Pclmulqdq.Pclmulqdq | bochs-2.6/cpu/aes.cc:386-420 | the result is the polynomial product of the words that bits 0 and 4 of the immediate select, stated on the operands' fields |
| Pclmulqdq.ShiftCoeffs | bochs-2.6/cpu/aes.cc:412-413 | the two-word shift multiplies by x and loses no bit below x^128 |
| Pclmulqdq.ClmulCommutes | bochs-2.6/cpu/aes.cc:407-415 | exchanging the operands gives the same register |
| Pclmulqdq.ClmulDistributes | bochs-2.6/cpu/aes.cc:407-415 | the product distributes over xor |
| Pclmulqdq.ClmulTopBit | bochs-2.6/cpu/aes.cc:407-415 | bit 127 of the product is always zero |
| AesField.GfMul | bochs-2.6/cpu/aes.cc:200-216 | the loop on unsigned integers computes the product in the field, and the result is a byte |
| AesField.GfIsRemainder | bochs-2.6/cpu/aes.cc:200-216 | the product is the remainder of the polynomial product modulo 0x11b, and no other byte is (section 4.2) |
| AesField.GfCommutes | bochs-2.6/cpu/aes.cc:200-216 | the product is commutative |
| AesField.GfXorLeft | bochs-2.6/cpu/aes.cc:200-216 | the product is linear in its first argument |
| AesField.GfXorRight | bochs-2.6/cpu/aes.cc:200-216 | the product is linear in its second argument |
| AesSbox.SubIsInverseThenAffine | bochs-2.6/cpu/aes.cc:111-144 | each of the 256 entries is the affine image of the inverse of its index in the field, zero standing for its own inverse (section 5.1.1) |
| AesTables.InvSubSub | bochs-2.6/cpu/aes.cc:146-179 | the inverse table undoes the table on every byte |
| AesState.ShiftRowsRotates | bochs-2.6/cpu/aes.cc:58-78 | row r moves left by r places (section 5.1.2) |
| AesState.ShiftRowsUndone | bochs-2.6/cpu/aes.cc:89-109 | shifting back undoes shifting |
| AesState.SubShiftCommute | bochs-2.6/cpu/aes.cc:307-308 | byte substitution and row shifting commute, in both directions of the cipher |
| AesState.MixIsRingProduct | bochs-2.6/cpu/aes.cc:220-272 | both mixing steps multiply a column by a fixed polynomial modulo x^4 + 1 (sections 5.1.3 and 5.3.3) |
| AesState.InvMixColumnsUndoes | bochs-2.6/cpu/aes.cc:247-272 | inverse mixing undoes mixing on every state |
| AesState.MixColumnsUndoes | bochs-2.6/cpu/aes.cc:220-245 | mixing undoes inverse mixing on every state |
| AesCipher.InvMixColumnsLinear | bochs-2.6/cpu/aes.cc:291-300 | inverse mixing distributes over adding a round key |
| AesCipher.DecRoundUndoes | bochs-2.6/cpu/aes.cc:336-350 | a decryption round with the transformed key undoes an encryption round, one substitution later |
| AesCipher.DecryptEncrypt | bochs-2.6/cpu/aes.cc:291-366 | for any list of round keys of any length the equivalent inverse cipher recovers every plaintext (section 5.3.5) |
| AesCipher.AesEncIsStandardRound | bochs-2.6/cpu/aes.cc:303-317 | the instruction is the round of the standard, which substitutes before it shifts |
| AesCipher.OtherRoundsAreStandard | bochs-2.6/cpu/aes.cc:320-366 | the last round mixes no columns, and the decryption rounds are those of the equivalent inverse cipher, which substitutes before it shifts |
| AesCipher.ShiftRowsInPlace | bochs-2.6/cpu/aes.cc:58-78 | the state array ends as the row shift of what it was |
| AesCipher.InvShiftRowsInPlace | bochs-2.6/cpu/aes.cc:89-109 | the state array ends as the inverse row shift of what it was |
| AesCipher.SubBytesInPlace | bochs-2.6/cpu/aes.cc:181-185 | every byte is replaced, each once |
| AesCipher.InvSubBytesInPlace | bochs-2.6/cpu/aes.cc:187-191 | every byte is replaced, each once |
| AesCipher.MixColumnsInPlace | bochs-2.6/cpu/aes.cc:220-245 | the four columns are mixed from the saved copy |
| AesCipher.InvMixColumnsInPlace | bochs-2.6/cpu/aes.cc:247-272 | the four columns are inverse mixed from the saved copy |
| AesCipher.ExecuteAesEnc | bochs-2.6/cpu/aes.cc:303-317 | the four steps on the operand copy give the encryption round |
| AesCipher.ExecuteAesEncLast | bochs-2.6/cpu/aes.cc:320-333 | the steps give the last encryption round |
| AesCipher.ExecuteAesDec | bochs-2.6/cpu/aes.cc:336-350 | the steps give the decryption round |
| AesCipher.ExecuteAesDecLast | bochs-2.6/cpu/aes.cc:353-366 | the steps give the last decryption round |
| AesCipher.ExecuteAesImc | bochs-2.6/cpu/aes.cc:291-300 | the key transformation is inverse mixing |
| Crc32.TableStepIsSerial | bochs-2.6/crc.cc:62-63 | one step with the table is eight bits of the bit-serial register, most significant bit first |
| Crc32.Table.InitCrc32 | bochs-2.6/crc.cc:41-51 | the nested loops fill every entry with its eight shifts |
| Crc32.Table.FillOnce | bochs-2.6/crc.cc:58-59 | the test on entry 1 tells untouched storage from a built table, so the table is built exactly once |
| Crc32.Table.Crc32 | bochs-2.6/crc.cc:53-65 | for every buffer the result is the bit-serial checksum |
| Crc32Theory.CrcAffine | bochs-2.6/crc.cc:61-64 | for buffers of one length the checksum of the xor of three is the xor of the three checksums |
| Crc32Theory.CrcResidue | bochs-2.6/crc.cc:61-64 | a message followed by its own checksum in big-endian order always gives 0x38fb2284 |
| Crc32Theory.BurstDetected | bochs-2.6/crc.cc:61-64 | buffers that differ only within 32 consecutive bits never have the same checksum |
| Crc32Remainder.SerialIsDivision | bochs-2.6/crc.cc:61-63 | preloading with ones amounts to complementing the first 32 bits of the message times x^32 before dividing |
| Crc32Remainder.DivideIsRemainder | bochs-2.6/crc.cc:39-39 | the register is the remainder modulo the generator polynomial, and nothing else of 32 bits is |
| Crc32Remainder.CrcIsRemainder | bochs-2.6/crc.cc:53-65 | the checksum is the complement of that remainder, as section 3.2.9 of IEEE 802.3 defines it, and of no other |
| PciBars.SizeExactly | bochs-2.6/bios/rombios32.c:921-930 | a probe of a region of a power of two bytes reads back as its size if and only if that is at least 16; smaller regions read back as 16 |
| PciBars.AlignUpLeast | bochs-2.6/bios/rombios32.c:935-935 | the masked round-up is the least multiple of the size that is not below the address |
| PciBars.AlignUpExactly | bochs-2.6/bios/rombios32.c:935-935 | it moves up if and only if the sum stays within 32 bits; otherwise it gives zero |
| PciBars.PlacedRegionsAreDisjoint | bochs-2.6/bios/rombios32.c:917-942 | over any sequence of probes whose regions fit, regions are aligned to their size, end no later than 2^32, and those of one address space are increasing and disjoint |
| PciBars.PlaceExactly | bochs-2.6/bios/rombios32.c:935-940 | a region is placed behind the others of its space if and only if it fits, a region that ends exactly at 2^32 included |
| PciBars.LastRegionExample | bochs-2.6/bios/rombios32.c:935-940 | a gigabyte at 0xc0000000 fits, and leaves the counter at zero |
| PciBars.RegionsAnswer | bochs-2.6/bios/rombios32.c:928-942 | each register that reads back something gets one region, in order: from 0xc000 of I/O space if its probe is odd, from 0xc0000000 of memory if it is even, of the size it encodes |
| PciBars.Allocator.constructor | bochs-2.6/bios/rombios32.c:999-1000 | both address counters start as the BIOS sets them |
| PciBars.Allocator.InitDevice | bochs-2.6/bios/rombios32.c:917-942 | mapping another device whose regions fit keeps all regions mapped so far and the layout, and the regions answer the probes so far |
| OptionRom.SetAttrExactly | bochs-2.6/bios/rombios32.c:852-857 | a register write changes the two bits of one window, four places up for the second window of a register, and no other bit |
| OptionRom.RomSizeLeast | bochs-2.6/bios/rombios32.c:831-836 | the size of a ROM is the least multiple of 2 KB that holds the units of 512 bytes that its header states |
| OptionRom.ShadowRam.CopyChunk | bochs-2.6/bios/rombios32.c:846-857 | a chunk that stays inside one window is copied while that window is writable, and the window ends with attribute 1 |
| OptionRom.ShadowRam.CopyRom | bochs-2.6/bios/rombios32.c:839-860 | the loop ends; memory in the range equals the ROM, every touched window ends with attribute 1, all others and the rest of memory are unchanged |
| OptionRom.ShadowRam.InitPciRom | bochs-2.6/bios/rombios32.c:821-865 | a ROM that fits is shadowed byte by byte, every address of it then reads RAM and is write-protected in the chip set register that governs it, and earlier ROMs stay intact and apart below 0xe0000; one without address or room changes nothing |
| SmbiosTable.WalkExactly | bochs-2.6/bios/rombios32.c:2220-2226 | a reader that walks by header length and double NUL gets a list of structures back if and only if each ends where its strings end |
| SmbiosWalk.ProcessorClosed | bochs-2.6/bios/rombios32.c:2068-2071 | a processor's structure ends where its strings end unless its number makes a NUL character |
| SmbiosParts.TableShape | bochs-2.6/bios/rombios32.c:2228-2247 | the number of structures, and that the end-of-table structure is the last |
| SmbiosWalk.ReaderFindsTable | bochs-2.6/bios/rombios32.c:2228-2255 | through the 16-bit length field the reader finds exactly the structures emitted if and only if the table fits 16 bits and there are fewer than 208 processors |
| SmbiosWalk.MisreadAt208 | bochs-2.6/bios/rombios32.c:2068-2071 | with 208 processors the reader finds as many structures, the last of type 127, but not the ones emitted |
| SmbiosHandles.HandlesUniqueExactly | bochs-2.6/bios/rombios32.c:2228-2247 | handles are unique if and only if there are fewer than 3072 processors and at most 4 TB of memory |
| SmbiosWalk.SizesCoverMemory | bochs-2.6/bios/rombios32.c:2235-2244 | the sizes that the memory devices state add up to the memory size |
| SmbiosWalk.TiledExactly | bochs-2.6/bios/rombios32.c:2129-2172 | the mapped ranges follow one another without gap or overlap up to the end of memory if and only if there are at most 4 TB, and both kinds of range agree |
| SmbiosFields.TableFields | bochs-2.6/bios/rombios32.c:1980-2093 | at their places in the table a reader finds the UUID, each processor's signature and features, and the memory array's capacity and number of devices |
| SmbiosFields.HandlesLead | bochs-2.6/bios/rombios32.c:2099-2170 | every handle that a memory structure holds is the one of the structure it should lead to: the array, the device, the range |
| SmbiosFields.DeviceName | bochs-2.6/bios/rombios32.c:2119-2120 | a memory device is named DIMM and its number in decimal, cut to two digits |
| SmbiosFields.ProcessorFields | bochs-2.6/bios/rombios32.c:2036-2072 | a processor's fields, and its socket's name for fewer than 208 processors |
| SmbiosFields.BiosCharacteristics | bochs-2.6/bios/rombios32.c:1932-1961 | the characteristics claimed are exactly the fifteen of a full build |
| SmbiosFields.ConstantFields | bochs-2.6/bios/rombios32.c:1963-2190 | the fields that are the same on every platform, at their offsets |
| SmbiosFields.BiosInformation | bochs-2.6/bios/rombios32.c:1918-1975 | vendor, version and date are the strings that their fields select, and the BIOS fills the memory from its segment up to 1 MB |
| SmbiosInit.EntryPointBalances | bochs-2.6/bios/rombios32.c:1876-1913 | both parts of the entry point sum to zero; anchors, length and versions are those of version 2.4, and the largest size, the length, address and count read back in their widths |
| SmbiosInit.MaxSizeIsLargest | bochs-2.6/bios/rombios32.c:2220-2226 | the size recorded is an upper bound on all structures and is the size of one |
| SmbiosInit.EntryPointDescribes | bochs-2.6/bios/rombios32.c:1886-1898 | in the entry point of a table the size field is at least the length of every structure and equals that of one, and the other fields describe that table |
| SmbiosInit.Bios.EntryPointInit | bochs-2.6/bios/rombios32.c:1876-1913 | the bytes at the start are the entry point, and no other byte changes |
| SmbiosInit.ReaderFindsMemory | bochs-2.6/bios/rombios32.c:2251-2255 | a reader that takes address, length and count from the entry point finds the structures in memory if and only if the table fits 16 bits and there are fewer than 208 processors |
| SmbiosInit.Bios.SmbiosInit | bochs-2.6/bios/rombios32.c:2207-2260 | memory from the next multiple of 16 on holds the entry point and then the whole table, whose sizes, length, address and count the entry point states; the address moves behind it, the rest of memory is unchanged, and a reader finds the table under exactly those conditions |
| BiosSums.HitsExactly | bochs-2.6/bios/biossums.c:334-351 | the search lists all signatures on 16-byte boundaries above offset 0, once and in order |
| BiosSums.HitsKept | bochs-2.6/bios/biossums.c:361-365 | writing a checksum byte neither makes nor destroys a signature of any kind |
| BiosSums.CalcExactly | bochs-2.6/bios/biossums.c:314-331 | the calculated byte makes the header sum to zero if and only if the header is long enough to hold it or summed to zero before |
| BiosSums.ShortHeaderExample | bochs-2.6/bios/biossums.c:422-445 | a header that states four bytes is patched outside its own length and still does not sum to zero |
| BiosSums.PatchedImageBalances | bochs-2.6/bios/biossums.c:130-255 | after a run without error, if the headers do not overlap and cover their checksum bytes, each header found exactly once sums to zero, and so does the image |
| BiosHeaders.PciBiosHeader | bochs-2.6/bios/biossums.c:314-331 | with a single _32_ header, given by its bytes: which images are refused, which byte changes, and that the header then sums to zero if it covers that byte |
| BiosHeaders.MpHeader | bochs-2.6/bios/biossums.c:368-385 | the same for a single _MP_ header |
| BiosHeaders.PcmpHeader | bochs-2.6/bios/biossums.c:422-445 | the same for a single PCMP header, extended tables being refused |
| BiosHeaders.PirHeader | bochs-2.6/bios/biossums.c:482-500 | the same for a single $PIR header |
| BiosHeaders.PnpHeader | bochs-2.6/bios/biossums.c:537-554 | the same for a single $PnP header |
| BiosHeaders.PassesInOrder | bochs-2.6/bios/biossums.c:130-255 | the passes run in the order of the program, each on what the one before it left, and the first error ends the run |
| BiosSums.LastByteIsFree | bochs-2.6/bios/biossums.c:244-254 | the final byte lies outside every accepted header |
| BiosSums.GetOffset | bochs-2.6/bios/biossums.c:334-351 | returns the next header behind an offset, or that there is none |
| BiosSums.CalcValue | bochs-2.6/bios/biossums.c:422-445 | returns the first check that fails, or the byte that balances the header |
| BiosSums.PatchHeader | bochs-2.6/bios/biossums.c:176-196 | one kind's search and patch: the image changes only when there is exactly one header and no check fails |
| BiosSums.PatchImage | bochs-2.6/bios/biossums.c:130-255 | the passes in their order and then the last byte, or the first error |
| PageDump.DumpTable | bochs-2.6/bx_debug/dbg_main.cc:3598-3626 | the printed intervals list every mapped page with its frame, in order, and no interval could be joined to the one before |
| PageDump.ListingDecodes | bochs-2.6/bx_debug/dbg_main.cc:3598-3626 | a page is in some printed interval if and only if it is mapped, and then every such interval gives its frame |
| PageDump.LinesAreMaximal | bochs-2.6/bx_debug/dbg_main.cc:3603-3613 | no printed interval can be made longer: the page behind it is not mapped, or not to the frame behind it |
| PageDump.SentinelContinues | bochs-2.6/bx_debug/dbg_main.cc:3601-3606 | the only frame that would look like a continuation of the sentinel is never page aligned |
| LinearRead.ReadLinear | bochs-2.6/bx_debug/dbg_main.cc:1281-1314 | the read succeeds if and only if the first page and every byte can be read; then the buffer holds those bytes, across any number of pages, and nothing behind them changes |
| LinearRead.SamePage | bochs-2.6/bx_debug/dbg_main.cc:1288-1297 | inside one page physical bytes are linear bytes, also when linear addresses wrap |
| SegmentChecks.TypeBits | bochs-2.6/cpu/access.cc:47-81 | which types are expand-down, writable and readable, as bits of the type field |
| SegmentChecks.NormalTest | bochs-2.6/cpu/access.cc:64-70 | the 32-bit test passes if and only if all bytes lie inside the limit, without wrap |
| SegmentChecks.DownTest | bochs-2.6/cpu/access.cc:83-93 | the expand-down test passes if and only if all bytes lie above the limit and within the upper bound |
| SegmentChecks.Segment.WriteVirtualChecks | bochs-2.6/cpu/access.cc:37-101 | accepts exactly the permitted accesses, and sets exactly the bits that stay coherent with the descriptor |
| SegmentChecks.Segment.ReadVirtualChecks | bochs-2.6/cpu/access.cc:103-163 | the same for reads |
| SegmentChecks.Segment.ExecuteVirtualChecks | bochs-2.6/cpu/access.cc:165-229 | the same for execution |
| SegmentChecks.ChecksKeepCoherent | bochs-2.6/cpu/access.cc:71-80 | any sequence of checks on one descriptor keeps the cached bits coherent |
| SegmentChecks.LearnsExactly | bochs-2.6/cpu/access.cc:71-80 | a check that succeeds sets every bit that is coherent with the descriptor, except that only a write sets the write bit |
| SegmentChecks.FastTestAgrees | bochs-2.6/cpu/access32.cc:195-195 | once a cached bit is set, the bare limit test agrees with the full check for every length from 1 to 32 |
| DlExit.EachModuleUnloadedOnce | bochs-2.6/ltdl.c:1842-1865 | each module with r references that is not resident is closed at levels r to 2r - 1 and unloaded once, by the last; resident ones are never closed; there are at most 2R passes |
| DlExit.AfterIsRemaining | bochs-2.6/ltdl.c:1842-1865 | after n levels each handle stands exactly as its reference count and n say |
| DlExit.NoOtherEvents | bochs-2.6/ltdl.c:1848-1861 | nothing outside the list is ever closed |
| DlExit.TrimDrops | bochs-2.6/ltdl.c:1837-1840 | exactly the leading resident handles are dropped from the list |
| DlExit.Library.Close | bochs-2.6/ltdl.c:3335-3391 | gives up one reference; the last one removes and unloads a module that is not resident; returns what the close function returns then, and one error for unknown handles and resident modules |
| DlExit.Library.VisitAll | bochs-2.6/ltdl.c:1845-1861 | one walk over the list, during which handles go, is one pass; it counts the errors and reports whether a module that is not resident was seen |
| DlExit.Library.CloseAll | bochs-2.6/ltdl.c:1842-1865 | the level loop ends after the exact number of passes, with only resident modules left |
| DlExit.Library.Exit | bochs-2.6/ltdl.c:1816-1865 | only the last of as many calls as initialisations shuts down, and it returns how many modules reported an error on closing |
| DlExit.ErrorsExactly | bochs-2.6/ltdl.c:1854-1860 | over the whole shutdown each module whose close function reports an error counts once |
| CanonicalPath.OnePassCleans | bochs-2.6/ltdl.c:2103-2140 | every kept directory separator is '/' and is followed by an ordinary character, and no path separator leads |
| CanonicalPath.SameElements | bochs-2.6/ltdl.c:2103-2140 | the result has the same elements with the same names in the same order, and an element starts with a directory separator if and only if it did |
| CanonicalPath.NamesApart | bochs-2.6/ltdl.c:2127-2138 | neighbouring names of the result stand apart by exactly one '/', or by a ':' |
| CanonicalPath.TwoCallsWrite | bochs-2.6/ltdl.c:2090-2144 | two calls return the path's elements written out, one '/' between names and one ':' between elements; so paths that name the same end up the same |
| CanonicalPath.FixedExactly | bochs-2.6/ltdl.c:2103-2140 | a path is left as it is if and only if it is in normal form |
| CanonicalPath.TwoCallsSuffice | bochs-2.6/ltdl.c:2090-2144 | a second call on the result fails its assertion if and only if the path names nothing; otherwise two calls reach a non-empty normal form, which stays |
| CanonicalPath.OneCallExactly | bochs-2.6/ltdl.c:2096-2144 | one call settles a path if and only if it names something and no element behind an ordinary character holds directory separators only |
| CanonicalPath.EmptiedExactly | bochs-2.6/ltdl.c:2106-2140 | a pass leaves the empty string if and only if no character belongs to a name |
| CanonicalPath.CallExamples | bochs-2.6/ltdl.c:2096-2144 | "a:/" needs a second call; "/" becomes empty, on which the second call fails; the empty path fails at once |
| CanonicalPath.CanonicalizePath | bochs-2.6/ltdl.c:2090-2144 | the loop computes one pass, which names the same elements; an empty path fails the assertion |
| Argz.SplitJoinExactly | bochs-2.6/ltdl.c:470-515 | splitting and joining gives a path back if and only if it is not empty and no delimiter leads it or follows another; it runs past the list if and only if the path has delimiters only |
| Argz.SplitStoresEntries | bochs-2.6/ltdl.c:486-512 | the list holds the entries of the path, each with its terminator |
| Argz.EntriesHoldPath | bochs-2.6/ltdl.c:486-512 | the entries hold every character of the path but the delimiters, in order, and only the last may be empty, when a delimiter or nothing comes before it |
| Argz.SplitLongExactly | bochs-2.6/ltdl.c:486-512 | the list has a character besides its last terminator if and only if some character is not a delimiter |
| Argz.NormalSplitsAndJoins | bochs-2.6/ltdl.c:640-656 | a path in normal form is given back if and only if it is not empty |
| Argz.CanonicalSplitsAndJoins | bochs-2.6/ltdl.c:640-656 | whatever two calls of canonicalize_path return is given back |
| Argz.EmptyPathOverruns | bochs-2.6/ltdl.c:648-656 | the empty path gives a list of one byte, and joining it runs past the list |
| Argz.CreateSep | bochs-2.6/ltdl.c:470-515 | the loop over the string writes the folded list, which holds the path's entries, and its exact length |
| Argz.StringifyInPlace | bochs-2.6/ltdl.c:640-657 | the loop replaces every terminator but the last, in place; it runs past the list if and only if a separator is given and the list has fewer than two bytes |

## Left out

- Timers: saving and restoring state, `exit`, a second `initialize` after a run, tick calls from inside callbacks, and the `id` strings; a callback's argument is part of its handler.
- Timers: conversion between microseconds and ticks is floating point in the source and an arbitrary function here; `usecOf` is only asked not to fall below the last value read.
- Timers: a slot that is created during an event has an uninitialised mark in the source (bochs-2.6/pc_system.cc:321, 335-336 and 375) and counts as unmarked here.
- Timers: the debugger's queue of time breakpoints, which reads past its array.
- Refinement.RunRefines: says nothing about what follows once the reference needs a deadline of 2^64 or more; StepExactly, RearmedExactly and the two examples say when that is and what goes wrong, and ClockBounds when it cannot be.
- AES: key expansion (AESKEYGENASSIST), and the instructions' decoding, which picks registers.
- CRC-32: the generator's error detection beyond single bursts.
- PCI: devices with fixed addresses (bochs-2.6/bios/rombios32.c:880-911), interrupt routing, the power management device, and the layout once a region did not fit.
- OptionRom.ShadowRam.InitPciRom: the chip set is two attribute bits per window; that writes reach RAM only in a writable window is a precondition of the byte copy, and locking shadow RAM afterwards is not modelled.
- SMBIOS: text and feature bits for builds other than Bochs's own, and what a reader makes of more than 208 processors beyond its not being the table. The ACPI and multiprocessor tables are not modelled.
- BiosSums.PatchedImageBalances: nothing is claimed for headers that overlap or that do not cover their checksum byte, beyond CalcExactly; reading and writing the file and padding are left out.
- PageDump.DumpTable: the message for paging turned off is left out, and frames are taken to be page aligned, as page translation gives them.
- LinearRead.ReadLinear: devices with side effects on reads are not modelled, a byte at a physical address is a value.
- SegmentChecks: the access routines around the fast test use translation buffers and are not modelled, except for the test itself.
- DlExit: there are no dependent libraries, and closing the loaders afterwards is left out. What a close function returns depends on the module alone. The handles form a sequence, not a linked list.
- CanonicalPath, Argz: an allocation never fails, and buffers are shorter than the largest 64-bit number.

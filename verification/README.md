# Verified models of the Norx kernel

This project models the parts of the Norx kernel that carry the most state and arithmetic, and proves
what they promise. Each part is written twice: as functions from a state to an answer and the next state,
about which the theorems are proved, and, where the kernel works in place, as a class or a method with
loops over arrays that is proved to compute those functions.

* **WebAssembly** (`Wasm*.dfy`): the LEB128 decoders, the single-pass body verifier and the interpreter with
  its forward scan for block ends. Accepted bodies run in step with the verifier: same depth, same types,
  same jump targets, bounded fuel. Where the scan and the verifier disagree, the exact condition is proved.
  A small language with its own encoding and meaning (`WasmLanguage`) fixes what bodies compute.
* **Physical memory and address spaces** (`FrameMemory`, `AddressSpace`, `SpaceEffects`, `FrameOwnership`,
  `OwnershipLimits`, `FrameAccounts`, `UserSpace`): carving the memory map, handing frames out and back, what each
  mapping call does and when it succeeds, who owns a frame over any interleaving, and that none is lost.
* **Program loading** (`Elf`, `ElfImage`, `InitialStack`, `LoadPath`, `LoadedStack`, `Loader`, `NativeImage`,
  `Heap`): from an ELF image to what its program finds in memory, and a heap that grows by whole pages or not
  at all.
* **FAT32** (`Fat*.dfy`): opening a volume, walking directories with long names, reading, and overwriting
  a file in place; and volumes laid out byte by byte, with what is read from and written to them.
* **Ramfs** (`Ramfs*.dfy`): paths, the inode tree, open handles, and the map from paths to contents that users see.
* **btrfs** (`Btrfs`, `BtrfsImage`): the explicit-stack tree walk against the recursion it stands for, and over
  trees laid out in blocks.
* **Processes** (`Process*.dfy`): the table of processes and threads with generation-tagged ids, the runtime
  calls on top of it, what each of them does record by record, and what happens when generations run out.
* **Scheduling** (`Scheduler`, `SchedulerStore`): fairness of the tick scheduler.
* **Networking** (`Net*.dfy`, `Virtio*.dfy`): the Internet checksum, frames that are built and parsed, and the
  virtqueue shared with a device.
* **PS/2** (`Ps2Ring`): the byte ring between an interrupt handler and its reader.

Integers are unbounded; where the kernel's 16, 32 or 64-bit width matters the model writes the wrap-around,
the check or the saturation out. Nothing was executed.

Where a promise turned out not to hold of the code, the code is kept and the exact condition is proved:

* The interpreter's scan for a block's end does not skip the immediate of an `i64.const`
  (`src/wasm.rs:638-648`). A last byte of it that reads as an instruction is acted on, or swallows the bytes that
  follow: `HiddenEndUnderflows` and `SwallowedEndUnderflows` give accepted bodies that then trap.
  `JumpsRightExactly` proves a one-pass check exact. It keeps a count per open block because two mistakes can
  cancel, as in `PhantomsCancel`.
* The verifier lets an arm pop below its block's entry height (`src/wasm.rs:591-601`), so an arm can change
  the types that code behind it relies on: `ArmsCanRetype` gives such a body and `KeptExactly` the condition.
* The verifier uses one frame kind for a loop and for the function, so no body with a loop is accepted
  (`AcceptedBodiesHaveNoLoops`).
* The ELF loader rounds a segment's start down but not its file position, so a segment whose address is not
  page-aligned is moved: `MisalignedSegmentMoves` gives one, and by `LoadedAsLinkedExactly` the program is as
  linked if and only if the address is aligned or the contents are all zero.
* The loader copies the words of the initial stack but not the strings they point to
  (`src/user_runtime.rs:114-118`): `ArgumentIsLost` gives a program that misses its argument, and by
  `StringsAreLostExactly` a pointer leads to its string if and only if the string is empty.
* Most errors of the loader destroy the new space, but it returns without doing so when the image lacks a
  segment's contents (`src/user_runtime.rs:84-100`). `Prepare` loses the frames it took if and only if the image
  lacks the contents of some segment and the pages up to the first such segment can be mapped (`Loses`, a
  condition on the allocator, the plan and the image before the call). `EmptyImageLoses` and
  `PrepareWithoutContents` give an input, and by `LoadImage` a plan parsed from its own image never loses any.
* Destroying an address space stops half-way when the return stack fills, and then frames are both held and
  waiting: `OwnershipBreaks` is a run that ends so, and `DestroyKeepsExactly` and `RunKeepsOwnershipExactly` give
  the room that is needed.
* Reaping clears a slot of the process table before it finds that its generation cannot be raised
  (`src/process.rs:622-634`). `ReapExhaustsExactly` says when, from the table before the call; a process slot at
  its limit leaves its id to be issued again (`ProcessLimitLeaves`), a thread slot at its limit leaves a dead
  process that lists a thread which is gone (`ThreadLimitLeaves`). `IdLivesTwice` is a run from the empty table
  with 65536 waits in which one id is issued and exits twice; with fewer waits that cannot happen
  (`ShortRunsAreClean`). Ids whose status was delivered never come back, limit or not (`ReapedIdIsGone`).
* A file handle is an inode and a slot, so a closed handle is accepted again if and only if its inode is opened in
  its slot (`AcceptedExactly`), as when the file is opened once more (`ClosedHandleReturns`).
* A yield by any process but init does nothing while init's thread is the first that is ready
  (`src/process.rs:831-836`), so no number of yields lets another ready thread run (`ReadyInitStopsYields`);
  `YieldEffect` says for every runtime what a yield does.

The length of a write is recorded in 32 bits by FAT32; `WriteThenRead` says what is read back for every length.

## Model

| member | source | states |
|---|---|---|
| WasmLeb.U32IsGroupSum | src/wasm.rs:384-398 | an unsigned decode that succeeds is the exact sum of at most five 7-bit groups and below 2^32 |
| WasmLeb.U32FailsExactly | src/wasm.rs:384-398 | the inputs on which it fails, and with which error, in both directions |
| WasmLeb.U32RoundTrip | src/wasm.rs:384-398 | decoding any u32's canonical encoding, followed by any bytes, gives it back and consumes just the encoding |
| WasmLeb.I32RoundTrip | src/wasm.rs:399-417 | the same for every i32 |
| WasmLeb.I64RoundTrip | src/wasm.rs:418-436 | the same for every i64 |
| WasmCursor.Cursor.LebU32 | src/wasm.rs:384-398 | the cursor's loop computes the unsigned decoding and moves past what it consumed |
| WasmCursor.Cursor.LebI32 | src/wasm.rs:399-417 | the cursor's loop computes the signed 32-bit decoding |
| WasmCursor.Cursor.LebI64 | src/wasm.rs:418-436 | the cursor's loop computes the signed 64-bit decoding |
| WasmVerifier.VerifyBody | src/wasm.rs:461-589 | the verifier's loop over its type and control arrays gives the verdict of the step function run from the start |
| WasmVerifier.BodyVerifier.Turn | src/wasm.rs:476-583 | one turn of the loop is one step: the same next state or the same error |
| WasmVerifier.BodyVerifier.PopType | src/wasm.rs:591-601 | popping a type checks it against the top of the array |
| WasmVerifier.BodyVerifier.PushType | src/wasm.rs:603-610 | pushing a type fails exactly when the array is full |
| WasmScan.JumpsRightExactly | src/wasm.rs:612-651 | for every accepted body: every block's scan finds the else and the end with which the verifier closes that block if and only if the body passes a one-pass check that follows verifier and scan side by side and counts the blocks the scan has too many |
| WasmScan.ScanFinds | src/wasm.rs:612-651 | in a body that passes, the scan of any open block, wherever it stands and however far it has strayed, finds the verifier's else and end |
| WasmScan.RightJumpsAreSteady | src/wasm.rs:612-651 | where the check fails, some open block's scan answers wrong |
| WasmScan.ClearIsSteady | src/wasm.rs:638-648 | a body whose `i64.const` immediates inside blocks end in bytes that mean nothing to the scan passes the check |
| WasmSoundness.TurnAgrees | src/wasm.rs:778-888 | if every scan of an accepted body is right and the host answers a call with one value, one interpreter turn keeps depth and frames equal to the verifier's and, in a body with a result, does not trap on the stack |
| WasmSoundness.DepthAgrees | src/wasm.rs:765-904 | under the same two hypotheses the depth and frames after any number of turns are the verifier's at that position |
| WasmSoundness.VerifiedRunIsStackSafe | src/wasm.rs:765-904 | an accepted body with a result that passes the scan check never traps on stack underflow or overflow, for every fuel and memory and every host that answers a call with one value |
| WasmSoundness.TurnsAreBounded | src/wasm.rs:765-889 | under the hypotheses of DepthAgrees every turn moves the position forward, so a run has at most as many turns as bytes |
| WasmSoundness.FuelSuffices | src/wasm.rs:765-783 | for an accepted body that passes the scan check and such a host, fuel of the body's length, within the kernel's cap, never runs out |
| WasmTrace.AcceptedBodiesHaveNoLoops | src/wasm.rs:480-525 | no accepted body contains a loop |
| WasmTrace.NoLoopFrames | src/wasm.rs:480-525 | no reachable verifier state holds a loop's frame |
| WasmTypes.TypesAgree | src/wasm.rs:765-918 | if every scan is right, the arms of every `if` keep their operand types and the host answers in i32, every runtime tag after any number of turns is the verifier's type at that position and no turn of an i32 body trapped on a type |
| WasmTypes.VerifiedRunIsTypeSafe | src/wasm.rs:765-918 | a whole run of an accepted i32 body that passes the scan check and whose arms keep their types, with a host that answers in i32, returns an i32 or stops for a resource or the host |
| WasmTypes.KeptExactly | src/wasm.rs:765-918 | for every accepted body that passes the scan check and every host that answers in i32: no turn that goes on can leave the verifier's types if and only if entering an `if`, reaching its else and reaching its end show the same operand types |
| WasmTypes.FloorsKeepTypes | src/wasm.rs:461-601 | bodies that never pop below a block's entry height meet the condition of type safety |
| WasmScanLimits.ShortBlockIsAccepted | src/wasm.rs:461-589 | a block that loads and drops an `i64.const` below 64 is accepted whatever the constant |
| WasmScanLimits.HiddenEndUnderflows | src/wasm.rs:612-651 | with the constant 11, read as an end, every run with four units of fuel traps with stack underflow |
| WasmScanLimits.SwallowedEndUnderflows | src/wasm.rs:612-651 | with the constant 40, read as a load whose immediates swallow the real end, so does every run |
| WasmScanLimits.SwallowedDropIsHarmless | src/wasm.rs:612-651 | with the constant 32, read as an instruction that swallows only the drop, the scan is right |
| WasmScanLimits.PhantomsCancel | src/wasm.rs:612-651 | an accepted body in which the scan sees a block that is not there and later an end that is not there, and is right |
| WasmScanLimits.RetypedIsAccepted | src/wasm.rs:461-610 | a body whose arm replaces the value below it by one of another type is accepted |
| WasmScanLimits.ArmsCanRetype | src/wasm.rs:765-918 | every run of that body traps with a type mismatch |
| WasmInterpreter.ExecuteBurnsFuel | src/wasm.rs:778-783 | an instruction that goes on has burned one unit of fuel |
| WasmInstance.FindControlEnd | src/wasm.rs:612-651 | the scanning loop computes the scan |
| WasmInstance.Instance.Turn | src/wasm.rs:778-888 | one turn of the interpreter over its arrays is one execution step, the step whose meaning `ProgramsMeanWhatTheySay` fixes |
| WasmInstance.Instance.EnterBlock | src/wasm.rs:786-811 | entering a block pushes its frame and takes the branch, or traps, as the step says |
| WasmInstance.Instance.Call | src/wasm.rs:819-834 | a host call pops its arguments, lets the host act on memory and pushes its answer |
| WasmInstance.Instance.Run | src/wasm.rs:765-890 | a whole run over stack, control and memory arrays answers what the interpreter function answers; so encoded programs return their meaning; a cancelled instance refuses, changes nothing and stays cancelled |
| WasmInstance.Instance.CancelAndRun | src/wasm.rs:755-770 | once cancelled, a run with any host and fuel answers `Cancelled` and all that has changed is that the memory is dead |
| WasmLanguage.StoredIsLoaded | src/wasm.rs:838-851 | a stored 32-bit word is read back at its address and every byte elsewhere is as it was |
| WasmSkips.StmtSkipped | src/wasm.rs:612-651 | wherever the encoding of a statement stands in a body, the byte scan passes over it with its depth and its else unchanged |
| WasmMeaning.ExprRuns | src/wasm.rs:835-888 | evaluating an encoded expression of constants, `eqz`, sums, differences, products, loads and host calls leaves its value, computed on the syntax, on the stack, or stops with its trap |
| WasmMeaning.WideSumRuns | src/wasm.rs:852-876 | two 64-bit constants and their sum leave the sum modulo 2^64 on the stack |
| WasmPrograms.StmtRuns | src/wasm.rs:778-888 | executing an encoded statement of stores, drops, blocks and `if`s with one or two arms has its effect: the first arm is taken exactly on a condition other than zero |
| WasmPrograms.ProgramsRun | src/wasm.rs:765-890 | a run of an encoded program gives its meaning on the syntax, the value of its result expression or the trap on the way, for every fuel and memory and every host that answers in 32 bits |
| WasmAccepts.ProgramsMeanWhatTheySay | src/wasm.rs:461-890 | every program with at most 256 operands and fifteen blocks at a time is accepted by the verifier of a module with a memory and the host's `log`, and runs as it means, for every fuel and memory and every host that answers in 32 bits |
| FrameMemory.FreshFrameRises | src/memory.rs:87-99 | fresh frames are recorded pages and strictly rise, whatever the order and overlap of the ranges |
| FrameMemory.TakeFrameFacts | src/memory.rs:81-102 | a frame handed out was waiting on the return stack or never issued before, and is not waiting afterwards |
| FrameMemory.ReturnFacts | src/memory.rs:104-118 | returning an issued frame that is accepted keeps the pool good |
| FrameMemory.Memory.AllocFrame | src/memory.rs:81-102 | the allocator's loop over ranges takes the frame that the pool function takes |
| FrameMemory.Memory.FreeFrame | src/memory.rs:104-118 | a frame is accepted exactly when it is aligned, above 1 MiB, not waiting already and there is room |
| FrameMemory.Memory.PushRange | src/memory.rs:176-193 | a run is merged, appended or skipped, and the recorded pages grow by exactly that run or not at all |
| FrameMemory.Memory.FindGap | src/memory.rs:148-162 | the scan over the reserved ranges tells a covered cursor from a free one and how far it reaches |
| FrameMemory.Memory.Carve | src/memory.rs:147-173 | one turn of the carving loop adds exactly the free pages it passes and moves the cursor on |
| FrameMemory.Memory.AddAvailable | src/memory.rs:131-174 | the pages recorded for a region are exactly its aligned pages above 1 MiB that touch no reserved range, unless the table was full |
| FrameMemory.Memory.Init | src/memory.rs:49-79 | carving the whole memory map records exactly the free pages of all its regions |
| SpaceEffects.TakeEffect | src/memory.rs:81-102 | a frame is taken exactly when one is left: the newest one returned, or else the lowest page not yet issued of the first range that has one |
| SpaceEffects.MapPageEffect | src/address_space.rs:341-402 | a page is mapped exactly when the space stands, its rights are allowed, it is an unmapped user page other than the guard, and a slot and a frame are left; the pages then are those before and that one, with its rights, on the frame taken |
| SpaceEffects.MapPageRefusals | src/address_space.rs:341-370 | which refusal each bad request gets |
| SpaceEffects.RemoveMappingEffect | src/address_space.rs:404-424 | a mapped page is removed exactly when its frame can be returned, and no other page |
| SpaceEffects.UnmapEffect | src/address_space.rs:229-235 | a page that is not mapped is refused, and so is a page of the stack |
| SpaceEffects.MapStackEffect | src/address_space.rs:174-194 | a new stack is two writable pages right below the last page of user memory and a guard page below them |
| SpaceEffects.MapStackExactly | src/address_space.rs:174-194 | it succeeds exactly when both pages can be mapped in turn, and a failure leaves the pages as they were |
| SpaceEffects.GrowStackEffect | src/address_space.rs:200-214 | a fault on the guard of a stack of other than eight pages maps a page there exactly when one can be mapped and moves the guard one page down; any other fault changes nothing |
| FrameOwnership.MapPageKeeps | src/address_space.rs:341-402 | mapping a page in one space keeps every frame in one place |
| FrameOwnership.RemoveMappingKeeps | src/address_space.rs:404-424 | removing a mapping does |
| FrameOwnership.MapStackKeeps | src/address_space.rs:174-194 | mapping the stack, with its roll-back, does |
| FrameOwnership.GrowStackKeeps | src/address_space.rs:200-214 | growing the stack does |
| FrameOwnership.CreateKeeps | src/address_space.rs:137-152 | creating a space does |
| FrameOwnership.DestroyReturnsEveryFrame | src/address_space.rs:237-261 | destroying a space succeeds exactly when the return stack has room, and then returns exactly the frames it held |
| FrameOwnership.DestroyKeepsExactly | src/address_space.rs:237-261 | ownership survives the destruction of a standing space if and only if the return stack is full already or has room for every mapped frame |
| FrameOwnership.RunKeepsOwnership | src/address_space.rs:137-261 | over any interleaving on any number of spaces, while each destruction finds that room, no frame is held twice, or both held and waiting |
| FrameOwnership.RunKeepsOwnershipExactly | src/address_space.rs:137-261 | ownership holds at every step of a run if and only if every destruction in it finds that room |
| OwnershipLimits.OwnershipBreaks | src/address_space.rs:237-261 | two spaces are filled with 64 pages each and destroyed in turn; then a frame is both held and waiting |
| FrameAccounts.TakeConserves | src/memory.rs:81-102 | taking a frame moves it from the return stack or the fresh frames to its holder, and no other frame |
| FrameAccounts.BooksAreClear | src/memory.rs:81-118 | which frames are held follows from the allocator before and after, so frames that are lost cannot be accounted for otherwise |
| FrameAccounts.MadeAccounts | src/address_space.rs:137-402 | whatever a new space maps, with or without success, the frames drawn since are exactly those it holds and those waiting, and the return stack keeps room for all it holds |
| FrameAccounts.GivenUpConserves | src/address_space.rs:237-261 | so such a space can be destroyed at any time and then every frame drawn is waiting again |
| UserSpace.UserSpace.MapPage | src/address_space.rs:341-402 | the method maps as the function does and shows a zeroed page there and nothing new elsewhere |
| UserSpace.UserSpace.RemoveMapping | src/address_space.rs:404-424 | the page is gone and the others are untouched, or nothing changed |
| UserSpace.UserSpace.UnmapPage | src/address_space.rs:229-235 | the same, refusing stack pages |
| UserSpace.UserSpace.MapStack | src/address_space.rs:174-194 | both stack pages appear zeroed, or the roll-back of the function happened |
| UserSpace.UserSpace.GrowStack | src/address_space.rs:200-214 | a fault on the guard page shows a zeroed stack page there and the guard moves down; otherwise every page is as before |
| UserSpace.UserSpace.Destroy | src/address_space.rs:237-261 | the loop over the slots returns what the function returns |
| UserSpace.UserSpace.Load | src/address_space.rs:302-325 | the bytes stand at their addresses across page borders and every other byte and all rights are as before; it fails only where a page is missing or the addresses wrap |
| UserSpace.UserSpace.LoadWords | src/address_space.rs:327-339 | the same for little-endian words |
| Elf.ParsedPlanIsGood | src/elf.rs:294-441 | a parsed plan has one segment per loadable header, in order, disjoint runs of whole user pages, none writable and executable, with the entry in an executable one; `ParsesExactly` says which, for files laid out as bytes |
| Elf.ParseImage | src/elf.rs:294-441 | the parsing loop computes the parse function, whose answer on every file laid out as bytes `ParsesExactly` gives |
| ElfImage.ParsesExactly | src/elf.rs:294-441 | an ELF file laid out by the gABI is accepted if and only if its header and its loadable program headers meet the stated rules; the plan then has their segments in file order, each with its own rights, file range and page-rounded addresses, the number of their pages, and the file's entry moved by the bias |
| ElfImage.SegmentExactly | src/elf.rs:359-411 | one loadable header is accepted exactly when it is well placed, and becomes the segment it describes |
| ElfImage.TableReads | src/elf.rs:327-362 | the header table of such a file is read back field by field |
| Elf.FileOffsetOfSegment | src/elf.rs:104-117 | a segment's own contents are found at its own file offset |
| InitialStack.PlaceString | src/elf.rs:502-523 | a string and its NUL are copied below the cursor exactly when it has no NUL and there is room |
| InitialStack.StringsAreApart | src/elf.rs:502-523 | strings overlap neither each other nor the words nor the top |
| InitialStack.Build | src/elf.rs:140-229 | exactly the inputs that fit are accepted; then every pointer leads to its string, the words are in ABI order and the stack pointer is 16-aligned in the page |
| Loader.LoadSegments | src/user_runtime.rs:67-102 | every segment's pages hold its file contents and zeros behind them; it answers `BadState`, and drops the space, exactly when the path of its mappings meets a segment whose contents the image lacks; any other refusal destroys the space |
| Loader.LoadStack | src/user_runtime.rs:103-118 | the stack is mapped and its words, and nothing else, are written without disturbing the segments |
| Loader.Prepare | src/user_runtime.rs:58-126 | it succeeds if and only if the space, the segments and the stack can be mapped on the frames there are, the image holds the contents and the strings fit; then all segments, with their rights, and the words of the stack are loaded, the heap starts where the last of them ends and the frames drawn are the space's; it answers `BadState` and loses frames if and only if `Loses` held before the call, and any other failure leaves every frame drawn waiting again |
| LoadPath.StoppedLosesNothing | src/user_runtime.rs:76-82 | a page that cannot be mapped before the lack is noticed keeps the frames from being lost |
| LoadPath.EmptyImageLoses | src/user_runtime.rs:84-100 | a one-page program with an empty image, and an allocator with two frames, meet the condition |
| Loader.PrepareWithoutContents | src/user_runtime.rs:84-100 | preparing it answers `BadState` and its frames are not back |
| LoadedStack.StringsAreLostExactly | src/user_runtime.rs:114-118 | in the loaded stack page an argument or environment pointer leads to its string and NUL if and only if the string is empty |
| LoadedStack.ArgumentIsLost | src/user_runtime.rs:114-118 | a program started with the one argument "a" does not find it |
| NativeImage.LoadedAsLinkedExactly | src/user_runtime.rs:84-100 | file contents stand at the addresses the header names if and only if the address is page-aligned or the contents are all zero |
| NativeImage.MisalignedSegmentMoves | src/user_runtime.rs:84-100 | a segment one byte into a page is loaded wrong |
| NativeImage.LoadImage | src/service.rs:539-566 | parsing an image and preparing its program: it succeeds if and only if the image parses and its space, segments and stack can be mapped and the strings fit; every address of a loadable header has its rights, zeros stand behind its contents, and its bytes are read back at its addresses exactly when it is aligned or all zero, each string exactly when it is empty, and a refusal gives every frame back |
| Loader.NativeRuntime.Alloc | src/user_runtime.rs:175-198 | it succeeds if and only if the program runs, some bytes are asked for and the pages that hold them are user pages that can be mapped in turn; success adds just the blank pages that hold the bytes, failure leaves the heap's end and every page as they were |
| Heap.GrowHeap | src/user_runtime.rs:185-195 | either every page is mapped, which is so exactly when mapping them in turn succeeds, or the way back has unmapped all of them, although its answers are ignored |
| Heap.MapKeepsWayBack | src/user_runtime.rs:188-194 | a page mapped here never costs the return stack the room that unmapping it needs |
| Heap.UnmapWorks | src/user_runtime.rs:189-192 | with that room, unmapping a page of the heap succeeds |
| Fat32.OpenIsGood | src/fat32.rs:146-213 | an accepted boot sector gives a volume whose FAT covers every cluster and lies below the data |
| Fat32Files.ChainNeverRepeats | src/fat32.rs:378-395 | a chain that is accepted never visits a cluster twice |
| Fat32Files.WriteTouches | src/fat32.rs:397-427 | whatever its outcome a chain write changes sectors of the chain only |
| Fat32Files.WriteSucceeds | src/fat32.rs:397-427 | on an accepted chain with room a write fails only where the writer does |
| Fat32Files.WrittenIsRead | src/fat32.rs:343-427 | reading from where a finished write began returns what it wrote, up to any size |
| Fat32Files.FindSame | src/fat32.rs:285-341 | directory searches clear of the chain find the same entry after an overwrite, with the new size |
| Fat32Files.ResolveSame | src/fat32.rs:246-261 | a path clear of the chain resolves to the same file after an overwrite |
| Fat32Files.WriteFileTouches | src/fat32.rs:246-279 | whatever its outcome a file write changes only the file's chain and its entry's sector, and nothing when the path names no such file |
| Fat32Files.WriteThenRead | src/fat32.rs:226-279 | after a write that succeeds, reading the path returns the input up to its recorded 32-bit size; the FAT is unchanged and outside the chain only the entry's four size bytes differ |
| Fat32Volume.Volume.ChainCapacity | src/fat32.rs:378-395 | the loop counts the bytes of the chain, or fails as walking it does |
| Fat32Volume.Volume.WriteChain | src/fat32.rs:397-427 | the nested loops leave the disk and the answer of the write function |
| Fat32Volume.Volume.ReadChain | src/fat32.rs:343-376 | the nested loops copy the chain's bytes and leave the rest of the buffer alone |
| Fat32Volume.Volume.FindEntryLocation | src/fat32.rs:285-341 | the three nested loops find what the search function finds, which `DirectoryFinds` gives for every directory laid out as bytes |
| Fat32Volume.Volume.ReadFile | src/fat32.rs:226-244 | reading by path fills the buffer with what the read function returns, which `StoredIsRead` gives for every stored tree |
| Fat32Volume.Volume.WriteFile | src/fat32.rs:246-279 | writing by path leaves the disk and the answer of the write function, which `StoredIsWritten` and `WriteThenRead` describe |
| FatLayout.OpensExactly | src/fat32.rs:146-213 | a volume is opened if and only if its boot sector, laid out field by field, meets the stated rules, and with the geometry it states |
| FatChains.ChainIs | src/fat32.rs:429-447 | walking an allocation table that holds a chain, four bytes a cluster, gives that chain |
| FatChains.FileIsRead | src/fat32.rs:343-376 | a file whose chain's sectors hold some contents is read back as those contents up to its size |
| FatNames.SpellsExactly | src/fat32.rs:664-688 | the encoding of a long name equals a text exactly when the text decodes to its characters |
| FatNames.ChecksumIs | src/fat32.rs:656-662 | the short-name checksum is the byte-by-byte rotation and sum |
| FatDirectory.ShortReads | src/fat32.rs:315-325 | a short entry laid out as bytes gives its own directory bit, cluster and size |
| FatDirectory.ItemsSearched | src/fat32.rs:285-341 | searching the bytes of a list of entries, with long names of any length and deleted ones among them, stops at the short entry of the first one of that name, by long name or by short name in either case, and nowhere if there is none |
| FatTree.DirectoryFinds | src/fat32.rs:285-341 | searching a directory stored along a chain of clusters gives exactly the listed entry's directory bit, cluster and size, or `NotFound` |
| FatTree.StoredIsRead | src/fat32.rs:226-244 | on a volume that stores a tree of directories and files, reading a path gives the contents of the file it describes there, or the error that tells what is wrong with the path or the buffer |
| FatTree.StoredIsWritten | src/fat32.rs:246-279 | writing a path there is refused without a writer, gives the same errors for wrong paths, and, with a writer that takes the sectors of the file and of its entry, succeeds exactly when the input fits the file's clusters; otherwise it says `NoSpace` and changes nothing |
| FatFixture.FixtureIsRead | src/fat32.rs:473-594 | the sample volume opens, "/Long Name.txt" reads as its fourteen bytes, and a name that is not there is not found |
| Fat32Volume.SplitPath | src/fat32.rs:596-628 | the loop cuts a path into its non-empty pieces |
| RamfsPath.ParsePath | src/vfs.rs:1231-1274 | the nested loops compute the parse function, errors included |
| RamfsPath.ParsedNamesAreProper | src/vfs.rs:1231-1274 | parsed names are non-empty, short, free of slashes and NULs and not dots, and at most sixteen |
| RamfsPath.ParseRoundTrip | src/vfs.rs:1231-1274 | parsing the path that spells out proper names gives the names back |
| RamfsTree.NamedExactlyOnce | src/vfs.rs:1204-1229 | every inode in use but the root is named by exactly one slot, in its parent |
| RamfsTree.ClimbIsShort | src/vfs.rs:1343-1355 | no way to the root is longer than the table |
| RamfsTree.IsDescendantExactly | src/vfs.rs:1343-1355 | the bounded climb says exactly whether the ancestor is on the way to the root |
| RamfsTree.GainsIsTree | src/vfs.rs:1204-1229 | creating keeps a tree |
| RamfsTree.LosesIsTree | src/vfs.rs:861-898 | removing a childless inode keeps a tree |
| RamfsTree.ShiftsIsTree | src/vfs.rs:900-937 | moving an entry keeps a tree when its new directory is not below it |
| RamfsTree.RenameIsClear | src/vfs.rs:918-922 | the check before a rename makes sure of that |
| RamfsRuns.RunKeepsTree | src/vfs.rs:706-937 | after any run of creates, opens, closes, writes, removals and renames the table is a tree and open slots are on files in use |
| RamfsRuns.HandleStaysValid | src/vfs.rs:861-937 | a handle stays valid, on the same inode, until a close of its slot is accepted |
| RamfsRuns.AcceptedExactly | src/vfs.rs:861-937 | a handle is accepted after an operation if and only if it was and the operation did not close its slot, or the operation opened that inode in that slot |
| RamfsRuns.ClosedHandleReturns | src/vfs.rs:861-937 | opening a file, closing it and opening it again makes the first handle, refused in between, valid once more |
| RamfsRuns.CreateThenLookup | src/vfs.rs:1204-1229 | after a create the path leads to the new inode |
| RamfsRuns.UnlinkThenLookup | src/vfs.rs:861-878 | after an unlink the path leads nowhere |
| RamfsRuns.RenameMoves | src/vfs.rs:900-937 | after a rename the new path leads to what the old one did and the old one leads nowhere |
| RamfsRuns.WriteOverlays | src/vfs.rs:788-816 | a write lays its bytes over the file, zero-filling a gap, and touches no other inode |
| RamfsRuns.ReadIsContent | src/vfs.rs:767-786 | a read returns the file's bytes at the offset and moves it |
| RamfsRuns.WriteThenRead | src/vfs.rs:767-816 | what is written through one handle is read through any other on the same inode |
| RamfsView.OnePath | src/vfs.rs:1204-1229 | in the tree only one path leads to an inode |
| RamfsView.MakeDirectoryEffect | src/vfs.rs:851-859 | a folder of mode 755 appears at the path and every other path shows what it did; a refusal changes nothing |
| RamfsView.UnlinkEffect | src/vfs.rs:861-878 | a document leaves its path and every other path shows what it did |
| RamfsView.RemoveDirectoryEffect | src/vfs.rs:880-898 | an empty folder leaves its path and every other path shows what it did |
| RamfsView.RenameEffect | src/vfs.rs:900-937 | what stood at and beneath one path shows at and beneath the other, where nothing stood, nothing shows at or beneath the first, and every other path shows what it did |
| RamfsView.WriteEffect | src/vfs.rs:788-816 | a write succeeds exactly through an accepted handle that may write and within 4096 bytes; the bytes are laid over the document at the one path that leads to it and every other path shows what it did |
| RamfsView.ChmodEffect | src/vfs.rs:840-849 | the nine mode bits are set exactly where something stands, and nowhere else |
| RamfsView.OpenEffect | src/vfs.rs:706-756 | a folder is not opened; a document is opened exactly when some digit of its mode has the bits asked for and a handle is free, at its start, with the rights asked for, in the lowest free slot |
| RamfsView.OpenCreatesEffect | src/vfs.rs:706-756 | opening where nothing stands makes an empty document of mode 644 there, if allowed to, and every other path shows what it did |
| RamfsAnswers.MakeDirectoryExactly | src/vfs.rs:851-859 | it succeeds if and only if nothing stands at the path, the path ends in a folder with a free slot and an inode is left |
| RamfsAnswers.UnlinkExactly | src/vfs.rs:861-878 | it succeeds if and only if a document stands there that no handle is open on |
| RamfsAnswers.RemoveDirectoryExactly | src/vfs.rs:880-898 | it succeeds if and only if a folder other than the root stands there with nothing in it |
| RamfsAnswers.RenameExactly | src/vfs.rs:900-937 | it succeeds if and only if something other than the root stands at the one path and nothing at the other, the other ends in a folder, does not lead through the first, and that folder is the same or has room |
| RamfsAnswers.OpenCreatesExactly | src/vfs.rs:706-756 | opening where nothing stands succeeds if and only if creating is allowed and possible there and a handle is free |
| RamfsStore.Store.IsDescendantOf | src/vfs.rs:1343-1355 | the loop computes the bounded climb |
| RamfsStore.Store.CreateNodeAt | src/vfs.rs:1204-1229 | creating in the static table does what the function does and keeps the tree |
| RamfsStore.Store.Unlink | src/vfs.rs:861-878 | so does unlinking |
| RamfsStore.Store.RemoveDirectory | src/vfs.rs:880-898 | so does removing a directory |
| RamfsStore.Store.Rename | src/vfs.rs:900-937 | so does renaming |
| RamfsStore.Store.Open | src/vfs.rs:706-756 | so does opening, with its create and its handle slot |
| RamfsStore.Store.Close | src/vfs.rs:758-765 | so does closing |
| RamfsStore.Store.WriteHandle | src/vfs.rs:788-816 | so does writing through a handle |
| Btrfs.WalkFollows | src/btrfs.rs:386-429 | what the visitor was shown is always the start of the recursive left-to-right enumeration, and all of it when the walk ends by itself |
| Btrfs.WalkCompletes | src/btrfs.rs:386-429 | a walk within the limits that the visitor does not stop shows the whole enumeration |
| Btrfs.WalkSucceedsExactly | src/btrfs.rs:386-429 | on any block graph the walk succeeds if and only if the recursion enumerates it within the limits |
| BtrfsImage.BranchDecodes | src/btrfs.rs:403-428 | an inner node laid out as bytes is taken for its children's addresses, in order |
| BtrfsImage.StoredTreeIsWalked | src/btrfs.rs:386-429 | on a disk that stores a tree of such blocks within the limits, the walk shows its leaves from left to right |
| Btrfs.WalkLeaves | src/btrfs.rs:386-429 | the loop over the pending array stays in bounds, ends within the limit and computes the walk |
| NetChecksum.VerifiesExactly | src/net.rs:1035-1045 | a sum verifies exactly when it is a positive multiple of 65535 |
| NetChecksum.Checksum | src/net.rs:1035-1045 | the folding loop computes the complement of the one's-complement sum, odd lengths included |
| NetChecksum.TransportChecksum | src/net.rs:1047-1068 | the same over the pseudo-header and the segment |
| NetFrames.Ipv4RoundTrip | src/net.rs:721-957 | a frame that was built has receiver, sender, type and every IPv4 field at its place on the wire, and parses as the Ethernet frame and the IPv4 packet it was built for |
| NetFrames.UdpRoundTrip | src/net.rs:721-984 | a UDP frame has every field of its three headers at its place on the wire and parses, checksums included, to the same addresses, ports and payload |
| NetFrames.TcpRoundTrip | src/net.rs:721-1013 | a TCP frame has every field of its three headers, the window among them, at its place on the wire and parses to the same fields and payload, flags cut to their low byte |
| NetFrames.IcmpReplyRoundTrip | src/net.rs:721-866 | an echo reply has its headers' fields at their places on the wire, verifies and carries the request's identifier, number and data |
| NetFrames.Ipv4ParsesExactly | src/net.rs:932-957 | a frame parses as an IPv4 packet if and only if it carries one: its fields on the wire, a header that sums to a positive multiple of 65535 and a payload inside the frame |
| NetFrames.UdpParsesExactly | src/net.rs:959-984 | the same of a UDP datagram, whose checksum is absent or right |
| NetFrames.TcpParsesExactly | src/net.rs:986-1013 | the same of a TCP segment |
| NetBuild.BuildIpv4Header | src/net.rs:735-762 | the header is written in place with its checksum and nothing else is touched |
| NetBuild.BuildUdpFrame | src/net.rs:796-833 | the UDP frame, whose bytes `UdpRoundTrip` places, is written at the front of the buffer exactly when it fits |
| NetBuild.BuildTcpFrame | src/net.rs:868-915 | the TCP frame, whose bytes `TcpRoundTrip` places, is written at the front of the buffer exactly when it fits |
| NetBuild.BuildIpv4Frame | src/net.rs:765-794 | an IPv4 frame, whose bytes `Ipv4RoundTrip` places, is written at the front of the buffer exactly when it fits |
| NetBuild.BuildIcmpReply | src/net.rs:835-866 | the echo reply, whose bytes `IcmpReplyRoundTrip` places, is written exactly when the request is long enough and it fits |
| ProcessInvariant.AddsKeeps | src/process.rs:254-297 | creating a process keeps the table consistent |
| ProcessInvariant.ExitsKeeps | src/process.rs:305-333 | an exit does: its threads exit, its descriptors close and its children go to init |
| ProcessInvariant.DropsKeeps | src/process.rs:615-636 | reaping does |
| ProcessInvariant.MildKeeps | src/process.rs:363-419 | descriptor and thread state changes do |
| ProcessInvariant.FreeThreadsFrees | src/process.rs:621-630 | reaping frees exactly the threads of the process, each slot a generation older, or runs out of generations |
| ProcessRuns.RunKeepsGood | src/process.rs:254-636 | in every run that never runs out of generations, records name each other, every process but init has a live running parent and a way to init, and the dead have only exited threads and no descriptors |
| ProcessIds.ReapedIdIsGone | src/process.rs:335-361 | in every run, even past exhausted generations, a process whose status was delivered is refused for ever, its id never issued again and its status never delivered again |
| ProcessIds.ReapedThreadIsGone | src/process.rs:615-636 | in every such run the ids of the threads that process listed are never found or issued again |
| ProcessLimits.ReapExhaustsExactly | src/process.rs:615-636 | reaping a dead process runs out of generations if and only if its slot or the slot of a thread it lists is at 65535, and otherwise succeeds |
| ProcessLimits.ThreadLimitLeaves | src/process.rs:621-629 | a thread slot at the limit leaves the dead process listing a thread that is gone and whose id its slot gives out next |
| ProcessLimits.ProcessLimitLeaves | src/process.rs:630-634 | a process slot at the limit leaves a good table in which the next process there gets the dead one's id |
| ProcessLimits.IdIsReissued | src/process.rs:335-361 | a parent that waits for such a child gets an error, and its next child in that slot the same id |
| ProcessLimits.ShortRunsAreClean | src/process.rs:254-636 | a run from the empty table with fewer than 65536 waits never runs out of generations |
| ProcessLimits.ShortCallsGoOn | src/process.rs:692-858 | neither does any sequence of runtime calls with fewer than 65536 waits |
| ProcessWear.IdLivesTwice | src/process.rs:254-636 | a run from the empty table with 65536 waits issues one id twice, and it exits twice |
| ProcessRuns.ExitsOnce | src/process.rs:305-333 | in a run that never runs out of generations a process exits at most once |
| ProcessRuns.DeliveredStatusIsGiven | src/process.rs:335-361 | in such a run from the empty table a delivered status is the one given to the only exit of that process |
| ProcessRuntime.NoDeadThreadRuns | src/process.rs:692-858 | no ready or running thread belongs to a dead process |
| ProcessRuntime.SwitchIsSole | src/process.rs:535-559 | a switch from the sole runner leaves the other one the sole runner |
| ProcessRuntime.OneRunningThread | src/process.rs:692-858 | after start-up, whatever calls are made while no wait runs out of generations, the current thread is the only running one and its owner is current, or none runs |
| ProcessRuntime.YieldKeeps | src/process.rs:825-841 | yielding keeps that and succeeds whenever a thread is current; `YieldEffect` says what it does |
| ProcessRuntime.SleepKeeps | src/process.rs:843-858 | sleeping does too |
| ProcessEffects.YieldEffect | src/process.rs:825-841 | let the lowest ready slot be given: with none, or if it holds init's thread and the caller is not init, a yield changes nothing; otherwise that slot's thread and its owner are current and running, the caller is ready, and every other record is as before |
| ProcessEffects.SleepEffect | src/process.rs:843-858 | the same with the caller asleep, init's thread included, and nothing changed when no thread is ready |
| ProcessEffects.NobodyYields | src/process.rs:825-858 | with nothing running both are refused |
| ProcessEffects.ReadyInitStopsYields | src/process.rs:831-836 | while init's thread is the first ready one, no number of yields by another process changes anything |
| ProcessEffects.SwitchToUserEffect | src/process.rs:740-752 | it succeeds if and only if something runs and the thread is a ready user thread of that process; that thread and process are current then, the caller is ready, and every other record is as before |
| ProcessEffects.RestoreInitEffect | src/process.rs:754-768 | it succeeds if and only if nothing runs and init's thread is ready, which is current then, and every other record is as before |
| ProcessEffects.ExitCurrentEffect | src/process.rs:779-793 | afterwards nothing runs: init's thread has exited, or the process has departed whole |
| ProcessEffects.SpawnEffect | src/process.rs:272-297 | a running process gets a child in the lowest free slot, with one ready thread in the lowest free thread slot, ids from slots and generations and the three standard descriptors, exactly when both slots are there, and every other record is as before |
| ProcessEffects.ExitEffect | src/process.rs:305-333 | it succeeds exactly for a running process other than init: dead with its status and no descriptors, its threads exited, its children init's, and every other record as before |
| ProcessEffects.WaitEffect | src/process.rs:335-361 | waiting for a dead child, or for any, delivers its status, the lowest slot's for any, and the child is gone with its threads, unless a generation is at its limit |
| ProcessEffects.NothingToWaitFor | src/process.rs:335-361 | with no such child waiting changes nothing and says why |
| ProcessEffects.OpenFdEffect | src/process.rs:363-387 | opening takes the lowest free number, or none is free, and changes no other |
| ProcessEffects.CloseFdEffect | src/process.rs:389-393 | closing works exactly on an open number, which is free then |
| ProcessEffects.SetCloseOnExecEffect | src/process.rs:395-407 | so does marking it for exec |
| ProcessEffects.CloseOnExecEffect | src/process.rs:409-419 | an exec closes exactly the marked numbers and tells how many |
| ProcessEffects.StateEffects | src/process.rs:503-533 | a ready or running thread can be blocked or put to sleep, a blocked or sleeping one woken, a running one preempted; nothing else works or changes |
| ProcessStore.Store.CreateAt | src/process.rs:272-297 | creating in the arrays, with its way back, does what the function does |
| ProcessStore.Store.Exit | src/process.rs:305-333 | the two loops of an exit do what the function does |
| ProcessStore.Store.Reap | src/process.rs:615-636 | the reaping loop does what the function does, half-done on exhausted generations |
| ProcessStore.Store.Wait | src/process.rs:335-361 | waiting for one child or any does what the function does |
| ProcessStore.Store.SwitchTo | src/process.rs:535-559 | so does switching |
| ProcessStore.Store.CloseOnExec | src/process.rs:409-419 | the loop closes and counts the marked descriptors |
| ProcessKernel.Kernel.constructor | src/process.rs:705-720 | start-up gives the first runtime |
| ProcessKernel.Kernel.SwitchToUser | src/process.rs:740-752 | switching to a user thread in place does what the function does and keeps one runner |
| ProcessKernel.Kernel.ExitCurrent | src/process.rs:779-793 | so does exiting |
| ProcessKernel.Kernel.WaitCurrent | src/process.rs:795-803 | so does waiting, unless generations run out |
| ProcessKernel.Kernel.YieldCurrent | src/process.rs:825-841 | yielding in place does what the function of `YieldEffect` does |
| ProcessKernel.Kernel.SleepCurrent | src/process.rs:843-858 | sleeping in place does what the function of `SleepEffect` does |
| Scheduler.FairAtEveryTick | src/sched.rs:149-169 | at every tick the key a task had before its last charge is no greater than any key there is now |
| Scheduler.EqualWeightsStayClose | src/sched.rs:108-134 | tasks of equal weight up to 1024 are never more than two charged ticks apart |
| Scheduler.NoTaskStarves | src/sched.rs:81-126 | every task has run more than any given number of ticks by a tick that its own key fixes |
| SchedulerStore.Store.PickNext | src/sched.rs:81-98 | the loop finds the first of the least keys |
| SchedulerStore.Store.ChargeTask | src/sched.rs:108-126 | the loop charges the first task with the id and the clock |
| SchedulerStore.Store.OnTimerTick | src/sched.rs:160-169 | a timer tick charges the current task and picks the next |
| VirtioRing.PublishKeeps | src/drivers/network.rs:299-305 | publishing adds one descriptor and overwrites none that is not fetched, across index wrap-around |
| VirtioRing.TakeKeeps | src/drivers/network.rs:307-321 | a look at the used ring returns the oldest completion not consumed, exactly when there is one |
| VirtioRing.CompleteKeeps | src/drivers/network.rs:307-321 | a completion by the device overwrites none that is not consumed |
| VirtioDriver.EveryRxRun | src/drivers/network.rs:593-620 | whatever the device does the receive side stays good |
| VirtioDriver.OnePlaceEach | src/drivers/network.rs:593-620 | a receive descriptor is posted, with the device, completed or in hand, and never two of these |
| VirtioDriver.RxTakesInOrder | src/drivers/network.rs:593-597 | completions are consumed exactly once and in order |
| VirtioDriver.EveryTxRun | src/drivers/network.rs:531-591 | whatever the device does the transmit side stays good |
| VirtioDriver.BufferIsOursWhenWritten | src/drivers/network.rs:566-591 | the transmit buffer is written only while nothing is posted, held or completed |
| VirtioDriver.DeviceReadsWhatWasSent | src/drivers/network.rs:566-591 | while the device can read the buffer it holds the packet sent last |
| VirtioDriver.LayoutFits | src/drivers/network.rs:666-675 | the rings lie in the queue's pages without overlap and the size divides the index range |
| VirtioNetwork.RingMemory.Publish | src/drivers/network.rs:299-305 | publishing in ring memory does what the function does |
| VirtioNetwork.RingMemory.TakeUsed | src/drivers/network.rs:307-321 | taking a completion does what the function does |
| VirtioNetwork.Receiver.Receive | src/drivers/network.rs:593-620 | the oldest packet is copied out, or refused for a stated reason, and its buffer posted again in every case |
| VirtioNetwork.Sender.Poll | src/drivers/network.rs:555-563 | every completion is consumed |
| VirtioNetwork.Sender.Transmit | src/drivers/network.rs:566-591 | a packet is sent exactly when it is valid and the device holds none |
| Ps2Ring.EveryInterleaving | src/drivers/ps2.rs:528-575 | under every interleaving what was taken is the start of what was accepted, at most 127 bytes are held, offers are accepted or dropped, and no slot is read while it is written |
| Ps2Ring.DropsWhenFull | src/drivers/ps2.rs:536-561 | a byte is dropped exactly when 127 are held |
| Ps2Ring.EmptyWhenNoneHeld | src/drivers/ps2.rs:563-575 | a reader finds nothing exactly when nothing is held |
| Ps2Ring.ByteRing.Enqueue | src/drivers/ps2.rs:536-561 | an undisturbed enqueue appends the byte or counts it as dropped |
| Ps2Ring.ByteRing.Dequeue | src/drivers/ps2.rs:563-575 | an undisturbed dequeue takes the oldest byte held |

## Left out

- Parsing of WebAssembly modules, their imports, data and profile sections: mostly one-step bounds checks.
- WasmPrograms.ProgramsRun: stated for programs over i32 values; the one 64-bit instruction, a sum, is `WasmMeaning.WideSumRuns`, because the scan misreads 64-bit constants inside blocks.
- Host functions: a host is any function from a call to an answer and new memory of the same size.
- Page tables, activation and address-space randomisation: a space is its table of mappings; the x86-64 limit is used.
- Starting, exiting and serial output of a native program: single calls on the models above.
- Dynamic linking and interpreter selection of ELF images.
- FAT32: a disk is a map of sectors that read the same each time; a writer accepts a fixed set of sectors.
- FAT32 cluster numbers below 2 in directory entries: the sector computation is modelled with 64-bit wrap-around, as in a build without overflow checks.
- VFS mounts, namespaces, dentries and read-only flags: a path is resolved in the inode table alone.
- FAT32 names with a character of value 0 or 0xffff, and base names or extensions with spaces inside: the reader ends or drops there; the layouts of `FatNames` have none.
- btrfs chunk mapping, checksums and item parsing: reading a block is any function of its number.
- Process credentials, signals, events and thread accounting.
- `with_process_table`, which hands the raw table to any caller, is not one of the runtime calls.
- Scheduler.FairAtEveryTick: stated up to 2^53 ticks, because beyond that the scheduler's 64-bit sums can overflow.
- ARP, DHCP, DNS and TCP sessions: timers and single-slot buffers.
- Virtio device setup, DMA synchronisation and port writes: taken to succeed; a device completes only descriptors it holds.
- Memory ordering of the PS/2 ring: steps interleave one at a time.

# Verified models of Eo9's storage engine, configuration compiler, algebra and wire protocols

This project restates the hardest parts of the Eo9 repository in Dafny and proves what their
design promises. Each file is one module.

**The eofs storage engine** (`crates/eo9-eofs`). A copy-on-write block store with Merkle-hashed
block trees on a device whose power can fail in the middle of any write.

- `Bytes`, `Arith`, `Utf8`: bytes, little-endian words, division, UTF-8.
- `Format`: block pointers, object references, uberblocks and the classification of a slot.
- `Space`: the allocator, as a value (`Space.Space`) and as the class that edits its free list in place.
- `Device`: the write semantics of a memory device and of a device that is cut off after a
  number of writes, tearing the last one; and what of it is durable.
- `BlockTree`: what a stored block reads as, what a tree flattens to, when an object holds a
  byte string, and what keeps that true. `Content`: splicing, ranges, and authenticity.
- `Engine`: the class `Eofs`, whose methods read and write objects on the cut-off device.
- `Election`, `PowerLoss`, `Crash`: torn commits, what is left when the device loses any of what was not
  flushed, mounting, whole runs of writes, whole transactions.
- `Gc`: marking and sweeping. `Reach`: what a directory tree reaches, and the worklist that marks it.
  `Reclaim`: a collection from all roots. `Interleaved`: a transaction with a collection in its middle.
  `Sessions`: formatting, and the life of an image over any number of mounts, collections,
  transactions and power cuts.
- `Directory`: the directory and snapshot encodings. `Layouts`: all records as numbers and bytes at
  fixed offsets.
- `Observed`: what a client of the engine sees, in bytes and numbers.

The central notion is `Evolves`: a step may change only bytes the allocator could still hand out,
and only shrinks that set. Every method of `Eofs` that writes ensures it, whether it succeeds or
the power fails inside it, so everything reachable from retained roots survives every run. What
holds between sessions is `Sessions.Consistent`: formatting establishes it, every session keeps
it wherever it is cut, and it is what the next session starts from. A cut is not the worst: between
two flushes the device may lose any writes, tear them anywhere, and do them in any order
(`Device.MayRemain`), and the same holds of whatever it leaves.

**Compose-time configuration** (`crates/eo9-component/src/configure.rs`, `synth.rs`).

- `CanonicalAbi`: value types, their layout, and the callee's loads and lifts.
- `Baking`, `Flattening`: the cells and flat constants a value is laid down as, and the proof
  that loading or lifting them gives the value back, for every nesting of types.
- `Lowering`: the class `Lowerer` with its arena and relocations, proved to produce those cells.
- `Configure`: argument checking, memory layout, and the whole pipeline (`Bake`).
- `Binding`, `BindRuns`: the instructions of the bind entrypoints, an interpreter for them, and
  what any number of calls to the entrypoint of any composition does. `ResultArea`: for which
  result types of `configure` the area it writes reads as the outcome of `bind`.

**The composition algebra** (`compose.rs`, `slots.rs`, `semver.rs`): `Semver`; `Algebra`, what `$` and
`&` make of two components, as sets and as the loops that compute them; `Composites`, what is open,
exported and refused, name by name; `Laws`, exactly when groupings agree.

**The serial loader** (`boards/opi5-serial-loader`): `Polynomial`, division of bit polynomials by the
generator of section 3.2.9 of IEEE 802.3; `Crc`, the checksum, proved to be the remainder; `SerialStub`,
`SerialFrame`, `SerialLink`; `SerialStall`, the same link when either side may time out at any moment;
`SerialWire`, what passes over the line.

**Two wire decoders**: `Chunked` (section 7.1 of RFC 9112) with `SizeLines`, and `Dns` (sections 4.1.1 to
4.1.4 of RFC 1035).

Where a computation and the function that specifies it share a definition (a constant, a limit, a
layout, the choice of an extent or an import), some lemma states the outcome without it:
`Crc.Crc32IsRemainder`, `Space.AllocateLowest`, `Configure.CoreTypesMatch`, `Composites.OpenIff`,
`BindRuns.ProvidersFirst`, and all of `Layouts`, `Observed`, `SerialWire` and `SizeLines`.

Assumptions are parameters, never axioms. `Primitives` carries blake3 and lz4 as functions, of
which `Lawful` says that decompression undoes compression and that compressed output is not empty;
where a hash collision matters the hypothesis names the blocks or the torn prefix it is about.
Textual WAVE parsing is a function whose results have the parsed type.

What turned out not to hold of the code as one might hope:

- A range read of an object with a short data block panics or never ends; no check keeps such
  objects out, only the writer does not make them: `Content.RangeEndsIff` gives the exact
  condition, `Content.ShortBlockStops` an image and two ranges.
- A mount does not check that the recorded frontier is aligned: `Crash.Mount` gives the exact
  condition under which the mounted engine is sound, `Crash.MisalignedFrontier` an image.
- The comment at `crates/eo9-eofs/src/space.rs:83-84` says that garbage collection always builds a
  sorted, aligned free list below the frontier. On a damaged image it need not:
  `Gc.SweepSoundIff` gives the exact condition on the marks, `Gc.StrayMark` an object reference
  that is marked without complaint and breaks it.
- A baked arena of more than one 64 KiB page (up to the 64 MiB limit) is accepted, but the
  binder declares a one-page memory, so the component cannot be instantiated:
  `Configure.Bake` gives the exact condition, `Configure.OversizeConstant` an input.
- A binder whose `configure` has no indirect result reports success when `configure` fails:
  `BindRuns.FailureStopsIff` gives the exact condition, `BindRuns.FailureUnseen` an input.
- A binder returns the area of `configure`'s result as its own without looking at the type. A
  refusal arrives unchanged exactly when the error is a string and the success payload needs no
  alignment above 4: `ResultArea.StandsIff`; `ResultArea.WideOkMisread` and
  `ResultArea.OtherErrorLost` are memories on which it does not.
- The action law as `crates/eo9-component/src/compose.rs:206-211` gives it carries no conditions.
  Shadowing by slot name alone breaks it when the layer's version is older, so does leaving
  out a types-only import, and so does the refusal of a provider that seals nothing and must first
  be configured: `Laws.ActionLawExact` gives the exact condition, refusals included;
  `Laws.OlderLayerBreaks`, `Laws.SkipBreaks`, `Laws.UnconfiguredBreaks` and
  `Laws.RefusedAtOnceBreaks` are components on which it fails.
- The stub's header check admits an address range that wraps around past the stub's own home:
  `SerialFrame.GuardHitIff` gives the exact condition, `SerialFrame.WrapOverwrites` a header.
- After a stall the stub hears a frame contained in the payload as a frame, and may run it:
  `SerialStall.EmbeddedFrame`. The sender is not misled, for the stall is the first verdict it reads:
  `SerialStall.VerdictHonest`.
- The comment at `crates/eo9-component/src/semver.rs:58-60` says that an unversioned export
  satisfies any requirement; the code at lines 65-68 refuses it, and the model follows the code:
  `Semver.UnversionedProvides`, `Semver.UnversionedMatches`.

## Model

| member | source | states |
|---|---|---|
| Bytes.LeRoundTrip | crates/eo9-eofs/src/format.rs:140-147 | a little-endian field reads back as the number written |
| Bytes.LeInjective | crates/eo9-eofs/src/format.rs:140-147 | two numbers of a width never share their bytes |
| Format.BlockPtr.WriteTo | crates/eo9-eofs/src/format.rs:140-148 | fills exactly its 56 bytes of the buffer and leaves the rest |
| Format.PtrRoundTrip | crates/eo9-eofs/src/format.rs:140-168 | decoding an encoded block pointer gives it back |
| Format.ObjRef.WriteTo | crates/eo9-eofs/src/format.rs:189-195 | fills exactly its 72 bytes of the buffer and leaves the rest |
| Format.ObjRoundTrip | crates/eo9-eofs/src/format.rs:189-205 | decoding an encoded object reference gives it back |
| Format.Uberblock.ToSlotBytes | crates/eo9-eofs/src/format.rs:230-247 | the field-by-field fill of a fresh slot gives the slot encoding |
| Format.ParseBody | crates/eo9-eofs/src/format.rs:263-293 | any slot whose first 192 bytes are a body parses as that uberblock |
| Format.SlotRoundTrip | crates/eo9-eofs/src/format.rs:230-293 | a written slot classifies as that valid uberblock |
| Space.AllocateSound | crates/eo9-eofs/src/space.rs:58-81 | a success is aligned, in range, takes exactly its bytes out of what is available, keeps the free list sorted, apart and aligned, and lowers the room by the aligned length; a failure changes nothing |
| Space.AllocateFails | crates/eo9-eofs/src/space.rs:58-81 | there is no space exactly when no free extent fits and the frontier append does not fit |
| Space.AllocateShrinks | crates/eo9-eofs/src/space.rs:58-81 | an allocation leaves only parts of extents that were free, and never takes the frontier back |
| Space.AllocateLowest | crates/eo9-eofs/src/space.rs:58-81 | a success takes the lowest free extent that is long enough, leaving the frontier, and shrinks no other; only when none is does it take the frontier, leaving the free list |
| Space.RunSound | crates/eo9-eofs/src/space.rs:46-87 | over any sequence of allocations the extents handed out are apart, were available and no longer are, and the room falls by their sum |
| Space.FrontierLast | crates/eo9-eofs/src/space.rs:58-81 | over any sequence of allocations the frontier moves only for a request that no free extent fits, and the free list changes only for one that some free extent fits |
| Space.Allocator.Allocate | crates/eo9-eofs/src/space.rs:58-81 | the in-place scan and edit does what the value-level allocation says, which is first fit: the lowest free extent that is long enough, and the frontier only when there is none |
| Space.Allocator.SetFree | crates/eo9-eofs/src/space.rs:85-87 | installs the free list and nothing else |
| Device.MemDevice.ReadAt | crates/eo9-eofs/src/device.rs:216-221 | reads the slice, or is out of range |
| Device.MemDevice.WriteAt | crates/eo9-eofs/src/device.rs:223-228 | overwrites the slice in place, or changes nothing when out of range |
| Device.CutDevice.WriteAt | crates/eo9-eofs/src/device.rs:303-322 | counts down to the cut, then lets a torn prefix through once and is dead |
| Device.CutDevice.Flush | crates/eo9-eofs/src/device.rs:324-329 | fails exactly when the power is gone, and otherwise makes all that was written durable |
| Device.WriteContract | crates/eo9-eofs/src/device.rs:303-322 | a success wrote it all; a failure wrote nothing or the torn prefix; no other byte changes; an in-range failure means the device is dead |
| Device.Unreached | crates/eo9-eofs/src/device.rs:46-47 | what no write since the last flush has reached is durable |
| Device.NotedRemains | crates/eo9-eofs/src/device.rs:303-322 | the image as the simulator tears it is among those that a loss of power may leave |
| BlockTree.LevelIsLeast | crates/eo9-eofs/src/tree.rs:109-137 | repeated ceiling division gives the least height that holds the data blocks |
| BlockTree.LevelIs | crates/eo9-eofs/src/tree.rs:109-137 | the least height is unique |
| BlockTree.LevelFits | crates/eo9-eofs/src/tree.rs:187-216 | the height of any tree fits the stored byte |
| BlockTree.ReadBlockFrame | crates/eo9-eofs/src/tree.rs:56-98 | a retained block reads the same after any step that writes only available space |
| BlockTree.FlattenFrame | crates/eo9-eofs/src/tree.rs:156-184 | a tree whose indirect blocks are retained flattens the same after such a step |
| BlockTree.ObjectSurvives | crates/eo9-eofs/src/tree.rs:27-51 | an object on retained blocks keeps its exact content, and stays retained |
| BlockTree.ExhaustedStays | crates/eo9-eofs/src/space.rs:58-81 | once some block of legal size cannot be placed, none of the later allocations makes room for it |
| BlockTree.UnitsUsed | crates/eo9-eofs/src/tree.rs:119-122 | data blocks at distinct aligned addresses start in that many distinct allocation units |
| BlockTree.LeavesFit | crates/eo9-eofs/src/tree.rs:119-122 | so an object never has more data blocks than the reader's limit allows |
| BlockTree.SeenAll | crates/eo9-eofs/src/tree.rs:156-184 | a walk without a fault meets exactly the tree's data blocks |
| BlockTree.CollectsIff | crates/eo9-eofs/src/tree.rs:139-151 | an object's data blocks can be collected exactly when its reference is sane, its tree flattens, and their number is right |
| Content.SplicedBlock | crates/eo9-eofs/src/tree.rs:287-314 | the assembled buffer is the block of the spliced content, with gaps zero-filled |
| Content.UntouchedBlock | crates/eo9-eofs/src/tree.rs:295-301 | a block neither overlapped nor resized is the same block of the new content |
| Content.RangeIsSlice | crates/eo9-eofs/src/tree.rs:240-263 | reading a range of an object's blocks gives exactly that slice of its content |
| Content.HeldLeavesAreFull | crates/eo9-eofs/src/tree.rs:252-261 | the data blocks of a written object have the sizes the reader's progress relies on |
| Content.RangeEndsIff | crates/eo9-eofs/src/tree.rs:252-261 | a range read comes to an end exactly when, up to the first unreadable one, each data block of the range reaches its full size or the range's end; it panics exactly when the first is shorter than the offset wanted in it |
| Content.ShortBlockStops | crates/eo9-eofs/src/tree.rs:252-261 | an image and an accepted object of three bytes of which one range never ends and another panics |
| Content.HoldsOne | crates/eo9-eofs/src/tree.rs:139-151 | an image holds at most one content under a reference |
| Content.FinishWrite | crates/eo9-eofs/src/tree.rs:269-318 | rewritten data blocks under a new tree are the spliced object, old untouched pointers kept |
| Content.SameBlock | crates/eo9-eofs/src/tree.rs:56-98 | without a collision, two successful reads through one pointer agree |
| Content.SameTree | crates/eo9-eofs/src/tree.rs:156-184 | without a collision, one root flattens to the same data blocks on any two devices |
| Content.SameRange | crates/eo9-eofs/src/tree.rs:240-263 | without a collision, two successful range reads agree |
| Content.Authentic | crates/eo9-eofs/src/tree.rs:139-263 | reading a written reference on any device that has been corrupted at will comes to an end, with the original bytes or an error |
| Engine.WriteBlockSound | crates/eo9-eofs/src/tree.rs:27-51 | allocating, storing and pointing at a block changes available space only, and the pointer reads back the block |
| Engine.Eofs.WriteBlock | crates/eo9-eofs/src/tree.rs:27-51 | writes a block into available space, or fails for lack of space or power |
| Engine.Eofs.ReadBlock | crates/eo9-eofs/src/tree.rs:56-98 | checks, fetches, decodes and hashes in order, with each failure's own error |
| Engine.Eofs.CanonicalLevel | crates/eo9-eofs/src/tree.rs:123-131 | the saturating loop finds the least height |
| Engine.Eofs.CheckObject | crates/eo9-eofs/src/tree.rs:109-137 | accepts exactly the sane references, with the data-block count |
| Engine.Eofs.CollectLevel | crates/eo9-eofs/src/tree.rs:156-184 | pushes the data-block pointers met up to the first fault or the limit, and reports whichever comes first, within a bounded number of reads on any image |
| Engine.Eofs.CollectChildren | crates/eo9-eofs/src/tree.rs:172-182 | walks the packed pointers one after the other under the same bound |
| Engine.Eofs.CollectLeaves | crates/eo9-eofs/src/tree.rs:139-151 | succeeds exactly with the right number of pointers and otherwise names the first thing wrong, after at most height times (count plus one) reads |
| Engine.Eofs.BuildLayer | crates/eo9-eofs/src/tree.rs:199-209 | one pass packs a row of pointers into blocks that flatten to the same data blocks |
| Engine.Eofs.BuildTree | crates/eo9-eofs/src/tree.rs:187-216 | the tree built flattens to the data blocks given, at the height the reader requires |
| Engine.Eofs.ReadObjectRange | crates/eo9-eofs/src/tree.rs:240-263 | on any image: fills the buffer with the range and touches nothing beyond it, or reports the first fault, or says that the loop panics or never ends |
| Engine.Eofs.SpliceBlock | crates/eo9-eofs/src/tree.rs:285-315 | keeps an untouched block's pointer, otherwise writes the spliced block into available space |
| Engine.Eofs.WriteObjectRange | crates/eo9-eofs/src/tree.rs:269-318 | the result holds the old content spliced at the offset, every untouched block keeps its pointer, and all older objects survive, success or not |
| Engine.Eofs.WriteObject | crates/eo9-eofs/src/tree.rs:219-225 | the result holds the data and lies on retained blocks |
| Engine.Eofs.Commit | crates/eo9-eofs/src/fs.rs:447-480 | success puts the pending transaction on disk and makes it durable; a power cut leaves the old one or the new one committed; one slot write is all the device sees, and when it does all that was written before is durable |
| Engine.Eofs.Rollback | crates/eo9-eofs/src/fs.rs:482-488 | goes back to the committed roots |
| Election.CommittedIsElected | crates/eo9-eofs/src/fs.rs:343-380 | a transaction whose slot is valid and newer is the one a mount picks |
| Election.TornSlot | crates/eo9-eofs/src/format.rs:263-293 | a torn slot write classifies as before, as the new uberblock, as invalid or as unmarked, never as a third uberblock |
| Election.NoAccidentOverValid | crates/eo9-eofs/src/format.rs:263-293 | over a valid slot the only accident is a checksum collision with its body |
| Election.NoAccidentOverBlank | crates/eo9-eofs/src/format.rs:263-293 | over a blank slot the only accident is a torn body that hashes to zero |
| Election.CommitOrNothing | crates/eo9-eofs/src/fs.rs:447-480 | a commit cut at any byte leaves the previous or the new transaction committed and elected, and all data alone |
| Election.CommitWrite | crates/eo9-eofs/src/fs.rs:447-480 | what the commit's single write guarantees whatever the slots held |
| Election.MixedSlot | crates/eo9-eofs/src/format.rs:263-293 | whichever bytes of the new slot are lost, the slot classifies as before, as the new uberblock, as invalid or as unmarked |
| Election.TornIsMixed | crates/eo9-eofs/src/format.rs:263-293 | a torn prefix is one such mixture, and no accident there is no accident here |
| Election.CommitOrLoss | crates/eo9-eofs/src/fs.rs:447-480 | a commit of which any bytes are lost leaves the previous or the new transaction committed and elected, and all data alone |
| Election.ObjectSurvivesCommit | crates/eo9-eofs/src/fs.rs:447-480 | overwriting the slots touches no object |
| Crash.ElectSlots | crates/eo9-eofs/src/fs.rs:348-370 | the loop over the slots picks the valid one with the highest transaction, notes whether either holds remains, and keeps the last parse fault |
| Crash.Mount | crates/eo9-eofs/src/fs.rs:343-406 | mounts exactly the elected transaction when its parameters are sane, otherwise reports the first fault; says exactly when it fell back; the engine is sound exactly when the recorded frontier is aligned |
| Crash.MisalignedFrontier | crates/eo9-eofs/src/fs.rs:380-400 | an image that mounts and whose first allocation the reader refuses |
| PowerLoss.SafeStays | crates/eo9-eofs/src/tree.rs:27-51 | as long as only available space is written, all that is not durable lies where the objects on disk have nothing |
| PowerLoss.LossElsewhere | crates/eo9-eofs/src/device.rs:46-47 | so whatever the device loses, the image differs from the one written there at most |
| PowerLoss.CommitWithstands | crates/eo9-eofs/src/fs.rs:447-480 | whatever is lost before, during or after a commit, the next mount elects the old transaction with its objects or the new one with all new objects |
| Crash.RunSurvives | crates/eo9-eofs/src/tree.rs:27-51 | over any run of steps that write available space only, every object held at the start keeps its content |
| Crash.Replay | crates/eo9-eofs/src/tree.rs:269-318 | any writes in sequence over a device cut anywhere: every object, old or new, keeps its exact content, the new ones hold what the successful writes made, and a write fails only for want of its object, of addresses, of space, or of power |
| Crash.Transaction | crates/eo9-eofs/src/fs.rs:447-480 | writes and a commit under any power cut: the image elects the old or the new transaction, the new one for certain after success; the old root holds its content and the new root exactly what the successful writes made of it; the same of any image left when the device loses any of what was not flushed, and after success nothing is lost |
| Gc.MarkPtr | crates/eo9-eofs/src/fs.rs:819-850 | marks exactly the tree's blocks, or stops at the first fault or at one data block too many, whichever comes first |
| Gc.MarkPacked | crates/eo9-eofs/src/fs.rs:842-848 | the same for the pointers packed in one indirect block |
| Gc.MarkObject | crates/eo9-eofs/src/fs.rs:808-817 | checks the reference, then marks exactly its blocks |
| Gc.MarksCover | crates/eo9-eofs/src/fs.rs:827-831 | the marks have exactly the bytes of the blocks marked |
| Gc.SortByAddr | crates/eo9-eofs/src/fs.rs:760 | the same marks in address order |
| Gc.Sweep | crates/eo9-eofs/src/fs.rs:760-780 | the free list becomes the gaps between the marks in order; when all marks are aligned and below the frontier it is valid and makes available exactly the unmarked bytes |
| Gc.SweepStep | crates/eo9-eofs/src/fs.rs:763-771 | after each mark, exactly the unmarked bytes passed so far are free |
| Gc.GapsUnmarked | crates/eo9-eofs/src/fs.rs:760-780 | whatever the marks are, no byte the sweep frees is in a mark |
| Gc.SweepKeeps | crates/eo9-eofs/src/fs.rs:760-780 | a retained tree whose blocks are all marked is retained after the sweep, whatever else is marked |
| Gc.CollectionKeeps | crates/eo9-eofs/src/fs.rs:742-785 | when exactly what a list of objects does not use is freed, every one of them is as safe as before |
| Gc.SweepSoundIff | crates/eo9-eofs/src/space.rs:83-87 | the swept free list is sorted, apart, aligned and below the frontier exactly when whatever bounds a gap is aligned and not past the frontier |
| Gc.StrayMark | crates/eo9-eofs/src/fs.rs:760-780 | on any image a one-byte object stored past the frontier is marked without being read, and after the sweep the byte at the frontier is on the free list too |
| Gc.RetainedMarkOk | crates/eo9-eofs/src/fs.rs:827-831 | the mark of a retained block is aligned and below the frontier |
| Content.HeldReadsWhole | crates/eo9-eofs/src/tree.rs:227-236 | an object that holds a content reads whole as that content, unless that is longer than 16 MiB |
| Engine.Eofs.ReadObject | crates/eo9-eofs/src/tree.rs:227-236 | on any image: the size limit, the reference, and then the whole range, each with its own error |
| Reach.MarkEntries | crates/eo9-eofs/src/fs.rs:797-802 | marks exactly the files among the entries and lists exactly the directories, in order; the first damaged file is the error |
| Reach.MarkDirectory | crates/eo9-eofs/src/fs.rs:791-803 | marks, reads and parses one directory and marks its files, with the first fault of these |
| Reach.MarkDirTree | crates/eo9-eofs/src/fs.rs:787-806 | on any image the worklist comes to an end; it succeeds exactly when every directory reached can be visited and no two of them share an address, and then marks exactly what the root reaches; otherwise it reports a fault that is there |
| Reclaim.MarkTable | crates/eo9-eofs/src/fs.rs:752-758 | marks exactly a snapshot table and what its snapshots reach |
| Reclaim.CollectGarbage | crates/eo9-eofs/src/fs.rs:742-785 | a collection goes through exactly when everything the committed root, the pending root and both snapshot tables reach is sound, and otherwise leaves the allocator alone; whatever any of these reaches, and the tables, stay retained if they were, on any image; and when all of it is retained, exactly the bytes below the frontier that none of it uses become free |
| Reclaim.AllLive | crates/eo9-eofs/src/fs.rs:747-758 | what the pending root, the committed root or a snapshot of either table reaches is live, and so are the tables |
| Reclaim.LiveFrom | crates/eo9-eofs/src/fs.rs:747-758 | and nothing else is |
| Reclaim.EntryReached | crates/eo9-eofs/src/fs.rs:787-806 | whatever a directory that is reached lists is reached, and its directories as directories |
| Reclaim.WrittenWalkable | crates/eo9-eofs/src/fs.rs:787-806 | when all that is reached has been written, a walk fails only for a directory that does not read as one, or for a tree that is not a tree |
| Reclaim.SameReached | crates/eo9-eofs/src/fs.rs:787-806 | a root whose directories have the same contents on two images reaches the same objects on both |
| Interleaved.CollectingTransaction | crates/eo9-eofs/src/fs.rs:447-785 | writes, a new pending root, a collection, writes over what it freed, and a commit, under any power cut, and whatever of what was not flushed the device loses: the image elects the old transaction or the new one, the new one for certain after success; all that was on disk holds its content; and the new root holds exactly what the successful writes of both rounds made |
| Interleaved.QuietDiscipline | crates/eo9-eofs/src/fs.rs:742-785 | a run that knows exactly what is on disk and points the root at nothing new is one of these |
| Sessions.MakeFilesystem | crates/eo9-eofs/src/fs.rs:293-331 | refuses bad options with the image untouched; a success leaves a consistent image holding the empty root at transaction 1, all of it durable |
| Sessions.CollectKept | crates/eo9-eofs/src/fs.rs:742-785 | a collection after a mount, where what the roots on disk reach is held, keeps all of it held and frees exactly the rest, or does nothing |
| Sessions.Session | crates/eo9-eofs/src/fs.rs:343-480 | mount, collect, write, commit under any power cut, whatever the device then loses of what was not flushed, is a session in the sense of the next rows; its collection frees exactly what no root on disk reaches; it publishes exactly what the successful writes made, and every failed write has its reason |
| Sessions.CollectingSession | crates/eo9-eofs/src/fs.rs:343-785 | mount, write, point the root, collect, write, commit under any power cut and loss is a session in the same sense, so that the next rows hold of it as well |
| Sessions.LossSalvaged | crates/eo9-eofs/src/fs.rs:343-480 | what a loss leaves of a session is what it would have left, or what it would have left without its commit |
| Sessions.SessionKeeps | crates/eo9-eofs/src/fs.rs:343-480 | whatever the cut and the loss, the next mount finds a consistent image again: the elected root and all retained objects held, out of the reach of the allocator that mount starts with |
| Sessions.ChronicleConsistent | crates/eo9-eofs/src/lib.rs:13-16 | so over any number of sessions, each cut anywhere |
| Sessions.ChronicleRetains | crates/eo9-eofs/src/space.rs:4-8 | an object that every session keeps still holds its content at the end, whatever was collected and overwritten in between |
| Sessions.SessionTree | crates/eo9-eofs/src/fs.rs:343-480 | a session that keeps what is live leaves the tree under every root on disk as it is, wherever it is cut |
| Sessions.ChronicleTree | crates/eo9-eofs/src/fs.rs:742-745 | as long as a root is on disk, live or in the snapshot table, it reaches the same objects with the same contents after any number of sessions, each cut anywhere, whatever was collected and overwritten |
| Sessions.ChronicleAdvances | crates/eo9-eofs/src/fs.rs:447-480 | transaction numbers never go back, and the same number is the same transaction |
| Directory.SortedUnique | crates/eo9-eofs/src/format.rs:319-336 | two sorted directories with the same distinctly named entries are equal |
| Directory.SerializeDir | crates/eo9-eofs/src/format.rs:319-336 | emits the canonical encoding |
| Directory.ParseDir | crates/eo9-eofs/src/format.rs:338-361 | the loop decodes entry by entry, with the first fault's error |
| Directory.DirRoundTrip | crates/eo9-eofs/src/format.rs:319-361 | decoding an encoded directory gives its entries sorted by name |
| Directory.DirCanonical | crates/eo9-eofs/src/format.rs:319-336 | any permutation of distinctly named entries encodes to the same bytes |
| Directory.DirInjective | crates/eo9-eofs/src/format.rs:319-361 | equal encodings mean equal entries |
| Directory.SerializeSnapshots | crates/eo9-eofs/src/format.rs:376-390 | emits the table entry by entry |
| Directory.ParseSnapshots | crates/eo9-eofs/src/format.rs:393-416 | the loop decodes entry by entry, with the first fault's error |
| Directory.SnapshotsRoundTrip | crates/eo9-eofs/src/format.rs:376-416 | the snapshot table reads back in creation order |
| Layouts.PtrIff | crates/eo9-eofs/src/format.rs:140-168 | 56 bytes are a block pointer exactly when its fields stand at their offsets, little-endian |
| Layouts.ObjIff | crates/eo9-eofs/src/format.rs:189-205 | so for an object reference and its 72 bytes |
| Layouts.SlotIff | crates/eo9-eofs/src/format.rs:230-293 | a slot is a valid uberblock exactly when magic, version and fields stand at their offsets and the digest of the first 192 bytes follows them |
| Layouts.SlotWritten | crates/eo9-eofs/src/format.rs:230-247 | what a commit writes is these fields, that digest, and zeros to 4096 bytes |
| Layouts.EntryIff | crates/eo9-eofs/src/format.rs:338-361 | a directory entry is read exactly when its fields stand at their offsets and its name is UTF-8 of at most 255 bytes |
| Layouts.SnapIff | crates/eo9-eofs/src/format.rs:393-416 | so for an entry of the snapshot table |
| Layouts.LeqIff | crates/eo9-eofs/src/format.rs:319-336 | names are ordered by the first byte in which they differ, a beginning of a name before it |
| Layouts.DirStored | crates/eo9-eofs/src/format.rs:319-336 | a stored directory reads back as its entries in that order |
| Observed.WriteThenRead | crates/eo9-eofs/src/tree.rs:240-318 | a read after a write returns, byte for byte, the data where it lies, the old content elsewhere and zero between them, cut at the new end |
| Observed.UntouchedIff | crates/eo9-eofs/src/tree.rs:290-301 | a block keeps its pointer exactly when it was there, does not meet the data, and is full or not the last one of an object that grows |
| Observed.StoredLeast | crates/eo9-eofs/src/tree.rs:27-51 | a stored block is the shorter of its raw and its compressed form |
| Observed.AlignedLeast | crates/eo9-eofs/src/space.rs:58-60 | it takes the least multiple of the allocation unit that holds it |
| Observed.HeightIff | crates/eo9-eofs/src/tree.rs:123-131 | a tree has the least height at which blocks of 56-byte pointers reach all data blocks |
| Observed.PackedAt | crates/eo9-eofs/src/tree.rs:199-209 | pointer `i` of an indirect block lies at 56 times `i` |
| Observed.ReadBlockIff | crates/eo9-eofs/src/tree.rs:56-98 | a read succeeds with exactly the bytes that lie, raw or compressed, where a sane pointer says and hash to what it says |
| Observed.AcceptedFits | crates/eo9-eofs/src/tree.rs:109-137 | a reference is refused as too large exactly when its data blocks, one unit each, do not fit the data region |
| Observed.MountableIff | crates/eo9-eofs/src/fs.rs:380-400 | blocks of 2^9 to 2^20 bytes, units of 2^6 to 2^12 that are no longer, a frontier in the data region, a device no shorter than before |
| Observed.ElectIff | crates/eo9-eofs/src/fs.rs:348-370 | the elected transaction is intact in a slot and no intact one is newer; there is none exactly when no slot is intact |
| CanonicalAbi.SizeAligned | crates/eo9-component/src/configure.rs:540-553 | an element's size is a multiple of its alignment, so a row of elements stays aligned |
| CanonicalAbi.AlignIsWidest | crates/eo9-component/src/configure.rs:540-553 | a type is aligned as the widest word it holds |
| CanonicalAbi.RecordIsPacked | crates/eo9-component/src/configure.rs:694-715 | a record's fields begin at the first aligned place after the one before, and its size is the next multiple of its alignment |
| CanonicalAbi.OptionIsPacked | crates/eo9-component/src/configure.rs:716-732 | an option is a byte and its payload, packed |
| CanonicalAbi.TagWidthLeast | crates/eo9-component/src/configure.rs:753-760 | an enum's discriminant is the narrowest word that numbers its cases |
| Baking.Enc | crates/eo9-component/src/configure.rs:656-740 | a value's own cells take exactly its type's canonical size |
| Baking.EncLoads | crates/eo9-component/src/configure.rs:656-740 | for every bakeable nesting of types, storing, rebasing and loading with the canonical ABI gives the value back |
| Baking.ListBodyLoads | crates/eo9-component/src/configure.rs:540-553 | appended elements sit at their absolute alignment and load back as the list |
| Baking.PairLoads | crates/eo9-component/src/configure.rs:526-536 | a rebased pointer and count load as the absolute address and the count |
| Flattening.EncFlat | crates/eo9-component/src/configure.rs:568-638 | the flat constants have the type's core kinds in order whatever the value, absent options padded |
| Flattening.FlatLifts | crates/eo9-component/src/configure.rs:568-654 | lifting a parameter's flat constants gives the value back and consumes just them |
| Flattening.AllLift | crates/eo9-component/src/configure.rs:347-366 | lifting the whole parameter list gives all values back |
| Lowering.Lowerer.Reserve | crates/eo9-component/src/configure.rs:506-518 | zero-filled room at the next aligned offset, or nothing when the arena would pass its limit |
| Lowering.Lowerer.Write | crates/eo9-component/src/configure.rs:520-523 | overwrites reserved blank bytes and nothing else |
| Lowering.Lowerer.WriteRelPtr | crates/eo9-component/src/configure.rs:526-529 | lays down a relative pointer together with its one relocation |
| Lowering.Lowerer.AppendString | crates/eo9-component/src/configure.rs:532-536 | appends the text at the end of the arena |
| Lowering.Lowerer.AppendList | crates/eo9-component/src/configure.rs:540-553 | appends the elements at their alignment, each one's own appendices after the row |
| Lowering.Lowerer.StoreElems | crates/eo9-component/src/configure.rs:545-551 | the loop fills the reserved row slot by slot |
| Lowering.Lowerer.Store | crates/eo9-component/src/configure.rs:656-740 | produces exactly the value's layout in reserved room, failing exactly when the arena would pass its limit |
| Lowering.Lowerer.StoreScalar | crates/eo9-component/src/configure.rs:661-686 | writes a scalar or enum in its canonical width |
| Lowering.Lowerer.StoreOption | crates/eo9-component/src/configure.rs:716-732 | writes the tag, and the payload at its own alignment when present |
| Lowering.Lowerer.StorePair | crates/eo9-component/src/configure.rs:674-693 | writes a relocated pointer and a count side by side |
| Lowering.Lowerer.StoreFields | crates/eo9-component/src/configure.rs:694-715 | writes the fields at their offsets with blank padding, or reports the first one that takes the arena past its limit |
| Lowering.EnumDiscriminant | crates/eo9-component/src/configure.rs:753-760 | finds the first case of the name |
| Lowering.PickFields | crates/eo9-component/src/configure.rs:557-564 | gives each declared field the value recorded under its name |
| Lowering.Lowerer.LowerFlat | crates/eo9-component/src/configure.rs:568-638 | pushes exactly the value's flat constants and appends what they point to |
| Lowering.Lowerer.PushZeroFlats | crates/eo9-component/src/configure.rs:642-654 | one zero of the right kind per flat value of an absent payload |
| Lowering.Lowerer.LowerAll | crates/eo9-component/src/configure.rs:347-355 | lowers the parameters in order into one arena, or reports the first one that takes it past its limit |
| Lowering.WriteKeeps | crates/eo9-component/src/configure.rs:520-523 | writing blank room disturbs no pointer laid down before |
| Lowering.PointerKeeps | crates/eo9-component/src/configure.rs:526-529 | a new pointer overlaps no earlier one, and each has one relocation |
| Configure.CheckArguments | crates/eo9-component/src/configure.rs:282-313 | accepts exactly when every name is known and every parameter is supplied once and parses; otherwise reports the first fault in the source's order |
| Configure.BindArguments | crates/eo9-component/src/configure.rs:272-373 | the accepted arguments lower to their flat constants, or beyond sixteen of these to one record in the arena, exactly when the arena fits its limit; otherwise the error is internal when the record alone does not fit, else it names the first parameter that takes the arena past the limit |
| Configure.CoreTypesMatch | crates/eo9-component/src/configure.rs:318-366 | the baked constants have exactly the types of the callee's core signature, which is the flat types when there are at most sixteen and else one pointer |
| Configure.LayOut | crates/eo9-component/src/configure.rs:908-929 | rebases every relocated pointer once and places scratch, arena and heap apart and aligned |
| Configure.PointersApart | crates/eo9-component/src/configure.rs:912-920 | no two relocated pointers overlap |
| Configure.ArgumentsArrive | crates/eo9-component/src/configure.rs:318-366 | wherever the arena sits at a multiple of 8, a callee that reads its arguments by its core signature receives exactly the values |
| Configure.Bake | crates/eo9-component/src/configure.rs:110-219 | from argument texts to instantiated memory: the constants have the types of `configure`'s core signature, and reading by it `configure` receives exactly the values, clear of result area and heap; the component can be instantiated exactly when the arena fits the initial page; arena and address overflows are told apart exactly |
| Configure.OversizeConstant | crates/eo9-component/src/configure.rs:973-980 | a one-page string is accepted and yields a binder that cannot be instantiated |
| Binding.BindBody | crates/eo9-component/src/configure.rs:1049-1139 | the emitted instructions are the binder's code |
| Binding.BinderBinds | crates/eo9-component/src/configure.rs:1049-1139 | an applied binder reports success untouched; otherwise `configure` gets the baked constants once, and the flag is set unless it reported an error |
| Binding.MergerBinds | crates/eo9-component/src/synth.rs:144-163 | the merger binds the first, returns its error unchanged, and binds the second only after success |
| Binding.BindIsAttempt | crates/eo9-component/src/compose.rs:474-525 | one bind of any nest of entrypoints is one pass over its leaves from where it stood |
| BindRuns.EntrypointReachesAll | crates/eo9-component/src/compose.rs:101-118 | a composition has an entrypoint exactly when a leaf is configured, and it reaches the leaves provider or base first |
| BindRuns.BindTimesIsAttempts | crates/eo9-component/src/configure.rs:1035-1048 | any number of calls is that many passes |
| BindRuns.CompositionBinds | crates/eo9-component/src/compose.rs:206-237 | over any calls and outcomes, each `configure` call is of the first leaf not yet configured with its own arguments, and each bind returns success exactly when all are configured, else the one failure unchanged |
| BindRuns.ProvidersFirst | crates/eo9-component/src/compose.rs:466-525 | in any run of any composition, before a leaf of a consumer or layer is called every leaf of its provider or base has been called and has succeeded |
| BindRuns.SuccessMeansAll | crates/eo9-component/src/compose.rs:466-525 | when a bind reports success every configured leaf has been called and has succeeded |
| BindRuns.EarlierSucceeded | crates/eo9-component/src/compose.rs:466-473 | a leaf is reached only after all earlier ones succeeded |
| BindRuns.NeverAgain | crates/eo9-component/src/configure.rs:1035-1048 | a leaf's `configure` is never called again after it succeeded |
| BindRuns.ActionLawBinds | crates/eo9-component/src/compose.rs:206-211 | where neither is refused, `(x & y) $ c` and `x $ (y $ c)` bind with the same calls and outcomes in every run |
| BindRuns.FailureStopsIff | crates/eo9-component/src/configure.rs:1101-1132 | a failing `configure` stays pending exactly when it has an indirect result |
| BindRuns.FailureUnseen | crates/eo9-component/src/configure.rs:1120-1132 | without one, two binds report success after a single failed call |
| ResultArea.StandsIff | crates/eo9-component/src/configure.rs:1105-1139 | every outcome of `configure` reads as the same outcome of `bind` exactly when its error is a string and its success payload needs no alignment above 4 |
| ResultArea.WideOkMisread | crates/eo9-component/src/configure.rs:1129-1139 | with a payload of alignment 8, a memory in which a one-byte error reads as an empty one |
| ResultArea.OtherErrorLost | crates/eo9-component/src/configure.rs:1129-1139 | with any other error type, a memory in which the refusal is not read back |
| ResultArea.ZerosLoad | crates/eo9-component/src/configure.rs:966-983 | a zeroed area loads as a value of any type, a string only of the string type |
| Semver.SatisfiesTransitive | crates/eo9-component/src/semver.rs:61-88 | satisfaction is transitive |
| Semver.SatisfiesAntisymmetric | crates/eo9-component/src/semver.rs:61-88 | versions that satisfy each other parse alike |
| Semver.RenderReads | crates/eo9-component/src/semver.rs:34-54 | a plain version's text parses as that version |
| Semver.SatisfiesIff | crates/eo9-component/src/semver.rs:61-88 | on plain versions satisfaction is the semver rule, both ways: not older, and the first number that is not zero unchanged |
| Semver.TaggedOnlyItself | crates/eo9-component/src/semver.rs:69-76 | a version with a pre-release or build tag satisfies itself alone, and nothing else satisfies it |
| Semver.VersionShape | crates/eo9-component/src/semver.rs:34-54 | what is read as a version is three decimal numbers, and a tag or nothing behind them |
| Semver.MatchesTransitive | crates/eo9-component/src/slots.rs:35-39 | standing in for an import is transitive |
| Semver.UnversionedProvides | crates/eo9-component/src/semver.rs:61-68 | an unversioned export satisfies only an unversioned requirement |
| Semver.UnversionedMatches | crates/eo9-component/src/slots.rs:35-39 | it stands in only for the import of its own name without a version |
| Semver.MatchesNamed | crates/eo9-component/src/slots.rs:35-39 | names match when the slots are the same and the version satisfies the one required, if any |
| Algebra.SplitIdentitySkips | crates/eo9-component/src/compose.rs:335-359 | lists exactly the types-only imports whose authority interface stays open |
| Algebra.WireMatchingImports | crates/eo9-component/src/compose.rs:363-405 | leaves open exactly the residual imports, and reports nothing sealed exactly when none is |
| Algebra.UnconfiguredProviderFor | crates/eo9-component/src/compose.rs:155-176 | finds the first required import whose configuring interface is exported and whose API is not |
| Algebra.ComposeChecked | crates/eo9-component/src/compose.rs:60-129 | `$`, step by step: refuses exactly a provider with `main` and one that seals nothing and lacks the API it configures; otherwise imports and exports are those of the set-level `$`, with a warning exactly when nothing is sealed |
| Algebra.ExtendChecked | crates/eo9-component/src/compose.rs:181-250 | `&`, step by step: refuses exactly binaries; otherwise imports and exports are those of the set-level `&` |
| Algebra.ExportAll | crates/eo9-component/src/compose.rs:406-435 | exports exactly what its slot is not skipped for |
| Algebra.ConfiguredExport | crates/eo9-component/src/compose.rs:451-464 | finds a bind entrypoint exactly when there is one |
| Algebra.PropagateBinds | crates/eo9-component/src/compose.rs:466-525 | adds the merged entrypoint of both, or the first one alone |
| Algebra.ResidualIs | crates/eo9-component/src/compose.rs:45-53 | with nothing skipped, the open imports are the consumer's that no export of the provider matches |
| Composites.OpenIff | crates/eo9-component/src/compose.rs:335-405 | what the consumer imports is open after `$` or `&` exactly when the provider imports it too, or offers nothing for it, or it is types-only and an authority interface of its package is imported and not exported |
| Composites.OpenFrom | crates/eo9-component/src/compose.rs:363-405 | everything the provider imports is open, and nothing that neither imports |
| Composites.TypesOpenIff | crates/eo9-component/src/compose.rs:335-359 | the types of a package stay open exactly when some authority interface of just that package is withheld |
| Composites.OthersDoNotMatter | crates/eo9-component/src/compose.rs:335-359 | imports of other packages make no difference to that |
| Composites.RefusedIff | crates/eo9-component/src/compose.rs:60-90 | `$` is refused exactly for a binary, or when nothing is sealed and something required has just its configuring interface exported |
| Composites.ExtendRefusedIff | crates/eo9-component/src/compose.rs:181-205 | `&` is refused exactly when either operand is a binary |
| Composites.ComposeExportsIff | crates/eo9-component/src/compose.rs:92-129 | `$` exports what the consumer does, and the provider's bind entrypoint, or one merged entrypoint for those of both |
| Composites.ExtendExportsIff | crates/eo9-component/src/compose.rs:206-250 | `&` exports what the layer does, what the base does in slots where the layer exports nothing, and the merged entrypoint if both have one |
| Laws.ActionLawExports | crates/eo9-component/src/compose.rs:206-237 | both sides of the action law, where neither is refused, export the same, bind entrypoints of any version included |
| Laws.ExtendMatches | crates/eo9-component/src/compose.rs:220-237 | an extended environment matches what either operand does, but for what shadowing loses |
| Laws.ImportsAgreeIff | crates/eo9-component/src/compose.rs:206-237 | refusals aside, both sides leave the same imports open exactly when no import is shadowed away, skipped only at once, or skipped only in stages |
| Laws.ActionLawExact | crates/eo9-component/src/compose.rs:60-237 | whatever is skipped or refused, the two sides are equal exactly when both are refused, or neither is and no import fares differently; refusal and fate are read off the three operands |
| Laws.ActionLawIff | crates/eo9-component/src/compose.rs:60-237 | with nothing skipped, exactly when both are refused, or neither is and whatever shadowing loses is open anyway |
| Laws.ActionLaw | crates/eo9-component/src/compose.rs:60-237 | with nothing skipped and the layer's versions satisfying all that the shadowed ones do, exactly when both are refused or neither is |
| Laws.ConfiguredLaw | crates/eo9-component/src/compose.rs:60-237 | and outright when no operand offers just the configuring interface of something required |
| Laws.ActionLawNeedsCovers | crates/eo9-component/src/compose.rs:226-229 | it fails of the consumer that imports an export shadowed by one that does not satisfy it |
| Laws.OlderLayerBreaks | crates/eo9-component/src/compose.rs:226-229 | it fails when slot `a` at 1.2.0 is shadowed by `a` at 1.0.0 |
| Laws.SkipBreaks | crates/eo9-component/src/compose.rs:335-359 | it fails without any shadowing when a types-only import meets its authority interface only in stages |
| Laws.UnconfiguredBreaks | crates/eo9-component/src/compose.rs:76-90 | it fails when a clock is sealed at once but the operand that has just a file system's configuring interface seals nothing by itself: refused in stages only, whichever operand it is |
| Laws.RefusedAtOnceBreaks | crates/eo9-component/src/compose.rs:76-90 | it fails when only the layer's own import is sealed: refused at once only |
| Laws.ExtendAssociativeIff | crates/eo9-component/src/compose.rs:174-237 | both groupings of `&` are refused alike, always export the same, and are equal exactly when the action law on imports holds of the third operand |
| Laws.ExtendAssociative | crates/eo9-component/src/compose.rs:174-237 | `&` is associative when the inner layer covers what it shadows and nothing is skipped |
| Crc.Crc32Update | boards/opi5-serial-loader/src/lib.rs:39-51 | the eight-bit loop is the register update |
| Crc.Checksum | boards/opi5-serial-loader/src/lib.rs:55-61 | the byte loop is the checksum, which is the complemented remainder of the message polynomial |
| Crc.Crc32IsRemainder | boards/opi5-serial-loader/src/lib.rs:39-61 | for every input the checksum is the complemented remainder, by the generator of section 3.2.9 of IEEE 802.3, of the message with its first 32 bits complemented and 32 zeros behind it |
| Crc.Crc32Divides | boards/opi5-serial-loader/src/lib.rs:39-61 | whichever way that division is done |
| Polynomial.LongDivision | boards/opi5-serial-loader/src/lib.rs:39-61 | long division of bit polynomials gives a quotient and a remainder |
| Polynomial.DivisionUnique | boards/opi5-serial-loader/src/lib.rs:39-61 | there is only one of each |
| Crc.UpdateBijective | boards/opi5-serial-loader/src/lib.rs:39-51 | for each byte the update is one-to-one and onto |
| Crc.FeedWindow | boards/opi5-serial-loader/src/lib.rs:39-61 | up to four bytes enter the register as one word |
| Crc.WindowDetected | boards/opi5-serial-loader/src/lib.rs:39-61 | equal checksums of inputs that differ only in a window of up to four bytes mean equal windows |
| SerialStub.HuntMagic | boards/opi5-serial-loader/src/main.rs:199-210 | the hunt's loop is the byte machine up to the header |
| SerialStub.ReadField | boards/opi5-serial-loader/src/main.rs:186-192 | one header field, or a stall, which does not stop the fields after it |
| SerialStub.ReadHeader | boards/opi5-serial-loader/src/main.rs:212-229 | three fields, then the stall and acceptance checks |
| SerialStub.ReadPayload | boards/opi5-serial-loader/src/main.rs:231-245 | stores, sums and acknowledges byte by byte |
| SerialStub.ReadTrailer | boards/opi5-serial-loader/src/main.rs:247-271 | four checksum bytes, then the verdict |
| SerialStub.StubMain | boards/opi5-serial-loader/src/main.rs:195-277 | the nested loops do what the byte-at-a-time machine does on any input, stalls included |
| SerialFrame.FedRuns | boards/opi5-serial-loader/src/main.rs:195-277 | feeding bytes one at a time is what the receive loops do with them |
| SerialFrame.HuntExact | boards/opi5-serial-loader/src/main.rs:199-210 | the hunt ends exactly at the first magic on the line, whatever came before |
| SerialFrame.HeaderFed | boards/opi5-serial-loader/src/main.rs:212-229 | an acceptable header opens its payload, whatever was heard before |
| SerialFrame.PayloadFed | boards/opi5-serial-loader/src/main.rs:231-245 | any part of the payload is stored in order, summed, and acknowledged once per interval |
| SerialFrame.FrameFed | boards/opi5-serial-loader/src/main.rs:199-276 | what the receive loops make of a whole frame: memory, acknowledgements and the verdict by checksum |
| SerialFrame.DamageRefused | boards/opi5-serial-loader/src/main.rs:231-271 | the receive loops never verify a payload damaged within four consecutive bytes |
| SerialFrame.StoredAt | boards/opi5-serial-loader/src/main.rs:238 | each byte lands at its address and nothing else changes |
| SerialFrame.GuardHitIff | boards/opi5-serial-loader/src/main.rs:223-229 | an accepted payload overwrites the stub's home exactly when its address range wraps past it |
| SerialFrame.WrapOverwrites | boards/opi5-serial-loader/src/main.rs:223-229 | one such header: accepted, and its payload reaches the stub's base |
| SerialLink.ScanStubBytes | boards/opi5-serial-loader/tools/send_image.py:103-112 | counts acknowledgements up to the first verdict |
| SerialLink.StreamStubAt | boards/opi5-serial-loader/src/main.rs:199-276 | after any prefix of the stream: memory, replies and final state |
| SerialLink.StepInv | boards/opi5-serial-loader/tools/send_image.py:498-533 | every step of sender or stub keeps the protocol's invariant |
| SerialLink.RunSafe | boards/opi5-serial-loader/tools/send_image.py:498-542 | at every moment of every interleaving memory holds a prefix of the payload and unacknowledged data is within window plus chunk |
| SerialLink.WindowOpens | boards/opi5-serial-loader/tools/send_image.py:514-520 | the window wait is over whenever the lines are empty |
| SerialLink.NeverStuck | boards/opi5-serial-loader/tools/send_image.py:498-542 | until the sender has finished some productive step is enabled |
| SerialLink.RunEnds | boards/opi5-serial-loader/tools/send_image.py:498-542 | every unstalled run is finite |
| SerialLink.RunDelivers | boards/opi5-serial-loader/tools/send_image.py:533-545 | a run that can go no further is verified, with the payload in memory and one acknowledgement per interval |
| SerialStall.SpoiledStays | boards/opi5-serial-loader/src/main.rs:212-271 | a stub that has lost a header field or reported a stall first stays one whose first verdict is the stall, whatever it hears next |
| SerialStall.MoveKept | boards/opi5-serial-loader/tools/send_image.py:498-545 | every step of either side, a stall at any moment and the sender stopping in the middle of any write included, keeps the invariant |
| SerialStall.VerdictHonest | boards/opi5-serial-loader/tools/send_image.py:533-545 | over every such run a sender that has read the approval has sent everything, memory holds exactly the payload and the stub is about to run it; any other verdict read is a stall; it stays within window plus chunk |
| SerialStall.PrefixUnlessSpoiled | boards/opi5-serial-loader/src/main.rs:231-245 | as long as no stall fell inside the frame, memory holds a prefix of the payload |
| SerialStall.EmbeddedFrame | boards/opi5-serial-loader/src/main.rs:195-277 | after a stall behind the header, the receive loops load, approve and are about to run a frame contained in the payload, with the stall as their first reply |
| SerialWire.StreamOnWire | boards/opi5-serial-loader/tools/send_image.py:450-533 | the sender writes the magic, load address, length and entry value in eight little-endian bytes each, the payload, and its checksum in four |
| SerialWire.HeaderJudged | boards/opi5-serial-loader/src/main.rs:212-229 | a header opens its payload exactly when its length is 1 to 2^30 and it does not reach past the stub's base from below the end of its home; any other is answered with a mismatch |
| SerialWire.FrameAnswered | boards/opi5-serial-loader/src/main.rs:199-276 | a whole frame is answered with one acknowledgement for each 64 KiB and with approval exactly when the checksum is the payload's; the payload is then at its address and nothing else has changed |
| SerialWire.StallAnswered | boards/opi5-serial-loader/src/main.rs:231-259 | a silence in payload or checksum is answered with the acknowledgements due and the stall |
| SerialWire.HeaderStallAnswered | boards/opi5-serial-loader/src/main.rs:186-221 | a field of the header that is broken off does not stop the fields after it; the stall is answered after the third |
| Chunked.Find | crates/eo9-curl-core/src/lib.rs:226-230 | the first line end |
| Chunked.ParseSize | crates/eo9-curl-core/src/lib.rs:247-276 | the size line's value, or why there is none |
| Chunked.Dechunk | crates/eo9-curl-core/src/lib.rs:237-308 | the cursor loop decodes what the grammar-shaped decoder does |
| Chunked.PrefixStable | crates/eo9-curl-core/src/lib.rs:232-308 | more input never changes an error or a complete body, and an incomplete body only grows |
| Chunked.FrameDecodes | crates/eo9-curl-core/src/lib.rs:232-308 | framed chunks decode to their data, complete, whatever trails |
| Chunked.TruncationIsPrefix | crates/eo9-curl-core/src/lib.rs:232-236 | no truncation of a well-framed body is an error; it decodes to a prefix |
| Chunked.HexLineReads | crates/eo9-curl-core/src/lib.rs:247-276 | a hexadecimal size reads as itself, with or without an extension |
| Chunked.HexChunk | crates/eo9-curl-core/src/lib.rs:247-282 | one byte to 16 MiB under its hexadecimal size is a well-framed chunk |
| SizeLines.SizeLine | crates/eo9-curl-core/src/lib.rs:247-276 | a line of white space, a size, white space and an extension says the number of the size's hexadecimal digits; or that it passes 16 MiB, at the first digit that does; or that there is no such number |
| SizeLines.EndsOnce | crates/eo9-curl-core/src/lib.rs:255-276 | it says only one of these |
| SizeLines.DecodesThrough | crates/eo9-curl-core/src/lib.rs:232-308 | whatever follows well-framed chunks, their data comes before what the rest decodes to |
| SizeLines.BodyEnds | crates/eo9-curl-core/src/lib.rs:237-308 | what a body that breaks off or goes wrong after any well-framed chunks decodes to, case by case |
| Dns.MakeQuery | crates/eo9-dns/src/lib.rs:54-85 | encodes the name exactly when every wire limit is met, else reports the first breach |
| Dns.SkipName | crates/eo9-dns/src/lib.rs:88-99 | skipping a name strictly advances the cursor on any bytes |
| Dns.SkipNameLoop | crates/eo9-dns/src/lib.rs:88-99 | the loop skips as the recursive reading does |
| Dns.SkipsName | crates/eo9-dns/src/lib.rs:88-99 | an encoded name, plain or pointer-terminated, is skipped exactly |
| Dns.ParseReply | crates/eo9-dns/src/lib.rs:104-156 | the two loops over questions and answers |
| Dns.ReplyParsed | crates/eo9-dns/src/lib.rs:104-156 | for every well-formed answer the first address record, or the answer count |
| Dns.FirstAddressIs | crates/eo9-dns/src/lib.rs:135-156 | it is the first record of type A with four bytes of data, of any class |
| Dns.NameReads | crates/eo9-dns/src/lib.rs:54-85 | a server that reads a query's name by its lengths finds the labels asked for |
| Dns.HeaderDecides | crates/eo9-dns/src/lib.rs:104-126 | the header alone decides whether a datagram is not ours, a refusal with its code, or empty; any other gives an address or the answer count |
| Dns.CutReply | crates/eo9-dns/src/lib.rs:104-156 | a reply cut off anywhere behind its header gives what the whole one does, or just the answer count where that has an address |

## Left out

- The namespace operations of `crates/eo9-eofs/src/fs.rs` (paths, mkdir, rename, snapshots as an
  API, verify, probe): they would mostly add easy members.
- The asynchronous plumbing of the device layer: device calls are plain method calls.
- The internals of blake3, lz4, wac-graph, wit-parser, wit-component, wasm-wave and wasmparser.
- Running out of host memory, and the byte counters kept for reports.
- Engine.Eofs: works on the cut-off device only; the plain memory device is the case without a cut.
- Crash.Transaction: the hash hypotheses are about the prefixes, or the mixtures, of the one slot being written.
  A flush that reports success without making anything durable is not modelled.
- Sessions.Session: the objects to keep are given as a list, which for a session that collects must be
  what the roots on disk reach; it publishes no new snapshot table. A transaction number at the
  end of its range is left out.
- Interleaved.CollectingTransaction: the objects known at the start are what is on disk, and the run must be
  disciplined: whatever its writes make, the roots reach only objects it knows of. It collects once.
- Reclaim.CollectGarbage: a mark whose end passes the largest address is reported as an overflow;
  what the source's arithmetic then makes of it is not modelled.
- Types that cannot be baked, type aliases, and the WAVE text parser, which is a parameter.
- Lowering.Lowerer.Store: takes values of their declared type, as the typed parse yields them, so
  the internal-mismatch errors do not occur; a float is its bit pattern.
- Configure.Bake: of a layout that passes 32-bit addresses it says exactly when that happens, not what the
  source's overflowing arithmetic then makes; of a result area past the first page nothing is promised.
- The re-encoding of components, type checking while wiring, `restrict`, `rename`, wiring reports and descriptions.
- Laws.ActionLawExact: takes components with at most one bind entrypoint each, and consumers that
  do not import one. How the composition library merges imports of one name or of compatible versions, and
  the annotations of plain slots that a re-encoding drops, are not modelled.
- BindRuns.ActionLawBinds: speaks of groupings that both compose; when one is refused is `Laws.ActionLawExact`'s.
- BindRuns.CompositionBinds: speaks of outcomes as the result areas read, which `ResultArea.StandsIff`
  ties to what `configure` answered; an area that does not read as a result at all is not modelled,
  nor are `configure` functions that return something other than a result by reference.
- The binder's `cabi_realloc`, and the layout of error strings in the binder's memory beyond the result area.
- SerialLink.RunDelivers: speaks of runs without a timeout; with timeouts nothing says that a verdict
  arrives, only that it is honest (`SerialStall.VerdictHonest`).
- SerialStub.StubMain: cache maintenance, timers, register access and the final jump are not modelled;
  a silence longer than the stall limit is an input.
- The Python sender's TCP path, console and argument parsing, its repainting, and its wall-clock alarms.
- Chunked.Dechunk: a refused size line is carried as its bytes, not as lossily decoded text.
- Dns.MakeQuery: labels are their bytes; reply flags other than the response bit and code are not looked at.
- The USB mass-storage crates, xtask, www, and the bundled programs.

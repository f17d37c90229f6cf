# Verified models of VART

VART is a virtual machine monitor for RISC-V hosts with KVM. This project models its most intricate logic in Dafny and
proves what that logic keeps over every input and every run:

- the IOMMU's Sv39/Sv39x4 page walk (`PageWalk`), proved against the raw bits of the page tables (`WalkSpec`), and its
  cache of translations (`TranslationCache`, `CacheScenarios`, `IommuContext`);
- the lock-free hand-over of kicks and stop requests to vCPU threads (`VcpuProtocol`), with what becomes
  of each thread (`VcpuOutcomes`) and accounts of requests, interrupts and the lock (`VcpuAccounting`);
- the flattened device tree builder, against an independent parser (`FdtFormat`, `FdtBuilder`, `FdtWriter`);
- split virtqueues and the virtio block device (`GuestMemory`, `Virtqueue`, `VirtqueueDevice`, `BlockTransfer`,
  `BlockDevice`);
- address-space dispatch (`AddressSpace`);
- PCI: BAR mapping with rollback (`PciBars`), the bus tree and configuration dispatch (`PciTopology`, `PciHierarchy`,
  `PciRollback`, `PciRenumber`, `PciSlots`), memory windows (`PciWindows`), and MSI-X (`Msix`);
- the RISC-V IOMMU front end: device directory (`DeviceDirectory`) and fault queue (`FaultQueue`);
- console input through the 16550 UART and its interrupt line (`Serial`, `Console`).

Code that computes is modelled by functions; code that updates state in place is modelled by classes whose methods are
proved against those functions or against a history variable. Machine words are natural numbers with explicit
remainders, so every wrap-around of the source is in the model. Bit fields are quotients and remainders by powers of two.
`dafny verify dfyconfig.toml` checks the whole project.

Calls into code outside the model become nondeterministic steps or parameters: `KVM_RUN` and signal delivery, `pread`,
`pwrite`, `fsync`, DMA failures, and the answers of interrupt sinks. Guest RAM is one byte map, and a transfer that leaves it fails
without effect. Allocation is taken to succeed.

## What the proofs found

- The range tests of the page walk and of the cache add in 64 bits, so an access whose page offset (walk) or IOVA (cache)
  plus size is exactly 2^64 passes them. `PageWalk.WalkLandsInOnePage` proves that a successful walk stays in one page if
  and only if this does not happen; `PageWalk.WrappingAccessAccepted` proves that such accesses are accepted. In the cache
  such an access can be served by the entry of another page, even when its own page is not mapped
  (`CacheScenarios.ServedByOtherPage`, `CacheScenarios.WrapOnOwnPage`).
- A cache hit for a write looks at W and not at D (`CacheScenarios.WriteWithoutDirty`).
- `TranslationCache.HitAgreesExactlyWhen` gives the exact condition under which a hit equals a fresh walk: the entry is of
  the IOVA's own page, the sum does not wrap off the first page, and a write finds D. `TranslationCache`'s run theorem
  carries it to every run.
- `AddressSpace.ZeroLengthSeesOrder`: a lookup of length zero can depend on insertion order. For one byte and more it
  never does (`AddressSpace.FindIgnoresOrder`).
- A switch initialisation that fails at a port restores everything but subordinate bus numbers
  (`PciHierarchy.FailedSwitchRestores`); `PciRollback.FailedSwitchExact` gives the exact condition under which these are
  as before too, and `PciRollback.FailedSwitchLeavesTrace` a run where they are not. It fails there exactly when a port's
  bus number is taken (`PciHierarchy.SwitchSucceedsExactly`).
- In the extended device-context format, three directory levels would describe only the lower half of the 16-bit
  requester IDs, because the middle index is not cut to its nine bits (`DeviceDirectory.WalkFollowsFields`). The device
  never announces that format: its capabilities are set once, without the flat-MSI bit, at
  src/hw/riscv/riscv-iommu.c:733-736. So this branch is not reachable, and every requester ID that the base format can
  describe is.
- A UART reset ignores a refusal by the interrupt line and then leaves the line high. It leaves a valid device if and only
  if no line is connected, the line was low, or the sink lets it fall (`Serial.Uart.Reset`). After a refused reset, a
  receive-buffer read without data whose update is refused again sets data ready: `Serial.Uart.ReadData` has the exact
  condition and `Serial.PhantomByte` the run, in which the guest reads a byte that no one sent.
- The page-number masks for the directory pointer, directory entries and queue bases cover bits 10 to 49, narrower than
  the 44-bit field of the RISC-V IOMMU specification. The model follows the code.
- The overflow guards for the fault-queue address and for the directory slot can never fire, since page numbers are below
  2^40; the depth-capacity error of the device-tree builder can never fire either (`FdtBuilder.DepthErrorNeverFires`).

## Model

| member | source | states |
|---|---|---|
| PageWalk.SetAdSetsOnlyAd | src/iommu/iommu.c:151-163 | Marking a leaf sets A, and D for writes, changes no other bit, and is the identity on a marked leaf. |
| PageWalk.CanonicalExact | src/iommu/iommu.c:79-91 | Exactly the sign extensions of an IOVA are accepted, and each gives the IOVA it extends. |
| PageWalk.FindLeaf | src/iommu/iommu.c:109-150 | The leaf reached is a readable word of memory, valid, not reserved, with some permission; `WalkSpec.WalkExact` says which word. |
| PageWalk.FindLeafLocal | src/iommu/iommu.c:109-150 | Two IOVAs in the page of the first one's leaf reach the same leaf. |
| PageWalk.WalkWritesOneLeaf | src/iommu/iommu.c:94-186 | A walk changes nothing, or it marks exactly the leaf it used, in A and D only. |
| PageWalk.WalkIdempotent | src/iommu/iommu.c:94-186 | Repeating a walk writes nothing and gives the same translation, self-referencing tables included. |
| PageWalk.WalkLandsInOnePage | src/iommu/iommu.c:164-186 | Size is 4K, 2M or 1G, target aligned, page offset kept; source and target stay in one page if and only if offset plus size is not 2^64. |
| PageWalk.WrappingAccessAccepted | src/iommu/iommu.c:170-174 | Every mapped IOVA off its page start has an access size that wraps and is accepted. |
| WalkSpec.PathIsFound | src/iommu/iommu.c:109-144 | A path of table words, followed bit by bit from the root, leads the descent to its last word. |
| WalkSpec.FoundIsPath | src/iommu/iommu.c:109-144 | Whatever the descent reaches is the end of such a path. |
| WalkSpec.WalkExact | src/iommu/iommu.c:94-186 | A walk gives a translation if and only if a path of words with the raw bits for it exists: valid, user, readable and for writes writable, accessed and dirty or markable, aligned, and in range. |
| WalkSpec.WalkMarks | src/iommu/iommu.c:151-163 | On success memory is as before but for bits 6 and 7 of the last word of the path. |
| WalkSpec.WalkDenies | src/iommu/iommu.c:145-150 | EACCES if and only if a path ends in a word whose raw permission bits do not allow the access. |
| WalkSpec.WalkOutOfRange | src/iommu/iommu.c:164-174 | ERANGE if and only if a usable path exists and the access leaves its page by the wrapping sum. |
| WalkSpec.WalkMisses | src/iommu/iommu.c:109-144 | ENOENT if and only if a path of table pointers ends at a word that is not in memory. |
| WalkSpec.FailsWithoutPath | src/iommu/iommu.c:94-186 | No other error than EACCES, EFAULT, ENOENT and ERANGE is returned. |
| TranslationCache.DisjointMembers | src/iommu/iommu.c:265-297 | Invalidation keeps exactly the entries that do not overlap the range. |
| TranslationCache.LookupHit | src/iommu/iommu.c:213-246 | A hit comes from an entry that covers the access with the right permission. |
| TranslationCache.WalkFromReadWalk | src/iommu/iommu.c:94-186 | A walk for any size and direction is decided by the one-byte read walk, the range test, W and D; `WalkSpec.WalkExact` ties both to the table words. |
| TranslationCache.ReadWalkLocal | src/iommu/iommu.c:94-186 | Every IOVA of a translated page has the page's translation. |
| TranslationCache.TranslateKeepsCoherent | src/iommu/iommu.c:299-367 | A translation, with its insertion and eviction, keeps every entry equal to a walk of each IOVA not made stale. |
| TranslationCache.InvalidateKeepsCoherent | src/iommu/iommu.c:472-510 | Invalidation keeps the cache coherent while the range it covers stops counting as stale. |
| TranslationCache.StepKeepsCoherent | src/iommu/iommu.c:206-510 | Mode changes, root changes, table edits, translations and invalidations all keep coherence. |
| TranslationCache.HitAgreesExactlyWhen | src/iommu/iommu.c:213-246 | A hit equals a fresh walk if and only if its entry is of the IOVA's own page, the sum does not wrap (unless the page starts at 0) and, for writes, the leaf has D; for an IOVA and an entry whose tables were not edited. |
| TranslationCache.OtherPageNeverAgrees | src/iommu/iommu.c:227-231 | An access served by the entry of another page ends at 2^64, and a fresh walk refuses it. |
| TranslationCache.TranslateAgrees | src/iommu/iommu.c:299-367 | Outside the wrapping case, and with D set on writable leaves for writes, translate equals a fresh walk on every address that is not stale. |
| TranslationCache.TranslateAgreesExactlyWhen | src/iommu/iommu.c:299-367 | With nothing stale, translate equals a fresh walk for every access if and only if a hit, if there is one, is sound. |
| TranslationCache.FlushedRunsAreFresh | src/iommu/iommu.c:206-510 | In runs that invalidate, after each edit, a range holding every IOVA of the space whose walk changed, no address is ever stale. |
| TranslationCache.FlushedRunTranslatesLikeWalk | src/iommu/iommu.c:206-510 | At the end of every such run from initialisation, translate returns what a fresh walk returns for every access the cache does not answer, and for one it does answer if and only if the hit is sound. |
| TranslationCache.FlushedRunIsRight | src/iommu/iommu.c:206-510 | After every such run, reads that do not end at 2^64 are right, and so are writes when writable leaves have D. |
| CacheScenarios.FlushedByRange | src/iommu/iommu.c:274-297 | An edit is flushed by any invalidation that covers the IOVAs whose walks read an edited word. |
| CacheScenarios.LeafEditFlushed | src/iommu/iommu.c:472-510 | Changing one leaf word is flushed by invalidating just the 4 KiB page it maps, when no other walk reads the word. |
| CacheScenarios.RevokedPage | src/iommu/iommu.c:274-297 | A run in which a permission of a cached page is revoked and one page is invalidated: the edit changes a walk, counts as flushed, and leaves no entry. |
| CacheScenarios.ServedByOtherPage | src/iommu/iommu.c:227-231 | A run after which an unmapped IOVA is served by the entry of an earlier page. |
| CacheScenarios.WrapOnOwnPage | src/iommu/iommu.c:227-231 | A run after which the hit's bound test wraps on the entry's own page and the walk's does not. |
| CacheScenarios.WriteWithoutDirty | src/iommu/iommu.c:227-231 | A run after which a write through a leaf without D is served and a fresh walk refuses it. |
| IommuContext.IommuContext.Flush | src/iommu/iommu.c:206-211 | The cache array is emptied; mode and root stay. |
| IommuContext.IommuContext.FindCached | src/iommu/iommu.c:213-246 | The search loop returns the first entry that covers the access. |
| IommuContext.IommuContext.InsertCached | src/iommu/iommu.c:248-263 | The entry is appended, or replaces the round-robin victim in a full array. |
| IommuContext.IommuContext.InvalidateCached | src/iommu/iommu.c:274-297 | In-place compaction keeps exactly the disjoint entries, in order. |
| IommuContext.IommuContext.WalkTables | src/iommu/iommu.c:94-186 | The walk loop, with its write-back, computes the recursive walk, whose answers `WalkSpec.WalkExact` ties to the table words. |
| IommuContext.IommuContext.TranslateAddress | src/iommu/iommu.c:299-367 | Result, cache and memory are those of the specification function. |
| IommuContext.IommuContext.ChangeMode | src/iommu/iommu.c:419-436 | A translating mode needs a root; a change empties the cache. |
| IommuContext.IommuContext.ChangeRoot | src/iommu/iommu.c:438-470 | Bounds and Sv39x4 alignment of the root are checked; a change empties the cache. |
| IommuContext.IommuContext.InvalidateMapped | src/iommu/iommu.c:472-510 | The invalidation specification, and a generation that advances exactly on success. |
| VcpuProtocol.StepKeepsInv | src/kvm/vcpu.c:29-114 | Every enabled step of every thread keeps the protocol invariant; what each outcome leads to is in `VcpuOutcomes`. |
| VcpuProtocol.ReachableInv | src/kvm/vcpu.c:29-114 | The invariant holds after every interleaving from creation. |
| VcpuProtocol.NoLostWakeup | src/kvm/vcpu.c:467-484 | A vCPU with an unserved kick or stop waits in KVM_RUN only while the requester, holding the lock, has yet to send the signal. |
| VcpuProtocol.SignalTargetsLiveThread | src/kvm/vcpu.c:467-484 | Signals are sent only to threads that were started and have not exited. |
| VcpuProtocol.NeverStuck | src/kvm/vcpu.c:58-114 | With a request outstanding, that vCPU or the lock holder always has a step. |
| VcpuProtocol.StepLowersRank | src/kvm/vcpu.c:58-114 | Each own step of a vCPU with a request outstanding brings it closer to serving it; no other step sets it back. |
| VcpuProtocol.RequestAnswered | src/kvm/vcpu.c:58-114 | In any run with enough own steps, a stop ends the thread and a kick is consumed by an interrupted handler call or by stopping. |
| VcpuProtocol.RankBound | src/kvm/vcpu.c:58-114 | The distance is at most 28 own steps, 12 for a stop. |
| VcpuProtocol.StopIsFinal | src/kvm/vcpu.c:385-427 | Stop and shutdown are never withdrawn, nothing starts after shutdown, and states move CREATED, RUNNING, STOPPED. |
| VcpuProtocol.NoHandlerAfterStop | src/kvm/vcpu.c:97-111 | Once stop is requested, no later step of any run enters that vCPU's handler. |
| VcpuProtocol.ShutdownStopsAll | src/kvm/vcpu.c:534-569 | After a completed shutdown every running vCPU has stop requested, and the others never start. |
| VcpuOutcomes.FinishEndsThread | src/kvm/vcpu.c:97-111 | In any run, after a handler answer that ends the loop the next move of the thread is to stop, and no later step enters its handler. |
| VcpuOutcomes.ContinueGoesOn | src/kvm/vcpu.c:97-111 | In any run, after a handler answer that goes on the next two moves of the thread lead back to the loop top and through the stop test, with the state still RUNNING. |
| VcpuOutcomes.DoomedEnds | src/kvm/vcpu.c:58-114 | A thread that saw stop, failed to run or failed to start calls no handler any more and has exited once it has made its at most four remaining moves. |
| VcpuOutcomes.WhatDooms | src/kvm/vcpu.c:58-114 | Which steps put a thread on that way: a failed start, a failed KVM_RUN, a stop seen at the top or under the lock, and an answer to finish. |
| VcpuOutcomes.WhatIsCarried | src/kvm/vcpu.c:83-95 | What a thread carries to the lock is what KVM_RUN returned, or INTERRUPTED for a kick or an immediate exit. |
| VcpuOutcomes.ExitReachesHandler | src/kvm/vcpu.c:83-103 | The handler is entered with exactly the exit that is carried, unless a stop is seen first. |
| VcpuOutcomes.RequestEffects | src/kvm/vcpu.c:467-569 | What start, kick, stop, shutdown and signal steps leave behind in the records of the threads. |
| VcpuAccounting.KickIsConsumed | src/kvm/vcpu.c:83-94 | Once a thread is committed to an INTERRUPTED call, its kick flag is clear until the next kick. |
| VcpuAccounting.ImmediateIsConsumed | src/kvm/vcpu.c:89-90 | After a run of the guest, immediate exit is clear until the next signal. |
| VcpuAccounting.InterruptsAreCaused | src/kvm/vcpu.c:58-114 | In any run from the start, a vCPU gets at most as many INTERRUPTED calls as it had kicks, signals and interrupted runs. |
| VcpuAccounting.LockIsBalanced | src/kvm/vcpu.c:58-114 | In any run from the start, a thread holds the big lock if and only if it has acquired it once more than released it. |
| FdtFormat.Pad | src/boot/fdt.c:35-62 | Padding is to a multiple of four, keeps the bytes and is zero. |
| FdtFormat.TokenBytes | src/boot/fdt.c:12-62 | The bytes of every token: tag 1, 2, 3 or 9 big-endian, contents in place, and only zeros up to the next word. |
| FdtFormat.FindString | src/boot/fdt.c:64-77 | An offset found is an entry of the string block with exactly the name. |
| FdtFormat.TokensRoundTrip | src/boot/fdt.c:115-216 | Parsing an encoded token stream gives the tokens. |
| FdtFormat.NodeRoundTrip | src/boot/fdt.c:115-216 | Parsing the tokens of any tree gives the tree. |
| FdtFormat.FindGrows | src/boot/fdt.c:64-77 | Names already stored keep their offsets as the block grows. |
| FdtFormat.FindAppended | src/boot/fdt.c:64-77 | A new name is found at the old end of the block. |
| FdtBuilder.RejectedCallChangesNothing | src/boot/fdt.c:115-216 | A begin, end or property call that fails leaves the builder as it was. |
| FdtBuilder.CallRepresents | src/boot/fdt.c:115-216 | Each accepted call extends the bytes as it extends the document being described. |
| FdtBuilder.BlobFields | src/boot/fdt.c:278-329 | Magic 0xd00dfeed, versions 17 and 16, and offsets and sizes that point at the parts of the blob; the reservation map is zero. |
| FdtBuilder.FinishedBlobParses | src/boot/fdt.c:278-329 | A finished blob parses to the described root. |
| FdtBuilder.BuiltTreeParses | src/boot/fdt.c:79-329 | For every sequence of calls on a new builder, a blob that finishes parses to exactly the tree that was built. |
| FdtBuilder.DepthErrorNeverFires | src/boot/fdt.c:115-148 | The stack of open nodes is always below its capacity. |
| FdtBuilder.OffsetsShared | src/boot/fdt.c:64-77 | Two properties share a string offset if and only if their names are equal. |
| FdtWriter.FdtWriter.constructor | src/boot/fdt.c:79-102 | A new builder is empty. |
| FdtWriter.FdtWriter.Begin | src/boot/fdt.c:115-148 | Bytes, depth and flags are those of the specification, errors included. |
| FdtWriter.FdtWriter.Reserved | src/boot/fdt.c:46-56 | Room is granted if and only if the bytes, padded to a multiple of four, end within the buffer and the length does not overflow. |
| FdtWriter.FdtWriter.End | src/boot/fdt.c:150-168 | As specified, errors included. |
| FdtWriter.FdtWriter.FindName | src/boot/fdt.c:64-77 | The scan over the string array finds the specified offset. |
| FdtWriter.FdtWriter.Property | src/boot/fdt.c:170-216 | Structure and string arrays grow as specified; a failure changes neither. |
| FdtWriter.FdtWriter.Cells | src/boot/fdt.c:243-271 | Cells are a property of big-endian words, refused when the length overflows. |
| FdtWriter.FdtWriter.Finished | src/boot/fdt.c:278-329 | The blob is the specified one; a builder finishes once and only with its root closed. |
| FdtWriter.WriteHeader | src/boot/fdt.c:314-323 | The ten header words, in order, and nothing after them. |
| Virtqueue.FollowIsChain | src/hw/virtio/virtio.c:256-291 | What pop collects is, on the bytes stored in the descriptor table, the NEXT-linked path from the head with distinct indices and no flags but bits 0 and 1. |
| Virtqueue.ChainIsFollowed | src/hw/virtio/virtio.c:256-291 | Every such path of stored bytes is collected. |
| Virtqueue.FollowExact | src/hw/virtio/virtio.c:256-291 | The walk succeeds with a list if and only if the stored bytes form the chain, which is no longer than the queue. |
| Virtqueue.DescriptorExact | src/hw/virtio/virtio.c:265-275 | A descriptor is read if and only if its address, length, flags and next lie little-endian in its sixteen bytes, in this order. |
| Virtqueue.PopExact | src/hw/virtio/virtio.c:206-294 | A pop gives a chain if and only if the available ring in memory offers its head and the stored bytes form it; the index advances by one, and EAGAIN means exactly an equal index. |
| Virtqueue.ConfigureExact | src/hw/virtio/virtio.c:147-187 | Exactly which sizes, alignments and ranges are accepted, and that the queue is then at the given addresses with both indices zero. |
| Virtqueue.FailedPopChangesNothing | src/hw/virtio/virtio.c:206-294 | A failed pop leaves the indices as they were. |
| Virtqueue.ResetForgets | src/hw/virtio/virtio.c:147-204 | A reset queue answers nothing and configures exactly as any queue that is not in use, whatever it held. |
| Virtqueue.WrappedSlot | src/hw/virtio/virtio.c:234-255 | A 16-bit index modulo a power-of-two size counts slots across every wrap. |
| Virtqueue.PopKeepsRing | src/hw/virtio/virtio.c:206-294 | The n-th pop reads available slot n modulo the size. |
| Virtqueue.PushTargetsSlot | src/hw/virtio/virtio.c:306-326 | The n-th push goes to used slot n modulo the size. |
| Virtqueue.PushEffect | src/hw/virtio/virtio.c:296-327 | A push does nothing, writes an element, or writes it and then publishes it, in that order. |
| Virtqueue.StepKeepsRing | src/hw/virtio/virtio.c:206-327 | Pops, pushes with or without DMA failures, and guest writes keep the ring invariant: the published index covers only written elements. |
| Virtqueue.ConfiguredRun | src/hw/virtio/virtio.c:147-327 | The invariant holds after every run from a successful configuration. |
| VirtqueueDevice.VirtqueueDevice.SetUp | src/hw/virtio/virtio.c:147-187 | Configuration is accepted or refused as specified and starts at index zero. |
| VirtqueueDevice.VirtqueueDevice.TearDown | src/hw/virtio/virtio.c:189-204 | Afterwards every pop answers ENODEV and no configuration is refused as busy. |
| VirtqueueDevice.VirtqueueDevice.WalkChain | src/hw/virtio/virtio.c:256-291 | The loop with its visited table computes the specified chain or error, which `Virtqueue.FollowExact` ties to the stored bytes, and terminates on any memory. |
| VirtqueueDevice.VirtqueueDevice.PopChain | src/hw/virtio/virtio.c:206-294 | Pop as specified, which `Virtqueue.PopExact` ties to the bytes of the ring. |
| VirtqueueDevice.VirtqueueDevice.Push | src/hw/virtio/virtio.c:296-327 | Element first, then index; either write may fail. |
| BlockTransfer.DiskOffsetExact | src/hw/virtio/virtio-blk.c:105-132 | A range of sectors is accepted if and only if it lies within the capacity. |
| BlockTransfer.Accepted | src/hw/virtio/virtio-blk.c:105-158 | An accepted request fits the disk. |
| BlockTransfer.AcceptedExact | src/hw/virtio/virtio-blk.c:105-158 | Accepted if and only if every data descriptor has the right raw direction bit and 1 to 2^20 bytes, the total is a positive multiple of 512 in 32 bits, and it ends within the capacity; the offset is 512 times the sector. |
| BlockTransfer.SpliceMore | src/hw/virtio/virtio-blk.c:190-199 | Writing in pieces is writing the whole. |
| BlockTransfer.GatherScattered | src/hw/virtio/virtio-blk.c:135-205 | Bytes scattered to disjoint segments are gathered back. |
| BlockTransfer.WrittenIsReadBack | src/hw/virtio/virtio-blk.c:135-205 | OUT then IN of the same range returns the same bytes for any two segmentations and leaves the rest of the disk alone. |
| BlockDevice.BlockDevice.ReadFully | src/hw/virtio/virtio-blk.c:169-177 | Short reads add up to the requested bytes. |
| BlockDevice.BlockDevice.WriteFully | src/hw/virtio/virtio-blk.c:190-199 | Short writes add up; a failure leaves a prefix written. |
| BlockDevice.BlockDevice.Validate | src/hw/virtio/virtio-blk.c:135-158 | The descriptor loop computes the specified verdict. |
| BlockDevice.BlockDevice.Io | src/hw/virtio/virtio-blk.c:135-205 | Rejected requests touch nothing; accepted ones scatter or splice exactly the addressed range. |
| BlockDevice.BlockDevice.WriteThenRead | src/hw/virtio/virtio-blk.c:135-205 | A successful OUT then a successful IN of the same sectors returns the bytes, for any segmentations, short counts and memory in between, and leaves the rest of the disk alone. |
| BlockDevice.BlockDevice.Serve | src/hw/virtio/virtio-blk.c:207-256 | By request type: the status, the reported length, and the exact disk and memory afterwards, read-only, flush and unsupported cases included. |
| BlockDevice.BlockDevice.Process | src/hw/virtio/virtio-blk.c:207-256 | From the header bytes in memory: without error, the disk is spliced at 512 times the sector with the gathered bytes or the segments hold the disk's, exactly when status 0 is posted; read-only OUT gives 1, unknown kinds 2; memory ends with status byte, used element and index; malformed requests change nothing. |
| BlockDevice.BlockDevice.Complete | src/hw/virtio/virtio-blk.c:248-255 | The status byte, the used element with head and length, and the used index are stored, in this order, or an error is returned. |
| BlockDevice.AnswerIsSeen | src/hw/virtio/virtio-blk.c:248-255 | The driver finds head and length in the used slot, the next index, and the status at the last descriptor unless the ring covers it; nothing else changes. |
| BlockDevice.BlockDevice.ServeNext | src/hw/virtio/virtio-blk.c:258-288 | One round pops at most one head and pushes it only when served; a served round completed exactly the chain that was popped. |
| BlockDevice.BlockDevice.Notify | src/hw/virtio/virtio-blk.c:258-288 | Popped heads are pushed once each, in order; only the last can be rejected, and none when no error is returned. |
| AddressSpace.AddKeepsInv | src/core/address-space.c:114-155 | Adding a region that does not clash keeps equal-priority regions disjoint. |
| AddressSpace.RemoveKeepsInv | src/core/address-space.c:157-178 | So does removal. |
| AddressSpace.EnableKeepsInv | src/core/address-space.c:180-191 | So does enabling and disabling. |
| AddressSpace.PutBack | src/core/address-space.c:114-178 | A removed region can always be added back, giving the same set. |
| AddressSpace.FindBest | src/core/address-space.c:193-211 | Lookup finds a containing region of the highest priority if there is any. |
| AddressSpace.FindDispatches | src/core/address-space.c:193-211 | For one byte and more, lookup returns r if and only if r is the highest-priority enabled region with base <= address and address + size <= base + size, and there is only one. |
| AddressSpace.OverlapExact | src/core/address-space.c:114-155 | The overlap test on last addresses finds exactly the regions that share a byte. |
| AddressSpace.FindIgnoresOrder | src/core/address-space.c:193-211 | Lookup depends on the set of regions only. |
| AddressSpace.ZeroLengthSeesOrder | src/core/address-space.c:338-354 | For length zero it can depend on the order. |
| AddressSpace.RegionObject.constructor | src/core/address-space.c:8-25 | A region is enabled and in no space. |
| AddressSpace.AddressSpace.Add | src/core/address-space.c:114-155 | Accepted exactly when free and without a clash; back-pointer and list agree. |
| AddressSpace.AddressSpace.Drop | src/core/address-space.c:157-178 | In-place removal is removal from the list. |
| AddressSpace.AddressSpace.Enable | src/core/address-space.c:180-191 | Only a region of this space is changed. |
| AddressSpace.AddressSpace.Lookup | src/core/address-space.c:193-211 | The loop finds the specified region: enabled, holding the whole access, and of the highest priority among those that do. |
| PciBars.PciFunction.MapBar | src/hw/pci/pci.c:85-115 | Mapping succeeds if and only if the address is aligned, inside a window and free; otherwise nothing changes. |
| PciBars.PciFunction.UnmapBar | src/hw/pci/pci.c:117-125 | Exactly that BAR's region goes. |
| PciBars.PciFunction.UnmapMsix | src/hw/pci/pci.c:202-214 | Exactly the MSI-X regions go. |
| PciBars.PciFunction.MapMsix | src/hw/pci/pci.c:216-273 | Both MSI-X regions are mapped or neither, and both if and only if the layout is sound and each has room. |
| PciBars.PciFunction.DisableMemory | src/hw/pci/pci.c:275-283 | All own regions go, no other. |
| PciBars.PciFunction.EnableMemory | src/hw/pci/pci.c:285-310 | All implemented BARs and MSI-X are mapped if and only if each is mappable and has room beside the others; otherwise the region set is as before. |
| PciBars.PciFunction.Restore | src/hw/pci/pci.c:389-395 | The rollback re-map cannot fail and restores the region set. |
| PciBars.PciFunction.Relocate | src/hw/pci/pci.c:356-395 | A relocation moves one BAR, if and only if it is mappable there and has room, with its MSI-X, once taken out; otherwise addresses, flags and regions are as before. |
| PciBars.PciFunction.WriteBar | src/hw/pci/pci.c:397-415 | The all-ones probe moves nothing; other writes replace one half of the address, exactly when the relocation fits. |
| PciBars.PciFunction.WriteCommand | src/hw/pci/pci.c:476-521 | Memory enable holds exactly when every implemented BAR and MSI-X is mapped at its address, over every run of writes; a write fails if and only if it enables and something does not fit. |
| PciBars.PciFunction.MappableExact | src/hw/pci/pci.c:68-115 | A BAR may lie exactly where it is aligned to its size, within 64 bits and whole inside one window of its kind. |
| PciBars.PciFunction.TableAnswers | src/hw/pci/pci.c:216-273 | Every access to the 16 bytes a vector of the MSI-X table reaches the table, over its BAR. |
| PciBars.PciFunction.PbaAnswers | src/hw/pci/pci.c:216-273 | Every access to the pending array, in whole 64-bit words, reaches it. |
| PciBars.PciFunction.BarAnswers | src/hw/pci/pci.c:85-115 | Every other access within a mapped BAR reaches the BAR. |
| PciBars.MsixLayoutExact | src/hw/pci/pci.c:216-247 | A layout is accepted if and only if table and pending array lie whole in implemented BARs and share no byte. |
| PciBars.FitsBack | src/hw/pci/pci.c:356-395 | A region taken out of a space fits back into what remains of it. |
| PciBars.SameLookups | src/core/address-space.c:193-211 | Two spaces with the same regions dispatch alike. |
| PciTopology.FindBusComplete | src/hw/pci/pci.c:980-998 | The search below a bus finds every number that occurs there. |
| PciTopology.FindBusExact | src/hw/pci/pci.c:980-998 | From the root it finds exactly the bus with the number. |
| PciTopology.RequesterIdsUnique | src/hw/pci/pci.c:1303-1322 | Attached devices have distinct requester IDs. |
| PciTopology.EcamExact | src/hw/pci/pci.c:721-741 | An access reaches a device if and only if it stays within 4 KiB, the device is attached and realized, and its requester ID is the offset shifted by 12. |
| PciTopology.RaiseAncestors | src/hw/pci/pci.c:546-562 | Only subordinate numbers change, and only upwards. |
| PciTopology.InitBridgeKeepsInv | src/hw/pci/pci.c:1033-1107 | A new bridge keeps tree, distinct numbers and placements. |
| PciTopology.StampBelowReaches | src/hw/pci/pci.c:531-544 | Renumbering updates the requester ID of every device below the bridge. |
| PciTopology.StampBelowEither | src/hw/pci/pci.c:531-544 | It changes no device in any other way. |
| PciTopology.WriteBusNumbersKeepsInv | src/hw/pci/pci.c:677-713 | A bus-number write keeps the invariant; its effect is in `PciRenumber.WriteBusNumbersEffect`. |
| PciTopology.WriteBusNumbersExact | src/hw/pci/pci.c:677-713 | It is accepted if and only if it is all zero, or above the parent, within its own range and not used by another bus. |
| PciRenumber.WriteBusNumbersEffect | src/hw/pci/pci.c:677-713 | An accepted write other than all zero gives the bus both numbers and no other bus another number, lets every bus above reach the new subordinate number and no farther than needed, and moves the requester IDs of the bus to the new number. |
| PciRenumber.RenumberedIsFound | src/hw/pci/pci.c:677-741 | A realized device on the bus then answers under the new number, and any other where it did. |
| PciRenumber.OldNumberIsGone | src/hw/pci/pci.c:677-741 | When the number changed, nothing answers under the old one. |
| PciRenumber.ZeroWriteIsIgnored | src/hw/pci/pci.c:695-698 | An all-zero write is accepted and changes nothing. |
| PciHierarchy.AddDeviceKeepsInv | src/hw/pci/pci.c:1290-1328 | Attaching keeps the invariant. |
| PciHierarchy.RemoveDeviceKeepsInv | src/hw/pci/pci.c:1330-1373 | So does detaching. |
| PciHierarchy.PluggedInIsFound | src/hw/pci/pci.c:1290-1328 | A device attached and realized answers at its bus number and devfn. |
| PciHierarchy.PluggedOutIsGone | src/hw/pci/pci.c:1330-1373 | A device taken out leaves nothing at its requester ID. |
| PciSlots.AddExact | src/hw/pci/pci.c:1290-1328 | Attaching is accepted if and only if the device is free and not realized, the function is free, and function 0 of the slot is there or is the one attached. |
| PciSlots.RemoveExact | src/hw/pci/pci.c:1330-1373 | Detaching is accepted if and only if the device is on the bus, not realized, and not function 0 of a slot with others. |
| PciSlots.RunKeepsLed | src/hw/pci/pci.c:523-1373 | Over every run, an occupied slot has its function 0. |
| PciSlots.ReachableSlots | src/hw/pci/pci.c:523-1373 | After any run every attached device shares its slot with a device at function 0, so probing function 0 finds every occupied slot. |
| PciHierarchy.DestroyKeepsInv | src/hw/pci/pci.c:1000-1031 | Removing an empty bus keeps the invariant. |
| PciHierarchy.TeardownRestores | src/hw/pci/pci.c:1173-1184 | Undoing a partly built switch gives back the old buses, children and devices. |
| PciHierarchy.FailedSwitchRestores | src/hw/pci/pci.c:1130-1187 | A failed switch changes nothing but subordinate numbers, which can only grow; when a port failed, the parent's covers the upstream bus. |
| PciHierarchy.SwitchSucceedsExactly | src/hw/pci/pci.c:1130-1187 | A switch succeeds if and only if port count, numbers and window are available; ports never lack room. |
| PciHierarchy.InitSwitchKeepsInv | src/hw/pci/pci.c:1130-1187 | Success or failure, the invariant is kept. |
| PciHierarchy.StepKeepsInv | src/hw/pci/pci.c:523-1373 | Every operation keeps the invariant. |
| PciHierarchy.ReachableTopology | src/hw/pci/pci.c:523-1373 | After any run, bus numbers and requester IDs are unique, bus search is exact and configuration dispatch is exact. |
| PciRollback.RaiseExact | src/hw/pci/pci.c:546-562 | Raising ancestors changes nothing if and only if no subordinate number on the path is below the next one down. |
| PciRollback.RaisedTo | src/hw/pci/pci.c:546-562 | Every bus above gets the largest subordinate number on the way up to it; no other bus changes. |
| PciRollback.BridgeSucceedsExactly | src/hw/pci/pci.c:1033-1070 | A bridge is accepted if and only if its number is above the parent's and free and an aligned window is left. |
| PciRollback.PortsUnraised | src/hw/pci/pci.c:1166-1185 | As many ports are built as numbers are free in a row; whether anything was raised depends on the last. |
| PciRollback.FailedSwitchExact | src/hw/pci/pci.c:1130-1187 | A failed switch leaves the tree exactly as it was if and only if its arguments, its own number or its window are refused, or the last number used is within the parent's range and the path above is nested. |
| PciRollback.FailedSwitchLeavesTrace | src/hw/pci/pci.c:1130-1187 | A run of three calls after which a failed switch has raised a bridge's subordinate number. |
| PciWindows.RealizeBars | src/hw/pci/pci.c:811-881 | The realize loop places the BARs as specified; on failure the cursor is the old one. |
| PciWindows.PlaceBarsOk | src/hw/pci/pci.c:825-861 | Placed BARs are aligned, inside the window and past everything handed out before. |
| PciWindows.EveryBarPlaced | src/hw/pci/pci.c:825-861 | Every implemented BAR of a realized device has a range of its size. |
| PciWindows.FirstFit | src/hw/pci/pci.c:844-854 | When an aligned range past the cursor fits, BARs and bridge windows are placed at or below it. |
| PciWindows.BridgeKeepsWindows | src/hw/pci/pci.c:1053-1107 | A bridge keeps the window invariant: its window is a new aligned range of the parent's. |
| PciWindows.SwitchKeepsWindows | src/hw/pci/pci.c:1130-1187 | The same for a switch and its ports; a failure restores the cursor. |
| PciWindows.WindowsNest | src/hw/pci/pci.c:1033-1107 | Every window lies in the windows of all buses above. |
| PciWindows.SiblingsApart | src/hw/pci/pci.c:1033-1107 | Sibling windows are disjoint and aligned. |
| PciWindows.BarAndWindowApart | src/hw/pci/pci.c:811-881 | BARs and bridge windows of one bus are disjoint. |
| PciWindows.ReachableWindows | src/hw/pci/pci.c:811-1187 | All of this after any run of bridge, switch, bus, device and realize operations. |
| Msix.SetBit | src/hw/pci/pci.c:1716 | Setting a pending bit changes no other bit. |
| Msix.ClearBit | src/hw/pci/pci.c:337 | Clearing one changes no other. |
| Msix.AnsweredOnce | src/hw/pci/pci.c:312-354 | If every delivery answers a waiting raise, deliveries and the waiting one never exceed raises. |
| Msix.Msix.Deliver | src/hw/pci/pci.c:312-339 | The bit is cleared exactly when the vector is not blocked and the sink accepts; the result is the sink's. |
| Msix.Msix.FlushPending | src/hw/pci/pci.c:341-354 | Afterwards exactly the pending vectors that are blocked or refused are pending; the others were delivered in vector order. |
| Msix.Msix.TableWrite | src/hw/pci/pci.c:143-156 | Exactly the addressed bytes change; then exactly the pending vectors that are blocked or refused stay pending. |
| Msix.Msix.UpdateControl | src/hw/pci/pci.c:440-453 | Enable and function mask follow the control word; then exactly the pending vectors that are blocked or refused stay pending. |
| Msix.Msix.Raise | src/hw/pci/pci.c:1707-1722 | A raise is delivered now, or left pending if and only if it is blocked or refused; the result is the sink's. |
| Msix.Msix.RegisterLayout | src/hw/pci/pci.c:312-339 | Bit 0 of the fourth dword of a vector's entry masks it; its pending bit is the one of its number, lowest bit first. |
| Msix.Msix.NeverMoreThanRaised | src/hw/pci/pci.c:312-354 | After every run, deliveries plus the pending bit are at most the raises. |
| Msix.Msix.NothingLost | src/hw/pci/pci.c:1707-1722 | With a sink that never refused, an unanswered raise is masked or disabled. |
| DeviceDirectory.ResolveLoop | src/hw/riscv/riscv-iommu.c:130-178 | The level loop computes the specified walk. |
| DeviceDirectory.ApplyBinding | src/hw/riscv/riscv-iommu.c:97-182 | The live context ends as specified for every mode. |
| DeviceDirectory.ApplyAll | src/hw/riscv/riscv-iommu.c:184-198 | Every bound context ends as its own binding says, also after one that failed; an error is reported if and only if some binding has one. |
| DeviceDirectory.WalkFollowsFields | src/hw/riscv/riscv-iommu.c:130-159 | The walk uses exactly the index fields of the requester ID, and refuses exactly the IDs outside the directory. |
| DeviceDirectory.ContextsApart | src/hw/riscv/riscv-iommu.c:130-159 | Distinct requesters have disjoint contexts when context pages are not shared. |
| DeviceDirectory.BindExactly | src/hw/riscv/riscv-iommu.c:130-182 | A context translates, passes or faults exactly as the selected entry says; anything malformed faults; the cache is empty. |
| DeviceDirectory.BindWithoutDirectory | src/hw/riscv/riscv-iommu.c:115-128 | Off faults every access and bare passes every access through, both without error; a reserved mode faults with EINVAL; the cache is empty. |
| FaultQueue.DecodeEncode | src/hw/riscv/riscv-iommu.c:80-86 | A record decodes to the fault it was made from, the size cut to 32 bits; its second word is zero. |
| FaultQueue.BaseFields | src/hw/riscv/riscv-iommu.c:56-79 | The base register holds log2 of the size in bits 0 to 4 and the page number in bits 10 to 49. |
| FaultQueue.StoredAtTail | src/hw/riscv/riscv-iommu.c:61-93 | A record stored at the tail joins the unread ones and disturbs none. |
| FaultQueue.RingFull | src/hw/riscv/riscv-iommu.c:61-69 | The full test fires exactly when all but one entry is in use. |
| FaultQueue.FaultQueue.Enqueue | src/hw/riscv/riscv-iommu.c:39-94 | A bounded FIFO append that writes exactly the tail slot and advances the tail by one, or a drop with the right flag, tail and memory unchanged. |
| FaultQueue.FaultQueue.Consume | src/hw/riscv/riscv-iommu.c:628-635 | Moving the head removes the oldest records. |
| FaultQueue.FaultQueue.GuestStore | src/hw/riscv/riscv-iommu.c:39-94 | Guest writes outside unread slots do not change the queue. |
| FaultQueue.FaultQueue.WriteControl | src/hw/riscv/riscv-iommu.c:636-662 | Flags are cleared by writing one; the queue is on exactly when enabled with a usable base. |
| Serial.Irq.Set | src/core/irq.c:19-35 | The level follows the request only when the sink accepts; no change asks nothing. |
| Serial.Irq.Pulse | src/core/irq.c:47-59 | Low, high, low; refused when already high, and left high if and only if the sink accepts the rise and refuses the fall. |
| Serial.Uart.UpdateIrq | src/hw/char/uart16550.c:13-27 | Line and identification follow IER and LSR, or stay. |
| Serial.IdentificationExact | src/hw/char/uart16550.c:13-27 | Identification is 4 for enabled data ready, 2 for an enabled empty transmitter without it, and 1 exactly when the line should be low. |
| Serial.Uart.Receive | src/hw/char/uart16550.c:187-207 | A byte is taken if and only if none is held and the line settles; otherwise nothing changes. |
| Serial.Uart.ReadData | src/hw/char/uart16550.c:41-50 | The held byte is consumed if and only if the line settles; a read without data leaves data ready if and only if the line disagreed with the registers and the sink refuses. |
| Serial.Uart.Read | src/hw/char/uart16550.c:29-65 | Every register's value; only a receive-buffer read consumes. |
| Serial.Uart.WriteEnables | src/hw/char/uart16550.c:87-95 | Enables change or roll back with the line. |
| Serial.Uart.Write | src/hw/char/uart16550.c:67-106 | The effect on every register, and the bytes sent. |
| Serial.Uart.Connect | src/hw/char/uart16550.c:172-185 | A line is connected with the right level or not at all. |
| Serial.Uart.Reset | src/hw/char/uart16550.c:155-170 | All registers are cleared; the device is valid afterwards if and only if no line is connected, the line was low, or the sink accepts. |
| Serial.PhantomByte | src/hw/char/uart16550.c:41-50 | A run after which the guest reads a byte that was never received. |
| Console.Filled | src/hw/char/console.c:38-46 | Filling the ring at its tail appends. |
| Console.Console.QueueInput | src/hw/char/console.c:16-48 | As much as fits is accepted, in order. |
| Console.Console.CopyIn | src/hw/char/console.c:38-45 | The two copies, before and after the wrap, append to the ring. |
| Console.Console.DrainInput | src/hw/char/console.c:50-73 | Exactly when a byte moves, what is reported, and that nothing is lost when the line refuses. |
| Console.Console.Offer | src/hw/char/console.c:56-69 | The oldest byte moves to the UART, or ring and UART stay. |
| Console.Console.GuestRead | src/hw/char/uart16550.c:41-50 | The guest reads the accepted bytes in order. |
| Console.Console.Conserved | src/hw/char/console.c:16-73 | Accepted bytes are those read, then the held byte, then the ring. |

## Left out

- The command queue of the RISC-V IOMMU, MSI remapping and page-request queue: not modelled.
- Prefetchable bridge windows and guest writes to bridge window registers: the initial prefetch window gives no nesting.
- vCPU creation, destruction, joining and register access: thin wrappers around ioctls. The list of vCPUs is fixed, and the result code a thread leaves for joining is not kept.
- virtio-net, TAP, the SBI dispatcher, machine construction, the event loop and the command line: not modelled.
- Partial writes to BAR registers and the guest-writable MSI-X table-size bits: not modelled.
- VcpuProtocol.StepKeepsInv: atomics are sequentially consistent; weaker memory orders are not modelled.
- BlockDevice.BlockDevice.Notify: takes a bound on rounds, because a guest that keeps adding buffers keeps the loop of the source running.
- FaultQueue.FaultQueue.Enqueue: the queue base is fixed; a base write while the queue holds records is not modelled.
- Msix.Msix.FlushPending: a device reset, which clears the table and the pending bits, is not part of a run.
- PciTopology.InitBridgeKeepsInv: the bus tree is modelled on values, so update in place and pointer aliasing are not captured.
- PciTopology.StampBelowReaches: visits the devices placed on a bus rather than its 256 slots; the invariant makes them the same.
- PciHierarchy.StepKeepsInv: buses created directly with `vart_pci_bus_init` are not a step, as that call checks numbers only below the parent.
- PciWindows.RealizeBars: non-prefetchable BARs; the order of unmapping after a failure is in PciBars, not here.
- AddressSpace.AddressSpace.Add: growth of the region array is taken to succeed.
- PciTopology.RaiseAncestors: the copy of the subordinate number in the bridge's configuration byte 0x1a is not modelled; a guest never reads it, since reads of that register answer from the bus.
- DeviceDirectory.ApplyAll: the contexts are distinct objects; a binding without device or context, which is skipped, is not modelled.

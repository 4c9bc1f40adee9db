# Unified Buffer runtime: a Dafny model

This project models the runtime of the Unified Buffer library: reference-counted buffers that live in a
memory domain, are allocated against per-namespace accounts, return to a bounded reuse pool, are shared
through handles, leases, maps and views, and migrate between domains under a generation counter.

`dafny verify dfyconfig.toml` checks everything.

## How it is built

* **Values.** `Storage` holds the runtime's storage half as one value (records, registry, pool, accounts,
  native memory with a provenance for every byte) and one total function per operation, error paths
  included. `Protocol` adds control blocks and the callers' objects. What a backend answers is a parameter
  (`Env`): allocation, zeroing, copying and verification may each fail.
* **Invariants over runs.** `Outcomes` says what each call does to the accounts, for every answer of the backends.
  `Ownership`, `Conservation`, `Quotas`, `DomainCap`, `Reservations`, `Counting`, `Pooling`, `Contents` and
  `Provenance` prove what every step of the store keeps and lift it to all runs; `Tokens` does the same for the
  protocol. `Runs` projects a run of the protocol to a run of the store, so that every theorem about stores is one
  about the whole runtime. `Lifetimes` and `Transfers` draw the conclusions a caller relies on. `Departures` states
  exact conditions of what fails, `Witnesses` runs that fail.
* **In place.** `Runtime`, with `ReusePool`, `Ledger` and `Controls`, is the imperative form: classes whose
  methods follow the control flow of the source and are proved to change the fields as the value
  functions say. Those functions are the specification; the run theorems are about them.
* **Concurrency.** `RefProtocol` interleaves the atomic steps of retain, drop, finalize, lookup and shutdown,
  `MoveRaces` those of copies and lease grants with migrations.
* **Arithmetic.** `Crc32c`, `CheckedMath` and `SizeClass`, on `Words` (machine words as bounded naturals).

The safety invariants hold in every run from the first call, whatever callers do and backends answer: no block is
shared or freed twice (`Ownership.NoDoubleFree`), bytes stay where they were written (`Contents.RunKeepsBytes`), the
protocol is coherent (`Runs.RunCoherent`), the pool is sound (`Pooling.RunPoolSound`), pointers are good exactly while
their generation is current (`Lifetimes.RunPointers`).

What the code does not keep in every run is stated under predicates on single steps. `Regular`: neither a pool hit
whose zeroing the backend fails nor a migration of borrowed memory that passes; exactly these break ownership.
`NoWrapAt`: the charged account stays below 2^64 bytes. `Balancing`: in addition none of the steps that
`Conservation.StepExact` proves to be exactly the ones that upset the books. `Steady`: `NoWrapAt`, and only borrowed
memory is wrapped and only the runtime's own memory migrated. `Settling`: fresh blocks can be zeroed and copies verified,
without wrap-around. `Guarded` and `WipesOnRelease` speak of zeroing policies. `Modest`: a ceiling is not tested with a
sum that wraps, and namespaces are created before they are charged; `NamedFirst`: only the latter.

## Where the code departs from its documentation

The model follows the code. These findings are stated as theorems:

* A pool hit reserves bytes that it never commits or gives back (`Reservations.ReservedIsHits`,
  `Witnesses.ReuseStarves`).
* A failed zeroing, and a failed verification after migration, do not restore the accounts
  (`Reservations.AllocateShift`, `Reservations.MigrateShift`, `Witnesses.FailedZeroCharges`,
  `Witnesses.FailedVerifyCharges`); a failed zeroing of a pool slot also loses its block
  (`Ownership.StepOwned`, `Witnesses.FailedZeroLoses`).
* A pool hit across namespaces leaves the charge with the first one (`Conservation.StepExact`,
  `Witnesses.PhantomCharge`).
* The capacity of a domain is tested per namespace, although docs/MEMORY_DOMAINS.md says it applies across all of
  them (`DomainCap.CapExactly`, `Witnesses.CapFilledTwice`).
* Policies NEVER and ON_RELEASE let a hit show another namespace's bytes unless that one wiped them
  (`Provenance.StepPrivate`, `Witnesses.ReuseLeaks`).
* Migration frees borrowed memory, and looks at neither maps nor views (`Departures.LentFreedExactly`,
  `Lifetimes.PointerExact`, `Witnesses.LentMemoryFreed`, `Witnesses.MapLeftBehind`).
* Adopted and shared wraps are not charged but released as if they were (`Conservation.WrapReleaseExact`,
  `Witnesses.AdoptedUncharges`).
* READ_WRITE is not refused on a read-only buffer (`Departures.RefusedExactly`).
* Import trusts the namespace a descriptor declares, although docs/SECURITY.md says that cross-namespace import is
  always refused (`Transfers.ImportExactly`, `Transfers.MisdeclaredImport`).
* An import retains a control it has looked up without holding a reference, and shutdown can meet a control that its
  creator has not retained yet (`RefProtocol.UseAfterFreeExactly`, `RefProtocol.ShutdownBeforeRetain`).
* copy_to and copy_from read the backing pointer without the lock under which migrate frees it, and acquire_* check the
  generation before they lock (`MoveRaces.CopyDanglesExactly`, `MoveRaces.LeaseStaleExactly`, `MoveRaces.RacesHappen`).
* finalize_by_id locks a mutex that finalize locks again; in sequential runs it never gets that far
  (`Lifetimes.InvalidateNeverFinalizes`).

## Model

| member | source | states |
|---|---|---|
| CheckedMath.RangeInBounds | include/unified_buffer/core/checked_math.hpp:55-59 | true exactly if offset + length <= total, for all machine words, although the sum may overflow |
| CheckedMath.AlignUpIsLeastMultiple | include/unified_buffer/core/checked_math.hpp:33-39 | align_up fails exactly for a bad alignment or when no word is large enough, and otherwise yields the least multiple of the alignment that is not below the value |
| CheckedMath.IsAlignedMeansDivides | include/unified_buffer/core/checked_math.hpp:42-46 | is_aligned holds if and only if the alignment is a power of two that divides the value |
| CheckedMath.AlignDownIsGreatestMultiple | include/unified_buffer/core/checked_math.hpp:49-52 | for a power of two align_down is the greatest multiple not above the value |
| CheckedMath.AlignDownUnchecked | include/unified_buffer/core/checked_math.hpp:49-52 | align_down does not reject other alignments: a concrete call whose result is no multiple |
| SizeClass.AcceptedPlan | src/runtime.cpp:260-280 | an accepted request has a power-of-two alignment up to 4096 and is charged the least multiple of it that holds the size; the overflow error is unreachable |
| SizeClass.SizeClassFor | src/runtime.cpp:241-247 | the 64-bit doubling loop terminates and never overflows for sizes up to 2^48 |
| SizeClass.ClassFit | src/runtime.cpp:241-247 | the class is a doubling of the minimum, covers the size unless capped, and is less than twice any size above the minimum |
| Crc32c.Table | src/core/integrity.cpp:8-19 | every table entry is eight bit steps of its index |
| Crc32c.Checksum | src/core/integrity.cpp:22-28 | the table loop computes the bit-serial reflected Castagnoli division (section 12.1 of RFC 3720) for every input and seed |
| Crc32c.TableIdentity | src/core/integrity.cpp:11-15 | eight bit steps of a word are a table look-up of its low byte combined with the rest shifted |
| Crc32c.FeedWord | src/core/integrity.cpp:22-28 | feeding message bits one by one equals mixing them in as one word and stepping |
| Crc32c.Chaining | src/core/integrity.cpp:22-28 | crc(a + b, s) equals crc(b, crc(a, s)) |
| Crc32c.BurstDetected | src/core/integrity.cpp:22-28 | inputs that differ in a burst of at most 32 bits, at any bit offset, have different checksums for every seed |
| Crc32c.FourBytesDetected | src/core/integrity.cpp:22-28 | inputs that differ only within four adjacent bytes have different checksums |
| Crc32c.ConstantResidue | src/core/integrity.cpp:22-28 | appending the checksum in little-endian order gives a checksum that does not depend on the message or the seed |
| Runtime.MetaCrcOf | src/export.cpp:10-18 | the five seeded calls compute the checksum of the concatenated fields |
| Accounting.ReserveThenUndo | src/runtime.cpp:157-187 | reserving and giving back restores every balance |
| Accounting.ReserveThenCommit | src/runtime.cpp:157-181 | reserving and committing moves exactly the bytes into committed |
| Outcomes.AllocateShifts | src/runtime.cpp:285-404 | what an allocation does to reserved, committed and count of its account, on every path and for every answer of the backends, and that it touches no other account |
| Outcomes.MigrateShifts | src/runtime.cpp:691-741 | the same for a migration, on the target's account and the source's |
| Quotas.StepWithin | src/runtime.cpp:157-231 | every operation, whatever the backends answer, keeps committed + reserved of every account within its nonzero capacity and quota, provided the sum that is tested does not wrap past 2^64 or the ceiling is low enough that it cannot |
| Quotas.RunWithin | src/runtime.cpp:157-231 | so does every run of such steps, if namespaces are created before they are charged |
| Quotas.BoundedIsRoomy | src/runtime.cpp:157-168 | a capacity or quota below 2^64 by one request is itself what keeps the sums from wrapping |
| Quotas.ReserveUnderExactly | src/runtime.cpp:157-168 | for any 64-bit ceiling an accepted reservation stays under it if and only if the tested sum does not wrap or the counter wraps with it |
| Quotas.ReserveWraps | src/runtime.cpp:163 | an account filled to a capacity of 2^64 - 1 accepts one more byte and is then charged beyond it; Witnesses.FullAccount reaches one |
| Quotas.NativeWithin | src/runtime.cpp:157-214 | with exact books the native bytes of an account stay within its capacity and quota |
| DomainCap.CapExactly | src/runtime.cpp:157-168 | for every answer of the backends, a domain of nonzero capacity that is within it over all namespaces stays so across a step if and only if what all of them are charged and what the step adds fit together |
| DomainCap.OneNamespaceWithinCap | src/runtime.cpp:157-168 | a domain that only one namespace is charged on stays within its capacity in every run |
| Reservations.AllocateShift | src/runtime.cpp:285-388 | a failed allocation leaves every balance as it was if and only if it did not fail in zeroing; a fresh success moves the bytes to committed, a pool hit leaves them reserved |
| Reservations.MigrateShift | src/runtime.cpp:701-717 | a failed migration leaves every balance as it was except when verification fails after the commit, with the exact condition |
| Reservations.ReservedIsHits | src/runtime.cpp:292-332 | between calls the reserved amount is exactly the bytes of all pool hits so far, in every run in which fresh blocks can be zeroed and copies verified |
| Counting.StepCounted | src/runtime.cpp:216-231 | exact counts stay exact across a step if and only if it does not lose a block |
| Counting.LiveWithinCountQuota | src/runtime.cpp:216-231 | a namespace never has more live buffers than its count quota, whatever the backends answer, in every run that creates namespaces before their identifier is used |
| Ownership.StepOwned | src/runtime.cpp:285-598 | a step keeps each block ever seen in exactly one place (a live record, an idle slot, freed once, or handed back once) if and only if it is neither a pool hit that cannot be zeroed nor a migration of borrowed memory; all other backend failures are harmless |
| Ownership.StepSafe | src/runtime.cpp:285-741 | every step, without any hypothesis, keeps each block in at most one place and never freed twice, memory intact and identities unique |
| Ownership.NoDoubleFree | src/runtime.cpp:285-741 | after every run, whatever callers do and backends answer, no block has been freed more than once, every live buffer's block is in the heap, idle nowhere and shared with nobody |
| Ownership.RunSound | src/runtime.cpp:285-598 | linear ownership, intact memory and identity after every run of such steps |
| Ownership.RunOwnedExactly | src/runtime.cpp:285-741 | ownership holds throughout a run if and only if every step is such a step |
| Ownership.HitLost | src/runtime.cpp:375-382 | the block of a hit that cannot be zeroed is neither held, idle nor freed |
| Ownership.MigrateLent | src/runtime.cpp:733-735 | a migration of borrowed memory that passes takes a lent block out of the heap |
| Storage.MigrateExactly | src/runtime.cpp:691-740 | a migration succeeds if and only if the target is enabled, the reservation is accepted and covers the commit, and the backends allocate, copy and verify |
| Ownership.HeldApart | src/runtime.cpp:495-530 | two live buffers never share a block |
| Ownership.HeldNotIdle | src/runtime.cpp:495-530 | a block in use is never idle in the pool |
| Records.StepIdentified | src/runtime.cpp:390-404 | identifiers are never reused, the registry is exactly the live buffers, and allocations = frees + registry size |
| Records.LookupExact | src/runtime.cpp:483-490 | lookup yields buffer c if and only if it is live with that generation, and never another buffer |
| Conservation.StepExact | src/runtime.cpp:189-214 | for every answer of the backends and every ownership, exact books stay exact across a step if and only if it is none of these: a pool hit across namespaces, a fresh block that cannot be zeroed, a device copy that cannot be verified, a migration of wrapped memory that passes, the release of adopted or shared memory on a charged account |
| Conservation.RunExact | src/runtime.cpp:189-214 | in runs without such a step committed equals live plus idle native bytes for every account |
| Conservation.RunExactly | src/runtime.cpp:189-214 | the books are exact throughout a run without wrap-around if and only if no step of it is such a step |
| Conservation.WrapReleaseExact | src/runtime.cpp:443-449 | releasing wrapped memory keeps the books exact if and only if it was borrowed or its account was empty |
| Conservation.OneNamespaceExact | src/runtime.cpp:189-214 | with one namespace no hit can cross, so the books are always exact |
| Conservation.DrainedToZero | src/runtime.cpp:544-561 | after everything is released a trim brings every account to zero |
| Conservation.NeverUnderReported | src/runtime.cpp:641-671 | with any number of namespaces, and whatever the backends answer, the reported bytes of a domain are never below the native bytes, in runs that wrap only borrowed memory and migrate only the runtime's own |
| Pooling.RunPoolSound | src/runtime.cpp:495-561 | the pool counters equal the slots and their bytes and stay within the configured limits, and every slot suits its key, in every run whatever happens |
| Pooling.PlanWithinClass | src/runtime.cpp:241-280 | with class bounds that are multiples of 4096, a request below the maximum class fits its class |
| Pooling.PoolHitFits | src/runtime.cpp:317-328 | a pool hit has the requested alignment and at least the least sufficient size; below the maximum class it wastes less than half |
| Contents.StepRefinesMap | src/runtime.cpp:285-741 | every operation, whatever the backends answer, acts on buffer contents as an update of a plain map; pooling, trimming and migration, failed or not, do nothing to it |
| Contents.RunKeepsBytes | src/runtime.cpp:684-741 | a live buffer that is not written to keeps its bytes through every run |
| Contents.WriteBytes | src/buffer.cpp:202-216 | copy_from replaces exactly the prefix |
| Provenance.StepPrivate | src/runtime.cpp:359-384 | a step leaves every buffer and slot with only fresh bytes, zeros and its own namespace's bytes (in wrapped memory also the caller's) if and only if it is not a hit on foreign bytes that the policy does not zero |
| Provenance.GuardedRunPrivate | src/runtime.cpp:359-384 | so does every run under ON_ALLOCATE, ON_CROSS_OWNER_REUSE or ALWAYS, whatever the backends answer |
| Provenance.WipedRunPrivate | src/runtime.cpp:423-441 | and every run in which only namespaces that wipe on release give buffers back |
| Provenance.HandedOutZeroed | src/runtime.cpp:359-387 | under ON_ALLOCATE or ALWAYS a buffer that is handed out reads all zeros |
| Tokens.TakenOk | src/buffer.cpp:111-159 | taking a handle, view, map or lease keeps the control's invariant and the transition table |
| Tokens.DroppedOk | src/buffer.cpp:241-302 | so does giving one up; the last one ends in RELEASED |
| Tokens.ReleaseConsistent | src/buffer.cpp:29-39 | release in any state: the last object, and no other, finalizes the buffer |
| Tokens.MoveAssignConsistent | src/buffer.cpp:19-26 | move assignment releases the destination and conserves every counter |
| Tokens.MigrateConsistent | src/runtime.cpp:779-790 | migration keeps counters, leases, lifecycle and pointers consistent |
| Tokens.StepConsistent | src/buffer.cpp:15-302 | every operation keeps: counters equal the objects that exist, finalized if and only if no references if and only if RELEASED, MAPPED and IN_USE mean a map or lease is out, write leases are exclusive and current |
| Runs.StepProjects | src/runtime.cpp:754-822 | a protocol step changes the store by exactly one store operation or not at all |
| Runs.RunProjects | src/runtime.cpp:754-822 | the store after a run is the store after its history, and hypotheses carry over both ways |
| Runs.RunCoherent | src/buffer.cpp:15-302 | the protocol invariants hold in every state of every run, whatever callers do and backends answer |
| Runs.RunSafe | src/runtime.cpp:285-741 | memory is safe as well in every state of every run, without any hypothesis |
| Runs.RunOwned | src/runtime.cpp:285-741 | and each block is in exactly one place in every run of steps that keep ownership |
| Runs.RunLegal | src/runtime.cpp:604-625 | every lifecycle change in every run is in the transition table |
| Lifetimes.AcquireExact | src/buffer.cpp:133-159 | a lease is granted if and only if the handle is alive and all lease objects on the buffer, and the wish, are for reading |
| Lifetimes.LeasesExclude | src/buffer.cpp:133-159 | two lease objects on one buffer are both read leases |
| Lifetimes.MigrateConflictExact | src/runtime.cpp:686-690 | a migration elsewhere is refused for a lease if and only if a write or exclusive lease object exists |
| Lifetimes.FinalizedExactly | src/runtime.cpp:406-411 | a buffer is finalized if and only if no object refers to it |
| Lifetimes.ReferencesAreObjects | src/buffer.cpp:82-159 | the reference count is the number of handles, leases, maps and views |
| Lifetimes.LastDropAllocated | src/runtime.cpp:408-454 | the last release always finalizes from ALLOCATED |
| Lifetimes.InvalidateNeverFinalizes | src/runtime.cpp:467-481 | finalize_by_id answers busy for every registered buffer and stale for every other id |
| Lifetimes.ShutdownFindsNone | src/runtime.cpp:54-66 | shutdown never finds a registered buffer without references |
| Lifetimes.GenerationCounts | src/runtime.cpp:729-731 | a generation grows by exactly the successful cross-domain migrations; the id never changes |
| Lifetimes.StaleForever | src/buffer.cpp:41-50 | a superseded generation is refused in every later state |
| Lifetimes.PointerExact | src/buffer.cpp:91-131 | the pointer of a map or view is good if and only if its generation is current, and then it sees the buffer's own bytes |
| Lifetimes.RunPointers | src/buffer.cpp:91-131 | the same for every map and view in every state of every run |
| Lifetimes.NothingLeaks | src/runtime.cpp:416-465 | when no object is left, a trim leaves every block freed exactly once, or returned exactly once if borrowed |
| Lifetimes.RunLeavesNothing | src/runtime.cpp:285-741 | the same for every run from the first call that keeps ownership |
| Lifetimes.RunBalances | src/runtime.cpp:189-214 | and every account is then empty if no hit crossed |
| Lifetimes.RunIsolates | src/runtime.cpp:359-384 | in runs of the whole protocol under those policies buffers and slots hold only fresh bytes, zeros and their own namespace's bytes; who holds a handle is a matter of Transfers.ImportExactly |
| Transfers.ReadBack | src/buffer.cpp:186-216 | copy_to delivers what copy_from stored, at any offset that fits and through any later handle and run without another write |
| Transfers.CopyToExactly | src/buffer.cpp:186-200 | copy_to succeeds if and only if offset and length together fit the buffer, and then puts its first bytes at the offset |
| Transfers.ChecksumKept | src/buffer.cpp:176-184 | the checksum survives everything but writes, migrations included |
| Transfers.ChecksumTells | src/buffer.cpp:176-184 | contents that differ within four adjacent bytes have different checksums |
| Transfers.VerifyExact | src/buffer.cpp:161-174 | verify never raises a false alarm: it succeeds if and only if the handle, domain and backend are in order |
| Transfers.VerifyDetects | src/buffer.cpp:170-172 | once a metadata checksum is stored, damage within four adjacent metadata bytes makes verify fail |
| Transfers.ExportImport | src/export.cpp:58-121 | a local descriptor imports, at any later time, if and only if it is authorized and the buffer is live in the same generation, and then onto the same buffer |
| Transfers.ImportExactly | src/export.cpp:58-121 | any descriptor, true or not, imports onto buffer c if and only if format and declared namespace are in order and c is live with that id and generation; the handle stays inside the namespace if and only if the descriptor names the record's |
| Transfers.MisdeclaredImport | src/export.cpp:67-72 | a descriptor that declares the importing namespace yields a handle on a buffer of another one |
| RefProtocol.ActCounts | src/runtime.cpp:406-418 | in every interleaving refs equals the references held and the flag is won at most once |
| RefProtocol.CleanedExactlyOnce | src/runtime.cpp:406-465 | the body of finalize runs at most once, and exactly once when all threads are at rest without references |
| RefProtocol.SaneExactly | src/runtime.cpp:406-418 | a step lets references and teardown overlap if and only if it is a late retain of a pointer found earlier |
| RefProtocol.UseAfterFreeExactly | src/runtime.cpp:406-490 | over whole interleavings |
| RefProtocol.HandlesOnlySafe | src/buffer.cpp:82-89 | from the creator's retain on, every interleaving that makes references only from held ones keeps references and teardown apart |
| RefProtocol.LateRetainHappens | src/export.cpp:114-119 | an import that looked up before the last drop and retains after it does overlap |
| RefProtocol.LateRetainReachable | src/export.cpp:114-119 | two threads reach that situation from registration |
| RefProtocol.ShutdownBeforeRetain | src/runtime.cpp:754-759 | so does a shutdown between registration and the creator's retain |
| MoveRaces.RunValid | src/buffer.cpp:133-216 | in every interleaving the current block is never freed, a fetched pointer is the current block or a freed one according to its generation, and the generation counts the moves |
| MoveRaces.CopyDanglesExactly | src/buffer.cpp:186-216 | a copy touches freed memory if and only if another thread migrates the buffer between the read of its pointer and the copy |
| MoveRaces.CopyStaleExactly | src/buffer.cpp:186-216 | a copy acts on another generation than its handle was checked for if and only if the buffer moved in between |
| MoveRaces.LeaseStaleExactly | src/buffer.cpp:133-159 | a lease is granted for a superseded generation if and only if the buffer moved between the check and the lock |
| MoveRaces.LeaseHoldsStill | src/runtime.cpp:690 | while a write or exclusive lease is held the buffer does not move in any interleaving |
| MoveRaces.LeasedCopySafe | src/buffer.cpp:186-216 | so copies under such a lease never touch freed memory, whoever holds it |
| MoveRaces.RacesHappen | src/buffer.cpp:194-196 | any two threads without a lease can reach both races |
| ReusePool.SlotPool.Take | src/runtime.cpp:495-514 | the scan of one deque takes the first fitting slot of the merged pool, and the counters follow |
| ReusePool.SlotPool.Put | src/runtime.cpp:516-530 | the slot joins the end of its deque |
| ReusePool.ScanFinds | src/runtime.cpp:503-512 | the first fit in a deque is the first fit in the merged order |
| Ledger.Book.Reserve | src/runtime.cpp:157-168 | reserve_amount in place |
| Ledger.Book.Commit | src/runtime.cpp:170-181 | commit_amount in place |
| Ledger.Book.Unreserve | src/runtime.cpp:183-187 | unreserve_amount in place |
| Ledger.Book.Uncharge | src/runtime.cpp:208-214 | free_accounting in place |
| Ledger.Book.TakeCount | src/runtime.cpp:216-225 | reserve_count in place |
| Ledger.Book.GiveCount | src/runtime.cpp:227-231 | release_count in place |
| Ledger.Book.CommittedOn | src/runtime.cpp:648-661 | the telemetry loop sums exactly the accounts of the domain, in any order |
| Controls.ControlBlock.Acquire | src/buffer.cpp:133-159 | granted exactly without a conflict, and then the control is the taken one |
| Controls.ControlBlock.EnterMap | src/buffer.cpp:118-128 | a map counts, retains and moves the state if the table allows |
| Controls.ControlBlock.LeaveLease | src/buffer.cpp:241-252 | the lease counter and the IN_USE state are given back |
| Controls.ControlBlock.LeaveMap | src/buffer.cpp:270-279 | the map counter and the MAPPED state are given back |
| Controls.ControlBlock.Unref | src/runtime.cpp:408-410 | tells whether this was the last reference |
| Runtime.RuntimeImpl.constructor | src/runtime.cpp:20-50 | an empty runtime with the default namespace and the configured ones numbered in order |
| Runtime.NumberNamespaces | src/runtime.cpp:41-49 | the loop gives each configured namespace the next identifier |
| Storage.NamespacesInOrder | src/runtime.cpp:41-49 | configured namespace i has identifier i + 2, after the default one |
| Runtime.RuntimeImpl.AllocateStore | src/runtime.cpp:285-404 | allocate_record and register_control do to the fields what Storage.Allocate does to their value, error paths included |
| Runtime.RuntimeImpl.FinalizeStore | src/runtime.cpp:416-465 | finalize refines Storage.Finalize |
| Runtime.RuntimeImpl.Dispose | src/runtime.cpp:423-452 | pool, evict, free or hand back |
| Runtime.RuntimeImpl.WrapStore | src/runtime.cpp:565-598 | wrap_external refines Storage.Wrap |
| Runtime.RuntimeImpl.MigrateStore | src/runtime.cpp:691-741 | migrate refines Storage.Migrate on every path |
| Runtime.RuntimeImpl.PoolTrim | src/runtime.cpp:544-561 | the nested loops free every slot, and the result does not depend on the order of the hash map |
| Runtime.FreeSlotTrims | src/runtime.cpp:546-558 | freeing one slot and then trimming is the same as trimming |
| Runtime.RuntimeImpl.ValidateAlive | src/buffer.cpp:41-50 | validate_alive |
| Runtime.RuntimeImpl.Share | src/buffer.cpp:82-89 | refines Protocol.Share |
| Runtime.RuntimeImpl.View | src/buffer.cpp:91-109 | refines Protocol.OpenView |
| Runtime.RuntimeImpl.Map | src/buffer.cpp:111-131 | refines Protocol.OpenMap; the backends that can be mapped always succeed |
| Runtime.RuntimeImpl.Acquire | src/buffer.cpp:133-159 | refines Protocol.Acquire |
| Runtime.RuntimeImpl.Release | src/buffer.cpp:241-302 | release of any object refines Protocol.Release |
| Runtime.RuntimeImpl.MoveAssign | src/buffer.cpp:19-26 | refines Protocol.MoveAssign |
| Runtime.RuntimeImpl.Allocate | src/runtime.cpp:754-767 | refines Protocol.AllocateBuffer |
| Runtime.RuntimeImpl.WrapExternal | src/runtime.cpp:769-777 | refines Protocol.WrapExternal |
| Runtime.RuntimeImpl.Migrate | src/runtime.cpp:779-790 | refines Protocol.MigrateBuffer |
| Runtime.RuntimeImpl.CopyFrom | src/buffer.cpp:202-216 | refines Protocol.CopyFrom |
| Runtime.RuntimeImpl.Import | src/export.cpp:58-121 | refines Protocol.ImportLocal for descriptors of host, pinned and device memory |
| Runtime.RuntimeImpl.CreateNamespace | src/runtime.cpp:127-134 | ids follow the number of namespaces |
| Departures.LentFreedExactly | src/runtime.cpp:733-735 | borrowed memory is freed by an operation if and only if it migrates the wrapping buffer and every guard of the migration passes |
| Departures.RefusedExactly | src/buffer.cpp:52-59 | a read-only buffer refuses exactly the wish WRITE |
| Departures.ReadOnlyMapsForWriting | src/buffer.cpp:111-131 | so it can be mapped READ_WRITE |
| Witnesses.ReuseLeaks | src/runtime.cpp:317-384 | a run in which one namespace reads another one's byte under policy NEVER |
| Witnesses.ReuseStarves | src/runtime.cpp:295-332 | a run in which an idle runtime refuses a request because of a pool hit's reservation |
| Witnesses.PhantomCharge | src/runtime.cpp:552-554 | in which a namespace is charged for memory that was freed, and the domain reports more than it has |
| Witnesses.CapFilledTwice | src/runtime.cpp:160-163 | in which two namespaces hold 8192 bytes of a domain with a capacity of 6144 |
| Witnesses.LentMemoryFreed | src/runtime.cpp:733-735 | in which borrowed memory is wrapped, migrated and thereby freed |
| Witnesses.AdoptedUncharges | src/runtime.cpp:443-449 | in which releasing adopted memory takes a live buffer's charge |
| Witnesses.FailedZeroCharges | src/runtime.cpp:379 | in which a fresh device block that cannot be zeroed stays charged |
| Witnesses.FailedZeroLoses | src/runtime.cpp:379 | in which a device slot that cannot be zeroed is lost |
| Witnesses.FailedVerifyCharges | src/runtime.cpp:717 | in which a device copy that cannot be verified stays charged |
| Witnesses.MapLeftBehind | src/runtime.cpp:690 | in which a map outlives the block it points at |
| Witnesses.Configured | src/runtime.cpp:41-49 | the runs' namespace table is the one a runtime with one configured namespace starts with |
| Witnesses.FullAccount | src/runtime.cpp:157-168 | a run in which wrapped memory is migrated onto an account until it reads 2^64 - 1, and one more byte is accepted |

## Left out

- What happens after shutdown: the closed flag, and finalizations once the backends are gone.
- Shared-memory and file exports and imports, which alias operating-system objects and skip the accounts.
- CUDA beyond the abstract backend contract; a device's zeroing at release is taken to succeed.
- Telemetry that nothing reads back: allocated and idle bytes per domain, the peak, event counters, the decision log.
- Writes through the raw pointers of maps and views: only copy_from writes.
- Wrap-around of generations, identifiers, reference counts and pool byte counters at 2^32 or 2^64; account sums do wrap in the model.
- The hash maps' insertion of zero entries on a lookup: absent and zero entries read the same.
- Control blocks are objects in `Controls`, but are referred to by position instead of by pointer, and their records are kept in a table beside them.
- The flag zero_on_alloc, which the source never consults, and the NUMA hint.
- CLI, benchmarks, statistics, capability bits, string conversions and backend internals: they would only add easy members.
- Crc32c.Checksum: takes the data as a sequence; the pointer and length of the source are not modelled.
- Quotas.RunWithin: assumes of each step that the sum tested against a ceiling within one request of 2^64 does not wrap (Quotas.ReserveUnderExactly says what happens when it does).
- Quotas.StepWithin: the same.
- Conservation.NeverUnderReported: says nothing once adopted or shared memory is wrapped or wrapped memory is migrated; it fails there (Witnesses.AdoptedUncharges).
- RefProtocol.ActCounts: models one control block; the sequential theorems cover many.
- MoveRaces.RunValid: models one buffer and at most one lease per thread, with handles that keep it alive.

# Montura/OS exercises in Dafny

This project models four small sequential pieces of an operating-systems
exercise repository and proves properties of them:

- **Round-robin scheduler bookkeeping** (`robin_round.cpp`). The global state
  holds four things: the running thread id (`-1` when the CPU is idle), a
  quantum, a tick counter and a FIFO ready queue. This state becomes the
  class `RoundRobin.Scheduler`. The entry points setup, new, exit, block,
  wake and tick are methods that update the fields in place, and `current`
  is a method that only reads them. Each updating method is specified by a
  function on `Sched` values (`SetupState`, `Admit`, `Yield`, `Tick`).
  Lemmas state the effect of each function and how it treats:
  - the invariant (an idle CPU means an empty queue, and with a quantum of at
    least one tick the counter stays below it), which every function keeps;
  - the multiset of active threads: `Tick` keeps it, `Admit` adds the
    admitted id, and `Yield` removes the running thread;
  - the pairwise distinctness of their ids, which every function keeps.
- **x86-64 four-level page-table walk** (`main.cpp`). This is IA-32e paging
  with 4-KByte pages, as in section 4.5 of the Intel 64 and IA-32
  Architectures Software Developer's Manual, Volume 3A.
  - `mask` is a loop method proved equal to a reference bit-range word.
  - The address parts are `bv64` masks and shifts.
  - `foo` is a function that reads one entry, and `map_addr` is a method with
    the source's four unrolled steps and early returns.
  - The method is proved to give the outcome of a reference walk (`Walk`,
    `WalkKeys`), and properties of the walk are proved separately.
  - The `ofstream` output is the returned value `Fault | Phys(addr)`.
  - The two loops of `main` are modelled as methods over parameters:
    `BuildTable` stores the pairs and `MapQueries` answers the queries.
  - The map from physical address to entry is a Dafny `map` keyed by the
    address as a number.
  - The presence check reproduces the source's `mask(0, 1)`. It tests bits
    0 and 1, not only the P bit 0, and `PresenceCheckCoversBitOne` shows the
    difference.
- **ELF64 header and program-header decoding** (`src/read_elf.cpp`). This
  follows chapters 4 ("ELF Header") and 5 ("Program Header") of the System V
  gABI.
  - A file is a byte sequence, or `None` when reading it failed.
  - The packed structs `elf_hdr` and `elf_phdr` are lists of little-endian
    fields. The header decoder reads at offsets derived from the field
    sizes. The other readers use constant offsets, which `Layout` proves
    equal to the derived ones. An encoder of the same layout shows that
    decoding gives every field back.
  - `entry_point` is a function.
  - `space` is a method whose loop is proved equal to the sum of `p_memsz`
    over the `PT_LOAD` entries, modulo 2^64.
- **Read-modify-write operations from load-linked / store-conditional**
  (`rmw_register.cpp`).
  - The register is the class `AtomicInt` and `*expected_value` is
    `IntCell`.
  - `load_linked` is a plain read.
  - The retry loops of `atomic_fetch_add` and `atomic_compare_exchange` are
    methods proved against the sequential contracts of their doc comments,
    with the worked examples as methods.

Integer widths are explicit. `Int32`, `UInt64` and `Byte` are subset types.
Conversion to `uint64_t` is `ToUInt64`, which works modulo 2^64. The page
walk computes on `bv64`.

## Model

| member | source | states |
|---|---|---|
| MachineWords.ToUInt64 | robin_round.cpp:23 | converting an `int` to `uint64_t` gives a value congruent to it modulo 2^64, and the same value when it is already in range |
| RoundRobin.SetupIsIdle | robin_round.cpp:21-26 | after setup: no running thread (-1), empty queue, time 0, no active thread, invariant holds; the quantum is the given one, or that plus 2^64 when negative |
| RoundRobin.AdmitEffect | robin_round.cpp:33-40 | `new_thread` (and `wake_thread`, same body): on an idle CPU the thread runs with time 0 and the queue is unchanged; otherwise it joins the queue tail, and the running thread and time are unchanged; for an id other than -1 the invariant is kept and the thread joins the active multiset |
| RoundRobin.YieldEffect | robin_round.cpp:49-57 | `exit_thread` (and `block_thread`, same body): the queue head runs with time 0, or with an empty queue the CPU goes idle and time is unchanged; the invariant is kept and the running thread leaves the active multiset |
| RoundRobin.TickEffect | robin_round.cpp:94-104 | below the quantum a tick only increments time; at the quantum time restarts at 0, and with a non-empty queue the running thread moves to the tail and the head runs; a counter at 2^64 - 1 wraps to 0 |
| RoundRobin.RotateKeepsThreads | robin_round.cpp:97-101 | pushing the running thread and popping the head keeps the same multiset of threads |
| RoundRobin.TickKeepsActive | robin_round.cpp:94-104 | a tick keeps the invariant (including time < quantum for a quantum of at least 1) and the multiset of active threads |
| RoundRobin.IdleOnlyWhenNoneActive | robin_round.cpp:106-115 | under the invariant the running id is -1 exactly when no thread is active |
| RoundRobin.AdmitKeepsDistinct | robin_round.cpp:29-40 | admitting an id that is not active (unique new ids, woken threads were blocked) keeps the active ids pairwise distinct |
| RoundRobin.YieldKeepsDistinct | robin_round.cpp:49-74 | exiting or blocking keeps the active ids pairwise distinct |
| RoundRobin.TickKeepsDistinct | robin_round.cpp:94-104 | a tick keeps the active ids pairwise distinct |
| RoundRobin.Scheduler.constructor | robin_round.cpp:5-8 | the globals start as -1, quantum 0, time 0, empty queue |
| RoundRobin.Scheduler.Setup | robin_round.cpp:21-26 | the new state is `SetupState(timeslice)` |
| RoundRobin.Scheduler.NewThread | robin_round.cpp:33-40 | the new state is `Admit` of the old state and the id |
| RoundRobin.Scheduler.ExitThread | robin_round.cpp:49-57 | the new state is `Yield` of the old state |
| RoundRobin.Scheduler.BlockThread | robin_round.cpp:66-74 | the new state is `Yield` of the old state |
| RoundRobin.Scheduler.WakeThread | robin_round.cpp:81-88 | the new state is `Admit` of the old state and the id |
| RoundRobin.Scheduler.TimerTick | robin_round.cpp:94-104 | the new state is `Tick` of the old state |
| RoundRobin.Scheduler.CurrentThread | robin_round.cpp:113-115 | returns the running id; under the invariant it is -1 only when no thread is active |
| Paging.OrOneBit | main.cpp:18 | `res \| (1 << j)` has bit k set exactly when `res` has it or k = j |
| Paging.BitRangeBits | main.cpp:15-21 | the reference word for bits `first .. end - 1` has bit k set exactly when first <= k < end |
| Paging.MaskOfBits | main.cpp:15-21 | `mask(first, last)` has bit k set exactly when first <= k <= last |
| Paging.Mask | main.cpp:15-21 | the loop's result is the reference mask for the bits `first .. last` |
| Paging.MaskConstants | main.cpp:30-36 | each address-part mask written out is `mask` of the bit range the source names |
| Paging.AddressParts | main.cpp:30-40 | each of the four table indices is below 512, the offset is below 4096, and together they give back bits 0 .. 47 of the address |
| Paging.PresenceCheckCoversBitOne | main.cpp:36 | the presence check passes an entry with only bit 1 set and rejects one with bits 0 and 1 clear |
| Paging.Foo | main.cpp:47-60 | returns 0 exactly when bits 0 and 1 of the entry stored at `(base & bits 12..51) + index * 8` (0 when absent) are both clear, and otherwise returns that entry |
| Paging.AbsentEntryFaults | main.cpp:42-45 | an entry missing from the map reads as 0, so the step faults |
| Paging.WalkStep | main.cpp:65-68 | one `foo` step is one lookup of the reference walk: it stops there on a fault and continues from the entry otherwise |
| Paging.Walk | main.cpp:85-87 | a successful walk keeps the page offset (`addr % 4096 == logical % 4096`) and lands below 2^52 |
| Paging.WalkEndsWith | main.cpp:85-89 | when the last entry read is present, the walk gives its frame address plus the page offset |
| Paging.WalkFaultsWith | main.cpp:54-57 | when the last entry read is not present, the walk faults |
| Paging.FaultAtPlm4 | main.cpp:65-68 | a fault at the PML4 entry makes one lookup and yields Fault |
| Paging.FaultAtDirectoryPtr | main.cpp:70-73 | a fault at the page-directory-pointer entry makes two lookups and yields Fault |
| Paging.FaultAtDirectory | main.cpp:75-78 | a fault at the page-directory entry makes three lookups and yields Fault |
| Paging.FaultAtTable | main.cpp:80-83 | a fault at the page-table entry makes four lookups and yields Fault |
| Paging.Translates | main.cpp:80-89 | four present entries make four lookups and yield the last entry's frame plus the page offset |
| Paging.WalkLookupCount | main.cpp:62-90 | a walk makes between one and four lookups, and exactly four when it succeeds |
| Paging.WalkStopsAtFirstFault | main.cpp:62-83 | every entry the walk reads before its last one is present, so it stops at the first entry that is not |
| Paging.LastStep | main.cpp:85-87 | the address formed with `part_of_logical_address` is the entry's bits 12..51 plus the logical address's bits 0..11 |
| Paging.MapAddr | main.cpp:62-90 | the outcome is the reference walk's outcome and the entries read are its lookups |
| Paging.TableOfKeys | main.cpp:102-105 | after the table loop a key is present exactly when some pair stored it |
| Paging.TableOfLastStore | main.cpp:102-105 | a key maps to the value of the last pair that stored it |
| Paging.BuildTable | main.cpp:102-105 | the loop's map is the reference table of the pairs in order |
| Paging.Answers | main.cpp:108-111 | one outcome per query |
| Paging.MapQueries | main.cpp:108-111 | the outcomes are, in order, the walk of each query from the root |
| ElfReader.FieldOfEncoding | src/read_elf.cpp:49-50 | reading an n-byte little-endian field back from the bytes of a value below 256^n gives the value |
| ElfReader.EncodingOfField | src/read_elf.cpp:49-50 | writing the value of an n-byte field back gives its bytes |
| ElfReader.EncodedField | src/read_elf.cpp:11-26 | field k of a packed struct laid out from field sizes reads back as `values[k]`, whatever follows the struct |
| ElfReader.Layout | src/read_elf.cpp:11-38 | `e_entry` at 24, `e_phoff` at 32, `e_phentsize` at 54, `e_phnum` at 56, header size 64; `p_type` at 0, the other fields at 4, 8, 16, 24, 32, `p_memsz` at 40, `p_align` at 48, entry size 56 |
| ElfReader.HeaderField | src/read_elf.cpp:11-26 | each header field read is below 256 to the power of its width |
| ElfReader.PhdrField | src/read_elf.cpp:29-38 | each program-header field read is below 256 to the power of its width |
| ElfReader.EncodeHeader | src/read_elf.cpp:11-26 | a header image is `sizeof(elf_hdr)` = 64 bytes |
| ElfReader.EncodePhdr | src/read_elf.cpp:29-38 | a program-header image is `sizeof(elf_phdr)` = 56 bytes |
| ElfReader.HeaderRoundTrip | src/read_elf.cpp:11-26 | decoding the image of a header, whatever follows it, gives the header back |
| ElfReader.PhdrRoundTrip | src/read_elf.cpp:29-38 | copying a program header out of its image at any offset gives it back |
| ElfReader.EntryPoint | src/read_elf.cpp:42-54 | 0 when the read failed; otherwise the 8-byte little-endian field at byte 24, which for a buffer holding a whole header is the `e_entry` of the decoded header |
| ElfReader.EntryPointOfImage | src/read_elf.cpp:49-50 | the entry point of a file starting with header h is `h.e_entry` |
| ElfReader.TableFieldsOfHeader | src/read_elf.cpp:65-70 | the three fields `space` reads are the decoded header's `e_phoff`, `e_phentsize` and `e_phnum` |
| ElfReader.EntryStartIsProduct | src/read_elf.cpp:75 | entry i starts at `e_phoff + i * e_phentsize` |
| ElfReader.EntryOffset | src/read_elf.cpp:75 | computes where entry i starts |
| ElfReader.ContributionOfEntry | src/read_elf.cpp:75-79 | reading `p_type` and `p_memsz` at an entry gives what the copied header adds: its `p_memsz` when it is `PT_LOAD`, else 0 |
| ElfReader.TableLoadStep | src/read_elf.cpp:74-80 | one more entry adds what it loads |
| ElfReader.SumLoads | src/read_elf.cpp:73-81 | the loop's `uint64_t` sum is the load size of the first `e_phnum` entries modulo 2^64 |
| ElfReader.AddEntry | src/read_elf.cpp:75-79 | copying the program header at an entry and adding its `p_memsz` when it is `PT_LOAD` adds what that header contributes, modulo 2^64 |
| ElfReader.Space | src/read_elf.cpp:57-85 | the result is `SpaceOf(file)`: 0 on a failed read, else the load size of the table modulo 2^64 |
| ElfReader.LoadSizeAppend | src/read_elf.cpp:74-80 | the load size of two runs of headers end to end is the sum of their load sizes |
| ElfReader.NonLoadContributesNothing | src/read_elf.cpp:77-79 | a header that is not `PT_LOAD` changes nothing wherever it stands |
| ElfReader.NoLoadNoSpace | src/read_elf.cpp:77-79 | without `PT_LOAD` headers the load size is 0 |
| ElfReader.EmptyTableNoSpace | src/read_elf.cpp:64-84 | a failed read or `e_phnum == 0` gives 0 |
| ElfReader.SpaceWraps | src/read_elf.cpp:73-78 | the sum wraps modulo 2^64: loads of 2^64 - 1 and 2 bytes give 1 |
| ElfReader.SpaceOfTable | src/read_elf.cpp:57-85 | for a file whose `e_phnum` entries, `e_phentsize` bytes apart from `e_phoff`, decode to headers ps, `space` is the sum of `p_memsz` over the `PT_LOAD` headers of ps, modulo 2^64 |
| RmwRegister.CompareExchangeStrong | rmw_register.cpp:26 | the library compare-and-swap succeeds exactly when the register holds the expected value, then stores the desired one; it reports the value found |
| RmwRegister.LoadLinked | rmw_register.cpp:8-11 | returns the register's value (corrected definition) |
| RmwRegister.LoadLinkedAsWritten | rmw_register.cpp:8-11 | returns a value unrelated to the register (the body has no return statement) |
| RmwRegister.StoreConditional | rmw_register.cpp:22-27 | with no other writer the store always succeeds and the register holds the new value |
| RmwRegister.FetchAdd | rmw_register.cpp:42-48 | returns the previous value and leaves previous + arg, given no signed overflow |
| RmwRegister.FetchAddAsWritten | rmw_register.cpp:42-48 | over the as-written `load_linked` it returns the undefined value and leaves that value plus arg |
| RmwRegister.FetchAddExample | rmw_register.cpp:38-41 | 3138 plus 10 leaves 3148 and returns 3138 |
| RmwRegister.FetchAddAsWrittenExample | rmw_register.cpp:38-48 | over the as-written `load_linked` the documented example fails unless the undefined value happens to be 3138 |
| RmwRegister.CompareExchange | rmw_register.cpp:72-83 | succeeds exactly when the register equals `*expected`; then stores the new value and leaves `*expected`; otherwise copies the register into `*expected` and leaves the register, returning false only on a real mismatch |
| RmwRegister.CompareExchangeExamples | rmw_register.cpp:59-66 | 42 against an expected 42 stores 3148 and succeeds; 3148 against an expected 42 fails and reports 3148 |

## Left out

- The spin locks are not modelled, because their correctness is about thread interleavings and liveness. These are the locks in thread_synchronization.cpp, `RMWLock` and `TicketLock` in src/threads/rwm_locks.cpp, `RWLock` in src/threads/read_write_lock.cpp, and `rmw_lock` in rmw_register.cpp.
- `threadId`, `dumpThreadId`, `testDumpingThId` and threads/priority_boost_win.cpp are not modelled: they are OS thread ids, Windows scheduling calls, wall-clock waiting and printing.
- The `main` function of main.cpp is partly modelled. Its two loops are (`BuildTable`, `MapQueries`). Opening, parsing and writing the files is not: the pairs, queries and root address are parameters, and the written lines are the returned `Outcome` values.
- `std::unordered_map` is a Dafny `map`. Its hashing and iteration order play no part in the source.
- File opening, `tellg`/`seekg` and `read` in src/read_elf.cpp are not modelled. The file is a byte sequence, or `None` when the read failed.
- The test drivers `test` and `testRoundRobin` in robin_round.cpp are not modelled. They only print, and the sequence they print is not restated as a lemma.
- True LL/SC reservation semantics and retries caused by other threads are not modelled, because the model is single-threaded. With no other writer, `StoreConditional` always succeeds.
- RmwRegister.FetchAdd: requires that `old + arg` stays within `int`, since signed overflow is undefined behaviour in the source.
- Paging.Mask: requires `last < 64`, since `1ULL << i` for `i >= 64` is undefined behaviour in the source.
- ElfReader.EntryPoint: requires the file to hold at least the bytes up to the end of `e_entry`, since the source reads the header without a length check.
- ElfReader.Space: requires that every header field and program header it reads lies inside the buffer, and that `i * e_phentsize` fits in `int`, since the source does no bounds checks.
- ElfReader.Space: its result is specified through `TableLoad`, which reads only `p_type` and `p_memsz` of each entry. `ContributionOfEntry` and `SpaceOfTable` connect that to the fully decoded headers. No lemma builds a whole file image from a header and a table; `SpaceOfTable` instead takes the decoded entries as a hypothesis.
- RoundRobin.AdmitEffect: keeping the invariant is stated only for ids other than -1. Admitting -1 would make an "idle" CPU with a non-empty queue; the source never passes -1.
- RoundRobin.AdmitKeepsDistinct: requires the admitted id not to be active. This is the source's guarantee of unique ids and of waking only blocked threads.
- Paging.MapAddr: the list of entries read is a ghost out-parameter, since the source does not return it.

## Findings

| source | as written | input that shows it | evidently intended | confidence | as-written member | corrected member |
|---|---|---|---|---|---|---|
| rmw_register.cpp:8-11 | `load_linked` has no return statement, so the value its callers use is undefined behaviour | `atomic_fetch_add` on a register holding 3138 with `arg == 10`: unless the undefined value is 3138, it neither returns 3138 nor leaves 3148 | return the register's current value (`x->load()`) | high; not executed | RmwRegister.FetchAddAsWrittenExample | RmwRegister.LoadLinked |

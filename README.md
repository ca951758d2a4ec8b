# Shared-memory page table (xv6 `shm.c`) in Dafny

The kernel keeps one table of 64 shared-memory slots `{id, frame, refcnt}`.
`shminit` clears every slot. `shm_open(id, pointer)` first scans for a slot
holding `id`. If it finds one, it joins it: it maps that slot's frame at
`PGROUNDUP(sz)` of the calling process, bumps `refcnt`, stores the old `sz`
through `pointer` and advances `sz` to `PGROUNDUP(sz) + PGSIZE`. Otherwise it
claims the first slot whose `id` is 0. That slot gets the id, a new zeroed
frame from `kalloc` and `refcnt = 1`, and the frame is mapped. If no slot is
free it returns -2. `shm_close(id)` finds the slot and decrements a positive
`refcnt`. On a slot whose `refcnt` is already 0 it clears the slot instead. An
id held by no slot gives -3.

Files:

- `shm_model.dfy` (module `ShmModel`): the slot record, the key and page
  arithmetic, and the effect of each operation on the table as pure
  functions (`OpenSpec`, `CloseSpec`, `EmptyTable`). It also holds the
  table invariant `TableInv`, in two parts. `KeyInv` says no two slots
  share a non-zero id and no `refcnt` is negative. `FrameInv` says a slot
  has a frame exactly when its id is non-zero and no two slots share a
  non-null frame.
- `shm.dfy` (module `Shm`): the table as the kernel holds it. Class
  `ShmTable` owns an `array<Slot>` of 64 slots that `Init`, `Open` and
  `Close` update in place, with the source's loops. Each method is proved
  to produce exactly the table, status, `*pointer` and `sz` that the pure
  function gives. The object invariant `Valid` (64 slots and `KeyInv`)
  is established by the constructor and kept by every method; `TableInv`
  is kept as well when `kalloc`'s frame is fresh. `Scenario` drives one key
  through two opens and four closes.
- `shm_props.dfy` (module `ShmProps`): what each path of each operation
  does, preservation of the invariant, and properties that span several
  calls.

Modelling choices:

- `kalloc` and `mappages` are kernel calls outside this code. `Open` takes
  the frame `kalloc` returns and the status `mappages` returns as
  parameters. It reports the arguments `mappages` was called with as the
  out-parameter `mapped`.
- `FrameInv` additionally assumes that `kalloc` returns a frame that is
  non-null and not already in the table (`FrameFresh`). `shm.c` cannot
  establish this itself. It holds only as long as no other kernel code
  frees a frame the table still holds. `KeyInv` needs no such
  assumption.
- `*pointer` is the out-parameter `pointer`. `None` means it was not
  written.
- The process record is class `Proc`, holding only `sz`.
- The table's `id` field is a C `uint` and the parameter is an `int`.
  `ToKey` converts the parameter modulo 2^32, as C does for the comparison
  at shm.c:40 and the store at shm.c:75.
- A slot is a datatype value. The source's separate stores to `id`,
  `frame` and `refcnt` become a single record update of the array element.

Two behaviours of the code worth noting:

- On the create path `sz` is not advanced. There is no assignment to it
  between shm.c:82 and shm.c:92.
- The value stored through `pointer` is the old, un-rounded `sz` on both
  paths (shm.c:53, shm.c:89). It is not `PGROUNDUP(sz)`.

Quirks kept as written:

- The table change stays even when `mappages` fails.
- A slot is freed only by the close after the one that brings `refcnt` to
  0.
- `shm_open(0)` matches the first unused slot at shm.c:40 and bumps its
  `refcnt`, so it can never claim a slot (`OpenKeyZero`).

## Model

| member | source | states |
|---|---|---|
| `ShmModel.ToKey` | shm.c:40 | the `int` id becomes the `uint` key modulo 2^32: it is 0 exactly when the id is 0, it is the id itself when non-negative, and it is id + 2^32 when negative |
| `ShmModel.PgRoundUp` | shm.c:44 | PGROUNDUP gives a multiple of PGSIZE that is at least `sz` and less than `sz + PGSIZE` |
| `ShmModel.IndexOf` | shm.c:38-40 | the scan stops at the first slot holding the key; every earlier slot holds another id; running off the end means no slot holds it |
| `ShmModel.EmptyTable` | shm.c:23-27 | after shminit all 64 slots have id 0, frame 0 and refcnt 0 |
| `Shm.ShmTable.constructor` | shm.c:10-17 | the global table starts as 64 zeroed slots in a fresh array, satisfying the object invariant `Valid` (64 slots and the key invariant) |
| `Shm.ShmTable.Init` | shm.c:19-29 | the for-loop leaves every slot as (0, 0, 0), which satisfies `Valid` and the table invariant |
| `Shm.ShmTable.Open` | shm.c:31-93 | the two scans and the in-place updates produce exactly the table, return value, `*pointer`, `sz` and mappages call given by `ShmModel.OpenSpec` (shm.c:38-92), whose paths OpenJoins, OpenCreates, OpenFull, OpenOutcome and OpenKeyZero state; `Valid` (and with it the key invariant) is kept, and the whole table invariant is kept when kalloc's frame is fresh |
| `Shm.ShmTable.Close` | shm.c:96-124 | the scan and the in-place update produce exactly the table and return value given by `ShmModel.CloseSpec` (shm.c:101-123), whose paths CloseFound and CloseUnknown state; `Valid` (and with it the key invariant) and the table invariant are kept |
| `ShmProps.ToKeyInjective` | shm.c:31 | two `int` ids map to the same table key only when they are equal |
| `ShmProps.EmptyTableInv` | shm.c:23-27 | the table after shminit satisfies the table invariant |
| `ShmProps.InvUniqueSlot` | shm.c:38-40 | under the key invariant, the scan for a non-zero key finds the one slot that holds it |
| `ShmProps.OpenJoins` | shm.c:40-58 | join path: refcnt of the slot rises by exactly 1 and no other slot changes; mappages maps that slot's frame at PGROUNDUP(old sz); `*pointer` is the old sz; the new sz is PGROUNDUP(old sz) + PGSIZE; the return value is mappages' status |
| `ShmProps.OpenCreates` | shm.c:65-92 | create path: the lowest unused slot becomes (id, kalloc'd frame, 1) and no other slot changes; that frame is mapped at PGROUNDUP(sz); `*pointer` is the old sz; sz is unchanged; the return value is mappages' status |
| `ShmProps.OpenFull` | shm.c:66-72 | absent id and no unused slot: returns -2, and the table, sz and `*pointer` are untouched; mappages is not called |
| `ShmProps.OpenOutcome` | shm.c:43-92 | mappages is skipped and -2 returned with nothing changed exactly when the id is absent and the table is full; otherwise it returns mappages' status and writes `*pointer`, and the table is changed whatever that status is (no rollback); when mappages does not itself return -2, status -2 occurs exactly in the table-full case |
| `ShmProps.OpenKeyZero` | shm.c:38-50 | shm_open(0) changes no id and no frame; it bumps the refcnt of the first unused slot, and returns -2 with the table unchanged only when no slot is unused |
| `ShmProps.OpenPreservesKeyInv` | shm.c:38-78 | for any key and whatever frame kalloc returns, shm_open keeps distinct non-zero ids and non-negative refcnts, because a slot is claimed only after the scan found no slot holding the key |
| `ShmProps.OpenPreservesInv` | shm.c:38-78 | for any key, shm_open keeps distinct non-zero ids, distinct frames, frame-set-iff-id-set and non-negative refcnts, given a fresh non-null frame from kalloc |
| `ShmProps.CloseUnknown` | shm.c:101-123 | closing an id that no slot holds returns -3 and changes nothing |
| `ShmProps.CloseFound` | shm.c:103-116 | closing a present id returns 0; a positive refcnt drops by exactly 1 with id and frame kept; a zero refcnt resets the slot to (0, 0, 0); no other slot changes; refcnt never goes negative |
| `ShmProps.ClosePreservesKeyInv` | shm.c:103-113 | shm_close keeps distinct non-zero ids and non-negative refcnts for any key, since it decrements only a positive refcnt |
| `ShmProps.ClosePreservesInv` | shm.c:103-113 | shm_close keeps the table invariant for any key |
| `ShmProps.JoinTwice` | shm.c:40-78 | a key created by one open and joined by a second has refcnt 2, and both opens mapped the same frame, each at PGROUNDUP of its own caller's sz |
| `ShmProps.ReleaseAsymmetry` | shm.c:75-113 | after a key is created, the first close leaves its slot at refcnt 0 and still occupied; the second close frees the slot, after which no slot holds the key; the third close returns -3 |
| `ShmProps.OpenTableIgnoresCaller` | shm.c:43-86 | the table change made by shm_open is the same whatever the caller's sz and whatever mappages returns |
| `ShmProps.OpenEachFills` | shm.c:65-78 | opening distinct non-zero keys one after another on a cleared table fills the slots in order from slot 0, each with its frame and refcnt 1 |
| `ShmProps.CapacityExhausted` | shm.c:66-72 | after 64 distinct keys are created on a cleared table (by any callers, given OpenTableIgnoresCaller), opening any other key returns -2 and leaves the table unchanged |

## Left out

- The spinlock (`initlock`, `acquire`, `release`) is not modelled. Each operation is one atomic step, and every return path of the source releases the lock.
- `kalloc`, `memset`, `V2P`, `mappages` and `myproc` are not modelled. The frame and the mapping status are parameters. The page tables, the page contents and the zero-fill are not modelled.
- A `kalloc` failure is not modelled. If `kalloc` returns null, the source passes it to `memset`. The frame part of the invariant assumes a fresh non-null frame.
- Frames are never handed back to the allocator. Closing a slot only clears its handle.
- `refcnt` and `sz` are unbounded integers. C's `int` overflow of `refcnt` and `uint` overflow of `sz` and `PGROUNDUP` are not modelled.

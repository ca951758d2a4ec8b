/** Value-level model of the xv6 shared-memory page table (shm.c): the slot
    record, the 64-slot table as a sequence, and the effect of shminit,
    shm_open and shm_close on it as pure functions. The class in shm.dfy is
    proved to update its array exactly as these functions say. */
module ShmModel {

  /** Number of slots in `shm_table.shm_pages`. */
  const NSlots: nat := 64

  /** Size of one page, the unit `mappages` installs. */
  const PgSize: nat := 4096

  /** The slot's `id` field is a C `uint`. */
  type U32 = x: int | 0 <= x < 0x1_0000_0000

  /** The `id` parameter of shm_open and shm_close is a C `int`. */
  type I32 = x: int | -0x8000_0000 <= x < 0x8000_0000

  /** A physical frame handle as returned by kalloc; 0 is the null pointer. */
  type Frame = nat

  datatype Option<T> = None | Some(value: T)

  /** One entry of the table: `{id, frame, refcnt}`. */
  datatype Slot = Slot(id: U32, frame: Frame, refcnt: int)

  /** The value every field takes in an unused slot. */
  const Free: Slot := Slot(0, 0, 0)

  /** The arguments of one `mappages` call: the virtual address and the frame
      mapped there (one page, writable and user-accessible). */
  datatype MapRequest = MapRequest(va: nat, frame: Frame)

  /** Everything shm_open produces: the new table, its return value, what it
      stored through `pointer` (None: left untouched), the caller's new `sz`
      and the mapping it asked for (None: mappages was not called). */
  datatype OpenResult = OpenResult(
    table: seq<Slot>, status: int, pointer: Option<nat>, sz: nat, mapped: Option<MapRequest>)

  /** Everything shm_close produces: the new table and its return value. */
  datatype CloseResult = CloseResult(table: seq<Slot>, status: int)

  /** Status returned by shm_open when no slot is free. */
  const TableFull: int := -2

  /** Status returned by shm_close when no slot holds the id. */
  const UnknownKey: int := -3

  /** C's conversion of the `int` parameter to the `uint` it is compared with
      and stored as: reduction modulo 2^32. */
  function ToKey(id: I32): (k: U32)
    ensures k == 0 <==> id == 0
    ensures 0 <= id ==> k == id
    ensures id < 0 ==> k == id + 0x1_0000_0000
  {
    id % 0x1_0000_0000
  }

  /** PGROUNDUP: the smallest multiple of PgSize that is at least `sz`. */
  function PgRoundUp(sz: nat): (r: nat)
    ensures r % PgSize == 0
    ensures sz <= r < sz + PgSize
  {
    (sz + PgSize - 1) / PgSize * PgSize
  }

  /** The index at which a scan from slot 0 first meets `key` in the `id`
      field, or |t| when no slot holds it (the loops at shm.c:38, 66, 101). */
  function IndexOf(t: seq<Slot>, key: U32): (i: nat)
    ensures i <= |t|
    ensures forall j :: 0 <= j < i ==> t[j].id != key
    ensures i < |t| ==> t[i].id == key
    decreases |t|
  {
    if t == [] then 0
    else if t[0].id == key then 0
    else 1 + IndexOf(t[1..], key)
  }

  /** The table after shminit: every slot unused. */
  function EmptyTable(): (t: seq<Slot>)
    ensures |t| == NSlots
    ensures forall i :: 0 <= i < |t| ==> t[i].id == 0 && t[i].frame == 0 && t[i].refcnt == 0
  {
    seq(NSlots, _ => Free)
  }

  /** The key invariant: 64 slots, no two slots share a non-zero id, and no
      refcnt is negative. shm.c keeps it on its own, whatever kalloc returns. */
  predicate KeyInv(t: seq<Slot>)
  {
    && |t| == NSlots
    && (forall i :: 0 <= i < |t| ==> t[i].refcnt >= 0)
    && (forall i, j :: 0 <= i < |t| && 0 <= j < |t| && i != j && t[i].id != 0 ==> t[i].id != t[j].id)
  }

  /** The frame invariant: a slot holds a frame exactly when its id is
      non-zero, and no two slots share a non-null frame. shm.c keeps it only
      as long as kalloc's frames satisfy FrameFresh. */
  predicate FrameInv(t: seq<Slot>)
  {
    && (forall i :: 0 <= i < |t| ==> (t[i].id == 0 <==> t[i].frame == 0))
    && (forall i, j :: 0 <= i < |t| && 0 <= j < |t| && i != j && t[i].frame != 0 ==> t[i].frame != t[j].frame)
  }

  /** The whole table invariant. */
  predicate TableInv(t: seq<Slot>)
  {
    KeyInv(t) && FrameInv(t)
  }

  /** An assumption on kalloc, not something shm.c establishes: the frame it
      returns is not null and is held by no slot. This holds as long as no
      other kernel code frees a frame the table still holds. */
  predicate FrameFresh(t: seq<Slot>, frame: Frame)
  {
    frame != 0 && forall j :: 0 <= j < |t| ==> t[j].frame != frame
  }

  /** shm_open(key) by a process whose `sz` is `sz`; `frame` is what kalloc
      would return and `mapStatus` what mappages returns. */
  function OpenSpec(t: seq<Slot>, key: U32, sz: nat, frame: Frame, mapStatus: int): OpenResult
  {
    var i := IndexOf(t, key);
    if i < |t| then
      // an existing slot is joined
      OpenResult(t[i := t[i].(refcnt := t[i].refcnt + 1)], mapStatus, Some(sz),
                 PgRoundUp(sz) + PgSize, Some(MapRequest(PgRoundUp(sz), t[i].frame)))
    else
      var f := IndexOf(t, 0);
      if f == |t| then
        OpenResult(t, TableFull, None, sz, None)
      else
        // the first unused slot is claimed; sz is not advanced on this path
        OpenResult(t[f := Slot(key, frame, 1)], mapStatus, Some(sz),
                   sz, Some(MapRequest(PgRoundUp(sz), frame)))
  }

  /** shm_close(key). */
  function CloseSpec(t: seq<Slot>, key: U32): CloseResult
  {
    var i := IndexOf(t, key);
    if i == |t| then CloseResult(t, UnknownKey)
    else if t[i].refcnt > 0 then CloseResult(t[i := t[i].(refcnt := t[i].refcnt - 1)], 0)
    else CloseResult(t[i := Free], 0)
  }
}

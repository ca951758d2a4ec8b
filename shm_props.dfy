/** Properties of shminit, shm_open and shm_close, stated on the functions of
    ShmModel: what each path of each operation does to the table, that the
    table invariant is kept, and the multi-call behaviour of the table
    (joining, the two-step release, filling the table). */
module ShmProps {
  import opened ShmModel

  /** Two different `int` ids never land on the same table key. */
  lemma ToKeyInjective(a: I32, b: I32)
    ensures ToKey(a) == ToKey(b) <==> a == b
  {
  }

  /** The table after shminit satisfies the invariant. */
  lemma EmptyTableInv()
    ensures TableInv(EmptyTable())
  {
  }

  /** Under the invariant a non-zero key is held by at most one slot, so the
      scan finds exactly that slot. */
  lemma InvUniqueSlot(t: seq<Slot>, key: U32, i: nat)
    requires KeyInv(t) && key != 0
    requires i < |t| && t[i].id == key
    ensures IndexOf(t, key) == i
  {
    var k := IndexOf(t, key);
    assert k <= i;
    assert t[k].id == t[i].id;
  }

  /** The scan stops at the first slot holding the key. */
  lemma IndexOfFirst(t: seq<Slot>, key: U32, i: nat)
    requires i < |t| && t[i].id == key
    requires forall j :: 0 <= j < i ==> t[j].id != key
    ensures IndexOf(t, key) == i
  {
  }

  /** The scan runs off the end exactly when no slot holds the key. */
  lemma IndexOfAbsent(t: seq<Slot>, key: U32)
    ensures IndexOf(t, key) == |t| <==> forall j :: 0 <= j < |t| ==> t[j].id != key
  {
  }

  /** Join path: the id is in slot i (the first slot holding it). Slot i's
      refcnt rises by one and nothing else in the table changes; mappages is
      asked to map slot i's frame at PGROUNDUP(sz); the old, un-rounded sz is
      stored through the pointer; sz becomes PGROUNDUP(sz) + PGSIZE; the
      status is whatever mappages returned. */
  lemma OpenJoins(t: seq<Slot>, key: U32, sz: nat, frame: Frame, mapStatus: int, i: nat)
    requires i < |t| && t[i].id == key
    requires forall j :: 0 <= j < i ==> t[j].id != key
    ensures var r := OpenSpec(t, key, sz, frame, mapStatus);
      && |r.table| == |t|
      && r.table[i].id == t[i].id && r.table[i].frame == t[i].frame
      && r.table[i].refcnt == t[i].refcnt + 1
      && (forall j :: 0 <= j < |t| && j != i ==> r.table[j] == t[j])
      && r.mapped == Some(MapRequest(PgRoundUp(sz), t[i].frame))
      && r.pointer == Some(sz)
      && r.sz == PgRoundUp(sz) + PgSize
      && r.status == mapStatus
  {
  }

  /** Create path: the id is held by no slot and slot i is the first unused
      one. Slot i becomes (key, frame, 1) and every other slot is unchanged;
      the new frame is mapped at PGROUNDUP(sz); the un-rounded sz is stored
      through the pointer; sz itself is NOT advanced; the status is whatever
      mappages returned. */
  lemma OpenCreates(t: seq<Slot>, key: U32, sz: nat, frame: Frame, mapStatus: int, i: nat)
    requires forall j :: 0 <= j < |t| ==> t[j].id != key
    requires i < |t| && t[i].id == 0
    requires forall j :: 0 <= j < i ==> t[j].id != 0
    ensures var r := OpenSpec(t, key, sz, frame, mapStatus);
      && |r.table| == |t|
      && r.table[i] == Slot(key, frame, 1)
      && (forall j :: 0 <= j < |t| && j != i ==> r.table[j] == t[j])
      && r.mapped == Some(MapRequest(PgRoundUp(sz), frame))
      && r.pointer == Some(sz)
      && r.sz == sz
      && r.status == mapStatus
  {
  }

  /** Table full: the id is held by no slot and no slot is unused. The call
      returns -2 and leaves the table, sz and *pointer untouched, and
      mappages is not called. */
  lemma OpenFull(t: seq<Slot>, key: U32, sz: nat, frame: Frame, mapStatus: int)
    requires forall j :: 0 <= j < |t| ==> t[j].id != key && t[j].id != 0
    ensures OpenSpec(t, key, sz, frame, mapStatus) == OpenResult(t, TableFull, None, sz, None)
  {
  }

  /** The two outcomes of shm_open: mappages is skipped, -2 is returned and
      nothing changes exactly when the id is absent and no slot is free;
      otherwise it stores the old sz through the pointer, calls mappages at
      PGROUNDUP(sz) and returns that call's status, with the table change
      kept whatever the status (no rollback). When mappages does not itself return -2 (it
      returns 0 or -1), the status -2 identifies the table-full case. */
  lemma OpenOutcome(t: seq<Slot>, key: U32, sz: nat, frame: Frame, mapStatus: int)
    ensures var r := OpenSpec(t, key, sz, frame, mapStatus);
      && (r.mapped == None <==> forall j :: 0 <= j < |t| ==> t[j].id != key && t[j].id != 0)
      && (r.mapped == None ==> r.status == TableFull && r.table == t && r.sz == sz && r.pointer == None)
      && (r.mapped != None ==>
            && r.status == mapStatus && r.pointer == Some(sz)
            && r.mapped.value.va == PgRoundUp(sz)
            && r.table != t)
      && (mapStatus != TableFull ==>
            (r.status == TableFull <==> forall j :: 0 <= j < |t| ==> t[j].id != key && t[j].id != 0))
  {
    var r := OpenSpec(t, key, sz, frame, mapStatus);
    var i := IndexOf(t, key);
    if i < |t| {
      assert r.table[i].refcnt != t[i].refcnt;
    } else {
      var f := IndexOf(t, 0);
      if f < |t| {
        assert r.table[f].id != t[f].id;
      }
    }
  }

  /** shm_open(0): an unused slot has id 0, so the first scan matches the
      first unused slot and bumps its refcnt; a key-0 open never claims a
      slot, and fails with -2 only when every slot is in use. No id and no
      frame in the table changes. */
  lemma OpenKeyZero(t: seq<Slot>, sz: nat, frame: Frame, mapStatus: int)
    ensures var r := OpenSpec(t, 0, sz, frame, mapStatus);
      && |r.table| == |t|
      && (forall j :: 0 <= j < |t| ==> r.table[j].id == t[j].id && r.table[j].frame == t[j].frame)
      && ((exists j :: 0 <= j < |t| && t[j].id == 0) ==>
            r.table[IndexOf(t, 0)].refcnt == t[IndexOf(t, 0)].refcnt + 1)
      && ((forall j :: 0 <= j < |t| ==> t[j].id != 0) ==> r.status == TableFull && r.table == t)
  {
  }

  /** shm_open keeps the key invariant for every key (key 0 included) and
      whatever frame kalloc returns: a slot is claimed only after the scan
      found no slot holding the key, and refcnt only grows. */
  lemma OpenPreservesKeyInv(t: seq<Slot>, key: U32, sz: nat, frame: Frame, mapStatus: int)
    requires KeyInv(t)
    ensures KeyInv(OpenSpec(t, key, sz, frame, mapStatus).table)
  {
    var i := IndexOf(t, key);
    if i == |t| {
      var f := IndexOf(t, 0);
      if f < |t| {
        var u := t[f := Slot(key, frame, 1)];
        forall a, b | 0 <= a < |u| && 0 <= b < |u| && a != b && u[a].id != 0
          ensures u[a].id != u[b].id
        {
          if a == f { assert u[b] == t[b]; } else if b == f { assert u[a] == t[a]; }
        }
      }
    }
  }

  /** shm_open keeps the table invariant, for every key (key 0 included),
      given that kalloc hands out a frame that is not null and not already
      in the table. */
  lemma OpenPreservesInv(t: seq<Slot>, key: U32, sz: nat, frame: Frame, mapStatus: int)
    requires TableInv(t)
    requires FrameFresh(t, frame)
    ensures TableInv(OpenSpec(t, key, sz, frame, mapStatus).table)
  {
    var i := IndexOf(t, key);
    if i == |t| {
      var f := IndexOf(t, 0);
      if f < |t| {
        var u := t[f := Slot(key, frame, 1)];
        assert key != 0;
        forall a, b | 0 <= a < |u| && 0 <= b < |u| && a != b && u[a].id != 0
          ensures u[a].id != u[b].id
        {
          if a == f { assert u[b] == t[b]; } else if b == f { assert u[a] == t[a]; }
        }
      }
    }
  }

  /** shm_close on an id held by no slot returns -3 and changes nothing. */
  lemma CloseUnknown(t: seq<Slot>, key: U32)
    requires forall j :: 0 <= j < |t| ==> t[j].id != key
    ensures CloseSpec(t, key) == CloseResult(t, UnknownKey)
  {
  }

  /** shm_close on an id whose first slot is i returns 0; slot i's refcnt
      drops by one if it was positive, otherwise the slot is reset to
      (0, 0, 0); no other slot changes and a non-negative refcnt stays
      non-negative. */
  lemma CloseFound(t: seq<Slot>, key: U32, i: nat)
    requires i < |t| && t[i].id == key
    requires forall j :: 0 <= j < i ==> t[j].id != key
    ensures var r := CloseSpec(t, key);
      && r.status == 0
      && |r.table| == |t|
      && (t[i].refcnt > 0 ==>
            r.table[i].id == t[i].id && r.table[i].frame == t[i].frame
            && r.table[i].refcnt == t[i].refcnt - 1)
      && (t[i].refcnt <= 0 ==> r.table[i] == Free)
      && (t[i].refcnt >= 0 ==> r.table[i].refcnt >= 0)
      && (forall j :: 0 <= j < |t| && j != i ==> r.table[j] == t[j])
  {
  }

  /** shm_close keeps the key invariant, for every key: refcnt is decremented
      only when positive, and a slot is only ever cleared. */
  lemma ClosePreservesKeyInv(t: seq<Slot>, key: U32)
    requires KeyInv(t)
    ensures KeyInv(CloseSpec(t, key).table)
  {
  }

  /** shm_close keeps the table invariant, for every key. */
  lemma ClosePreservesInv(t: seq<Slot>, key: U32)
    requires TableInv(t)
    ensures TableInv(CloseSpec(t, key).table)
  {
  }

  /** Joining twice: a key created by one open and joined by a second open
      (from any process, any sz) has refcnt 2, and both opens mapped the same
      frame, the one kalloc supplied at creation. */
  lemma JoinTwice(t: seq<Slot>, key: U32, sz1: nat, sz2: nat, f1: Frame, f2: Frame, s1: int, s2: int)
    requires forall j :: 0 <= j < |t| ==> t[j].id != key
    requires exists j :: 0 <= j < |t| && t[j].id == 0
    ensures var r1 := OpenSpec(t, key, sz1, f1, s1);
      var r2 := OpenSpec(r1.table, key, sz2, f2, s2);
      && r1.mapped == Some(MapRequest(PgRoundUp(sz1), f1))
      && r2.mapped == Some(MapRequest(PgRoundUp(sz2), f1))
      && r2.table[IndexOf(t, 0)] == Slot(key, f1, 2)
  {
    var f := IndexOf(t, 0);
    var r1 := OpenSpec(t, key, sz1, f1, s1);
    assert IndexOf(t, key) == |t|;
    assert r1.table[f] == Slot(key, f1, 1);
    forall j | 0 <= j < f ensures r1.table[j].id != key {
      assert r1.table[j] == t[j];
    }
    OpenJoins(r1.table, key, sz2, f2, s2, f);
  }

  /** The two-step release: after a key is created (refcnt 1), one close
      leaves it in the table with refcnt 0, a second close frees the slot,
      and a third close reports an unknown key. */
  lemma ReleaseAsymmetry(t: seq<Slot>, key: U32, sz: nat, frame: Frame, mapStatus: int)
    requires forall j :: 0 <= j < |t| ==> t[j].id != key
    requires exists j :: 0 <= j < |t| && t[j].id == 0
    ensures var t1 := OpenSpec(t, key, sz, frame, mapStatus).table;
      var c1 := CloseSpec(t1, key);
      var c2 := CloseSpec(c1.table, key);
      var c3 := CloseSpec(c2.table, key);
      && c1.status == 0 && c1.table[IndexOf(t, 0)] == Slot(key, frame, 0)
      && c2.status == 0 && c2.table[IndexOf(t, 0)] == Free
      && (forall j :: 0 <= j < |c2.table| ==> c2.table[j].id != key)
      && c3.status == UnknownKey
  {
    var f := IndexOf(t, 0);
    var t1 := OpenSpec(t, key, sz, frame, mapStatus).table;
    assert IndexOf(t, key) == |t|;
    assert key != 0;
    assert t1[f] == Slot(key, frame, 1);
    // the key is held by slot f and by no other slot, through both closes
    forall j | 0 <= j < |t1| && j != f ensures t1[j].id != key {
      assert t1[j] == t[j];
    }
    IndexOfFirst(t1, key, f);
    var c1 := CloseSpec(t1, key);
    forall j | 0 <= j < |c1.table| && j != f ensures c1.table[j].id != key {
      assert c1.table[j] == t1[j];
    }
    IndexOfFirst(c1.table, key, f);
    var c2 := CloseSpec(c1.table, key);
    forall j | 0 <= j < |c2.table| ensures c2.table[j].id != key {
      if j != f {
        assert c2.table[j] == c1.table[j];
      }
    }
    CloseUnknown(c2.table, key);
  }

  /** The table part of shm_open does not depend on the caller: its `sz` and
      the status mappages returns only reach `sz`, `*pointer` and the return
      value. */
  lemma OpenTableIgnoresCaller(t: seq<Slot>, key: U32, sz: nat, frame: Frame, mapStatus: int)
    ensures OpenSpec(t, key, sz, frame, mapStatus).table == OpenSpec(t, key, 0, frame, 0).table
  {
  }

  /** The table after creating each of `keys` in turn (with the matching
      kalloc frames), starting from `t`. Every open is made with sz 0 and
      mapping status 0; by OpenTableIgnoresCaller the table is the same for
      any callers and any mapping outcomes. */
  function OpenEach(t: seq<Slot>, keys: seq<U32>, frames: seq<Frame>): seq<Slot>
    requires |keys| == |frames|
    decreases |keys|
  {
    if keys == [] then t
    else
      var n := |keys| - 1;
      OpenSpec(OpenEach(t, keys[..n], frames[..n]), keys[n], 0, frames[n], 0).table
  }

  /** The table holding `keys` in its first slots, each with its frame and
      refcnt 1, and unused slots after them. */
  function Filled(keys: seq<U32>, frames: seq<Frame>): (t: seq<Slot>)
    requires |keys| == |frames| <= NSlots
    ensures |t| == NSlots
  {
    seq(NSlots, j requires 0 <= j < NSlots =>
      if j < |keys| then Slot(keys[j], frames[j], 1) else Free)
  }

  /** Opening distinct non-zero keys one after another on a freshly
      initialised table fills the slots in order from slot 0. */
  lemma {:induction false} OpenEachFills(keys: seq<U32>, frames: seq<Frame>)
    requires |keys| == |frames| <= NSlots
    requires forall j :: 0 <= j < |keys| ==> keys[j] != 0
    requires forall a, b :: 0 <= a < b < |keys| ==> keys[a] != keys[b]
    ensures OpenEach(EmptyTable(), keys, frames) == Filled(keys, frames)
  {
    if keys != [] {
      var n := |keys| - 1;
      OpenEachFills(keys[..n], frames[..n]);
      var t := Filled(keys[..n], frames[..n]);
      forall j | 0 <= j < |t| ensures t[j].id != keys[n] {
        if j < n { assert t[j].id == keys[j]; }
      }
      IndexOfAbsent(t, keys[n]);
      forall j | 0 <= j < n ensures t[j].id != 0 {
        assert t[j].id == keys[j];
      }
      IndexOfFirst(t, 0, n);
      var u := t[n := Slot(keys[n], frames[n], 1)];
      forall j | 0 <= j < NSlots ensures u[j] == Filled(keys, frames)[j] {
      }
      assert u == Filled(keys, frames);
    }
  }

  /** Capacity: once 64 distinct non-zero keys have been created on a freshly
      initialised table, opening any other key returns -2 and leaves the
      table as it was. */
  lemma CapacityExhausted(keys: seq<U32>, frames: seq<Frame>, key: U32, sz: nat, frame: Frame, mapStatus: int)
    requires |keys| == |frames| == NSlots
    requires forall j :: 0 <= j < |keys| ==> keys[j] != 0
    requires forall a, b :: 0 <= a < b < |keys| ==> keys[a] != keys[b]
    requires forall j :: 0 <= j < |keys| ==> keys[j] != key
    ensures var t := OpenEach(EmptyTable(), keys, frames);
      OpenSpec(t, key, sz, frame, mapStatus) == OpenResult(t, TableFull, None, sz, None)
  {
    OpenEachFills(keys, frames);
    OpenFull(Filled(keys, frames), key, sz, frame, mapStatus);
  }
}

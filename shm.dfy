/** The shared-memory table as the kernel keeps it: a fixed array of 64 slots
    updated in place by shminit, shm_open and shm_close. Each method is proved
    to leave the array (and the caller's process record) exactly as the
    corresponding function of ShmModel says. The spinlock is not modelled:
    every operation runs as one atomic step. */
module Shm {
  import opened ShmModel
  import ShmProps

  /** The part of the calling process's record that shm_open touches. */
  class Proc {
    /** Size of the process's address space (its high-water mark). */
    var sz: nat

    constructor (sz: nat)
      ensures this.sz == sz
    {
      this.sz := sz;
    }
  }

  class ShmTable {
    /** `shm_table.shm_pages`. */
    const pages: array<Slot>

    /** The object invariant: 64 slots satisfying the key invariant (no two
        slots share a non-zero id, no refcnt is negative). The constructor
        establishes it and every method keeps it. */
    predicate Valid()
      reads pages
    {
      pages.Length == NSlots && KeyInv(pages[..])
    }

    /** The table as a C global starts out: zero-filled. */
    constructor ()
      ensures Valid() && fresh(pages)
      ensures pages[..] == EmptyTable()
    {
      pages := new Slot[NSlots](_ => Free);
      new;
      assert pages[..] == EmptyTable();
      ShmProps.EmptyTableInv();
    }

    /** shminit: reset every slot to (0, 0, 0). */
    method Init()
      requires Valid()
      modifies pages
      ensures Valid()
      ensures pages[..] == EmptyTable()
      ensures TableInv(pages[..])
    {
      for i := 0 to NSlots
        invariant forall j :: 0 <= j < i ==> pages[j] == Free
      {
        pages[i] := Free;
      }
      assert pages[..] == EmptyTable();
      ShmProps.EmptyTableInv();
    }

    /** shm_open(id, pointer) called by `p`. `frame` stands for the page
        kalloc returns and `mapStatus` for the value mappages returns; the
        out-parameter `mapped` records the arguments mappages was called with
        and `pointer` what was stored through `*pointer`. */
    method Open(id: I32, p: Proc, frame: Frame, mapStatus: int)
      returns (status: int, pointer: Option<nat>, mapped: Option<MapRequest>)
      requires Valid()
      modifies pages, p
      ensures var r := OpenSpec(old(pages[..]), ToKey(id), old(p.sz), frame, mapStatus);
        && pages[..] == r.table && status == r.status && pointer == r.pointer
        && p.sz == r.sz && mapped == r.mapped
      ensures Valid()
      ensures old(TableInv(pages[..])) && old(FrameFresh(pages[..], frame)) ==>
        TableInv(pages[..])
    {
      var key := ToKey(id);
      ShmProps.OpenPreservesKeyInv(pages[..], key, p.sz, frame, mapStatus);
      if TableInv(pages[..]) && FrameFresh(pages[..], frame) {
        ShmProps.OpenPreservesInv(pages[..], key, p.sz, frame, mapStatus);
      }
      // look for a slot that already holds the id
      for i := 0 to NSlots
        invariant forall j :: 0 <= j < i ==> pages[j].id != key
        invariant pages[..] == old(pages[..]) && p.sz == old(p.sz)
      {
        if pages[i].id == key {
          mapped := Some(MapRequest(PgRoundUp(p.sz), pages[i].frame));
          status := mapStatus;
          pages[i] := pages[i].(refcnt := pages[i].refcnt + 1);
          pointer := Some(p.sz);
          p.sz := PgRoundUp(p.sz) + PgSize;
          return;
        }
      }
      // the id is new: find the first unused slot
      var i := 0;
      while i < NSlots && pages[i].id != 0
        invariant 0 <= i <= NSlots
        invariant forall j :: 0 <= j < i ==> pages[j].id != 0
      {
        i := i + 1;
      }
      if i >= NSlots {
        status, pointer, mapped := TableFull, None, None;
        return;
      }
      pages[i] := Slot(key, frame, 1);
      mapped := Some(MapRequest(PgRoundUp(p.sz), pages[i].frame));
      status := mapStatus;
      pointer := Some(p.sz);
    }

    /** shm_close(id). */
    method Close(id: I32) returns (status: int)
      requires Valid()
      modifies pages
      ensures var r := CloseSpec(old(pages[..]), ToKey(id));
        pages[..] == r.table && status == r.status
      ensures Valid()
      ensures old(TableInv(pages[..])) ==> TableInv(pages[..])
    {
      var key := ToKey(id);
      ShmProps.ClosePreservesKeyInv(pages[..], key);
      if TableInv(pages[..]) {
        ShmProps.ClosePreservesInv(pages[..], key);
      }
      for i := 0 to NSlots
        invariant forall j :: 0 <= j < i ==> pages[j].id != key
        invariant pages[..] == old(pages[..])
      {
        if pages[i].id == key {
          if pages[i].refcnt > 0 {
            pages[i] := pages[i].(refcnt := pages[i].refcnt - 1);
          } else {
            pages[i] := Free;
          }
          return 0;
        }
      }
      return UnknownKey;
    }
  }

  /** The life of one key, driven through the class: two processes open key 5
      (one creates, one joins), then four closes follow. */
  method Scenario(p1: Proc, p2: Proc, f: Frame, s1: int, s2: int)
    requires p1 != p2
    modifies p1, p2
  {
    var shm := new ShmTable();
    shm.Init();
    var st1, ptr1, m1 := shm.Open(5, p1, f, s1);
    assert shm.pages[0] == Slot(5, f, 1) && st1 == s1 && ptr1 == Some(old(p1.sz));
    var st2, ptr2, m2 := shm.Open(5, p2, f + 1, s2);
    assert shm.pages[0] == Slot(5, f, 2) && m1.value.frame == m2.value.frame == f;
    var c := shm.Close(5);
    assert c == 0 && shm.pages[0] == Slot(5, f, 1);
    c := shm.Close(5);
    assert c == 0 && shm.pages[0] == Slot(5, f, 0);
    c := shm.Close(5);
    assert c == 0 && shm.pages[0] == Free;
    c := shm.Close(5);
    assert c == UnknownKey;
  }
}

/** The earlier bump allocator of alocator/src/main.rs: a 3072-byte arena handed
    out front to back by a `next_offset` cursor, a 3072-entry table recording
    each block, a free counter and a 3072-entry request journal. Addresses are
    integers: the arena starts at the abstract address `base`. */
module Bump {
  import opened Slots

  const ARENA_SIZE: nat := 3072

  /** `alloc` returns an address, panics ("Out of memory"), or returns null when
      the table is full. */
  datatype AllocOutcome = Address(addr: nat) | OutOfMemory | Null

  /** `dealloc` clears an entry, or panics when the address is past the arena. */
  datatype ReleaseOutcome = Cleared | Panicked

  /** `identify_adress`: the offset of `ptr` when it lies before `base + size`.
      The subtraction `ptr - base` is only defined for `ptr >= base`. */
  function IdentifyAddress(base: nat, ptr: nat, size: nat): (r: Option<nat>)
    requires base <= ptr
    ensures r.Some? <==> ptr < base + size
    ensures r.Some? ==> base + r.value == ptr
  {
    var offset := ptr - base;
    if offset < size then Some(offset) else None
  }

  /** Every block recorded in the table ends at or before `cursor`. */
  predicate Below(t: seq<Slot>, cursor: nat)
  {
    forall j :: 0 <= j < |t| && t[j].size > 0 ==> End(t[j]) <= cursor
  }

  /** Recording a block that starts at the cursor, in an empty entry, keeps the
      blocks apart and below the advanced cursor. */
  lemma PushKeepsLayout(t: seq<Slot>, p: nat, cursor: nat, n: nat)
    requires p < |t| && t[p].size == 0
    requires Below(t, cursor) && TableSeparate(t)
    ensures Below(t[p := Slot(n, cursor)], cursor + n)
    ensures TableSeparate(t[p := Slot(n, cursor)])
  {
    var t' := t[p := Slot(n, cursor)];
    forall j, k | 0 <= j < k < |t'| && t'[j].size > 0 && t'[k].size > 0
      ensures Separate(t'[j], t'[k])
    {
      if j == p {
        assert End(t[k]) <= cursor;
      } else if k == p {
        assert End(t[j]) <= cursor;
      }
    }
  }

  /** Clearing an entry keeps the blocks apart and below the cursor. */
  lemma ClearKeepsLayout(t: seq<Slot>, p: nat, cursor: nat)
    requires p < |t|
    requires Below(t, cursor) && TableSeparate(t)
    ensures Below(t[p := EMPTY], cursor) && TableSeparate(t[p := EMPTY])
  {
    assert forall j :: 0 <= j < |t| && t[p := EMPTY][j].size > 0 ==> t[p := EMPTY][j] == t[j];
  }

  class AlphaAllocator {
    /** Address of the first byte of the arena. */
    const base: nat
    /** The `size` field: bytes in the arena. */
    const size: nat
    var timesCalled: nat
    var free: nat
    var nextOffset: nat
    const usedSlots: array<Slot>
    const historic: array<Option<nat>>

    /** The cursor stays inside the arena, every block recorded in the table
        lies below the cursor, and no two recorded blocks overlap. */
    ghost predicate Valid()
      reads this, usedSlots
    {
      size == ARENA_SIZE &&
      usedSlots.Length == size &&
      historic.Length == size &&
      nextOffset <= size &&
      Below(usedSlots[..], nextOffset) &&
      TableSeparate(usedSlots[..])
    }

    /** The free counter and the cursor add up to the arena: bytes are only
        ever taken from the front of the unused part, and never given back. */
    ghost predicate Balanced()
      reads this
    {
      free + nextOffset == size
    }

    /** The initial state of the `#[global_allocator]` static. */
    constructor (base: nat)
      ensures Valid() && Balanced()
      ensures this.base == base && size == ARENA_SIZE
      ensures timesCalled == 0 && free == ARENA_SIZE && nextOffset == 0
      ensures forall j :: 0 <= j < ARENA_SIZE ==> usedSlots[j] == EMPTY
      ensures forall j :: 0 <= j < ARENA_SIZE ==> historic[j] == None
      ensures fresh(usedSlots) && fresh(historic)
    {
      this.base := base;
      size := ARENA_SIZE;
      timesCalled := 0;
      free := ARENA_SIZE;
      nextOffset := 0;
      usedSlots := new Slot[ARENA_SIZE](_ => EMPTY);
      historic := new Option<nat>[ARENA_SIZE](_ => None);
    }

    /** `alocate_slot`: the block goes into the first empty entry, and that
        entry is returned; with no empty entry nothing changes. */
    method AlocateSlot(index: nat, length: nat) returns (r: Option<Slot>)
      modifies usedSlots
      ensures var p := FirstEmpty(old(usedSlots[..]));
        && (r.Some? <==> p < usedSlots.Length)
        && (r.Some? ==> r.value == Slot(length, index) &&
                        usedSlots[..] == old(usedSlots[..])[p := Slot(length, index)])
        && (r.None? ==> usedSlots[..] == old(usedSlots[..]))
    {
      var p := FindEmpty(usedSlots);
      if p < usedSlots.Length {
        usedSlots[p] := Slot(length, index);
        r := Some(usedSlots[p]);
      } else {
        r := None;
      }
    }

    /** `reg_historic`: among the first `size` journal entries, the first
        unused one receives the truncated request; the scan stops there. */
    method RegHistoric(request: nat)
      requires size <= historic.Length
      modifies historic
      ensures historic[..size] == Recorded(old(historic[..size]), AsU32(request))
      ensures historic[size..] == old(historic[size..])
    {
      var i := 0;
      while i < size
        invariant i <= size
        invariant forall j :: 0 <= j < i ==> historic[j].Some?
        invariant historic[..] == old(historic[..])
      {
        if historic[i].None? {
          historic[i] := Some(AsU32(request));
          assert historic[..size] == old(historic[..size])[i := Some(AsU32(request))];
          return;
        }
        i := i + 1;
      }
    }

    /** `GlobalAlloc::alloc`: journal the request and count the call; refuse
        it when it exceeds the free counter or runs past the arena (the cursor
        is put back); take the bytes at the cursor and record the block; when
        the table is full, put back cursor and free counter and return null. */
    method Alloc(request: nat) returns (r: AllocOutcome)
      requires Valid()
      modifies this`timesCalled, this`free, this`nextOffset, usedSlots, historic
      ensures Valid()
      ensures timesCalled == old(timesCalled) + 1
      ensures historic[..] == Recorded(old(historic[..]), AsU32(request))
      ensures var p := FirstEmpty(old(usedSlots[..]));
        && (r == OutOfMemory <==> request > old(free) || old(nextOffset) + request > size)
        && (r == Null <==> request <= old(free) && old(nextOffset) + request <= size && p == size)
        && (!r.Address? ==>
              nextOffset == old(nextOffset) && free == old(free) && usedSlots[..] == old(usedSlots[..]))
        && (r.Address? ==>
              p < size &&
              r.addr == base + old(nextOffset) &&
              nextOffset == old(nextOffset) + request &&
              free == old(free) - request &&
              usedSlots[..] == old(usedSlots[..])[p := Slot(request, old(nextOffset))])
      ensures r.Address? && request > 0 ==> IdentifyAddress(base, r.addr, size) == Some(old(nextOffset))
      ensures old(Balanced()) ==> Balanced()
    {
      ghost var h := historic[..];
      assert h[..size] == h;
      RegHistoric(request);
      assert historic[..] == historic[..size] + historic[size..];
      timesCalled := timesCalled + 1;
      if request > free {
        return OutOfMemory;
      }
      var oldOffset := nextOffset;
      nextOffset := nextOffset + request;
      if oldOffset + request > size {
        nextOffset := nextOffset - request;
        return OutOfMemory;
      }
      free := free - request;
      ghost var t := usedSlots[..];
      var slot := AlocateSlot(oldOffset, request);
      if slot.Some? {
        PushKeepsLayout(t, FirstEmpty(t), oldOffset, request);
        r := Address(base + oldOffset);
      } else {
        nextOffset := nextOffset - request;
        free := free + request;
        r := Null;
      }
    }

    /** `GlobalAlloc::dealloc`: clears the table entry at the array position
        equal to the offset of `ptr` (not the entry that recorded the block);
        the free counter and the cursor are left as they are. An address past
        the arena makes `unwrap` panic. */
    method Dealloc(ptr: nat, layoutSize: nat) returns (outcome: ReleaseOutcome)
      requires Valid()
      requires base <= ptr
      modifies usedSlots
      ensures Valid()
      ensures free == old(free) && nextOffset == old(nextOffset)
      ensures var off := IdentifyAddress(base, ptr, size);
        && (outcome == Panicked <==> off.None?)
        && (off.None? ==> usedSlots[..] == old(usedSlots[..]))
        && (off.Some? ==> usedSlots[..] == old(usedSlots[..])[off.value := EMPTY])
    {
      var found := IdentifyAddress(base, ptr, size);
      if found.None? {
        return Panicked;
      }
      var offset := found.value;
      ClearKeepsLayout(usedSlots[..], offset, nextOffset);
      usedSlots[offset] := EMPTY;
      outcome := Cleared;
    }
  }

  /** Two successive granted requests get adjacent ranges: the second starts
      where the first ends, and both lie inside the arena. */
  method AllocTwice(a: AlphaAllocator, m: nat, n: nat) returns (r1: AllocOutcome, r2: AllocOutcome)
    requires a.Valid()
    modifies a`timesCalled, a`free, a`nextOffset, a.usedSlots, a.historic
    ensures a.Valid()
    ensures r1.Address? && r2.Address? ==>
      old(a.base + a.nextOffset) == r1.addr && r1.addr + m == r2.addr && r2.addr + n <= a.base + a.size
  {
    r1 := a.Alloc(m);
    r2 := a.Alloc(n);
  }

  /** One request of an allocation-only run: with the request inside the free
      counter and an empty entry `e`, it is granted at the cursor, and every
      entry past `e` stays empty. */
  method CursorGrant(a: AlphaAllocator, n: nat, ghost e: nat) returns (r: AllocOutcome)
    requires a.Valid() && a.Balanced() && n <= a.free
    requires e < ARENA_SIZE && forall j :: e <= j < ARENA_SIZE ==> a.usedSlots[j].size == 0
    modifies a`timesCalled, a`free, a`nextOffset, a.usedSlots, a.historic
    ensures a.Valid() && a.Balanced() && a.nextOffset == old(a.nextOffset) + n
    ensures forall j :: e < j < ARENA_SIZE ==> a.usedSlots[j].size == 0
    ensures r == Address(a.base + old(a.nextOffset))
  {
    assert a.usedSlots[..][e].size == 0;
    r := a.Alloc(n);
  }

  /** An allocation-only run on a fresh allocator: when the requests total at
      most the arena and there are no more of them than table entries, every
      request is granted, each at the offset where the previous ones end. */
  method AllocationOnlyRun(base: nat, sizes: seq<nat>) returns (rs: seq<AllocOutcome>)
    requires Total(sizes) <= ARENA_SIZE && |sizes| <= ARENA_SIZE
    ensures |rs| == |sizes|
    ensures forall i :: 0 <= i < |sizes| ==> rs[i] == Address(base + Total(sizes[..i]))
  {
    var a := new AlphaAllocator(base);
    rs := [];
    for i := 0 to |sizes|
      invariant |rs| == i
      invariant fresh(a.usedSlots) && fresh(a.historic)
      invariant a.base == base && a.Valid() && a.Balanced()
      invariant a.nextOffset == Total(sizes[..i])
      invariant forall j :: i <= j < ARENA_SIZE ==> a.usedSlots[j].size == 0
      invariant forall k :: 0 <= k < i ==> rs[k] == Address(base + Total(sizes[..k]))
    {
      assert sizes[..i + 1][..i] == sizes[..i];
      TotalPrefix(sizes, i + 1);
      var r := CursorGrant(a, sizes[i], i);
      rs := rs + [r];
    }
  }

  /** Two 8-byte requests on a fresh allocator get offsets 0 and 8 and are
      recorded in entries 0 and 1. Releasing the second clears entry 8, which
      was empty: entry 1 still records the released block, and the free
      counter is not credited. */
  method ReleaseClearsWrongEntry() returns (first: AllocOutcome, second: AllocOutcome, kept: Slot, freeAfter: nat)
    ensures first == Address(0) && second == Address(8)
    ensures kept == Slot(8, 8)
    ensures freeAfter == ARENA_SIZE - 16
  {
    var a := new AlphaAllocator(0);
    first := a.Alloc(8);
    second := a.Alloc(8);
    var released := a.Dealloc(8, 8);
    kept := a.usedSlots[1];
    freeAfter := a.free;
  }
}

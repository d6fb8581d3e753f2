/** The first-fit allocator of src/main.rs: a 30000-byte arena, a table of 100
    slots recording the live blocks, a counter of free bytes and a journal of
    the last 400 request sizes. Addresses are integers: the arena starts at the
    abstract address `base`. */
module FirstFit {
  import opened Slots
  import opened Locator

  const MEMORY_SIZE: nat := 30000
  const SLOT_SIZE: nat := 100
  const HISTORIC_SIZE: nat := 400

  /** Why an allocation is refused (each is a panic in the source). */
  datatype Failure = InsufficientTotal | Fragmentation | TableExhausted

  datatype AllocOutcome = Granted(addr: nat) | OutOfMemory(reason: Failure)

  /** What a release did (the two failures are messages on stderr in the source). */
  datatype ReleaseOutcome = Released | UnknownAddress | NoMatchingBlock

  /** `identify_adress`: the offset of `ptr` inside the arena starting at `base`. */
  function IdentifyAddress(base: nat, ptr: nat): (r: Option<nat>)
    ensures r.Some? <==> base <= ptr < base + MEMORY_SIZE
    ensures r.Some? ==> base + r.value == ptr
  {
    if ptr < base then None
    else
      var offset := ptr - base;
      if offset < MEMORY_SIZE then Some(offset) else None
  }

  /** An address built from an offset inside the arena maps back to that offset. */
  lemma IdentifyOffset(base: nat, o: nat)
    requires o < MEMORY_SIZE
    ensures IdentifyAddress(base, base + o) == Some(o)
  {
  }

  /** Position of the first entry whose `index` is `offset`, or `|t|` when there is none. */
  function FirstWithIndex(t: seq<Slot>, offset: nat): (k: nat)
    ensures k <= |t|
    ensures forall j :: 0 <= j < k ==> t[j].index != offset
    ensures k < |t| ==> t[k].index == offset
  {
    if t == [] then 0
    else if t[0].index == offset then 0
    else 1 + FirstWithIndex(t[1..], offset)
  }

  /** The table search `iter_mut().find(|s| s.index == offset)` of `dealloc`. */
  method FindIndex(a: array<Slot>, offset: nat) returns (k: nat)
    ensures k == FirstWithIndex(a[..], offset)
  {
    k := 0;
    while k < a.Length && a[k].index != offset
      invariant k <= a.Length
      invariant forall j :: 0 <= j < k ==> a[j].index != offset
    {
      k := k + 1;
    }
  }

  /** Bytes held by the blocks of the table (empty entries add nothing). */
  function Used(t: seq<Slot>): (u: nat)
  {
    if t == [] then 0 else Used(t[..|t| - 1]) + t[|t| - 1].size
  }

  /** Overwriting one entry changes the bytes in use by the difference of the sizes. */
  lemma {:induction false} UsedUpdate(t: seq<Slot>, p: nat, x: Slot)
    requires p < |t|
    ensures Used(t[p := x]) + t[p].size == Used(t) + x.size
  {
    var n := |t| - 1;
    if p < n {
      assert t[p := x][..n] == t[..n][p := x];
      UsedUpdate(t[..n], p, x);
    } else {
      assert t[p := x][..n] == t[..n];
    }
  }

  /** A table of empty entries holds no bytes. */
  lemma {:induction false} UsedNone(t: seq<Slot>)
    requires forall j :: 0 <= j < |t| ==> t[j].size == 0
    ensures Used(t) == 0
  {
    if t != [] {
      UsedNone(t[..|t| - 1]);
    }
  }

  /** Empty entries carry offset 0: the table starts that way, a release writes
      (0, 0), and a zero-byte request is always placed at offset 0. */
  predicate EmptyAtZero(t: seq<Slot>)
  {
    forall j :: 0 <= j < |t| && t[j].size == 0 ==> t[j].index == 0
  }

  /** What every reachable table satisfies: blocks inside the arena, no two
      overlapping, empty entries at offset 0. */
  predicate TableInvariant(t: seq<Slot>)
  {
    InBounds(t, MEMORY_SIZE) && TableSeparate(t) && EmptyAtZero(t)
  }

  /** Writing a block that fits beside the live ones into an empty entry keeps
      the table invariant. */
  lemma RegisterKeepsInvariant(t: seq<Slot>, p: nat, o: nat, n: nat)
    requires TableInvariant(t)
    requires p < |t| && t[p].size == 0
    requires Fits(Live(t), o, n, MEMORY_SIZE)
    requires n == 0 ==> o == 0
    ensures TableInvariant(t[p := Slot(n, o)])
  {
    var t' := t[p := Slot(n, o)];
    forall j, k | 0 <= j < k < |t'| && t'[j].size > 0 && t'[k].size > 0
      ensures Separate(t'[j], t'[k])
    {
      if j == p {
        assert t[k] in Live(t);
        assert !Overlaps(t[k], o, n);
      } else if k == p {
        assert t[j] in Live(t);
        assert !Overlaps(t[j], o, n);
      }
    }
  }

  /** Clearing an entry keeps the table invariant. */
  lemma ClearKeepsInvariant(t: seq<Slot>, p: nat)
    requires TableInvariant(t)
    requires p < |t|
    ensures TableInvariant(t[p := EMPTY])
  {
    var t' := t[p := EMPTY];
    assert forall j :: 0 <= j < |t'| && t'[j].size > 0 ==> t'[j] == t[j];
  }

  /** No block reaches past the number of bytes in use: the blocks are packed
      at the front of the arena. Allocation-only runs keep a table this way. */
  predicate Packed(t: seq<Slot>)
  {
    forall j :: 0 <= j < |t| && t[j].size > 0 ==> End(t[j]) <= Used(t)
  }

  /** In a packed table the bytes past those in use are one free gap: a request
      that fits in the arena beside them finds a place, at or below that mark. */
  lemma PackedFit(t: seq<Slot>, n: nat)
    requires Packed(t) && Used(t) + n <= MEMORY_SIZE
    ensures LowestFit(Live(t), n, MEMORY_SIZE).Some?
    ensures LowestFit(Live(t), n, MEMORY_SIZE).value <= Used(t)
  {
    forall b | b in Live(t) ensures !Overlaps(b, Used(t), n) {
      var j :| 0 <= j < |t| && t[j] == b;
    }
    assert Fits(Live(t), Used(t), n, MEMORY_SIZE);
  }

  /** Recording a block that starts at or below the bytes in use, in an empty
      entry, keeps the table packed. */
  lemma RegisterKeepsPacked(t: seq<Slot>, p: nat, o: nat, n: nat)
    requires Packed(t) && p < |t| && t[p].size == 0 && o <= Used(t)
    ensures Packed(t[p := Slot(n, o)])
  {
    UsedUpdate(t, p, Slot(n, o));
  }

  /** What a granted request does to the table: placed at the lowest fit in the
      first empty entry, its block keeps the table invariant, adds its size to
      the bytes in use, and keeps a packed table packed when the bytes in use
      and the request fit in the arena. */
  lemma GrantKeeps(t: seq<Slot>, n: nat, packed: bool)
    requires TableInvariant(t)
    requires LowestFit(Live(t), n, MEMORY_SIZE).Some? && FirstEmpty(t) < |t|
    requires packed ==> Packed(t) && Used(t) + n <= MEMORY_SIZE
    ensures var o := LowestFit(Live(t), n, MEMORY_SIZE).value;
            var t' := t[FirstEmpty(t) := Slot(n, o)];
      && o < MEMORY_SIZE
      && TableInvariant(t')
      && Used(t') == Used(t) + n
      && (packed ==> Packed(t'))
  {
    var o := LowestFit(Live(t), n, MEMORY_SIZE).value;
    var p := FirstEmpty(t);
    if n == 0 {
      assert Fits(Live(t), 0, 0, MEMORY_SIZE);
    }
    RegisterKeepsInvariant(t, p, o, n);
    UsedUpdate(t, p, Slot(n, o));
    if packed {
      PackedFit(t, n);
      RegisterKeepsPacked(t, p, o, n);
    }
  }

  class AlphaAllocator {
    /** Address of the first byte of the arena. */
    const base: nat
    var timesCalled: nat
    var free: nat
    const usedSlots: array<Slot>
    const historic: array<Option<nat>>

    ghost predicate Valid()
      reads this, usedSlots
    {
      usedSlots.Length == SLOT_SIZE &&
      historic.Length == HISTORIC_SIZE &&
      TableInvariant(usedSlots[..])
    }

    /** The free counter agrees with the table: free bytes and bytes in use add
        up to the arena. */
    ghost predicate Accounted()
      reads this, usedSlots
    {
      free + Used(usedSlots[..]) == MEMORY_SIZE
    }

    /** `AlphaAlocator::new`: everything free, the table and the journal empty. */
    constructor (base: nat)
      ensures Valid() && Accounted() && Packed(usedSlots[..])
      ensures this.base == base && timesCalled == 0 && free == MEMORY_SIZE
      ensures forall j :: 0 <= j < SLOT_SIZE ==> usedSlots[j] == EMPTY
      ensures forall j :: 0 <= j < HISTORIC_SIZE ==> historic[j] == None
      ensures fresh(usedSlots) && fresh(historic)
    {
      this.base := base;
      timesCalled := 0;
      free := MEMORY_SIZE;
      usedSlots := new Slot[SLOT_SIZE](_ => EMPTY);
      historic := new Option<nat>[HISTORIC_SIZE](_ => None);
      new;
      UsedNone(usedSlots[..]);
    }

    /** `reg_historic`: the truncated request goes into the first unused
        journal entry; a full journal is left as it is. */
    method RegHistoric(size: nat)
      modifies historic
      ensures historic[..] == Recorded(old(historic[..]), AsU32(size))
    {
      var i := 0;
      while i < historic.Length
        invariant i <= historic.Length
        invariant forall j :: 0 <= j < i ==> historic[j].Some?
        invariant historic[..] == old(historic[..])
      {
        if historic[i].None? {
          historic[i] := Some(AsU32(size));
          return;
        }
        i := i + 1;
      }
    }

    /** `register_slot`: the block goes into the first empty entry; with no
        empty entry the table is left as it is and the answer is false. */
    method RegisterSlot(offset: nat, size: nat) returns (ok: bool)
      modifies usedSlots
      ensures var p := FirstEmpty(old(usedSlots[..]));
        ok == (p < usedSlots.Length) &&
        usedSlots[..] == if ok then old(usedSlots[..])[p := Slot(size, offset)] else old(usedSlots[..])
    {
      var p := FindEmpty(usedSlots);
      if p < usedSlots.Length {
        usedSlots[p] := Slot(size, offset);
        ok := true;
      } else {
        ok := false;
      }
    }

    /** `GlobalAlloc::alloc`: journal the request and count the call, then
        refuse it when it exceeds the free counter, when no gap holds it, or
        when the table has no empty entry; otherwise place it at the lowest
        offset where it fits, record it, take it off the free counter and
        return its address. */
    method Alloc(size: nat) returns (r: AllocOutcome)
      requires Valid()
      modifies this`timesCalled, this`free, usedSlots, historic
      ensures Valid()
      ensures timesCalled == old(timesCalled) + 1
      ensures historic[..] == Recorded(old(historic[..]), AsU32(size))
      ensures var fit := LowestFit(Live(old(usedSlots[..])), size, MEMORY_SIZE);
              var p := FirstEmpty(old(usedSlots[..]));
        && (r == OutOfMemory(InsufficientTotal) <==> size > old(free))
        && (r == OutOfMemory(Fragmentation) <==> size <= old(free) && fit.None?)
        && (r == OutOfMemory(TableExhausted) <==> size <= old(free) && fit.Some? && p == SLOT_SIZE)
        && (r.Granted? <==> size <= old(free) && fit.Some? && p < SLOT_SIZE)
        && (r.OutOfMemory? ==> usedSlots[..] == old(usedSlots[..]) && free == old(free))
        && (r.Granted? ==>
              fit.Some? && p < SLOT_SIZE &&
              r.addr == base + fit.value &&
              IdentifyAddress(base, r.addr) == Some(fit.value) &&
              usedSlots[..] == old(usedSlots[..])[p := Slot(size, fit.value)] &&
              free == old(free) - size)
      ensures old(Accounted()) ==> Accounted()
      ensures old(Accounted()) && old(Packed(usedSlots[..])) ==> Packed(usedSlots[..])
    {
      ghost var packed := Accounted() && Packed(usedSlots[..]);
      RegHistoric(size);
      timesCalled := timesCalled + 1;
      if size > free {
        return OutOfMemory(InsufficientTotal);
      }
      var found := FindFreeOffset(usedSlots, size, MEMORY_SIZE);
      if found.None? {
        return OutOfMemory(Fragmentation);
      }
      var offset := found.value;
      ghost var t := usedSlots[..];
      ghost var p := FirstEmpty(t);
      var registered := RegisterSlot(offset, size);
      if !registered {
        return OutOfMemory(TableExhausted);
      }
      free := free - size;
      r := Granted(base + offset);
      GrantKeeps(t, size, packed);
      IdentifyOffset(base, offset);
    }

    /** `GlobalAlloc::dealloc`: translate the address to an offset, clear the
        first entry whose `index` is that offset and credit the size given by
        the caller to the free counter. An address outside the arena, or an
        offset no entry carries, changes nothing. */
    method Dealloc(ptr: nat, layoutSize: nat) returns (outcome: ReleaseOutcome)
      requires Valid()
      modifies this`free, usedSlots
      ensures Valid()
      ensures var off := IdentifyAddress(base, ptr);
              var p := if off.Some? then FirstWithIndex(old(usedSlots[..]), off.value) else SLOT_SIZE;
        && (outcome == UnknownAddress <==> off.None?)
        && (outcome == NoMatchingBlock <==> off.Some? && p == SLOT_SIZE)
        && (outcome != Released ==> usedSlots[..] == old(usedSlots[..]) && free == old(free))
        && (outcome == Released ==>
              p < SLOT_SIZE &&
              usedSlots[..] == old(usedSlots[..])[p := EMPTY] &&
              free == old(free) + layoutSize)
        && (outcome == Released && off.value != 0 ==> old(usedSlots[p]).size > 0)
        && (outcome == Released && old(usedSlots[p]).size == layoutSize && old(Accounted()) ==> Accounted())
    {
      var found := IdentifyAddress(base, ptr);
      if found.None? {
        return UnknownAddress;
      }
      var offset := found.value;
      var p := FindIndex(usedSlots, offset);
      if p == usedSlots.Length {
        return NoMatchingBlock;
      }
      ghost var t := usedSlots[..];
      usedSlots[p] := EMPTY;
      assert usedSlots[..] == t[p := EMPTY];
      free := free + layoutSize;
      ClearKeepsInvariant(t, p);
      UsedUpdate(t, p, EMPTY);
      outcome := Released;
    }
  }

  /** One request of an allocation-only run: on a packed, balanced table with
      enough free bytes and an empty entry `e`, the request is granted inside
      the arena, and the table stays packed with every entry past `e` empty. */
  method PackedGrant(a: AlphaAllocator, n: nat, ghost e: nat) returns (r: AllocOutcome)
    requires a.Valid() && a.Accounted() && Packed(a.usedSlots[..]) && n <= a.free
    requires e < SLOT_SIZE && forall j :: e <= j < SLOT_SIZE ==> a.usedSlots[j].size == 0
    modifies a`timesCalled, a`free, a.usedSlots, a.historic
    ensures a.Valid() && a.Accounted() && Packed(a.usedSlots[..]) && a.free == old(a.free) - n
    ensures forall j :: e < j < SLOT_SIZE ==> a.usedSlots[j].size == 0
    ensures r.Granted? && a.base <= r.addr && r.addr + n <= a.base + MEMORY_SIZE
  {
    ghost var t := a.usedSlots[..];
    assert t[e].size == 0;
    PackedFit(t, n);
    r := a.Alloc(n);
  }

  /** An allocation-only run on a fresh allocator: when the requests total at
      most the arena and there are no more of them than table entries, every
      request is granted, inside the arena. */
  method AllocationOnlyRun(base: nat, sizes: seq<nat>) returns (rs: seq<AllocOutcome>)
    requires Total(sizes) <= MEMORY_SIZE && |sizes| <= SLOT_SIZE
    ensures |rs| == |sizes|
    ensures forall i :: 0 <= i < |sizes| ==>
      rs[i].Granted? && base <= rs[i].addr && rs[i].addr + sizes[i] <= base + MEMORY_SIZE
  {
    var a := new AlphaAllocator(base);
    rs := [];
    for i := 0 to |sizes|
      invariant |rs| == i
      invariant fresh(a.usedSlots) && fresh(a.historic)
      invariant a.base == base && a.Valid() && a.Accounted() && Packed(a.usedSlots[..])
      invariant a.free + Total(sizes[..i]) == MEMORY_SIZE
      invariant forall j :: i <= j < SLOT_SIZE ==> a.usedSlots[j].size == 0
      invariant forall k :: 0 <= k < i ==>
        rs[k].Granted? && base <= rs[k].addr && rs[k].addr + sizes[k] <= base + MEMORY_SIZE
    {
      assert sizes[..i + 1][..i] == sizes[..i];
      TotalPrefix(sizes, i + 1);
      var r := PackedGrant(a, sizes[i], i);
      rs := rs + [r];
    }
  }

  /** A table of `SLOT_SIZE` entries whose first entries are `s`, the rest empty. */
  function Table(s: seq<Slot>): (t: seq<Slot>)
    requires |s| <= SLOT_SIZE
    ensures |t| == SLOT_SIZE && t[..|s|] == s
    ensures forall j :: |s| <= j < SLOT_SIZE ==> t[j] == EMPTY
  {
    s + seq(SLOT_SIZE - |s|, _ => EMPTY)
  }

  /** Placing a block in such a table: `p` is the first empty entry, and
      writing it writes (or appends to) the prefix. */
  lemma TablePlace(s: seq<Slot>, p: nat, x: Slot)
    requires p <= |s| < SLOT_SIZE
    requires forall j :: 0 <= j < p ==> s[j].size > 0
    requires p < |s| ==> s[p].size == 0
    ensures FirstEmpty(Table(s)) == p
    ensures p < |s| ==> Table(s)[p := x] == Table(s[p := x])
    ensures p == |s| ==> Table(s)[p := x] == Table(s + [x])
  {
    assert Table(s)[p].size == 0;
    if p < |s| {
      assert Table(s)[p := x] == s[p := x] + seq(SLOT_SIZE - |s|, _ => EMPTY);
    } else {
      assert Table(s)[p := x] == (s + [x]) + seq(SLOT_SIZE - |s| - 1, _ => EMPTY);
    }
  }

  /** Releasing offset `o` in such a table: `p` is the first entry carrying
      `o`, and emptying it empties that entry of the prefix. */
  lemma TableClear(s: seq<Slot>, p: nat, o: nat)
    requires p < |s| <= SLOT_SIZE
    requires s[p].index == o && forall j :: 0 <= j < p ==> s[j].index != o
    ensures FirstWithIndex(Table(s), o) == p
    ensures Table(s)[p := EMPTY] == Table(s[p := EMPTY])
  {
    assert Table(s)[p] == s[p];
    assert Table(s)[p := EMPTY] == s[p := EMPTY] + seq(SLOT_SIZE - |s|, _ => EMPTY);
  }

  /** The live blocks of such a table are the non-empty entries of its prefix. */
  lemma TableLive(s: seq<Slot>)
    requires |s| <= SLOT_SIZE
    ensures forall b :: b in Live(Table(s)) <==> b in s && b.size > 0
  {
    var t := Table(s);
    forall b | b in t && b.size > 0 ensures b in s {
      var j :| 0 <= j < |t| && t[j] == b;
      assert j < |s|;
      assert s[j] == t[..|s|][j];
    }
    forall b | b in s ensures b in t {
      var j :| 0 <= j < |s| && s[j] == b;
      assert t[..|s|][j] == t[j];
    }
  }

  /** In such a table, a request of `n` bytes goes to offset `o` when `o` is
      clear of every block of the prefix and entry `w` overlaps every lower offset. */
  lemma TableFit(s: seq<Slot>, n: nat, o: nat, w: nat)
    requires |s| <= SLOT_SIZE && o + n <= MEMORY_SIZE
    requires forall j :: 0 <= j < |s| ==> !Overlaps(s[j], o, n)
    requires o > 0 ==> w < |s|
    requires forall o' :: 0 <= o' < o ==> Overlaps(s[w], o', n)
    ensures LowestFit(Live(Table(s)), n, MEMORY_SIZE) == Some(o)
  {
    var live := Live(Table(s));
    TableLive(s);
    forall o' | 0 <= o' < o ensures !Fits(live, o', n, MEMORY_SIZE) {
      assert Overlaps(s[w], o', n);
      assert s[w] in live;
    }
    LowestFitIs(live, n, MEMORY_SIZE, o);
  }

  /** One granted request of the run below: in a table of the `Table` shape,
      `n` bytes land at offset `o` in entry `p`, because entry `w` overlaps
      every lower offset. */
  method GrantAt(a: AlphaAllocator, ghost s: seq<Slot>, n: nat, o: nat, w: nat, p: nat) returns (r: AllocOutcome)
    requires p <= |s| < SLOT_SIZE && (p < |s| ==> s[p].size == 0)
    requires a.Valid() && a.usedSlots[..] == Table(s) && n <= a.free
    requires forall j :: 0 <= j < |s| ==> !Overlaps(s[j], o, n)
    requires o + n <= MEMORY_SIZE && (o > 0 ==> w < |s|)
    requires forall o' :: 0 <= o' < o ==> Overlaps(s[w], o', n)
    requires forall j :: 0 <= j < p ==> s[j].size > 0
    modifies a`timesCalled, a`free, a.usedSlots, a.historic
    ensures a.Valid() && r == Granted(a.base + o) && a.free == old(a.free) - n
    ensures a.usedSlots[..] == Table(if p < |s| then s[p := Slot(n, o)] else s + [Slot(n, o)])
    ensures old(a.Accounted()) ==> a.Accounted()
  {
    ghost var t := a.usedSlots[..];
    TableFit(s, n, o, w);
    TablePlace(s, p, Slot(n, o));
    assert LowestFit(Live(t), n, MEMORY_SIZE) == Some(o) && FirstEmpty(t) == p;
    r := a.Alloc(n);
  }

  /** One release of the run below: offset `o` is found in entry `p` of a table
      of the `Table` shape, which is emptied, and `n` bytes are credited. */
  method ReleaseAt(a: AlphaAllocator, ghost s: seq<Slot>, o: nat, n: nat, p: nat) returns (r: ReleaseOutcome)
    requires p < |s| <= SLOT_SIZE
    requires a.Valid() && a.usedSlots[..] == Table(s) && a.base == 0 && o < MEMORY_SIZE
    requires s[p].index == o && forall j :: 0 <= j < p ==> s[j].index != o
    modifies a`free, a.usedSlots
    ensures a.Valid() && r == Released && a.free == old(a.free) + n
    ensures a.usedSlots[..] == Table(s[p := EMPTY])
    ensures s[p].size == n && old(a.Accounted()) ==> a.Accounted()
  {
    TableClear(s, p, o);
    r := a.Dealloc(o, n);
  }

  /** The opening of the run below: two 10-byte requests on a fresh
      allocator land at offsets 0 and 10, in entries 0 and 1. */
  method TwoBlocks() returns (a: AlphaAllocator, r1: AllocOutcome, r2: AllocOutcome)
    ensures fresh(a) && fresh(a.usedSlots) && fresh(a.historic)
    ensures a.Valid() && a.Accounted() && a.base == 0 && a.free == MEMORY_SIZE - 20
    ensures var s2 := [Slot(10, 0), Slot(10, 10)]; a.usedSlots[..] == Table(s2)
    ensures r1 == Granted(0) && r2 == Granted(10)
  {
    a := new AlphaAllocator(0);
    ghost var s0: seq<Slot> := [];
    ghost var s1 := [Slot(10, 0)];
    assert a.usedSlots[..] == Table(s0);
    r1 := GrantAt(a, s0, 10, 0, 0, 0);
    assert s0 + [Slot(10, 0)] == s1;
    forall o | 0 <= o < 10 ensures Overlaps(s1[0], o, 10) { }
    r2 := GrantAt(a, s1, 10, 10, 0, 1);
    assert s1 + [Slot(10, 10)] == [Slot(10, 0), Slot(10, 10)];
  }

  /** Releasing the first of the two blocks leaves a 10-byte hole at offset 0
      and entry 0 empty. */
  method OpenHole() returns (a: AlphaAllocator, r1: AllocOutcome, r2: AllocOutcome)
    ensures fresh(a) && fresh(a.usedSlots) && fresh(a.historic)
    ensures a.Valid() && a.Accounted() && a.base == 0 && a.free == MEMORY_SIZE - 10
    ensures var s3 := [EMPTY, Slot(10, 10)]; a.usedSlots[..] == Table(s3)
    ensures r1 == Granted(0) && r2 == Granted(10)
  {
    a, r1, r2 := TwoBlocks();
    ghost var s2 := [Slot(10, 0), Slot(10, 10)];
    var d1 := ReleaseAt(a, s2, 0, 10, 0);
    assert s2[0 := EMPTY] == [EMPTY, Slot(10, 10)];
  }

  /** The first part of the run below: a 20-byte request does not fit the
      hole and goes to offset 20 in entry 0; the next 10-byte request fills the
      hole and is recorded in entry 2. */
  method Fragment() returns (a: AlphaAllocator, addrs: seq<AllocOutcome>)
    ensures fresh(a) && fresh(a.usedSlots) && fresh(a.historic)
    ensures a.Valid() && a.Accounted() && a.base == 0 && a.free == MEMORY_SIZE - 40
    ensures var s5 := [Slot(20, 20), Slot(10, 10), Slot(10, 0)]; a.usedSlots[..] == Table(s5)
    ensures addrs == [Granted(0), Granted(10), Granted(20), Granted(0)]
  {
    var r1, r2;
    a, r1, r2 := OpenHole();
    ghost var s3 := [EMPTY, Slot(10, 10)];
    ghost var s4 := [Slot(20, 20), Slot(10, 10)];
    forall o | 0 <= o < 20 ensures Overlaps(s3[1], o, 20) { }
    var r3 := GrantAt(a, s3, 20, 20, 1, 0);        // [20, 40) in entry 0
    assert s3[0 := Slot(20, 20)] == s4;
    var r4 := GrantAt(a, s4, 10, 0, 0, 2);         // [0, 10) in entry 2
    assert s4 + [Slot(10, 0)] == [Slot(20, 20), Slot(10, 10), Slot(10, 0)];
    addrs := [r1, r2, r3, r4];
  }

  /** A reachable run in which a release at offset 0 misses its block. Entry 0
      is emptied (and so carries offset 0) while the block at offset 0 sits in
      entry 2; the release of offset 0 then "clears" entry 0 and credits the
      free counter, and the block stays recorded. Afterwards free bytes and
      bytes in use add up to 10 more than the arena. */
  method ZeroOffsetReleaseMissesBlock() returns (addrs: seq<AllocOutcome>, orphan: Slot, excess: int)
    ensures addrs == [Granted(0), Granted(10), Granted(20), Granted(0)]
    ensures orphan == Slot(10, 0)
    ensures excess == 10
  {
    var a;
    a, addrs := Fragment();
    ghost var s5 := [Slot(20, 20), Slot(10, 10), Slot(10, 0)];
    ghost var s := [EMPTY, Slot(10, 10), Slot(10, 0)];
    var d2 := ReleaseAt(a, s5, 20, 20, 0);
    assert s5[0 := EMPTY] == s && s[0 := EMPTY] == s;
    var d3 := ReleaseAt(a, s, 0, 10, 0);                                // finds empty entry 0, not entry 2
    orphan := a.usedSlots[2];
    excess := a.free + Used(a.usedSlots[..]) - MEMORY_SIZE;
  }
}

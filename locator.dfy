/** The free-space locator of the first-fit allocator (`find_free_offset` in
    src/main.rs): gather the live blocks, bubble-sort them by offset, then take
    the lowest gap that holds the request. Its result is proved equal to a
    reference definition that simply tries every offset from 0 upward. */
module Locator {
  import opened Slots

  /** The blocks held by table `t`, in table order. */
  function Live(t: seq<Slot>): (r: seq<Slot>)
    ensures |r| <= |t|
    ensures forall b :: b in r <==> b in t && b.size > 0
  {
    if t == [] then []
    else
      var last := t[|t| - 1];
      assert t == t[..|t| - 1] + [last];
      Live(t[..|t| - 1]) + (if last.size > 0 then [last] else [])
  }

  /** Every block of the table ends inside an arena of `cap` bytes. */
  predicate InBounds(t: seq<Slot>, cap: nat)
  {
    forall j :: 0 <= j < |t| && t[j].size > 0 ==> End(t[j]) <= cap
  }

  /** Block `b` and the range `[o, o + n)` share at least one byte. */
  predicate Overlaps(b: Slot, o: nat, n: nat)
  {
    b.size > 0 && n > 0 && b.index < o + n && o < End(b)
  }

  /** `n` bytes at offset `o` lie inside an arena of `cap` bytes and touch none of `live`. */
  predicate Fits(live: seq<Slot>, o: nat, n: nat, cap: nat)
  {
    o + n <= cap && forall b :: b in live ==> !Overlaps(b, o, n)
  }

  /** Reference first fit: try offsets `from`, `from + 1`, ... and take the
      first one where `n` bytes fit. */
  function FirstFitFrom(live: seq<Slot>, n: nat, cap: nat, from: nat): (r: Option<nat>)
    ensures r.Some? ==> from <= r.value && Fits(live, r.value, n, cap)
    ensures r.Some? ==> forall o :: from <= o < r.value ==> !Fits(live, o, n, cap)
    ensures r.None? ==> forall o :: from <= o ==> !Fits(live, o, n, cap)
    decreases cap + 1 - from
  {
    if from + n > cap then None
    else if Fits(live, from, n, cap) then Some(from)
    else FirstFitFrom(live, n, cap, from + 1)
  }

  /** The lowest offset of the arena where `n` bytes fit beside `live`, if any. */
  function LowestFit(live: seq<Slot>, n: nat, cap: nat): (r: Option<nat>)
    ensures r.Some? ==> Fits(live, r.value, n, cap)
    ensures r.Some? ==> forall o :: 0 <= o < r.value ==> !Fits(live, o, n, cap)
    ensures r.None? <==> forall o :: !Fits(live, o, n, cap)
  {
    FirstFitFrom(live, n, cap, 0)
  }

  /** The lowest fit is one of the candidates the gap scan tries: offset 0, or
      the end of a live block. */
  lemma LowestFitIsCandidate(live: seq<Slot>, n: nat, cap: nat)
    requires LowestFit(live, n, cap).Some?
    ensures var o := LowestFit(live, n, cap).value;
      o == 0 || exists b :: b in live && End(b) == o
  {
    var o := LowestFit(live, n, cap).value;
    if o > 0 {
      assert Fits(live, 0, 0, cap);
      assert !Fits(live, o - 1, n, cap);
      var b :| b in live && Overlaps(b, o - 1, n);
      assert !Overlaps(b, o, n);
      assert End(b) == o;
    }
  }

  /** A fitting offset below which nothing fits is the lowest fit. */
  lemma LowestFitIs(live: seq<Slot>, n: nat, cap: nat, o: nat)
    requires Fits(live, o, n, cap)
    requires forall o' :: 0 <= o' < o ==> !Fits(live, o', n, cap)
    ensures LowestFit(live, n, cap) == Some(o)
  {
  }

  /** When no offset fits, there is no lowest fit. */
  lemma NoLowestFit(live: seq<Slot>, n: nat, cap: nat)
    requires forall o :: !Fits(live, o, n, cap)
    ensures LowestFit(live, n, cap) == None
  {
  }

  /** With no live block the whole arena is one gap: offset 0 when the request
      is no larger than the arena, nothing otherwise. */
  lemma EmptyTableFit(n: nat, cap: nat)
    ensures LowestFit([], n, cap) == if n <= cap then Some(0) else None
  {
    if n <= cap {
      LowestFitIs([], n, cap, 0);
    }
  }

  /** Blocks [0, 40) and [40, 80) were allocated and the first one released:
      a request of 30 bytes reuses offset 0. */
  lemma ReuseReleasedOffset()
    ensures LowestFit([Slot(40, 40)], 30, 100) == Some(0)
  {
    LowestFitIs([Slot(40, 40)], 30, 100, 0);
  }

  /** Three 10-byte blocks at 0, 20 and 40 in a 100-byte arena: a 15-byte
      request fits neither 10-byte gap and is placed after the last block. */
  lemma FragmentedArenaFit()
    ensures LowestFit([Slot(10, 0), Slot(10, 20), Slot(10, 40)], 15, 100) == Some(50)
  {
    var live := [Slot(10, 0), Slot(10, 20), Slot(10, 40)];
    forall o | 0 <= o < 50 ensures !Fits(live, o, 15, 100) {
      if o < 10 {
        assert Overlaps(live[0], o, 15);
      } else if o < 30 {
        assert Overlaps(live[1], o, 15);
      } else {
        assert Overlaps(live[2], o, 15);
      }
    }
    LowestFitIs(live, 15, 100, 50);
  }

  predicate SortedByIndex(s: seq<Slot>)
  {
    forall j, k :: 0 <= j < k < |s| ==> s[j].index <= s[k].index
  }

  /** Each block of `s` ends at or before the start of every later one. */
  predicate Ordered(s: seq<Slot>)
  {
    forall j, k :: 0 <= j < k < |s| ==> End(s[j]) <= s[k].index
  }

  /** Pairwise non-overlap of the blocks of `s`, position by position. */
  predicate PairwiseSeparate(s: seq<Slot>)
  {
    forall j, k :: 0 <= j < k < |s| ==> Separate(s[j], s[k])
  }

  /** Exchanges two entries of the scratch array. */
  method Swap(a: array<Slot>, j: nat, k: nat)
    requires j < a.Length && k < a.Length
    modifies a
    ensures a[j] == old(a[k]) && a[k] == old(a[j])
    ensures forall p :: 0 <= p < a.Length && p != j && p != k ==> a[p] == old(a[p])
    ensures multiset(a[..]) == multiset(old(a[..]))
  {
    a[j], a[k] := a[k], a[j];
  }

  /** One pass of the inner loop over `a[..m]`: neighbours out of order are
      exchanged, which carries the entry with the largest offset to `a[m - 1]`. */
  method BubblePass(a: array<Slot>, m: nat, n: nat)
    requires 1 <= m <= n <= a.Length
    requires forall p, q :: 0 <= p < m <= q < n ==> a[p].index <= a[q].index
    modifies a
    ensures multiset(a[..]) == multiset(old(a[..]))
    ensures forall p :: m <= p < a.Length ==> a[p] == old(a[p])
    ensures forall p, q :: 0 <= p < m <= q < n ==> a[p].index <= a[q].index
    ensures forall p :: 0 <= p < m ==> a[p].index <= a[m - 1].index
  {
    for j := 0 to m - 1
      invariant multiset(a[..]) == multiset(old(a[..]))
      invariant forall p :: m <= p < a.Length ==> a[p] == old(a[p])
      invariant forall p, q :: 0 <= p < m <= q < n ==> a[p].index <= a[q].index
      invariant forall p :: 0 <= p < j ==> a[p].index <= a[j].index
    {
      if a[j].index > a[j + 1].index {
        Swap(a, j, j + 1);
      }
    }
  }

  /** The nested-loop bubble sort of `temp_blocks[0..used_count]` by `index`:
      the first `n` entries end sorted and are a permutation of what they were. */
  method SortByIndex(a: array<Slot>, n: nat)
    requires n <= a.Length
    modifies a
    ensures SortedByIndex(a[..n])
    ensures multiset(a[..n]) == multiset(old(a[..n]))
    ensures a[n..] == old(a[n..])
  {
    ghost var before := a[..];
    for i := 0 to n
      invariant multiset(a[..]) == multiset(before)
      invariant forall p :: n <= p < a.Length ==> a[p] == before[p]
      invariant forall p, q :: n - i <= p < q < n ==> a[p].index <= a[q].index
      invariant forall p, q :: 0 <= p < n - i <= q < n ==> a[p].index <= a[q].index
    {
      BubblePass(a, n - i, n);
    }
    ghost var after := a[..];
    assert after[n..] == before[n..];
    PrefixPermutation(before, after, n);
  }

  /** Two sequences that are permutations of each other and agree from `n` on
      have prefixes up to `n` that are permutations of each other. */
  lemma PrefixPermutation(before: seq<Slot>, after: seq<Slot>, n: nat)
    requires n <= |before| == |after|
    requires multiset(before) == multiset(after)
    requires before[n..] == after[n..]
    ensures multiset(before[..n]) == multiset(after[..n])
  {
    assert before == before[..n] + before[n..];
    assert after == after[..n] + after[n..];
    forall x ensures multiset(before[..n])[x] == multiset(after[..n])[x] {
      assert multiset(before)[x] == multiset(before[..n])[x] + multiset(before[n..])[x];
      assert multiset(after)[x] == multiset(after[..n])[x] + multiset(after[n..])[x];
    }
  }

  /** Two equal entries at two positions count twice. */
  lemma RepeatCounted(s: seq<Slot>, j: nat, k: nat)
    requires j < k < |s|
    ensures s[j] == s[k] ==> multiset(s)[s[j]] >= 2
  {
    assert s == s[..k] + s[k..];
    assert s[j] in s[..k];
    assert s[k] in s[k..];
  }

  /** A table whose blocks do not overlap holds each block once. */
  lemma {:induction false} LiveOnce(t: seq<Slot>, b: Slot)
    requires TableSeparate(t)
    ensures multiset(Live(t))[b] <= 1
  {
    if t != [] {
      var init, last := t[..|t| - 1], t[|t| - 1];
      assert TableSeparate(init);
      LiveOnce(init, b);
      if last.size > 0 && last == b {
        assert forall j :: 0 <= j < |init| && init[j].size > 0 ==> Separate(t[j], t[|t| - 1]);
        assert b !in Live(init);
      }
    }
  }

  /** Any reordering of the live blocks of a table without overlaps is itself
      without overlaps, position by position. */
  lemma SnapshotSeparate(t: seq<Slot>, s: seq<Slot>)
    requires TableSeparate(t)
    requires multiset(s) == multiset(Live(t))
    ensures PairwiseSeparate(s)
  {
    forall j, k | 0 <= j < k < |s|
      ensures Separate(s[j], s[k])
    {
      RepeatCounted(s, j, k);
      LiveOnce(t, s[j]);
      assert s[j] in multiset(s) && s[k] in multiset(s);
      assert s[j] in Live(t) && s[k] in Live(t);
      var p :| 0 <= p < |t| && t[p] == s[j];
      var q :| 0 <= q < |t| && t[q] == s[k];
      if p < q {
        assert Separate(t[p], t[q]);
      } else {
        assert Separate(t[q], t[p]);
      }
    }
  }

  /** Sorted, non-overlapping, non-empty blocks lie one after the other. */
  lemma SortedSeparateOrdered(s: seq<Slot>)
    requires SortedByIndex(s) && PairwiseSeparate(s)
    requires forall b :: b in s ==> b.size > 0
    ensures Ordered(s)
  {
    forall j, k | 0 <= j < k < |s|
      ensures End(s[j]) <= s[k].index
    {
      assert Separate(s[j], s[k]);
      assert s[k] in s;
    }
  }

  /** Step 1 of `find_free_offset`: copy the live entries of the table, in
      table order, to the front of a fresh scratch array. */
  method CollectLive(slots: array<Slot>) returns (temp: array<Slot>, usedCount: nat)
    ensures fresh(temp)
    ensures usedCount <= temp.Length
    ensures temp[..usedCount] == Live(slots[..])
  {
    usedCount := 0;
    temp := new Slot[slots.Length](_ => EMPTY);
    for k := 0 to slots.Length
      invariant usedCount <= k
      invariant temp[..usedCount] == Live(slots[..k])
    {
      ghost var prev := temp[..usedCount];
      assert slots[..k + 1][..k] == slots[..k];
      assert Live(slots[..k + 1]) == prev + (if slots[k].size > 0 then [slots[k]] else []);
      if slots[k].size > 0 {
        temp[usedCount] := slots[k];
        assert temp[..usedCount + 1] == prev + [slots[k]];
        usedCount := usedCount + 1;
      }
    }
    assert slots[..slots.Length] == slots[..];
  }

  /** In a run of blocks ordered by offset, a request placed after block `i - 1`
      and before block `i` overlaps none of the blocks. */
  lemma GapClear(s: seq<Slot>, live: seq<Slot>, i: nat, o: nat, n: nat)
    requires Ordered(s) && forall b :: b in s <==> b in live
    requires i <= |s|
    requires i > 0 ==> End(s[i - 1]) <= o
    requires i < |s| ==> o + n <= s[i].index
    ensures forall b :: b in live ==> !Overlaps(b, o, n)
  {
    forall b | b in live ensures !Overlaps(b, o, n) {
      var k :| 0 <= k < |s| && s[k] == b;
      if k < i - 1 {
        assert End(s[k]) <= s[i - 1].index;
      } else if k > i {
        assert End(s[i]) <= s[k].index;
      }
    }
  }

  /** Steps 3 to 5 of `find_free_offset`, over the blocks sorted by offset:
      the gap before the first block, each gap between neighbours, then the
      space after the last block; the first gap that holds `size` bytes wins.
      The offset found is the lowest one of the arena where `size` bytes fit. */
  method ScanGaps(temp: array<Slot>, usedCount: nat, size: nat, cap: nat, ghost live: seq<Slot>)
    returns (r: Option<nat>)
    requires usedCount <= temp.Length
    requires Ordered(temp[..usedCount])
    requires forall b :: b in temp[..usedCount] <==> b in live
    requires forall b :: b in live ==> b.size > 0 && End(b) <= cap
    ensures r == LowestFit(live, size, cap)
  {
    ghost var s := temp[..usedCount];
    if usedCount == 0 {
      assert forall b :: b !in live;
      if size <= cap {
        LowestFitIs(live, size, cap, 0);
        return Some(0);
      } else {
        NoLowestFit(live, size, cap);
        return None;
      }
    }

    if temp[0].index >= size {
      GapClear(s, live, 0, 0, size);
      LowestFitIs(live, size, cap, 0);
      return Some(0);
    }

    assert s[0] in s;
    assert forall o :: 0 <= o < End(temp[0]) ==> Overlaps(s[0], o, size);

    var i := 0;
    while i < usedCount - 1
      invariant 0 <= i < usedCount
      invariant forall o :: 0 <= o < End(temp[i]) ==> !Fits(live, o, size, cap)
    {
      var endThis := temp[i].index + temp[i].size;
      assert End(s[i]) <= s[i + 1].index;
      var gap: nat := temp[i + 1].index - endThis;
      assert s[i + 1] in s;
      if gap >= size {
        GapClear(s, live, i + 1, endThis, size);
        LowestFitIs(live, size, cap, endThis);
        return Some(endThis);
      }
      forall o | End(temp[i]) <= o < End(temp[i + 1])
        ensures !Fits(live, o, size, cap)
      {
        assert Overlaps(s[i + 1], o, size);
      }
      i := i + 1;
    }

    var endLast := temp[usedCount - 1].index + temp[usedCount - 1].size;
    assert s[usedCount - 1] in s;
    var spaceAfter: nat := cap - endLast;
    if spaceAfter >= size {
      GapClear(s, live, usedCount, endLast, size);
      LowestFitIs(live, size, cap, endLast);
      return Some(endLast);
    }
    NoLowestFit(live, size, cap);
    return None;
  }

  /** `find_free_offset`: gather the live blocks, sort them by offset, scan the
      gaps. Given a table whose blocks lie inside the arena and do not overlap,
      the offset returned is the lowest one where `size` bytes fit, and `None`
      means no offset fits at all. */
  method FindFreeOffset(slots: array<Slot>, size: nat, cap: nat) returns (r: Option<nat>)
    requires InBounds(slots[..], cap)
    requires TableSeparate(slots[..])
    ensures r == LowestFit(Live(slots[..]), size, cap)
  {
    ghost var live := Live(slots[..]);
    var temp, usedCount := CollectLive(slots);
    SortByIndex(temp, usedCount);
    ghost var s := temp[..usedCount];
    assert multiset(s) == multiset(live);
    forall b ensures b in s <==> b in live {
      assert b in s <==> b in multiset(s);
      assert b in live <==> b in multiset(live);
    }
    forall b | b in live ensures b.size > 0 && End(b) <= cap {
      var j :| 0 <= j < slots.Length && slots[j] == b;
    }
    SnapshotSeparate(slots[..], s);
    SortedSeparateOrdered(s);
    r := ScanGaps(temp, usedCount, size, cap, live);
  }
}

/** Definitions shared by both versions of the allocator: the table entry, the
    "first empty entry" search both versions use, and the request journal. */
module Slots {

  datatype Option<T> = None | Some(value: T)

  /** One entry of the live-allocation table: the block starts at offset `index`
      and is `size` bytes long. An entry with `size == 0` is empty. */
  datatype Slot = Slot(size: nat, index: nat)

  /** The value every empty entry starts with, and the one a release writes. */
  const EMPTY: Slot := Slot(0, 0)

  /** First offset past the block. */
  function End(b: Slot): (e: nat)
  {
    b.index + b.size
  }

  /** The two blocks share no byte. */
  predicate Separate(a: Slot, b: Slot)
  {
    End(a) <= b.index || End(b) <= a.index
  }

  /** No two non-empty entries of the table, at different positions, overlap. */
  predicate TableSeparate(t: seq<Slot>)
  {
    forall j, k :: 0 <= j < k < |t| && t[j].size > 0 && t[k].size > 0 ==> Separate(t[j], t[k])
  }

  /** Position of the first empty entry of `t`, or `|t|` when every entry holds a block. */
  function FirstEmpty(t: seq<Slot>): (k: nat)
    ensures k <= |t|
    ensures forall j :: 0 <= j < k ==> t[j].size > 0
    ensures k < |t| ==> t[k].size == 0
  {
    if t == [] then 0
    else if t[0].size == 0 then 0
    else 1 + FirstEmpty(t[1..])
  }

  /** The table search `iter_mut().find(|s| s.size == 0)`: scans from the front
      and stops at the first empty entry (or runs off the end). */
  method FindEmpty(a: array<Slot>) returns (k: nat)
    ensures k == FirstEmpty(a[..])
  {
    k := 0;
    while k < a.Length && a[k].size != 0
      invariant k <= a.Length
      invariant forall j :: 0 <= j < k ==> a[j].size > 0
    {
      k := k + 1;
    }
  }

  /** `size as u32`: the journal keeps only the low 32 bits of a request. */
  function AsU32(n: nat): (r: nat)
    ensures r < 0x1_0000_0000
    ensures n < 0x1_0000_0000 ==> r == n
  {
    n % 0x1_0000_0000
  }

  /** Position of the first unused journal entry, or `|h|` when the journal is full. */
  function FirstUnused<T>(h: seq<Option<T>>): (k: nat)
    ensures k <= |h|
    ensures forall j :: 0 <= j < k ==> h[j].Some?
    ensures k < |h| ==> h[k].None?
  {
    if h == [] then 0
    else if h[0].None? then 0
    else 1 + FirstUnused(h[1..])
  }

  /** The journal after a request of `v` bytes has been recorded: the first
      unused entry now holds `v`; a full journal drops the request. */
  function Recorded(h: seq<Option<nat>>, v: nat): (r: seq<Option<nat>>)
    ensures |r| == |h|
    ensures forall j :: 0 <= j < |h| && h[j].Some? ==> r[j] == h[j]
    ensures r == h <==> FirstUnused(h) == |h|
    ensures r != h ==> r[FirstUnused(h)] == Some(v)
    ensures forall j :: 0 <= j < |h| && j != FirstUnused(h) ==> r[j] == h[j]
  {
    var k := FirstUnused(h);
    if k < |h| then h[k := Some(v)] else h
  }

  /** Total of a run of request sizes. */
  function Total(s: seq<nat>): (n: nat)
  {
    if s == [] then 0 else Total(s[..|s| - 1]) + s[|s| - 1]
  }

  /** The requests made so far never total more than the whole run. */
  lemma {:induction false} TotalPrefix(s: seq<nat>, i: nat)
    requires i <= |s|
    ensures Total(s[..i]) <= Total(s)
    decreases |s|
  {
    if i < |s| {
      var init := s[..|s| - 1];
      assert init[..i] == s[..i];
      TotalPrefix(init, i);
    } else {
      assert s[..i] == s;
    }
  }
}

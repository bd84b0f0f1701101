/** The physical frame allocator (src/mm/pmm.c): one flag per frame, a scan hint, a use count. */
module Pmm {
  import opened Options

  const PAGE: nat := 4096

  // ---------------------------------------------------------------- counting

  function CountSet(bits: seq<bool>): nat {
    if bits == [] then 0 else CountSet(bits[..|bits| - 1]) + (if bits[|bits| - 1] then 1 else 0)
  }

  lemma {:induction false} CountUpdate(bits: seq<bool>, i: nat, v: bool)
    requires i < |bits|
    ensures CountSet(bits[i := v]) + (if bits[i] then 1 else 0) == CountSet(bits) + (if v then 1 else 0)
  {
    var n := |bits| - 1;
    if i < n {
      CountUpdate(bits[..n], i, v);
      assert bits[i := v][..n] == bits[..n][i := v];
    } else {
      assert bits[i := v][..n] == bits[..n];
    }
  }

  lemma {:induction false} CountAll(bits: seq<bool>)
    ensures CountSet(bits) <= |bits|
    ensures CountSet(bits) == |bits| <==> forall i :: 0 <= i < |bits| ==> bits[i]
  {
    if bits != [] {
      CountAll(bits[..|bits| - 1]);
      assert forall i :: 0 <= i < |bits| - 1 ==> bits[..|bits| - 1][i] == bits[i];
    }
  }

  // ---------------------------------------------------------------- runs of free frames

  /** `n` clear flags from `start`. */
  predicate FreeRun(bits: seq<bool>, start: nat, n: nat) {
    start + n <= |bits| && forall i :: start <= i < start + n ==> !bits[i]
  }

  predicate LowestRun(bits: seq<bool>, start: nat, n: nat) {
    FreeRun(bits, start, n) && forall s: nat :: s < start ==> !FreeRun(bits, s, n)
  }

  /** Set `n` flags from `start`. */
  function Marked(bits: seq<bool>, start: nat, n: nat): (r: seq<bool>)
    requires start + n <= |bits|
    ensures |r| == |bits| && forall i :: 0 <= i < |bits| ==> r[i] == (bits[i] || start <= i < start + n)
  {
    if n == 0 then bits else Marked(bits, start, n - 1)[start + n - 1 := true]
  }

  lemma {:induction false} MarkedCount(bits: seq<bool>, start: nat, n: nat)
    requires FreeRun(bits, start, n)
    ensures CountSet(Marked(bits, start, n)) == CountSet(bits) + n
  {
    if n > 0 {
      MarkedCount(bits, start, n - 1);
      CountUpdate(Marked(bits, start, n - 1), start + n - 1, true);
    }
  }

  // ---------------------------------------------------------------- runs

  /** What a method call does to the flags. */
  datatype Op = Alloc(frame: nat) | Contig(start: nat, n: nat) | Release(frame: nat)

  /** `op` is a possible effect on the flags. */
  ghost predicate Possible(bits: seq<bool>, op: Op) {
    match op
    case Alloc(f) => f < |bits| && !bits[f]
    case Contig(s, n) => n > 0 && LowestRun(bits, s, n)
    case Release(f) => true
  }

  function Effect(bits: seq<bool>, op: Op): (r: seq<bool>)
    ensures |r| == |bits|
  {
    match op
    case Alloc(f) => if f < |bits| then bits[f := true] else bits
    case Contig(s, n) => if s + n <= |bits| then Marked(bits, s, n) else bits
    case Release(f) => if f < |bits| then bits[f := false] else bits
  }

  predicate HandsOut(op: Op, f: nat) {
    match op
    case Alloc(g) => g == f
    case Contig(s, n) => s <= f < s + n
    case Release(_) => false
  }

  ghost predicate IsRun(trace: seq<seq<bool>>, ops: seq<Op>) {
    && |trace| == |ops| + 1
    && forall k :: 0 <= k < |ops| ==> Possible(trace[k], ops[k]) && trace[k + 1] == Effect(trace[k], ops[k])
  }

  lemma RunSnoc(trace: seq<seq<bool>>, ops: seq<Op>, op: Op)
    requires IsRun(trace, ops) && Possible(trace[|ops|], op)
    ensures IsRun(trace + [Effect(trace[|ops|], op)], ops + [op])
  {
    hide Possible, Effect;
    var t, o := trace + [Effect(trace[|ops|], op)], ops + [op];
    forall k | 0 <= k < |o|
      ensures Possible(t[k], o[k]) && t[k + 1] == Effect(t[k], o[k])
    {
      if k < |ops| {
        assert t[k] == trace[k] && t[k + 1] == trace[k + 1] && o[k] == ops[k];
      }
    }
  }

  lemma {:induction false} StaysTaken(trace: seq<seq<bool>>, ops: seq<Op>, f: nat, i: nat, j: nat)
    requires IsRun(trace, ops) && i < j < |trace| && HandsOut(ops[i], f)
    requires forall k :: i < k < j ==> ops[k] != Release(f)
    ensures f < |trace[j]| && trace[j][f]
    decreases j - i
  {
    if i + 1 == j {
      assert trace[j] == Effect(trace[i], ops[i]);
    } else {
      StaysTaken(trace, ops, f, i, j - 1);
      assert trace[j] == Effect(trace[j - 1], ops[j - 1]);
    }
  }

  /** No frame is handed out twice without being released in between, over every run. */
  lemma NoDoubleHandOut(trace: seq<seq<bool>>, ops: seq<Op>, f: nat, i: nat, j: nat)
    requires IsRun(trace, ops) && i < j < |ops| && HandsOut(ops[i], f) && HandsOut(ops[j], f)
    ensures exists k :: i < k < j && ops[k] == Release(f)
  {
    assert Possible(trace[j], ops[j]);
    if forall k :: i < k < j ==> ops[k] != Release(f) {
      StaysTaken(trace, ops, f, i, j);
    }
  }

  // ---------------------------------------------------------------- the memory map

  /** A boot memory-map entry. */
  datatype Entry = Entry(base: nat, length: nat, usable: bool, ram: bool) {
    /** The entry's bytes. */
    predicate Holds(a: nat) {
      base <= a < base + length
    }

    /** First byte the allocator may hand out: the bitmap sits at the start of its own region. */
    function First(bitmapBase: nat, bitmapPages: nat): nat {
      if base == bitmapBase then base + bitmapPages * PAGE else base
    }

    /** Frame `idx` is freed on behalf of this entry. */
    ghost predicate Frees(bitmapBase: nat, bitmapPages: nat, idx: nat) {
      usable && exists k: nat ::
        Visited(First(bitmapBase, bitmapPages), k) < base + length && idx == Visited(First(bitmapBase, bitmapPages), k) / PAGE
    }
  }

  /** The `k`-th address of the freeing loop. */
  function Visited(first: nat, k: nat): nat {
    first + k * PAGE
  }

  /** `m` is the end of the highest region of real memory, or 0 without any. */
  ghost predicate IsRamEnd(entries: seq<Entry>, m: nat) {
    && (forall i :: 0 <= i < |entries| && (entries[i].usable || entries[i].ram) ==> entries[i].base + entries[i].length <= m)
    && (m == 0 || exists i :: 0 <= i < |entries| && (entries[i].usable || entries[i].ram) && m == entries[i].base + entries[i].length)
  }

  method MaxPhys(entries: seq<Entry>) returns (m: nat)
    ensures IsRamEnd(entries, m)
  {
    m := 0;
    for i := 0 to |entries|
      invariant forall k :: 0 <= k < i && (entries[k].usable || entries[k].ram) ==> entries[k].base + entries[k].length <= m
      invariant m == 0 || exists k :: 0 <= k < i && (entries[k].usable || entries[k].ram) && m == entries[k].base + entries[k].length
    {
      if (entries[i].usable || entries[i].ram) && entries[i].base + entries[i].length > m {
        m := entries[i].base + entries[i].length;
      }
    }
  }

  /** Region `i` is the first usable one that can hold the bitmap. */
  ghost predicate FirstRoom(entries: seq<Entry>, pages: nat, i: nat) {
    && i < |entries| && entries[i].usable && entries[i].length >= pages * PAGE
    && forall k :: 0 <= k < i ==> !(entries[k].usable && entries[k].length >= pages * PAGE)
  }

  /** Where the bitmap goes. The kernel panics (None) when no region has room, and also when the first one
      that has room starts at address 0, which it takes for failure. */
  method PlaceBitmap(entries: seq<Entry>, pages: nat) returns (base: Option<nat>)
    ensures base.Some? <==> exists i: nat :: FirstRoom(entries, pages, i) && entries[i].base != 0
    ensures base.Some? ==> exists i: nat :: FirstRoom(entries, pages, i) && entries[i].base == base.value
  {
    for i := 0 to |entries|
      invariant forall k :: 0 <= k < i ==> !(entries[k].usable && entries[k].length >= pages * PAGE)
    {
      if entries[i].usable && entries[i].length >= pages * PAGE {
        assert FirstRoom(entries, pages, i);
        assert forall k: nat :: FirstRoom(entries, pages, k) ==> k == i;
        return if entries[i].base != 0 then Some(entries[i].base) else None;
      }
    }
    return None;
  }

  /** A memory map as the boot loader hands it over: usable regions are page-aligned and disjoint. */
  ghost predicate Tidy(entries: seq<Entry>) {
    && (forall i :: 0 <= i < |entries| && entries[i].usable ==> entries[i].base % PAGE == 0)
    && (forall i, j, a: nat ::
          (0 <= i < |entries| && 0 <= j < |entries| && entries[i].usable && entries[j].usable
           && entries[i].Holds(a) && entries[j].Holds(a)) ==> i == j)
  }

  /** No entry frees a frame of the bitmap: its frames stay used for ever. */
  lemma BitmapStaysUsed(entries: seq<Entry>, pages: nat, i: nat, j: nat, idx: nat)
    requires Tidy(entries) && FirstRoom(entries, pages, i) && j < |entries|
    requires entries[i].base / PAGE <= idx < entries[i].base / PAGE + pages
    ensures !entries[j].Frees(entries[i].base, pages, idx)
  {
    var c, e := entries[i], entries[j];
    var base := c.base;
    if e.Frees(base, pages, idx) {
      var first := e.First(base, pages);
      var k: nat :| Visited(first, k) < e.base + e.length && idx == Visited(first, k) / PAGE;
      var v := Visited(first, k);
      assert base == base / PAGE * PAGE;
      if e.base != base {
        AlignedVisit(e.base, k);
        assert v == idx * PAGE && e.Holds(v);
        assert c.Holds(v) by {
          PageInside(base / PAGE, idx, pages);
        }
      }
    }
  }

  lemma AlignedVisit(base: nat, k: nat)
    requires base % PAGE == 0
    ensures Visited(base, k) == Visited(base, k) / PAGE * PAGE
  {}

  lemma PageInside(first: nat, idx: nat, pages: nat)
    requires first <= idx < first + pages
    ensures first * PAGE <= idx * PAGE < first * PAGE + pages * PAGE
  {}

  // ---------------------------------------------------------------- the allocator

  const ZERO_PAGE: seq<int> := seq(PAGE, _ => 0)

  class FrameAllocator {
    const total: nat
    const bitmap: array<bool>
    var used: nat
    var hint: nat
    /** The bytes of each frame. */
    const memory: array<seq<int>>
    /** The flags after every call so far, and the calls. */
    ghost var trace: seq<seq<bool>>
    ghost var ops: seq<Op>

    ghost predicate Valid()
      reads this, bitmap
    {
      && bitmap.Length == total == memory.Length && used == CountSet(bitmap[..]) && hint <= total
      && IsRun(trace, ops) && trace[|ops|] == bitmap[..]
    }

    /** Record a call. */
    ghost method Log(op: Op)
      requires IsRun(trace, ops) && Possible(trace[|ops|], op) && bitmap[..] == Effect(trace[|ops|], op)
      modifies this`trace, this`ops
      ensures IsRun(trace, ops) && trace[|ops|] == bitmap[..] && ops == old(ops) + [op]
    {
      RunSnoc(trace, ops, op);
      trace, ops := trace + [Effect(trace[|ops|], op)], ops + [op];
    }

    /** Everything used at first, as pmm_init leaves it before walking the map. */
    constructor (total: nat)
      ensures Valid() && fresh(bitmap) && fresh(memory) && this.total == total && hint == 0 && ops == []
      ensures forall i :: 0 <= i < total ==> bitmap[i]
    {
      this.total := total;
      bitmap := new bool[total](_ => true);
      used := total;
      hint := 0;
      memory := new seq<int>[total](_ => ZERO_PAGE);
      ops := [];
      new;
      trace := [bitmap[..]];
      CountAll(bitmap[..]);
    }

    method Clear(idx: nat)
      requires Valid() && idx < total && bitmap[idx]
      modifies this`used, this`trace, this`ops, bitmap
      ensures Valid() && bitmap[..] == old(bitmap[..])[idx := false] && used == old(used) - 1
      ensures ops == old(ops) + [Release(idx)]
    {
      CountUpdate(bitmap[..], idx, false);
      bitmap[idx] := false;
      assert bitmap[..] == old(bitmap[..])[idx := false];
      used := used - 1;
      hide IsRun;
      Log(Release(idx));
    }

    /** The walk over the memory map: a frame is free afterwards exactly when it was, or when some usable
        entry frees it; the count follows. */
    method FreeUsable(entries: seq<Entry>, bitmapBase: nat, bitmapPages: nat)
      requires Valid()
      modifies this`used, this`trace, this`ops, bitmap
      ensures Valid()
      ensures forall i :: 0 <= i < total ==>
                (bitmap[i] <==> old(bitmap[i]) && forall e :: e in entries ==> !e.Frees(bitmapBase, bitmapPages, i))
    {
      for n := 0 to |entries|
        invariant Valid()
        invariant forall i :: 0 <= i < total ==>
                    (bitmap[i] <==> old(bitmap[i]) && forall j :: 0 <= j < n ==> !entries[j].Frees(bitmapBase, bitmapPages, i))
      {
        if entries[n].usable {
          FreeEntry(entries[n], bitmapBase, bitmapPages);
        }
      }
    }

    method FreeEntry(e: Entry, bitmapBase: nat, bitmapPages: nat)
      requires Valid() && e.usable
      modifies this`used, this`trace, this`ops, bitmap
      ensures Valid()
      ensures forall i :: 0 <= i < total ==> (bitmap[i] <==> old(bitmap[i]) && !e.Frees(bitmapBase, bitmapPages, i))
    {
      var first := e.First(bitmapBase, bitmapPages);
      var p := first;
      ghost var k := 0;
      while p < e.base + e.length
        invariant Valid() && p == Visited(first, k)
        invariant k > 0 ==> Visited(first, k - 1) < e.base + e.length
        invariant forall i :: 0 <= i < total ==>
                    (bitmap[i] <==> old(bitmap[i]) && forall j: nat :: j < k ==> i != Visited(first, j) / PAGE)
      {
        var idx := p / PAGE;
        if idx < total && bitmap[idx] {
          Clear(idx);
        }
        p := p + PAGE;
        k := k + 1;
      }
      forall i | 0 <= i < total ensures bitmap[i] <==> old(bitmap[i]) && !e.Frees(bitmapBase, bitmapPages, i) {
        assert forall j: nat :: j < k <==> Visited(first, j) < e.base + e.length;
      }
    }

    /** Scan for a clear flag in [from, to), take and zero the frame, and move the hint past it. */
    method Scan(from: nat, to: nat) returns (frame: Option<nat>)
      requires Valid() && from <= to <= total
      modifies this, bitmap, memory
      ensures Valid()
      ensures var was := old(bitmap[..]);
              match frame
              case None =>
                && bitmap[..] == was && used == old(used) && hint == old(hint) && ops == old(ops)
                && memory[..] == old(memory[..]) && forall i :: from <= i < to ==> was[i]
              case Some(f) =>
                && from <= f < to && !was[f] && (forall i :: from <= i < f ==> was[i])
                && bitmap[..] == was[f := true] && used == old(used) + 1 && hint == f + 1
                && memory[..] == old(memory[..])[f := ZERO_PAGE] && ops == old(ops) + [Alloc(f)]
    {
      hide IsRun;
      ghost var was := bitmap[..];
      for i := from to to
        invariant used == old(used) && hint == old(hint) && bitmap[..] == was && memory[..] == old(memory[..])
        invariant trace == old(trace) && ops == old(ops)
        invariant forall j :: from <= j < i ==> was[j]
      {
        assert bitmap[i] == was[i];
        if !bitmap[i] {
          Take(i);
          hint := i + 1;
          return Some(i);
        }
      }
      return None;
    }

    /** Set one flag and zero the frame's bytes. */
    method Take(i: nat)
      requires Valid() && i < total && !bitmap[i]
      modifies this`used, this`trace, this`ops, bitmap, memory
      ensures Valid() && bitmap[..] == old(bitmap[..])[i := true] && used == old(used) + 1
      ensures memory[..] == old(memory[..])[i := ZERO_PAGE] && ops == old(ops) + [Alloc(i)]
    {
      ghost var was := bitmap[..];
      CountUpdate(was, i, true);
      bitmap[i] := true;
      assert bitmap[..] == was[i := true];
      used := used + 1;
      memory[i] := ZERO_PAGE;
      hide IsRun;
      Log(Alloc(i));
    }

    /** The physical address of a zeroed frame that was free and is now in use, the first free one from the
        hint on, wrapping around once; the kernel panics (None) exactly when every frame is in use. */
    method AllocPage() returns (phys: Option<nat>)
      requires Valid()
      modifies this, bitmap, memory
      ensures Valid()
      ensures phys.None? <==> forall i :: 0 <= i < total ==> old(bitmap[..])[i]
      ensures phys.None? ==> bitmap[..] == old(bitmap[..]) && used == old(used) == total && ops == old(ops)
      ensures phys.Some? ==>
                && phys.value % PAGE == 0
                && var f, was := phys.value / PAGE, old(bitmap[..]);
                && f < total && !was[f]
                && (f >= old(hint) ==> forall i :: old(hint) <= i < f ==> was[i])
                && (f < old(hint) ==> forall i :: 0 <= i < total && (i < f || i >= old(hint)) ==> was[i])
                && bitmap[..] == was[f := true]
                && used == old(used) + 1 && hint == f + 1
                && memory[..] == old(memory[..])[f := ZERO_PAGE] && ops == old(ops) + [Alloc(f)]
    {
      hide IsRun;
      ghost var was := bitmap[..];
      var frame := Scan(hint, total);
      if frame.Some? {
        return Some(frame.value * PAGE);
      }
      frame := Scan(0, hint);
      if frame.Some? {
        return Some(frame.value * PAGE);
      }
      CountAll(was);
      return None;
    }

    /** Length of the free prefix of [start, start + n), at most `n`. */
    method FreePrefix(start: nat, n: nat) returns (i: nat)
      requires start + n <= bitmap.Length
      ensures i <= n && FreeRun(bitmap[..], start, i)
      ensures i < n ==> bitmap[start + i]
    {
      i := 0;
      while i < n
        invariant i <= n && FreeRun(bitmap[..], start, i)
      {
        if bitmap[start + i] {
          return;
        }
        i := i + 1;
      }
    }

    /** The skip-ahead search: the lowest free run, or None when there is none. */
    method FindRun(n: nat) returns (run: Option<nat>)
      requires n > 0
      ensures run.Some? ==> LowestRun(bitmap[..], run.value, n)
      ensures run.None? ==> forall s: nat :: !FreeRun(bitmap[..], s, n)
    {
      var start := 0;
      ghost var bits := bitmap[..];
      while start + n <= bitmap.Length
        invariant forall s: nat :: s < start ==> !FreeRun(bits, s, n)
        decreases bitmap.Length - start
      {
        var i := FreePrefix(start, n);
        if i == n {
          return Some(start);
        }
        forall s: nat | start <= s <= start + i ensures !FreeRun(bits, s, n) {
          assert bits[start + i];
        }
        start := start + i + 1;
      }
      return None;
    }

    /** pmm_alloc_contig: the lowest free run of `n` frames is taken and zeroed if there is one. The C result
        is the byte address, so it is 0 exactly when nothing fits or the run starts at frame 0. */
    method AllocContig(n: nat) returns (phys: nat, ghost run: Option<nat>)
      requires Valid()
      modifies this`used, this`trace, this`ops, bitmap, memory
      ensures Valid()
      ensures phys == 0 <==> n == 0 || (forall s: nat :: !FreeRun(old(bitmap[..]), s, n)) || FreeRun(old(bitmap[..]), 0, n)
      ensures run.None? <==> n == 0 || forall s: nat :: !FreeRun(old(bitmap[..]), s, n)
      ensures run.None? ==> phys == 0 && bitmap[..] == old(bitmap[..]) && used == old(used) && ops == old(ops)
      ensures run.Some? ==> Gave(old(bitmap[..]), bitmap[..], phys, n) && phys == run.value * PAGE
      ensures run.Some? ==> used == old(used) + n && ops == old(ops) + [Contig(run.value, n)]
      ensures run.Some? ==> forall i :: 0 <= i < total ==>
                memory[i] == if run.value <= i < run.value + n then ZERO_PAGE else old(memory[..])[i]
    {
      hide IsRun;
      if n == 0 || n > total {
        return 0, None;
      }
      var r := FindRun(n);
      if r.None? {
        return 0, None;
      }
      ghost var was, mem := bitmap[..], memory[..];
      var start := r.value;
      MarkedCount(was, start, n);
      for j := 0 to n
        invariant bitmap[..] == Marked(was, start, j) && used == old(used) && memory[..] == mem
        invariant trace == old(trace) && ops == old(ops)
      {
        bitmap[start + j] := true;
      }
      used := used + n;
      ZeroFrames(start, n);
      Log(Contig(start, n));
      return start * PAGE, Some(start);
    }

    method ZeroFrames(start: nat, n: nat)
      requires start + n <= memory.Length
      modifies memory
      ensures forall i :: 0 <= i < memory.Length ==>
                memory[i] == if start <= i < start + n then ZERO_PAGE else old(memory[..])[i]
    {
      for j := 0 to n
        invariant forall i :: 0 <= i < memory.Length ==>
                    memory[i] == if start <= i < start + j then ZERO_PAGE else old(memory[..])[i]
      {
        memory[start + j] := ZERO_PAGE;
      }
    }

    /** Out-of-range and already free frames are ignored. */
    method FreePage(phys: nat)
      requires Valid()
      modifies this, bitmap
      ensures Valid()
      ensures var f := phys / PAGE;
              if f < total && old(bitmap[f])
              then bitmap[..] == old(bitmap[..])[f := false] && used == old(used) - 1
                   && hint == (if f < old(hint) then f else old(hint)) && ops == old(ops) + [Release(f)]
              else bitmap[..] == old(bitmap[..]) && used == old(used) && hint == old(hint) && ops == old(ops)
    {
      hide IsRun;
      var idx := phys / PAGE;
      if idx >= total {
        return;
      }
      if !bitmap[idx] {
        return;
      }
      Clear(idx);
      if idx < hint {
        hint := idx;
      }
    }

    /** Whatever calls an allocator has answered, it never handed out a frame twice without a release in
        between. */
    lemma NeverTwice(i: nat, j: nat, f: nat)
      requires Valid() && i < j < |ops| && HandsOut(ops[i], f) && HandsOut(ops[j], f)
      ensures exists k :: i < k < j && ops[k] == Release(f)
    {
      NoDoubleHandOut(trace, ops, f, i, j);
    }
  }

  // ---------------------------------------------------------------- initialisation

  /** One bit per frame, in whole pages. */
  function BitmapPages(total: nat): nat {
    ((total + 7) / 8 + PAGE - 1) / PAGE
  }

  lemma BitmapIsLargeEnough(total: nat)
    ensures 8 * BitmapPages(total) * PAGE >= total
    ensures total > 0 ==> 8 * (BitmapPages(total) - 1) * PAGE < total
  {
    var size := (total + 7) / 8;
    assert BitmapPages(total) == (size + PAGE - 1) / PAGE;
  }

  /** The frames of the bitmap. */
  predicate HoldsBitmap(bitmapBase: nat, pages: nat, idx: nat) {
    bitmapBase / PAGE <= idx < bitmapBase / PAGE + pages
  }

  /** Frame `idx` starts in usable memory. */
  ghost predicate InUsable(entries: seq<Entry>, idx: nat) {
    exists e :: e in entries && e.usable && e.Holds(idx * PAGE)
  }

  lemma FreedIsUsable(e: Entry, bitmapBase: nat, pages: nat, idx: nat)
    requires e.Frees(bitmapBase, pages, idx) && e.base % PAGE == 0
    ensures e.Holds(idx * PAGE)
  {
    var first := e.First(bitmapBase, pages);
    var k: nat :| Visited(first, k) < e.base + e.length && idx == Visited(first, k) / PAGE;
    AlignedVisit(first, k);
  }

  lemma UsableIsFreed(e: Entry, bitmapBase: nat, pages: nat, idx: nat)
    requires e.usable && e.base % PAGE == 0 && e.Holds(idx * PAGE) && !HoldsBitmap(bitmapBase, pages, idx)
    ensures e.Frees(bitmapBase, pages, idx)
  {
    var first := e.First(bitmapBase, pages);
    var k := idx - first / PAGE;
    assert first % PAGE == 0 && k >= 0;
    assert Visited(first, k) == idx * PAGE;
  }

  /** On a tidy map, the frames freed are those that start in usable memory, except the bitmap's own. */
  lemma FreedIff(entries: seq<Entry>, pages: nat, i: nat, idx: nat)
    requires Tidy(entries) && FirstRoom(entries, pages, i)
    ensures (exists e :: e in entries && e.Frees(entries[i].base, pages, idx))
            <==> InUsable(entries, idx) && !HoldsBitmap(entries[i].base, pages, idx)
  {
    hide Entry.Frees;
    var base := entries[i].base;
    if e :| e in entries && e.Frees(base, pages, idx) {
      var j :| 0 <= j < |entries| && entries[j] == e;
      FreesUsable(e, base, pages, idx);
      FreedIsUsable(e, base, pages, idx);
      if HoldsBitmap(base, pages, idx) {
        BitmapStaysUsed(entries, pages, i, j, idx);
      }
    }
    if InUsable(entries, idx) && !HoldsBitmap(base, pages, idx) {
      var e :| e in entries && e.usable && e.Holds(idx * PAGE);
      UsableIsFreed(e, base, pages, idx);
    }
  }

  lemma FreesUsable(e: Entry, bitmapBase: nat, pages: nat, idx: nat)
    requires e.Frees(bitmapBase, pages, idx)
    ensures e.usable
  {}

  /**
   * pmm_init. The kernel panics (None) exactly when the first usable region with room for the bitmap starts
   * at address 0 or does not exist. Otherwise there is one flag for each whole frame of memory, and a frame
   * is free exactly when some usable entry frees it; on a tidy map, exactly when it starts in usable memory
   * and does not hold the bitmap.
   */
  method Init(entries: seq<Entry>) returns (a: Option<FrameAllocator>, ghost ramEnd: nat, ghost room: nat)
    ensures IsRamEnd(entries, ramEnd)
    ensures a.Some? <==> exists i: nat :: FirstRoom(entries, BitmapPages(ramEnd / PAGE), i) && entries[i].base != 0
    ensures a.Some? ==>
              && a.value.Valid() && fresh(a.value) && fresh(a.value.bitmap) && fresh(a.value.memory)
              && a.value.total == ramEnd / PAGE && a.value.hint == 0
              && var pages := BitmapPages(a.value.total);
              && FirstRoom(entries, pages, room)
              && (forall k :: 0 <= k < a.value.total ==>
                    (!a.value.bitmap[k] <==> exists e :: e in entries && e.Frees(entries[room].base, pages, k)))
              && (Tidy(entries) ==> forall k :: 0 <= k < a.value.total ==>
                    (!a.value.bitmap[k] <==> InUsable(entries, k) && !HoldsBitmap(entries[room].base, pages, k)))
  {
    hide Tidy, IsRamEnd, BitmapPages;
    var m := MaxPhys(entries);
    ramEnd, room := m, 0;
    var total := m / PAGE;
    var pages := BitmapPages(total);
    var base := PlaceBitmap(entries, pages);
    if base.None? {
      return None, ramEnd, room;
    }
    room :| FirstRoom(entries, pages, room) && entries[room].base == base.value;
    var f := new FrameAllocator(total);
    f.FreeUsable(entries, base.value, pages);
    if Tidy(entries) {
      forall k | 0 <= k < total
        ensures !f.bitmap[k] <==> InUsable(entries, k) && !HoldsBitmap(entries[room].base, pages, k)
      {
        FreedIff(entries, pages, room, k);
      }
    }
    a := Some(f);
  }

  // ---------------------------------------------------------------- a run at frame zero

  /** A contiguous allocation that took the lowest run: flags before and after, address returned. */
  ghost predicate Gave(was: seq<bool>, now: seq<bool>, phys: nat, n: nat) {
    exists s: nat :: LowestRun(was, s, n) && phys == s * PAGE && now == Marked(was, s, n)
  }

  /** With one free frame, number 0, every answer is address 0, which the caller is told to read as
      failure, and yet the frame is gone. */
  lemma FrameZeroReadsAsFailure(now: seq<bool>, phys: nat)
    requires Gave([false, true], now, phys, 1)
    ensures phys == 0 && now == [true, true]
  {
    var was := [false, true];
    var s: nat :| LowestRun(was, s, 1) && phys == s * PAGE && now == Marked(was, s, 1);
    assert FreeRun(was, 0, 1);
    assert s == 0;
  }
}

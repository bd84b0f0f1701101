/** The kernel heap (src/mm/heap.c): first fit, splitting, coalescing, growing at the end. */
module Heap {

  const BASE: nat := 0xFFFF_FFFF_9000_0000
  const FIRST: nat := 64 * 4096
  const GROW_PAGES: nat := 16
  const PAGE: nat := 4096
  const HEADER: nat := 32
  const MAGIC: nat := 0xB10C_1DEE_B10C_AA57

  // ---------------------------------------------------------------- the abstract block list

  /** A block: total bytes with its header, and whether it is free. Its address is the sum of the
      sizes before it, so a list of blocks tiles the heap by construction. */
  datatype Blk = Blk(size: nat, free: bool)

  function Total(bs: seq<Blk>): nat {
    if bs == [] then 0 else Total(bs[..|bs| - 1]) + bs[|bs| - 1].size
  }

  function Addr(bs: seq<Blk>, i: nat): nat
    requires i <= |bs|
  {
    BASE + Total(bs[..i])
  }

  predicate Big(b: Blk) {
    b.size >= HEADER + 16 && b.size % 16 == 0
  }

  /** Every block can hold a header and a granule, sizes keep the alignment, and no two neighbours are
      both free. */
  ghost predicate Good(bs: seq<Blk>) {
    && bs != []
    && (forall i :: 0 <= i < |bs| ==> Big(bs[i]))
    && (forall i :: 0 <= i < |bs| - 1 ==> !(bs[i].free && bs[i + 1].free))
  }

  lemma TotalSnoc(bs: seq<Blk>, i: nat)
    requires i < |bs|
    ensures Total(bs[..i + 1]) == Total(bs[..i]) + bs[i].size
  {
    assert bs[..i + 1][..i] == bs[..i];
  }

  lemma {:induction false} TotalAppend(a: seq<Blk>, b: seq<Blk>)
    ensures Total(a + b) == Total(a) + Total(b)
  {
    if b == [] {
      assert a + b == a;
    } else {
      TotalAppend(a, b[..|b| - 1]);
      assert (a + b)[..|a + b| - 1] == a + b[..|b| - 1];
    }
  }

  lemma {:induction false} AddrOrder(bs: seq<Blk>, i: nat, j: nat)
    requires i < j <= |bs|
    ensures Addr(bs, i) + bs[i].size <= Addr(bs, j)
    decreases j - i
  {
    TotalSnoc(bs, i);
    if i + 1 < j {
      AddrOrder(bs, i + 1, j);
    }
  }

  // ---------------------------------------------------------------- list operations

  function SplitAt(bs: seq<Blk>, i: nat, need: nat): seq<Blk>
    requires i < |bs| && need <= bs[i].size
  {
    bs[..i] + [Blk(need, bs[i].free), Blk(bs[i].size - need, true)] + bs[i + 1..]
  }

  function MergeAt(bs: seq<Blk>, j: nat): seq<Blk>
    requires j + 1 < |bs|
  {
    bs[..j] + [Blk(bs[j].size + bs[j + 1].size, bs[j].free)] + bs[j + 2..]
  }

  /** First free block of at least `need` bytes, or the length of the list. */
  function FirstFit(bs: seq<Blk>, need: nat): (i: nat)
    ensures i <= |bs|
    ensures i < |bs| ==> bs[i].free && bs[i].size >= need
    ensures forall j :: 0 <= j < i ==> !(bs[j].free && bs[j].size >= need)
  {
    if bs == [] then 0 else if bs[0].free && bs[0].size >= need then 0 else 1 + FirstFit(bs[1..], need)
  }

  /** Take block `i`, giving back what exceeds `need` when that can hold another block. */
  function Taken(bs: seq<Blk>, i: nat, need: nat): seq<Blk>
    requires i < |bs| && need <= bs[i].size
  {
    var s := if bs[i].size >= need + HEADER + 16 then SplitAt(bs, i, need) else bs;
    s[i := s[i].(free := false)]
  }

  function Grown(bs: seq<Blk>, size: nat): seq<Blk>
    requires bs != []
  {
    var n := |bs| - 1;
    if bs[n].free then bs[n := Blk(bs[n].size + size, true)] else bs + [Blk(size, true)]
  }

  function GrowSize(need: nat): nat {
    var pages := (need + PAGE - 1) / PAGE;
    (if pages < GROW_PAGES then GROW_PAGES else pages) * PAGE
  }

  /** Release block `i` and coalesce it forwards, then backwards. */
  function Released(bs: seq<Blk>, i: nat): seq<Blk>
    requires i < |bs|
  {
    var a := bs[i := bs[i].(free := true)];
    var b := if i + 1 < |a| && a[i + 1].free then MergeAt(a, i) else a;
    if i > 0 && b[i - 1].free then MergeAt(b, i - 1) else b
  }

  function Allocated(bs: seq<Blk>, need: nat): seq<Blk>
    requires bs != []
  {
    var i := FirstFit(bs, need);
    if i < |bs| then Taken(bs, i, need)
    else
      var g := Grown(bs, GrowSize(need));
      var k := FirstFit(g, need);
      if k < |g| then Taken(g, k, need) else Grown(g, GrowSize(need))
  }

  lemma TakenIsGood(bs: seq<Blk>, i: nat, need: nat)
    requires Good(bs) && i < |bs| && bs[i].free && HEADER + 16 <= need <= bs[i].size && need % 16 == 0
    ensures Good(Taken(bs, i, need))
  {
  }

  lemma GrownIsGood(bs: seq<Blk>, size: nat)
    requires Good(bs) && size >= HEADER + 16 && size % 16 == 0
    ensures Good(Grown(bs, size))
  {
  }

  /** Both neighbours of pair `k` are free. */
  predicate BadPair(bs: seq<Blk>, k: int) {
    0 <= k < |bs| - 1 && bs[k].free && bs[k + 1].free
  }

  lemma MergeFree(bs: seq<Blk>, j: nat)
    requires j + 1 < |bs| && BadPair(bs, j) && forall i :: 0 <= i < |bs| ==> Big(bs[i])
    ensures forall i :: 0 <= i < |MergeAt(bs, j)| ==> Big(MergeAt(bs, j)[i])
    ensures forall k :: BadPair(MergeAt(bs, j), k) ==> BadPair(bs, if k < j then k else k + 1)
    ensures |MergeAt(bs, j)| == |bs| - 1 && MergeAt(bs, j)[j].free && forall k :: 0 <= k < j ==> MergeAt(bs, j)[k] == bs[k]
  {
    var m := MergeAt(bs, j);
    forall i | 0 <= i < |m| ensures m[i] == if i < j then bs[i] else if i == j then Blk(bs[j].size + bs[j + 1].size, true) else bs[i + 1] {
    }
  }

  lemma FlagLeavesPairs(bs: seq<Blk>, i: nat)
    requires Good(bs) && i < |bs|
    ensures var a := bs[i := bs[i].(free := true)];
            (forall k :: 0 <= k < |a| ==> Big(a[k])) && a[i].free && forall k :: BadPair(a, k) ==> k == i - 1 || k == i
  {
    assert forall k :: !BadPair(bs, k);
  }

  lemma NoPairsIsGood(bs: seq<Blk>)
    requires bs != [] && (forall k :: 0 <= k < |bs| ==> Big(bs[k])) && forall k :: !BadPair(bs, k)
    ensures Good(bs)
  {
    forall k | 0 <= k < |bs| - 1
      ensures !(bs[k].free && bs[k + 1].free)
    {
      assert !BadPair(bs, k);
    }
  }

  lemma ReleasedIsGood(bs: seq<Blk>, i: nat)
    requires Good(bs) && i < |bs| && !bs[i].free
    ensures Good(Released(bs, i))
  {
    var a := bs[i := bs[i].(free := true)];
    FlagLeavesPairs(bs, i);
    var b := if i + 1 < |a| && a[i + 1].free then MergeAt(a, i) else a;
    var c := if i > 0 && b[i - 1].free then MergeAt(b, i - 1) else b;
    assert Released(bs, i) == c;
    hide MergeAt, Good, Released;
    if i + 1 < |a| && a[i + 1].free {
      MergeFree(a, i);
    }
    assert forall k :: BadPair(b, k) ==> k == i - 1;
    if i > 0 && b[i - 1].free {
      MergeFree(b, i - 1);
    }
    NoPairsIsGood(c);
  }

  /** If nothing is live, the heap is one free block: coalescing leaves no fragments behind. */
  lemma AllFreeMeansOneBlock(bs: seq<Blk>)
    requires Good(bs) && forall i :: 0 <= i < |bs| ==> bs[i].free
    ensures |bs| == 1
  {
    assert BadPair(bs, |bs| - 2) <==> |bs| > 1;
  }

  lemma GrowSizeIsEnough(need: nat)
    ensures GrowSize(need) >= need && GrowSize(need) % 16 == 0 && GrowSize(need) >= GROW_PAGES * PAGE
    ensures GrowSize(need) % PAGE == 0 && (GrowSize(need) == GROW_PAGES * PAGE || GrowSize(need) < need + PAGE)
  {
    var pages := (need + PAGE - 1) / PAGE;
    assert pages * PAGE >= need;
  }

  /** After one growth the request fits: the second attempt always succeeds, so the final panic of
      kmalloc is unreachable. */
  lemma SecondAttemptSucceeds(bs: seq<Blk>, need: nat)
    requires bs != []
    ensures FirstFit(Grown(bs, GrowSize(need)), need) < |Grown(bs, GrowSize(need))|
  {
    GrowSizeIsEnough(need);
    var g := Grown(bs, GrowSize(need));
    assert g[|g| - 1].free && g[|g| - 1].size >= need;
  }

  // ---------------------------------------------------------------- live blocks

  /** Address and size of every block in use. */
  ghost function Live(bs: seq<Blk>, base: nat): set<(nat, nat)> {
    if bs == [] then {}
    else
      var n := |bs| - 1;
      Live(bs[..n], base) + (if bs[n].free then {} else {(base + Total(bs[..n]), bs[n].size)})
  }

  lemma {:induction false} LiveAppend(a: seq<Blk>, b: seq<Blk>, base: nat)
    ensures Live(a + b, base) == Live(a, base) + Live(b, base + Total(a))
  {
    if b == [] {
      assert a + b == a;
    } else {
      var n := |b| - 1;
      LiveAppend(a, b[..n], base);
      TotalAppend(a, b[..n]);
      assert (a + b)[..|a + b| - 1] == a + b[..n];
    }
  }

  lemma LiveOne(b: Blk, base: nat)
    ensures Live([b], base) == if b.free then {} else {(base, b.size)}
    ensures Total([b]) == b.size
  {
    assert [b][..0] == [];
  }

  lemma LiveThree(a: seq<Blk>, mid: seq<Blk>, b: seq<Blk>, base: nat)
    ensures Live(a + mid + b, base) ==
            Live(a, base) + Live(mid, base + Total(a)) + Live(b, base + Total(a) + Total(mid))
    ensures Total(a + mid + b) == Total(a) + Total(mid) + Total(b)
  {
    LiveAppend(a + mid, b, base);
    LiveAppend(a, mid, base);
    TotalAppend(a + mid, b);
    TotalAppend(a, mid);
  }

  lemma LiveTwo(b: Blk, c: Blk, base: nat)
    ensures Live([b, c], base) == (if b.free then {} else {(base, b.size)}) + (if c.free then {} else {(base + b.size, c.size)})
    ensures Total([b, c]) == b.size + c.size
  {
    assert [b, c] == [b] + [c];
    LiveAppend([b], [c], base);
    TotalAppend([b], [c]);
    LiveOne(b, base);
    LiveOne(c, base + b.size);
  }

  /** Live blocks lie inside the heap. */
  lemma {:induction false} LiveRange(bs: seq<Blk>, base: nat, p: nat, size: nat)
    requires (p, size) in Live(bs, base)
    ensures base <= p && p + size <= base + Total(bs)
    ensures exists i :: 0 <= i < |bs| && bs[i].size == size && !bs[i].free && p == base + Total(bs[..i])
  {
    var n := |bs| - 1;
    if (p, size) in Live(bs[..n], base) {
      LiveRange(bs[..n], base, p, size);
      var i :| 0 <= i < n && bs[..n][i].size == size && !bs[..n][i].free && p == base + Total(bs[..n][..i]);
      assert bs[..n][..i] == bs[..i];
      assert bs[i].size == size && !bs[i].free && p == base + Total(bs[..i]);
    }
  }

  /** Replacing one free block by a used one and perhaps a free rest adds one live block. */
  lemma ReplaceLive(a: seq<Blk>, b: Blk, mid: seq<Blk>, c: seq<Blk>, size: nat)
    requires b.free && Total(mid) == b.size && Live(mid, BASE + Total(a)) == {(BASE + Total(a), size)}
    ensures Total(a + mid + c) == Total(a + [b] + c)
    ensures Live(a + mid + c, BASE) == Live(a + [b] + c, BASE) + {(BASE + Total(a), size)}
  {
    hide Live;
    hide Total;
    LiveThree(a, [b], c, BASE);
    LiveOne(b, BASE + Total(a));
    LiveThree(a, mid, c, BASE);
  }

  /** Allocation adds one live block, of at least the bytes asked for and less than another block more, and
      touches no other. */
  lemma TakenLive(bs: seq<Blk>, i: nat, need: nat)
    requires i < |bs| && bs[i].free && need <= bs[i].size
    ensures var t := Taken(bs, i, need);
            && i < |t| && need <= t[i].size < need + HEADER + 16 && !t[i].free && Addr(t, i) == Addr(bs, i)
            && Total(t) == Total(bs)
            && Live(t, BASE) == Live(bs, BASE) + {(Addr(bs, i), t[i].size)}
  {
    hide *;
    var a, c, t, mid := bs[..i], bs[i + 1..], Taken(bs, i, need), Pieces(bs[i], need);
    TakenParts(bs, i, need);
    AddrIs(bs, i);
    AddrIs(t, i);
    PiecesLive(bs[i], need, BASE + Total(a));
    ReplaceLive(a, bs[i], mid, c, mid[0].size);
  }

  lemma AddrIs(bs: seq<Blk>, i: nat)
    requires i <= |bs|
    ensures Addr(bs, i) == BASE + Total(bs[..i])
  {}

  /** What becomes of a free block that is taken. */
  function Pieces(b: Blk, need: nat): (mid: seq<Blk>)
    requires need <= b.size
    ensures mid != []
  {
    if b.size >= need + HEADER + 16 then [Blk(need, false), Blk(b.size - need, true)] else [b.(free := false)]
  }

  lemma TakenParts(bs: seq<Blk>, i: nat, need: nat)
    requires i < |bs| && bs[i].free && need <= bs[i].size
    ensures bs == bs[..i] + [bs[i]] + bs[i + 1..]
    ensures var t := Taken(bs, i, need);
            t == bs[..i] + Pieces(bs[i], need) + bs[i + 1..] && i < |t| && t[i] == Pieces(bs[i], need)[0] && t[..i] == bs[..i]
  {}

  lemma PiecesLive(b: Blk, need: nat, base: nat)
    requires b.free && need <= b.size
    ensures var mid := Pieces(b, need);
            !mid[0].free && need <= mid[0].size < need + HEADER + 16 && Total(mid) == b.size && Live(mid, base) == {(base, mid[0].size)}
  {
    hide Live, Total;
    var mid := Pieces(b, need);
    if b.size >= need + HEADER + 16 {
      LiveTwo(mid[0], mid[1], base);
    } else {
      LiveOne(mid[0], base);
    }
  }

  lemma GrownLive(bs: seq<Blk>, size: nat)
    requires bs != []
    ensures Live(Grown(bs, size), BASE) == Live(bs, BASE) && Total(Grown(bs, size)) == Total(bs) + size
  {
    var n := |bs| - 1;
    if bs[n].free {
      assert Grown(bs, size)[..n] == bs[..n];
    } else {
      assert Grown(bs, size)[..|bs|] == bs;
    }
  }

  lemma MergeLive(bs: seq<Blk>, j: nat)
    requires BadPair(bs, j)
    ensures Live(MergeAt(bs, j), BASE) == Live(bs, BASE) && Total(MergeAt(bs, j)) == Total(bs)
  {
    hide Live, Total;
    var a, c := bs[..j], bs[j + 2..];
    assert bs == a + [bs[j], bs[j + 1]] + c;
    LiveThree(a, [bs[j], bs[j + 1]], c, BASE);
    LiveTwo(bs[j], bs[j + 1], BASE + Total(a));
    var m := Blk(bs[j].size + bs[j + 1].size, true);
    LiveThree(a, [m], c, BASE);
    LiveOne(m, BASE + Total(a));
  }

  lemma SetFreeLive(bs: seq<Blk>, i: nat)
    requires i < |bs| && !bs[i].free && bs[i].size > 0
    ensures var t := bs[i := bs[i].(free := true)];
            Live(t, BASE) == Live(bs, BASE) - {(Addr(bs, i), bs[i].size)} && Total(t) == Total(bs)
  {
    hide Live;
    hide Total;
    var a, c, x := bs[..i], bs[i + 1..], bs[i].(free := true);
    assert bs == a + [bs[i]] + c && bs[i := x] == a + [x] + c;
    LiveThree(a, [bs[i]], c, BASE);
    LiveThree(a, [x], c, BASE);
    LiveOne(bs[i], BASE + Total(a));
    LiveOne(x, BASE + Total(a));
    var e := (Addr(bs, i), bs[i].size);
    assert e !in Live(a, BASE) by {
      if e in Live(a, BASE) {
        LiveRange(a, BASE, e.0, e.1);
      }
    }
    assert e !in Live(c, BASE + Total(a) + bs[i].size) by {
      if e in Live(c, BASE + Total(a) + bs[i].size) {
        LiveRange(c, BASE + Total(a) + bs[i].size, e.0, e.1);
      }
    }
  }

  /** Release removes exactly that block from the live ones. */
  lemma ReleasedLive(bs: seq<Blk>, i: nat)
    requires i < |bs| && !bs[i].free && bs[i].size > 0
    ensures Live(Released(bs, i), BASE) == Live(bs, BASE) - {(Addr(bs, i), bs[i].size)}
    ensures Total(Released(bs, i)) == Total(bs)
  {
    hide Live;
    hide Total;
    SetFreeLive(bs, i);
    var a := bs[i := bs[i].(free := true)];
    var b := if i + 1 < |a| && a[i + 1].free then MergeAt(a, i) else a;
    if i + 1 < |a| && a[i + 1].free {
      MergeLive(a, i);
    }
    if i > 0 && b[i - 1].free {
      MergeLive(b, i - 1);
    }
  }

  // ---------------------------------------------------------------- runs

  /** Bytes kmalloc looks for: the request rounded up to sixteen, plus the header. */
  function Need(size: nat): (n: nat)
    ensures n % 16 == 0 && size + HEADER <= n < size + HEADER + 16
  {
    (size + 15) / 16 * 16 + HEADER
  }

  /** A request, or the release of the block in use at list position `i`. */
  datatype Op = Malloc(size: nat) | Free(i: nat)

  predicate OpOk(bs: seq<Blk>, op: Op) {
    match op
    case Malloc(size) => size > 0
    case Free(i) => i < |bs| && !bs[i].free
  }

  function Apply(bs: seq<Blk>, op: Op): seq<Blk>
    requires bs != [] && OpOk(bs, op)
  {
    match op
    case Malloc(size) => Allocated(bs, Need(size))
    case Free(i) => Released(bs, i)
  }

  lemma AllocatedIsGood(bs: seq<Blk>, size: nat)
    requires Good(bs) && size > 0
    ensures Good(Allocated(bs, Need(size)))
  {
    var need := Need(size);
    var i := FirstFit(bs, need);
    if i < |bs| {
      TakenIsGood(bs, i, need);
    } else {
      GrowSizeIsEnough(need);
      GrownIsGood(bs, GrowSize(need));
      SecondAttemptSucceeds(bs, need);
      TakenIsGood(Grown(bs, GrowSize(need)), FirstFit(Grown(bs, GrowSize(need)), need), need);
    }
  }

  lemma StepIsGood(bs: seq<Blk>, op: Op)
    requires Good(bs) && OpOk(bs, op)
    ensures Good(Apply(bs, op))
  {
    match op
    case Malloc(size) => AllocatedIsGood(bs, size);
    case Free(i) => ReleasedIsGood(bs, i);
  }

  /** The heap after boot. */
  function Booted(): seq<Blk> {
    [Blk(FIRST, true)]
  }

  /** `trace` lists the states of a run: it starts at boot and each state follows by an operation. */
  ghost predicate IsRun(trace: seq<seq<Blk>>, ops: seq<Op>) {
    && |trace| == |ops| + 1 && trace[0] == Booted()
    && forall k :: 0 <= k < |ops| ==>
         trace[k] != [] && OpOk(trace[k], ops[k]) && trace[k + 1] == Apply(trace[k], ops[k])
  }

  lemma {:induction false} RunIsGood(trace: seq<seq<Blk>>, ops: seq<Op>, k: nat)
    requires IsRun(trace, ops) && k < |trace|
    ensures Good(trace[k])
  {
    if k > 0 {
      RunIsGood(trace, ops, k - 1);
      StepIsGood(trace[k - 1], ops[k - 1]);
    }
  }

  /** In every reachable heap with nothing live, everything is back in a single free block. */
  lemma NothingLiveNothingLost(trace: seq<seq<Blk>>, ops: seq<Op>, k: nat)
    requires IsRun(trace, ops) && k < |trace| && Live(trace[k], BASE) == {}
    ensures trace[k] == [Blk(Total(trace[k]), true)]
  {
    RunIsGood(trace, ops, k);
    var bs := trace[k];
    forall i | 0 <= i < |bs| ensures bs[i].free {
      LiveHas(bs, i, BASE);
    }
    AllFreeMeansOneBlock(bs);
    LiveOne(bs[0], BASE);
    assert bs == [bs[0]];
  }

  lemma {:induction false} LiveHas(bs: seq<Blk>, i: nat, base: nat)
    requires i < |bs|
    ensures !bs[i].free ==> (base + Total(bs[..i]), bs[i].size) in Live(bs, base)
  {
    var n := |bs| - 1;
    if i < n {
      LiveHas(bs[..n], i, base);
      assert bs[..n][..i] == bs[..i];
    }
  }

  lemma {:induction false} TotalIsAligned(bs: seq<Blk>)
    requires forall i :: 0 <= i < |bs| ==> Big(bs[i])
    ensures Total(bs) % 16 == 0
  {
    if bs != [] {
      var t, n := Total(bs[..|bs| - 1]), bs[|bs| - 1].size;
      TotalIsAligned(bs[..|bs| - 1]);
      assert Big(bs[|bs| - 1]);
      assert t == 16 * (t / 16) && n == 16 * (n / 16);
    }
  }

  /** Payloads are sixteen-aligned, stay inside their blocks, and blocks do not overlap. */
  lemma PayloadsAreDisjointAndAligned(bs: seq<Blk>, i: nat, j: nat)
    requires Good(bs) && i < j < |bs|
    ensures (Addr(bs, i) + HEADER) % 16 == 0 && (Addr(bs, j) + HEADER) % 16 == 0
    ensures Addr(bs, i) + bs[i].size <= Addr(bs, j) && Addr(bs, j) + bs[j].size <= BASE + Total(bs)
  {
    hide Good, Total, Addr;
    AddrAligned(bs, i);
    AddrAligned(bs, j);
    SixteenMore(Addr(bs, i));
    SixteenMore(Addr(bs, j));
    AddrOrder(bs, i, j);
    AddrOrder(bs, j, |bs|);
    EndOf(bs);
  }

  lemma SixteenMore(p: nat)
    requires p % 16 == 0
    ensures (p + HEADER) % 16 == 0
  {}

  /** Bytes in free and in used blocks. */
  function Bytes(bs: seq<Blk>, free: bool): nat {
    if bs == [] then 0
    else Bytes(bs[..|bs| - 1], free) + (if bs[|bs| - 1].free == free then bs[|bs| - 1].size else 0)
  }

  lemma {:induction false} FreePlusUsedIsTotal(bs: seq<Blk>)
    ensures Bytes(bs, true) + Bytes(bs, false) == Total(bs)
  {
    if bs != [] {
      FreePlusUsedIsTotal(bs[..|bs| - 1]);
    }
  }

  // ---------------------------------------------------------------- what is in use was asked for

  /** Where kmalloc finds its block: the first that fits, in the heap or in the heap grown once. */
  function Chosen(bs: seq<Blk>, need: nat): nat
    requires bs != []
  {
    var i := FirstFit(bs, need);
    if i < |bs| then Addr(bs, i)
    else
      SecondAttemptSucceeds(bs, need);
      var g := Grown(bs, GrowSize(need));
      Addr(g, FirstFit(g, need))
  }

  /** The heap in which the block is found. */
  function Roomy(bs: seq<Blk>, need: nat): seq<Blk>
    requires bs != []
  {
    if FirstFit(bs, need) < |bs| then bs else Grown(bs, GrowSize(need))
  }

  lemma RoomyIs(bs: seq<Blk>, need: nat)
    requires bs != []
    ensures Roomy(bs, need) == if FirstFit(bs, need) < |bs| then bs else Grown(bs, GrowSize(need))
  {}

  lemma RoomyFacts(bs: seq<Blk>, need: nat)
    requires Good(bs)
    ensures bs != []
    ensures var g := Roomy(bs, need);
            && Good(g) && FirstFit(g, need) < |g| && Live(g, BASE) == Live(bs, BASE)
            && Total(g) == Total(bs) + (if FirstFit(bs, need) < |bs| then 0 else GrowSize(need))
            && Allocated(bs, need) == Taken(g, FirstFit(g, need), need) && Chosen(bs, need) == Addr(g, FirstFit(g, need))
  {
    SecondAttemptSucceeds(bs, need);
    GrowSizeIsEnough(need);
    GrownIsGood(bs, GrowSize(need));
    GrownLive(bs, GrowSize(need));
    hide Live, Total, Taken, Grown, Good, Addr, GrowSize;
  }

  /** Allocation makes one block live, at the chosen place; its size is that of the request, rounded up, with a
      header, and at most 32 bytes more. The heap grows only if nothing fits. */
  lemma AllocatedLive(bs: seq<Blk>, size: nat) returns (taken: nat)
    requires Good(bs) && size > 0
    ensures var need, now := Need(size), Allocated(bs, Need(size));
            && need <= taken <= need + 32
            && Live(now, BASE) == Live(bs, BASE) + {(Chosen(bs, need), taken)}
            && Total(now) == Total(bs) + (if FirstFit(bs, need) < |bs| then 0 else GrowSize(need))
  {
    hide Live, Total, Taken, Good, Addr, FirstFit, Roomy, Allocated, Chosen, GrowSize;
    var need := Need(size);
    RoomyFacts(bs, need);
    var g := Roomy(bs, need);
    var i := FirstFit(g, need);
    TakenLive(g, i, need);
    TakenIsGood(g, i, need);
    taken := Taken(g, i, need)[i].size;
    GranulesApart(Taken(g, i, need), i, need);
  }

  lemma GranulesApart(bs: seq<Blk>, i: nat, need: nat)
    requires Good(bs) && i < |bs| && need % 16 == 0 && bs[i].size < need + HEADER + 16
    ensures bs[i].size <= need + 32
  {
    assert Big(bs[i]);
  }

  /** What was asked for at each address, by the latest request answered there. */
  function AskedAfter(trace: seq<seq<Blk>>, ops: seq<Op>, k: nat): map<nat, nat>
    requires IsRun(trace, ops) && k < |trace|
  {
    if k == 0 then map[]
    else
      match ops[k - 1]
      case Malloc(size) => AskedAfter(trace, ops, k - 1)[Chosen(trace[k - 1], Need(size)) := size]
      case Free(_) => AskedAfter(trace, ops, k - 1)
  }

  /** Every live block has the size its request needs, with at most 32 bytes to spare. */
  ghost predicate Fitting(live: set<(nat, nat)>, asked: map<nat, nat>) {
    forall e :: e in live ==> e.0 in asked && Need(asked[e.0]) <= e.1 <= Need(asked[e.0]) + 32
  }

  /** No two live blocks share their address. */
  lemma LiveIsUnique(bs: seq<Blk>, p: nat, m: nat, n: nat)
    requires Good(bs) && (p, m) in Live(bs, BASE) && (p, n) in Live(bs, BASE)
    ensures m == n
  {
    LiveRange(bs, BASE, p, m);
    LiveRange(bs, BASE, p, n);
    var i :| 0 <= i < |bs| && bs[i].size == m && !bs[i].free && p == BASE + Total(bs[..i]);
    var j :| 0 <= j < |bs| && bs[j].size == n && !bs[j].free && p == BASE + Total(bs[..j]);
    assert Big(bs[i]) && Big(bs[j]);
    if i < j {
      AddrOrder(bs, i, j);
    } else if j < i {
      AddrOrder(bs, j, i);
    }
  }

  lemma {:induction false} RunFits(trace: seq<seq<Blk>>, ops: seq<Op>, k: nat)
    requires IsRun(trace, ops) && k < |trace|
    ensures Fitting(Live(trace[k], BASE), AskedAfter(trace, ops, k))
  {
    if k == 0 {
      LiveOne(Blk(FIRST, true), BASE);
    } else {
      RunFits(trace, ops, k - 1);
      RunIsGood(trace, ops, k - 1);
      RunIsGood(trace, ops, k);
      var was, now := trace[k - 1], trace[k];
      match ops[k - 1]
      case Malloc(size) =>
        hide Live, Good, Allocated, Chosen, Fitting;
        MallocFits(was, size, AskedAfter(trace, ops, k - 1));
      case Free(i) =>
        assert Big(was[i]);
        ReleasedLive(was, i);
        hide Live, Released, Good;
    }
  }

  lemma MallocFits(was: seq<Blk>, size: nat, asked: map<nat, nat>)
    requires Good(was) && size > 0 && Fitting(Live(was, BASE), asked)
    ensures Fitting(Live(Allocated(was, Need(size)), BASE), asked[Chosen(was, Need(size)) := size])
  {
    var now, p := Allocated(was, Need(size)), Chosen(was, Need(size));
    AllocatedIsGood(was, size);
    var taken := AllocatedLive(was, size);
    hide Live, Good, Allocated, Chosen;
    forall e | e in Live(now, BASE)
      ensures e.0 in asked[p := size] && Need(asked[p := size][e.0]) <= e.1 <= Need(asked[p := size][e.0]) + 32
    {
      if e.0 == p {
        LiveIsUnique(now, p, e.1, taken);
      }
    }
  }

  /** The needs of the requests behind the blocks in use, and how many those are. */
  function Needs(bs: seq<Blk>, asked: map<nat, nat>, base: nat): nat {
    if bs == [] then 0
    else
      var n := |bs| - 1;
      var p := base + Total(bs[..n]);
      Needs(bs[..n], asked, base) + (if !bs[n].free && p in asked then Need(asked[p]) else 0)
  }

  function InUse(bs: seq<Blk>): nat {
    if bs == [] then 0 else InUse(bs[..|bs| - 1]) + (if bs[|bs| - 1].free then 0 else 1)
  }

  lemma {:induction false} FittingAddsUp(bs: seq<Blk>, asked: map<nat, nat>, base: nat)
    requires Fitting(Live(bs, base), asked)
    ensures Needs(bs, asked, base) <= Bytes(bs, false) <= Needs(bs, asked, base) + 32 * InUse(bs)
  {
    if bs != [] {
      var n := |bs| - 1;
      FittingAddsUp(bs[..n], asked, base);
      if !bs[n].free {
        assert (base + Total(bs[..n]), bs[n].size) in Live(bs, base);
      }
    }
  }

  /** Over every run, the bytes in use are those that the live requests need and at most 32 more for each. */
  lemma NothingIsWasted(trace: seq<seq<Blk>>, ops: seq<Op>, k: nat)
    requires IsRun(trace, ops) && k < |trace|
    ensures var bs, asked := trace[k], AskedAfter(trace, ops, k);
            Needs(bs, asked, BASE) <= Bytes(bs, false) <= Needs(bs, asked, BASE) + 32 * InUse(bs)
  {
    RunFits(trace, ops, k);
    FittingAddsUp(trace[k], AskedAfter(trace, ops, k), BASE);
    hide Live, Needs, Bytes, InUse;
  }

  // ---------------------------------------------------------------- headers in memory

  /** A block header as it lies in memory; `next` is an address, zero at the end of the list. */
  datatype Header = Header(magic: nat, size: nat, next: nat, free: bool)

  ghost function NextOf(bs: seq<Blk>, i: nat): nat
    requires i < |bs|
  {
    if i + 1 < |bs| then Addr(bs, i + 1) else 0
  }

  ghost function HeaderOf(bs: seq<Blk>, i: nat): Header
    requires i < |bs|
  {
    Header(MAGIC, bs[i].size, NextOf(bs, i), bs[i].free)
  }

  /** The linked headers in memory are the list, in address order and without gaps. */
  ghost predicate Represents(mem: map<nat, Header>, bs: seq<Blk>) {
    forall i :: 0 <= i < |bs| ==> Addr(bs, i) in mem && mem[Addr(bs, i)] == HeaderOf(bs, i)
  }

  lemma AddrSplit(bs: seq<Blk>, i: nat, need: nat, k: nat)
    requires i < |bs| && need <= bs[i].size && k <= |bs| + 1
    ensures var cs := SplitAt(bs, i, need);
            |cs| == |bs| + 1 &&
            Addr(cs, k) == if k <= i then Addr(bs, k) else if k == i + 1 then Addr(bs, i) + need else Addr(bs, k - 1)
  {
    hide Total;
    var cs := SplitAt(bs, i, need);
    var x, y := Blk(need, bs[i].free), Blk(bs[i].size - need, true);
    if k <= i {
      assert cs[..k] == bs[..k];
    } else if k == i + 1 {
      assert cs[..k] == bs[..i] + [x];
      TotalAppend(bs[..i], [x]);
      LiveOne(x, 0);
    } else {
      assert cs[..k] == bs[..i] + [x, y] + bs[i + 1..k - 1];
      assert bs[..k - 1] == bs[..i] + [bs[i]] + bs[i + 1..k - 1];
      LiveThree(bs[..i], [x, y], bs[i + 1..k - 1], 0);
      LiveThree(bs[..i], [bs[i]], bs[i + 1..k - 1], 0);
      LiveTwo(x, y, 0);
      LiveOne(bs[i], 0);
    }
  }

  lemma AddrMerge(bs: seq<Blk>, j: nat, k: nat)
    requires j + 1 < |bs| && k <= |bs| - 1
    ensures var cs := MergeAt(bs, j);
            |cs| == |bs| - 1 && Addr(cs, k) == if k <= j then Addr(bs, k) else Addr(bs, k + 1)
  {
    hide Total;
    var cs := MergeAt(bs, j);
    var m := Blk(bs[j].size + bs[j + 1].size, bs[j].free);
    if k <= j {
      assert cs[..k] == bs[..k];
    } else {
      assert cs[..k] == bs[..j] + [m] + bs[j + 2..k + 1];
      assert bs[..k + 1] == bs[..j] + [bs[j], bs[j + 1]] + bs[j + 2..k + 1];
      LiveThree(bs[..j], [m], bs[j + 2..k + 1], 0);
      LiveThree(bs[..j], [bs[j], bs[j + 1]], bs[j + 2..k + 1], 0);
      LiveTwo(bs[j], bs[j + 1], 0);
      LiveOne(m, 0);
    }
  }

  lemma AddrFlag(bs: seq<Blk>, i: nat, f: bool, k: nat)
    requires i < |bs| && k <= |bs|
    ensures Addr(bs[i := bs[i].(free := f)], k) == Addr(bs, k)
  {
    hide Total;
    var cs := bs[i := bs[i].(free := f)];
    if k <= i {
      assert cs[..k] == bs[..k];
    } else {
      assert cs[..k] == bs[..i] + [cs[i]] + bs[i + 1..k] && bs[..k] == bs[..i] + [bs[i]] + bs[i + 1..k];
      LiveThree(bs[..i], [cs[i]], bs[i + 1..k], 0);
      LiveThree(bs[..i], [bs[i]], bs[i + 1..k], 0);
      LiveOne(cs[i], 0);
      LiveOne(bs[i], 0);
    }
  }

  lemma AddrsDiffer(bs: seq<Blk>, i: nat, j: nat)
    requires i < |bs| && j < |bs| && i != j && forall k :: 0 <= k < |bs| ==> Big(bs[k])
    ensures Addr(bs, i) != Addr(bs, j)
  {
    if i < j {
      AddrOrder(bs, i, j);
    } else {
      AddrOrder(bs, j, i);
    }
  }

  lemma RepresentsFlag(mem: map<nat, Header>, bs: seq<Blk>, i: nat, f: bool)
    requires Represents(mem, bs) && i < |bs| && forall k :: 0 <= k < |bs| ==> Big(bs[k])
    ensures var p := Addr(bs, i); p in mem && Represents(mem[p := mem[p].(free := f)], bs[i := bs[i].(free := f)])
  {
    hide Addr;
    var p := Addr(bs, i);
    var cs := bs[i := bs[i].(free := f)];
    forall k | 0 <= k < |cs| ensures Addr(cs, k) in mem && mem[p := mem[p].(free := f)][Addr(cs, k)] == HeaderOf(cs, k) {
      AddrFlag(bs, i, f, k);
      if k + 1 < |bs| {
        AddrFlag(bs, i, f, k + 1);
      }
      if k != i {
        AddrsDiffer(bs, i, k);
      }
    }
  }

  lemma RepresentsMerge(mem: map<nat, Header>, bs: seq<Blk>, j: nat)
    requires Represents(mem, bs) && j + 1 < |bs| && forall k :: 0 <= k < |bs| ==> Big(bs[k])
    ensures var p, q := Addr(bs, j), Addr(bs, j + 1);
            p in mem && q in mem &&
            Represents(mem[p := mem[p].(size := mem[p].size + mem[q].size, next := mem[q].next)], MergeAt(bs, j))
  {
    hide Addr;
    var p, q := Addr(bs, j), Addr(bs, j + 1);
    var h := mem[p].(size := mem[p].size + mem[q].size, next := mem[q].next);
    var cs := MergeAt(bs, j);
    forall k | 0 <= k < |cs| ensures Addr(cs, k) in mem && mem[p := h][Addr(cs, k)] == HeaderOf(cs, k) {
      AddrMerge(bs, j, k);
      AddrMerge(bs, j, k + 1);
      if k != j {
        AddrsDiffer(bs, j, if k < j then k else k + 1);
      }
    }
  }

  lemma RepresentsSplit(mem: map<nat, Header>, bs: seq<Blk>, i: nat, need: nat)
    requires Represents(mem, bs) && i < |bs| && 0 < need < bs[i].size && forall k :: 0 <= k < |bs| ==> Big(bs[k])
    ensures Addr(bs, i) in mem
    ensures var p := Addr(bs, i);
            var n := Header(MAGIC, mem[p].size - need, mem[p].next, true);
            Represents(mem[p + need := n][p := mem[p].(size := need, next := p + need)], SplitAt(bs, i, need))
  {
    hide Addr;
    var p := Addr(bs, i);
    var n := Header(MAGIC, mem[p].size - need, mem[p].next, true);
    var m := mem[p + need := n][p := mem[p].(size := need, next := p + need)];
    var cs := SplitAt(bs, i, need);
    forall k | 0 <= k < |cs| ensures Addr(cs, k) in m && m[Addr(cs, k)] == HeaderOf(cs, k) {
      AddrSplit(bs, i, need, k);
      AddrSplit(bs, i, need, k + 1);
      if k != i && k != i + 1 {
        var o := if k < i then k else k - 1;
        AddrsDiffer(bs, i, o);
        if o < i {
          AddrOrder(bs, o, i);
        } else {
          AddrOrder(bs, i, o);
        }
      }
    }
  }

  lemma RepresentsAppend(mem: map<nat, Header>, bs: seq<Blk>, size: nat)
    requires Represents(mem, bs) && bs != [] && forall k :: 0 <= k < |bs| ==> Big(bs[k])
    ensures var t, e := Addr(bs, |bs| - 1), Addr(bs, |bs|);
            t in mem &&
            Represents(mem[e := Header(MAGIC, size, 0, true)][t := mem[t].(next := e)], bs + [Blk(size, true)])
  {
    hide Addr;
    var t, e := Addr(bs, |bs| - 1), Addr(bs, |bs|);
    var m := mem[e := Header(MAGIC, size, 0, true)][t := mem[t].(next := e)];
    var cs := bs + [Blk(size, true)];
    forall k | 0 <= k <= |bs| ensures Addr(cs, k) == Addr(bs, k) {
      SamePrefix(cs, bs, k);
    }
    AddrOrder(bs, |bs| - 1, |bs|);
    forall k | 0 <= k < |cs| ensures Addr(cs, k) in m && m[Addr(cs, k)] == HeaderOf(cs, k) {
      if k < |bs| - 1 {
        AddrsDiffer(bs, k, |bs| - 1);
        AddrOrder(bs, k, |bs|);
      }
    }
  }

  lemma SamePrefix(a: seq<Blk>, b: seq<Blk>, k: nat)
    requires k <= |a| && k <= |b| && a[..k] == b[..k]
    ensures Addr(a, k) == Addr(b, k)
  {
  }

  /** Growing a free last block only rewrites its size. */
  lemma RepresentsStretch(mem: map<nat, Header>, bs: seq<Blk>, size: nat)
    requires Represents(mem, bs) && bs != [] && bs[|bs| - 1].free && forall k :: 0 <= k < |bs| ==> Big(bs[k])
    ensures MergeAt(bs + [Blk(size, true)], |bs| - 1) == Grown(bs, size)
  {
  }

  /** Every header ever written, listed or merged away, still passes the magic test, and its link leads to
      another one. */
  ghost predicate Closed(mem: map<nat, Header>) {
    forall a :: a in mem ==> mem[a].magic == MAGIC && (mem[a].next != 0 ==> mem[a].next in mem)
  }

  lemma ClosedWrite(mem: map<nat, Header>, b: nat, h: Header)
    requires Closed(mem) && h.magic == MAGIC && (h.next != 0 ==> h.next in mem || h.next == b)
    ensures Closed(mem[b := h])
  {}

  lemma ClosedAppend(mem: map<nat, Header>, tail: nat, base: nat, size: nat)
    requires Closed(mem) && tail in mem && tail != base
    ensures Closed(mem[base := Header(MAGIC, size, 0, true)][tail := mem[tail].(next := base)])
  {
    var m := mem[base := Header(MAGIC, size, 0, true)];
    ClosedWrite(mem, base, Header(MAGIC, size, 0, true));
    ClosedWrite(m, tail, mem[tail].(next := base));
  }

  lemma ClosedSplit(mem: map<nat, Header>, b: nat, need: nat)
    requires Closed(mem) && b in mem && 0 < need <= mem[b].size
    ensures var n := Header(MAGIC, mem[b].size - need, mem[b].next, true);
            Closed(mem[b + need := n][b := mem[b].(size := need, next := b + need)])
  {
    var n := Header(MAGIC, mem[b].size - need, mem[b].next, true);
    ClosedWrite(mem, b + need, n);
    ClosedWrite(mem[b + need := n], b, mem[b].(size := need, next := b + need));
  }

  lemma SplitFacts(mem: map<nat, Header>, bs: seq<Blk>, i: nat, need: nat)
    requires Represents(mem, bs) && Closed(mem) && (forall k :: 0 <= k < |bs| ==> Big(bs[k]))
    requires i < |bs| && 0 < need <= bs[i].size
    ensures var b := Addr(bs, i);
            && b in mem && mem[b].size == bs[i].size
            && var m := mem[b + need := Header(MAGIC, mem[b].size - need, mem[b].next, true)][b := mem[b].(size := need, next := b + need)];
               bs[i].size >= need + HEADER + 16 ==> Represents(m, SplitAt(bs, i, need)) && Closed(m)
  {
    assert mem[Addr(bs, i)] == HeaderOf(bs, i);
    hide Closed, Addr, SplitAt;
    if bs[i].size >= need + HEADER + 16 {
      RepresentsSplit(mem, bs, i, need);
      ClosedSplit(mem, Addr(bs, i), need);
    }
  }

  /** No listed block is at `b`. */
  ghost predicate Unlisted(bs: seq<Blk>, b: nat) {
    forall k :: 0 <= k < |bs| ==> Addr(bs, k) != b
  }

  lemma UnlistedWrite(mem: map<nat, Header>, bs: seq<Blk>, b: nat, h: Header)
    requires Represents(mem, bs) && Unlisted(bs, b)
    ensures Represents(mem[b := h], bs)
  {
    hide Addr;
  }

  // ---------------------------------------------------------------- the allocator

  class KernelHeap {
    var mem: map<nat, Header>
    var head: nat
    var heapEnd: nat
    ghost var bs: seq<Blk>

    ghost predicate Valid()
      reads this
    {
      && Good(bs) && Represents(mem, bs) && Closed(mem)
      && head == BASE && heapEnd == BASE + Total(bs)
    }

    /** heap_init. */
    constructor ()
      ensures Valid() && bs == Booted()
    {
      heapEnd := BASE + FIRST;
      mem := map[BASE := Header(MAGIC, FIRST, 0, true)];
      head := BASE;
      bs := Booted();
      LiveOne(Blk(FIRST, true), BASE);
    }

    /** The first-fit walk along the `next` links; zero when nothing fits. */
    method Find(need: nat) returns (b: nat, ghost i: nat)
      requires Valid()
      ensures i == FirstFit(bs, need)
      ensures b == if i < |bs| then Addr(bs, i) else 0
    {
      hide Addr;
      BaseFirst(bs);
      b, i := head, 0;
      while b != 0
        invariant i <= |bs| && b == (if i < |bs| then Addr(bs, i) else 0)
        invariant forall j :: 0 <= j < i ==> !(bs[j].free && bs[j].size >= need)
        decreases |bs| - i
      {
        assert b in mem && mem[b] == HeaderOf(bs, i);
        if mem[b].magic != MAGIC {
          assert false;
        }
        if mem[b].free && mem[b].size >= need {
          return;
        }
        b := mem[b].next;
        i := i + 1;
      }
      forall k | 0 <= k < |bs| ensures Addr(bs, k) > 0 {
        AddrPositive(bs, k);
      }
    }

    method Split(b: nat, need: nat, ghost i: nat)
      requires Represents(mem, bs) && Closed(mem) && (forall k :: 0 <= k < |bs| ==> Big(bs[k]))
      requires i < |bs| && b == Addr(bs, i) && 0 < need <= bs[i].size
      modifies this
      ensures bs == if old(bs)[i].size >= need + HEADER + 16 then SplitAt(old(bs), i, need) else old(bs)
      ensures Represents(mem, bs) && Closed(mem) && head == old(head) && heapEnd == old(heapEnd)
    {
      hide Closed, Represents, Addr, Big, SplitAt, HeaderOf;
      SplitFacts(mem, bs, i, need);
      if mem[b].size >= need + HEADER + 16 {
        var n := b + need;
        mem := mem[n := Header(MAGIC, mem[b].size - need, mem[b].next, true)];
        mem := mem[b := mem[b].(size := need, next := n)];
        bs := SplitAt(bs, i, need);
      }
    }

    /** The last block of the list. */
    method Tail() returns (tail: nat)
      requires Represents(mem, bs) && Good(bs) && head == BASE
      ensures tail == Addr(bs, |bs| - 1) && tail in mem && mem[tail] == HeaderOf(bs, |bs| - 1)
    {
      hide Addr;
      BaseFirst(bs);
      tail := head;
      ghost var i := 0;
      while mem[tail].next != 0
        invariant i < |bs| && tail == Addr(bs, i) && tail in mem
        decreases |bs| - i
      {
        assert mem[tail] == HeaderOf(bs, i);
        if i + 1 < |bs| {
          AddrPositive(bs, i + 1);
        }
        tail := mem[tail].next;
        i := i + 1;
      }
      assert mem[tail] == HeaderOf(bs, i);
      if i + 1 < |bs| {
        AddrPositive(bs, i + 1);
      }
    }

    method AppendFreeRegion(base: nat, size: nat)
      requires Represents(mem, bs) && Closed(mem) && Good(bs) && head == BASE
      requires base == Addr(bs, |bs|) && size >= HEADER + 16 && size % 16 == 0
      modifies this
      ensures bs == Grown(old(bs), size)
      ensures Represents(mem, bs) && Closed(mem) && head == old(head) && heapEnd == old(heapEnd)
    {
      var tail := Tail();
      ghost var i := |bs| - 1;
      hide Addr;
      AddrOrder(bs, i, |bs|);
      AddrNext(bs, i);
      RepresentsAppend(mem, bs, size);
      ClosedAppend(mem, tail, base, size);
      hide Closed;
      mem := mem[base := Header(MAGIC, size, 0, true)];
      mem := mem[tail := mem[tail].(next := base)];
      bs := bs + [Blk(size, true)];
      if mem[tail].free && tail + mem[tail].size == base {
        SamePrefix(old(bs), bs, i);
        SamePrefix(old(bs), bs, i + 1);
        RepresentsStretch(old(mem), old(bs), size);
        RepresentsMerge(mem, bs, i);
        ClosedWrite(mem, tail, mem[tail].(size := mem[tail].size + mem[base].size, next := mem[base].next));
        mem := mem[tail := mem[tail].(size := mem[tail].size + mem[base].size, next := mem[base].next)];
        bs := MergeAt(bs, i);
      }
    }

    /** Grow by at least sixteen pages; every frame is assumed to be available. */
    method GrowHeapFor(need: nat)
      requires Valid()
      modifies this
      ensures Valid() && bs == Grown(old(bs), GrowSize(need))
    {
      GrowSizeIsEnough(need);
      GrownIsGood(bs, GrowSize(need));
      GrownLive(bs, GrowSize(need));
      var pages := (need + PAGE - 1) / PAGE;
      if pages < GROW_PAGES {
        pages := GROW_PAGES;
      }
      var base := heapEnd;
      heapEnd := heapEnd + pages * PAGE;
      assert bs[..|bs|] == bs;
      AppendFreeRegion(base, pages * PAGE);
    }

    /** A sixteen-aligned pointer to at least `size` bytes of a block that was not in use, of the size needed and
        at most 32 bytes more; all other blocks in use stay what and where they were. It is the first free
        block that is large enough, and the heap grows only if there is none. Null only for size zero. */
    method Kmalloc(size: nat) returns (ptr: nat)
      requires Valid()
      modifies this
      ensures Valid()
      ensures size == 0 ==> ptr == 0 && bs == old(bs)
      ensures size > 0 ==> bs == Allocated(old(bs), Need(size)) && ptr % 16 == 0
      ensures size > 0 ==>
                exists i :: 0 <= i < |bs| && !bs[i].free && ptr == Addr(bs, i) + HEADER
                         && Need(size) <= bs[i].size <= Need(size) + 32
                         && Live(bs, BASE) == old(Live(bs, BASE)) + {(Addr(bs, i), bs[i].size)}
      ensures size > 0 ==> ptr == Chosen(old(bs), Need(size)) + HEADER
      ensures size > 0 && FirstFit(old(bs), Need(size)) < |old(bs)| ==> heapEnd == old(heapEnd)
    {
      hide Live, Total, Taken, Grown, Addr, Chosen, Roomy, Good, Allocated;
      if size == 0 {
        return 0;
      }
      var need := (size + 15) / 16 * 16 + HEADER;
      assert need == Need(size);
      hide Need;
      RoomyFacts(bs, need);
      RoomyIs(bs, need);
      var attempt := 0;
      ghost var was := bs;
      while attempt < 2
        invariant 0 <= attempt <= 1 && Valid()
        invariant attempt == 0 ==> bs == was && heapEnd == old(heapEnd)
        invariant attempt == 1 ==> FirstFit(was, need) == |was| && bs == Grown(was, GrowSize(need))
        invariant Live(bs, BASE) == Live(was, BASE)
        decreases 2 - attempt
      {
        ghost var i;
        var b;
        AddrsPositive(bs);
        b, i := Find(need);
        if b != 0 {
          ptr := Take(b, need, i);
          return;
        }
        SecondAttemptSucceeds(was, need);
        assert attempt == 0;
        GrownLive(bs, GrowSize(need));
        GrowHeapFor(need);
        attempt := attempt + 1;
      }
      assert false;
    }

    /** Split and mark the block found. */
    method Take(b: nat, need: nat, ghost i: nat) returns (ptr: nat)
      requires Valid() && i < |bs| && i == FirstFit(bs, need) && b == Addr(bs, i)
      requires need % 16 == 0 && need >= HEADER + 16
      modifies this
      ensures Valid() && bs == Taken(old(bs), i, need)
      ensures ptr == b + HEADER && ptr % 16 == 0
      ensures i < |bs| && !bs[i].free && b == Addr(bs, i) && need <= bs[i].size <= need + 32
      ensures heapEnd == old(heapEnd)
      ensures Live(bs, BASE) == old(Live(bs, BASE)) + {(Addr(bs, i), bs[i].size)}
    {
      hide Live;
      hide Total;
      ghost var was := bs;
      TakenIsGood(bs, i, need);
      TakenLive(bs, i, need);
      AddrAligned(bs, i);
      GranulesApart(Taken(bs, i, need), i, need);
      Split(b, need, i);
      SplitKeeps(was, i, need);
      RepresentsFlag(mem, bs, i, false);
      ClosedWrite(mem, b, mem[b].(free := false));
      hide Closed, Addr;
      mem := mem[b := mem[b].(free := false)];
      bs := bs[i := bs[i].(free := false)];
      ptr := b + HEADER;
    }

    /** The predecessor search: zero when the block is the first or not listed at all. */
    method Predecessor(b: nat, ghost i: nat) returns (prev: nat)
      requires Represents(mem, bs) && head == BASE && bs != [] && (forall k :: 0 <= k < |bs| ==> Big(bs[k]))
      requires b != 0 && (if i < |bs| then b == Addr(bs, i) else Unlisted(bs, b))
      ensures prev == if 0 < i < |bs| then Addr(bs, i - 1) else 0
    {
      hide Addr;
      BaseFirst(bs);
      prev := head;
      ghost var k := 0;
      while prev != 0 && mem[prev].next != b
        invariant k <= |bs| && prev == (if k < |bs| then Addr(bs, k) else 0)
        invariant prev != 0 ==> prev in mem
        invariant 0 < i < |bs| ==> k < i
        decreases |bs| - k
      {
        assert mem[prev] == HeaderOf(bs, k);
        if k + 1 < |bs| {
          AddrPositive(bs, k + 1);
        }
        prev := mem[prev].next;
        k := k + 1;
      }
      if prev != 0 {
        assert mem[prev] == HeaderOf(bs, k);
        if k + 1 < |bs| && i < |bs| && k + 1 != i {
          AddrsDiffer(bs, k + 1, i);
        }
      } else if k < |bs| {
        AddrPositive(bs, k);
      }
    }

    /** A free block of the list at `b`, its number `i`; or, for `i` past the list, a header that is not in it. */
    ghost predicate Known(b: nat, i: nat)
      reads this
    {
      && Represents(mem, bs) && Closed(mem) && (forall k :: 0 <= k < |bs| ==> Big(bs[k]))
      && b in mem && (if i < |bs| then b == Addr(bs, i) && bs[i].free else Unlisted(bs, b))
    }

    method MergeForward(b: nat, ghost i: nat)
      requires Known(b, i)
      modifies this
      ensures b in mem && Represents(mem, bs) && Closed(mem) && head == old(head) && heapEnd == old(heapEnd)
      ensures i < |old(bs)| ==> Known(b, i)
      ensures var o := old(bs); bs == if i < |o| && i + 1 < |o| && o[i + 1].free then MergeAt(o, i) else o
    {
      hide Addr;
      AddrsPositive(bs);
      if i < |bs| {
        AddrNext(bs, i);
        assert mem[b] == HeaderOf(bs, i);
      }
      var nx := mem[b].next;
      if nx != 0 && i < |bs| {
        assert mem[nx] == HeaderOf(bs, i + 1);
      }
      if nx != 0 && mem[nx].free && b + mem[b].size == nx {
        ghost var h := mem[b].(size := mem[b].size + mem[nx].size, next := mem[nx].next);
        ClosedWrite(mem, b, h);
        if i < |bs| {
          RepresentsMerge(mem, bs, i);
          MergeFree(bs, i);
          AddrMerge(bs, i, i);
        } else {
          UnlistedWrite(mem, bs, b, h);
        }
        mem := mem[b := mem[b].(size := mem[b].size + mem[nx].size, next := mem[nx].next)];
        if i < |bs| {
          bs := MergeAt(bs, i);
        }
      }
    }

    method MergeBackward(b: nat, ghost i: nat)
      requires Known(b, i) && head == BASE && b != 0 && bs != []
      modifies this
      ensures Represents(mem, bs) && Closed(mem) && head == old(head) && heapEnd == old(heapEnd)
      ensures var o := old(bs); bs == if 0 < i < |o| && o[i - 1].free then MergeAt(o, i - 1) else o
    {
      hide Addr;
      AddrsPositive(bs);
      var prev := Predecessor(b, i);
      if prev != 0 {
        assert mem[prev] == HeaderOf(bs, i - 1);
        assert mem[b] == HeaderOf(bs, i);
        AddrNext(bs, i - 1);
      }
      if prev != 0 && mem[prev].free && prev + mem[prev].size == b {
        RepresentsMerge(mem, bs, i - 1);
        mem := mem[prev := mem[prev].(size := mem[prev].size + mem[b].size, next := mem[b].next)];
        bs := MergeAt(bs, i - 1);
      }
    }

    /** Mark the header at `b` as free. */
    method Flag(b: nat, ghost i: nat)
      requires Represents(mem, bs) && Closed(mem) && b in mem && (forall k :: 0 <= k < |bs| ==> Big(bs[k]))
      requires if i < |bs| then b == Addr(bs, i) else Unlisted(bs, b)
      modifies this
      ensures Known(b, i) && head == old(head) && heapEnd == old(heapEnd)
      ensures bs == if i < |old(bs)| then old(bs)[i := old(bs)[i].(free := true)] else old(bs)
    {
      hide Addr;
      ClosedWrite(mem, b, mem[b].(free := true));
      if i < |bs| {
        RepresentsFlag(mem, bs, i, true);
        AddrFlag(bs, i, true, i);
      } else {
        UnlistedWrite(mem, bs, b, mem[b].(free := true));
      }
      mem := mem[b := mem[b].(free := true)];
      if i < |bs| {
        bs := bs[i := bs[i].(free := true)];
      }
    }

    /** Release the block whose header is in front of the pointer. If it was in use it leaves the live blocks,
        nothing else does, and free neighbours merge. A block that is listed but already free, and one that
        was merged away and whose stale header is still there, pass the magic test too; freeing them changes
        nothing in the list. `i` names the block; past the list, it is a stale one. */
    method Kfree(ptr: nat, ghost i: nat)
      requires Valid()
      requires ptr != 0 ==> ptr > HEADER && ptr - HEADER in mem
      requires ptr != 0 ==> if i < |bs| then ptr - HEADER == Addr(bs, i) else Unlisted(bs, ptr - HEADER)
      modifies this
      ensures Valid()
      ensures ptr == 0 || i >= |old(bs)| || old(bs)[i].free ==> bs == old(bs)
      ensures ptr != 0 && i < |old(bs)| ==> bs == Released(old(bs), i)
      ensures ptr != 0 && i < |old(bs)| && !old(bs)[i].free ==>
                Live(bs, BASE) == old(Live(bs, BASE)) - {(ptr - HEADER, old(bs)[i].size)}
    {
      hide Live;
      hide Total;
      hide Addr;
      if ptr == 0 {
        return;
      }
      ghost var was := bs;
      if i < |bs| {
        ReleaseFacts(bs, i);
      }
      hide Good, MergeAt, BadPair;
      var b := ptr - HEADER;
      if mem[b].magic != MAGIC {
        assert false;
      }
      GoodParts(bs);
      Flag(b, i);
      MergeForward(b, i);
      MergeBackward(b, i);
    }
  }

  lemma GoodParts(bs: seq<Blk>)
    requires Good(bs)
    ensures bs != [] && forall k :: 0 <= k < |bs| ==> Big(bs[k])
  {}

  /** What releasing block `i` keeps and changes. */
  lemma ReleaseFacts(bs: seq<Blk>, i: nat)
    requires Good(bs) && i < |bs|
    ensures Good(Released(bs, i)) && Total(Released(bs, i)) == Total(bs)
    ensures bs[i].free ==> Released(bs, i) == bs
    ensures !bs[i].free ==> Live(Released(bs, i), BASE) == Live(bs, BASE) - {(Addr(bs, i), bs[i].size)}
  {
    hide Live, Addr;
    if bs[i].free {
      FreedTwiceIsSilent(bs, i);
    } else {
      ReleasedIsGood(bs, i);
      ReleasedLive(bs, i);
    }
  }

  /** Releasing a listed block that is already free changes nothing: its neighbours are in use. */
  lemma FreedTwiceIsSilent(bs: seq<Blk>, i: nat)
    requires Good(bs) && i < |bs| && bs[i].free
    ensures Released(bs, i) == bs
  {
    assert bs[i := bs[i].(free := true)] == bs;
  }

  lemma EndOf(bs: seq<Blk>)
    ensures Addr(bs, |bs|) == BASE + Total(bs)
  {
    assert bs[..|bs|] == bs;
  }

  lemma AddrAligned(bs: seq<Blk>, i: nat)
    requires Good(bs) && i <= |bs|
    ensures Addr(bs, i) % 16 == 0
  {
    TotalIsAligned(bs[..i]);
  }

  lemma SplitKeeps(bs: seq<Blk>, i: nat, need: nat)
    requires Good(bs) && i < |bs| && HEADER + 16 <= need <= bs[i].size && need % 16 == 0
    ensures var mid := if bs[i].size >= need + HEADER + 16 then SplitAt(bs, i, need) else bs;
            && i < |mid| && Addr(mid, i) == Addr(bs, i)
            && forall k :: 0 <= k < |mid| ==> Big(mid[k])
  {
    if bs[i].size >= need + HEADER + 16 {
      AddrSplit(bs, i, need, i);
    }
  }

  lemma AddrPositive(bs: seq<Blk>, k: nat)
    requires k <= |bs|
    ensures Addr(bs, k) >= BASE > 0
  {
  }

  lemma AddrsPositive(bs: seq<Blk>)
    ensures forall k :: 0 <= k <= |bs| ==> Addr(bs, k) > 0
  {
  }

  lemma BaseFirst(bs: seq<Blk>)
    ensures Addr(bs, 0) == BASE
  {
  }

  lemma AddrNext(bs: seq<Blk>, i: nat)
    requires i < |bs|
    ensures Addr(bs, i + 1) == Addr(bs, i) + bs[i].size
  {
    TotalSnoc(bs, i);
  }
}

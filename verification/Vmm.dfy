/** Four-level page tables (src/mm/vmm.c), refining a flat map from virtual page numbers.

The table format is that of 4-level paging, section 4.5 of the Intel SDM, volume 3A.
*/
module Vmm {
  import opened Options
  import opened Division

  const PAGE: nat := 4096
  const VPNS: nat := 0x10_0000_0000
  const WORD: nat := 0x1_0000_0000_0000_0000
  const PHYS: nat := 0x10_0000_0000_0000

  datatype Perms = Perms(w: bool, user: bool, pcd: bool, nx: bool)

  /** A decoded table entry; `addr` is bits 12 to 51. */
  datatype Pte = Pte(present: bool, huge: bool, addr: nat, perms: Perms)

  const ABSENT := Pte(false, false, 0, Perms(false, false, false, false))

  type Tables = map<nat, seq<Pte>>

  // ---------------------------------------------------------------- words

  predicate Bit(word: nat, k: nat) {
    word / Pow2(k) % 2 == 1
  }

  /** What a table entry means (section 4.5 of the Intel SDM, volume 3A). */
  function Decode(word: nat): Pte {
    Pte(Bit(word, 0), Bit(word, 7), word % PHYS / PAGE * PAGE, Perms(Bit(word, 1), Bit(word, 2), Bit(word, 4), Bit(word, 63)))
  }

  /** What a caller of vmm_map asks for: writable, user, cache disabled, no execution. */
  function Requested(flags: nat): Perms {
    Perms(Bit(flags, 1), Bit(flags, 2), Bit(flags, 4), Bit(flags, 63))
  }

  /** leaf_flags: present, and those of the four flags that are asked for. */
  function LeafFlags(flags: nat): nat {
    1 + (if Bit(flags, 1) then 0x2 else 0) + (if Bit(flags, 2) then 0x4 else 0)
    + (if Bit(flags, 4) then 0x10 else 0) + (if Bit(flags, 63) then 0x8000_0000_0000_0000 else 0)
  }

  /** The word vmm_map stores: the frame's address bits together with the flags. */
  function LeafWord(phys: nat, flags: nat): nat {
    phys % PHYS / PAGE * PAGE + LeafFlags(flags)
  }

  /** The stored word says what was asked: present, not huge, the frame, and exactly the requested flags. */
  lemma LeafWordMeans(phys: nat, flags: nat)
    ensures Decode(LeafWord(phys, flags)) == Pte(true, false, phys % PHYS / PAGE * PAGE, Requested(flags))
  {
    hide Requested, Bit;
    var a := phys % PHYS / PAGE;
    var low := 1 + (if Bit(flags, 1) then 2 else 0) + (if Bit(flags, 2) then 4 else 0) + (if Bit(flags, 4) then 16 else 0);
    var top := if Bit(flags, 63) then 1 else 0;
    assert LeafWord(phys, flags) == a * PAGE + low + top * 0x8000_0000_0000_0000;
    WordBits(a, low, top);
    LowBits(if Bit(flags, 1) then 1 else 0, if Bit(flags, 2) then 1 else 0, if Bit(flags, 4) then 1 else 0);
    RequestedIs(flags);
  }

  lemma MmioFlags()
    ensures Requested(0x12) == Perms(true, false, true, false)
  {
    Powers();
    Power63();
    hide Pow2;
  }

  lemma RequestedIs(flags: nat)
    ensures Requested(flags) == Perms(Bit(flags, 1), Bit(flags, 2), Bit(flags, 4), Bit(flags, 63))
  {}

  lemma LowBits(w: nat, u: nat, c: nat)
    requires w <= 1 && u <= 1 && c <= 1
    ensures var low := 1 + 2 * w + 4 * u + 16 * c;
            (Bit(low, 1) <==> w == 1) && (Bit(low, 2) <==> u == 1) && (Bit(low, 4) <==> c == 1) && Bit(low, 0) && !Bit(low, 7)
  {
    Powers();
    hide Pow2;
  }

  lemma Powers()
    ensures Pow2(0) == 1 && Pow2(1) == 2 && Pow2(2) == 4 && Pow2(4) == 16 && Pow2(7) == 128
  {
    assert Pow2(4) == 2 * Pow2(3) && Pow2(7) == 2 * Pow2(6) && Pow2(6) == 2 * Pow2(5) && Pow2(5) == 2 * Pow2(4);
  }

  lemma {:induction false} PowerSum(m: nat, n: nat)
    ensures Pow2(m + n) == Pow2(m) * Pow2(n)
  {
    if n > 0 {
      PowerSum(m, n - 1);
    }
  }

  lemma Power63()
    ensures Pow2(63) == 0x8000_0000_0000_0000
  {
    Powers();
    hide Pow2;
    PowerSum(7, 7);
    PowerSum(14, 7);
    PowerSum(21, 21);
    PowerSum(42, 21);
  }

  /** Low bits, address bits and the top bit of a word do not disturb each other. */
  lemma WordBits(a: nat, low: nat, top: nat)
    requires a < 0x100_0000_0000 && low < 0x100 && top <= 1
    ensures var w := a * PAGE + low + top * 0x8000_0000_0000_0000;
            && w % PHYS / PAGE * PAGE == a * PAGE
            && (Bit(w, 63) <==> top == 1)
            && (Bit(w, 0) <==> Bit(low, 0)) && (Bit(w, 1) <==> Bit(low, 1)) && (Bit(w, 2) <==> Bit(low, 2))
            && (Bit(w, 4) <==> Bit(low, 4)) && (Bit(w, 7) <==> Bit(low, 7))
  {
    Powers();
    Power63();
    hide Pow2;
    var w := a * PAGE + low + top * 0x8000_0000_0000_0000;
    assert w % PHYS == a * PAGE + low;
    assert (a * PAGE + low) / PAGE == a;
    assert w / 0x8000_0000_0000_0000 == top;
    var high := 16 * a + top * 0x80_0000_0000_0000;
    assert w == 256 * high + low;
    LowDivides(128 * high, low, 1);
    LowDivides(64 * high, low, 2);
    LowDivides(32 * high, low, 4);
    LowDivides(8 * high, low, 16);
    LowDivides(high, low, 128);
  }

  lemma LowDivides(k: nat, low: nat, d: nat)
    requires d > 0
    ensures (2 * d * k + low) / d % 2 == low / d % 2
  {
    var q, r := low / d, low % d;
    DivModBack(low, d);
    assert (2 * k + q) * d == 2 * d * k + q * d;
    DivMod(2 * k + q, r, d);
    EvenPart(k, q);
  }

  lemma EvenPart(k: nat, q: nat)
    ensures (2 * k + q) % 2 == q % 2
  {}

  // ---------------------------------------------------------------- walking

  /** Entry `i` of table `t`; frames that are no tables read as all zero. */
  function Entry(tables: Tables, t: nat, i: nat): Pte {
    if t in tables && i < |tables[t]| then tables[t][i] else ABSENT
  }

  function Ix4(n: nat): nat { n / 0x800_0000 % 512 }
  function Ix3(n: nat): nat { n / 0x4_0000 % 512 }
  function Ix2(n: nat): nat { n / 512 % 512 }
  function Ix1(n: nat): nat { n % 512 }

  /** Virtual page numbers below 2^36 are told apart by their four indices. */
  lemma IndicesTellApart(m: nat, n: nat)
    requires m < VPNS && n < VPNS
    requires Ix4(m) == Ix4(n) && Ix3(m) == Ix3(n) && Ix2(m) == Ix2(n) && Ix1(m) == Ix1(n)
    ensures m == n
  {
    SplitIndices(m);
    SplitIndices(n);
  }

  lemma SplitIndices(n: nat)
    requires n < VPNS
    ensures n == 0x800_0000 * Ix4(n) + 0x4_0000 * Ix3(n) + 512 * Ix2(n) + Ix1(n)
  {
    var a := n / 512;
    var b := a / 512;
    var c := b / 512;
    assert b == n / 0x4_0000 && c == n / 0x800_0000;
  }

  /** What a walk finds for a virtual page number. */
  datatype Found = Unmapped | Small(addr: nat, perms: Perms) | Mega(addr: nat) | Giga(addr: nat)

  function Pdpt(tables: Tables, root: nat, n: nat): Pte {
    Entry(tables, root, Ix4(n))
  }

  function Pd(tables: Tables, root: nat, n: nat): Pte {
    Entry(tables, Pdpt(tables, root, n).addr, Ix3(n))
  }

  function Pt(tables: Tables, root: nat, n: nat): Pte {
    Entry(tables, Pd(tables, root, n).addr, Ix2(n))
  }

  function Leaf(tables: Tables, root: nat, n: nat): Pte {
    Entry(tables, Pt(tables, root, n).addr, Ix1(n))
  }

  function Walk(tables: Tables, root: nat, n: nat): Found {
    var e4 := Pdpt(tables, root, n);
    if !e4.present || e4.huge then Unmapped
    else
      var e3 := Pd(tables, root, n);
      if !e3.present then Unmapped
      else if e3.huge then Giga(e3.addr)
      else
        var e2 := Pt(tables, root, n);
        if !e2.present then Unmapped
        else if e2.huge then Mega(e2.addr)
        else
          var e1 := Leaf(tables, root, n);
          if !e1.present || e1.huge then Unmapped else Small(e1.addr, e1.perms)
  }

  /** vmm_virt_to_phys. */
  function VirtToPhys(tables: Tables, root: nat, v: nat): Option<nat> {
    match Walk(tables, root, v / PAGE % VPNS)
    case Unmapped => None
    case Giga(a) => Some(a / 0x4000_0000 * 0x4000_0000 + v % 0x4000_0000)
    case Mega(a) => Some(a / 0x2000 * 0x2000 + v % 0x20_0000)
    case Small(a, _) => Some(a + v % PAGE)
  }

  // ---------------------------------------------------------------- trees

  /** The shape of the tables: `level` of each (4 for the root), and the unique entry `up` that refers to
      each other one. Level-1 tables hold leaves. */
  datatype Shape = Shape(level: map<nat, nat>, up: map<nat, (nat, nat)>)

  predicate Refers(tables: Tables, t: nat, i: nat) {
    Entry(tables, t, i).present && !Entry(tables, t, i).huge
  }

  ghost predicate Tree(tables: Tables, root: nat, sh: Shape) {
    && sh.level.Keys == tables.Keys
    && root in tables && sh.level[root] == 4
    && (forall t :: t in tables ==> |tables[t]| == 512 && 1 <= sh.level[t] <= 4)
    && (forall i: nat :: Entry(tables, root, i).present ==> !Entry(tables, root, i).huge)
    && (forall t, i: nat :: t in tables && sh.level[t] > 1 && Refers(tables, t, i) ==>
          var c := Entry(tables, t, i).addr;
          c in tables && sh.level[c] == sh.level[t] - 1 && c in sh.up && sh.up[c] == (t, i))
  }

  lemma ReachPd(tables: Tables, root: nat, sh: Shape, n: nat)
    requires Tree(tables, root, sh) && Refers(tables, root, Ix4(n))
    ensures var c := Pdpt(tables, root, n).addr; c in tables && sh.level[c] == 3 && c in sh.up && sh.up[c] == (root, Ix4(n))
  {
  }

  lemma ReachPt(tables: Tables, root: nat, sh: Shape, n: nat)
    requires Tree(tables, root, sh) && Refers(tables, root, Ix4(n)) && Refers(tables, Pdpt(tables, root, n).addr, Ix3(n))
    ensures var b, c := Pdpt(tables, root, n).addr, Pd(tables, root, n).addr;
            c in tables && sh.level[c] == 2 && c in sh.up && sh.up[c] == (b, Ix3(n))
  {
    ReachPd(tables, root, sh, n);
  }

  /** The walk for `n` passes through a page table (level 1). */
  predicate HasPt(tables: Tables, root: nat, n: nat) {
    && Refers(tables, root, Ix4(n))
    && Refers(tables, Pdpt(tables, root, n).addr, Ix3(n))
    && Refers(tables, Pd(tables, root, n).addr, Ix2(n))
  }

  lemma ReachLeaf(tables: Tables, root: nat, sh: Shape, n: nat)
    requires Tree(tables, root, sh) && HasPt(tables, root, n)
    ensures var c, d := Pd(tables, root, n).addr, Pt(tables, root, n).addr;
            d in tables && sh.level[d] == 1 && d in sh.up && sh.up[d] == (c, Ix2(n))
  {
    ReachPt(tables, root, sh, n);
  }

  /** Two walks that share their page table share all indices above it. */
  lemma SharedPtSharesPath(tables: Tables, root: nat, sh: Shape, m: nat, n: nat)
    requires Tree(tables, root, sh) && HasPt(tables, root, m) && HasPt(tables, root, n)
    requires Pt(tables, root, m).addr == Pt(tables, root, n).addr
    ensures Ix4(m) == Ix4(n) && Ix3(m) == Ix3(n) && Ix2(m) == Ix2(n)
  {
    ReachLeaf(tables, root, sh, m);
    ReachLeaf(tables, root, sh, n);
    ReachPt(tables, root, sh, m);
    ReachPt(tables, root, sh, n);
    ReachPd(tables, root, sh, m);
    ReachPd(tables, root, sh, n);
  }

  // ---------------------------------------------------------------- writing entries

  function Written(tables: Tables, t: nat, i: nat, e: Pte): Tables
    requires t in tables && i < |tables[t]|
  {
    tables[t := tables[t][i := e]]
  }

  lemma WrittenEntry(tables: Tables, t: nat, i: nat, e: Pte, s: nat, j: nat)
    requires t in tables && i < |tables[t]|
    ensures Entry(Written(tables, t, i, e), s, j) == if s == t && j == i then e else Entry(tables, s, j)
  {
  }

  /** Writing a leaf keeps the tree. */
  lemma LeafKeepsTree(tables: Tables, root: nat, sh: Shape, t: nat, i: nat, e: Pte)
    requires Tree(tables, root, sh) && t in tables && sh.level[t] == 1 && i < 512
    ensures Tree(Written(tables, t, i, e), root, sh)
  {
    forall s: nat, j: nat ensures Entry(Written(tables, t, i, e), s, j) == if s == t && j == i then e else Entry(tables, s, j) {
      WrittenEntry(tables, t, i, e, s, j);
    }
  }

  /** Writing the leaf of page `n` changes the walk of page `n` only. */
  lemma LeafChangesOnePage(tables: Tables, root: nat, sh: Shape, n: nat, e: Pte, m: nat)
    requires Tree(tables, root, sh) && n < VPNS && m < VPNS && HasPt(tables, root, n)
    ensures Pt(tables, root, n).addr in tables && |tables[Pt(tables, root, n).addr]| == 512
    ensures var after := Written(tables, Pt(tables, root, n).addr, Ix1(n), e);
            && (m != n ==> Walk(after, root, m) == Walk(tables, root, m))
            && (m == n ==> Walk(after, root, m) == if e.present && !e.huge then Small(e.addr, e.perms) else Unmapped)
  {
    ReachLeaf(tables, root, sh, n);
    var t := Pt(tables, root, n).addr;
    var after := Written(tables, t, Ix1(n), e);
    WrittenEntry(tables, t, Ix1(n), e, root, Ix4(m));
    WrittenEntry(tables, t, Ix1(n), e, Pdpt(tables, root, m).addr, Ix3(m));
    WrittenEntry(tables, t, Ix1(n), e, Pd(tables, root, m).addr, Ix2(m));
    WrittenEntry(tables, t, Ix1(n), e, Pt(tables, root, m).addr, Ix1(m));
    if Refers(tables, root, Ix4(m)) {
      ReachPd(tables, root, sh, m);
      if Refers(tables, Pdpt(tables, root, m).addr, Ix3(m)) {
        ReachPt(tables, root, sh, m);
        if HasPt(tables, root, m) && Pt(tables, root, m).addr == t && Ix1(m) == Ix1(n) {
          SharedPtSharesPath(tables, root, sh, m, n);
          IndicesTellApart(m, n);
        }
      }
    }
  }

  function ZeroTable(): (z: seq<Pte>)
    ensures |z| == 512 && forall i :: 0 <= i < 512 ==> z[i] == ABSENT
  {
    seq(512, _ => ABSENT)
  }

  /** A fresh zeroed frame `c` becomes the table that entry `i` of `t` refers to. */
  function Attached(tables: Tables, t: nat, i: nat, c: nat): Tables
    requires t in tables && i < |tables[t]|
  {
    Written(tables, t, i, Pte(true, false, c, Perms(true, true, false, false)))[c := ZeroTable()]
  }

  lemma AttachedEntry(tables: Tables, t: nat, i: nat, c: nat, s: nat, j: nat)
    requires t in tables && i < |tables[t]| && c !in tables
    ensures Entry(Attached(tables, t, i, c), s, j) ==
            if s == t && j == i then Pte(true, false, c, Perms(true, true, false, false)) else Entry(tables, s, j)
  {
  }

  lemma AttachKeepsTree(tables: Tables, root: nat, sh: Shape, t: nat, i: nat, c: nat)
    requires Tree(tables, root, sh) && t in tables && sh.level[t] > 1 && i < 512 && c !in tables
    requires !Entry(tables, t, i).present
    ensures Tree(Attached(tables, t, i, c), root, Shape(sh.level[c := sh.level[t] - 1], sh.up[c := (t, i)]))
  {
    forall s: nat, j: nat ensures Entry(Attached(tables, t, i, c), s, j) ==
            if s == t && j == i then Pte(true, false, c, Perms(true, true, false, false)) else Entry(tables, s, j)
    {
      AttachedEntry(tables, t, i, c, s, j);
    }
  }

  /** Attaching an empty table maps nothing and unmaps nothing. */
  lemma AttachKeepsWalks(tables: Tables, root: nat, sh: Shape, t: nat, i: nat, c: nat, m: nat)
    requires Tree(tables, root, sh) && t in tables && sh.level[t] > 1 && i < 512 && c !in tables
    requires !Entry(tables, t, i).present
    ensures Walk(Attached(tables, t, i, c), root, m) == Walk(tables, root, m)
  {
    var after := Attached(tables, t, i, c);
    AttachedEntry(tables, t, i, c, root, Ix4(m));
    AttachedEntry(tables, t, i, c, Pdpt(tables, root, m).addr, Ix3(m));
    AttachedEntry(tables, t, i, c, Pd(tables, root, m).addr, Ix2(m));
    AttachedEntry(tables, t, i, c, Pt(tables, root, m).addr, Ix1(m));
    AttachedEntry(tables, t, i, c, c, Ix3(m));
    AttachedEntry(tables, t, i, c, c, Ix2(m));
    AttachedEntry(tables, t, i, c, c, Ix1(m));
    if Refers(tables, root, Ix4(m)) {
      ReachPd(tables, root, sh, m);
      if Refers(tables, Pdpt(tables, root, m).addr, Ix3(m)) {
        ReachPt(tables, root, sh, m);
        if HasPt(tables, root, m) {
          ReachLeaf(tables, root, sh, m);
        }
      }
    }
  }

  /** An entry that restricts nothing below it. */
  predicate Open(e: Pte) {
    e.perms.w && e.perms.user && !e.perms.nx
  }

  /** No table entry on the way to page `n` restricts it, as far as the way goes. */
  predicate OpenPath(tables: Tables, root: nat, n: nat) {
    Refers(tables, root, Ix4(n)) ==>
      && Open(Pdpt(tables, root, n))
      && (Refers(tables, Pdpt(tables, root, n).addr, Ix3(n)) ==>
            && Open(Pd(tables, root, n))
            && (Refers(tables, Pd(tables, root, n).addr, Ix2(n)) ==> Open(Pt(tables, root, n))))
  }

  lemma AttachKeepsOpen(tables: Tables, root: nat, sh: Shape, t: nat, i: nat, c: nat, m: nat)
    requires Tree(tables, root, sh) && t in tables && sh.level[t] > 1 && i < 512 && c !in tables
    requires !Entry(tables, t, i).present && OpenPath(tables, root, m)
    ensures OpenPath(Attached(tables, t, i, c), root, m)
  {
    var after := Attached(tables, t, i, c);
    AttachedEntry(tables, t, i, c, root, Ix4(m));
    AttachedEntry(tables, t, i, c, Pdpt(tables, root, m).addr, Ix3(m));
    AttachedEntry(tables, t, i, c, Pd(tables, root, m).addr, Ix2(m));
    AttachedEntry(tables, t, i, c, c, Ix3(m));
    AttachedEntry(tables, t, i, c, c, Ix2(m));
    if Refers(tables, root, Ix4(m)) {
      ReachPd(tables, root, sh, m);
      if Refers(tables, Pdpt(tables, root, m).addr, Ix3(m)) {
        ReachPt(tables, root, sh, m);
      }
    }
    hide Attached, Tree, Ix4, Ix3, Ix2;
  }

  lemma LeafKeepsOpen(tables: Tables, root: nat, sh: Shape, t: nat, i: nat, e: Pte, m: nat)
    requires Tree(tables, root, sh) && t in tables && sh.level[t] == 1 && i < 512 && OpenPath(tables, root, m)
    ensures OpenPath(Written(tables, t, i, e), root, m)
  {
    WrittenEntry(tables, t, i, e, root, Ix4(m));
    WrittenEntry(tables, t, i, e, Pdpt(tables, root, m).addr, Ix3(m));
    WrittenEntry(tables, t, i, e, Pd(tables, root, m).addr, Ix2(m));
    TreeRoot(tables, root, sh);
    if Refers(tables, root, Ix4(m)) {
      ReachPd(tables, root, sh, m);
      if Refers(tables, Pdpt(tables, root, m).addr, Ix3(m)) {
        ReachPt(tables, root, sh, m);
      }
    }
    hide Written, Tree, Ix4, Ix3, Ix2;
  }

  lemma AttachedIs(tables: Tables, t: nat, i: nat, c: nat)
    requires t in tables && i < |tables[t]| && c !in tables
    ensures tables[t := tables[t][i := Pte(true, false, c, Perms(true, true, false, false))]][c := ZeroTable()]
         == Attached(tables, t, i, c)
    ensures Attached(tables, t, i, c).Keys == tables.Keys + {c}
  {}

  /** All that attaching an empty table does and does not do. */
  lemma AttachFacts(tables: Tables, root: nat, sh: Shape, t: nat, i: nat, c: nat)
    requires Tree(tables, root, sh) && t in tables && sh.level[t] > 1 && i < 512 && c !in tables
    requires !Entry(tables, t, i).present
    ensures |tables[t]| == 512
    ensures var after := Attached(tables, t, i, c);
            && Tree(after, root, Shape(sh.level[c := sh.level[t] - 1], sh.up[c := (t, i)]))
            && (forall n: nat :: Walk(after, root, n) == Walk(tables, root, n))
            && (forall n: nat :: OpenPath(tables, root, n) ==> OpenPath(after, root, n))
            && (forall s: nat, j: nat :: Refers(tables, s, j) ==> Entry(after, s, j) == Entry(tables, s, j))
            && Refers(after, t, i) && Entry(after, t, i).addr == c
  {
    var after := Attached(tables, t, i, c);
    AttachKeepsTree(tables, root, sh, t, i, c);
    hide Walk, Tree, OpenPath;
    forall n: nat ensures Walk(after, root, n) == Walk(tables, root, n) {
      AttachKeepsWalks(tables, root, sh, t, i, c, n);
    }
    forall n: nat | OpenPath(tables, root, n) ensures OpenPath(after, root, n) {
      AttachKeepsOpen(tables, root, sh, t, i, c, n);
    }
    hide Attached, Entry;
    forall s: nat, j: nat | Refers(tables, s, j) ensures Entry(after, s, j) == Entry(tables, s, j) {
      AttachedEntry(tables, t, i, c, s, j);
    }
    AttachedEntry(tables, t, i, c, t, i);
    TreeRow(tables, root, sh, t);
  }

  /** Frames that are no tables, each once. */
  ghost predicate Spare(supply: seq<nat>, tables: Tables) {
    && (forall i :: 0 <= i < |supply| ==> supply[i] !in tables)
    && (forall i, j :: 0 <= i < j < |supply| ==> supply[i] != supply[j])
  }

  lemma SpareRest(supply: seq<nat>, tables: Tables, after: Tables)
    requires Spare(supply, tables) && supply != [] && after.Keys == tables.Keys + {supply[0]}
    ensures Spare(supply[1..], after)
  {}

  lemma SpareFirst(supply: seq<nat>, tables: Tables)
    requires Spare(supply, tables) && supply != []
    ensures supply[0] !in tables
  {}

  // ---------------------------------------------------------------- the flat map

  /** Distance of page `n` from page `first`, counting upwards and wrapping at 2^36. */
  function Ahead(n: nat, first: nat): nat
    requires n < VPNS && first < VPNS
  {
    (n - first) % VPNS
  }

  /** The flat map after `count` pages from `first` were mapped to consecutive frames from `phys`. */
  function MapAfter(was: Found, n: nat, first: nat, count: nat, phys: nat, perms: Perms): Found
    requires n < VPNS && first < VPNS
  {
    if Ahead(n, first) < count then Small((phys + Ahead(n, first) * PAGE) % PHYS, perms) else was
  }

  /** The flat map after `count` pages from `first` were unmapped: huge pages stay. */
  function UnmapAfter(was: Found, n: nat, first: nat, count: nat): Found
    requires n < VPNS && first < VPNS
  {
    if Ahead(n, first) < count && was.Small? then Unmapped else was
  }

  /** First page and number of pages the loops of vmm_map and vmm_unmap visit, with 64-bit wrap-around. */
  function FirstPage(virt: nat): nat {
    virt / PAGE * PAGE
  }

  function EndPage(virt: nat, size: nat): nat {
    (virt + size + PAGE - 1) % WORD / PAGE * PAGE
  }

  function PageCount(virt: nat, size: nat): nat {
    if FirstPage(virt) < EndPage(virt, size) then (EndPage(virt, size) - FirstPage(virt)) / PAGE else 0
  }

  datatype Outcome = Done | HugeParent | OutOfFrames

  class AddressSpace {
    var tables: Tables
    const root: nat
    /** Zeroed frames the frame allocator will hand out next. */
    var supply: seq<nat>
    ghost var sh: Shape

    ghost predicate Valid()
      reads this
    {
      Tree(tables, root, sh) && Spare(supply, tables)
    }

    ghost predicate SameWalks(was: Tables)
      reads this
    {
      forall n: nat :: Walk(tables, root, n) == Walk(was, root, n)
    }

    /** Tables created on the way restrict nothing. */
    ghost predicate KeepsOpen(was: Tables)
      reads this
    {
      forall n: nat :: OpenPath(was, root, n) ==> OpenPath(tables, root, n)
    }

    /** next_table: follow an entry, creating an empty table when it is absent. */
    method NextTable(t: nat, i: nat) returns (r: Outcome, c: nat)
      requires Valid() && t in tables && sh.level[t] > 1 && i < 512
      modifies this
      ensures Valid() && SameWalks(old(tables))
      ensures r.Done? ==> Refers(tables, t, i) && c == Entry(tables, t, i).addr && c in tables && sh.level[c] == sh.level[t] - 1
      ensures t in tables && sh.level[t] == old(sh.level[t])
      ensures forall s: nat, j: nat :: old(Refers(tables, s, j)) ==> Entry(tables, s, j) == old(Entry(tables, s, j))
      ensures KeepsOpen(old(tables))
    {
      var e := tables[t][i];
      c := 0;
      if !e.present {
        if supply == [] {
          return OutOfFrames, c;
        }
        c := Attach(t, i);
        return Done, c;
      }
      if e.huge {
        return HugeParent, c;
      }
      return Done, e.addr;
    }

    /** Link an empty table from the supply into an absent entry. */
    method Attach(t: nat, i: nat) returns (c: nat)
      requires Valid() && t in tables && sh.level[t] > 1 && i < 512 && !Entry(tables, t, i).present && supply != []
      modifies this
      ensures Valid() && SameWalks(old(tables))
      ensures Refers(tables, t, i) && c == Entry(tables, t, i).addr && c in tables && sh.level[c] == sh.level[t] - 1
      ensures t in tables && sh.level[t] == old(sh.level[t])
      ensures forall s: nat, j: nat :: old(Refers(tables, s, j)) ==> Entry(tables, s, j) == old(Entry(tables, s, j))
      ensures KeepsOpen(old(tables))
    {
      c := supply[0];
      ghost var was := tables;
      hide Walk, Tree, OpenPath, Attached, Refers, Entry;
      SpareFirst(supply, tables);
      AttachFacts(tables, root, sh, t, i, c);
      AttachedIs(was, t, i, c);
      SpareRest(supply, tables, Attached(was, t, i, c));
      hide Spare;
      supply := supply[1..];
      tables := tables[t := tables[t][i := Pte(true, false, c, Perms(true, true, false, false))]];
      tables := tables[c := ZeroTable()];
      sh := Shape(sh.level[c := sh.level[t] - 1], sh.up[c := (t, i)]);
      assert tables == Attached(was, t, i, c);
    }

    /** One page: afterwards it maps to `e`, and every other page is as before. */
    method MapPage(n: nat, e: Pte) returns (r: Outcome)
      requires Valid() && n < VPNS && e.present && !e.huge
      modifies this
      ensures Valid()
      ensures !r.Done? ==> SameWalks(old(tables))
      ensures r.Done? ==> forall m: nat :: m < VPNS ==>
                Walk(tables, root, m) == if m == n then Small(e.addr, e.perms) else Walk(old(tables), root, m)
      ensures KeepsOpen(old(tables))
    {
      hide Walk, Tree, OpenPath;
      TreeRoot(tables, root, sh);
      IndexRange(n);
      var pdpt, pd, pt;
      r, pdpt := NextTable(root, Ix4(n));
      if !r.Done? {
        return;
      }
      r, pd := NextTable(pdpt, Ix3(n));
      if !r.Done? {
        return;
      }
      r, pt := NextTable(pd, Ix2(n));
      if !r.Done? {
        return;
      }
      ghost var mid := tables;
      TreeRow(tables, root, sh, pt);
      assert HasPt(tables, root, n) && Pt(tables, root, n).addr == pt;
      LeafKeepsTree(tables, root, sh, pt, Ix1(n), e);
      forall m: nat | m < VPNS
        ensures Walk(Written(mid, pt, Ix1(n), e), root, m) == if m == n then Small(e.addr, e.perms) else Walk(mid, root, m)
      {
        LeafChangesOnePage(mid, root, sh, n, e, m);
      }
      forall m: nat | OpenPath(mid, root, m) ensures OpenPath(Written(mid, pt, Ix1(n), e), root, m) {
        LeafKeepsOpen(mid, root, sh, pt, Ix1(n), e, m);
      }
      tables := tables[pt := tables[pt][Ix1(n) := e]];
    }

    /** vmm_map: the flat map gains exactly the first `k` pages of the range, in order: all of them, or
        those before the page at which the kernel panics. */
    method Map(virt: nat, phys: nat, size: nat, flags: nat) returns (r: Outcome, ghost k: nat)
      requires Valid() && PageCount(virt, size) <= VPNS
      modifies this
      ensures Valid() && KeepsOpen(old(tables))
      ensures k <= PageCount(virt, size) && (r.Done? <==> k == PageCount(virt, size))
      ensures forall n: nat :: n < VPNS ==>
                Walk(tables, root, n) == MapAfter(Walk(old(tables), root, n), n, virt / PAGE % VPNS, k, FirstPage(phys),
                                                  Requested(flags))
    {
      hide Walk, Tree, OpenPath, LeafWord, Decode, Requested;
      ghost var was, first := tables, virt / PAGE % VPNS;
      var v, p := FirstPage(virt), FirstPage(phys);
      var end := EndPage(virt, size);
      k := 0;
      r := Done;
      while v < end
        invariant Valid() && k <= PageCount(virt, size) && r.Done? && KeepsOpen(was)
        invariant v == FirstPage(virt) + k * PAGE && p == FirstPage(phys) + k * PAGE
        invariant v >= end ==> k == PageCount(virt, size)
        invariant forall n: nat :: n < VPNS ==>
                    Walk(tables, root, n) == MapAfter(Walk(was, root, n), n, first, k, FirstPage(phys), Requested(flags))
        decreases end - v
      {
        PageStep(virt, size, k);
        ghost var before := tables;
        LeafWordMeans(p, flags);
        FrameBits(phys, k);
        r := MapPage(v / PAGE % VPNS, Decode(LeafWord(p, flags)));
        if !r.Done? {
          return;
        }
        forall n: nat | n < VPNS
          ensures Walk(tables, root, n) == MapAfter(Walk(was, root, n), n, first, k + 1, FirstPage(phys), Requested(flags))
        {
          AheadStep(n, first, k);
        }
        v, p := v + PAGE, p + PAGE;
        k := k + 1;
      }
    }

    /** mmio_map: device memory is writable, not cached and not accessible from user mode. */
    method MmioMap(virt: nat, phys: nat, size: nat) returns (r: Outcome, ghost k: nat)
      requires Valid() && PageCount(virt, size) <= VPNS
      modifies this
      ensures Valid() && KeepsOpen(old(tables))
      ensures k <= PageCount(virt, size) && (r.Done? <==> k == PageCount(virt, size))
      ensures forall n: nat :: n < VPNS ==>
                Walk(tables, root, n) == MapAfter(Walk(old(tables), root, n), n, virt / PAGE % VPNS, k, FirstPage(phys),
                                                  Perms(true, false, true, false))
    {
      hide Walk, Requested;
      MmioFlags();
      r, k := Map(virt, phys, size, 0x12);
    }

    /** One page: gone if it was a 4 KiB page, otherwise nothing happens. */
    method UnmapPage(n: nat)
      requires Valid() && n < VPNS
      modifies this
      ensures Valid()
      ensures forall m: nat :: m < VPNS ==>
                Walk(tables, root, m) == if m == n && Walk(old(tables), root, m).Small? then Unmapped else Walk(old(tables), root, m)
    {
      IndexRange(n);
      TreeRoot(tables, root, sh);
      var e4 := tables[root][Ix4(n)];
      if !e4.present {
        return;
      }
      ReachPd(tables, root, sh, n);
      var e3 := tables[e4.addr][Ix3(n)];
      if !e3.present || e3.huge {
        return;
      }
      ReachPt(tables, root, sh, n);
      var e2 := tables[e3.addr][Ix2(n)];
      if !e2.present || e2.huge {
        return;
      }
      ReachLeaf(tables, root, sh, n);
      LeafKeepsTree(tables, root, sh, e2.addr, Ix1(n), ABSENT);
      ghost var was := tables;
      forall m: nat | m < VPNS
        ensures Walk(Written(was, e2.addr, Ix1(n), ABSENT), root, m) == if m == n then Unmapped else Walk(was, root, m)
      {
        LeafChangesOnePage(was, root, sh, n, ABSENT, m);
      }
      tables := tables[e2.addr := tables[e2.addr][Ix1(n) := ABSENT]];
    }

    /** vmm_unmap: the flat map loses exactly the 4 KiB pages of the range. */
    method Unmap(virt: nat, size: nat)
      requires Valid() && PageCount(virt, size) <= VPNS
      modifies this
      ensures Valid()
      ensures forall n: nat :: n < VPNS ==>
                Walk(tables, root, n) == UnmapAfter(Walk(old(tables), root, n), n, virt / PAGE % VPNS, PageCount(virt, size))
    {
      hide Walk;
      hide Tree;
      ghost var was, first := tables, virt / PAGE % VPNS;
      var v, end := FirstPage(virt), EndPage(virt, size);
      ghost var k := 0;
      while v < end
        invariant Valid() && k <= PageCount(virt, size)
        invariant v == FirstPage(virt) + k * PAGE
        invariant v >= end ==> k == PageCount(virt, size)
        invariant forall n: nat :: n < VPNS ==>
                    Walk(tables, root, n) == UnmapAfter(Walk(was, root, n), n, first, k)
        decreases end - v
      {
        PageStep(virt, size, k);
        UnmapPage(v / PAGE % VPNS);
        forall n: nat | n < VPNS
          ensures Walk(tables, root, n) == UnmapAfter(Walk(was, root, n), n, first, k + 1)
        {
          AheadStep(n, first, k);
        }
        v := v + PAGE;
        k := k + 1;
      }
    }
  }

  /** Page-aligned addresses lose nothing but their bits above 51. */
  lemma FrameBits(phys: nat, k: nat)
    ensures var p := FirstPage(phys) + k * PAGE; p % PHYS / PAGE * PAGE == p % PHYS
  {
    var f := phys / PAGE + k;
    assert FirstPage(phys) + k * PAGE == f * PAGE;
    var q, r := f / 0x100_0000_0000, f % 0x100_0000_0000;
    assert f * PAGE == q * PHYS + r * PAGE && r * PAGE < PHYS;
    assert f * PAGE % PHYS == r * PAGE;
  }

  lemma IndexRange(n: nat)
    ensures Ix4(n) < 512 && Ix3(n) < 512 && Ix2(n) < 512 && Ix1(n) < 512
  {
  }

  lemma TreeRoot(tables: Tables, root: nat, sh: Shape)
    requires Tree(tables, root, sh)
    ensures root in tables && |tables[root]| == 512 && root in sh.level && sh.level[root] == 4
  {
  }

  lemma TreeRow(tables: Tables, root: nat, sh: Shape, t: nat)
    requires Tree(tables, root, sh) && t in tables
    ensures |tables[t]| == 512 && t in sh.level
  {
  }

  lemma PageStep(virt: nat, size: nat, k: nat)
    requires k <= PageCount(virt, size) && FirstPage(virt) + k * PAGE < EndPage(virt, size)
    ensures k + 1 <= PageCount(virt, size)
    ensures FirstPage(virt) + (k + 1) * PAGE >= EndPage(virt, size) ==> k + 1 == PageCount(virt, size)
    ensures (FirstPage(virt) + k * PAGE) / PAGE % VPNS == (virt / PAGE % VPNS + k) % VPNS
  {
    assert (FirstPage(virt) + k * PAGE) / PAGE == virt / PAGE + k;
  }

  /** The page `k` steps after `first` is the only one at distance `k`. */
  lemma AheadStep(n: nat, first: nat, k: nat)
    requires n < VPNS && first < VPNS && k < VPNS
    ensures Ahead(n, first) == k <==> n == (first + k) % VPNS
  {
  }

  // ---------------------------------------------------------------- bytes

  /** After a map, every byte of the range translates to the matching byte of the physical range exactly
      when the two addresses agree modulo the page size. */
  lemma MapTranslatesEveryByte(was: Tables, now: Tables, root: nat, virt: nat, phys: nat, size: nat, perms: Perms, b: nat)
    requires virt + size + PAGE <= WORD && size + 2 * PAGE <= VPNS * PAGE && phys + size + PAGE <= PHYS
    requires forall n: nat :: n < VPNS ==>
               Walk(now, root, n) ==
               MapAfter(Walk(was, root, n), n, virt / PAGE % VPNS, PageCount(virt, size), FirstPage(phys), perms)
    requires virt <= b < virt + size
    ensures VirtToPhys(now, root, b) == Some(phys + (b - virt)) <==> virt % PAGE == phys % PAGE
  {
    hide Walk;
    var d := b / PAGE - virt / PAGE;
    InRange(virt, size, b);
    var n, first := b / PAGE % VPNS, virt / PAGE % VPNS;
    assert Ahead(n, first) == d;
    assert FirstPage(phys) + d * PAGE < PHYS;
    assert Walk(now, root, n) == Small(FirstPage(phys) + d * PAGE, perms);
  }

  lemma InRange(virt: nat, size: nat, b: nat)
    requires virt + size + PAGE <= WORD && size + 2 * PAGE <= VPNS * PAGE && virt <= b < virt + size
    ensures 0 <= b / PAGE - virt / PAGE < PageCount(virt, size) < VPNS
    ensures (b / PAGE % VPNS - virt / PAGE % VPNS) % VPNS == b / PAGE - virt / PAGE
    ensures (b / PAGE - virt / PAGE) * PAGE <= size + PAGE - 1
  {
    var d := b / PAGE - virt / PAGE;
    assert EndPage(virt, size) == (virt + size + PAGE - 1) / PAGE * PAGE;
    WrapsAround(virt / PAGE, d);
  }

  lemma WrapsAround(first: nat, d: nat)
    requires d < VPNS
    ensures ((first + d) % VPNS - first % VPNS) % VPNS == d
  {}

  /** A 2 MiB page is translated as section 4.5 of the Intel SDM, volume 3A, prescribes (base in bits 51:21)
      exactly when bits 20:13 of its entry are clear, because the kernel masks the base at bit 13. Those bits
      are reserved, so the entries that fail are ones the processor rejects. */
  lemma MegaTranslatesIff(tables: Tables, root: nat, v: nat)
    requires Walk(tables, root, v / PAGE % VPNS).Mega?
    ensures var a := Walk(tables, root, v / PAGE % VPNS).addr;
            VirtToPhys(tables, root, v) == Some(a / 0x20_0000 * 0x20_0000 + v % 0x20_0000)
            <==> a % 0x20_0000 < 0x2000
  {
    MasksAgreeIff(Walk(tables, root, v / PAGE % VPNS).addr);
    hide Walk;
  }

  lemma MasksAgreeIff(a: nat)
    ensures a / 0x2000 * 0x2000 == a / 0x20_0000 * 0x20_0000 <==> a % 0x20_0000 < 0x2000
  {
    var q, m := a / 0x20_0000, a % 0x20_0000;
    assert a == q * 0x20_0000 + m;
    assert a / 0x2000 == q * 256 + m / 0x2000;
  }

  /** An entry with reserved bit 13 set, which the processor rejects, shifts every answer by 0x2000. */
  lemma ReservedBitShiftsAnswer(tables: Tables, root: nat, v: nat)
    requires Walk(tables, root, v / PAGE % VPNS) == Mega(0x2000)
    ensures VirtToPhys(tables, root, v) == Some(0x2000 + v % 0x20_0000)
  {
    hide Walk;
  }

  // ---------------------------------------------------------------- what the processor translates

  /** Bits 63:47 of a linear address are all equal. */
  predicate Canonical(v: nat) {
    v < 0x8000_0000_0000 || 0xFFFF_8000_0000_0000 <= v < WORD
  }

  /** Bits of a large page's entry between its PAT bit (12) and its base; an access through an entry that has
      one of them set faults. */
  predicate ReservedSet(addr: nat, size: nat)
    requires size > 0
  {
    addr % size >= 0x2000
  }

  /** Section 4.5 of the Intel SDM, volume 3A, for 52 physical address bits: bit 7 is reserved in level 4,
      makes a large page in levels 3 and 2, and selects a memory type (PAT) in level 1. */
  function Processor(tables: Tables, root: nat, v: nat): Option<nat> {
    var n := v / PAGE % VPNS;
    var e4 := Pdpt(tables, root, n);
    if !Canonical(v) || !e4.present || e4.huge then None
    else
      var e3 := Pd(tables, root, n);
      if !e3.present then None
      else if e3.huge then
        if ReservedSet(e3.addr, 0x4000_0000) then None
        else Some(e3.addr / 0x4000_0000 * 0x4000_0000 + v % 0x4000_0000)
      else
        var e2 := Pt(tables, root, n);
        if !e2.present then None
        else if e2.huge then
          if ReservedSet(e2.addr, 0x20_0000) then None else Some(e2.addr / 0x20_0000 * 0x20_0000 + v % 0x20_0000)
        else
          var e1 := Leaf(tables, root, n);
          if !e1.present then None else Some(e1.addr + v % PAGE)
  }

  /** A present level-1 entry with its PAT bit set. */
  predicate PatLeaf(tables: Tables, root: nat, n: nat) {
    HasPt(tables, root, n) && Leaf(tables, root, n).present && Leaf(tables, root, n).huge
  }

  /** A large page whose entry the processor rejects. */
  predicate Rejected(f: Found) {
    (f.Giga? && ReservedSet(f.addr, 0x4000_0000)) || (f.Mega? && ReservedSet(f.addr, 0x20_0000))
  }

  /**
   * vmm_virt_to_phys answers as the processor translates exactly when the walk does not end in a page with
   * the PAT bit, which the kernel takes for "huge", nor in a large page with reserved bits; for an address
   * that is not canonical, exactly when nothing is mapped where its low 48 bits lead.
   */
  lemma TranslatesAsProcessorIff(tables: Tables, root: nat, v: nat)
    ensures var n := v / PAGE % VPNS;
            VirtToPhys(tables, root, v) == Processor(tables, root, v) <==>
            if Canonical(v) then !PatLeaf(tables, root, n) && !Rejected(Walk(tables, root, n))
            else Walk(tables, root, n).Unmapped?
  {
    var n := v / PAGE % VPNS;
    hide Canonical, Entry, Ix4, Ix3, Ix2, Ix1;
    if Walk(tables, root, n).Mega? {
      MasksAgreeIff(Walk(tables, root, n).addr);
    }
  }

  /** A page mapped with the PAT bit is reported as unmapped, although the processor translates it. */
  lemma PatPageReadsAsUnmapped(frame: nat)
    ensures var leaf := Pte(true, true, frame * PAGE, Perms(false, false, false, false));
            var to := (t: nat) => Pte(true, false, t, Perms(true, true, false, false));
            var tables: Tables := map[0 := [to(1)], 1 := [to(2)], 2 := [to(3)], 3 := [leaf]];
            VirtToPhys(tables, 0, 5) == None && Processor(tables, 0, 5) == Some(frame * PAGE + 5)
  {}

  // ---------------------------------------------------------------- in terms of bytes

  /** Address `u` shares its page with a byte of the range. */
  ghost predicate Touched(u: nat, virt: nat, size: nat) {
    exists b: nat :: virt <= b < virt + size && SamePage(b, u)
  }

  predicate SamePage(b: nat, u: nat) {
    b / PAGE % VPNS == u / PAGE % VPNS
  }

  /** A byte in the page `k` pages after that of `virt`. */
  function ByteOfPage(virt: nat, k: nat): nat {
    if k == 0 then virt else (virt / PAGE + k) * PAGE
  }

  lemma ByteIsInRange(virt: nat, size: nat, k: nat)
    requires virt + size + PAGE <= WORD && size > 0 && k < PageCount(virt, size)
    ensures virt <= ByteOfPage(virt, k) < virt + size && ByteOfPage(virt, k) / PAGE == virt / PAGE + k
  {
    assert EndPage(virt, size) == (virt + size + PAGE - 1) / PAGE * PAGE;
  }

  lemma AheadIsOffset(first: nat, n: nat, k: nat)
    requires n < VPNS && k < VPNS && Ahead(n, first % VPNS) == k
    ensures (first + k) % VPNS == n
  {}

  /** The loops visit exactly the pages that hold a byte of the range. */
  lemma VisitedIffTouched(virt: nat, size: nat, u: nat)
    requires virt + size + PAGE <= WORD && 0 < size && size + 2 * PAGE <= VPNS * PAGE
    ensures Ahead(u / PAGE % VPNS, virt / PAGE % VPNS) < PageCount(virt, size) <==> Touched(u, virt, size)
  {
    var n, first := u / PAGE % VPNS, virt / PAGE;
    var k := Ahead(n, first % VPNS);
    if k < PageCount(virt, size) {
      ByteIsInRange(virt, size, k);
      AheadIsOffset(first, n, k);
      assert SamePage(ByteOfPage(virt, k), u);
    }
    if Touched(u, virt, size) {
      var b: nat :| virt <= b < virt + size && SamePage(b, u);
      InRange(virt, size, b);
    }
  }

  /** A request for no bytes still maps one page unless its address is aligned. */
  lemma EmptyRequestMapsAPage(virt: nat)
    requires virt + PAGE <= WORD
    ensures PageCount(virt, 0) == if virt % PAGE == 0 then 0 else 1
  {
    assert EndPage(virt, 0) == (virt + PAGE - 1) / PAGE * PAGE;
  }

  /** What vmm_map and vmm_unmap promise of the tables. */
  ghost predicate Mapped(was: Tables, now: Tables, root: nat, virt: nat, phys: nat, size: nat, perms: Perms) {
    forall n: nat :: n < VPNS ==>
      Walk(now, root, n) == MapAfter(Walk(was, root, n), n, virt / PAGE % VPNS, PageCount(virt, size), FirstPage(phys), perms)
  }

  ghost predicate Withdrawn(was: Tables, now: Tables, root: nat, virt: nat, size: nat) {
    forall n: nat :: n < VPNS ==>
      Walk(now, root, n) == UnmapAfter(Walk(was, root, n), n, virt / PAGE % VPNS, PageCount(virt, size))
  }

  /** After a map the processor itself reaches the matching byte of the physical range from every canonical
      address of the range, exactly when the two ranges agree modulo the page size. */
  lemma ProcessorReachesEveryByte(was: Tables, now: Tables, root: nat, virt: nat, phys: nat, size: nat, perms: Perms, b: nat)
    requires virt + size + PAGE <= WORD && size + 2 * PAGE <= VPNS * PAGE && phys + size + PAGE <= PHYS
    requires Mapped(was, now, root, virt, phys, size, perms) && virt <= b < virt + size && Canonical(b)
    ensures Processor(now, root, b) == Some(phys + (b - virt)) <==> virt % PAGE == phys % PAGE
  {
    var n := b / PAGE % VPNS;
    MapTranslatesEveryByte(was, now, root, virt, phys, size, perms, b);
    TranslatesAsProcessorIff(now, root, b);
    InRange(virt, size, b);
    assert Walk(now, root, n).Small?;
    SmallIsNoPat(now, root, n);
    hide Walk, Processor, VirtToPhys, Canonical, Mapped;
  }

  lemma SmallIsNoPat(tables: Tables, root: nat, n: nat)
    requires Walk(tables, root, n).Small?
    ensures !PatLeaf(tables, root, n) && !Rejected(Walk(tables, root, n))
  {
    hide Entry, Ix4, Ix3, Ix2, Ix1;
  }

  /** A byte keeps its translation unless it shares a page with the mapped range. */
  lemma MapKeepsOtherPages(was: Tables, now: Tables, root: nat, virt: nat, phys: nat, size: nat, perms: Perms, u: nat)
    requires virt + size + PAGE <= WORD && 0 < size && size + 2 * PAGE <= VPNS * PAGE
    requires Mapped(was, now, root, virt, phys, size, perms) && !Touched(u, virt, size)
    ensures VirtToPhys(now, root, u) == VirtToPhys(was, root, u)
  {
    VisitedIffTouched(virt, size, u);
    hide Walk, Touched, PageCount, Ahead;
    assert Walk(now, root, u / PAGE % VPNS) == Walk(was, root, u / PAGE % VPNS);
  }

  /** Mapping a range and then unmapping it, on the tables: every byte that shares a page with the range has no
      translation, every other byte the one it had before. */
  lemma UnmapUndoesMap(was: Tables, mid: Tables, now: Tables, root: nat, virt: nat, phys: nat, size: nat, perms: Perms, u: nat)
    requires virt + size + PAGE <= WORD && 0 < size && size + 2 * PAGE <= VPNS * PAGE
    requires Mapped(was, mid, root, virt, phys, size, perms) && Withdrawn(mid, now, root, virt, size)
    ensures VirtToPhys(now, root, u) == if Touched(u, virt, size) then None else VirtToPhys(was, root, u)
  {
    VisitedIffTouched(virt, size, u);
    hide Walk, Touched, PageCount, Ahead;
    var n := u / PAGE % VPNS;
    assert Walk(now, root, n)
        == UnmapAfter(MapAfter(Walk(was, root, n), n, virt / PAGE % VPNS, PageCount(virt, size), FirstPage(phys), perms),
                      n, virt / PAGE % VPNS, PageCount(virt, size));
  }

  // ---------------------------------------------------------------- permissions

  /** What an access through page `n` may do (section 4.6 of the Intel SDM, volume 3A): writing and user access
      need the bit in every entry on the way, execution the absence of NX in every entry. */
  datatype Rights = Rights(write: bool, user: bool, execute: bool)

  function Granted(tables: Tables, root: nat, n: nat): Rights {
    var a, b, c, d := Pdpt(tables, root, n).perms, Pd(tables, root, n).perms, Pt(tables, root, n).perms, Leaf(tables, root, n).perms;
    Rights(a.w && b.w && c.w && d.w, a.user && b.user && c.user && d.user, !a.nx && !b.nx && !c.nx && !d.nx)
  }

  lemma SmallIsLeaf(tables: Tables, root: nat, n: nat)
    requires Walk(tables, root, n).Small?
    ensures HasPt(tables, root, n) && Leaf(tables, root, n).perms == Walk(tables, root, n).perms
  {
    hide Entry, Ix4, Ix3, Ix2, Ix1;
  }

  /** After a map, the entry of every byte of the range carries exactly the four flags that were asked for. */
  lemma MapSetsFlags(was: Tables, now: Tables, root: nat, virt: nat, phys: nat, size: nat, flags: nat, b: nat)
    requires virt + size + PAGE <= WORD && size + 2 * PAGE <= VPNS * PAGE
    requires Mapped(was, now, root, virt, phys, size, Requested(flags)) && virt <= b < virt + size
    ensures var p := Leaf(now, root, b / PAGE % VPNS).perms;
            (p.w <==> Bit(flags, 1)) && (p.user <==> Bit(flags, 2)) && (p.pcd <==> Bit(flags, 4)) && (p.nx <==> Bit(flags, 63))
    ensures HasPt(now, root, b / PAGE % VPNS)
  {
    var n := b / PAGE % VPNS;
    InRange(virt, size, b);
    hide Bit;
    assert Walk(now, root, n).Small? && Walk(now, root, n).perms == Requested(flags);
    hide Walk, Mapped;
    SmallIsLeaf(now, root, n);
  }

  /** The processor grants what was asked and nothing more; all of it when no older table on the way
      restricts it. */
  lemma ProcessorGrantsFlags(was: Tables, now: Tables, root: nat, virt: nat, phys: nat, size: nat, flags: nat, b: nat)
    requires virt + size + PAGE <= WORD && size + 2 * PAGE <= VPNS * PAGE
    requires Mapped(was, now, root, virt, phys, size, Requested(flags)) && virt <= b < virt + size
    ensures var g := Granted(now, root, b / PAGE % VPNS);
            && (g.write ==> Bit(flags, 1)) && (g.user ==> Bit(flags, 2)) && (g.execute ==> !Bit(flags, 63))
            && (OpenPath(now, root, b / PAGE % VPNS) ==> g == Rights(Bit(flags, 1), Bit(flags, 2), !Bit(flags, 63)))
  {
    MapSetsFlags(was, now, root, virt, phys, size, flags, b);
    hide Bit, Mapped, Entry, Ix4, Ix3, Ix2, Ix1;
  }

  /** Pages that hold no byte of the range keep their entry's flags. */
  lemma MapKeepsOtherFlags(was: Tables, now: Tables, root: nat, virt: nat, phys: nat, size: nat, perms: Perms, u: nat)
    requires virt + size + PAGE <= WORD && 0 < size && size + 2 * PAGE <= VPNS * PAGE
    requires Mapped(was, now, root, virt, phys, size, perms) && !Touched(u, virt, size)
    requires Walk(was, root, u / PAGE % VPNS).Small?
    ensures HasPt(now, root, u / PAGE % VPNS)
    ensures Leaf(now, root, u / PAGE % VPNS).perms == Leaf(was, root, u / PAGE % VPNS).perms
  {
    var n := u / PAGE % VPNS;
    VisitedIffTouched(virt, size, u);
    hide Walk, Touched, PageCount, Ahead;
    assert Walk(now, root, n) == Walk(was, root, n);
    SmallIsLeaf(was, root, n);
    SmallIsLeaf(now, root, n);
  }
}

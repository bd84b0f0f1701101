/** Cycle-bit rings shared with an xHCI controller (src/drivers/usb_xhci_mouse.c:369-461).

A producer ring has 63 usable entries and a Link entry that toggles the consumer's cycle state
(sections 4.9.2 and 4.9.3 of the xHCI specification); an event ring has 64 entries and no link
(section 4.9.4). A push is three observable steps: the parameter words, the control word with the
cycle bit, and on wrap-around the Link entry.
*/
module Xhci {
  import opened Options
  import Division

  const RING_TRBS: nat := 64
  const LAP: nat := RING_TRBS - 1
  const EVT_TRBS: nat := 64

  const HIGH: nat := 0x1_0000_0000

  /** A control word before the cycle bit is added. */
  type Control = c: nat | c % 2 == 0

  /** What the driver pushes. */
  datatype Words = Words(p0: nat, p1: nat, p2: nat, ctl: Control)

  /** An entry in memory (section 4.11.1 of the xHCI specification): the control word holds the cycle bit in bit 0,
      the toggle flag of a Link entry in bit 1 and the type in bits 15:10. */
  datatype Trb = Trb(p0: nat, p1: nat, p2: nat, p3: nat) {
    function Cycle(): nat {
      p3 % 2
    }

    function Sent(): Words {
      Words(p0, p1, p2, p3 / 2 * 2)
    }

    predicate IsLink() {
      p3 / 1024 % 64 == LINK
    }

    predicate Toggles() {
      p3 / 2 % 2 == 1
    }
  }

  const LINK: nat := 6
  const ZERO := Trb(0, 0, 0, 0)

  /** Words with their cycle bit, as they lie in memory. */
  function Stored(w: Words, cycle: nat): Trb {
    Trb(w.p0, w.p1, w.p2, w.ctl + cycle % 2)
  }

  /** Words that are no Link entry. */
  predicate Plain(w: Words) {
    w.ctl / 1024 % 64 != LINK
  }

  lemma StoredMeans(w: Words, cycle: nat)
    requires cycle <= 1
    ensures Stored(w, cycle).Cycle() == cycle && Stored(w, cycle).Sent() == w
    ensures Stored(w, cycle).IsLink() <==> !Plain(w)
  {
    var h := w.ctl / 2;
    assert w.ctl == 2 * h;
    assert (2 * h + cycle) / 1024 == h / 512 && 2 * h / 1024 == h / 512;
  }

  /** The parameter words carry no cycle bit. */
  lemma BodyKeepsCycle(t: Trb, w: Words)
    ensures t.(p0 := w.p0, p1 := w.p1, p2 := w.p2).Cycle() == t.Cycle()
  {}

  lemma ControlCompletes(t: Trb, w: Words, cycle: nat)
    requires t.p0 == w.p0 && t.p1 == w.p1 && t.p2 == w.p2
    ensures t.(p3 := w.ctl + cycle % 2) == Stored(w, cycle)
  {}

  /** A Link entry back to the start of the ring at physical address `base`, with the toggle flag. */
  function LinkWords(base: nat): Words {
    Words(base % HIGH, base / HIGH, 0, LINK * 1024 + 2)
  }

  /** The slot of a ring at `base` that a Link entry points to. */
  function LinkTarget(base: nat, t: Trb): nat {
    var a := t.p1 * HIGH + t.p0;
    if a >= base then (a - base) / 16 else 0
  }

  /** What the stored Link words are to the controller: a Link entry that toggles and points to slot 0. */
  lemma LinkMeans(base: nat, cycle: nat)
    requires cycle <= 1
    ensures var t := Stored(LinkWords(base), cycle);
            t.Cycle() == cycle && t.IsLink() && t.Toggles() && LinkTarget(base, t) == 0
  {
    assert base == base / HIGH * HIGH + base % HIGH;
  }

  // ---------------------------------------------------------------- producer ring

  datatype Phase = Ready | Body(w: Words) | LinkDue

  /** Ring memory, the driver's enqueue state, the controller's dequeue state, and two history variables. */
  datatype State = State(base: nat, slots: seq<Trb>, enq: nat, cycle: nat, phase: Phase, deq: nat, ccs: nat,
                         pushed: seq<Words>, consumed: seq<Words>)

  datatype Step = PushBody(w: Words) | PushCtl | PushLink | Consume

  /** The ring after allocation: zeroed memory, both sides at entry 0 with cycle 1. */
  function Start(base: nat): State {
    State(base, seq(RING_TRBS, _ => ZERO), 0, 1, Ready, 0, 1, [], [])
  }

  /** The driver leaves one push in flight at a time, and at most 62 entries unconsumed; it pushes no Link entry
      of its own. */
  predicate Enabled(s: State, step: Step) {
    match step
    case PushBody(w) => Plain(w) && s.phase.Ready? && |s.pushed| - |s.consumed| < RING_TRBS - 2
    case PushCtl => s.phase.Body?
    case PushLink => s.phase.LinkDue?
    case Consume => true
  }

  function Flip(c: nat): nat {
    if c == 0 then 1 else 0
  }

  function Next(s: State, step: Step): State {
    match step
    case PushBody(w) =>
      if s.enq < |s.slots| then
        s.(slots := s.slots[s.enq := s.slots[s.enq].(p0 := w.p0, p1 := w.p1, p2 := w.p2)], phase := Body(w))
      else s
    case PushCtl =>
      if s.phase.Body? && s.enq < |s.slots| then
        s.(slots := s.slots[s.enq := s.slots[s.enq].(p3 := s.phase.w.ctl + s.cycle % 2)], pushed := s.pushed + [s.phase.w],
           enq := s.enq + 1, phase := if s.enq + 1 >= RING_TRBS - 1 then LinkDue else Ready)
      else s
    case PushLink =>
      if |s.slots| == RING_TRBS then
        s.(slots := s.slots[RING_TRBS - 1 := Stored(LinkWords(s.base), s.cycle)], enq := 0, cycle := Flip(s.cycle), phase := Ready)
      else s
    case Consume =>
      if s.deq >= |s.slots| then s
      else
        var t := s.slots[s.deq];
        if t.Cycle() != s.ccs then s
        else if t.IsLink() then s.(deq := LinkTarget(s.base, t), ccs := if t.Toggles() then Flip(s.ccs) else s.ccs)
        else s.(consumed := s.consumed + [t.Sent()], deq := s.deq + 1)
  }

  // Entry k of the pushed sequence lives in slot k mod 63, in lap k div 63.

  function Slot(k: nat): nat {
    k % LAP
  }

  function Laps(k: nat): nat {
    k / LAP
  }

  /** Cycle bit of the k-th pushed entry: 1 in the first lap, then alternating. */
  function Bit(k: nat): nat {
    (Laps(k) + 1) % 2
  }

  lemma LapStep(k: nat)
    ensures Slot(k) < LAP && k == LAP * Laps(k) + Slot(k)
    ensures Slot(k + 1) == if Slot(k) == LAP - 1 then 0 else Slot(k) + 1
    ensures Laps(k + 1) == if Slot(k) == LAP - 1 then Laps(k) + 1 else Laps(k)
    ensures Slot(k + LAP) == Slot(k) && Laps(k + LAP) == Laps(k) + 1
  {
  }

  lemma SlotFacts(k: nat)
    ensures Slot(k) < LAP && (Bit(k) == 0 || Bit(k) == 1)
    ensures Slot(k + 1) == if Slot(k) == LAP - 1 then 0 else Slot(k) + 1
    ensures Laps(k + 1) == if Slot(k) == LAP - 1 then Laps(k) + 1 else Laps(k)
    ensures Bit(k + 1) == if Slot(k) == LAP - 1 then Flip(Bit(k)) else Bit(k)
    ensures Slot(k + LAP) == Slot(k) && Bit(k + LAP) == 1 - Bit(k)
    ensures Bit(k) == (Laps(k) + 1) % 2
    ensures k > 0 && Slot(k) == 0 ==> Laps(k) > 0 && Slot(k - 1) == LAP - 1
  {
    LapStep(k);
    if k > 0 {
      LapStep(k - 1);
    }
    hide Slot;
    hide Laps;
  }

  lemma SlotsDiffer(j: nat, k: nat)
    requires j < k < j + LAP
    ensures Slot(j) != Slot(k)
  {
  }

  lemma LapsClose(c: nat, p: nat)
    requires Slot(c) == 0 && c <= p < c + LAP
    ensures Laps(p) == Laps(c)
  {
  }

  /** How often the Link entry has been written. */
  function LinksWritten(s: State): int {
    if s.phase.LinkDue? then Laps(|s.pushed|) - 1 else Laps(|s.pushed|)
  }

  ghost predicate Bounds(s: State) {
    && |s.slots| == RING_TRBS && s.consumed <= s.pushed && |s.pushed| <= |s.consumed| + RING_TRBS - 2
    && (s.phase.Body? ==> |s.pushed| < |s.consumed| + RING_TRBS - 2)
  }

  /** The parameter words of the push in flight are in place. */
  ghost predicate BodyPlaced(s: State) {
    s.phase.Body? ==>
      var w := s.phase.w;
      Plain(w) && s.enq < |s.slots| && s.slots[s.enq].p0 == w.p0 && s.slots[s.enq].p1 == w.p1 && s.slots[s.enq].p2 == w.p2
  }

  ghost predicate DriverAt(s: State) {
    var p := |s.pushed|;
    if s.phase.LinkDue? then p > 0 && Slot(p) == 0 && s.enq == LAP && s.cycle == Bit(p - 1)
    else s.enq == Slot(p) && s.cycle == Bit(p)
  }

  /** The controller is at the next entry, or still at the Link entry before it. */
  ghost predicate ControllerAt(s: State) {
    var c := |s.consumed|;
    || (s.deq == Slot(c) && s.ccs == Bit(c))
    || (s.deq == LAP && c > 0 && Slot(c) == 0 && s.ccs == Bit(c - 1))
  }

  /** Entries not yet consumed are in place with their cycle bit. */
  ghost predicate Unread(s: State)
    requires |s.slots| == RING_TRBS
  {
    forall k :: |s.consumed| <= k < |s.pushed| ==> 
      Slot(k) < LAP && Plain(s.pushed[k]) && s.slots[Slot(k)] == Stored(s.pushed[k], Bit(k))
  }

  /** Every free entry shows the bit of the previous lap. */
  ghost predicate Vacant(s: State)
    requires |s.slots| == RING_TRBS
  {
    forall j :: |s.pushed| <= j < |s.consumed| + LAP ==> Slot(j) < LAP && s.slots[Slot(j)].Cycle() == 1 - Bit(j)
  }

  /** The Link entry shows the last lap that was closed. */
  ghost predicate LinkShown(s: State)
    requires |s.slots| == RING_TRBS
  {
    if LinksWritten(s) > 0 then s.slots[LAP] == Stored(LinkWords(s.base), LinksWritten(s) % 2) else s.slots[LAP].Cycle() == 0
  }

  ghost predicate Inv(s: State) {
    Bounds(s) && DriverAt(s) && BodyPlaced(s) && ControllerAt(s) && Unread(s) && Vacant(s) && LinkShown(s)
  }

  lemma StartInv(base: nat)
    ensures Inv(Start(base))
  {
    var s := Start(base);
    assert s.slots[LAP] == ZERO;
  }

  lemma BodyKeepsInv(s: State, w: Words)
    requires Inv(s) && Enabled(s, PushBody(w))
    ensures Inv(Next(s, PushBody(w)))
  {
    hide LinkTarget, LinkWords, Stored, Plain, Trb.Cycle, Trb.IsLink, Trb.Toggles, Trb.Sent;
    hide Slot;
    hide Laps;
    hide Bit;
    var p := |s.pushed|;
    SlotFacts(p);
    BodyKeepsCycle(s.slots[s.enq], w);
    forall k | |s.consumed| <= k < p ensures Slot(k) != s.enq {
      SlotsDiffer(k, p);
    }
  }

  lemma CtlKeepsInv(s: State)
    requires Inv(s) && Enabled(s, PushCtl)
    ensures Inv(Next(s, PushCtl))
  {
    hide LinkTarget, LinkWords, Stored, Plain, Trb.Cycle, Trb.IsLink, Trb.Toggles, Trb.Sent;
    hide Slot;
    hide Laps;
    hide Bit;
    var n, p := Next(s, PushCtl), |s.pushed|;
    SlotFacts(p);
    ControlCompletes(s.slots[s.enq], s.phase.w, s.cycle);
    forall k | |s.consumed| <= k < p ensures Slot(k) != s.enq && n.pushed[k] == s.pushed[k] {
      SlotsDiffer(k, p);
    }
    forall j | p + 1 <= j < |s.consumed| + LAP ensures Slot(j) != s.enq {
      SlotsDiffer(p, j);
    }
  }

  lemma LinkKeepsInv(s: State)
    requires Inv(s) && Enabled(s, PushLink)
    ensures Inv(Next(s, PushLink))
  {
    hide LinkTarget, LinkWords, Stored, Plain, Trb.Cycle, Trb.IsLink, Trb.Toggles, Trb.Sent;
    hide Slot;
    hide Laps;
    hide Bit;
    var p := |s.pushed|;
    SlotFacts(p);
    SlotFacts(p - 1);
  }

  lemma ReadLink(s: State)
    requires Inv(s) && s.deq == LAP
    ensures Inv(Next(s, Consume))
  {
    hide LinkTarget, LinkWords, Stored, Plain, Trb.Cycle, Trb.IsLink, Trb.Toggles, Trb.Sent;
    hide Slot;
    hide Laps;
    hide Bit;
    var p, c := |s.pushed|, |s.consumed|;
    if LinksWritten(s) > 0 {
      LinkMeans(s.base, LinksWritten(s) % 2);
    }
    SlotFacts(c);
    SlotFacts(c - 1);
    LapsClose(c, p);
  }

  lemma ReadEntry(s: State)
    requires Inv(s) && s.deq != LAP
    ensures Inv(Next(s, Consume))
  {
    hide LinkTarget, LinkWords, Stored, Plain, Trb.Cycle, Trb.IsLink, Trb.Toggles, Trb.Sent;
    hide Slot;
    hide Laps;
    hide Bit;
    var n, p, c := Next(s, Consume), |s.pushed|, |s.consumed|;
    SlotFacts(c);
    if c < p {
      StoredMeans(s.pushed[c], Bit(c));
      assert s.slots[Slot(c)] == Stored(s.pushed[c], Bit(c));
      assert n.consumed == s.pushed[..c + 1];
      assert n.slots == s.slots && n.pushed == s.pushed && n.phase == s.phase;
      assert LinkShown(n) && DriverAt(n);
      assert Vacant(n);
    } else {
      assert s.slots[Slot(c)].Cycle() == 1 - Bit(c);
      assert n == s;
    }
  }

  lemma ConsumeKeepsInv(s: State)
    requires Inv(s)
    ensures Inv(Next(s, Consume))
  {
    if s.deq == LAP {
      ReadLink(s);
    } else {
      ReadEntry(s);
    }
  }

  lemma StepKeepsInv(s: State, step: Step)
    requires Inv(s) && Enabled(s, step)
    ensures Inv(Next(s, step))
  {
    match step
    case PushBody(w) => BodyKeepsInv(s, w);
    case PushCtl => CtlKeepsInv(s);
    case PushLink => LinkKeepsInv(s);
    case Consume => ConsumeKeepsInv(s);
  }

  function Run(s: State, steps: seq<Step>): State {
    if steps == [] then s else Next(Run(s, steps[..|steps| - 1]), steps[|steps| - 1])
  }

  predicate RunOk(s: State, steps: seq<Step>) {
    steps == [] || (RunOk(s, steps[..|steps| - 1]) && Enabled(Run(s, steps[..|steps| - 1]), steps[|steps| - 1]))
  }

  lemma {:induction false} RunKeepsInv(base: nat, steps: seq<Step>)
    requires RunOk(Start(base), steps)
    ensures Inv(Run(Start(base), steps))
  {
    hide Inv, Next, Enabled;
    if steps == [] {
      StartInv(base);
    } else {
      RunKeepsInv(base, steps[..|steps| - 1]);
      StepKeepsInv(Run(Start(base), steps[..|steps| - 1]), steps[|steps| - 1]);
    }
  }

  /** One or two reads of the controller yield the next pushed entry; with nothing unread, none. */
  lemma NextReadIsNextEntry(s: State)
    requires Inv(s)
    ensures |s.consumed| < |s.pushed| ==>
              var n := Next(s, Consume);
              var want := s.pushed[..|s.consumed| + 1];
              n.consumed == want || Next(n, Consume).consumed == want
    ensures |s.consumed| == |s.pushed| ==> Next(s, Consume).consumed == s.consumed
  {
    hide LinkTarget, LinkWords, Stored, Plain, Trb.Cycle, Trb.IsLink, Trb.Toggles, Trb.Sent;
    hide Slot;
    hide Laps;
    hide Bit;
    var p, c := |s.pushed|, |s.consumed|;
    SlotFacts(c);
    if c > 0 {
      SlotFacts(c - 1);
    }
    if LinksWritten(s) > 0 {
      LinkMeans(s.base, LinksWritten(s) % 2);
    }
    if s.deq == LAP {
      LapsClose(c, p);
      if s.phase.LinkDue? {
        SlotFacts(p);
        SlotsApart(c, p);
      }
    }
    if c < p {
      StoredMeans(s.pushed[c], Bit(c));
      assert s.slots[Slot(c)] == Stored(s.pushed[c], Bit(c));
      assert s.pushed[..c + 1] == s.consumed + [s.pushed[c]];
    } else {
      assert s.slots[Slot(c)].Cycle() == 1 - Bit(c);
    }
  }

  lemma SlotsApart(c: nat, p: nat)
    requires Slot(c) == 0 && Slot(p) == 0 && c <= p < c + LAP
    ensures c == p
  {
  }

  /** Over every run the controller has read exactly a prefix of what was pushed, in order: no stale,
      skipped or torn entry, across any number of wraps; and it is never stuck. */
  lemma RingIsFifo(base: nat, steps: seq<Step>)
    requires RunOk(Start(base), steps)
    ensures var s := Run(Start(base), steps);
            && s.consumed <= s.pushed
            && (|s.consumed| < |s.pushed| ==>
                  var n := Next(s, Consume);
                  var want := s.pushed[..|s.consumed| + 1];
                  n.consumed == want || Next(n, Consume).consumed == want)
  {
    RunKeepsInv(base, steps);
    NextReadIsNextEntry(Run(Start(base), steps));
    ReadsArePrefix(Run(Start(base), steps));
    hide Run, Next, Inv;
  }

  lemma ReadsArePrefix(s: State)
    requires Inv(s)
    ensures s.consumed <= s.pushed
  {}

  /** One complete push. */
  function Pushed(s: State, w: Words): State {
    var t := Next(Next(s, PushBody(w)), PushCtl);
    if t.phase.LinkDue? then Next(t, PushLink) else t
  }

  /** The bound of 62 unread entries is tight: a 63rd, pushed while the controller waits at the Link
      entry, rewrites that entry with the other cycle bit and strands the controller. */
  lemma OneMoreStrandsController(s: State, w: Words)
    requires Inv(s) && s.phase.Ready? && s.deq == LAP && |s.pushed| == |s.consumed| + RING_TRBS - 2
    ensures var n := Pushed(s, w); |n.consumed| < |n.pushed| && Next(n, Consume) == n
  {
    hide LinkTarget, LinkWords, Stored, Plain, Trb.Cycle, Trb.IsLink, Trb.Toggles, Trb.Sent;
    hide Slot;
    hide Laps;
    hide Bit;
    var p, c := |s.pushed|, |s.consumed|;
    SlotFacts(c);
    SlotFacts(c - 1);
    SlotFacts(p);
    LapsClose(c, p);
    LinkMeans(s.base, s.cycle);
    LastSlot(c, p);
  }

  lemma LastSlot(c: nat, p: nat)
    requires Slot(c) == 0 && p == c + LAP - 1
    ensures Slot(p) == LAP - 1
  {
  }

  /** `s` is the state of some run that keeps within the bound. */
  ghost predicate Reachable(base: nat, s: State) {
    exists steps :: RunOk(Start(base), steps) && Run(Start(base), steps) == s
  }

  lemma StartIsReachable(base: nat)
    ensures Reachable(base, Start(base)) && Inv(Start(base))
  {
    StartInv(base);
    assert RunOk(Start(base), []) && Run(Start(base), []) == Start(base);
  }

  lemma ReachStep(base: nat, s: State, step: Step)
    requires Reachable(base, s) && Inv(s) && Enabled(s, step)
    ensures Reachable(base, Next(s, step)) && Inv(Next(s, step))
  {
    StepKeepsInv(s, step);
    hide Next, Enabled, Inv;
    var steps :| RunOk(Start(base), steps) && Run(Start(base), steps) == s;
    var more := steps + [step];
    assert more[..|more| - 1] == steps;
    assert RunOk(Start(base), more) && Run(Start(base), more) == Next(s, step);
  }

  /** A reachable state with the driver between two pushes. */
  ghost predicate Poised(base: nat, s: State, pushed: nat, consumed: nat, deq: nat) {
    Reachable(base, s) && Inv(s) && s.phase.Ready? && |s.pushed| == pushed && |s.consumed| == consumed && s.deq == deq
  }

  lemma ReachPush(base: nat, s: State, w: Words, p: nat, c: nat, d: nat)
    requires Poised(base, s, p, c, d) && p - c < RING_TRBS - 2 && Plain(w)
    ensures Poised(base, Pushed(s, w), p + 1, c, d)
  {
    var t1 := Next(s, PushBody(w));
    var t2 := Next(t1, PushCtl);
    hide Reachable, LinkWords, LinkTarget, Slot, Laps, Bit, Unread, Vacant, LinkShown, ControllerAt;
    ReachStep(base, s, PushBody(w));
    SlotFacts(p);
    ReachStep(base, t1, PushCtl);
    if t2.phase.LinkDue? {
      ReachStep(base, t2, PushLink);
    }
  }

  lemma {:induction false} ReachPushes(base: nat, s: State, w: Words, p: nat, c: nat, d: nat, n: nat) returns (t: State)
    requires Poised(base, s, p, c, d) && p + n - c <= RING_TRBS - 2 && Plain(w)
    ensures Poised(base, t, p + n, c, d)
    decreases n
  {
    hide Poised, Pushed;
    t := s;
    if n > 0 {
      t := ReachPushes(base, s, w, p, c, d, n - 1);
      ReachPush(base, t, w, p + n - 1, c, d);
      t := Pushed(t, w);
    }
  }

  /** The controller reads an entry of the first lap. */
  lemma ReachRead(base: nat, s: State, p: nat, c: nat)
    requires Poised(base, s, p, c, c) && c < p && c < LAP
    ensures Poised(base, Next(s, Consume), p, c + 1, c + 1)
  {
    ReachStep(base, s, Consume);
    ReadMoves(s);
    hide Reachable, Inv, Next;
  }

  lemma ReadMoves(s: State)
    requires Inv(s) && s.deq != LAP && |s.consumed| < |s.pushed|
    ensures var c := |s.consumed|;
            Next(s, Consume) == s.(consumed := s.consumed + [s.pushed[c]], deq := s.deq + 1)
  {
    var c := |s.consumed|;
    SlotFacts(c);
    hide LinkWords, LinkTarget, Stored, Plain, Trb.Cycle, Trb.IsLink, Trb.Toggles, Trb.Sent, Slot, Laps, Bit;
    StoredMeans(s.pushed[c], Bit(c));
    assert s.slots[Slot(c)] == Stored(s.pushed[c], Bit(c));
  }

  lemma {:induction false} ReachReads(base: nat, s: State, p: nat, c: nat, n: nat) returns (t: State)
    requires Poised(base, s, p, c, c) && c + n <= p && c + n <= LAP
    ensures Poised(base, t, p, c + n, c + n)
    decreases n
  {
    hide Poised, Next;
    t := s;
    if n > 0 {
      t := ReachReads(base, s, p, c, n - 1);
      ReachRead(base, t, p, c + n - 1);
      t := Next(t, Consume);
    }
  }

  ghost predicate Stranded(base: nat, s: State, w: Words) {
    && Reachable(base, s)
    && var n := Pushed(s, w);
       |n.consumed| < |n.pushed| && Next(n, Consume) == n
  }

  /** Such a state is reached by driver and controller keeping to the bound: 62 pushes, one read, a push that
      closes the lap, 62 reads up to the Link entry, and 62 pushes. */
  lemma StrandingIsReachable(base: nat, w: Words)
    requires Plain(w)
    ensures exists s :: Stranded(base, s, w)
  {
    hide Reachable, Pushed, Next;
    StartIsReachable(base);
    var a := ReachPushes(base, Start(base), w, 0, 0, 0, 62);
    var b := ReachReads(base, a, 62, 0, 1);
    var c := ReachPushes(base, b, w, 62, 1, 1, 1);
    var d := ReachReads(base, c, 63, 1, 62);
    var e := ReachPushes(base, d, w, 63, 63, LAP, 62);
    OneMoreStrandsController(e, w);
    hide Inv;
    assert Stranded(base, e, w);
  }

  /** cmd_push, ep0_push and int_push: the same code on three rings. */
  class ProducerRing {
    const phys: nat
    const ring: array<Trb>
    var enq: nat
    var cycle: nat

    ghost predicate Valid()
      reads this, ring
    {
      ring.Length == RING_TRBS && enq < RING_TRBS - 1 && cycle <= 1
    }

    /** The driver's half of the state. */
    ghost function View(): State
      reads this, ring
    {
      State(phys, ring[..], enq, cycle, Ready, 0, 0, [], [])
    }

    constructor (phys: nat)
      ensures Valid() && fresh(ring)
      ensures View() == Start(phys).(deq := 0, ccs := 0)
    {
      this.phys := phys;
      ring := new Trb[RING_TRBS](_ => ZERO);
      enq, cycle := 0, 1;
      new;
      assert ring[..] == Start(phys).slots;
    }

    method PutLink(at: nat, c: nat)
      requires at < ring.Length && c <= 1
      modifies ring
      ensures ring[..] == old(ring[..])[at := Stored(LinkWords(phys), c)]
      ensures ring[at].Cycle() == c && ring[at].IsLink() && ring[at].Toggles() && LinkTarget(phys, ring[at]) == 0
    {
      LinkMeans(phys, c);
      ring[at] := ring[at].(p0 := phys % HIGH, p1 := phys / HIGH, p2 := 0);
      ring[at] := ring[at].(p3 := LINK * 1024 + 2 + c % 2);
    }

    method Push(w: Words)
      requires Valid()
      modifies this, ring
      ensures Valid()
      ensures var t := Pushed(old(View()), w); ring[..] == t.slots && enq == t.enq && cycle == t.cycle
    {
      ring[enq] := ring[enq].(p0 := w.p0, p1 := w.p1, p2 := w.p2);
      ring[enq] := ring[enq].(p3 := w.ctl + cycle % 2);
      enq := enq + 1;
      if enq >= RING_TRBS - 1 {
        PutLink(RING_TRBS - 1, cycle);
        enq := 0;
        cycle := Flip(cycle);
      }
    }
  }

  // ---------------------------------------------------------------- event ring

  /** Ring memory written by the controller, the driver's dequeue state, and two history variables. */
  datatype Events = Events(slots: seq<Trb>, deq: nat, cycle: nat, posted: seq<Words>, handled: seq<Words>)

  function EventStart(): Events {
    Events(seq(EVT_TRBS, _ => ZERO), 0, 1, [], [])
  }

  function EventSlot(k: nat): nat {
    k % EVT_TRBS
  }

  function EventBit(k: nat): nat {
    (k / EVT_TRBS + 1) % 2
  }

  lemma EventFacts(k: nat)
    ensures EventSlot(k) < EVT_TRBS && (EventBit(k) == 0 || EventBit(k) == 1)
    ensures EventSlot(k + 1) == if EventSlot(k) == EVT_TRBS - 1 then 0 else EventSlot(k) + 1
    ensures EventBit(k + 1) == if EventSlot(k) == EVT_TRBS - 1 then Flip(EventBit(k)) else EventBit(k)
    ensures EventSlot(k + EVT_TRBS) == EventSlot(k) && EventBit(k + EVT_TRBS) == 1 - EventBit(k)
  {
    var q, r := k / EVT_TRBS, k % EVT_TRBS;
    Division.DivModBack(k, EVT_TRBS);
    Division.DivMod(q + 1, r, EVT_TRBS);
    if r < EVT_TRBS - 1 {
      Division.DivMod(q, r + 1, EVT_TRBS);
    } else {
      Division.DivMod(q + 1, 0, EVT_TRBS);
    }
    assert (q + 1) * EVT_TRBS == q * EVT_TRBS + EVT_TRBS;
    BitsAlternate(q);
  }

  lemma BitsAlternate(q: nat)
    ensures (q + 1) % 2 == 1 - q % 2 && (q + 2) % 2 == q % 2
  {}

  lemma EventSlotsDiffer(j: nat, k: nat)
    requires j < k < j + EVT_TRBS
    ensures EventSlot(j) != EventSlot(k)
  {
  }

  /** The controller posts an event; it never overruns entries the driver has not released. */
  function Post(s: Events, w: Words): Events
    requires |s.slots| == EVT_TRBS
  {
    EventFacts(|s.posted|);
    s.(slots := s.slots[EventSlot(|s.posted|) := Stored(w, EventBit(|s.posted|))], posted := s.posted + [w])
  }

  /** The driver looks at its entry and, if the cycle bit matches, handles it and advances. */
  function Handle(s: Events): Events {
    if s.deq < |s.slots| && s.slots[s.deq].Cycle() == s.cycle then
      var last := s.deq + 1 >= EVT_TRBS;
      s.(handled := s.handled + [s.slots[s.deq].Sent()], deq := if last then 0 else s.deq + 1,
         cycle := if last then Flip(s.cycle) else s.cycle)
    else s
  }

  ghost predicate EventInv(s: Events) {
    var p, c := |s.posted|, |s.handled|;
    && |s.slots| == EVT_TRBS && s.handled <= s.posted && p <= c + EVT_TRBS
    && s.deq == EventSlot(c) && s.cycle == EventBit(c)
    && (forall k :: c <= k < p ==> EventSlot(k) < EVT_TRBS && s.slots[EventSlot(k)] == Stored(s.posted[k], EventBit(k)))
    && (forall j :: p <= j < c + EVT_TRBS ==> EventSlot(j) < EVT_TRBS && s.slots[EventSlot(j)].Cycle() == 1 - EventBit(j))
  }

  lemma EventStartInv()
    ensures EventInv(EventStart())
  {
  }

  lemma PostKeepsInv(s: Events, w: Words)
    requires EventInv(s) && |s.posted| < |s.handled| + EVT_TRBS
    ensures EventInv(Post(s, w))
  {
    hide EventSlot;
    hide EventBit;
    var p := |s.posted|;
    EventFacts(p);
    StoredMeans(w, EventBit(p));
    hide Stored, Trb.Cycle, Trb.Sent;
    forall k | |s.handled| <= k < p ensures EventSlot(k) != EventSlot(p) {
      EventSlotsDiffer(k, p);
    }
    forall j | p < j < |s.handled| + EVT_TRBS ensures EventSlot(j) != EventSlot(p) {
      EventSlotsDiffer(p, j);
    }
  }

  /** Handling takes exactly the next posted event, or none when all are handled. */
  lemma HandleKeepsInv(s: Events)
    requires EventInv(s)
    ensures EventInv(Handle(s))
    ensures Handle(s).handled == if |s.handled| < |s.posted| then s.posted[..|s.handled| + 1] else s.handled
  {
    hide EventSlot;
    hide EventBit, Stored, Trb.Cycle, Trb.Sent;
    var p, c := |s.posted|, |s.handled|;
    EventFacts(c);
    if c < p {
      StoredMeans(s.posted[c], EventBit(c));
      assert s.slots[EventSlot(c)] == Stored(s.posted[c], EventBit(c));
      assert s.posted[..c + 1] == s.handled + [s.posted[c]];
    } else {
      assert s.slots[EventSlot(c)].Cycle() == 1 - EventBit(c);
    }
  }

  /** One move of either side. */
  datatype Turn = Posts(w: Words) | Reads

  function EventRun(turns: seq<Turn>): (s: Events)
    ensures |s.slots| == EVT_TRBS
  {
    if turns == [] then EventStart()
    else
      var s := EventRun(turns[..|turns| - 1]);
      match turns[|turns| - 1]
      case Posts(w) => Post(s, w)
      case Reads => Handle(s)
  }

  predicate NoOverrun(turns: seq<Turn>) {
    turns == [] ||
    (NoOverrun(turns[..|turns| - 1]) &&
     var s := EventRun(turns[..|turns| - 1]);
     turns[|turns| - 1].Posts? ==> |s.posted| < |s.handled| + EVT_TRBS)
  }

  /** Over every run of posts without overrun and driver reads, the driver handles exactly the posted
      events, in order. */
  lemma {:induction false} EventsAreFifo(turns: seq<Turn>)
    requires NoOverrun(turns)
    ensures EventInv(EventRun(turns)) && EventRun(turns).handled <= EventRun(turns).posted
  {
    if turns == [] {
      EventStartInv();
    } else {
      EventsAreFifo(turns[..|turns| - 1]);
      var s := EventRun(turns[..|turns| - 1]);
      match turns[|turns| - 1]
      case Posts(w) => PostKeepsInv(s, w);
      case Reads => HandleKeepsInv(s);
    }
  }

  // ---------------------------------------------------------------- waiting for an event

  /** The four words of an event entry, the last one without its cycle bit. */
  datatype Event = Event(e0: nat, e1: nat, e2: nat, e3: nat) {
    function Kind(): nat {
      e3 / 1024 % 64
    }

    function Source(): nat {
      e1 * HIGH + e0
    }

    function Code(): nat {
      e2 / 0x100_0000 % 256
    }
  }

  predicate Wanted(e: Event, kind: nat, source: nat) {
    e.Kind() == kind && (source == 0 || e.Source() == source)
  }

  /** What the caller gets: a completion code and the words of the event, or a timeout. */
  datatype Answer = Answer(code: nat, event: Option<Event>)

  function Found(e: Event): Answer {
    Answer(if e.Code() != 0 then e.Code() else 0xfe, Some(e))
  }

  const TIMEOUT := Answer(0xff, None)

  /** An event as the controller writes it (section 6.4.2 of the xHCI specification): a pointer, a completion code
      above 24 bits of parameter, and the type in bits 15:10 of the last word. */
  function Written(pointer: nat, code: nat, parameter: nat, high: nat, kind: nat, low: nat): Event {
    Event(pointer % HIGH, pointer / HIGH, code * 0x100_0000 + parameter, high * 0x1_0000 + kind * 1024 + low)
  }

  /** The loop wants exactly the events of the type it waits for, from the entry it waits for if it names one, and
      answers with their completion code, 0xfe standing for 0. */
  lemma EventIsUnderstood(pointer: nat, code: nat, parameter: nat, high: nat, kind: nat, low: nat, k: nat, source: nat)
    requires code < 256 && parameter < 0x100_0000 && kind < 64 && low < 1024
    ensures var e := Written(pointer, code, parameter, high, kind, low);
            && (Wanted(e, k, source) <==> kind == k && (source == 0 || source == pointer))
            && Found(e) == Answer(if code == 0 then 0xfe else code, Some(e))
  {
    var e := Written(pointer, code, parameter, high, kind, low);
    assert e.Source() == pointer;
    assert (high * 0x1_0000 + kind * 1024 + low) / 1024 == high * 64 + kind;
    assert (high * 64 + kind) % 64 == kind;
    assert (code * 0x100_0000 + parameter) / 0x100_0000 == code;
  }

  /**
   * What wait_event answers when `pending` events are in the ring and the controller posts `news[t]` before
   * poll t, for as many polls as the budget allows: the first wanted event, if it is reached in time; and the
   * events left in the ring.
   */
  function Await(pending: seq<Event>, news: seq<seq<Event>>, kind: nat, source: nat): (Answer, seq<Event>)
    decreases |news|
  {
    if news == [] then (TIMEOUT, pending)
    else
      var q := pending + news[0];
      if q == [] then Await(q, news[1..], kind, source)
      else if Wanted(q[0], kind, source) then (Found(q[0]), q[1..])
      else Await(q[1..], news[1..], kind, source)
  }

  /** The ring has room for everything the controller posts until the answer. */
  predicate Fits(pending: seq<Event>, news: seq<seq<Event>>, kind: nat, source: nat)
    decreases |news|
  {
    news == [] ||
    var q := pending + news[0];
    && |q| <= EVT_TRBS
    && (q == [] || !Wanted(q[0], kind, source) ==> Fits(if q == [] then [] else q[1..], news[1..], kind, source))
  }

  /** A controller that posts at most one event between two polls never runs out of room. */
  lemma {:induction false} OneAtATimeFits(pending: seq<Event>, news: seq<seq<Event>>, kind: nat, source: nat)
    requires |pending| < EVT_TRBS && forall t :: 0 <= t < |news| ==> |news[t]| <= 1
    ensures Fits(pending, news, kind, source)
    decreases |news|
  {
    hide Wanted;
    if news != [] {
      var q := pending + news[0];
      OneAtATimeFits(if q == [] then [] else q[1..], news[1..], kind, source);
    }
  }

  /** Everything that arrives, in order. */
  function Stream(pending: seq<Event>, news: seq<seq<Event>>): seq<Event>
    decreases |news|
  {
    if news == [] then pending else Stream(pending + news[0], news[1..])
  }

  lemma {:induction false} StreamStartsWith(pending: seq<Event>, news: seq<seq<Event>>)
    ensures pending <= Stream(pending, news)
    decreases |news|
  {
    if news != [] {
      StreamStartsWith(pending + news[0], news[1..]);
    }
  }

  lemma {:induction false} StreamTail(pending: seq<Event>, news: seq<seq<Event>>)
    requires pending != []
    ensures Stream(pending, news) == [pending[0]] + Stream(pending[1..], news)
    decreases |news|
  {
    if news != [] {
      StreamTail(pending + news[0], news[1..]);
      assert (pending + news[0])[1..] == pending[1..] + news[0];
    }
  }

  /**
   * Whatever arrives while waiting: an answer is the first wanted event of everything that arrives, so no
   * wanted event is skipped; a timeout means that no wanted event was taken.
   */
  lemma {:induction false} AnswerIsFirstWanted(pending: seq<Event>, news: seq<seq<Event>>, kind: nat, source: nat) returns (taken: nat)
    ensures var all, r := Stream(pending, news), Await(pending, news, kind, source);
            && taken <= |all|
            && (forall i :: 0 <= i < taken ==> !Wanted(all[i], kind, source))
            && (r.0.event.Some? ==> taken < |all| && Wanted(all[taken], kind, source) && r.0 == Found(all[taken]))
            && (r.0.event.None? ==> r.0 == TIMEOUT && r.1 == all[taken..])
    decreases |news|
  {
    hide Wanted;
    taken := 0;
    if news != [] {
      var q := pending + news[0];
      StreamStartsWith(q, news[1..]);
      assert Stream(pending, news) == Stream(q, news[1..]);
      if q == [] {
        taken := AnswerIsFirstWanted(q, news[1..], kind, source);
      } else if !Wanted(q[0], kind, source) {
        var rest := AnswerIsFirstWanted(q[1..], news[1..], kind, source);
        StreamTail(q, news[1..]);
        taken := rest + 1;
        var all := Stream(q[1..], news[1..]);
        hide Stream, Await;
        assert ([q[0]] + all)[taken..] == all[rest..];
        assert forall i :: 0 < i < taken ==> ([q[0]] + all)[i] == all[i - 1];
      }
    }
  }

  /** What has arrived by poll `j`. */
  function ArrivedBy(pending: seq<Event>, news: seq<seq<Event>>, j: nat): seq<Event>
    requires j < |news|
  {
    Stream(pending, news[..j + 1])
  }

  lemma ArrivedStep(pending: seq<Event>, news: seq<seq<Event>>, j: nat)
    requires j < |news|
    ensures j == 0 ==> ArrivedBy(pending, news, j) == pending + news[0]
    ensures j > 0 ==> ArrivedBy(pending, news, j) == ArrivedBy(pending + news[0], news[1..], j - 1)
  {
    assert news[..j + 1][0] == news[0];
    assert news[..j + 1][1..] == news[1..][..j];
    if j == 0 {
      assert Stream(pending + news[0], []) == pending + news[0];
    }
  }

  /** What is in the ring at a poll has all arrived by any later one. */
  lemma ArrivedStartsWith(pending: seq<Event>, news: seq<seq<Event>>, j: nat)
    requires j < |news|
    ensures pending <= ArrivedBy(pending, news, j)
  {
    StreamStartsWith(pending, news[..j + 1]);
  }

  lemma ArrivedTail(pending: seq<Event>, news: seq<seq<Event>>, j: nat)
    requires j < |news| && pending != []
    ensures ArrivedBy(pending, news, j) == [pending[0]] + ArrivedBy(pending[1..], news, j)
  {
    StreamTail(pending, news[..j + 1]);
  }

  /**
   * The loop does not miss what it waits for: if the first wanted event is behind `k` others and has arrived by poll
   * `j`, the budget of j + k + 1 polls is enough to answer with it.
   */
  lemma {:induction false} WantedIsAnswered(pending: seq<Event>, news: seq<seq<Event>>, kind: nat, source: nat, j: nat, k: nat)
    requires j + k < |news| && k < |ArrivedBy(pending, news, j)|
    requires Wanted(ArrivedBy(pending, news, j)[k], kind, source)
    requires forall i :: 0 <= i < k ==> !Wanted(ArrivedBy(pending, news, j)[i], kind, source)
    ensures Await(pending, news, kind, source).0 == Found(ArrivedBy(pending, news, j)[k])
    decreases |news|
  {
    hide Wanted, Found, Stream;
    var q, all := pending + news[0], ArrivedBy(pending, news, j);
    ArrivedStep(pending, news, j);
    if j > 0 {
      ArrivedStartsWith(q, news[1..], j - 1);
    }
    hide ArrivedBy;
    assert q <= all;
    if q == [] {
      WantedIsAnswered(q, news[1..], kind, source, j - 1, k);
    } else if k > 0 {
      assert !Wanted(q[0], kind, source);
      var i := if j == 0 then 0 else j - 1;
      RestArrived(q, news[1..], j, all, k);
      WantedIsAnswered(q[1..], news[1..], kind, source, i, k - 1);
    }
  }

  /** After the first event is taken, the others are still on their way. */
  lemma RestArrived(q: seq<Event>, rest: seq<seq<Event>>, j: nat, all: seq<Event>, k: nat)
    requires q != [] && 0 < k < |all| && j + k <= |rest| && q <= all
    requires if j == 0 then all == q else j - 1 < |rest| && all == ArrivedBy(q, rest, j - 1)
    ensures var i := if j == 0 then 0 else j - 1;
            && i < |rest| && k - 1 < |ArrivedBy(q[1..], rest, i)|
            && forall n :: 0 <= n < k ==> ArrivedBy(q[1..], rest, i)[n] == all[n + 1]
  {
    hide Stream;
    if j == 0 {
      ArrivedStartsWith(q[1..], rest, 0);
      hide ArrivedBy;
      assert forall n :: 0 <= n < |q| - 1 ==> q[1..][n] == q[n + 1];
    } else {
      ArrivedTail(q, rest, j - 1);
    }
  }

  /** The position and the cycle bit `n` entries after (deq, cycle). */
  function SlotAfter(deq: nat, n: nat): (k: nat)
    ensures k < EVT_TRBS
  {
    (deq + n) % EVT_TRBS
  }

  function BitAfter(deq: nat, cycle: nat, n: nat): int {
    if deq + n < EVT_TRBS then cycle else 1 - cycle
  }

  /** From the dequeue position on: the pending events with matching bits, then entries that do not match. */
  ghost predicate Holds(ring: seq<(Event, nat)>, deq: nat, cycle: nat, pending: seq<Event>) {
    && |ring| == EVT_TRBS && deq < EVT_TRBS && cycle <= 1 && |pending| <= EVT_TRBS
    && (forall i: nat :: i < |pending| ==> ring[SlotAfter(deq, i)] == (pending[i], BitAfter(deq, cycle, i)))
    && (forall i: nat :: |pending| <= i < EVT_TRBS ==> ring[SlotAfter(deq, i)].1 == 1 - BitAfter(deq, cycle, i))
  }

  /** The dequeue position moves past one entry, which then counts as one that does not match. */
  lemma HoldsAdvance(ring: seq<(Event, nat)>, deq: nat, cycle: nat, pending: seq<Event>)
    requires Holds(ring, deq, cycle, pending) && pending != []
    ensures Holds(ring, SlotAfter(deq, 1), if deq + 1 < EVT_TRBS then cycle else 1 - cycle, pending[1..])
  {
    hide SlotAfter, BitAfter;
    var d, c, rest := SlotAfter(deq, 1), if deq + 1 < EVT_TRBS then cycle else 1 - cycle, pending[1..];
    forall i: nat | i < |rest|
      ensures ring[SlotAfter(d, i)] == (rest[i], BitAfter(d, c, i))
    {
      Shifted(deq, cycle, i);
    }
    forall i: nat | |rest| <= i < EVT_TRBS
      ensures ring[SlotAfter(d, i)].1 == 1 - BitAfter(d, c, i)
    {
      Shifted(deq, cycle, i);
    }
  }

  /** One entry further on, entry `i` was entry `i + 1`; the last one was the first. */
  lemma Shifted(deq: nat, cycle: nat, i: nat)
    requires deq < EVT_TRBS && cycle <= 1 && i < EVT_TRBS
    ensures var d, c := SlotAfter(deq, 1), if deq + 1 < EVT_TRBS then cycle else 1 - cycle;
            && SlotAfter(d, i) < EVT_TRBS
            && (i + 1 < EVT_TRBS ==> SlotAfter(d, i) == SlotAfter(deq, i + 1) && BitAfter(d, c, i) == BitAfter(deq, cycle, i + 1))
            && (i + 1 == EVT_TRBS ==> SlotAfter(d, i) == SlotAfter(deq, 0) && BitAfter(d, c, i) == 1 - BitAfter(deq, cycle, 0))
  {}

  lemma HoldsPost(ring: seq<(Event, nat)>, deq: nat, cycle: nat, pending: seq<Event>, e: Event)
    requires Holds(ring, deq, cycle, pending) && |pending| < EVT_TRBS
    ensures Holds(ring[SlotAfter(deq, |pending|) := (e, BitAfter(deq, cycle, |pending|))], deq, cycle, pending + [e])
  {
    hide SlotAfter, BitAfter;
    var n := |pending|;
    forall i: nat | i < EVT_TRBS && i != n
      ensures SlotAfter(deq, i) < EVT_TRBS && SlotAfter(deq, i) != SlotAfter(deq, n)
    {
      SlotsAfterDiffer(deq, i, n);
    }
  }

  lemma SlotsAfterDiffer(deq: nat, i: nat, n: nat)
    requires deq < EVT_TRBS && i < EVT_TRBS && n < EVT_TRBS && i != n
    ensures SlotAfter(deq, i) < EVT_TRBS && SlotAfter(deq, i) != SlotAfter(deq, n)
  {}

  class EventRing {
    const phys: nat
    const ring: array<(Event, nat)>
    var deq: nat
    var cycle: nat
    /** The dequeue pointer register, with the busy flag written to clear it. */
    var erdp: nat
    /** The controller's producer position and cycle state. */
    var enq: nat
    var pcs: nat
    ghost var pending: seq<Event>

    ghost predicate Valid()
      reads this, ring
    {
      && ring.Length == EVT_TRBS && phys % 16 == 0 && Holds(ring[..], deq, cycle, pending)
      && enq == SlotAfter(deq, |pending|) && pcs == BitAfter(deq, cycle, |pending|)
    }

    constructor (phys: nat)
      requires phys % 16 == 0
      ensures Valid() && fresh(ring) && pending == []
    {
      this.phys := phys;
      ring := new (Event, nat)[EVT_TRBS](_ => (Event(0, 0, 0, 0), 0));
      deq, cycle, erdp, enq, pcs, pending := 0, 1, phys, 0, 1, [];
    }

    /** The controller posts one event. */
    method Post(e: Event)
      requires Valid() && |pending| < EVT_TRBS
      modifies ring, this`enq, this`pcs, this`pending
      ensures Valid() && pending == old(pending) + [e]
    {
      HoldsPost(ring[..], deq, cycle, pending, e);
      NextPlace(deq, cycle, |pending|);
      hide Holds;
      ring[enq] := (e, pcs);
      enq := enq + 1;
      if enq >= EVT_TRBS {
        enq := 0;
        pcs := 1 - pcs;
      }
      pending := pending + [e];
    }

    /** evt_advance after a handled event: position, cycle state and the register. */
    method Advance()
      requires Valid() && pending != []
      modifies this
      ensures Valid() && pending == old(pending)[1..]
      ensures deq == SlotAfter(old(deq), 1) && erdp == phys + deq * 16 + 8
    {
      HoldsAdvance(ring[..], deq, cycle, pending);
      SamePlace(deq, cycle, |pending|);
      hide Holds;
      deq := deq + 1;
      if deq >= EVT_TRBS {
        deq := 0;
        cycle := 1 - cycle;
      }
      erdp := phys + deq * 16 + 8;
      pending := pending[1..];
    }

    /** The controller posts several events. */
    method PostAll(es: seq<Event>)
      requires Valid() && |pending| + |es| <= EVT_TRBS
      modifies ring, this`enq, this`pcs, this`pending
      ensures Valid() && pending == old(pending) + es
    {
      hide Holds;
      for i := 0 to |es|
        invariant Valid() && pending == old(pending) + es[..i]
      {
        Post(es[i]);
      }
    }

    /** wait_event, while the controller posts `news[t]` before poll t. */
    method WaitEvent(kind: nat, source: nat, news: seq<seq<Event>>) returns (answer: Answer)
      requires Valid() && Fits(pending, news, kind, source)
      modifies this, ring
      ensures Valid()
      ensures (answer, pending) == Await(old(pending), news, kind, source)
    {
      hide Holds, Wanted, Found, Await, Fits;
      var t := 0;
      assert news[0..] == news;
      while t < |news|
        invariant t <= |news| && Valid() && Fits(pending, news[t..], kind, source)
        invariant Await(pending, news[t..], kind, source) == Await(old(pending), news, kind, source)
      {
        AwaitStep(pending, news, t, kind, source);
        PostAll(news[t]);
        FirstEntry(ring[..], deq, cycle, pending);
        var (e, c) := ring[deq];
        if c == cycle {
          if Wanted(e, kind, source) {
            Advance();
            return Found(e);
          }
          Advance();
        }
        t := t + 1;
      }
      AwaitNone(pending, news[t..], kind, source);
      return TIMEOUT;
    }
  }

  /** The entry at the dequeue position matches exactly when something is pending. */
  lemma FirstEntry(ring: seq<(Event, nat)>, deq: nat, cycle: nat, pending: seq<Event>)
    requires Holds(ring, deq, cycle, pending)
    ensures |ring| == EVT_TRBS && deq < EVT_TRBS
    ensures ring[deq].1 == cycle <==> pending != []
    ensures pending != [] ==> ring[deq].0 == pending[0]
  {
    assert SlotAfter(deq, 0) == deq && BitAfter(deq, cycle, 0) == cycle;
  }

  lemma NextPlace(deq: nat, cycle: nat, n: nat)
    requires deq < EVT_TRBS && cycle <= 1 && n < EVT_TRBS
    ensures SlotAfter(deq, n) < EVT_TRBS && 0 <= BitAfter(deq, cycle, n) <= 1
    ensures SlotAfter(deq, n + 1) == if SlotAfter(deq, n) + 1 >= EVT_TRBS then 0 else SlotAfter(deq, n) + 1
    ensures BitAfter(deq, cycle, n + 1)
         == if SlotAfter(deq, n) + 1 >= EVT_TRBS then 1 - BitAfter(deq, cycle, n) else BitAfter(deq, cycle, n)
  {}

  lemma SamePlace(deq: nat, cycle: nat, n: nat)
    requires deq < EVT_TRBS && cycle <= 1 && 0 < n <= EVT_TRBS
    ensures var d, c := SlotAfter(deq, 1), if deq + 1 < EVT_TRBS then cycle else 1 - cycle;
            SlotAfter(d, n - 1) == SlotAfter(deq, n) && BitAfter(d, c, n - 1) == BitAfter(deq, cycle, n)
            && d == if deq + 1 >= EVT_TRBS then 0 else deq + 1
  {}

  /** One poll. */
  lemma AwaitStep(pending: seq<Event>, news: seq<seq<Event>>, t: nat, kind: nat, source: nat)
    requires t < |news| && Fits(pending, news[t..], kind, source)
    ensures var q := pending + news[t];
            && |q| <= EVT_TRBS
            && (q == [] || !Wanted(q[0], kind, source) ==> Fits(if q == [] then [] else q[1..], news[t + 1..], kind, source))
            && Await(pending, news[t..], kind, source)
            == if q == [] then Await(q, news[t + 1..], kind, source)
               else if Wanted(q[0], kind, source) then (Found(q[0]), q[1..])
               else Await(q[1..], news[t + 1..], kind, source)
  {
    hide Wanted, Found;
    assert news[t..][1..] == news[t + 1..];
  }

  lemma AwaitNone(pending: seq<Event>, news: seq<seq<Event>>, kind: nat, source: nat)
    requires news == []
    ensures Await(pending, news, kind, source) == (TIMEOUT, pending)
  {}

  // ---------------------------------------------------------------- one event ring, seen twice

  /** The entries posted and not yet handled. */
  function Unhandled(s: Events): seq<Words> {
    if |s.handled| <= |s.posted| then s.posted[|s.handled|..] else []
  }

  function EventOf(w: Words): Event {
    Event(w.p0, w.p1, w.p2, w.ctl)
  }

  function EventsOf(ws: seq<Words>): (es: seq<Event>)
    ensures |es| == |ws| && forall i :: 0 <= i < |ws| ==> es[i] == EventOf(ws[i])
  {
    seq(|ws|, i requires 0 <= i < |ws| => EventOf(ws[i]))
  }

  /** Ring memory as the waiting loop reads it. */
  function Memory(slots: seq<Trb>): (ring: seq<(Event, nat)>)
    ensures |ring| == |slots| && forall i :: 0 <= i < |slots| ==> ring[i] == (EventOf(slots[i].Sent()), slots[i].Cycle())
  {
    seq(|slots|, i requires 0 <= i < |slots| => (EventOf(slots[i].Sent()), slots[i].Cycle()))
  }

  /** Entry `c + i` of the whole history is the entry `i` places after entry `c`. */
  lemma PlacesAgree(c: nat, i: nat)
    requires i < EVT_TRBS
    ensures EventSlot(c + i) == SlotAfter(EventSlot(c), i)
    ensures EventBit(c + i) == BitAfter(EventSlot(c), EventBit(c), i)
  {
    var q, r := c / EVT_TRBS, c % EVT_TRBS;
    Division.DivModBack(c, EVT_TRBS);
    if r + i < EVT_TRBS {
      Division.DivMod(q, r + i, EVT_TRBS);
    } else {
      assert (q + 1) * EVT_TRBS == q * EVT_TRBS + EVT_TRBS;
      Division.DivMod(q + 1, r + i - EVT_TRBS, EVT_TRBS);
      BitsAlternate(q + 1);
    }
  }

  /** Whatever the history machine reaches is a ring in the sense of the waiting loop, and its pending events
      are those posted and not handled. */
  lemma HistoryIsRing(s: Events)
    requires EventInv(s)
    ensures Holds(Memory(s.slots), s.deq, s.cycle, EventsOf(Unhandled(s)))
  {
    var p, c := |s.posted|, |s.handled|;
    EventFacts(c);
    hide EventSlot, EventBit, SlotAfter, BitAfter, Stored, Trb.Cycle, Trb.Sent;
    forall i: nat | i < p - c
      ensures Memory(s.slots)[SlotAfter(s.deq, i)] == (EventsOf(Unhandled(s))[i], BitAfter(s.deq, s.cycle, i))
    {
      PlacesAgree(c, i);
      EventFacts(c + i);
      StoredMeans(s.posted[c + i], EventBit(c + i));
      assert s.slots[EventSlot(c + i)] == Stored(s.posted[c + i], EventBit(c + i));
    }
    forall i: nat | p - c <= i < EVT_TRBS
      ensures Memory(s.slots)[SlotAfter(s.deq, i)].1 == 1 - BitAfter(s.deq, s.cycle, i)
    {
      PlacesAgree(c, i);
      assert s.slots[EventSlot(c + i)].Cycle() == 1 - EventBit(c + i);
    }
  }

  /** Over every run without overrun, the two views move together: the ring of the history machine holds the
      unhandled events, a post appends to them and a read takes the first. */
  lemma RunIsRing(turns: seq<Turn>)
    requires NoOverrun(turns)
    ensures var s := EventRun(turns);
            && Holds(Memory(s.slots), s.deq, s.cycle, EventsOf(Unhandled(s)))
            && (forall w :: Unhandled(Post(s, w)) == Unhandled(s) + [w])
            && Unhandled(Handle(s)) == if Unhandled(s) == [] then [] else Unhandled(s)[1..]
  {
    var s := EventRun(turns);
    EventsAreFifo(turns);
    hide EventRun, NoOverrun, EventInv, Holds, Handle, Unhandled, Post, Memory, EventsOf;
    HistoryIsRing(s);
    ReadTakesFirst(s);
    forall w ensures Unhandled(Post(s, w)) == Unhandled(s) + [w] {
      PostAppends(s, w);
    }
  }

  lemma PostAppends(s: Events, w: Words)
    requires EventInv(s)
    ensures Unhandled(Post(s, w)) == Unhandled(s) + [w]
  {
    hide Stored, EventSlot, EventBit;
    EventFacts(|s.posted|);
  }

  lemma ReadTakesFirst(s: Events)
    requires EventInv(s)
    ensures Unhandled(Handle(s)) == if Unhandled(s) == [] then [] else Unhandled(s)[1..]
  {
    HandleKeepsInv(s);
    HandleKeepsPosted(s);
    hide Handle, EventInv;
    assert s.handled <= s.posted by {
      HandledFirst(s);
    }
  }

  lemma HandledFirst(s: Events)
    requires EventInv(s)
    ensures s.handled <= s.posted
  {}

  lemma HandleKeepsPosted(s: Events)
    ensures Handle(s).posted == s.posted
  {}
}

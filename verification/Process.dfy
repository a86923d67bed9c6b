/** The process table: creation, round-robin dispatch, exit and the transitive kill. */
module Process {

  datatype State = Free | Ready | Running | Blocked | Zombie

  /** One slot; `ctx` says that the saved context has a nonzero stack pointer and program counter. */
  datatype Slot = Slot(state: State, pid: int, parent: int, ctx: bool)

  /** The table has 16 slots (MAX_PROCESSES); `current` is a slot index, -1 while the kernel runs. */
  datatype Table = Table(slots: seq<Slot>, current: int, nextPid: int)

  predicate Live(s: Slot) { s.state != Free }

  /** What holds of the table at every point of every run. */
  ghost predicate Inv(t: Table) {
    && |t.slots| == 16 && -1 <= t.current < 16 && 1 <= t.nextPid
    && (forall i :: 0 <= i < 16 && t.slots[i].state == Running ==> i == t.current)
    && (t.current >= 0 ==> t.slots[t.current].state == Running || t.slots[t.current].state == Ready)
    && (forall i :: 0 <= i < 16 && Live(t.slots[i]) ==>
          i < t.slots[i].pid < t.nextPid && t.slots[i].parent < t.slots[i].pid)
    && (forall i, j :: 0 <= i < j < 16 && Live(t.slots[i]) && Live(t.slots[j]) ==> t.slots[i].pid != t.slots[j].pid)
  }

  function Init(): (t: Table)
    ensures Inv(t)
  {
    Table(seq(16, _ => Slot(Free, 0, 0, false)), -1, 1)
  }

  // Creation

  /** The lowest free slot from `i` on, -1 when the table is full. */
  function FreeSlot(t: Table, i: nat): (s: int)
    requires i <= |t.slots|
    ensures s == -1 || i <= s < |t.slots|
    ensures s >= 0 ==> t.slots[s].state == Free
    ensures forall j :: i <= j < (if s < 0 then |t.slots| else s) ==> Live(t.slots[j])
    decreases |t.slots| - i
  {
    if i == |t.slots| then -1 else if t.slots[i].state == Free then i else FreeSlot(t, i + 1)
  }

  /** A successful `process_create`: the pid counter is drawn from twice and the parent is a slot index. */
  function Create(t: Table): (r: (Table, int))
    requires |t.slots| == 16
  {
    var s := FreeSlot(t, 0);
    if s < 0 then (t, -1) else
    (Table(t.slots[s := Slot(Ready, t.nextPid + 1, t.current, true)], t.current, t.nextPid + 2), t.nextPid + 1)
  }

  lemma CreateKeepsInv(t: Table)
    requires Inv(t)
    ensures Inv(Create(t).0)
  {
    var s := FreeSlot(t, 0);
    if s >= 0 {
      assert s > 0 ==> Live(t.slots[s - 1]);
    }
  }

  /**
   * A create fails exactly when every slot is taken. Otherwise the lowest free slot, and no other, becomes
   * READY with the current slot as its stored parent and a pid greater than every live one.
   */
  lemma CreateMeans(t: Table)
    requires Inv(t)
    ensures
      var (r, pid) := Create(t);
      && (pid == -1 <==> forall i :: 0 <= i < 16 ==> Live(t.slots[i]))
      && (pid == -1 ==> r == t)
      && (pid != -1 ==>
            && r.current == t.current && pid < r.nextPid
            && (forall i :: 0 <= i < 16 && Live(t.slots[i]) ==> t.slots[i].pid < pid)
            && exists s :: 0 <= s < 16 && !Live(t.slots[s]) && (forall j :: 0 <= j < s ==> Live(t.slots[j]))
                 && r.slots == t.slots[s := Slot(Ready, pid, t.current, true)])
  {
  }

  // Dispatching

  function CyclicIndex(t: Table, i: nat): (idx: nat)
    requires -1 <= t.current < 16
    ensures idx < 16
  {
    (t.current + 1 + i) % 16
  }

  /** The first READY slot, in cyclic order after the current one, from step `i` on. */
  function NextReady(t: Table, i: nat): (s: int)
    requires |t.slots| == 16 && -1 <= t.current < 16
    ensures -1 <= s < 16
    decreases 16 - i
  {
    if i >= 16 then -1
    else if t.slots[CyclicIndex(t, i)].state == Ready then CyclicIndex(t, i)
    else NextReady(t, i + 1)
  }

  function SwitchTo(t: Table, next: nat): Table
    requires |t.slots| == 16 && -1 <= t.current < 16 && next < 16
  {
    var parked := if t.current >= 0 && t.slots[t.current].state == Running
      then t.slots[t.current := t.slots[t.current].(state := Ready)] else t.slots;
    t.(slots := parked[next := parked[next].(state := Running)], current := next)
  }

  /** `process_schedule` */
  function Schedule(t: Table): Table
    requires |t.slots| == 16 && -1 <= t.current < 16
  {
    var next := NextReady(t, 0);
    if next < 0 then
      if t.current >= 0 && t.slots[t.current].state != Running then t.(current := -1) else t
    else if next == t.current then
      t.(slots := t.slots[next := t.slots[next].(state := Running)])
    else SwitchTo(t, next)
  }

  /** The first half of `process_yield`; a timer interrupt may come before the second half. */
  function MarkReady(t: Table): Table
    requires |t.slots| == 16 && -1 <= t.current < 16
  {
    if t.current < 0 then t else t.(slots := t.slots[t.current := t.slots[t.current].(state := Ready)])
  }

  function CountReady(slots: seq<Slot>): (n: nat)
  {
    if slots == [] then 0 else
    (if slots[0].state == Ready || slots[0].state == Running then 1 else 0) + CountReady(slots[1..])
  }

  /** The slot the interrupt handler settles on: contexts that are not valid are skipped. */
  function IrqPick(t: Table, i: nat): (s: int)
    requires |t.slots| == 16 && -1 <= t.current < 16
    ensures -1 <= s < 16
    decreases 16 - i
  {
    if i >= 16 then -1 else
    var idx := CyclicIndex(t, i);
    if t.slots[idx].state != Ready then IrqPick(t, i + 1)
    else if idx == t.current then -1
    else if !t.slots[idx].ctx then IrqPick(t, i + 1)
    else idx
  }

  /** `process_schedule_from_irq` */
  function ScheduleFromIrq(t: Table): Table
    requires |t.slots| == 16 && -1 <= t.current < 16
  {
    var n := CountReady(t.slots);
    if (t.current >= 0 && n <= 1) || (t.current < 0 && n == 0) then t else
    var next := IrqPick(t, 0);
    if next < 0 then t else SwitchTo(t, next)
  }

  lemma {:induction false} NextReadyIs(t: Table, i: nat)
    requires |t.slots| == 16 && -1 <= t.current < 16
    ensures NextReady(t, i) >= 0 ==> t.slots[NextReady(t, i)].state == Ready
    ensures NextReady(t, i) < 0 ==> forall j: nat :: i <= j < 16 ==> t.slots[CyclicIndex(t, j)].state != Ready
    decreases 16 - i
  {
    if i < 16 {
      NextReadyIs(t, i + 1);
    }
  }

  lemma {:induction false} IrqPickIs(t: Table, i: nat)
    requires |t.slots| == 16 && -1 <= t.current < 16
    ensures IrqPick(t, i) >= 0 ==>
      t.slots[IrqPick(t, i)].state == Ready && IrqPick(t, i) != t.current && t.slots[IrqPick(t, i)].ctx
    decreases 16 - i
  {
    if i < 16 {
      IrqPickIs(t, i + 1);
    }
  }

  lemma SwitchKeepsInv(t: Table, next: nat)
    requires Inv(t) && next < 16 && t.slots[next].state == Ready
    ensures Inv(SwitchTo(t, next))
  {
    var r := SwitchTo(t, next);
    assert forall i :: 0 <= i < 16 ==> r.slots[i].(state := t.slots[i].state) == t.slots[i];
    assert forall i :: 0 <= i < 16 ==> Live(r.slots[i]) == Live(t.slots[i]);
  }

  lemma StateChangeKeepsInv(t: Table, i: nat, st: State)
    requires Inv(t) && i < 16 && Live(t.slots[i]) && i == t.current && (st == Ready || st == Running)
    ensures Inv(t.(slots := t.slots[i := t.slots[i].(state := st)]))
  {
    var r := t.(slots := t.slots[i := t.slots[i].(state := st)]);
    assert forall i :: 0 <= i < 16 ==> r.slots[i].(state := t.slots[i].state) == t.slots[i];
    assert forall i :: 0 <= i < 16 ==> Live(r.slots[i]) == Live(t.slots[i]);
  }

  lemma DispatchKeepsInv(t: Table)
    requires Inv(t)
    ensures Inv(Schedule(t)) && Inv(MarkReady(t)) && Inv(ScheduleFromIrq(t))
  {
    hide SwitchTo, NextReady, IrqPick, CountReady;
    NextReadyIs(t, 0);
    IrqPickIs(t, 0);
    if t.current >= 0 {
      StateChangeKeepsInv(t, t.current, Ready);
      StateChangeKeepsInv(t, t.current, Running);
    }
    if NextReady(t, 0) >= 0 {
      SwitchKeepsInv(t, NextReady(t, 0));
    }
    if IrqPick(t, 0) >= 0 {
      SwitchKeepsInv(t, IrqPick(t, 0));
    }
  }

  // What the steps do

  /** When slot `s` has its turn, counting from the slot behind the current one; the current one is last. */
  function Turn(t: Table, s: int): int { if s > t.current then s - t.current - 1 else s + 15 - t.current }

  lemma TurnOf(t: Table, i: nat)
    requires -1 <= t.current < 16 && i < 16
    ensures Turn(t, CyclicIndex(t, i)) == i
  {
  }

  lemma {:induction false} NextReadyFirst(t: Table, i: nat)
    requires |t.slots| == 16 && -1 <= t.current < 16 && i <= 16
    ensures
      var r := NextReady(t, i);
      && (r >= 0 ==> Turn(t, r) >= i && t.slots[r].state == Ready)
      && forall j :: 0 <= j < 16 && t.slots[j].state == Ready && Turn(t, j) >= i ==> r >= 0 && Turn(t, r) <= Turn(t, j)
    decreases 16 - i
  {
    if i < 16 {
      NextReadyFirst(t, i + 1);
      TurnOf(t, i);
    }
  }

  /** Slot `s` now runs, a slot that was running is READY, and nothing else has changed. */
  ghost predicate Switched(t: Table, s: nat, r: Table)
    requires |t.slots| == 16
  {
    && s < 16 && |r.slots| == 16 && r.current == s && r.nextPid == t.nextPid && r.slots[s] == t.slots[s].(state := Running)
    && forall j :: 0 <= j < 16 && j != s ==>
         r.slots[j] == if j == t.current && t.slots[j].state == Running then t.slots[j].(state := Ready) else t.slots[j]
  }

  /**
   * Scheduling switches to the READY slot whose turn comes first. Without any, a running process goes
   * on, and one that is not returns to the kernel.
   */
  lemma ScheduleMeans(t: Table, s: nat)
    requires Inv(t) && s < 16
    ensures t.slots[s].state == Ready && (forall j :: 0 <= j < 16 && t.slots[j].state == Ready ==> Turn(t, s) <= Turn(t, j)) ==>
      Switched(t, s, Schedule(t))
    ensures (forall j :: 0 <= j < 16 ==> t.slots[j].state != Ready) ==>
      Schedule(t) == if t.current >= 0 && t.slots[t.current].state == Running then t else t.(current := -1)
  {
    hide NextReady;
    NextReadyFirst(t, 0);
  }

  /** A slot that the timer may switch to. */
  predicate Eligible(t: Table, s: int) {
    0 <= s < |t.slots| && s != t.current && t.slots[s].state == Ready && t.slots[s].ctx
  }

  lemma {:induction false} IrqPickFirst(t: Table, i: nat)
    requires |t.slots| == 16 && -1 <= t.current < 16 && i <= 16
    ensures
      var r := IrqPick(t, i);
      && (r >= 0 ==> Turn(t, r) >= i && Eligible(t, r))
      && forall j :: Eligible(t, j) && Turn(t, j) >= i ==> r >= 0 && Turn(t, r) <= Turn(t, j)
    decreases 16 - i
  {
    if i < 16 {
      IrqPickFirst(t, i + 1);
      TurnOf(t, i);
    }
  }

  /**
   * A timer interrupt switches to the slot whose turn comes first among those that are READY with a valid
   * context and not the current one; without any it changes nothing.
   */
  lemma IrqMeans(t: Table, s: nat)
    requires Inv(t) && s < 16
    ensures Eligible(t, s) && (forall j :: Eligible(t, j) ==> Turn(t, s) <= Turn(t, j)) ==>
      Switched(t, s, ScheduleFromIrq(t))
    ensures (forall j :: !Eligible(t, j)) ==> ScheduleFromIrq(t) == t
  {
    hide IrqPick, CountReady;
    IrqPickFirst(t, 0);
    if Eligible(t, s) {
      ReadyEnough(t, s);
    }
  }

  /** Marking makes the current process READY and changes nothing else. */
  lemma MarkMeans(t: Table)
    requires Inv(t)
    ensures
      var r := MarkReady(t);
      && |r.slots| == 16 && r.current == t.current && r.nextPid == t.nextPid
      && forall j :: 0 <= j < 16 ==> r.slots[j] == if j == t.current then t.slots[j].(state := Ready) else t.slots[j]
  {
  }

  // Fairness

  /** How many slots ahead of the current one `s` is, in dispatch order. */
  function Distance(t: Table, s: nat): (d: nat)
    requires -1 <= t.current < 16 && s < 16
    ensures 1 <= d <= 16 && CyclicIndex(t, d - 1) == s
  {
    (s - t.current - 1) % 16 + 1
  }

  lemma {:induction false} NextReadyWithin(t: Table, i: nat, d: nat)
    requires |t.slots| == 16 && -1 <= t.current < 16 && i <= d < 16 && t.slots[CyclicIndex(t, d)].state == Ready
    ensures exists k: nat :: i <= k <= d && NextReady(t, i) == CyclicIndex(t, k)
    decreases d - i
  {
    if t.slots[CyclicIndex(t, i)].state == Ready {
      assert NextReady(t, i) == CyclicIndex(t, i);
    } else {
      NextReadyWithin(t, i + 1, d);
    }
  }

  lemma {:induction false} IrqPickWithin(t: Table, i: nat, d: nat)
    requires |t.slots| == 16 && -1 <= t.current < 16 && i <= d < 16
    requires t.slots[CyclicIndex(t, d)].state == Ready && t.slots[CyclicIndex(t, d)].ctx && CyclicIndex(t, d) != t.current
    ensures exists k: nat :: i <= k <= d && IrqPick(t, i) == CyclicIndex(t, k)
    decreases d - i
  {
    var idx := CyclicIndex(t, i);
    assert idx != t.current;
    if t.slots[idx].state == Ready && t.slots[idx].ctx {
      assert IrqPick(t, i) == CyclicIndex(t, i);
    } else {
      IrqPickWithin(t, i + 1, d);
    }
  }

  lemma {:induction false} CountAtLeast(slots: seq<Slot>, i: nat, j: nat)
    requires i <= j < |slots| && slots[i].state in {Ready, Running} && slots[j].state in {Ready, Running}
    ensures CountReady(slots) >= if i == j then 1 else 2
  {
    if i > 0 {
      CountAtLeast(slots[1..], i - 1, j - 1);
    } else if j > 0 {
      CountAtLeast(slots[1..], j - 1, j - 1);
    }
  }

  /** The two halves of a yield, of which the second is also a step of its own, and the timer interrupt. */
  datatype Tick = Mark | Call | Irq

  function Dispatch(t: Table, k: Tick): (r: Table)
    requires |t.slots| == 16 && -1 <= t.current < 16
    ensures |r.slots| == 16 && -1 <= r.current < 16
  {
    match k
    case Mark => MarkReady(t)
    case Call => Schedule(t)
    case Irq => ScheduleFromIrq(t)
  }

  /** Marking oneself ready is no scheduling step yet. */
  function Cost(k: Tick): nat { if k.Mark? then 0 else 1 }

  function Steps(ks: seq<Tick>): nat { if ks == [] then 0 else Cost(ks[0]) + Steps(ks[1..]) }

  ghost predicate OnProcessor(t: Table, s: nat) {
    |t.slots| == 16 && s < 16 && t.current == s && t.slots[s].state == Running
  }

  /** Waiting for the processor, with a context that can be resumed. */
  ghost predicate Waiting(t: Table, s: nat) {
    |t.slots| == 16 && s < 16 && s != t.current && t.slots[s].state == Ready && t.slots[s].ctx
  }

  lemma SwitchCloser(t: Table, s: nat, k: nat)
    requires Inv(t) && Waiting(t, s) && k < Distance(t, s) && t.slots[CyclicIndex(t, k)].state == Ready
    ensures
      var r := SwitchTo(t, CyclicIndex(t, k));
      OnProcessor(r, s) || (Waiting(r, s) && Distance(r, s) < Distance(t, s))
  {
  }

  /** Each scheduling step dispatches `s` or brings the processor closer to it. */
  lemma DispatchCloser(t: Table, s: nat, k: Tick)
    requires Inv(t) && Waiting(t, s)
    ensures
      var r := Dispatch(t, k);
      Inv(r) && (OnProcessor(r, s) || (Waiting(r, s) && Distance(r, s) + Cost(k) <= Distance(t, s)))
  {
    hide SwitchTo, NextReady, IrqPick, CountReady, CyclicIndex, OnProcessor;
    DispatchKeepsInv(t);
    var d := Distance(t, s) - 1;
    match k {
      case Irq =>
        ReadyEnough(t, s);
        IrqPickWithin(t, 0, d);
        IrqPickIs(t, 0);
        var m: nat :| m <= d && IrqPick(t, 0) == CyclicIndex(t, m);
        SwitchCloser(t, s, m);
      case Call =>
        VoluntaryCloser(t, s);
      case Mark =>
        MarkKeepsWaiting(t, s);
    }
  }

  lemma MarkKeepsWaiting(t: Table, s: nat)
    requires Inv(t) && Waiting(t, s)
    ensures Waiting(MarkReady(t), s) && MarkReady(t).current == t.current && Distance(MarkReady(t), s) == Distance(t, s)
  {
  }

  lemma ReadyEnough(t: Table, s: nat)
    requires Inv(t) && Waiting(t, s)
    ensures CountReady(t.slots) >= if t.current < 0 then 1 else 2
  {
    if t.current < 0 {
      CountAtLeast(t.slots, s, s);
    } else if t.current < s {
      CountAtLeast(t.slots, t.current, s);
    } else {
      CountAtLeast(t.slots, s, t.current);
    }
  }

  lemma VoluntaryCloser(t: Table, s: nat)
    requires Inv(t) && Waiting(t, s)
    ensures
      var r := Schedule(t);
      OnProcessor(r, s) || (Waiting(r, s) && Distance(r, s) < Distance(t, s))
  {
    hide SwitchTo, NextReady, OnProcessor;
    var d := Distance(t, s) - 1;
    NextReadyWithin(t, 0, d);
    NextReadyIs(t, 0);
    var m: nat :| m <= d && NextReady(t, 0) == CyclicIndex(t, m);
    SwitchCloser(t, s, m);
  }

  function DispatchAll(t: Table, ks: seq<Tick>): (r: Table)
    requires |t.slots| == 16 && -1 <= t.current < 16
    ensures |r.slots| == 16 && -1 <= r.current < 16
    decreases |ks|
  {
    if ks == [] then t else DispatchAll(Dispatch(t, ks[0]), ks[1..])
  }

  /**
   * A ready process with a valid context, `d` slots ahead of the current one, is running after at
   * most `d` scheduling steps of whatever kinds, also when a timer interrupt splits a yield.
   */
  lemma {:induction false} DispatchedWithin(t: Table, s: nat, ks: seq<Tick>)
    requires Inv(t) && Waiting(t, s) && Steps(ks) >= Distance(t, s)
    ensures exists n: nat :: n <= |ks| && Steps(ks[..n]) <= Distance(t, s) && OnProcessor(DispatchAll(t, ks[..n]), s)
    decreases |ks|
  {
    hide Waiting, Distance, Dispatch, OnProcessor;
    var r := Dispatch(t, ks[0]);
    DispatchCloser(t, s, ks[0]);
    if OnProcessor(r, s) {
      assert ks[..1][1..] == [];
      assert DispatchAll(t, ks[..1]) == DispatchAll(r, []) == r;
      assert Steps(ks[..1]) == Cost(ks[0]) + Steps([]);
    } else {
      DispatchedWithin(r, s, ks[1..]);
      var n: nat :| n <= |ks[1..]| && Steps(ks[1..][..n]) <= Distance(r, s) && OnProcessor(DispatchAll(r, ks[1..][..n]), s);
      assert ks[..n + 1][1..] == ks[1..][..n];
      assert DispatchAll(t, ks[..n + 1]) == DispatchAll(r, ks[1..][..n]);
      assert Steps(ks[..n + 1]) == Cost(ks[0]) + Steps(ks[1..][..n]);
    }
  }

  // The transitive kill

  /** Slot `i` descends from the value `p` through stored parent values. */
  ghost predicate Descends(t: Table, p: int, i: int)
    requires Inv(t) && 0 <= i < 16
    decreases if Live(t.slots[i]) then t.slots[i].pid else 0
  {
    Live(t.slots[i]) &&
    (t.slots[i].parent == p ||
     exists j :: 0 <= j < 16 && Live(t.slots[j]) && t.slots[j].pid == t.slots[i].parent && Descends(t, p, j))
  }

  lemma {:induction false} DescendantsAreYounger(t: Table, p: int, i: int)
    requires Inv(t) && 0 <= i < 16 && Descends(t, p, i)
    ensures p < t.slots[i].pid
    decreases t.slots[i].pid
  {
    if t.slots[i].parent != p {
      var j :| 0 <= j < 16 && Live(t.slots[j]) && t.slots[j].pid == t.slots[i].parent && Descends(t, p, j);
      DescendantsAreYounger(t, p, j);
    }
  }

  function Reaped(s: Slot): Slot { s.(state := Free, pid := 0) }

  /** What `kill_children(p)` is for: the live descendants of `p`, except the current process, are freed. */
  ghost function KillDescendants(t: Table, p: int): (r: Table)
    requires Inv(t)
    ensures |r.slots| == 16 && r.current == t.current && r.nextPid == t.nextPid
  {
    t.(slots := seq(16, i requires 0 <= i < 16 =>
      if Descends(t, p, i) && i != t.current then Reaped(t.slots[i]) else t.slots[i]))
  }

  lemma KillDescendantsKeepsInv(t: Table, p: int)
    requires Inv(t)
    ensures Inv(KillDescendants(t, p))
  {
  }

  /** The value `x` is where the search began or the pid of a slot met on the way. */
  ghost predicate Met(t: Table, p: int, pushed: set<int>, x: int)
    requires Inv(t) && forall j :: j in pushed ==> 0 <= j < 16
  {
    x == p || exists j :: j in pushed && t.slots[j].pid == x
  }

  /** Exactly the slots met so far, except the current one, have been freed. */
  ghost predicate FreedSoFar(t: Table, p: int, slots: seq<Slot>, pushed: set<int>, popped: set<int>)
    requires Inv(t)
  {
    && |slots| == 16
    && (forall j :: j in pushed ==> 0 <= j < 16 && Descends(t, p, j) && t.slots[j].parent in popped)
    && (forall j :: 0 <= j < 16 ==> slots[j] == if j in pushed && j != t.current then Reaped(t.slots[j]) else t.slots[j])
  }

  /** Every value met is on the stack or has been taken off it, once. */
  ghost predicate Pending(t: Table, p: int, pushed: set<int>, popped: set<int>, stack: seq<int>)
    requires Inv(t) && forall j :: j in pushed ==> 0 <= j < 16
  {
    && (forall y :: y in popped ==> Met(t, p, pushed, y))
    && (forall k :: 0 <= k < |stack| ==> stack[k] !in popped && Met(t, p, pushed, stack[k]))
    && (forall k, l :: 0 <= k < l < |stack| ==> stack[k] != stack[l])
    && (p in popped || p in stack) && (forall j :: j in pushed ==> t.slots[j].pid in popped || t.slots[j].pid in stack)
    && |stack| + |popped| == |pushed| + 1
  }

  /** All children of values taken off the stack have been met; for `x`, those in slots below `i`. */
  ghost predicate Covered(t: Table, pushed: set<int>, popped: set<int>, x: int, i: nat)
    requires Inv(t) && forall j :: j in pushed ==> 0 <= j < 16
  {
    && i <= 16
    && (forall j ::
          0 <= j < 16 && Live(t.slots[j]) && t.slots[j].parent in popped && (t.slots[j].parent != x || j < i) ==> j in pushed)
    && (forall j :: j in pushed && t.slots[j].parent == x ==> j < i)
  }

  /**
   * The search at work: `pushed` are the slots whose pids went onto the stack, `popped` the values
   * taken off it, and slots below `i` have been looked at for the value `x` taken off last.
   */
  ghost predicate Searching(t: Table, p: int, slots: seq<Slot>, pushed: set<int>, popped: set<int>, stack: seq<int>,
                            x: int, i: nat)
    requires Inv(t)
  {
    FreedSoFar(t, p, slots, pushed, popped) && Pending(t, p, pushed, popped, stack) && Covered(t, pushed, popped, x, i)
  }

  lemma {:induction false} AtMost(s: set<int>, n: nat)
    requires forall j :: j in s ==> 0 <= j < n
    ensures |s| <= n
  {
    if n > 0 {
      AtMost(s - {n - 1}, n - 1);
      if n - 1 in s {
        assert |s| == |s - {n - 1}| + 1;
      } else {
        assert s - {n - 1} == s;
      }
    } else {
      assert forall j :: j !in s;
      assert s == {};
    }
  }

  lemma SearchStarts(t: Table, p: int)
    requires Inv(t)
    ensures Searching(t, p, t.slots, {}, {}, [p], p, 16)
  {
  }

  lemma SearchBound(t: Table, p: int, slots: seq<Slot>, pushed: set<int>, popped: set<int>, stack: seq<int>, x: int,
                    i: nat)
    requires Inv(t) && Searching(t, p, slots, pushed, popped, stack, x, i)
    ensures |pushed| <= 16
  {
    AtMost(pushed, 16);
  }

  lemma SearchPops(t: Table, p: int, slots: seq<Slot>, pushed: set<int>, popped: set<int>, stack: seq<int>, x0: int)
    requires Inv(t) && Searching(t, p, slots, pushed, popped, stack, x0, 16) && stack != []
    ensures
      var x := stack[|stack| - 1];
      x !in popped && Searching(t, p, slots, pushed, popped + {x}, stack[..|stack| - 1], x, 0)
  {
    hide Descends, Met, Live;
    var x := stack[|stack| - 1];
    var rest := stack[..|stack| - 1];
    assert |popped + {x}| == |popped| + 1;
    assert forall y :: y in stack ==> y == x || y in rest;
    assert forall j :: j in pushed ==> t.slots[j].parent in popped;
  }

  lemma SearchSkips(t: Table, p: int, slots: seq<Slot>, pushed: set<int>, popped: set<int>, stack: seq<int>, x: int,
                    i: nat)
    requires Inv(t) && i < 16 && Searching(t, p, slots, pushed, popped, stack, x, i)
    requires !(Live(slots[i]) && slots[i].parent == x)
    ensures Searching(t, p, slots, pushed, popped, stack, x, i + 1)
  {
  }

  /** A child is met for the first time, so its pid is new to the search and fits the stack. */
  lemma SearchMeets(t: Table, p: int, slots: seq<Slot>, pushed: set<int>, popped: set<int>, stack: seq<int>, x: int,
                    i: nat)
    requires Inv(t) && i < 16 && Searching(t, p, slots, pushed, popped, stack, x, i) && x in popped
    requires Live(slots[i]) && slots[i].parent == x
    ensures i !in pushed && slots[i] == t.slots[i] && |stack| < 16 && Descends(t, p, i)
    ensures !Met(t, p, pushed, slots[i].pid)
  {
    hide Descends, Met, Live;
    assert i !in pushed;
    StackHasRoom(t, p, pushed, popped, stack, x, i);
    MetHasDescendants(t, p, pushed, x, i);
    DescendantsAreYounger(t, p, i);
    PidIsNew(t, p, pushed, i);
  }

  lemma StackHasRoom(t: Table, p: int, pushed: set<int>, popped: set<int>, stack: seq<int>, x: int, i: nat)
    requires Inv(t) && i < 16 && i !in pushed && (forall j :: j in pushed ==> 0 <= j < 16)
    requires Pending(t, p, pushed, popped, stack) && x in popped
    ensures |stack| < 16
  {
    hide Inv, Met;
    AtMost(pushed + {i}, 16);
    assert |pushed + {i}| == |pushed| + 1;
    assert popped - {x} + {x} == popped && |popped| >= 1;
  }

  lemma MetHasDescendants(t: Table, p: int, pushed: set<int>, x: int, i: nat)
    requires Inv(t) && i < 16 && (forall j :: j in pushed ==> 0 <= j < 16 && Descends(t, p, j))
    requires Met(t, p, pushed, x) && Live(t.slots[i]) && t.slots[i].parent == x
    ensures Descends(t, p, i)
  {
    if x != p {
      var j :| j in pushed && t.slots[j].pid == x;
      assert Descends(t, p, j);
    }
  }

  lemma PidIsNew(t: Table, p: int, pushed: set<int>, i: nat)
    requires Inv(t) && i < 16 && i !in pushed && Live(t.slots[i]) && p < t.slots[i].pid
    requires forall j :: j in pushed ==> 0 <= j < 16 && Descends(t, p, j)
    ensures !Met(t, p, pushed, t.slots[i].pid)
  {
    forall j | j in pushed
      ensures t.slots[j].pid != t.slots[i].pid
    {
      assert Live(t.slots[j]);
      assert i < j || j < i;
    }
  }

  lemma SearchPushes(t: Table, p: int, slots: seq<Slot>, pushed: set<int>, popped: set<int>, stack: seq<int>, x: int,
                     i: nat)
    requires Inv(t) && i < 16 && Searching(t, p, slots, pushed, popped, stack, x, i) && x in popped
    requires Live(slots[i]) && slots[i].parent == x
    ensures
      var after := if i == t.current then slots else slots[i := Reaped(slots[i])];
      && |stack| < 16 && i !in pushed && |pushed + {i}| == |pushed| + 1
      && Searching(t, p, after, pushed + {i}, popped, stack + [slots[i].pid], x, i + 1)
  {
    hide Descends, Met, Live, Pending;
    assert i in pushed ==> pushed + {i} == pushed;
    SearchMeets(t, p, slots, pushed, popped, stack, x, i);
    PendingGrows(t, p, pushed, popped, stack, i);
  }

  lemma PendingGrows(t: Table, p: int, pushed: set<int>, popped: set<int>, stack: seq<int>, i: nat)
    requires Inv(t) && i < 16 && i !in pushed && (forall j :: j in pushed ==> 0 <= j < 16)
    requires Pending(t, p, pushed, popped, stack) && !Met(t, p, pushed, t.slots[i].pid)
    ensures Pending(t, p, pushed + {i}, popped, stack + [t.slots[i].pid])
  {
    var c := t.slots[i].pid;
    var grown := pushed + {i};
    assert |grown| == |pushed| + 1;
    forall y | Met(t, p, pushed, y)
      ensures Met(t, p, grown, y)
    {
      if y != p {
        var j :| j in pushed && t.slots[j].pid == y;
        assert j in grown;
      }
    }
    assert Met(t, p, grown, c) by { assert i in grown; }
    assert forall y :: y in stack ==> y in stack + [c];
    assert (stack + [c])[|stack|] == c;
  }

  /** When the stack has run empty, exactly the descendants have been met. */
  lemma SearchDone(t: Table, p: int, slots: seq<Slot>, pushed: set<int>, popped: set<int>, x: int)
    requires Inv(t) && Searching(t, p, slots, pushed, popped, [], x, 16)
    ensures slots == KillDescendants(t, p).slots
  {
    forall j | 0 <= j < 16
      ensures Descends(t, p, j) <==> j in pushed
    {
      if Descends(t, p, j) {
        DescendantsMet(t, p, slots, pushed, popped, x, j);
      }
    }
  }

  lemma {:induction false} DescendantsMet(t: Table, p: int, slots: seq<Slot>, pushed: set<int>, popped: set<int>,
                                          x: int, j: int)
    requires Inv(t) && Searching(t, p, slots, pushed, popped, [], x, 16) && 0 <= j < 16 && Descends(t, p, j)
    ensures j in pushed
    decreases t.slots[j].pid
  {
    if t.slots[j].parent != p {
      var k :| 0 <= k < 16 && Live(t.slots[k]) && t.slots[k].pid == t.slots[j].parent && Descends(t, p, k);
      DescendantsMet(t, p, slots, pushed, popped, x, k);
    }
  }

  // Exit and kill

  /** `process_exit` of the current process; the pid stays in the freed slot. */
  ghost function Exit(t: Table): Table
    requires Inv(t)
  {
    if t.current < 0 then t else
    var k := KillDescendants(t, t.slots[t.current].pid);
    k.(slots := k.slots[t.current := k.slots[t.current].(state := Free)], current := -1)
  }

  /** The slot of a live pid, -1 if there is none. */
  function FindPid(t: Table, pid: int, i: nat): (s: int)
    requires i <= |t.slots|
    ensures s == -1 || (i <= s < |t.slots| && Live(t.slots[s]) && t.slots[s].pid == pid)
    ensures s < 0 ==> forall j :: i <= j < |t.slots| ==> !(Live(t.slots[j]) && t.slots[j].pid == pid)
    decreases |t.slots| - i
  {
    if i == |t.slots| then -1 else if t.slots[i].pid == pid && t.slots[i].state != Free then i else FindPid(t, pid, i + 1)
  }

  /** `process_kill`: the table and whether it succeeded. */
  ghost function Kill(t: Table, pid: int): (Table, bool)
    requires Inv(t)
  {
    var s := FindPid(t, pid, 0);
    if pid <= 0 || s < 0 || s == t.current then (t, false) else
    var k := KillDescendants(t, pid);
    (k.(slots := k.slots[s := Reaped(k.slots[s])]), true)
  }

  lemma FreeingKeepsInv(t: Table, s: nat, r: Slot)
    requires Inv(t) && s < 16 && s != t.current && !Live(r)
    ensures Inv(t.(slots := t.slots[s := r]))
  {
  }

  lemma EndingKeepsInv(t: Table, pid: int)
    requires Inv(t)
    ensures Inv(Exit(t)) && Inv(Kill(t, pid).0)
  {
    hide Descends, KillDescendants;
    KillDescendantsKeepsInv(t, pid);
    if t.current >= 0 {
      var k := KillDescendants(t, t.slots[t.current].pid);
      KillDescendantsKeepsInv(t, t.slots[t.current].pid);
      LeavingKeepsInv(k);
    }
    var s := FindPid(t, pid, 0);
    if s >= 0 && s != t.current {
      var k := KillDescendants(t, pid);
      FreeingKeepsInv(k, s, Reaped(k.slots[s]));
    }
  }

  lemma LeavingKeepsInv(t: Table)
    requires Inv(t) && t.current >= 0
    ensures Inv(t.(slots := t.slots[t.current := t.slots[t.current].(state := Free)], current := -1))
  {
  }

  /** After a kill, the process and all its descendants other than the current one are gone, and nobody else. */
  lemma KillFreesExactly(t: Table, pid: int, i: int)
    requires Inv(t) && Kill(t, pid).1 && 0 <= i < 16
    ensures
      var r := Kill(t, pid).0;
      var doomed := t.slots[i].pid == pid || (Descends(t, pid, i) && i != t.current);
      if Live(t.slots[i]) && doomed then !Live(r.slots[i]) else r.slots[i] == t.slots[i]
  {
    var s := FindPid(t, pid, 0);
    if Live(t.slots[i]) && t.slots[i].pid == pid {
      assert i == s;
    }
  }

  /** A kill succeeds exactly for the positive pid of a live process other than the current one, or changes nothing. */
  lemma KillSucceedsExactly(t: Table, pid: int)
    requires Inv(t)
    ensures Kill(t, pid).1 <==>
      pid > 0 && exists i :: 0 <= i < 16 && i != t.current && Live(t.slots[i]) && t.slots[i].pid == pid
    ensures !Kill(t, pid).1 ==> Kill(t, pid).0 == t
    ensures Kill(t, pid).0.current == t.current && Kill(t, pid).0.nextPid == t.nextPid
  {
    var s := FindPid(t, pid, 0);
  }

  /** After an exit, the process and all its descendants are gone, and nobody else; the kernel runs. */
  lemma ExitFreesExactly(t: Table, i: int)
    requires Inv(t) && 0 <= i < 16
    ensures t.current < 0 ==> Exit(t) == t
    ensures t.current >= 0 ==>
      var r := Exit(t);
      var doomed := i == t.current || Descends(t, t.slots[t.current].pid, i);
      && |r.slots| == 16 && r.current == -1 && r.nextPid == t.nextPid
      && if doomed then !Live(r.slots[i]) else r.slots[i] == t.slots[i]
  {
  }

  /**
   * A stored parent is the creator's slot, which is always less than the creator's pid: killing a
   * process by its pid never reaches the processes that it created itself.
   */
  lemma OwnChildrenEscape(t: Table, c: int, i: int)
    requires Inv(t) && 0 <= c < 16 && 0 <= i < 16 && i != c
    requires Live(t.slots[c]) && Live(t.slots[i]) && t.slots[i].parent == c
    ensures !Descends(t, t.slots[c].pid, i)
    ensures Kill(t, t.slots[c].pid).0.slots[i] == t.slots[i]
    ensures t.current == c ==> Exit(t).slots[i] == t.slots[i]
  {
    var p := t.slots[c].pid;
    if Descends(t, p, i) {
      var j :| 0 <= j < 16 && Live(t.slots[j]) && t.slots[j].pid == c && Descends(t, p, j);
      DescendantsAreYounger(t, p, j);
    }
  }

  /** In particular, what the current process has just created outlives its exit. */
  lemma CreatedOutlives(t: Table)
    requires Inv(t) && t.current >= 0 && Create(t).1 >= 0
    ensures Inv(Create(t).0)
    ensures
      var u, s := Create(t).0, FreeSlot(t, 0);
      0 <= s < 16 && Live(u.slots[s]) && u.slots[s].pid == Create(t).1 && Exit(u).slots[s] == u.slots[s]
  {
    CreateKeepsInv(t);
    OwnChildrenEscape(Create(t).0, t.current, FreeSlot(t, 0));
  }

  // Runs

  datatype Step = DoCreate | DoMark | DoSchedule | DoIrq | DoExit | DoKill(pid: int)

  ghost function Do(t: Table, a: Step): Table
    requires Inv(t)
  {
    match a
    case DoCreate => Create(t).0
    case DoMark => MarkReady(t)
    case DoSchedule => Schedule(t)
    case DoIrq => ScheduleFromIrq(t)
    case DoExit => Exit(t)
    case DoKill(pid) => Kill(t, pid).0
  }

  /** The tables met in a run from start-up. */
  ghost predicate Trace(ts: seq<Table>, steps: seq<Step>) {
    && |ts| == |steps| + 1 && ts[0] == Init()
    && forall n :: 0 <= n < |steps| ==> Inv(ts[n]) ==> ts[n + 1] == Do(ts[n], steps[n])
  }

  /**
   * In every table of every run, interrupts between the halves of a yield included, the invariant
   * holds: at most one slot is RUNNING and it is the current one, live pids are unique and every
   * stored parent value is below the slot's own pid.
   */
  lemma {:induction false} TraceInv(ts: seq<Table>, steps: seq<Step>, n: nat)
    requires Trace(ts, steps) && n <= |steps|
    ensures Inv(ts[n])
    ensures forall i, j :: 0 <= i < 16 && 0 <= j < 16 && ts[n].slots[i].state == Running && ts[n].slots[j].state == Running ==>
      i == j == ts[n].current
  {
    hide Descends, KillDescendants, Create, Schedule, ScheduleFromIrq, MarkReady, Exit, Kill;
    if n > 0 {
      TraceInv(ts, steps, n - 1);
      var t := ts[n - 1];
      assert ts[n - 1 + 1] == Do(t, steps[n - 1]);
      CreateKeepsInv(t);
      DispatchKeepsInv(t);
      match steps[n - 1] {
        case DoKill(pid) => EndingKeepsInv(t, pid);
        case DoExit => EndingKeepsInv(t, 0);
        case _ =>
      }
    }
  }

  // The kernel's own code

  class ProcTable {
    const slots: array<Slot>
    var current: int
    var nextPid: int

    ghost function T(): Table
      reads this, slots
    {
      Table(slots[..], current, nextPid)
    }

    /** `process_init` */
    constructor ()
      ensures fresh(slots) && T() == Init()
    {
      slots := new Slot[16](_ => Slot(Free, 0, 0, false));
      current, nextPid := -1, 1;
      new;
      assert slots[..] == Init().slots;
    }

    /** `find_free_slot_unlocked` */
    method FindFreeSlot() returns (s: int)
      requires slots.Length == 16 && -1 <= current < 16
      ensures s == FreeSlot(T(), 0)
    {
      var i := 0;
      while i < 16
        invariant i <= 16 && FreeSlot(T(), i) == FreeSlot(T(), 0)
      {
        if slots[i].state == Free { return i; }
        i := i + 1;
      }
      s := -1;
    }

    /** The success path of `process_create`. */
    method ProcessCreate() returns (pid: int)
      requires Inv(T())
      modifies this, slots
      ensures (T(), pid) == Create(old(T())) && Inv(T())
    {
      CreateKeepsInv(T());
      ghost var before := slots[..];
      var s := FindFreeSlot();
      if s < 0 { return -1; }
      slots[s] := slots[s].(state := Ready, pid := nextPid);
      nextPid := nextPid + 1;
      pid := nextPid;
      nextPid := nextPid + 1;
      slots[s] := Slot(Ready, pid, current, true);
      assert slots[..] == before[s := Slot(Ready, pid, current, true)];
    }

    method FindReady() returns (next: int)
      requires slots.Length == 16 && -1 <= current < 16
      ensures next == NextReady(T(), 0)
    {
      var start := if current >= 0 then current + 1 else 0;
      var i := 0;
      while i < 16
        invariant i <= 16 && NextReady(T(), i) == NextReady(T(), 0)
      {
        var idx := (start + i) % 16;
        if slots[idx].state == Ready { return idx; }
        i := i + 1;
      }
      next := -1;
    }

    /** `process_schedule`; a context switch is the change of `current`. */
    method ProcessSchedule()
      requires Inv(T())
      modifies this, slots
      ensures T() == Schedule(old(T())) && Inv(T())
    {
      hide NextReady, SwitchTo, CyclicIndex;
      DispatchKeepsInv(T());
      NextReadyIs(T(), 0);
      var previous := current;
      var next := FindReady();
      if next < 0 {
        if previous >= 0 && slots[previous].state == Running { return; }
        if previous >= 0 { current := -1; }
        return;
      }
      if next == previous {
        slots[previous] := slots[previous].(state := Running);
        return;
      }
      SwitchSlots(next);
    }

    method SwitchSlots(next: nat)
      requires |T().slots| == 16 && -1 <= current < 16 && next < 16
      modifies this, slots
      ensures T() == SwitchTo(old(T()), next)
    {
      if current >= 0 && slots[current].state == Running {
        slots[current] := slots[current].(state := Ready);
      }
      slots[next] := slots[next].(state := Running);
      current := next;
    }

    /** `process_yield` */
    method ProcessYield()
      requires Inv(T())
      modifies this, slots
      ensures T() == Dispatch(Dispatch(old(T()), Mark), Call) && Inv(T())
    {
      DispatchKeepsInv(T());
      if current >= 0 {
        slots[current] := slots[current].(state := Ready);
      }
      ProcessSchedule();
    }

    method CountRunnable() returns (n: nat)
      requires slots.Length == 16 && -1 <= current < 16
      ensures n == CountReady(slots[..])
    {
      n := 0;
      var i := 0;
      while i < 16
        invariant i <= 16 && n + CountReady(slots[i..]) == CountReady(slots[..])
      {
        assert slots[i..][1..] == slots[i + 1..];
        if slots[i].state == Ready || slots[i].state == Running {
          n := n + 1;
        }
        i := i + 1;
      }
    }

    /** `process_schedule_from_irq` */
    method ProcessScheduleFromIrq()
      requires Inv(T())
      modifies this, slots
      ensures T() == ScheduleFromIrq(old(T())) && Inv(T())
    {
      hide CountReady, CyclicIndex;
      DispatchKeepsInv(T());
      var ready := CountRunnable();
      if current >= 0 && ready <= 1 { return; }
      if current < 0 && ready == 0 { return; }
      var next := PickForIrq();
      if next >= 0 {
        SwitchSlots(next);
      }
    }

    method PickForIrq() returns (next: int)
      requires slots.Length == 16 && -1 <= current < 16
      ensures next == IrqPick(T(), 0)
    {
      var start := if current >= 0 then current + 1 else 0;
      var i := 0;
      while i < 16
        invariant i <= 16 && IrqPick(T(), i) == IrqPick(T(), 0)
      {
        var idx := (start + i) % 16;
        if slots[idx].state == Ready {
          if idx == current { return -1; }
          if slots[idx].ctx { return idx; }
        }
        i := i + 1;
      }
      next := -1;
    }

    /** `kill_children`: the fixed-size stack is never full when a child is pushed. */
    method KillChildren(p: int)
      requires Inv(T())
      modifies slots
      ensures T() == KillDescendants(old(T()), p) && Inv(T())
    {
      hide Searching, Descends, KillDescendants;
      ghost var t := T();
      KillDescendantsKeepsInv(t, p);
      var stack := new int[16];
      stack[0] := p;
      var top := 1;
      ghost var pushed: set<int>, popped: set<int>, x := {}, {}, p;
      SearchStarts(t, p);
      assert stack[..1] == [p] && slots[..] == t.slots;
      while top > 0
        invariant 0 <= top <= 16 && Searching(t, p, slots[..], pushed, popped, stack[..top], x, 16)
        decreases 16 - |pushed|, top
      {
        SearchBound(t, p, slots[..], pushed, popped, stack[..top], x, 16);
        SearchPops(t, p, slots[..], pushed, popped, stack[..top], x);
        top := top - 1;
        var value := stack[top];
        assert stack[..top + 1][..top] == stack[..top];
        x, popped := value, popped + {value};
        ghost var before, top0 := pushed, top;
        var i := 0;
        while i < 16
          invariant 0 <= i <= 16 && 0 <= top <= 16 && x == value && x in popped
          invariant Searching(t, p, slots[..], pushed, popped, stack[..top], x, i)
          invariant |before| <= |pushed| && (|pushed| == |before| ==> top == top0)
        {
          if slots[i].state != Free && slots[i].parent == value {
            var child := slots[i].pid;
            SearchPushes(t, p, slots[..], pushed, popped, stack[..top], x, i);
            pushed := pushed + {i};
            if top < 16 {
              stack[top] := child;
              top := top + 1;
            }
            assert stack[..top] == stack[..top - 1] + [child];
            if i != current {
              slots[i] := Reaped(slots[i]);
            }
          } else {
            SearchSkips(t, p, slots[..], pushed, popped, stack[..top], x, i);
          }
          i := i + 1;
        }
      }
      SearchDone(t, p, slots[..], pushed, popped, x);
    }

    /** `process_exit` */
    method ProcessExit()
      requires Inv(T())
      modifies this, slots
      ensures T() == Exit(old(T())) && Inv(T())
    {
      hide Descends, KillDescendants;
      EndingKeepsInv(T(), 0);
      if current < 0 { return; }
      var slot := current;
      KillChildren(slots[slot].pid);
      slots[slot] := slots[slot].(state := Zombie);
      slots[slot] := slots[slot].(state := Free);
      current := -1;
    }

    /** `process_kill`; false is the error return. */
    method ProcessKill(pid: int) returns (ok: bool)
      requires Inv(T())
      modifies slots
      ensures (T(), ok) == Kill(old(T()), pid) && Inv(T())
    {
      hide Descends, KillDescendants;
      EndingKeepsInv(T(), pid);
      if pid <= 0 { return false; }
      var slot := FindLive(pid);
      if slot < 0 { return false; }
      if slot == current { return false; }
      KillChildren(pid);
      slots[slot] := Reaped(slots[slot]);
      ok := true;
    }

    method FindLive(pid: int) returns (s: int)
      requires slots.Length == 16 && -1 <= current < 16
      ensures s == FindPid(T(), pid, 0)
    {
      var i := 0;
      while i < 16
        invariant i <= 16 && FindPid(T(), pid, i) == FindPid(T(), pid, 0)
      {
        if slots[i].pid == pid && slots[i].state != Free { return i; }
        i := i + 1;
      }
      s := -1;
    }
  }
}

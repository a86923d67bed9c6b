/** The xHCI command ring: a producer that marks entries with a cycle bit, and a link back to the start. */
module Xhci {
  import opened Bytes

  /** A transfer request block; a command is one with control bit 0 clear. */
  datatype Trb = Trb(param: nat, status: u32, control: u32)

  const LINK: nat := 6

  function CycleBit(t: Trb): bool { t.control % 2 == 1 }
  function ToggleBit(t: Trb): bool { t.control / 2 % 2 == 1 }
  function TypeOf(t: Trb): nat { t.control / 1024 % 64 }

  predicate IsCommand(t: Trb) { t.control % 2 == 0 && TypeOf(t) != LINK }

  /** `control | cycle` */
  function Marked(t: Trb, cycle: bool): (m: Trb)
    ensures IsCommand(t) ==> CycleBit(m) == cycle
    ensures TypeOf(m) == TypeOf(t)
  {
    t.(control := if cycle && t.control % 2 == 0 then t.control + 1 else t.control)
  }

  /** The link block: type LINK, toggle-cycle set, pointing at the ring's own address. */
  function LinkTo(phys: nat, cycle: bool): (t: Trb)
    ensures CycleBit(t) == cycle && ToggleBit(t) && TypeOf(t) == LINK
  {
    Trb(phys, 0, 6 * 1024 + 2 + if cycle then 1 else 0)
  }

  datatype Ring = Ring(trbs: seq<Trb>, phys: nat, enqueue: nat, cycle: bool)

  /** `xhci_ring_cmd` */
  function Enqueue(r: Ring, t: Trb): (s: Ring)
    requires |r.trbs| == 64 && r.enqueue < 63
    ensures |s.trbs| == 64 && s.enqueue < 63
  {
    var a := r.trbs[r.enqueue := Marked(t, r.cycle)];
    if r.enqueue + 1 >= 63 then
      r.(trbs := a[63 := LinkTo(r.phys, r.cycle)], enqueue := 0, cycle := !r.cycle)
    else r.(trbs := a, enqueue := r.enqueue + 1)
  }

  /** The controller's side: where it reads next and the cycle state it expects. */
  datatype Consumer = Consumer(dequeue: nat, ccs: bool)

  /** The whole: `sent` and `received` list all commands in order. */
  datatype System = System(r: Ring, c: Consumer, sent: seq<Trb>, received: seq<Trb>)

  /** The controller looks at one entry: it follows links, takes commands and stops at stale entries. */
  function Consume(s: System): (t: System)
    requires |s.r.trbs| == 64 && s.c.dequeue < 64
  {
    var e := s.r.trbs[s.c.dequeue];
    if CycleBit(e) != s.c.ccs then s
    else if TypeOf(e) == LINK then
      if e.param == s.r.phys then s.(c := Consumer(0, if ToggleBit(e) then !s.c.ccs else s.c.ccs)) else s
    else s.(c := s.c.(dequeue := s.c.dequeue + 1),
            received := s.received + [e.(control := e.control / 2 * 2)])
  }

  /** `xhci_setup_rings` on zeroed memory, with the consumer's cycle state set to 1. */
  function Init(phys: nat): System {
    System(Ring(seq(64, _ => Trb(0, 0, 0)), phys, 0, true), Consumer(0, true), [], [])
  }

  /** The slot and the cycle state of the n-th command. */
  function Seat(n: nat): (i: nat)
    ensures i < 63
  {
    n % 63
  }

  function Lap(n: nat): bool { n / 63 % 2 == 0 }

  lemma SeatNext(n: nat)
    ensures Seat(n) < 62 ==> Seat(n + 1) == Seat(n) + 1 && Lap(n + 1) == Lap(n)
    ensures Seat(n) == 62 ==> Seat(n + 1) == 0 && Lap(n + 1) == !Lap(n)
    ensures Seat(n) <= n
  {
  }

  lemma SeatLap(n: nat)
    ensures Seat(n + 63) == Seat(n) && Lap(n + 63) == !Lap(n)
  {
  }

  lemma SeatsDiffer(a: nat, b: nat)
    requires a < b < a + 63
    ensures Seat(a) != Seat(b)
  {
  }

  lemma SameLap(a: nat, b: nat)
    requires a <= b < a + 63 && Seat(a) == 0
    ensures Lap(a) == Lap(b) && Seat(b) == b - a
  {
  }

  // The producer's side, whatever the consumer does

  ghost predicate Producing(s: System) {
    && (forall k :: 0 <= k < |s.sent| ==> IsCommand(s.sent[k]))
    && s.r.enqueue == Seat(|s.sent|) && s.r.cycle == Lap(|s.sent|)
  }

  /** The last 63 commands sit in their slots, marked with their lap. */
  ghost predicate Holding(s: System)
    requires |s.r.trbs| == 64
  {
    forall k :: 0 <= k < |s.sent| < k + 64 ==> s.r.trbs[Seat(k)] == Marked(s.sent[k], Lap(k))
  }

  /** Slots not yet written in the coming lap carry the other cycle bit. */
  ghost predicate Stale(s: System)
    requires |s.r.trbs| == 64
  {
    forall k :: |s.sent| <= k < |s.sent| + 63 ==> CycleBit(s.r.trbs[Seat(k)]) != Lap(k)
  }

  ghost predicate LinkOk(s: System)
    requires |s.r.trbs| == 64
  {
    |s.sent| >= 63 ==> s.r.trbs[63] == LinkTo(s.r.phys, Lap(|s.sent| - 63))
  }

  ghost predicate RingOk(s: System) {
    |s.r.trbs| == 64 && Producing(s) && Holding(s) && Stale(s) && LinkOk(s)
  }

  function Sent(s: System, t: Trb): System
    requires |s.r.trbs| == 64 && s.r.enqueue < 63
  {
    s.(r := Enqueue(s.r, t), sent := s.sent + [t])
  }

  /** Sending never fails to put the command, and after slot 62 the link, where they belong. */
  lemma SendKeepsRing(s: System, t: Trb)
    requires RingOk(s) && IsCommand(t)
    ensures RingOk(Sent(s, t))
  {
    hide Seat, Lap, CycleBit, TypeOf, Marked, LinkTo, Holding, Stale, LinkOk;
    SeatNext(|s.sent|);
    SendHolds(s, t);
    SendStale(s, t);
    SendLinks(s, t);
  }

  lemma SendHolds(s: System, t: Trb)
    requires |s.r.trbs| == 64 && Producing(s) && Holding(s) && IsCommand(t)
    ensures Holding(Sent(s, t))
  {
    hide Seat, Lap, CycleBit, TypeOf, LinkTo, Marked;
    var u := Sent(s, t);
    forall k | 0 <= k < |u.sent| < k + 64
      ensures u.r.trbs[Seat(k)] == Marked(u.sent[k], Lap(k))
    {
      if k < |s.sent| {
        SeatsDiffer(k, |s.sent|);
      }
    }
  }

  lemma SendStale(s: System, t: Trb)
    requires |s.r.trbs| == 64 && Producing(s) && Stale(s) && IsCommand(t)
    ensures Stale(Sent(s, t))
  {
    hide Seat, Lap, CycleBit, TypeOf, LinkTo, Marked;
    var u := Sent(s, t);
    var n := |s.sent|;
    forall k | n + 1 <= k < n + 64
      ensures CycleBit(u.r.trbs[Seat(k)]) != Lap(k)
    {
      if k < n + 63 {
        SeatsDiffer(n, k);
      } else {
        SeatLap(n);
      }
    }
  }

  lemma SendLinks(s: System, t: Trb)
    requires |s.r.trbs| == 64 && Producing(s) && LinkOk(s) && IsCommand(t)
    ensures LinkOk(Sent(s, t))
  {
    hide Lap, CycleBit, TypeOf, LinkTo, Marked;
    var n := |s.sent|;
    if n + 1 >= 63 {
      SeatNext(n + 1 - 63);
      SeatLap(n + 1 - 63);
      SeatNext(n);
      if n >= 63 {
        SeatLap(n - 63);
        SeatNext(n - 63);
      }
    }
  }

  // Both sides

  ghost predicate Counts(s: System) {
    |s.received| <= |s.sent| <= |s.received| + 63 && s.received == s.sent[..|s.received|]
  }

  /** The consumer is at the next command, or still at the link in front of it with at most 62 outstanding. */
  ghost predicate ConsumerOk(s: System) {
    var n := |s.received|;
    || (s.c.dequeue == Seat(n) && s.c.ccs == Lap(n))
    || (s.c.dequeue == 63 && Seat(n) == 0 && n >= 63 && s.c.ccs == Lap(n - 63) && |s.sent| <= n + 62)
  }

  ghost predicate Inv(s: System) { RingOk(s) && Counts(s) && ConsumerOk(s) }

  lemma InitInv(phys: nat)
    ensures Inv(Init(phys))
  {
  }

  /** A further command may go out: at most 61 are outstanding, or 62 and the consumer has left the link. */
  predicate Sendable(s: System) {
    |s.sent| < |s.received| + 62 || (|s.sent| == |s.received| + 62 && s.c.dequeue != 63)
  }

  lemma EnqueueKeepsInv(s: System, t: Trb)
    requires Inv(s) && IsCommand(t) && Sendable(s)
    ensures Inv(Sent(s, t))
  {
    hide Seat, Lap, CycleBit, TypeOf, Marked, LinkTo, Holding, Stale, LinkOk, Enqueue;
    SendKeepsRing(s, t);
    assert Sent(s, t).sent[..|s.received|] == s.sent[..|s.received|];
  }

  /** What the consumer finds: the next command, a valid link, or, when nothing is outstanding, a stale entry. */
  lemma ConsumerSees(s: System)
    requires Inv(s)
    ensures
      var n := |s.received|;
      && (s.c.dequeue == 63 ==> n >= 63 && Consume(s) == s.(c := Consumer(0, Lap(n))) && Seat(n) == 0)
      && (s.c.dequeue < 63 && n < |s.sent| ==>
            Consume(s) == s.(c := s.c.(dequeue := s.c.dequeue + 1), received := s.received + [s.sent[n]]))
      && (s.c.dequeue < 63 && n == |s.sent| ==> Consume(s) == s)
  {
    hide Seat, Lap;
    var n := |s.received|;
    if s.c.dequeue == 63 {
      SeatLap(n - 63);
      SameLap(n - 63, |s.sent| - 63);
    } else if n < |s.sent| {
      assert s.r.trbs[Seat(n)] == Marked(s.sent[n], Lap(n));
    } else {
      assert CycleBit(s.r.trbs[Seat(n)]) != Lap(n);
    }
  }

  /** One look of the controller keeps everything in order. */
  lemma ConsumeKeepsInv(s: System)
    requires Inv(s)
    ensures Inv(Consume(s))
  {
    hide Seat, Lap, Holding, Stale, LinkOk, Consume, CycleBit, TypeOf;
    var n := |s.received|;
    var u := Consume(s);
    SeatNext(n);
    ConsumerSees(s);
    RingSame(s, u);
    if s.c.dequeue < 63 && n < |s.sent| {
      assert u.received == s.sent[..n + 1];
      if Seat(n) == 62 {
        SeatLap(n + 1 - 63);
      }
    }
  }

  lemma RingSame(s: System, u: System)
    requires RingOk(s) && u.r == s.r && u.sent == s.sent
    ensures RingOk(u)
  {
  }

  /** With a command outstanding, the controller takes the next one within two looks; otherwise nothing. */
  lemma ConsumerProgress(s: System)
    requires Inv(s)
    ensures Consume(s).c.dequeue < 64
    ensures |s.received| < |s.sent| ==>
      var t := if s.c.dequeue == 63 then Consume(Consume(s)) else Consume(s);
      t.received == s.received + [s.sent[|s.received|]]
    ensures |s.received| == |s.sent| ==> Consume(Consume(s)).received == s.received
  {
    hide Seat, Lap, Holding, Stale, LinkOk, CycleBit, TypeOf;
    ConsumeKeepsInv(s);
    ConsumerSees(s);
    ConsumerSees(Consume(s));
  }

  // Runs

  datatype Step = Send(t: Trb) | Look

  ghost predicate Allowed(s: System, a: Step) { a.Send? ==> IsCommand(a.t) && Sendable(s) }

  function Next(s: System, a: Step): System
    requires |s.r.trbs| == 64 && s.r.enqueue < 63 && s.c.dequeue < 64
  {
    match a
    case Send(t) => Sent(s, t)
    case Look => Consume(s)
  }

  ghost predicate Trace(ss: seq<System>, steps: seq<Step>, phys: nat) {
    && |ss| == |steps| + 1 && ss[0] == Init(phys)
    && forall n :: 0 <= n < |steps| ==>
         Allowed(ss[n], steps[n]) && (Inv(ss[n]) ==> ss[n + 1] == Next(ss[n], steps[n]))
  }

  /** Over any number of wraps, the controller has received the commands sent, in order, none twice. */
  lemma {:induction false} ReceivedInOrder(ss: seq<System>, steps: seq<Step>, phys: nat, n: nat)
    requires Trace(ss, steps, phys) && n <= |steps|
    ensures Inv(ss[n]) && ss[n].received <= ss[n].sent
  {
    hide Enqueue, Consume, Sent, Init, Lap, Seat, Holding, Stale, LinkOk;
    if n == 0 {
      InitInv(phys);
    } else {
      ReceivedInOrder(ss, steps, phys, n - 1);
      assert ss[n - 1 + 1] == Next(ss[n - 1], steps[n - 1]);
      match steps[n - 1] {
        case Send(t) => EnqueueKeepsInv(ss[n - 1], t);
        case Look => ConsumeKeepsInv(ss[n - 1]);
      }
    }
  }

  // The bound is exact

  function Looks(s: System, k: nat): (t: System)
    requires |s.r.trbs| == 64 && s.c.dequeue < 64
    ensures |t.r.trbs| == 64 && t.c.dequeue < 64
  {
    if k == 0 then s else
    var t := Looks(s, k - 1);
    if Consume(t).c.dequeue < 64 then Consume(t) else t
  }

  /** By looking alone, the controller comes to have received every command sent. */
  ghost predicate Delivers(s: System)
    requires |s.r.trbs| == 64 && s.c.dequeue < 64
  {
    exists k: nat :: Looks(s, k).received == s.sent
  }

  lemma {:induction false} LooksKeepInv(s: System, k: nat)
    requires Inv(s)
    ensures s.c.dequeue < 64 && Inv(Looks(s, k)) && Looks(s, k).sent == s.sent
  {
    hide Seat, Lap, Holding, Stale, LinkOk, Consume;
    if k > 0 {
      LooksKeepInv(s, k - 1);
      ConsumeKeepsInv(Looks(s, k - 1));
      ConsumerSees(Looks(s, k - 1));
    }
  }

  /** While the invariant holds, two looks for every command outstanding deliver everything. */
  lemma {:induction false} DeliversWithin(s: System, m: nat)
    requires Inv(s) && m <= |s.sent| - |s.received|
    ensures s.c.dequeue < 64 && |Looks(s, 2 * m).received| >= |s.received| + m
    decreases m
  {
    hide Holding, Stale, LinkOk, Consume, Counts;
    LooksKeepInv(s, 0);
    if m > 0 {
      DeliversWithin(s, m - 1);
      var t := Looks(s, 2 * m - 2);
      LooksKeepInv(s, 2 * m - 2);
      TwoLooks(t);
      assert Looks(s, 2 * m - 1) == Looks(t, 1);
      assert Looks(s, 2 * m) == Looks(t, 2);
    }
  }

  lemma TwoLooks(t: System)
    requires Inv(t)
    ensures t.c.dequeue < 64
    ensures Looks(t, 1) == Consume(t) && |Looks(t, 2).received| >= |t.received|
    ensures |t.received| < |t.sent| ==> |Looks(t, 2).received| > |t.received|
    ensures Consume(t).c.dequeue < 64
    ensures Looks(t, 2) == if Consume(Consume(t)).c.dequeue < 64 then Consume(Consume(t)) else Consume(t)
  {
    hide Holding, Stale, LinkOk, Consume, Seat, Lap;
    LooksKeepInv(t, 1);
    ConsumerSees(t);
    ConsumeKeepsInv(t);
    ConsumerSees(Consume(t));
    assert Looks(t, 0) == t;
    assert Looks(t, 1) == Consume(t);
  }

  lemma InvDelivers(s: System)
    requires Inv(s)
    ensures s.c.dequeue < 64 && Delivers(s)
  {
    hide Holding, Stale, LinkOk, Looks;
    var m := |s.sent| - |s.received|;
    DeliversWithin(s, m);
    LooksKeepInv(s, 2 * m);
    var t := Looks(s, 2 * m);
    assert t.received == t.sent[..|t.sent|] == t.sent;
  }

  lemma {:induction false} StuckStays(s: System, k: nat)
    requires |s.r.trbs| == 64 && s.c.dequeue < 64 && Consume(s) == s
    ensures Looks(s, k) == s
  {
    if k > 0 {
      StuckStays(s, k - 1);
    }
  }

  /** A 63rd command outstanding while the consumer is at the link: the link is rewritten, and no look moves it. */
  lemma SixtyThirdBlocks(s: System, t: Trb)
    requires Inv(s) && s.c.dequeue == 63 && |s.sent| == |s.received| + 62 && IsCommand(t)
    ensures Consume(Sent(s, t)) == Sent(s, t)
  {
    hide Holding, Stale;
    var n := |s.received|;
    SeatLap(n - 63);
    SameLap(n, |s.sent|);
  }

  /** A 64th command outstanding overwrites the one the consumer is about to take, with the other cycle bit. */
  lemma SixtyFourthBlocks(s: System, t: Trb)
    requires Inv(s) && |s.sent| == |s.received| + 63 && IsCommand(t)
    ensures Consume(Sent(s, t)) == Sent(s, t)
  {
    hide Holding, Stale, LinkOk, Lap, Seat;
    SeatLap(|s.received|);
  }

  /**
   * Exactly: after sending one more command, the controller's looks deliver every command if and only
   * if at most 61 were outstanding, or 62 and the consumer was not at the link.
   */
  lemma SendDelivers(s: System, t: Trb)
    requires Inv(s) && IsCommand(t)
    ensures s.c.dequeue < 64 && (Delivers(Sent(s, t)) <==> Sendable(s))
  {
    hide Holding, Stale, LinkOk, Consume, Enqueue, Seat, Lap, Looks;
    LooksKeepInv(s, 0);
    var u := Sent(s, t);
    if Sendable(s) {
      EnqueueKeepsInv(s, t);
      InvDelivers(u);
    } else {
      if |s.sent| == |s.received| + 62 {
        SixtyThirdBlocks(s, t);
      } else {
        SixtyFourthBlocks(s, t);
      }
      forall k: nat ensures Looks(u, k).received != u.sent {
        StuckStays(u, k);
      }
    }
  }

  // What becomes of a blocked controller

  function SentAll(s: System, ts: seq<Trb>): (u: System)
    requires |s.r.trbs| == 64 && s.r.enqueue < 63
    ensures |u.r.trbs| == 64 && u.r.enqueue < 63 && u.c == s.c && u.received == s.received && u.sent == s.sent + ts
    ensures u.r.phys == s.r.phys
    decreases |ts|
  {
    if ts == [] then s else Sent(SentAll(s, ts[..|ts| - 1]), ts[|ts| - 1])
  }

  lemma {:induction false} SentAllRing(s: System, ts: seq<Trb>)
    requires RingOk(s) && forall i :: 0 <= i < |ts| ==> IsCommand(ts[i])
    ensures RingOk(SentAll(s, ts))
    decreases |ts|
  {
    hide Holding, Stale, LinkOk, Enqueue;
    if ts != [] {
      SentAllRing(s, ts[..|ts| - 1]);
      SendKeepsRing(SentAll(s, ts[..|ts| - 1]), ts[|ts| - 1]);
    }
  }

  /**
   * A controller blocked at the link stays there while fewer than 63 further commands go out. The 63rd
   * rewrites the link once more and lets it through, but by then every slot holds a later command, with
   * the cycle bit it does not expect: none of the commands that were outstanding is ever taken.
   */
  lemma BlockedThenLost(s: System, t: Trb, ts: seq<Trb>)
    requires Inv(s) && s.c.dequeue == 63 && |s.sent| == |s.received| + 62 && IsCommand(t) && |ts| <= 63
    requires forall i :: 0 <= i < |ts| ==> IsCommand(ts[i])
    ensures
      var n, u := |s.received|, SentAll(Sent(s, t), ts);
      && (|ts| < 63 ==> Consume(u) == u)
      && (|ts| == 63 ==>
            && Consume(u) == u.(c := Consumer(0, Lap(n))) && Consume(Consume(u)) == Consume(u)
            && forall k :: n + 63 <= k < n + 126 ==> u.r.trbs[Seat(k)] == Marked(u.sent[k], Lap(k)))
  {
    hide Lap, Seat, Holding, Stale, LinkOk, Consume, Enqueue, SentAll;
    var n, u := |s.received|, SentAll(Sent(s, t), ts);
    SendKeepsRing(s, t);
    SentAllRing(Sent(s, t), ts);
    SeatLap(n - 63);
    if |ts| < 63 {
      BlockedLink(u, n);
    } else {
      LostSlots(u, n);
      LinkPassed(u, n);
    }
  }

  /** The link carries the bit of the lap that the consumer has behind it. */
  lemma BlockedLink(u: System, n: nat)
    requires RingOk(u) && n + 63 <= |u.sent| < n + 126 && Seat(n) == 0
    requires u.c.dequeue == 63 && u.c.ccs != Lap(n)
    ensures Consume(u) == u
  {
    hide Lap, Seat, Holding, Stale;
    SameLap(n, |u.sent| - 63);
  }

  lemma LinkPassed(u: System, n: nat)
    requires |u.r.trbs| == 64 && u.c.dequeue == 63 && u.c.ccs != Lap(n)
    requires u.r.trbs[63] == LinkTo(u.r.phys, Lap(n + 63)) && CycleBit(u.r.trbs[0]) != Lap(n) && Lap(n) != Lap(n + 63)
    ensures Consume(u) == u.(c := Consumer(0, Lap(n))) && Consume(Consume(u)) == Consume(u)
  {
    hide Lap;
  }

  lemma LostSlots(u: System, n: nat)
    requires RingOk(u) && |u.sent| == n + 126 && Seat(n) == 0
    ensures u.r.trbs[63] == LinkTo(u.r.phys, Lap(n + 63)) && CycleBit(u.r.trbs[0]) != Lap(n) && Lap(n) != Lap(n + 63)
    ensures forall k :: n + 63 <= k < n + 126 ==> u.r.trbs[Seat(k)] == Marked(u.sent[k], Lap(k))
  {
    hide Lap, Seat;
    SeatLap(n);
    SeatLap(n + 63);
    assert CycleBit(u.r.trbs[Seat(n + 126)]) != Lap(n + 126);
  }

  // The blocked state can be reached

  ghost predicate Reachable(s: System, phys: nat) {
    exists ss, steps :: Trace(ss, steps, phys) && ss[|steps|] == s
  }

  lemma ReachableStep(s: System, phys: nat, a: Step)
    requires Reachable(s, phys) && Inv(s) && s.c.dequeue < 64 && Allowed(s, a)
    ensures Reachable(Next(s, a), phys)
  {
    hide Holding, Stale, LinkOk, Next, Init, Allowed;
    var ss, steps :| Trace(ss, steps, phys) && ss[|steps|] == s;
    assert Trace(ss + [Next(s, a)], steps + [a], phys);
  }

  /** Each of `k` commands is taken before the next one goes out. */
  lemma {:induction false} OneByOne(phys: nat, t: Trb, k: nat) returns (s: System)
    requires IsCommand(t) && k <= 63
    ensures Reachable(s, phys) && Inv(s) && |s.sent| == |s.received| == s.c.dequeue == k
  {
    hide Holding, Stale, LinkOk, Enqueue, Consume, Trace, Lap;
    if k == 0 {
      s := Init(phys);
      InitInv(phys);
      StartReachable(phys);
    } else {
      var u := OneByOne(phys, t, k - 1);
      EnqueueKeepsInv(u, t);
      ReachableStep(u, phys, Send(t));
      var w := Sent(u, t);
      ReachableStep(w, phys, Look);
      ConsumerSees(w);
      ConsumeKeepsInv(w);
      s := Consume(w);
    }
  }

  lemma StartReachable(phys: nat)
    ensures Reachable(Init(phys), phys)
  {
    assert Trace([Init(phys)], [], phys);
  }

  lemma {:induction false} ThenMany(phys: nat, t: Trb, s: System, k: nat) returns (u: System)
    requires IsCommand(t) && k <= 62 && Reachable(s, phys) && Inv(s) && |s.sent| == |s.received| && s.c.dequeue == 63
    ensures Reachable(u, phys) && Inv(u) && u.c == s.c && u.received == s.received && |u.sent| == |u.received| + k
  {
    hide Holding, Stale, LinkOk, Enqueue, Consume, Trace, Lap, Seat;
    u := s;
    if k > 0 {
      var w := ThenMany(phys, t, s, k - 1);
      EnqueueKeepsInv(w, t);
      ReachableStep(w, phys, Send(t));
      u := Sent(w, t);
    }
  }

  /** 63 commands sent and taken, then 62 sent: the consumer is at the link with 62 outstanding. */
  lemma BlockableReached(phys: nat, t: Trb) returns (s: System)
    requires IsCommand(t)
    ensures Reachable(s, phys) && Inv(s) && s.c.dequeue == 63 && |s.sent| == |s.received| + 62
  {
    hide Holding, Stale, LinkOk, Trace;
    var u := OneByOne(phys, t, 63);
    s := ThenMany(phys, t, u, 62);
  }

  /** The driver's ring. */
  class CommandRing {
    const trbs: array<Trb>
    const phys: nat
    var enqueue: nat
    var cycle: bool

    ghost function R(): Ring
      reads this, trbs
    {
      Ring(trbs[..], phys, enqueue, cycle)
    }

    /** The command-ring part of `xhci_setup_rings`. */
    constructor (phys: nat)
      ensures R() == Init(phys).r && fresh(trbs)
    {
      trbs := new Trb[64](_ => Trb(0, 0, 0));
      this.phys := phys;
      enqueue, cycle := 0, true;
      new;
      assert trbs[..] == Init(phys).r.trbs;
    }

    /** `xhci_ring_cmd` */
    method RingCommand(param: nat, status: u32, control: u32)
      requires trbs.Length == 64 && enqueue < 63
      modifies this, trbs
      ensures R() == Enqueue(old(R()), Trb(param, status, control))
    {
      trbs[enqueue] := Trb(param, status, if cycle && control % 2 == 0 then control + 1 else control);
      enqueue := enqueue + 1;
      if enqueue >= 63 {
        trbs[63] := Trb(phys, 0, 6 * 1024 + 2 + if cycle then 1 else 0);
        enqueue := 0;
        cycle := !cycle;
      }
    }
  }
}

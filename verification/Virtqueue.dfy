/**
 * The input driver's split virtqueue (section 2.7 of VIRTIO Version 1.2): driver and device as two
 * processes that share rings through 16-bit indices.
 */
module Virtqueue {
  import opened Bytes

  // Rings and descriptor table have 16 entries (QUEUE_SIZE).

  datatype Event = Event(kind: u16, code: u16, value: u32)

  /** Pointer state as the driver reports it. */
  datatype Mouse = Mouse(x: u32, y: u32, left: bool, right: bool)

  /** The effect of one input event: EV_ABS moves, EV_KEY presses or releases a button. */
  function Apply(m: Mouse, e: Event): Mouse {
    if e.kind == 3 then
      if e.code == 0 then m.(x := e.value) else if e.code == 1 then m.(y := e.value) else m
    else if e.kind == 1 then
      if e.code == 0x110 then m.(left := e.value != 0) else if e.code == 0x111 then m.(right := e.value != 0) else m
    else m
  }

  function ApplyAll(m: Mouse, es: seq<Event>): Mouse {
    if es == [] then m else Apply(ApplyAll(m, es[..|es| - 1]), es[|es| - 1])
  }

  predicate IsEvent(e: Event, kind: u16, code: u16) { e.kind == kind && e.code == code }

  /** Event `i` is the last one of its kind and code. */
  predicate IsLast(es: seq<Event>, kind: u16, code: u16, i: int) {
    0 <= i < |es| && IsEvent(es[i], kind, code) && forall j :: i < j < |es| ==> !IsEvent(es[j], kind, code)
  }

  predicate NoneOf(es: seq<Event>, kind: u16, code: u16) { forall i :: 0 <= i < |es| ==> !IsEvent(es[i], kind, code) }

  /**
   * What the pointer state must be after these events: each coordinate is the value of the last EV_ABS
   * event for its axis (ABS_X is 0, ABS_Y is 1), each button is down if the last EV_KEY event for it
   * (BTN_LEFT is 0x110, BTN_RIGHT is 0x111) had a nonzero value; without such an event, as it was.
   */
  ghost predicate MouseIs(start: Mouse, es: seq<Event>, m: Mouse) {
    && (forall i :: IsLast(es, 3, 0, i) ==> m.x == es[i].value) && (NoneOf(es, 3, 0) ==> m.x == start.x)
    && (forall i :: IsLast(es, 3, 1, i) ==> m.y == es[i].value) && (NoneOf(es, 3, 1) ==> m.y == start.y)
    && (forall i :: IsLast(es, 1, 0x110, i) ==> m.left == (es[i].value != 0))
    && (NoneOf(es, 1, 0x110) ==> m.left == start.left)
    && (forall i :: IsLast(es, 1, 0x111, i) ==> m.right == (es[i].value != 0))
    && (NoneOf(es, 1, 0x111) ==> m.right == start.right)
  }

  lemma LastBefore(es: seq<Event>, kind: u16, code: u16)
    requires es != []
    ensures
      var n := |es| - 1;
      && (IsEvent(es[n], kind, code) ==> forall i :: IsLast(es, kind, code, i) ==> i == n)
      && (!IsEvent(es[n], kind, code) ==>
            forall i :: IsLast(es, kind, code, i) ==> IsLast(es[..n], kind, code, i) && 0 <= i < n && es[..n][i] == es[i])
      && (NoneOf(es, kind, code) ==> NoneOf(es[..n], kind, code) && !IsEvent(es[n], kind, code))
  {
  }

  /** Handling events one after the other leaves that state. */
  lemma {:induction false} ApplyAllMeans(start: Mouse, es: seq<Event>)
    ensures MouseIs(start, es, ApplyAll(start, es))
    decreases |es|
  {
    hide IsLast, NoneOf;
    if es == [] {
      NothingLast(es);
    } else {
      ApplyAllMeans(start, es[..|es| - 1]);
      LastBefore(es, 3, 0);
      LastBefore(es, 3, 1);
      LastBefore(es, 1, 0x110);
      LastBefore(es, 1, 0x111);
    }
  }

  lemma NothingLast(es: seq<Event>)
    requires es == []
    ensures forall kind: u16, code: u16, i :: !IsLast(es, kind, code, i)
  {
  }

  /**
   * The memory that both sides see, and the driver's own index and state; `log` records every
   * handling of an event, since the state alone cannot tell one handling from two.
   */
  datatype Rings = Rings(
    avail: seq<nat>, availIdx: u16,
    used: seq<nat>, usedIdx: u16,
    events: seq<Event>,
    lastUsed: u16, mouse: Mouse, log: seq<Event>)

  predicate Sized(r: Rings) {
    |r.avail| == |r.used| == |r.events| == 16 && forall k :: 0 <= k < 16 ==> r.used[k] < 16
  }

  // The driver's loop body in its four visible steps

  function Fetched(r: Rings): nat
    requires Sized(r)
  {
    r.used[r.lastUsed % 16]
  }

  function Consume(r: Rings): Rings
    requires Sized(r)
  {
    var e := r.events[Fetched(r)];
    r.(mouse := Apply(r.mouse, e), log := r.log + [e])
  }

  function StoreAvail(r: Rings, id: nat): Rings
    requires Sized(r)
  {
    r.(avail := r.avail[r.availIdx % 16 := id])
  }

  function BumpAvail(r: Rings): Rings { r.(availIdx := Wrap16(r.availIdx + 1)) }

  function BumpUsed(r: Rings): Rings { r.(lastUsed := Wrap16(r.lastUsed + 1)) }

  /** One pass through the loop of `mouse_poll`. */
  function PollOne(r: Rings): (s: Rings)
    requires Sized(r)
    ensures Sized(s) && s.used == r.used && s.usedIdx == r.usedIdx && s.lastUsed == Wrap16(r.lastUsed + 1)
  {
    BumpUsed(BumpAvail(StoreAvail(Consume(r), Fetched(r))))
  }

  // The two processes

  /** Where the driver is; the number is how many used entries it saw when the poll began. */
  datatype DriverPc =
    | Idle
    | Looping(seen: nat)
    | Holding(seen: nat, id: nat)
    | Stored(seen: nat, id: nat)
    | Offered(seen: nat)

  /** A device fills a buffer and a used slot before it makes them visible. */
  datatype DevicePc = Resting | Filled(id: nat, ev: Event)

  datatype Place = InAvail(k: nat) | InDevice | InFilled | InUsed(k: nat) | InDriver

  /**
   * The whole system. `offered` and `returned` record everything ever put into the two rings,
   * `taken` and `handled` count how far device and driver have come; `place` says where each
   * descriptor is.
   */
  datatype System = System(
    r: Rings, driver: DriverPc,
    lastAvail: u16, held: set<nat>, device: DevicePc,
    offered: seq<nat>, returned: seq<(nat, Event)>, taken: nat, handled: nat,
    start: Mouse, place: seq<Place>)

  /** The used entries whose events have been applied. */
  function Applied(s: System): nat {
    if s.driver.Idle? || s.driver.Looping? then s.handled else s.handled + 1
  }

  function EventsOf(u: seq<(nat, Event)>): seq<Event> {
    seq(|u|, i requires 0 <= i < |u| => u[i].1)
  }

  /** The 16-bit indices are the true counts, wrapped. */
  ghost predicate Indices(s: System) {
    && s.r.availIdx == |s.offered| % 0x1_0000 && s.r.usedIdx == |s.returned| % 0x1_0000
    && s.lastAvail == s.taken % 0x1_0000 && s.r.lastUsed == s.handled % 0x1_0000
    && |s.offered| == s.handled + (if s.driver.Offered? then 17 else 16)
    && Applied(s) <= |s.returned|
    && s.taken == |s.returned| + (if s.device.Filled? then 1 else 0) + |s.held|
    && s.taken <= |s.offered|
    && (!s.driver.Idle? ==> Applied(s) <= s.driver.seen <= |s.returned|)
  }

  /** The ring slots and buffers hold what they should. */
  ghost predicate Contents(s: System)
    requires Sized(s.r)
  {
    && (forall k :: s.taken <= k < |s.offered| ==> s.r.avail[k % 16] == s.offered[k])
    && (s.driver.Stored? ==> s.r.avail[|s.offered| % 16] == s.driver.id)
    && (forall k :: Applied(s) <= k < |s.returned| ==>
          s.returned[k].0 < 16 && s.r.used[k % 16] == s.returned[k].0 && s.r.events[s.returned[k].0] == s.returned[k].1)
    && (s.device.Filled? ==>
          && s.device.id < 16
          && s.r.used[|s.returned| % 16] == s.device.id && s.r.events[s.device.id] == s.device.ev)
  }

  /** Wherever a descriptor turns up, `place` says so. */
  ghost predicate PlacedThere(s: System) {
    && |s.place| == 16
    && (forall k :: s.taken <= k < |s.offered| ==> s.offered[k] < 16 && s.place[s.offered[k]] == InAvail(k))
    && (forall d :: d in s.held ==> d < 16 && s.place[d] == InDevice)
    && (s.device.Filled? ==> s.device.id < 16 && s.place[s.device.id] == InFilled)
    && (forall k :: Applied(s) <= k < |s.returned| ==> s.returned[k].0 < 16 && s.place[s.returned[k].0] == InUsed(k))
    && ((s.driver.Holding? || s.driver.Stored?) ==> s.driver.id < 16 && s.place[s.driver.id] == InDriver)
  }

  /** And where `place` says a descriptor is, it is. */
  ghost predicate FoundThere(s: System) {
    && |s.place| == 16
    && forall d :: 0 <= d < 16 ==>
         match s.place[d]
         case InAvail(k) => s.taken <= k < |s.offered| && s.offered[k] == d
         case InDevice => d in s.held
         case InFilled => s.device.Filled? && s.device.id == d
         case InUsed(k) => Applied(s) <= k < |s.returned| && s.returned[k].0 == d
         case InDriver => (s.driver.Holding? || s.driver.Stored?) && s.driver.id == d
  }

  /** Each descriptor is in exactly the one place that `place` names. */
  ghost predicate Places(s: System) {
    PlacedThere(s) && FoundThere(s)
  }

  /** Every event the device has returned has been handled once, in order, up to where the driver is. */
  ghost predicate History(s: System) {
    Applied(s) <= |s.returned| && s.r.log == EventsOf(s.returned[..Applied(s)]) && s.r.mouse == ApplyAll(s.start, s.r.log)
  }

  ghost predicate Inv(s: System) {
    Sized(s.r) && Indices(s) && Contents(s) && Places(s) && History(s)
  }

  /** The rings as `mouse_init` leaves them: every descriptor on offer, nothing used. */
  function Init(r: Rings): System
    requires Sized(r)
  {
    System(r.(avail := seq(16, i => i), availIdx := 16, usedIdx := 0, lastUsed := 0, log := []), Idle, 0, {}, Resting,
           seq(16, i => i), [], 0, 0, r.mouse, seq(16, i requires 0 <= i => InAvail(i)))
  }

  lemma InitInv(r: Rings)
    requires Sized(r)
    ensures Inv(Init(r))
  {
  }

  // Steps

  datatype Step = Driver | Take | Fill(id: nat, ev: Event) | Publish

  /** The next thing the driver does. */
  function DriverStep(s: System): System
    requires Sized(s.r)
  {
    match s.driver
    case Idle => s.(driver := Looping(|s.returned|))
    case Looping(seen) =>
      if s.r.lastUsed == seen % 0x1_0000 then s.(driver := Idle) else
      var id := Fetched(s.r);
      s.(r := Consume(s.r), driver := Holding(seen, id),
         place := if id < |s.place| then s.place[id := InDriver] else s.place)
    case Holding(seen, id) => s.(r := StoreAvail(s.r, id), driver := Stored(seen, id))
    case Stored(seen, id) =>
      s.(r := BumpAvail(s.r), driver := Offered(seen), offered := s.offered + [id],
         place := if id < |s.place| then s.place[id := InAvail(|s.offered|)] else s.place)
    case Offered(seen) => s.(r := BumpUsed(s.r), driver := Looping(seen), handled := s.handled + 1)
  }

  /** A device takes an available descriptor, and returns the ones it holds in any order it likes. */
  function DeviceStep(s: System, a: Step): System
    requires Sized(s.r)
  {
    match a
    case Driver => s
    case Take =>
      if s.lastAvail == s.r.availIdx then s else
      var id := s.r.avail[s.lastAvail % 16];
      s.(lastAvail := Wrap16(s.lastAvail + 1), held := s.held + {id}, taken := s.taken + 1,
         place := if id < |s.place| then s.place[id := InDevice] else s.place)
    case Fill(id, ev) =>
      if id !in s.held || id >= 16 || s.device.Filled? then s else
      s.(r := s.r.(events := s.r.events[id := ev], used := s.r.used[s.r.usedIdx % 16 := id]),
         held := s.held - {id}, device := Filled(id, ev),
         place := if id < |s.place| then s.place[id := InFilled] else s.place)
    case Publish =>
      if s.device.Resting? then s else
      s.(r := s.r.(usedIdx := Wrap16(s.r.usedIdx + 1)), device := Resting,
         returned := s.returned + [(s.device.id, s.device.ev)],
         place := if s.device.id < |s.place| then s.place[s.device.id := InUsed(|s.returned|)] else s.place)
  }

  function Next(s: System, a: Step): System
    requires Sized(s.r)
  {
    if a.Driver? then DriverStep(s) else DeviceStep(s, a)
  }

  // Every step keeps the invariant

  lemma SlotsDiffer(a: nat, b: nat)
    requires a < b < a + 16
    ensures a % 16 != b % 16
  {
  }

  lemma WrapsDiffer(a: nat, b: nat)
    requires a <= b < a + 0x1_0000
    ensures a % 0x1_0000 == b % 0x1_0000 <==> a == b
  {
  }

  lemma WrappedSlot(a: nat)
    ensures a % 0x1_0000 % 16 == a % 16
    ensures Wrap16(a % 0x1_0000 + 1) == (a + 1) % 0x1_0000
  {
  }

  lemma PollBegins(s: System)
    requires Inv(s) && s.driver.Idle?
    ensures Inv(DriverStep(s))
  {
  }

  lemma {:induction false} OneMoreEvent(m: Mouse, u: seq<(nat, Event)>, n: nat)
    requires n < |u|
    ensures EventsOf(u[..n + 1]) == EventsOf(u[..n]) + [u[n].1]
    ensures ApplyAll(m, EventsOf(u[..n + 1])) == Apply(ApplyAll(m, EventsOf(u[..n])), u[n].1)
  {
    var es := EventsOf(u[..n + 1]);
    assert es[..|es| - 1] == EventsOf(u[..n]);
  }

  /** What the driver reads is the oldest entry it has not handled. */
  lemma FetchReads(s: System)
    requires Inv(s) && s.driver.Looping? && s.r.lastUsed != s.driver.seen % 0x1_0000
    ensures s.handled < s.driver.seen
    ensures Fetched(s.r) == s.returned[s.handled].0 && s.r.events[Fetched(s.r)] == s.returned[s.handled].1
  {
    WrappedSlot(s.handled);
  }

  lemma PollFetches(s: System)
    requires Inv(s) && s.driver.Looping?
    ensures Inv(DriverStep(s))
  {
    hide Places, History, Apply, ApplyAll;
    WrapsDiffer(s.handled, s.driver.seen);
    if s.r.lastUsed != s.driver.seen % 0x1_0000 {
      FetchReads(s);
      FetchPlaces(s);
      FetchHistory(s);
    } else {
      assert Places(s.(driver := Idle)) && History(s.(driver := Idle)) by { PollRests(s); }
    }
  }

  lemma PollRests(s: System)
    requires Places(s) && History(s) && s.driver.Looping?
    ensures Places(s.(driver := Idle)) && History(s.(driver := Idle))
  {
  }

  lemma FetchPlaces(s: System)
    requires Sized(s.r) && Indices(s) && Places(s) && s.driver.Looping? && s.r.lastUsed != s.driver.seen % 0x1_0000
    requires s.handled < |s.returned| && Fetched(s.r) == s.returned[s.handled].0
    ensures Places(DriverStep(s))
  {
    hide Indices, Apply;
  }

  lemma FetchHistory(s: System)
    requires Sized(s.r) && Indices(s) && History(s) && s.driver.Looping? && s.r.lastUsed != s.driver.seen % 0x1_0000
    requires s.handled < |s.returned| && s.r.events[Fetched(s.r)] == s.returned[s.handled].1
    ensures History(DriverStep(s))
  {
    hide Indices, Apply, ApplyAll, EventsOf;
    OneMoreEvent(s.start, s.returned, s.handled);
  }

  /** The slot written is not one that the device has yet to look at. */
  lemma NoOverwrite(s: System)
    requires Inv(s) && s.driver.Holding?
    ensures s.r.availIdx % 16 == |s.offered| % 16
    ensures forall k :: s.taken <= k < |s.offered| ==> k % 16 != s.r.availIdx % 16
  {
    WrappedSlot(|s.offered|);
    forall k | s.taken <= k < |s.offered|
      ensures k % 16 != |s.offered| % 16
    {
      SlotsDiffer(k, |s.offered|);
    }
  }

  lemma PollStores(s: System)
    requires Inv(s) && s.driver.Holding?
    ensures Inv(DriverStep(s))
  {
    NoOverwrite(s);
  }

  lemma PollOffers(s: System)
    requires Inv(s) && s.driver.Stored?
    ensures Inv(DriverStep(s))
  {
    hide Places, History;
    WrappedSlot(|s.offered|);
    OfferPlaces(s);
    assert History(DriverStep(s)) by { OfferHistory(s); }
  }

  lemma OfferPlaces(s: System)
    requires Sized(s.r) && Places(s) && s.driver.Stored? && s.taken <= |s.offered|
    ensures Places(DriverStep(s))
  {
  }

  lemma OfferHistory(s: System)
    requires Sized(s.r) && History(s) && s.driver.Stored?
    ensures History(DriverStep(s))
  {
  }

  lemma PollAdvances(s: System)
    requires Inv(s) && s.driver.Offered?
    ensures Inv(DriverStep(s))
  {
    WrappedSlot(s.handled);
  }

  lemma DeviceTakes(s: System)
    requires Inv(s)
    ensures Inv(DeviceStep(s, Take))
  {
    hide Places, History;
    WrappedSlot(s.taken);
    WrapsDiffer(s.taken, |s.offered|);
    assert History(DeviceStep(s, Take)) by { TakeHistory(s); }
    if s.lastAvail != s.r.availIdx {
      assert s.r.avail[s.lastAvail % 16] == s.offered[s.taken];
      TakePlaces(s);
    }
  }

  lemma TakeHistory(s: System)
    requires Sized(s.r) && History(s)
    ensures History(DeviceStep(s, Take))
  {
  }

  lemma TakePlaces(s: System)
    requires Sized(s.r) && Places(s) && s.taken < |s.offered| && s.r.avail[s.lastAvail % 16] == s.offered[s.taken]
    requires s.lastAvail != s.r.availIdx
    ensures Places(DeviceStep(s, Take))
    ensures |s.held + {s.offered[s.taken]}| == |s.held| + 1
  {
    hide FoundThere, Apply;
    assert s.offered[s.taken] !in s.held;
    TakeFound(s);
  }

  lemma TakeFound(s: System)
    requires Sized(s.r) && FoundThere(s) && PlacedThere(s) && s.taken < |s.offered|
    requires s.r.avail[s.lastAvail % 16] == s.offered[s.taken] && s.lastAvail != s.r.availIdx
    ensures FoundThere(DeviceStep(s, Take))
  {
    hide Apply;
    var t := DeviceStep(s, Take);
    var id := s.offered[s.taken];
    forall d | 0 <= d < 16 && d != id
      ensures t.place[d] == s.place[d] && (s.place[d].InAvail? ==> s.place[d].k != s.taken)
    {
    }
  }

  lemma DeviceFills(s: System, id: nat, ev: Event)
    requires Inv(s)
    ensures Inv(DeviceStep(s, Fill(id, ev)))
  {
    hide Places, History, Contents;
    WrappedSlot(|s.returned|);
    if id in s.held && id < 16 && s.device.Resting? {
      assert |s.held - {id}| == |s.held| - 1;
      FillPlaces(s, id, ev);
      FillContents(s, id, ev);
      assert History(DeviceStep(s, Fill(id, ev))) by { FillHistory(s, id, ev); }
    }
  }

  lemma FillHistory(s: System, id: nat, ev: Event)
    requires Sized(s.r) && History(s)
    ensures History(DeviceStep(s, Fill(id, ev)))
  {
  }

  lemma FillPlaces(s: System, id: nat, ev: Event)
    requires Sized(s.r) && Places(s) && id in s.held && id < 16 && s.device.Resting?
    ensures Places(DeviceStep(s, Fill(id, ev)))
  {
    hide Apply;
  }

  /** The buffer and the used slot that the device writes are not ones the driver has yet to read. */
  lemma FillContents(s: System, id: nat, ev: Event)
    requires Sized(s.r) && Indices(s) && Contents(s) && Places(s) && id in s.held && id < 16 && s.device.Resting?
    requires s.r.usedIdx % 16 == |s.returned| % 16
    ensures Contents(DeviceStep(s, Fill(id, ev))) && Sized(DeviceStep(s, Fill(id, ev)).r)
  {
    hide Apply, FoundThere;
    assert |s.held - {id}| == |s.held| - 1;
    forall k | Applied(s) <= k < |s.returned|
      ensures k % 16 != |s.returned| % 16 && s.returned[k].0 != id
    {
      SlotsDiffer(k, |s.returned|);
    }
  }

  lemma DevicePublishes(s: System)
    requires Inv(s)
    ensures Inv(DeviceStep(s, Publish))
  {
    hide Places, History;
    WrappedSlot(|s.returned|);
    if s.device.Filled? {
      PublishPlaces(s);
      assert History(DeviceStep(s, Publish)) by { PublishHistory(s); }
    }
  }

  lemma PublishPlaces(s: System)
    requires Sized(s.r) && Places(s) && s.device.Filled? && Applied(s) <= |s.returned|
    ensures Places(DeviceStep(s, Publish))
  {
  }

  lemma PublishHistory(s: System)
    requires Sized(s.r) && History(s) && s.device.Filled?
    ensures History(DeviceStep(s, Publish))
  {
    hide ApplyAll;
    var t := DeviceStep(s, Publish);
    assert t.returned[..Applied(t)] == s.returned[..Applied(s)];
  }

  /** In every interleaving, the next step keeps the invariant. */
  lemma StepKeepsInv(s: System, a: Step)
    requires Inv(s)
    ensures Inv(Next(s, a))
  {
    hide Inv, DriverStep, DeviceStep;
    match a
    case Driver =>
      match s.driver {
        case Idle => PollBegins(s);
        case Looping(_) => PollFetches(s);
        case Holding(_, _) => PollStores(s);
        case Stored(_, _) => PollOffers(s);
        case Offered(_) => PollAdvances(s);
      }
    case Take => DeviceTakes(s);
    case Fill(id, ev) => DeviceFills(s, id, ev);
    case Publish => DevicePublishes(s);
  }

  ghost predicate Trace(ss: seq<System>, steps: seq<Step>, r: Rings)
    requires Sized(r)
  {
    && |ss| == |steps| + 1 && ss[0] == Init(r)
    && forall n :: 0 <= n < |steps| ==> Sized(ss[n].r) ==> ss[n + 1] == Next(ss[n], steps[n])
  }

  lemma {:induction false} TraceInv(ss: seq<System>, steps: seq<Step>, r: Rings, n: nat)
    requires Sized(r) && Trace(ss, steps, r) && n <= |steps|
    ensures Inv(ss[n])
  {
    hide Indices, Contents, Places, History, Next, Init;
    if n == 0 {
      InitInv(r);
    } else {
      TraceInv(ss, steps, r, n - 1);
      StepKeepsInv(ss[n - 1], steps[n - 1]);
      assert ss[n - 1 + 1] == Next(ss[n - 1], steps[n - 1]);
    }
  }

  lemma IndexGap(s: System)
    requires Inv(s) && (s.driver.Idle? || s.driver.Looping?)
    ensures (s.r.availIdx - s.r.lastUsed) % 0x1_0000 == 16
  {
    hide Contents, Places, History;
  }

  /**
   * What the invariant gives an observer, in its own terms: between loop passes the available index
   * is exactly one ring ahead of the handled index modulo 2^16, and every descriptor is on offer,
   * with the device, or returned and unhandled, and in only one of these. Exactly the events of the
   * handled entries have been handled, each once, in the order in which they were returned.
   */
  lemma Observed(s: System, d: nat)
    requires Inv(s) && d < 16 && (s.driver.Idle? || s.driver.Looping?)
    ensures (s.r.availIdx - s.r.lastUsed) % 0x1_0000 == 16
    ensures
      var onOffer := exists k :: s.taken <= k < |s.offered| && s.offered[k] == d;
      var withDevice := d in s.held || (s.device.Filled? && s.device.id == d);
      var unhandled := exists k :: s.handled <= k < |s.returned| && s.returned[k].0 == d;
      && (onOffer || withDevice || unhandled)
      && !(onOffer && withDevice) && !(onOffer && unhandled) && !(withDevice && unhandled)
    ensures s.r.log == EventsOf(s.returned[..s.handled]) && MouseIs(s.start, s.r.log, s.r.mouse)
  {
    hide Contents, Indices, Apply, ApplyAll, MouseIs;
    IndexGap(s);
    ApplyAllMeans(s.start, s.r.log);
    match s.place[d]
    case InAvail(k) => assert s.offered[k] == d;
    case InUsed(k) => assert s.returned[k].0 == d;
    case _ =>
  }

  // An uninterrupted poll

  /** The loop of `mouse_poll`, run until the handled index meets the index seen at the start. */
  function PollTo(r: Rings, current: u16): (s: Rings)
    requires Sized(r)
    ensures Sized(s)
    decreases (current - r.lastUsed) % 0x1_0000
  {
    if r.lastUsed == current then r else PollTo(PollOne(r), current)
  }

  /** Four driver steps with nothing in between are one pass of the loop. */
  lemma PassIsFourSteps(s: System)
    requires Inv(s) && s.driver.Looping? && s.r.lastUsed != s.driver.seen % 0x1_0000
    ensures
      var t := DriverStep(DriverStep(DriverStep(DriverStep(s))));
      && Inv(t) && t.driver == s.driver && t.r == PollOne(s.r) && t.handled == s.handled + 1 && t.returned == s.returned
      && s.handled < s.driver.seen && t.start == s.start
  {
    hide Indices, Contents, Places, History, Consume, StoreAvail, BumpAvail, BumpUsed;
    FetchReads(s);
    PollFetches(s);
    var a := DriverStep(s);
    PollStores(a);
    var b := DriverStep(a);
    PollOffers(b);
    PollAdvances(DriverStep(b));
  }

  /** When the handled index meets the index seen, everything seen has been handled. */
  lemma PollEnds(s: System)
    requires Inv(s) && s.driver.Looping? && s.r.lastUsed == s.driver.seen % 0x1_0000
    ensures (s.r.availIdx - s.r.lastUsed) % 0x1_0000 == 16
    ensures s.driver.seen <= |s.returned| && s.r.log == EventsOf(s.returned[..s.driver.seen])
    ensures MouseIs(s.start, s.r.log, s.r.mouse)
  {
    hide Contents, Places, ApplyAll, EventsOf, MouseIs;
    ApplyAllMeans(s.start, s.r.log);
    IndexGap(s);
    WrapsDiffer(s.handled, s.driver.seen);
  }

  /** A poll that nobody interrupts leaves the rings of `PollTo` and every event seen handled once, in order. */
  lemma {:induction false} PollHandlesAll(s: System)
    requires Inv(s) && s.driver.Looping?
    ensures
      var r := PollTo(s.r, s.driver.seen % 0x1_0000);
      && r.lastUsed == s.driver.seen % 0x1_0000 && (r.availIdx - r.lastUsed) % 0x1_0000 == 16
      && r.log == EventsOf(s.returned[..s.driver.seen]) && MouseIs(s.start, r.log, r.mouse)
    decreases s.driver.seen - s.handled
  {
    hide Indices, Contents, Places, History, PollOne, ApplyAll, EventsOf, MouseIs;
    if s.r.lastUsed == s.driver.seen % 0x1_0000 {
      PollEnds(s);
    } else {
      PassIsFourSteps(s);
      PollHandlesAll(DriverStep(DriverStep(DriverStep(DriverStep(s)))));
    }
  }

  class MouseQueue {
    const avail: array<nat>
    const used: array<nat>
    const events: array<Event>
    var availIdx: u16
    var usedIdx: u16
    var lastUsed: u16
    var mouse: Mouse
    ghost var log: seq<Event>

    ghost function R(): Rings
      reads this, avail, used, events
    {
      Rings(avail[..], availIdx, used[..], usedIdx, events[..], lastUsed, mouse, log)
    }

    /** The rings as set up by `mouse_init`. */
    constructor ()
      ensures Sized(R()) && Init(R()).r == R() && fresh(avail) && avail != used
    {
      avail := new nat[16];
      used := new nat[16](_ => 0);
      events := new Event[16](_ => Event(0, 0, 0));
      lastUsed, usedIdx := 0, 0;
      mouse := Mouse(16384, 16384, false, false);
      log := [];
      new;
      for i := 0 to 16
        invariant forall j :: 0 <= j < i ==> avail[j] == j
        invariant used[..] == seq(16, _ => 0) && usedIdx == lastUsed == 0 && log == []
      {
        avail[i] := i;
      }
      availIdx := 16;
    }

    /** What `mouse_poll` does with one event. */
    method Handle(ev: Event)
      modifies this`mouse, this`log
      ensures mouse == Apply(old(mouse), ev) && log == old(log) + [ev]
    {
      log := log + [ev];
      if ev.kind == 3 {
        if ev.code == 0 {
          mouse := mouse.(x := ev.value);
        } else if ev.code == 1 {
          mouse := mouse.(y := ev.value);
        }
      } else if ev.kind == 1 {
        if ev.code == 0x110 {
          mouse := mouse.(left := ev.value != 0);
        } else if ev.code == 0x111 {
          mouse := mouse.(right := ev.value != 0);
        }
      }
    }

    /** The loop body of `mouse_poll`. */
    method Pass()
      requires Sized(R()) && avail != used
      modifies this, avail
      ensures R() == PollOne(old(R()))
    {
      hide Apply;
      var idx := lastUsed % 16;
      var id := used[idx];
      Handle(events[id]);
      avail[availIdx % 16] := id;
      availIdx := Wrap16(availIdx + 1);
      lastUsed := Wrap16(lastUsed + 1);
    }

    /** `mouse_poll` */
    method Poll()
      requires Sized(R()) && avail != used
      modifies this, avail
      ensures Sized(R()) && R() == PollTo(old(R()), old(usedIdx))
    {
      hide PollOne;
      var current := usedIdx;
      while lastUsed != current
        invariant Sized(R()) && usedIdx == current
        invariant PollTo(R(), current) == PollTo(old(R()), current)
        decreases (current - lastUsed) % 0x1_0000
      {
        Pass();
      }
    }
  }
}

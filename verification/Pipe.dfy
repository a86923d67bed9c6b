/** The pipe: a locked ring buffer, with readers and writers that drop the lock while they wait. */
module Pipe {
  import opened Bytes

  const EPIPE: int := 32

  /** `struct pipe`, and how often it has been freed. */
  datatype Ring = Ring(buffer: seq<byte>, readPos: nat, writePos: nat, count: nat, readers: int, writers: int, frees: nat)

  /** `x % PIPE_SIZE`, where PIPE_SIZE is 4096, for positions less than twice the size. */
  function Fold(x: nat): nat {
    if x < 4096 then x else x - 4096
  }

  lemma FoldIs(x: nat)
    requires x < 8192
    ensures Fold(x) == x % 4096
  {
  }

  /** How far position `i` is behind position `from` in the ring. */
  function Behind(i: nat, from: nat): (d: nat)
    requires i < 4096 && from < 4096
    ensures d < 4096
  {
    if i >= from then i - from else i + 4096 - from
  }

  ghost predicate Formed(p: Ring) {
    && |p.buffer| == 4096 && p.readPos < 4096 && p.count <= 4096
    && p.writePos == Fold(p.readPos + p.count)
  }

  /** The bytes waiting to be read, oldest first. */
  function Waiting(p: Ring): (s: seq<byte>)
    requires |p.buffer| == 4096 && p.readPos < 4096 && p.count <= 4096
    ensures |s| == p.count
  {
    seq(p.count, i requires 0 <= i < p.count => p.buffer[Fold(p.readPos + i)])
  }

  /** The locked part of a read that takes `n` bytes. */
  function Taken(p: Ring, n: nat): (r: Ring)
    requires n <= p.count
    ensures r.readers == p.readers && r.writers == p.writers && r.frees == p.frees
  {
    p.(readPos := Fold(p.readPos + n), count := p.count - n)
  }

  /** The locked part of a write that adds `bytes`. */
  function Added(p: Ring, bytes: seq<byte>): (r: Ring)
    requires |p.buffer| == 4096 && p.writePos < 4096
    ensures |r.buffer| == 4096 && r.readers == p.readers && r.writers == p.writers && r.frees == p.frees
    ensures r.count == p.count + |bytes|
  {
    p.(buffer := seq(4096, i requires 0 <= i < 4096 =>
         if Behind(i, p.writePos) < |bytes| then bytes[Behind(i, p.writePos)] else p.buffer[i]),
       writePos := Fold(p.writePos + |bytes|), count := p.count + |bytes|)
  }

  lemma TakenWaiting(p: Ring, n: nat)
    requires Formed(p) && n <= p.count
    ensures Formed(Taken(p, n)) && Waiting(p) == Waiting(p)[..n] + Waiting(Taken(p, n))
  {
    var q := Taken(p, n);
    forall i | 0 <= i < q.count
      ensures Waiting(q)[i] == Waiting(p)[n + i]
    {
      assert Fold(Fold(p.readPos + n) + i) == Fold(p.readPos + (n + i));
    }
  }

  lemma AddedWaiting(p: Ring, bytes: seq<byte>)
    requires Formed(p) && p.count + |bytes| <= 4096
    ensures Formed(Added(p, bytes)) && Waiting(Added(p, bytes)) == Waiting(p) + bytes
  {
    var q := Added(p, bytes);
    forall i | 0 <= i < q.count
      ensures Waiting(q)[i] == (Waiting(p) + bytes)[i]
    {
      assert Behind(Fold(p.readPos + i), p.writePos) == if i < p.count then 4096 + i - p.count else i - p.count;
    }
  }

  // Readers, writers and closers

  /** A call in progress, or its result; -EPIPE is the only error a writer gets. */
  datatype Call =
    | Reading(n: nat)
    | Writing(buf: seq<byte>, written: nat)
    | ReadDone(n: nat, got: seq<byte>)
    | WriteDone(buf: seq<byte>, result: int)

  /** The pipe, all calls ever made on it, what has been read, and who wrote which chunk. */
  datatype System = System(p: Ring, calls: map<nat, Call>, consumed: seq<byte>, chunks: seq<(nat, seq<byte>)>)

  datatype Step =
    | StartRead(id: nat, n: nat)
    | StartWrite(id: nat, buf: seq<byte>)
    | TryRead(id: nat)
    | TryWrite(id: nat)
    | CloseRead
    | CloseWrite

  /** `do_pipe`: one end each, nothing in the buffer. */
  function Init(buffer: seq<byte>): System {
    System(Ring(buffer, 0, 0, 0, 1, 1, 0), map[], [], [])
  }

  /** A call starts on an open end; an open end may be closed at any time, also while a call on it waits. */
  ghost predicate Enabled(s: System, a: Step) {
    match a
    case StartRead(id, n) => id !in s.calls && s.p.readers > 0
    case StartWrite(id, buf) => id !in s.calls && s.p.writers > 0
    case TryRead(id) => id in s.calls && s.calls[id].Reading?
    case TryWrite(id) => id in s.calls && s.calls[id].Writing?
    case CloseRead => s.p.readers > 0
    case CloseWrite => s.p.writers > 0
  }

  /** A reader with the lock: it drops the lock again only while the pipe is empty and may be filled. */
  ghost function ReadLocked(p: Ring, n: nat): (r: (Ring, bool, seq<byte>))
    requires Formed(p)
  {
    if p.count == 0 && p.writers > 0 then (p, false, []) else
    var m := if n < p.count then n else p.count;
    (Taken(p, m), true, Waiting(p)[..m])
  }

  /** What a writer without readers gets. */
  function Broken(written: nat): int { if written > 0 then written else -EPIPE }

  /** A writer with the lock: the new ring, the chunk added, and the result once the call is over. */
  ghost function WriteLocked(p: Ring, buf: seq<byte>, written: nat): (r: (Ring, seq<byte>, bool, int))
    requires Formed(p) && written <= |buf|
    ensures |r.1| <= |buf| - written
  {
    if p.readers == 0 then (p, [], true, Broken(written))
    else if written == |buf| then (p, [], true, written)
    else if p.count >= 4096 then (p, [], false, 0)
    else
      var space := 4096 - p.count;
      var n := if |buf| - written < space then |buf| - written else space;
      (Added(p, buf[written..written + n]), buf[written..written + n], written + n == |buf|, written + n)
  }

  function Released(p: Ring): Ring {
    if p.readers == 0 && p.writers == 0 then p.(frees := p.frees + 1) else p
  }

  ghost function Next(s: System, a: Step): System
    requires Formed(s.p) && Enabled(s, a)
    requires forall id :: id in s.calls && s.calls[id].Writing? ==> s.calls[id].written <= |s.calls[id].buf|
  {
    match a
    case StartRead(id, n) => s.(calls := s.calls[id := Reading(n)])
    case StartWrite(id, buf) => s.(calls := s.calls[id := Writing(buf, 0)])
    case TryRead(id) =>
      var (p, done, got) := ReadLocked(s.p, s.calls[id].n);
      if !done then s else
      s.(p := p, calls := s.calls[id := ReadDone(s.calls[id].n, got)], consumed := s.consumed + got)
    case TryWrite(id) =>
      var c := s.calls[id];
      var (p, chunk, done, result) := WriteLocked(s.p, c.buf, c.written);
      s.(p := p, chunks := if chunk == [] then s.chunks else s.chunks + [(id, chunk)],
         calls := s.calls[id := if done then WriteDone(c.buf, result) else Writing(c.buf, c.written + |chunk|)])
    case CloseRead => s.(p := Released(s.p.(readers := s.p.readers - 1)))
    case CloseWrite => s.(p := Released(s.p.(writers := s.p.writers - 1)))
  }

  /** All chunks in the order they were added. */
  function All(chunks: seq<(nat, seq<byte>)>): seq<byte> {
    if chunks == [] then [] else All(chunks[..|chunks| - 1]) + chunks[|chunks| - 1].1
  }

  /** The chunks of one call. */
  function Of(chunks: seq<(nat, seq<byte>)>, id: nat): seq<byte> {
    if chunks == [] then [] else
    var last := chunks[|chunks| - 1];
    Of(chunks[..|chunks| - 1], id) + if last.0 == id then last.1 else []
  }

  lemma Appended(chunks: seq<(nat, seq<byte>)>, id: nat, chunk: seq<byte>)
    ensures All(chunks + [(id, chunk)]) == All(chunks) + chunk
    ensures forall j :: Of(chunks + [(id, chunk)], j) == if j == id then Of(chunks, j) + chunk else Of(chunks, j)
  {
    var all := chunks + [(id, chunk)];
    assert all[..|all| - 1] == chunks;
  }

  // The invariant

  /** What is true of a call, given the pipe. */
  ghost predicate CallOk(s: System, id: nat)
    requires id in s.calls
  {
    match s.calls[id]
    case Reading(n) => Of(s.chunks, id) == []
    case Writing(buf, written) => written <= |buf| && Of(s.chunks, id) == buf[..written]
    case ReadDone(n, got) =>
      && |got| <= n && Of(s.chunks, id) == []
      && (n > 0 && got == [] ==> s.p.writers == 0)
    case WriteDone(buf, result) =>
      && (result == -EPIPE ==> Of(s.chunks, id) == [])
      && (result != -EPIPE ==> 0 <= result <= |buf| && Of(s.chunks, id) == buf[..result])
      && (result != |buf| ==> s.p.readers == 0 && result != 0)
  }

  ghost predicate Inv(s: System) {
    && Formed(s.p) && 0 <= s.p.readers <= 1 && 0 <= s.p.writers <= 1
    && s.consumed + Waiting(s.p) == All(s.chunks)
    && (forall id :: id in s.calls ==> CallOk(s, id))
    && (forall id :: id !in s.calls ==> Of(s.chunks, id) == [])
    && s.p.frees == (if s.p.readers == 0 && s.p.writers == 0 then 1 else 0)
  }

  lemma InitInv(buffer: seq<byte>)
    requires |buffer| == 4096
    ensures Inv(Init(buffer))
  {
  }

  lemma StartKeepsInv(s: System, a: Step)
    requires Inv(s) && Enabled(s, a) && (a.StartRead? || a.StartWrite?)
    ensures Inv(Next(s, a))
  {
    var t := Next(s, a);
    forall id | id in t.calls
      ensures CallOk(t, id)
    {
      if id in s.calls {
        assert CallOk(s, id);
      }
    }
  }

  lemma ReadKeepsInv(s: System, id: nat)
    requires Inv(s) && Enabled(s, TryRead(id))
    ensures Inv(Next(s, TryRead(id)))
  {
    hide All, Of;
    assert CallOk(s, id);
    var n := s.calls[id].n;
    var t := Next(s, TryRead(id));
    if t != s {
      var m := if n < s.p.count then n else s.p.count;
      TakenWaiting(s.p, m);
      assert s.consumed + Waiting(s.p) == (s.consumed + Waiting(s.p)[..m]) + Waiting(t.p);
      forall j | j in t.calls
        ensures CallOk(t, j)
      {
        assert CallOk(s, j);
      }
    }
  }

  lemma WriteKeepsInv(s: System, id: nat)
    requires Inv(s) && Enabled(s, TryWrite(id))
    ensures Inv(Next(s, TryWrite(id)))
  {
    hide Waiting, Added, All, Of;
    assert CallOk(s, id);
    var c := s.calls[id];
    var (p, chunk, done, result) := WriteLocked(s.p, c.buf, c.written);
    if chunk == [] {
      WriteEnds(s, id);
    } else {
      WriteAdds(s, id, p, chunk, done);
    }
  }

  lemma WriteEnds(s: System, id: nat)
    requires Inv(s) && Enabled(s, TryWrite(id)) && WriteLocked(s.p, s.calls[id].buf, s.calls[id].written).1 == []
    requires forall id :: id in s.calls && s.calls[id].Writing? ==> s.calls[id].written <= |s.calls[id].buf|
    ensures Inv(Next(s, TryWrite(id)))
  {
    hide Waiting, Added, All, Of;
    var t := Next(s, TryWrite(id));
    forall j | j in t.calls
      ensures CallOk(t, j)
    {
      assert CallOk(s, j);
    }
    assert t.p == s.p && t.chunks == s.chunks;
  }

  lemma WriteAdds(s: System, id: nat, p: Ring, chunk: seq<byte>, done: bool)
    requires Inv(s) && Enabled(s, TryWrite(id)) && s.calls[id].written <= |s.calls[id].buf| && chunk != []
    requires WriteLocked(s.p, s.calls[id].buf, s.calls[id].written) == (p, chunk, done, s.calls[id].written + |chunk|)
    ensures
      var c := s.calls[id];
      var t := System(p, s.calls[id := if done then WriteDone(c.buf, c.written + |chunk|)
                                   else Writing(c.buf, c.written + |chunk|)],
                      s.consumed, s.chunks + [(id, chunk)]);
      Inv(t)
  {
    hide Waiting, Added, All, Of;
    var c := s.calls[id];
    assert CallOk(s, id);
    AddedWaiting(s.p, chunk);
    Appended(s.chunks, id, chunk);
    assert s.consumed + (Waiting(s.p) + chunk) == (s.consumed + Waiting(s.p)) + chunk;
    assert c.buf[..c.written] + chunk == c.buf[..c.written + |chunk|];
    var t := System(p, s.calls[id := if done then WriteDone(c.buf, c.written + |chunk|)
                                 else Writing(c.buf, c.written + |chunk|)],
                    s.consumed, s.chunks + [(id, chunk)]);
    forall j | j in t.calls
      ensures CallOk(t, j)
    {
      assert CallOk(s, j);
    }
  }

  lemma CloseKeepsInv(s: System, a: Step)
    requires Inv(s) && Enabled(s, a) && (a.CloseRead? || a.CloseWrite?)
    ensures Inv(Next(s, a))
  {
    var t := Next(s, a);
    forall j | j in t.calls
      ensures CallOk(t, j)
    {
      assert CallOk(s, j);
    }
  }

  lemma StepKeepsInv(s: System, a: Step)
    requires Inv(s) && Enabled(s, a)
    ensures forall id :: id in s.calls && s.calls[id].Writing? ==> s.calls[id].written <= |s.calls[id].buf|
    ensures Inv(Next(s, a))
  {
    assert forall id :: id in s.calls ==> CallOk(s, id);
    match a
    case TryRead(id) => ReadKeepsInv(s, id);
    case TryWrite(id) => WriteKeepsInv(s, id);
    case CloseRead => CloseKeepsInv(s, a);
    case CloseWrite => CloseKeepsInv(s, a);
    case _ => StartKeepsInv(s, a);
  }

  // Runs

  ghost predicate Trace(ss: seq<System>, steps: seq<Step>, buffer: seq<byte>) {
    && |ss| == |steps| + 1 && ss[0] == Init(buffer)
    && forall n :: 0 <= n < |steps| ==> Enabled(ss[n], steps[n]) && (Inv(ss[n]) ==> Follows(ss[n], steps[n], ss[n + 1]))
  }

  ghost predicate Follows(s: System, a: Step, t: System)
    requires Inv(s) && Enabled(s, a)
  {
    StepKeepsInv(s, a);
    t == Next(s, a)
  }

  /**
   * At every point of every interleaving: the bytes read, followed by the bytes waiting, are the
   * chunks written in the order they were added, and all that `Inv` says of each call holds.
   */
  lemma {:induction false} TraceInv(ss: seq<System>, steps: seq<Step>, buffer: seq<byte>, n: nat)
    requires |buffer| == 4096 && Trace(ss, steps, buffer) && n <= |steps|
    ensures Inv(ss[n])
  {
    hide Formed, CallOk, Enabled, Next;
    if n == 0 {
      InitInv(buffer);
    } else {
      TraceInv(ss, steps, buffer, n - 1);
      StepKeepsInv(ss[n - 1], steps[n - 1]);
      assert Follows(ss[n - 1], steps[n - 1], ss[n - 1 + 1]);
    }
  }

  /**
   * A step of a read waits exactly while the pipe is empty and has writers. Otherwise it takes as many of
   * the oldest bytes as are asked for and there; so a nonzero read returns nothing only from an empty
   * pipe without writers.
   */
  lemma ReadMeans(s: System, id: nat)
    requires Inv(s) && Enabled(s, TryRead(id))
    ensures forall j :: j in s.calls && s.calls[j].Writing? ==> s.calls[j].written <= |s.calls[j].buf|
    ensures
      var t, n, there := Next(s, TryRead(id)), s.calls[id].n, |Waiting(s.p)|;
      if there == 0 && s.p.writers > 0 then t == s
      else
        && t.calls == s.calls[id := ReadDone(n, Waiting(s.p)[..if n < there then n else there])]
        && Waiting(t.p) == Waiting(s.p)[if n < there then n else there..]
        && t.p.readers == s.p.readers && t.p.writers == s.p.writers && t.p.frees == s.p.frees
        && t.chunks == s.chunks
  {
    assert forall j :: j in s.calls ==> CallOk(s, j);
    var n := s.calls[id].n;
    var m := if n < s.p.count then n else s.p.count;
    TakenWaiting(s.p, m);
    assert Waiting(s.p)[m..] == Waiting(Taken(s.p, m));
  }

  /**
   * A step of a write fails with -EPIPE, or ends short, exactly without readers; otherwise it adds as many
   * of the remaining bytes as there is space for, and the call is over when none remain.
   */
  lemma WriteMeans(s: System, id: nat)
    requires Inv(s) && Enabled(s, TryWrite(id))
    ensures forall j :: j in s.calls && s.calls[j].Writing? ==> s.calls[j].written <= |s.calls[j].buf|
    ensures
      var t, buf, done := Next(s, TryWrite(id)), s.calls[id].buf, s.calls[id].written;
      var space := 4096 - |Waiting(s.p)|;
      var n := if |buf| - done < space then |buf| - done else space;
      if s.p.readers == 0 then
        t == s.(calls := s.calls[id := WriteDone(buf, if done > 0 then done else -32)])
      else
        && t.calls == s.calls[id := if done + n == |buf| then WriteDone(buf, |buf|) else Writing(buf, done + n)]
        && Waiting(t.p) == Waiting(s.p) + buf[done..done + n]
        && t.p.readers == s.p.readers && t.p.writers == s.p.writers && t.p.frees == s.p.frees
        && t.consumed == s.consumed
  {
    assert forall j :: j in s.calls ==> CallOk(s, j);
    var buf, done := s.calls[id].buf, s.calls[id].written;
    var space := 4096 - s.p.count;
    var n := if |buf| - done < space then |buf| - done else space;
    AddedWaiting(s.p, buf[done..done + n]);
    assert Waiting(s.p) + [] == Waiting(s.p);
  }

  /** What a finished call can rely on ever after. */
  lemma ResultsMean(s: System, id: nat)
    requires Inv(s) && id in s.calls
    ensures s.calls[id].ReadDone? && s.calls[id].n > 0 && s.calls[id].got == [] ==> s.p.writers == 0
    ensures s.calls[id].WriteDone? && 0 <= s.calls[id].result ==>
      s.calls[id].result <= |s.calls[id].buf| && Of(s.chunks, id) == s.calls[id].buf[..s.calls[id].result]
    ensures s.calls[id].WriteDone? && s.calls[id].result < |s.calls[id].buf| ==> s.p.readers == 0 && s.calls[id].result != 0
    ensures s.calls[id].WriteDone? && s.calls[id].result < 0 ==> s.calls[id].result == -32 && Of(s.chunks, id) == []
  {
    assert CallOk(s, id);
  }

  /** The pipe is freed at most once: by the close that closes its last end, and by no other step. */
  lemma FreedOnce(s: System, a: Step)
    requires Inv(s) && Enabled(s, a)
    ensures forall id :: id in s.calls && s.calls[id].Writing? ==> s.calls[id].written <= |s.calls[id].buf|
    ensures s.p.frees <= Next(s, a).p.frees <= 1
    ensures Next(s, a).p.frees == 1 <==> Next(s, a).p.readers == 0 && Next(s, a).p.writers == 0
    ensures s.p.frees < Next(s, a).p.frees ==> a.CloseRead? || a.CloseWrite?
  {
    hide Of, All, Waiting, Added, Taken;
    StepKeepsInv(s, a);
    assert forall id :: id in s.calls ==> CallOk(s, id);
  }

  // Calls whose end was closed under them

  predicate InProgress(s: System, id: nat) { id in s.calls && (s.calls[id].Reading? || s.calls[id].Writing?) }

  /** The call is in progress on an end that is closed. */
  predicate Orphaned(s: System, id: nat) {
    id in s.calls && ((s.calls[id].Reading? && s.p.readers == 0) || (s.calls[id].Writing? && s.p.writers == 0))
  }

  /** The step closes the call's end while the call is in progress. */
  predicate ClosesUnder(s: System, a: Step, id: nat) {
    id in s.calls &&
    ((a.CloseRead? && s.calls[id].Reading?) || (a.CloseWrite? && s.calls[id].Writing?))
  }

  /** The step goes on with that call, taking the lock again. */
  predicate GoesOn(a: Step, id: nat) { a == TryRead(id) || a == TryWrite(id) }

  /** A step that uses the pipe after it was freed. */
  predicate TouchesFreed(s: System, a: Step) { s.p.frees > 0 }

  /** A call becomes an orphan when its end is closed under it, and stays one until it is over. */
  lemma OrphanStep(s: System, a: Step, id: nat)
    requires Inv(s) && Enabled(s, a)
    ensures forall j :: j in s.calls && s.calls[j].Writing? ==> s.calls[j].written <= |s.calls[j].buf|
    ensures Orphaned(Next(s, a), id) <==> InProgress(Next(s, a), id) && (Orphaned(s, id) || ClosesUnder(s, a, id))
    ensures InProgress(Next(s, a), id) && id in s.calls ==> InProgress(s, id)
  {
    hide Of, All, Waiting, Added, Taken;
    assert forall j :: j in s.calls ==> CallOk(s, j);
  }

  /** At every point of every run, the orphans are the calls in progress whose end was closed under them. */
  lemma {:induction false} OrphanHistory(ss: seq<System>, steps: seq<Step>, buffer: seq<byte>, n: nat, id: nat)
    requires |buffer| == 4096 && Trace(ss, steps, buffer) && n <= |steps|
    ensures Orphaned(ss[n], id) <==> InProgress(ss[n], id) && exists m :: 0 <= m < n && ClosesUnder(ss[m], steps[m], id)
  {
    hide Enabled, Next, Inv, Formed;
    if n > 0 {
      var s, a := ss[n - 1], steps[n - 1];
      OrphanHistory(ss, steps, buffer, n - 1, id);
      TraceInv(ss, steps, buffer, n - 1);
      assert Follows(s, a, ss[n - 1 + 1]);
      OrphanStep(s, a, id);
      if InProgress(ss[n], id) {
        if Orphaned(ss[n], id) && !Orphaned(s, id) {
          assert ClosesUnder(ss[n - 1], steps[n - 1], id);
        }
        forall m | 0 <= m < n && ClosesUnder(ss[m], steps[m], id)
          ensures Orphaned(ss[n], id)
        {
          CallsStay(ss, steps, buffer, m, n - 1, id);
        }
      }
    }
  }

  lemma {:induction false} CallsStay(ss: seq<System>, steps: seq<Step>, buffer: seq<byte>, m: nat, n: nat, id: nat)
    requires |buffer| == 4096 && Trace(ss, steps, buffer) && m <= n <= |steps| && id in ss[m].calls
    ensures id in ss[n].calls
  {
    hide Inv, Formed, CallOk;
    if m < n {
      CallsStay(ss, steps, buffer, m, n - 1, id);
      TraceInv(ss, steps, buffer, n - 1);
      StepKeepsInv(ss[n - 1], steps[n - 1]);
      assert Follows(ss[n - 1], steps[n - 1], ss[n - 1 + 1]);
    }
  }

  /**
   * Exactly: a step uses the freed pipe if and only if both ends are closed and it goes on with a call
   * whose end was closed under it; a run without such a close never does.
   */
  lemma FreedThenTouched(ss: seq<System>, steps: seq<Step>, buffer: seq<byte>, n: nat)
    requires |buffer| == 4096 && Trace(ss, steps, buffer) && n < |steps|
    ensures TouchesFreed(ss[n], steps[n]) <==>
      && ss[n].p.readers == 0 && ss[n].p.writers == 0
      && exists id: nat, m :: GoesOn(steps[n], id) && 0 <= m < n && ClosesUnder(ss[m], steps[m], id)
  {
    hide Next, Of, All, Waiting;
    TraceInv(ss, steps, buffer, n);
    if ss[n].p.frees > 0 {
      assert Enabled(ss[n], steps[n]);
      assert steps[n].TryRead? || steps[n].TryWrite?;
      var id := steps[n].id;
      OrphanHistory(ss, steps, buffer, n, id);
      assert Orphaned(ss[n], id) && GoesOn(steps[n], id);
    }
  }

  /** And every orphan can come to that: once the other end is closed too, its next step uses the freed pipe. */
  lemma OrphanTouches(s: System, id: nat)
    requires Inv(s) && Orphaned(s, id)
    ensures forall j :: j in s.calls && s.calls[j].Writing? ==> s.calls[j].written <= |s.calls[j].buf|
    ensures
      var open := s.p.readers > 0 || s.p.writers > 0;
      var a := if s.p.readers > 0 then CloseRead else CloseWrite;
      var t := if open then Next(s, a) else s;
      var b := if s.calls[id].Reading? then TryRead(id) else TryWrite(id);
      Enabled(t, b) && TouchesFreed(t, b)
  {
    assert forall j :: j in s.calls ==> CallOk(s, j);
  }

  /** A read is started, the read end and then the write end are closed: the reader takes a freed lock. */
  lemma LateReader(buffer: seq<byte>)
    requires |buffer| == 4096
    ensures
      var a := Init(buffer).(calls := map[0 := Reading(1)]);
      var c := a.(p := a.p.(readers := 0, writers := 0, frees := 1));
      var steps := [StartRead(0, 1), CloseRead, CloseWrite, TryRead(0)];
      exists ss :: Trace(ss, steps, buffer) && ss[3] == c && TouchesFreed(ss[3], steps[3])
  {
    var start := Init(buffer);
    InitInv(buffer);
    var steps := [StartRead(0, 1), CloseRead, CloseWrite, TryRead(0)];
    var a := start.(calls := map[0 := Reading(1)]);
    var b := a.(p := a.p.(readers := 0));
    var c := a.(p := a.p.(readers := 0, writers := 0, frees := 1));
    StepKeepsInv(start, steps[0]);
    assert Next(start, steps[0]) == a;
    StepKeepsInv(a, steps[1]);
    assert Next(a, steps[1]) == b;
    StepKeepsInv(b, steps[2]);
    assert Next(b, steps[2]) == c;
    StepKeepsInv(c, steps[3]);
    var ss := [start, a, b, c, Next(c, steps[3])];
    assert Follows(ss[0], steps[0], ss[1]) && Follows(ss[1], steps[1], ss[2]);
    assert Follows(ss[2], steps[2], ss[3]) && Follows(ss[3], steps[3], ss[4]);
    assert Trace(ss, steps, buffer);
  }

  // The kernel's own code

  class PipeBuffer {
    const buffer: array<byte>
    var readPos: nat
    var writePos: nat
    var count: nat
    var readers: int
    var writers: int
    ghost var frees: nat

    ghost function P(): Ring
      reads this, buffer
    {
      Ring(buffer[..], readPos, writePos, count, readers, writers, frees)
    }

    /** `do_pipe` */
    constructor ()
      ensures Formed(P()) && P() == Init(buffer[..]).p && fresh(buffer)
    {
      buffer := new byte[4096];
      readPos, writePos, count := 0, 0, 0;
      readers, writers := 1, 1;
      frees := 0;
    }

    /** The locked section of `pipe_read`; false means that the lock is dropped to wait. */
    method Read(n: nat) returns (done: bool, got: seq<byte>)
      requires Formed(P())
      modifies this
      ensures Formed(P()) && (P(), done, got) == ReadLocked(old(P()), n)
    {
      ghost var p := P();
      if count == 0 && writers > 0 { return false, []; }
      var m := if n < count then n else count;
      TakenWaiting(p, m);
      got := [];
      for i := 0 to m
        invariant buffer[..] == p.buffer && unchanged(`count) && unchanged(`writePos)
        invariant unchanged(`readers) && unchanged(`writers) && unchanged(`frees)
        invariant readPos == Fold(p.readPos + i) && got == Waiting(p)[..i]
      {
        FoldIs(readPos + 1);
        got := got + [buffer[readPos]];
        readPos := (readPos + 1) % 4096;
      }
      count := count - m;
      done := true;
    }

    /** The locked section of `pipe_write`: one chunk, or the end of the call, or nothing while it waits. */
    method Write(buf: seq<byte>, written: nat) returns (chunk: seq<byte>, done: bool, result: int)
      requires Formed(P()) && written <= |buf|
      modifies this, buffer
      ensures Formed(P()) && (P(), chunk, done, result) == WriteLocked(old(P()), buf, written)
    {
      if readers == 0 { return [], true, if written > 0 then written else -EPIPE; }
      if written == |buf| { return [], true, written; }
      if count >= 4096 { return [], false, 0; }
      var space := 4096 - count;
      var n := if |buf| - written < space then |buf| - written else space;
      chunk := buf[written..written + n];
      AddedWaiting(P(), chunk);
      Copy(chunk);
      done, result := written + n == |buf|, written + n;
    }

    method Copy(chunk: seq<byte>)
      requires Formed(P()) && count + |chunk| <= 4096
      modifies this, buffer
      ensures P() == Added(old(P()), chunk)
    {
      ghost var p := P();
      for i := 0 to |chunk|
        invariant unchanged(`count) && unchanged(`readers) && unchanged(`writers) && unchanged(`readPos) && unchanged(`frees)
        invariant writePos == Fold(p.writePos + i)
        invariant forall j :: 0 <= j < 4096 ==>
          buffer[j] == if Behind(j, p.writePos) < i then chunk[Behind(j, p.writePos)] else p.buffer[j]
      {
        FoldIs(writePos + 1);
        buffer[writePos] := chunk[i];
        writePos := (writePos + 1) % 4096;
      }
      count := count + |chunk|;
      assert buffer[..] == Added(p, chunk).buffer;
    }

    /** `pipe_release_read` */
    method ReleaseRead()
      modifies this
      ensures P() == Released(old(P()).(readers := old(readers) - 1))
    {
      readers := readers - 1;
      if readers == 0 && writers == 0 {
        frees := frees + 1;
      }
    }

    /** `pipe_release_write` */
    method ReleaseWrite()
      modifies this
      ensures P() == Released(old(P()).(writers := old(writers) - 1))
    {
      writers := writers - 1;
      if readers == 0 && writers == 0 {
        frees := frees + 1;
      }
    }
  }
}

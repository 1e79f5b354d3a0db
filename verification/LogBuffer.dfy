/** The log queue between the driver and its reader: a list of chunks and at most one pending read. */
module LogBuffer {
  import opened SlotIndex
  import opened Widths
  import opened Wrappers

  type Byte = x: nat | x < 256

  type Record = seq<Byte>

  const BUFFER_SIZE := 16 * 1024 - 64   // FORT_BUFFER_SIZE
  const SIZE_MAX := 520                  // FORT_LOG_SIZE_MAX

  /** A request to be completed with a number of bytes. */
  datatype Completion = Completion(irp: nat, info: nat)

  datatype Status = Success | Pending | Unsuccessful | Cancelled | TooSmall | NoResources

  /** Records one after the other. */
  function Concat(recs: seq<Record>): seq<Byte> {
    if recs == [] then [] else Concat(recs[..|recs| - 1]) + recs[|recs| - 1]
  }

  function Flatten(runs: seq<seq<Record>>): seq<Record> {
    if runs == [] then [] else runs[0] + Flatten(runs[1..])
  }

  lemma ConcatAdd(recs: seq<Record>, rec: Record)
    ensures Concat(recs + [rec]) == Concat(recs) + rec
  {
    assert (recs + [rec])[..|recs|] == recs;
  }

  lemma {:induction false} FlattenLast(runs: seq<seq<Record>>, recs: seq<Record>, rec: Record)
    ensures Flatten(runs + [recs + [rec]]) == Flatten(runs + [recs]) + [rec]
  {
    if runs == [] {
      assert [recs + [rec]][1..] == [] && [recs][1..] == [];
    } else {
      assert (runs + [recs + [rec]])[1..] == runs[1..] + [recs + [rec]];
      assert (runs + [recs])[1..] == runs[1..] + [recs];
      FlattenLast(runs[1..], recs, rec);
    }
  }

  lemma {:induction false} FlattenEmpty(runs: seq<seq<Record>>, none: seq<Record>)
    requires none == []
    ensures Flatten(runs + [none]) == Flatten(runs)
  {
    if runs == [] {
      assert [none][1..] == [];
    } else {
      assert (runs + [none])[1..] == runs[1..] + [none];
      FlattenEmpty(runs[1..], none);
    }
  }

  /** A chunk of memory, of which the first top bytes are in use. */
  datatype Chunk = Chunk(p: seq<Byte>, top: nat)

  /** The chunks allocated so far; queue lists those from data_head to data_tail, free those in data_free. */
  datatype Store = Store(chunks: seq<Chunk>, queue: seq<nat>, free: seq<nat>)

  predicate Sized(st: Store) {
    && DistinctBelow(st.queue + st.free, |st.chunks|)
    && forall c | 0 <= c < |st.chunks| :: |st.chunks[c].p| == BUFFER_SIZE && st.chunks[c].top <= BUFFER_SIZE
  }

  function Top(st: Store, i: nat): nat
    requires Sized(st) && i < |st.queue|
  {
    assert st.queue[i] == (st.queue + st.free)[i];
    st.chunks[st.queue[i]].top
  }

  function Bytes(st: Store, i: nat): seq<Byte>
    requires Sized(st) && i < |st.queue|
  {
    assert st.queue[i] == (st.queue + st.free)[i];
    st.chunks[st.queue[i]].p[..Top(st, i)]
  }

  /** Each chunk of the queue holds exactly its records. */
  ghost predicate Holds(st: Store, runs: seq<seq<Record>>) {
    Sized(st) && |runs| == |st.queue| && forall i | 0 <= i < |runs| :: Bytes(st, i) == Concat(runs[i])
  }

  predicate NoneEmpty(st: Store)
    requires Sized(st)
  {
    forall i | 0 <= i < |st.queue| :: Top(st, i) > 0
  }

  /** A chunk without bytes at the end of the queue: the first free one, or a new one. */
  function AddChunk(st: Store): Store
    requires Sized(st)
  {
    if st.free != [] then
      assert st.free[0] == (st.queue + st.free)[|st.queue|];
      Store(st.chunks[st.free[0] := st.chunks[st.free[0]].(top := 0)], st.queue + [st.free[0]], st.free[1..])
    else
      Store(st.chunks + [Chunk(seq(BUFFER_SIZE, _ => 0), 0)], st.queue + [|st.chunks|], [])
  }

  lemma QueueDistinct(st: Store)
    requires Sized(st)
    ensures DistinctBelow(st.queue, |st.chunks|)
    ensures forall i, j | 0 <= i < |st.queue| && 0 <= j < |st.free| :: st.queue[i] != st.free[j]
  {
    var all := st.queue + st.free;
    assert forall i | 0 <= i < |st.queue| :: st.queue[i] == all[i];
    assert forall j | 0 <= j < |st.free| :: st.free[j] == all[|st.queue| + j];
  }

  lemma AddChunkSized(st: Store)
    requires Sized(st)
    ensures Sized(AddChunk(st))
  {
    var st', all := AddChunk(st), st.queue + st.free;
    if st.free != [] {
      assert st.free[0] == all[|st.queue|];
      assert st'.queue + st'.free == all;
    } else {
      assert st'.queue + st'.free == all + [|st.chunks|];
    }
  }

  lemma AddChunkHolds(st: Store, runs: seq<seq<Record>>, none: seq<Record>)
    requires Holds(st, runs) && none == []
    ensures var st' := AddChunk(st);
            && Holds(st', runs + [none]) && |st'.queue| == |st.queue| + 1
            && Top(st', |st.queue|) == 0 && forall i | 0 <= i < |st.queue| :: Top(st', i) == Top(st, i)
  {
    hide Sized, DistinctBelow, Concat;
    AddChunkSized(st);
    QueueDistinct(st);
    QueueBelow(st);
    SameChunks(st, AddChunk(st));
    ConcatEmpty(none);
  }

  lemma ConcatEmpty(none: seq<Record>)
    requires none == []
    ensures Concat(none) == []
  {
  }

  lemma QueueBelow(st: Store)
    requires Sized(st)
    ensures forall i | 0 <= i < |st.queue| :: st.queue[i] < |st.chunks|
    ensures forall i | 0 <= i < |st.free| :: st.free[i] < |st.chunks|
  {
    QueueDistinct(st);
    assert forall i | 0 <= i < |st.free| :: st.free[i] == (st.queue + st.free)[|st.queue| + i];
  }

  /** A chunk of the queue that is the same chunk with the same contents. */
  lemma SameChunks(st: Store, st': Store)
    requires Sized(st) && Sized(st')
    ensures forall i | 0 <= i < |st.queue| && i < |st'.queue| && st.queue[i] < |st.chunks|
            && st'.queue[i] < |st'.chunks|
                       && st'.chunks[st'.queue[i]] == st.chunks[st.queue[i]] ::
              Bytes(st', i) == Bytes(st, i) && Top(st', i) == Top(st, i)
  {
  }

  /** A record written after the bytes of the last chunk. */
  function Append(st: Store, rec: Record): Store
    requires Sized(st) && st.queue != [] && Top(st, |st.queue| - 1) + |rec| <= BUFFER_SIZE
  {
    assert st.queue[|st.queue| - 1] == (st.queue + st.free)[|st.queue| - 1];
    var c := st.queue[|st.queue| - 1];
    st.(chunks := st.chunks[c := Written(st.chunks[c], rec)])
  }

  function Written(c: Chunk, rec: Record): Chunk
    requires c.top + |rec| <= |c.p|
  {
    Chunk(c.p[..c.top] + rec + c.p[c.top + |rec|..], c.top + |rec|)
  }

  lemma AppendWrites(st: Store, rec: Record)
    requires Sized(st) && st.queue != [] && Top(st, |st.queue| - 1) + |rec| <= BUFFER_SIZE
    ensures var st', n := Append(st, rec), |st.queue| - 1;
            && Sized(st') && st'.queue == st.queue
            && Bytes(st', n) == Bytes(st, n) + rec && Top(st', n) == Top(st, n) + |rec|
            && forall i | 0 <= i < n :: Bytes(st', i) == Bytes(st, i) && Top(st', i) == Top(st, i)
  {
    hide DistinctBelow;
    QueueDistinct(st);
    QueueApart(st, |st.queue| - 1);
  }

  lemma QueueApart(st: Store, n: nat)
    requires Sized(st) && n < |st.queue|
    ensures forall i | 0 <= i < |st.queue| :: st.queue[i] < |st.chunks| && (i != n ==> st.queue[i] != st.queue[n])
  {
    QueueDistinct(st);
  }

  /** The record is added to the last run. */
  function AddToLast(runs: seq<seq<Record>>, rec: Record): seq<seq<Record>>
    requires runs != []
  {
    runs[|runs| - 1 := runs[|runs| - 1] + [rec]]
  }

  /** A chunk of its own for the record, or its place behind those of the last chunk. */
  ghost predicate Placed(runs: seq<seq<Record>>, runs': seq<seq<Record>>, newChunk: bool, rec: Record) {
    if newChunk then runs' == runs + [[rec]]
    else
      var n := |runs| - 1;
      n >= 0 && |runs'| == n + 1 && runs'[..n] == runs[..n] && runs'[n] == runs[n] + [rec]
  }

  lemma AddToLastPlaces(runs: seq<seq<Record>>, rec: Record)
    ensures runs != [] ==> Placed(runs, AddToLast(runs, rec), false, rec)
    ensures Placed(runs, AddToLast(runs + [[]], rec), true, rec)
  {
    if runs != [] { assert AddToLast(runs, rec)[|runs| - 1] == runs[|runs| - 1] + [rec]; }
    assert [] + [rec] == [rec];
    assert AddToLast(runs + [[]], rec) == runs + [[rec]];
  }

  lemma AddToLastFlatten(runs: seq<seq<Record>>, rec: Record)
    requires runs != []
    ensures Flatten(AddToLast(runs, rec)) == Flatten(runs) + [rec]
  {
    var n := |runs| - 1;
    assert runs == runs[..n] + [runs[n]];
    assert AddToLast(runs, rec) == runs[..n] + [runs[n] + [rec]];
    FlattenLast(runs[..n], runs[n], rec);
  }

  lemma AppendHolds(st: Store, runs: seq<seq<Record>>, rec: Record)
    requires Holds(st, runs) && st.queue != [] && Top(st, |st.queue| - 1) + |rec| <= BUFFER_SIZE
    ensures Holds(Append(st, rec), AddToLast(runs, rec))
    ensures var st', n := Append(st, rec), |runs| - 1;
            && st'.queue == st.queue && Top(st', n) == Top(st, n) + |rec|
            && forall i | 0 <= i < n :: Top(st', i) == Top(st, i)
  {
    hide Sized, Append, Concat, Bytes, Top;
    AppendWrites(st, rec);
    ConcatAdd(runs[|runs| - 1], rec);
  }

  /** The first chunk goes to the free ones. */
  function Shift(st: Store): Store
    requires st.queue != []
  {
    st.(queue := st.queue[1..], free := [st.queue[0]] + st.free)
  }

  lemma ShiftHolds(st: Store, runs: seq<seq<Record>>)
    requires Holds(st, runs) && st.queue != []
    ensures Holds(Shift(st), runs[1..]) && forall i | 0 <= i < |st.queue| - 1 :: Top(Shift(st), i) == Top(st, i + 1)
    ensures Flatten(runs) == runs[0] + Flatten(runs[1..])
  {
    var st', all := Shift(st), st.queue + st.free;
    var all' := st'.queue + st'.free;
    assert forall i | 0 <= i < |all| ::
             all'[i] == all[if i < |st.queue| - 1 then i + 1 else if i == |st.queue| - 1 then 0 else i];
    assert forall i | 0 <= i < |st'.queue| :: st'.queue[i] == st.queue[i + 1] == all[i + 1];
    forall i | 0 <= i < |st'.queue|
      ensures Bytes(st', i) == Concat(runs[1..][i])
    {
      assert Bytes(st', i) == Bytes(st, i + 1);
    }
  }

  /** Copies bytes to their place. */
  method Copy(dst: array<Byte>, off: nat, src: seq<Byte>)
    requires off + |src| <= dst.Length
    modifies dst
    ensures dst[..off + |src|] == old(dst[..off]) + src
  {
    var i := 0;
    while i < |src|
      invariant i <= |src| && dst[..off + i] == old(dst[..off]) + src[..i]
    {
      dst[off + i] := src[i];
      i := i + 1;
    }
  }

  class LogBuffer {
    var chunks: seq<Chunk>
    var queue: seq<nat>
    var free: seq<nat>
    var irp: Option<nat>
    var out: array<Byte>
    var outLen: nat
    var outTop: nat

    ghost var written: seq<Record>             // the records accepted, in order
    ghost var delivered: seq<Record>           // those handed to the reader
    ghost var pendingRecs: seq<Record>         // those in the pending read
    ghost var chunkRecs: seq<seq<Record>>      // those in each chunk of the queue

    constructor (out: array<Byte>)
      ensures Valid() && queue == [] && outLen == 0 && written == [] && this.out == out
    {
      chunks, queue, free := [], [], [];
      irp, this.out, outLen, outTop := None, out, 0, 0;
      written, delivered, pendingRecs, chunkRecs := [], [], [], [];
    }

    ghost function Q(): Store
      reads this
    {
      Store(chunks, queue, free)
    }

    /** A pending read has room for any short record, and then the queue is empty. */
    ghost predicate PendingRead()
      reads this, out
    {
      if outLen == 0 then irp == None && outTop == 0 && pendingRecs == []
      else
        && irp.Some? && queue == []
        && outTop + SIZE_MAX <= outLen <= out.Length && outLen < U32
        && out[..outTop] == Concat(pendingRecs) && (outTop == 0 ==> pendingRecs == [])
    }

    /** Nothing is lost, duplicated, split or reordered: delivered, then pending, then queued. */
    ghost predicate Valid()
      reads this, out
    {
      && Holds(Q(), chunkRecs) && NoneEmpty(Q()) && PendingRead()
      && delivered + pendingRecs + Flatten(chunkRecs) == written
    }

    /** The record fits the pending read, if there is one. */
    predicate Fits(rec: Record)
      reads this
    {
      outLen != 0 ==> outTop + |rec| <= outLen
    }

    /** There is neither a pending read, nor room in data_tail, nor a chunk to add. */
    ghost predicate PrepareFails(len: nat, oom: bool)
      requires Sized(Q())
      reads this
    {
      && outLen == 0
      && (queue == [] || Top(Q(), |queue| - 1) + len > BUFFER_SIZE)
      && (len > BUFFER_SIZE || (oom && free == []))
    }

    /** What writing to the queue does not touch. */
    ghost function Rest(): (Option<nat>, array<Byte>, nat, nat, seq<Record>, seq<Record>, seq<Record>)
      reads this
    {
      (irp, out, outLen, outTop, written, delivered, pendingRecs)
    }

    /** A chunk from the free ones or from memory becomes data_tail. */
    method NewTail()
      requires Sized(Q())
      modifies this
      ensures Rest() == old(Rest()) && chunkRecs == old(chunkRecs) && Q() == AddChunk(old(Q()))
      ensures queue == old(queue) + [if old(free) != [] then old(free)[0] else |old(chunks)|]
      ensures free == (if old(free) != [] then old(free)[1..] else [])
              && |chunks| == |old(chunks)| + if old(free) == [] then 1 else 0
    {
      ghost var st := Q();
      QueueBelow(st);
      if free != [] {
        chunks := chunks[free[0] := chunks[free[0]].(top := 0)];
        queue, free := queue + [free[0]], free[1..];
      } else {
        chunks := chunks + [Chunk(seq(BUFFER_SIZE, _ => 0), 0)];
        queue := queue + [|chunks| - 1];
      }
    }

    /** The record is written to data_tail. */
    method WriteTail(rec: Record)
      requires Sized(Q()) && queue != [] && Top(Q(), |queue| - 1) + |rec| <= BUFFER_SIZE
      modifies this
      ensures Rest() == old(Rest()) && chunkRecs == old(chunkRecs) && Q() == Append(old(Q()), rec)
      ensures queue == old(queue) && free == old(free) && |chunks| == |old(chunks)|
    {
      QueueBelow(Q());
      var c := queue[|queue| - 1];
      chunks := chunks[c := Written(chunks[c], rec)];
    }

    /** fort_buffer_data_alloc and the write to the chunk; oom says that no memory is left. */
    method QueueWrite(rec: Record, oom: bool) returns (ok: bool)
      requires Holds(Q(), chunkRecs) && NoneEmpty(Q()) && 0 < |rec|
      modifies this
      ensures Rest() == old(Rest()) && Holds(Q(), chunkRecs) && NoneEmpty(Q())
      ensures ok ==> Flatten(chunkRecs) == old(Flatten(chunkRecs)) + [rec] && queue != []
      ensures ok ==> Placed(old(chunkRecs), chunkRecs,
                            old(queue == [] || Top(Q(), |queue| - 1) + |rec| > BUFFER_SIZE), rec)
      ensures ok ==>
                if old(queue != [] && Top(Q(), |queue| - 1) + |rec| <= BUFFER_SIZE)
                then queue == old(queue) && free == old(free) && |chunks| == |old(chunks)|
                else if old(free) != []
                then queue == old(queue + [free[0]]) && free == old(free[1..]) && |chunks| == |old(chunks)|
                else queue == old(queue) + [|old(chunks)|] && free == [] && |chunks| == |old(chunks)| + 1
      ensures !ok ==> Q() == old(Q()) && chunkRecs == old(chunkRecs)
      ensures !ok <==> old(queue == [] || Top(Q(), |queue| - 1) + |rec| > BUFFER_SIZE)
                       && (|rec| > BUFFER_SIZE || (oom && old(free) == []))
    {
      hide Sized, Top, Flatten, Concat, AddChunk, Append, AddToLast, Bytes, Placed;
      ghost var st := Q();
      AddToLastPlaces(chunkRecs, rec);
      if queue != [] { LastTop(st); }
      if queue == [] || chunks[queue[|queue| - 1]].top + |rec| > BUFFER_SIZE {
        if |rec| > BUFFER_SIZE || (free == [] && oom) {
          return false;
        }
        AddChunkHolds(st, chunkRecs, []);
        FlattenEmpty(chunkRecs, []);
        NewTail();
        chunkRecs := chunkRecs + [[]];
      }
      AppendHolds(Q(), chunkRecs, rec);
      AddToLastFlatten(chunkRecs, rec);
      WriteTail(rec);
      chunkRecs := AddToLast(chunkRecs, rec);
      ok := true;
    }

    /** The record goes to the pending read, which is completed when less than a short record still fits. */
    method WritePending(rec: Record) returns (completed: Option<Completion>)
      requires PendingRead() && outLen != 0 && 0 < |rec| && Fits(rec)
      modifies this, out
      ensures PendingRead() && out == old(out) && Q() == old(Q()) && chunkRecs == old(chunkRecs)
              && written == old(written)
      ensures delivered + pendingRecs == old(delivered + pendingRecs) + [rec]
      ensures completed.Some? <==> old(outLen) - (old(outTop) + |rec|) < SIZE_MAX
      ensures completed == None ==>
                delivered == old(delivered) && irp == old(irp) && outLen == old(outLen) && outTop == old(outTop) + |rec|
      ensures completed.Some? ==>
                && old(irp) == Some(completed.value.irp) && outLen == 0
                && delivered == old(delivered) + (old(pendingRecs) + [rec])
                && completed.value.info <= out.Length
                && out[..completed.value.info] == Concat(old(pendingRecs) + [rec])
    {
      hide Concat;
      completed := None;
      ConcatAdd(pendingRecs, rec);
      var place, newTop := outTop, outTop + |rec|;
      pendingRecs := pendingRecs + [rec];
      Copy(out, place, rec);
      if (outLen - newTop) % U32 < SIZE_MAX {
        completed := Some(Completion(irp.value, newTop));
        delivered, pendingRecs := delivered + pendingRecs, [];
        irp := None;
        newTop := 0;
        outLen := 0;
      }
      outTop := newTop;
    }

    /** Whether fort_buffer_prepare will find room. */
    method CanPrepare(len: nat, oom: bool) returns (ok: bool)
      requires Valid()
      ensures ok == !PrepareFails(len, oom)
    {
      hide Concat, Flatten, Top, Sized, Bytes;
      if queue != [] { LastTop(Q()); }
      ok := outLen != 0
            || (queue != [] && chunks[queue[|queue| - 1]].top + len <= BUFFER_SIZE)
            || !(len > BUFFER_SIZE || (oom && free == []));
    }

    /**
      * fort_buffer_prepare and the write of the record, under one lock: to the pending read, which is completed
      * when it has no more room for a short record, or else to the queue.
      */
    method Write(rec: Record, oom: bool) returns (status: Status, completed: Option<Completion>)
      requires Valid() && 0 < |rec| < U32 && Fits(rec)
      modifies this, out
      ensures Valid() && out == old(out)
      ensures status == Success || status == NoResources
      ensures status == Success ==> written == old(written) + [rec]
      ensures status == NoResources <==> old(PrepareFails(|rec|, oom))
      ensures status == NoResources ==> written == old(written) && completed == None
      ensures completed == None ==> delivered == old(delivered) && irp == old(irp)
      ensures completed.Some? ==>
                && old(irp) == Some(completed.value.irp) && outLen == 0
                && delivered == old(delivered) + (old(pendingRecs) + [rec])
                && completed.value.info <= out.Length
                && out[..completed.value.info] == Concat(old(pendingRecs) + [rec])
      ensures old(outLen) != 0 ==>
                && (completed.Some? <==> old(outLen) - (old(outTop) + |rec|) < SIZE_MAX)
                && (completed == None ==> outTop == old(outTop) + |rec|)
      ensures old(outLen) == 0 ==> outLen == 0 && completed == None && out[..] == old(out[..])
      ensures old(outLen) == 0 && status == Success ==>
                Placed(old(chunkRecs), chunkRecs,
                       old(queue == [] || Top(Q(), |queue| - 1) + |rec| > BUFFER_SIZE), rec)
      ensures old(outLen) != 0 || status != Success ==> Q() == old(Q()) && chunkRecs == old(chunkRecs)
      ensures completed == None ==> outLen == old(outLen)
    {
      hide Flatten, Concat, NoneEmpty, Sized, Bytes, Top;
      status, completed := Success, None;
      if queue == [] && outLen != 0 && outTop < outLen {
        PendingQueue(Q(), chunkRecs);
        completed := WritePending(rec);
        written := written + [rec];
      } else {
        var ok := QueueWrite(rec, oom);
        if !ok {
          return NoResources, None;
        }
        written := written + [rec];
      }
    }

    /**
      * fort_buffer_xmove: hands out the first chunk, or leaves the read pending. A pending read is sound exactly
      * when it has room for a short record.
      */
    method XMove(irp': nat, out': array<Byte>, outLen': nat) returns (status: Status, info: nat)
      requires Valid() && outLen' <= out'.Length && outLen' < U32
      modifies this, out'
      ensures status == if old(queue) == [] then (if old(outLen) != 0 then Unsuccessful else Pending)
                        else if outLen' < old(Top(Q(), 0)) then TooSmall else Success
      ensures Valid() <==> (status == Pending ==> outLen' >= SIZE_MAX)
      ensures written == old(written)
      ensures status == Success ==>
                && delivered == old(delivered) + old(chunkRecs[0]) && chunkRecs == old(chunkRecs[1..])
                && 0 < info <= outLen' && out'[..info] == Concat(old(chunkRecs[0]))
                && queue == old(queue[1..]) && free == old([queue[0]] + free) && |chunks| == |old(chunks)|
      ensures status == Pending ==> irp == Some(irp') && out == out' && outLen == outLen' && outTop == 0
      ensures status != Success ==> delivered == old(delivered) && Q() == old(Q()) && out'[..] == old(out'[..])
      ensures info == if old(queue) == [] then 0 else old(Top(Q(), 0))
      ensures status != Pending ==> irp == old(irp) && out == old(out) && outLen == old(outLen) && outTop == old(outTop)
    {
      hide Sized, Top, Bytes, Flatten, Concat, Shift;
      if queue == [] {
        if outLen != 0 {
          return Unsuccessful, 0;
        }
        irp, out, outLen, outTop := Some(irp'), out', outLen', 0;
        EmptyOut(out');
        return Pending, 0;
      }
      FirstChunk(Q());
      if outLen' < chunks[queue[0]].top {
        return TooSmall, chunks[queue[0]].top;
      }
      FirstTop(Q());
      ShiftHolds(Q(), chunkRecs);
      info := chunks[queue[0]].top;
      Copy(out', 0, chunks[queue[0]].p[..info]);
      DataShift();
      delivered := delivered + chunkRecs[0];
      chunkRecs := chunkRecs[1..];
      status := Success;
    }

    /** fort_device_control_getlog: a read must have room for a whole chunk. */
    method GetLog(irp': nat, out': array<Byte>, outLen': nat) returns (status: Status, info: nat)
      requires Valid() && outLen' <= out'.Length && outLen' < U32
      modifies this, out'
      ensures outLen' < BUFFER_SIZE ==>
                status == TooSmall && info == 0 && out'[..] == old(out'[..]) && Rest() == old(Rest())
      ensures outLen' >= BUFFER_SIZE ==> Valid() && written == old(written) && status != TooSmall
      ensures status == Success ==>
                && old(chunkRecs) != [] && delivered == old(delivered) + old(chunkRecs)[0]
                && info <= out'.Length && out'[..info] == Concat(old(chunkRecs)[0])
      ensures outLen' >= BUFFER_SIZE ==>
                status == if old(queue) != [] then Success else if old(outLen) != 0 then Unsuccessful else Pending
      ensures status == Pending ==> irp == Some(irp') && out == out' && outLen == outLen' && outTop == 0
      ensures status != Pending ==> irp == old(irp) && out == old(out) && outLen == old(outLen) && outTop == old(outTop)
    {
      hide Concat, NoneEmpty, Sized, Bytes, Top;
      if outLen' < BUFFER_SIZE {
        return TooSmall, 0;
      }
      if queue != [] { FirstChunk(Q()); }
      status, info := XMove(irp', out', outLen');
    }

    /** fort_buffer_data_shift */
    method DataShift()
      requires queue != []
      modifies this
      ensures Rest() == old(Rest()) && chunkRecs == old(chunkRecs) && Q() == Shift(old(Q()))
      ensures queue == old(queue[1..]) && free == old([queue[0]] + free) && |chunks| == |old(chunks)|
    {
      free := [queue[0]] + free;
      queue := queue[1..];
    }

    /** fort_buffer_cancel_pending: a cancelled read still gets the records written to it. */
    method CancelPending(irp': nat) returns (status: Status, info: nat)
      requires Valid()
      modifies this
      ensures Valid() && written == old(written) && Q() == old(Q()) && out == old(out)
      ensures status == Success <==> old(irp) == Some(irp') && old(outTop) > 0
      ensures status != Success ==> status == Cancelled && info == 0 && delivered == old(delivered)
      ensures status == Success ==>
                delivered == old(delivered) + old(pendingRecs) && info <= out.Length
                  && out[..info] == Concat(old(pendingRecs))
      ensures old(irp) == Some(irp') ==> irp == None && outLen == 0
      ensures old(irp) != Some(irp') ==> irp == old(irp) && outLen == old(outLen) && outTop == old(outTop)
    {
      hide Flatten, Holds, NoneEmpty;
      status, info := Cancelled, 0;
      if irp == Some(irp') {
        irp := None;
        outLen := 0;
        if outTop != 0 {
          info := outTop;
          outTop := 0;
          status := Success;
        }
        delivered, pendingRecs := delivered + pendingRecs, [];
      }
    }

    /** fort_buffer_dpc_flush_pending: the timer completes a read that has any bytes. */
    method FlushPending() returns (completed: Option<Completion>)
      requires Valid()
      modifies this
      ensures Valid() && written == old(written) && Q() == old(Q()) && out == old(out)
      ensures outTop == 0 && (completed.Some? <==> old(outTop) > 0)
      ensures completed == None ==> delivered == old(delivered) && irp == old(irp) && outLen == old(outLen)
      ensures completed.Some? ==>
                && old(irp) == Some(completed.value.irp) && irp == None && outLen == 0
                && delivered == old(delivered) + old(pendingRecs)
                && completed.value.info <= out.Length && out[..completed.value.info] == Concat(old(pendingRecs))
    {
      hide Flatten, Holds, NoneEmpty, Concat;
      completed := None;
      // The queue is empty while a read is pending, so there is no chunk to move to it.
      assert outTop == 0 && outLen != 0 ==> queue == [];
      if outTop != 0 {
        completed := Some(Completion(irp.value, outTop));
        outTop, outLen := 0, 0;
        irp := None;
        delivered, pendingRecs := delivered + pendingRecs, [];
      }
    }

    /** fort_buffer_clear: the queued records are dropped; a pending read stays. */
    method Clear()
      requires Valid()
      modifies this
      ensures Valid() && queue == [] && free == []
      ensures written == old(delivered + pendingRecs) && delivered == old(delivered)
      ensures irp == old(irp) && outLen == old(outLen) && outTop == old(outTop)
    {
      chunks, queue, free := [], [], [];
      chunkRecs := [];
      written := delivered + pendingRecs;
    }
  }

  lemma FirstChunk(st: Store)
    requires Sized(st) && st.queue != []
    ensures st.queue[0] < |st.chunks| && Top(st, 0) == st.chunks[st.queue[0]].top <= BUFFER_SIZE
  {
    QueueBelow(st);
  }

  lemma EmptyOut(out: array<Byte>)
    ensures out[..0] == Concat([])
  {
  }

  lemma FirstTop(st: Store)
    requires Sized(st) && NoneEmpty(st) && st.queue != []
    ensures st.queue[0] < |st.chunks| && 0 < st.chunks[st.queue[0]].top <= |st.chunks[st.queue[0]].p| == BUFFER_SIZE
    ensures st.chunks[st.queue[0]].p[..st.chunks[st.queue[0]].top] == Bytes(st, 0)
  {
    QueueBelow(st);
    assert Top(st, 0) > 0;
  }

  lemma PendingQueue(st: Store, runs: seq<seq<Record>>)
    requires Holds(st, runs) && st.queue == []
    ensures Flatten(runs) == []
  {
  }

  lemma LastTop(st: Store)
    requires Sized(st) && st.queue != []
    ensures st.queue[|st.queue| - 1] < |st.chunks| && Top(st, |st.queue| - 1) == st.chunks[st.queue[|st.queue| - 1]].top
  {
    QueueBelow(st);
  }

  // ---------------------------------------------------------------------------------------------
  // Which records always fit
  // ---------------------------------------------------------------------------------------------

  /** A pending read has room for exactly the records up to a length, which is never less than a short record. */
  lemma AlwaysFits(buf: LogBuffer)
    requires buf.Valid() && buf.outLen != 0
    ensures buf.outLen - buf.outTop >= SIZE_MAX
    ensures forall rec: Record :: buf.Fits(rec) <==> |rec| <= buf.outLen - buf.outTop
  {
  }

  /** A record that overruns the read is not noticed by the 32-bit comparison, unless it is close to 2^32 bytes. */
  lemma OverrunUnnoticed(buf: LogBuffer, rec: Record)
    requires buf.Valid() && !buf.Fits(rec) && |rec| <= U32 - SIZE_MAX
    ensures (buf.outLen - (buf.outTop + |rec|)) % U32 >= SIZE_MAX
  {
    hide Holds, NoneEmpty, Concat, Flatten;
    UnderflowIsLarge(buf.outLen, buf.outTop, |rec|);
  }

  lemma UnderflowIsLarge(outLen: nat, outTop: nat, len: nat)
    requires outTop + SIZE_MAX <= outLen < U32 && outTop + len > outLen && len <= U32 - SIZE_MAX
    ensures (outLen - (outTop + len)) % U32 >= SIZE_MAX
  {
    var d := outLen - (outTop + len);
    assert d + U32 >= SIZE_MAX;
    assert (d + U32) % U32 == d % U32;
  }
}

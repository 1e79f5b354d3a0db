/** Traffic accounting of processes and their flows, without tables, counters or slots. */
module Accounting {
  import opened Widths
  import opened Wrappers

  const REFCOUNT_MAX := 0xFFFF
  const PROC_COUNT_MAX := 0x7FFF   // FORT_PROC_COUNT_MAX

  /** Two 32-bit byte counters. */
  datatype Traf = Traf(inBytes: nat, outBytes: nat)

  const ZERO := Traf(0, 0)

  /**
    * held: the bytes held for each known process; queue: the processes to report, next first;
    * flows: the known flows, each open to a process or closed.
    */
  datatype Accounts = Accounts(log: bool, held: map<nat, Traf>, queue: seq<nat>, flows: map<nat, Option<nat>>)

  datatype Status = Success | DataError | FlowBlock | NoResources

  datatype Report = Report(pid: nat, last: bool, traf: Traf)

  datatype Op =
    | Associate(fid: nat, pid: nat, reauth: bool)
    | Delete(fid: nat)
    | Classify(fid: nat, len: nat, inbound: bool)
    | Flush(count: nat)
    | Update(log: bool)

  ghost function OpenFlows(a: Accounts, pid: nat): set<nat> {
    set f | f in a.flows && a.flows[f] == Some(pid)
  }

  ghost function Refs(a: Accounts, pid: nat): nat {
    |OpenFlows(a, pid)|
  }

  // ---------------------------------------------------------------------------------------------
  // The operations
  // ---------------------------------------------------------------------------------------------

  function Activate(queue: seq<nat>, pid: nat): seq<nat> {
    if pid in queue then queue else [pid] + queue
  }

  function Charge(t: Traf, len: nat, inbound: bool): Traf {
    if inbound then t.(inBytes := (t.inBytes + len) % U32) else t.(outBytes := (t.outBytes + len) % U32)
  }

  ghost function AssociateStatus(a: Accounts, fid: nat, pid: nat, reauth: bool): Status {
    if !a.log then DataError
    else if reauth && (pid !in a.held || fid !in a.flows) then FlowBlock
    else if pid !in a.held && |a.held| + 1 >= PROC_COUNT_MAX then NoResources
    else Success
  }

  ghost function AssociateStep(a: Accounts, fid: nat, pid: nat, reauth: bool): Accounts {
    if AssociateStatus(a, fid, pid, reauth) != Success then a
    else a.(held := if pid in a.held then a.held else a.held[pid := ZERO], flows := a.flows[fid := Some(pid)])
  }

  ghost function DeleteStep(a: Accounts, fid: nat): Accounts
    requires fid in a.flows
  {
    var a' := a.(flows := a.flows - {fid});
    match a.flows[fid]
    case None => a'
    case Some(pid) => if Refs(a', pid) == 0 then a'.(queue := Activate(a.queue, pid)) else a'
  }

  function ClassifyStep(a: Accounts, fid: nat, len: nat, inbound: bool): Accounts
    requires fid in a.flows
  {
    if !a.log || a.flows[fid].None? || a.flows[fid].value !in a.held then a
    else
      var pid := a.flows[fid].value;
      a.(held := a.held[pid := Charge(a.held[pid], len, inbound)], queue := Activate(a.queue, pid))
  }

  /** The next report: the process is forgotten when no flow is open to it. */
  ghost function NextReport(a: Accounts): Report
    requires a.queue != [] && a.queue[0] in a.held
  {
    Report(a.queue[0], Refs(a, a.queue[0]) == 0, a.held[a.queue[0]])
  }

  ghost function FlushOne(a: Accounts): Accounts
    requires a.queue != [] && a.queue[0] in a.held
  {
    var pid := a.queue[0];
    a.(held := if NextReport(a).last then a.held - {pid} else a.held[pid := ZERO], queue := a.queue[1..])
  }

  ghost predicate Queued(a: Accounts) {
    && (forall i, j | 0 <= i < j < |a.queue| :: a.queue[i] != a.queue[j])
    && (forall pid | pid in a.queue :: pid in a.held)
  }

  lemma FlushOneQueued(a: Accounts)
    requires Queued(a) && a.queue != []
    ensures Queued(FlushOne(a))
  {
    var a' := FlushOne(a);
    assert forall i | 0 <= i < |a'.queue| :: a'.queue[i] == a.queue[i + 1];
    forall pid | pid in a'.queue
      ensures pid in a'.held
    {
      assert pid in a.queue && pid != a.queue[0];
    }
  }

  ghost function FlushStep(a: Accounts, count: nat): Accounts
    requires Queued(a)
    decreases count
  {
    if count == 0 || a.queue == [] then a
    else
      FlushOneQueued(a);
      FlushStep(FlushOne(a), count - 1)
  }

  ghost function Reports(a: Accounts, count: nat): seq<Report>
    requires Queued(a)
    decreases count
  {
    if count == 0 || a.queue == [] then []
    else
      FlushOneQueued(a);
      [NextReport(a)] + Reports(FlushOne(a), count - 1)
  }

  function Cleared(a: Accounts): Accounts {
    Accounts(a.log, map[], [], map f | f in a.flows :: None)
  }

  function UpdateStep(a: Accounts, log: bool): Accounts {
    (if a.log && !log then Cleared(a) else a).(log := log)
  }

  // ---------------------------------------------------------------------------------------------
  // The invariant
  // ---------------------------------------------------------------------------------------------

  ghost predicate Good(a: Accounts) {
    && Queued(a)
    && (forall f | f in a.flows && a.flows[f].Some? :: a.flows[f].value in a.held)
    && (forall pid | pid in a.held && Refs(a, pid) == 0 :: pid in a.queue)
    && (forall pid | pid in a.held && a.held[pid] != ZERO :: pid in a.queue)
    && (forall pid | pid in a.held :: a.held[pid].inBytes < U32 && a.held[pid].outBytes < U32)
    && (!a.log ==> a.held == map[])
    && |a.held| < PROC_COUNT_MAX && (forall pid | pid in a.held :: pid < U32)
  }

  /** Associating keeps the reference counts: the flow stays with its process, or a count grows without wrapping. */
  ghost predicate KeepsCounts(a: Accounts, f: nat, pid: nat) {
    if f in a.flows && a.flows[f].Some? then a.flows[f].value == pid else Refs(a, pid) < REFCOUNT_MAX
  }

  /** What the callers keep: handles are live, and an open flow is not moved to another process. */
  ghost predicate Allowed(a: Accounts, op: Op) {
    match op
    case Associate(fid, pid, reauth) =>
      (AssociateStatus(a, fid, pid, reauth) == Success ==> KeepsCounts(a, fid, pid)) && pid < U32
    case Delete(fid) => fid in a.flows
    case Classify(fid, len, inbound) => fid in a.flows
    case Flush(count) => true
    case Update(log) => true
  }

  ghost function Step(a: Accounts, op: Op): Accounts
    requires Good(a) && Allowed(a, op)
  {
    match op
    case Associate(fid, pid, reauth) => AssociateStep(a, fid, pid, reauth)
    case Delete(fid) => DeleteStep(a, fid)
    case Classify(fid, len, inbound) => ClassifyStep(a, fid, len, inbound)
    case Flush(count) => FlushStep(a, count)
    case Update(log) => UpdateStep(a, log)
  }

  lemma SameRefs(a: Accounts, a': Accounts, pid: nat)
    requires forall f :: (f in a.flows && a.flows[f] == Some(pid)) <==> (f in a'.flows && a'.flows[f] == Some(pid))
    ensures Refs(a, pid) == Refs(a', pid)
  {
    assert OpenFlows(a, pid) == OpenFlows(a', pid);
  }

  lemma SomeRefs(a: Accounts, f: nat, pid: nat)
    requires f in a.flows && a.flows[f] == Some(pid)
    ensures Refs(a, pid) > 0
  {
    assert f in OpenFlows(a, pid);
  }

  lemma AssociateGood(a: Accounts, fid: nat, pid: nat, reauth: bool)
    requires Good(a) && Allowed(a, Associate(fid, pid, reauth))
    ensures Good(AssociateStep(a, fid, pid, reauth))
  {
    var a' := AssociateStep(a, fid, pid, reauth);
    if AssociateStatus(a, fid, pid, reauth) == Success {
      forall p | p in a'.held && Refs(a', p) == 0
        ensures p in a'.queue
      {
        if p == pid {
          SomeRefs(a', fid, pid);
        } else {
          SameRefs(a, a', p);
        }
      }
    }
  }

  lemma ActivateQueued(a: Accounts, queue: seq<nat>, pid: nat)
    requires Queued(a) && pid in a.held && queue == Activate(a.queue, pid)
    ensures Queued(a.(queue := queue)) && pid in queue && forall p | p in a.queue :: p in queue
  {
  }

  lemma DeleteGood(a: Accounts, fid: nat)
    requires Good(a) && fid in a.flows
    ensures Good(DeleteStep(a, fid))
  {
    var a' := DeleteStep(a, fid);
    var a1 := a.(flows := a.flows - {fid});
    forall p | p in a.held
      ensures Refs(a', p) == Refs(a1, p)
      ensures a.flows[fid] != Some(p) ==> Refs(a', p) == Refs(a, p)
    {
      SameRefs(a1, a', p);
      if a.flows[fid] != Some(p) { SameRefs(a, a', p); }
    }
    if a.flows[fid].Some? && Refs(a1, a.flows[fid].value) == 0 {
      ActivateQueued(a1, a'.queue, a.flows[fid].value);
    }
  }

  lemma ClassifyGood(a: Accounts, fid: nat, len: nat, inbound: bool)
    requires Good(a) && fid in a.flows
    ensures Good(ClassifyStep(a, fid, len, inbound))
  {
    var a' := ClassifyStep(a, fid, len, inbound);
    if a' != a {
      var pid := a.flows[fid].value;
      ActivateQueued(a, a'.queue, pid);
      assert a'.held.Keys == a.held.Keys;
      forall p
        ensures Refs(a', p) == Refs(a, p)
      {
        SameRefs(a, a', p);
      }
    }
  }

  lemma FlushOneGood(a: Accounts)
    requires Good(a) && a.queue != []
    ensures Good(FlushOne(a))
  {
    hide Refs;
    FlushOneQueued(a);
    var a' := FlushOne(a);
    var pid := a.queue[0];
    assert a'.held.Keys == if NextReport(a).last then a.held.Keys - {pid} else a.held.Keys;
    assert forall p | p in a.queue && p != pid :: p in a'.queue;
    forall p
      ensures Refs(a', p) == Refs(a, p)
    {
      SameRefs(a, a', p);
    }
    forall f | f in a'.flows && a'.flows[f].Some?
      ensures a'.flows[f].value in a'.held
    {
      SomeRefs(a, f, a.flows[f].value);
    }
  }

  lemma GoodIsQueued(a: Accounts)
    requires Good(a)
    ensures Queued(a)
    ensures a.queue != [] ==> a.queue[0] in a.held
  {
  }

  lemma FlushUnfold(a: Accounts, count: nat)
    requires Queued(a)
    ensures count == 0 || a.queue == [] ==> FlushStep(a, count) == a && Reports(a, count) == []
    ensures count > 0 && a.queue != [] ==>
              && a.queue[0] in a.held && Queued(FlushOne(a))
              && FlushStep(a, count) == FlushStep(FlushOne(a), count - 1)
              && Reports(a, count) == [NextReport(a)] + Reports(FlushOne(a), count - 1)
  {
    if a.queue != [] { FlushOneQueued(a); }
  }

  lemma {:induction false} FlushQueued(a: Accounts, count: nat)
    requires Queued(a)
    ensures Queued(FlushStep(a, count))
    decreases count
  {
    hide Queued, FlushStep, FlushOne;
    FlushUnfold(a, count);
    if count > 0 && a.queue != [] { FlushQueued(FlushOne(a), count - 1); }
  }

  /** Two flushes in a row are one. */
  lemma {:induction false} FlushSplit(a: Accounts, m: nat, k: nat)
    requires Queued(a)
    ensures Queued(FlushStep(a, m))
    ensures FlushStep(a, m + k) == FlushStep(FlushStep(a, m), k)
    ensures Reports(a, m + k) == Reports(a, m) + Reports(FlushStep(a, m), k)
    decreases m
  {
    hide Queued, FlushStep, Reports, FlushOne, NextReport;
    FlushQueued(a, m);
    FlushUnfold(a, m);
    FlushUnfold(a, m + k);
    FlushUnfold(a, k);
    if m > 0 && a.queue != [] {
      FlushSplit(FlushOne(a), m - 1, k);
    }
  }

  lemma {:induction false} FlushGood(a: Accounts, count: nat)
    requires Good(a)
    ensures Good(FlushStep(a, count))
    decreases count
  {
    hide Good, FlushOne, FlushStep, Queued;
    GoodIsQueued(a);
    FlushUnfold(a, count);
    if count > 0 && a.queue != [] {
      FlushOneGood(a);
      FlushGood(FlushOne(a), count - 1);
    }
  }

  /** Every operation keeps the invariant. */
  lemma StepGood(a: Accounts, op: Op)
    requires Good(a) && Allowed(a, op)
    ensures Good(Step(a, op))
  {
    match op
    case Associate(fid, pid, reauth) => AssociateGood(a, fid, pid, reauth);
    case Delete(fid) => DeleteGood(a, fid);
    case Classify(fid, len, inbound) => ClassifyGood(a, fid, len, inbound);
    case Flush(count) => FlushGood(a, count);
    case Update(log) =>
  }

  // ---------------------------------------------------------------------------------------------
  // Whole runs
  // ---------------------------------------------------------------------------------------------

  ghost predicate Legal(a: Accounts, ops: seq<Op>)
    requires Good(a)
    decreases |ops|
  {
    ops == [] || (Allowed(a, ops[0]) && (StepGood(a, ops[0]); Legal(Step(a, ops[0]), ops[1..])))
  }

  ghost function Run(a: Accounts, ops: seq<Op>): Accounts
    requires Good(a) && Legal(a, ops)
    decreases |ops|
  {
    if ops == [] then a
    else
      StepGood(a, ops[0]);
      Run(Step(a, ops[0]), ops[1..])
  }

  const START := Accounts(false, map[], [], map[])

  lemma StartGood()
    ensures Good(START)
  {
  }

  /**
    * In every reachable state, the report queue has no duplicates and holds only known processes, a
    * process with bytes or without open flows is in it, and an open flow's process is known.
    */
  lemma {:induction false} RunGood(a: Accounts, ops: seq<Op>)
    requires Good(a) && Legal(a, ops)
    ensures Good(Run(a, ops))
    decreases |ops|
  {
    if ops != [] {
      StepGood(a, ops[0]);
      RunGood(Step(a, ops[0]), ops[1..]);
    }
  }

  // ---------------------------------------------------------------------------------------------
  // What a flush does
  // ---------------------------------------------------------------------------------------------

  function Min(x: nat, y: nat): nat {
    if x < y then x else y
  }

  /** What becomes of a process in a flush of the first n of the queue. */
  ghost predicate Flushed(a: Accounts, a': Accounts, n: nat, pid: nat)
    requires n <= |a.queue|
  {
    if pid !in a.queue[..n] then
      (pid in a'.held <==> pid in a.held) && (pid in a.held ==> a'.held[pid] == a.held[pid])
    else
      (pid in a'.held <==> Refs(a, pid) > 0) && (pid in a'.held ==> a'.held[pid] == ZERO)
  }

  ghost predicate AllFlushed(a: Accounts, a': Accounts, n: nat)
    requires n <= |a.queue|
  {
    forall pid {:trigger Flushed(a, a', n, pid)} :: Flushed(a, a', n, pid)
  }

  /**
    * A flush reports the first processes of the queue once each, in order, with all their bytes; it forgets
    * those without open flows, zeroes the others, and changes nothing else.
    */
  lemma {:induction false} FlushMeaning(a: Accounts, count: nat)
    requires Queued(a)
    ensures var n, a' := Min(count, |a.queue|), FlushStep(a, count);
            && a'.queue == a.queue[n..] && a'.flows == a.flows && a'.log == a.log
            && AllFlushed(a, a', n)
    ensures |Reports(a, count)| == Min(count, |a.queue|)
    ensures forall i | 0 <= i < Min(count, |a.queue|) ::
              Reports(a, count)[i] == Report(a.queue[i], Refs(a, a.queue[i]) == 0, a.held[a.queue[i]])
    decreases count
  {
    FlushUnfold(a, count);
    var n, a' := Min(count, |a.queue|), FlushStep(a, count);
    hide FlushStep, Reports, FlushOne, Flushed, Refs, Queued;
    if n > 0 {
      var b := FlushOne(a);
      FlushMeaning(b, count - 1);
      FlushOneRest(a);
      forall pid {:trigger Flushed(a, a', n, pid)}
        ensures Flushed(a, a', n, pid)
      {
        assert Flushed(b, a', n - 1, pid);
        FlushedNext(a, a', n, pid);
      }
      forall i | 0 <= i < n
        ensures Reports(a, count)[i] == Report(a.queue[i], Refs(a, a.queue[i]) == 0, a.held[a.queue[i]])
      {
        if i > 0 {
          assert b.queue[i - 1] == a.queue[i];
        }
      }
    } else {
      assert a.queue[n..] == a.queue && a' == a;
      forall pid {:trigger Flushed(a, a', n, pid)}
        ensures Flushed(a, a', n, pid)
      {
        NothingFlushed(a, pid);
      }
    }
  }

  lemma NothingFlushed(a: Accounts, pid: nat)
    ensures Flushed(a, a, 0, pid)
  {
  }

  /** The processes behind the first are reported as if it had not been there. */
  lemma FlushOneRest(a: Accounts)
    requires Queued(a) && a.queue != []
    ensures var b := FlushOne(a); b.queue == a.queue[1..] && b.flows == a.flows && b.log == a.log
    ensures NextReport(a) == Report(a.queue[0], Refs(a, a.queue[0]) == 0, a.held[a.queue[0]])
    ensures forall i | 0 < i < |a.queue| ::
              var b := FlushOne(a);
              Refs(b, a.queue[i]) == Refs(a, a.queue[i]) && a.queue[i] in b.held && a.queue[i] in a.held
                && b.held[a.queue[i]] == a.held[a.queue[i]]
  {
    forall i | 0 < i < |a.queue|
      ensures Refs(FlushOne(a), a.queue[i]) == Refs(a, a.queue[i])
    {
      SameRefs(a, FlushOne(a), a.queue[i]);
    }
  }

  lemma FlushedNext(a: Accounts, a': Accounts, n: nat, pid: nat)
    requires Queued(a) && 0 < n <= |a.queue|
    requires Flushed(FlushOne(a), a', n - 1, pid)
    ensures Flushed(a, a', n, pid)
  {
    var b := FlushOne(a);
    SameRefs(a, b, pid);
    assert a.queue[..n] == [a.queue[0]] + b.queue[..n - 1];
    assert pid in a.queue[..n] <==> pid == a.queue[0] || pid in b.queue[..n - 1];
    FlushOneQueued(a);
    assert a.queue[0] !in b.queue[..n - 1];
  }

  /** A flush of n more, after a flush of the first m. */
  lemma FlushMore(a: Accounts, b: Accounts, m: nat, n: nat)
    requires Good(a) && m <= |a.queue| && b == FlushStep(a, m) && n <= |b.queue|
    ensures Queued(a) && Queued(b) && m + n <= |a.queue| && |b.queue| == |a.queue| - m
    ensures FlushStep(b, n) == FlushStep(a, m + n) && Good(FlushStep(a, m + n))
    ensures Reports(a, m + n) == Reports(a, m) + Reports(b, n) && |Reports(b, n)| == n
  {
    hide Good, Queued, FlushStep, Reports, AllFlushed, Refs;
    GoodIsQueued(a);
    FlushGood(a, m);
    GoodIsQueued(b);
    FlushMeaning(a, m);
    FlushMeaning(b, n);
    FlushSplit(a, m, n);
    FlushGood(a, m + n);
  }

  /** Flushing everything leaves exactly the processes with open flows, and no bytes. */
  lemma FlushAll(a: Accounts)
    requires Good(a)
    ensures var a' := FlushStep(a, |a.queue|);
            && a'.queue == []
            && (forall pid :: pid in a'.held <==> Refs(a, pid) > 0)
            && (forall pid | pid in a'.held :: a'.held[pid] == ZERO)
  {
    var n := |a.queue|;
    var a' := FlushStep(a, n);
    FlushMeaning(a, n);
    assert a.queue[..n] == a.queue;
    forall pid
      ensures pid in a'.held <==> Refs(a, pid) > 0
      ensures pid in a'.held ==> a'.held[pid] == ZERO
    {
      assert Flushed(a, a', n, pid);
      if Refs(a, pid) > 0 {
        var f :| f in OpenFlows(a, pid);
      }
    }
  }

  // ---------------------------------------------------------------------------------------------
  // Conservation of traffic
  // ---------------------------------------------------------------------------------------------

  /** Totals since the process became known, unbounded. */
  datatype Balance = Balance(classified: Traf, reported: Traf)

  type Book = map<nat, Balance>

  function Plus(t: Traf, u: Traf): Traf {
    Traf(t.inBytes + u.inBytes, t.outBytes + u.outBytes)
  }

  function Bytes(len: nat, inbound: bool): Traf {
    if inbound then Traf(len, 0) else Traf(0, len)
  }

  /** Posts reports to the book. */
  function Post(b: Book, reports: seq<Report>): Book
    decreases |reports|
  {
    if reports == [] then b
    else
      var r := reports[0];
      Post(if r.pid in b then b[r.pid := b[r.pid].(reported := Plus(b[r.pid].reported, r.traf))] else b, reports[1..])
  }

  /** The book of a run; a clear discards the bytes held, and with them the accounts. */
  ghost function BookStep(b: Book, a: Accounts, op: Op): Book
    requires Good(a) && Allowed(a, op)
  {
    match op
    case Associate(fid, pid, reauth) =>
      if AssociateStatus(a, fid, pid, reauth) == Success && pid !in a.held then b[pid := Balance(ZERO, ZERO)] else b
    case Delete(fid) => b
    case Classify(fid, len, inbound) =>
      if !a.log || a.flows[fid].None? || a.flows[fid].value !in b then b
      else
        var pid := a.flows[fid].value;
        b[pid := b[pid].(classified := Plus(b[pid].classified, Bytes(len, inbound)))]
    case Flush(count) => Post(b, Reports(a, count))
    case Update(log) => if a.log && !log then map[] else b
  }

  function Held(a: Accounts, pid: nat): Traf {
    if pid in a.held then a.held[pid] else ZERO
  }

  /** Equal up to wrap-arounds of the first. */
  predicate Congruent(t: Traf, u: Traf) {
    && t.inBytes % U32 == u.inBytes % U32 && t.inBytes <= u.inBytes
    && t.outBytes % U32 == u.outBytes % U32 && t.outBytes <= u.outBytes
  }

  /** Below 2^32 bytes, nothing can have wrapped. */
  lemma CongruentBelowWrap(t: Traf, u: Traf)
    requires Congruent(t, u)
    ensures u.inBytes < U32 ==> t.inBytes == u.inBytes
    ensures u.outBytes < U32 ==> t.outBytes == u.outBytes
  {
  }

  ghost predicate Balanced(a: Accounts, b: Book) {
    && a.held.Keys <= b.Keys
    && forall pid | pid in b :: Congruent(Plus(b[pid].reported, Held(a, pid)), b[pid].classified)
  }

  /** Adding to a wrapping counter. */
  lemma WrapAdd(r: nat, h: nat, c: nat, len: nat)
    requires (r + h) % U32 == c % U32
    ensures (r + (h + len) % U32) % U32 == (c + len) % U32
    ensures r + h <= c ==> r + (h + len) % U32 <= c + len
  {
    var p, q, k := (r + h) / U32, c / U32, (h + len) / U32;
    var x := r + (h + len) % U32;
    assert c + len == x + U32 * (k + q - p);
    WrapUnique(x, c + len, k + q - p);
  }

  lemma WrapUnique(x: nat, y: nat, k: int)
    requires y == x + U32 * k
    ensures x % U32 == y % U32
  {
    assert y / U32 == x / U32 + k;
  }

  lemma ChargeCongruent(r: Traf, h: Traf, c: Traf, len: nat, inbound: bool)
    requires Congruent(Plus(r, h), c)
    ensures Congruent(Plus(r, Charge(h, len, inbound)), Plus(c, Bytes(len, inbound)))
  {
    if inbound {
      WrapAdd(r.inBytes, h.inBytes, c.inBytes, len);
    } else {
      WrapAdd(r.outBytes, h.outBytes, c.outBytes, len);
    }
  }

  lemma ClassifyBalanced(a: Accounts, b: Book, fid: nat, len: nat, inbound: bool)
    requires Good(a) && fid in a.flows && Balanced(a, b)
    ensures Balanced(ClassifyStep(a, fid, len, inbound), BookStep(b, a, Classify(fid, len, inbound)))
  {
    if a.log && a.flows[fid].Some? {
      var pid := a.flows[fid].value;
      ChargeCongruent(b[pid].reported, a.held[pid], b[pid].classified, len, inbound);
    }
  }

  lemma FlushOneBalanced(a: Accounts, b: Book)
    requires a.queue != [] && a.queue[0] in a.held && Balanced(a, b)
    ensures Balanced(FlushOne(a), Post(b, [NextReport(a)]))
  {
    hide Refs, Congruent, Post;
    var r, a' := NextReport(a), FlushOne(a);
    var b' := b[r.pid := b[r.pid].(reported := Plus(b[r.pid].reported, r.traf))];
    PostOne(b, r);
    forall pid | pid in b'
      ensures Congruent(Plus(b'[pid].reported, Held(a', pid)), b'[pid].classified)
    {
      if pid == r.pid {
        assert Plus(Plus(b[pid].reported, r.traf), ZERO) == Plus(b[pid].reported, Held(a, pid));
      }
    }
  }

  lemma PostOne(b: Book, r: Report)
    requires r.pid in b
    ensures Post(b, [r]) == b[r.pid := b[r.pid].(reported := Plus(b[r.pid].reported, r.traf))]
  {
    assert [r][1..] == [];
  }

  lemma PostUnfold(b: Book, r: Report, rest: seq<Report>)
    ensures Post(b, [r] + rest) == Post(Post(b, [r]), rest)
  {
    assert ([r] + rest)[1..] == rest && [r][1..] == [];
  }

  lemma {:induction false} FlushBalanced(a: Accounts, b: Book, count: nat)
    requires Good(a) && Balanced(a, b)
    ensures Balanced(FlushStep(a, count), Post(b, Reports(a, count)))
    decreases count
  {
    hide Good, FlushStep, Reports, Balanced, Queued, FlushOne, NextReport;
    GoodIsQueued(a);
    FlushUnfold(a, count);
    if count > 0 && a.queue != [] {
      FlushOneGood(a);
      FlushOneBalanced(a, b);
      FlushBalanced(FlushOne(a), Post(b, [NextReport(a)]), count - 1);
      PostUnfold(b, NextReport(a), Reports(FlushOne(a), count - 1));
    }
  }

  lemma AssociateBalanced(a: Accounts, b: Book, fid: nat, pid: nat, reauth: bool)
    requires Good(a) && Allowed(a, Associate(fid, pid, reauth)) && Balanced(a, b)
    ensures Balanced(AssociateStep(a, fid, pid, reauth), BookStep(b, a, Associate(fid, pid, reauth)))
  {
    hide Good, Refs, Congruent, AssociateStatus, Allowed;
    NothingYet();
    var a', b' := AssociateStep(a, fid, pid, reauth), BookStep(b, a, Associate(fid, pid, reauth));
    forall p | p in b'
      ensures Congruent(Plus(b'[p].reported, Held(a', p)), b'[p].classified)
    {
      if p in b { assert Congruent(Plus(b[p].reported, Held(a, p)), b[p].classified); }
    }
  }

  lemma NothingYet()
    ensures Congruent(Plus(ZERO, ZERO), ZERO)
  {
  }

  lemma StepBalanced(a: Accounts, b: Book, op: Op)
    requires Good(a) && Allowed(a, op) && Balanced(a, b)
    ensures Balanced(Step(a, op), BookStep(b, a, op))
  {
    hide Good, FlushStep, Reports, Post, Refs, ClassifyStep, Congruent;
    match op
    case Associate(fid, pid, reauth) => AssociateBalanced(a, b, fid, pid, reauth);
    case Delete(fid) =>
    case Classify(fid, len, inbound) => ClassifyBalanced(a, b, fid, len, inbound);
    case Flush(count) => FlushBalanced(a, b, count);
    case Update(log) =>
  }

  ghost function RunBook(b: Book, a: Accounts, ops: seq<Op>): Book
    requires Good(a) && Legal(a, ops)
    decreases |ops|
  {
    if ops == [] then b
    else
      StepGood(a, ops[0]);
      RunBook(BookStep(b, a, ops[0]), Step(a, ops[0]), ops[1..])
  }

  /** Over every run, bytes reported plus bytes held are the bytes classified, modulo 2^32. */
  lemma {:induction false} TrafficConserved(a: Accounts, b: Book, ops: seq<Op>)
    requires Good(a) && Legal(a, ops) && Balanced(a, b)
    ensures Balanced(Run(a, ops), RunBook(b, a, ops))
    decreases |ops|
  {
    if ops != [] {
      StepGood(a, ops[0]);
      StepBalanced(a, b, ops[0]);
      TrafficConserved(Step(a, ops[0]), BookStep(b, a, ops[0]), ops[1..]);
    }
  }
}

/** The driver's timer: flushes the traffic statistics to the log and releases held back packets. */
module CalloutTimer {
  import opened Accounting
  import opened LogCodec
  import opened Widths
  import opened Wrappers
  import Bits
  import L = LogBuffer
  import SpeedLimit
  import S = Stat
  import ST = StatTables

  const SHORT_PROCS := 43   // a report of so many processes is a short record

  // ---------------------------------------------------------------------------------------------
  // Reports as log entries
  // ---------------------------------------------------------------------------------------------

  predicate InRange(r: Report) {
    r.pid < U32 && r.traf.inBytes < U32 && r.traf.outBytes < U32
  }

  /** `process_id | 1` marks the last report of a process. */
  function RawPid(pid: nat, last: bool): nat {
    if last && pid % 2 == 0 then pid + 1 else pid
  }

  function Line(r: Report): ProcTraf
    requires InRange(r)
  {
    ProcTraf(RawPid(r.pid, r.last), r.traf.inBytes, r.traf.outBytes)
  }

  function Lines(reports: seq<Report>): (lines: seq<ProcTraf>)
    requires forall r | r in reports :: InRange(r)
    ensures |lines| == |reports|
  {
    seq(|reports|, i requires 0 <= i < |reports| => Line(reports[i]))
  }

  /** What a reader makes of a line. */
  function Report'(line: ProcTraf): Report {
    Report(line.pid / 2 * 2, line.pid % 2 == 1, Traf(line.inBytes, line.outBytes))
  }

  /** The mark can be told from the id exactly when ids are even, as they are on the system. */
  lemma LineBack(r: Report)
    requires InRange(r)
    ensures Report'(Line(r)) == r <==> r.pid % 2 == 0
    ensures Line(r).inBytes == r.traf.inBytes && Line(r).outBytes == r.traf.outBytes
    ensures Line(r).pid == r.pid || (r.last && Line(r).pid == r.pid + 1)
    ensures r.last ==> Line(r).pid % 2 == 1
  {
  }

  /** The lines of all traffic entries. */
  function AllLines(entries: seq<Entry>): seq<ProcTraf> {
    if entries == [] then []
    else
      var n := |entries| - 1;
      AllLines(entries[..n]) + (match entries[n] { case StatTraf(procs) => procs case _ => [] })
  }

  lemma AllLinesAdd(entries: seq<Entry>, e: Entry)
    ensures AllLines(entries + [e]) == AllLines(entries) + (match e { case StatTraf(procs) => procs case _ => [] })
  {
    assert (entries + [e])[..|entries|] == entries;
  }

  lemma ReportsInRange(a: Accounts, count: nat)
    requires Good(a)
    ensures forall r | r in Reports(a, count) :: InRange(r)
    ensures |Reports(a, count)| == Min(count, |a.queue|)
  {
    hide Refs, AllFlushed, FlushStep, Reports;
    FlushMeaning(a, count);
    forall r | r in Reports(a, count)
      ensures InRange(r)
    {
      var i :| 0 <= i < |Reports(a, count)| && Reports(a, count)[i] == r;
      assert a.queue[i] in a.held;
    }
  }

  /** The traffic entries say the reports. */
  ghost predicate Logged(entries: seq<Entry>, reports: seq<Report>) {
    (forall r | r in reports :: InRange(r)) && AllLines(entries) == Lines(reports)
  }

  lemma LoggedMore(entries: seq<Entry>, reports: seq<Report>, more: seq<Report>)
    requires Logged(entries, reports) && forall r | r in more :: InRange(r)
    ensures Logged(entries + [StatTraf(Lines(more))], reports + more)
  {
    AllLinesAdd(entries, StatTraf(Lines(more)));
    assert Lines(reports + more) == Lines(reports) + Lines(more);
  }

  method EncodeTime(unixTime: Int64) returns (rec: L.Record)
    ensures Encodes(rec, Time(unixTime)) && |rec| == 12
  {
    var p := new L.Byte[12];
    TimeWrite(p, 0, unixTime);
    rec := p[..];
    assert p[0..12] == p[..];
  }

  method EncodeReports(reports: seq<Report>) returns (rec: L.Record)
    requires |reports| <= PROC_COUNT && forall r | r in reports :: InRange(r)
    ensures Encodes(rec, StatTraf(Lines(reports))) && |rec| == 4 + 12 * |reports|
  {
    var n := 4 + 12 * |reports|;
    var p := new L.Byte[n];
    StatTrafWrite(p, 0, Lines(reports));
    rec := p[..];
    assert p[0..n] == p[..];
  }

  // ---------------------------------------------------------------------------------------------
  // The timer
  // ---------------------------------------------------------------------------------------------

  /** A completed read has got exactly the records delivered since, and the request is gone. */
  ghost predicate Handover(buf: L.LogBuffer, completed: Option<L.Completion>, irp: Option<nat>,
                           delivered: seq<L.Record>)
    reads buf, buf.out
  {
    match completed
    case None => buf.delivered == delivered && buf.irp == irp
    case Some(c) =>
      && irp == Some(c.irp) && buf.outLen == 0
      && delivered <= buf.delivered && c.info <= buf.out.Length
      && buf.out[..c.info] == L.Concat(buf.delivered[|delivered|..])
  }

  /** Whether the reports of n processes, as many to a record as fit a chunk, stay inside a pending read that has this
      much room left, up to where it is completed. */
  predicate ReportsFit(room: nat, n: nat)
    decreases n
  {
    n == 0 ||
      var count := if n < PROC_COUNT then n else PROC_COUNT;
      var size := 4 + 12 * count;
      size <= room && (room - size < L.SIZE_MAX || ReportsFit(room - size, n - count))
  }

  /** Whether all records of a tick stay inside the pending read, if there is one. */
  predicate TickFits(outLen: nat, outTop: nat, timeChanged: bool, n: nat) {
    outLen > outTop ==>
      var room := outLen - outTop - (if timeChanged then 12 else 0);
      (timeChanged && room < L.SIZE_MAX) || (room >= 0 && ReportsFit(room, n))
  }

  /** Every pending read has room for the reports of up to 43 processes, and the tightest for no more. */
  lemma ShortReports(n: nat)
    ensures (forall room: nat {:trigger ReportsFit(room, n)} | room >= L.SIZE_MAX :: ReportsFit(room, n)) <==>
              n <= SHORT_PROCS
  {
    forall room: nat {:trigger ReportsFit(room, n)} | room >= L.SIZE_MAX && n <= SHORT_PROCS
      ensures ReportsFit(room, n)
    {
      FewReports(room, n);
    }
    if n > SHORT_PROCS {
      var room: nat := L.SIZE_MAX;
      assert !ReportsFit(room, n);
    }
  }

  lemma FewReports(room: nat, n: nat)
    requires room >= L.SIZE_MAX && n <= SHORT_PROCS
    ensures ReportsFit(room, n)
  {
    if n > 0 {
      assert ReportsFit(room - (4 + 12 * n), 0);
    }
  }

  /** How many of n processes the next record takes. */
  function NextCount(n: nat): (count: nat)
    ensures count <= n && count <= PROC_COUNT
  {
    if n < PROC_COUNT then n else PROC_COUNT
  }

  /** Of n processes the first `done` are in the entries: the fewest entries that hold them, all full but the last. */
  ghost predicate Filled(entries: seq<Entry>, n: nat, done: nat) {
    && done <= n && (done == |entries| * PROC_COUNT || (done == n && done <= |entries| * PROC_COUNT))
    && forall i | 0 <= i < |entries| ::
         && i * PROC_COUNT < n && entries[i].StatTraf?
         && |entries[i].procs| == if n - i * PROC_COUNT < PROC_COUNT then n - i * PROC_COUNT else PROC_COUNT
  }

  lemma FilledMore(entries: seq<Entry>, entries': seq<Entry>, n: nat, done: nat)
    requires Filled(entries, n, done) && done < n
    requires |entries'| == |entries| + 1 && entries'[..|entries|] == entries
    requires entries'[|entries|].StatTraf? && |entries'[|entries|].procs| == NextCount(n - done)
    ensures Filled(entries', n, done + NextCount(n - done))
  {
    forall i | 0 <= i < |entries|
      ensures entries'[i] == entries[i]
    {
      assert entries'[i] == entries'[..|entries|][i];
    }
  }

  /** A full flush of n processes takes as few records as can hold them. */
  lemma RecordCount(entries: seq<Entry>, n: nat)
    requires Filled(entries, n, n)
    ensures |entries| == (n + PROC_COUNT - 1) / PROC_COUNT
  {
    if entries != [] {
      assert (|entries| - 1) * PROC_COUNT < n;
    }
  }

  /** One report record: as many processes as fit a chunk, if there is room for the record. */
  method FlushRecord(stat: S.Stat, buf: L.LogBuffer, oom: bool, ghost a: Accounts, ghost done: nat,
                     ghost entries: seq<Entry>)
    returns (ok: bool, completed: Option<L.Completion>, ghost done': nat, ghost entries': seq<Entry>, rec: L.Record)
    requires stat.Valid() && Good(stat.View()) && buf.Valid()
    requires stat.procActiveCount != 0 && (buf.outLen == 0 || ReportsFit(buf.outLen - buf.outTop, stat.procActiveCount))
    requires Good(a) && stat.View() == FlushStep(a, done) && done <= |a.queue|
    requires Logged(entries, Reports(a, done))
    modifies stat, buf, buf.out
    ensures stat.Valid() && Good(stat.View()) && buf.Valid() && buf.out == old(buf.out)
    ensures stat.View() == FlushStep(a, done') && done <= done' <= |a.queue|
    ensures !ok ==> done' == done && entries' == entries && buf.written == old(buf.written) && completed == None
    ensures !ok <==> old(buf.PrepareFails(4 + 12 * NextCount(stat.procActiveCount), oom))
    ensures !ok ==> oom && buf.PrepareFails(4 + 12 * NextCount(stat.procActiveCount), true)
    ensures ok ==> done' - done == NextCount(old(stat.procActiveCount))
                   && entries' != [] && entries'[|entries'| - 1].StatTraf?
                   && |entries'[|entries'| - 1].procs| == done' - done
    ensures stat.procActiveCount == old(stat.procActiveCount) - (done' - done)
    ensures ok ==> done' > done
                   && buf.written == old(buf.written) + [rec]
                   && |entries'| == |entries| + 1 && entries'[..|entries|] == entries
                   && Encodes(rec, entries'[|entries|]) && entries'[|entries|].StatTraf?
    ensures Logged(entries', Reports(a, done'))
    ensures completed == None ==> buf.outLen == old(buf.outLen)
    ensures buf.outLen == 0 || ReportsFit(buf.outLen - buf.outTop, stat.procActiveCount)
    ensures Handover(buf, completed, old(buf.irp), old(buf.delivered))
    ensures old(buf.outLen) == 0 ==> completed == None && buf.outLen == 0 && buf.out[..] == old(buf.out[..])
  {
    hide Good, Queued, Logged, FlushStep, Reports, Lines, InRange, Encodes, ST.WF, ST.View, L.Holds, L.NoneEmpty,
      L.Concat, L.Flatten, L.Top, L.Placed, AllLines, S.OptionsOk;
    done', entries', completed, rec := done, entries, None, [];
    var procCount := if stat.procActiveCount < PROC_COUNT then stat.procActiveCount else PROC_COUNT;
    ok := buf.CanPrepare(4 + 12 * procCount, oom);
    if !ok {
      return;
    }
    ghost var b := stat.View();
    S.QueueLength(stat.T(), stat.logStat);
    FlushMore(a, b, done, procCount);
    ReportsInRange(b, procCount);
    var reports := stat.TrafFlush(procCount);
    rec := EncodeReports(reports);
    var status;
    status, completed := buf.Write(rec, oom);
    LoggedMore(entries, Reports(a, done), reports);
    entries' := entries + [StatTraf(Lines(reports))];
    done' := done + procCount;
  }

  /** The time record, if there is room for it. */
  method TimeRecord(buf: L.LogBuffer, unixTime: Int64, oom: bool)
    returns (ok: bool, completed: Option<L.Completion>, ghost recs: seq<L.Record>)
    requires buf.Valid()
    modifies buf, buf.out
    ensures buf.Valid() && buf.out == old(buf.out) && buf.written == old(buf.written) + recs
    ensures ok ==> |recs| == 1 && EncodesAll(recs, [Time(unixTime)])
    ensures !ok ==> oom && recs == []
    ensures ok <==> !old(buf.PrepareFails(12, oom))
    ensures completed == None ==> buf.outLen == old(buf.outLen)
    ensures old(buf.outLen) != 0 ==> ok && (completed.Some? <==> old(buf.outLen - buf.outTop) - 12 < L.SIZE_MAX)
    ensures old(buf.outLen) != 0 && completed == None ==> buf.outTop == old(buf.outTop) + 12
    ensures Handover(buf, completed, old(buf.irp), old(buf.delivered))
  {
    hide Encodes, L.Holds, L.NoneEmpty, L.Concat, L.Flatten, L.Top;
    completed, recs := None, [];
    ok := buf.CanPrepare(12, oom);
    if ok {
      var rec := EncodeTime(unixTime);
      var status;
      status, completed := buf.Write(rec, oom);
      recs := [rec];
    }
  }

  /** The records of a flush: reports in their order. */
  ghost predicate Flushed(recs: seq<L.Record>, entries: seq<Entry>, reports: seq<Report>) {
    EncodesAll(recs, entries) && Logged(entries, reports) && forall i | 0 <= i < |entries| :: entries[i].StatTraf?
  }

  /** With n processes left the flush has met the one thing that stops it: no room and no memory for a chunk. */
  ghost predicate Stopped(buf: L.LogBuffer, n: nat, oom: bool)
    requires buf.Valid()
    reads buf, buf.out
  {
    oom && buf.PrepareFails(4 + 12 * NextCount(n), oom)
  }

  /** Reports every active process; each record takes processes from the active chain, so this ends. */
  method FlushRecords(stat: S.Stat, buf: L.LogBuffer, ooms: nat -> bool, ghost a: Accounts)
    returns (completed: Option<L.Completion>, ghost recs: seq<L.Record>, ghost entries: seq<Entry>, ghost done: nat)
    requires stat.Valid() && buf.Valid() && Good(a) && Queued(a) && a == stat.View()
    requires buf.outLen == 0 || ReportsFit(buf.outLen - buf.outTop, stat.procActiveCount)
    modifies stat, buf, buf.out
    ensures stat.Valid() && Good(stat.View()) && buf.Valid() && buf.out == old(buf.out)
    ensures done <= |a.queue| && stat.View() == FlushStep(a, done)
    ensures buf.written == old(buf.written) + recs && Flushed(recs, entries, Reports(a, done))
    ensures Filled(entries, |a.queue|, done)
    ensures done < |a.queue| ==> Stopped(buf, |a.queue| - done, ooms(|recs|))
    ensures done == |a.queue| ==> |recs| == (|a.queue| + PROC_COUNT - 1) / PROC_COUNT
    ensures stat.procActiveCount == |a.queue| - done
    ensures Handover(buf, completed, old(buf.irp), old(buf.delivered))
    ensures old(buf.outLen) == 0 ==> completed == None && buf.outLen == 0 && buf.out[..] == old(buf.out[..])
  {
    hide Good, Queued, Logged, FlushStep, Reports, Encodes, EncodesAll, Filled, ST.WF, ST.View, L.Holds, L.NoneEmpty,
      L.Concat, L.Flatten, L.Top, S.OptionsOk;
    completed, recs, entries, done := None, [], [], 0;
    S.QueueLength(stat.T(), stat.logStat);
    NothingLogged(a);
    var n := 0;
    while stat.procActiveCount != 0
      invariant stat.Valid() && Good(stat.View()) && buf.Valid() && buf.out == old(buf.out)
      invariant buf.outLen == 0 || ReportsFit(buf.outLen - buf.outTop, stat.procActiveCount)
      invariant done <= |a.queue| && stat.View() == FlushStep(a, done) && stat.procActiveCount == |a.queue| - done
      invariant buf.written == old(buf.written) + recs && |entries| == |recs|
      invariant Flushed(recs, entries, Reports(a, done)) && n == |recs| && Filled(entries, |a.queue|, done)
      invariant Handover(buf, completed, old(buf.irp), old(buf.delivered))
      invariant old(buf.outLen) == 0 ==> completed == None && buf.outLen == 0 && buf.out[..] == old(buf.out[..])
      decreases stat.procActiveCount
    {
      var ok, irp, rec;
      ghost var was, before := entries, done;
      ok, irp, done, entries, rec := FlushRecord(stat, buf, ooms(n), a, done, entries);
      if !ok {
        break;
      }
      FilledMore(was, entries, |a.queue|, before);
      EncodesOneMore(recs, entries, rec);
      recs := recs + [rec];
      completed := if irp.Some? then irp else completed;
      n := n + 1;
    }
    if done == |a.queue| { RecordCount(entries, done); }
  }

  /** The records of a tick: the time, if it has changed, and then the reports. */
  method FlushLog(stat: S.Stat, buf: L.LogBuffer, unixTime: Int64, timeChanged: bool, oom: bool, ooms: nat -> bool,
                  ghost a: Accounts)
    returns (completed: Option<L.Completion>,
             ghost timeRecs: seq<L.Record>, ghost recs: seq<L.Record>, ghost entries: seq<Entry>, ghost done: nat)
    requires stat.Valid() && buf.Valid() && Good(a) && Queued(a) && a == stat.View()
    requires TickFits(buf.outLen, buf.outTop, timeChanged, stat.procActiveCount)
    modifies stat, buf, buf.out
    ensures stat.Valid() && Good(stat.View()) && buf.Valid() && buf.out == old(buf.out)
    ensures done <= |a.queue| && stat.View() == FlushStep(a, done)
    ensures buf.written == old(buf.written) + timeRecs + recs && Flushed(recs, entries, Reports(a, done))
    ensures timeRecs == [] || EncodesAll(timeRecs, [Time(unixTime)])
    ensures timeRecs != [] <==> timeChanged && !old(buf.PrepareFails(12, oom))
    ensures Filled(entries, |a.queue|, done)
    ensures done < |a.queue| ==> Stopped(buf, |a.queue| - done, ooms(|recs|))
    ensures done == |a.queue| ==> |recs| == (|a.queue| + PROC_COUNT - 1) / PROC_COUNT
    ensures stat.procActiveCount == |a.queue| - done
    ensures Handover(buf, completed, old(buf.irp), old(buf.delivered))
  {
    hide Good, Queued, Flushed, FlushStep, Reports, EncodesAll, ST.WF, ST.View, L.Holds, L.NoneEmpty, L.Concat,
      L.Flatten, L.Top, S.OptionsOk;
    completed, timeRecs := None, [];
    if timeChanged {
      var ok;
      ok, completed, timeRecs := TimeRecord(buf, unixTime, oom);
    }
    var irp;
    irp, recs, entries, done := FlushRecords(stat, buf, ooms, a);
    completed := if irp.Some? then irp else completed;
  }

  /**
    * fort_callout_timer. Every active process is reported exactly once, with the bytes it holds, unless memory
    * runs out; a pending read that has got any bytes is completed; held back packets are released. The records
    * must stay inside the pending read, which is so whenever at most 43 processes are active (TickFitsShort).
    */
  method Timer(stat: S.Stat, buf: L.LogBuffer, unixTime: Int64, timeChanged: bool, oom: bool, ooms: nat -> bool)
    returns (completed: Option<L.Completion>, releaseBits: Bits.Word,
             ghost timeRecs: seq<L.Record>, ghost recs: seq<L.Record>, ghost entries: seq<Entry>, ghost done: nat)
    requires stat.Valid() && Good(stat.View()) && stat.groups.Valid() && buf.Valid()
    requires TickFits(buf.outLen, buf.outTop, timeChanged, stat.procActiveCount)
    modifies stat, stat.groups, stat.groups.traf, buf, buf.out
    ensures stat.Valid() && Good(stat.View()) && stat.groups.Valid() && buf.Valid()
    ensures done <= |old(stat.View()).queue| && Queued(old(stat.View()))
            && stat.View() == FlushStep(old(stat.View()), done)
    ensures buf.written == old(buf.written) + timeRecs + recs
    ensures timeRecs == [] || EncodesAll(timeRecs, [Time(unixTime)])
    ensures timeRecs != [] <==> timeChanged && !old(buf.PrepareFails(12, oom))
    ensures Flushed(recs, entries, Reports(old(stat.View()), done))
    ensures Filled(entries, |old(stat.View()).queue|, done)
    ensures done < |old(stat.View()).queue| ==> Stopped(buf, |old(stat.View()).queue| - done, ooms(|recs|))
    ensures done == |old(stat.View()).queue| ==> |recs| == (|old(stat.View()).queue| + PROC_COUNT - 1) / PROC_COUNT
    ensures stat.procActiveCount == |old(stat.View()).queue| - done
    ensures Handover(buf, completed, old(buf.irp), old(buf.delivered))
    ensures completed == None ==> buf.outTop == 0
    ensures forall i, d | 0 <= i < SpeedLimit.GROUPS ::
              stat.groups.Dir(i, d) ==
                if old(stat.groups.Dir(i, true).pending || stat.groups.Dir(i, false).pending)
                then SpeedLimit.Tick(old(stat.groups.Dir(i, d)), old(stat.groups.Limit(i, d)))
                else old(stat.groups.Dir(i, d))
    ensures forall i, d | 0 <= i < SpeedLimit.GROUPS ::
              releaseBits[SpeedLimit.FlushBit(i, !d)] <==>
                SpeedLimit.Releases(old(stat.groups.Dir(i, d)), old(stat.groups.Limit(i, d)))
  {
    hide Good, Queued, Flushed, FlushStep, Reports, EncodesAll, ST.WF, ST.View, L.Holds, L.NoneEmpty, L.Concat,
      L.Flatten, L.Top, L.Placed, S.OptionsOk, Filled, TickFits, NextCount, AllLines,
      SpeedLimit.Releases, SpeedLimit.Tick;
    GoodIsQueued(stat.View());
    completed, timeRecs, recs, entries, done := FlushLog(stat, buf, unixTime, timeChanged, oom, ooms, stat.View());
    assert forall i, d | 0 <= i < SpeedLimit.GROUPS ::
        stat.groups.Dir(i, d) == old(stat.groups.Dir(i, d)) && stat.groups.Limit(i, d) == old(stat.groups.Limit(i, d));
    releaseBits := stat.groups.Flush();
    if completed == None {
      completed := buf.FlushPending();
    }
  }

  /** A tick with at most 43 active processes stays inside any pending read, and so does one without a read. */
  lemma TickFitsShort(buf: L.LogBuffer, timeChanged: bool, n: nat)
    requires buf.Valid() && (buf.outLen == 0 || n <= SHORT_PROCS)
    ensures TickFits(buf.outLen, buf.outTop, timeChanged, n)
  {
    hide L.Holds, L.NoneEmpty, L.Concat, L.Flatten, ReportsFit;
    if buf.outLen != 0 {
      var room := buf.outLen - buf.outTop - (if timeChanged then 12 else 0);
      if room >= L.SIZE_MAX { FewReports(room, n); }
    }
  }

  lemma EncodesOneMore(recs: seq<L.Record>, entries: seq<Entry>, rec: L.Record)
    requires |entries| == |recs| + 1 && EncodesAll(recs, entries[..|recs|]) && Encodes(rec, entries[|recs|])
    ensures EncodesAll(recs + [rec], entries)
  {
    hide Encodes;
  }

  lemma NothingLogged(a: Accounts)
    requires Good(a)
    ensures FlushStep(a, 0) == a && Reports(a, 0) == [] && Logged([], []) && EncodesAll([], [])
    ensures Filled([], |a.queue|, 0)
  {
  }
}

/** The driver's traffic statistics: flows counted to processes, and processes reported and reclaimed. */
module Stat {
  import opened Accounting
  import opened Widths
  import opened Wrappers
  import opened SlotIndex
  import opened SpeedLimit
  import opened StatTables

  const NO_FLAGS := Flags(false, false, false, false, false, false, false)

  const BLANK_FLOW := Flow(NO_FLAGS, 0, BAD_INDEX)

  /** The flow, if it is open. */
  function OpenFlowOf(fids: Index, flows: seq<Flow>, f: nat): Option<Flow> {
    if f in fids.slots && fids.slots[f] < |flows| && flows[fids.slots[f]].proc != BAD_INDEX then
      Some(flows[fids.slots[f]])
    else None
  }

  class Stat {
    var logStat: bool
    var procActiveCount: nat
    var procActive: seq<nat>
    var pids: Index
    var procs: seq<Proc>
    var fids: Index
    var flows: seq<Flow>
    var fragmentBits: GroupBits
    var limitBits: GroupBits
    const groups: Groups

    constructor ()
      ensures Valid() && groups.Valid() && View() == START && fresh(groups) && fresh(groups.traf)
    {
      logStat, procActiveCount, procActive := false, 0, [];
      pids, procs, fids, flows := EMPTY, [], EMPTY, [];
      fragmentBits, limitBits := seq(GROUPS, _ => false), seq(GROUPS, _ => false);
      groups := new Groups();
      new;
      EmptyWF(T());
    }

    ghost function T(): Tables
      reads this
    {
      Tables(pids, procs, procActive, fids, flows)
    }

    ghost predicate Valid()
      reads this
    {
      && WF(T()) && procActiveCount == |procActive|
      && OptionsOk(fids, flows)
    }

    ghost function View(): Accounts
      reads this
    {
      StatTables.View(T(), logStat)
    }

    /** What only a new configuration, or switching the statistics on or off, changes. */
    ghost function Conf(): (bool, GroupBits, GroupBits)
      reads this
    {
      (logStat, fragmentBits, limitBits)
    }

    /** What associating a flow does not touch. */
    ghost function Rest(): (bool, nat, seq<nat>, GroupBits, GroupBits)
      reads this
    {
      (logStat, procActiveCount, procActive, fragmentBits, limitBits)
    }

    /** fort_stat_proc_active_add */
    method ProcActiveAdd(slot: nat)
      requires slot < |procs| && |procActive| == procActiveCount < U16 - 1
      modifies this
      ensures T() == ActivateProc(old(T()), slot) && procActiveCount == |procActive|
      ensures logStat == old(logStat) && pids == old(pids) && fids == old(fids) && flows == old(flows)
      ensures fragmentBits == old(fragmentBits) && limitBits == old(limitBits)
    {
      if procs[slot].active {
        return;
      }
      procs := procs[slot := procs[slot].(active := true)];
      procActive := [slot] + procActive;
      procActiveCount := (procActiveCount + 1) % U16;
    }

    /** fort_stat_proc_add: fails when the table is full. */
    method ProcAdd(pid: nat) returns (ok: bool, slot: nat)
      requires Sized(T()) && (pids.free != [] ==> pids.free[0] < |procs|)
      modifies this
      ensures Rest() == old(Rest()) && fids == old(fids) && flows == old(flows)
      ensures ok <==> old(pids.free == [] ==> |procs| + 1 < PROC_COUNT_MAX)
      ensures !ok ==> T() == old(T())
      ensures ok ==> slot == NextSlot(old(pids)) && T() == AddProc(old(T()), pid)
    {
      slot := NextSlot(pids);
      if pids.free == [] && |procs| + 1 >= PROC_COUNT_MAX {
        return false, slot;
      }
      pids := Insert(pids, pid);
      procs := SetProc(procs, slot, IDLE);
      ok := true;
    }

    /** fort_stat_proc_dec */
    method ProcDec(slot: nat)
      requires slot < |procs| && |procActive| == procActiveCount < U16 - 1
      modifies this
      ensures T() == (var t1 := old(T()).(procs := old(procs[slot := CountProc(procs[slot], -1)]));
                      if t1.procs[slot].refcount == 0 then ActivateProc(t1, slot) else t1)
      ensures procActiveCount == |procActive|
      ensures logStat == old(logStat) && pids == old(pids) && fids == old(fids) && flows == old(flows)
      ensures fragmentBits == old(fragmentBits) && limitBits == old(limitBits)
    {
      procs := procs[slot := CountProc(procs[slot], -1)];
      if procs[slot].refcount == 0 {
        ProcActiveAdd(slot);
      }
    }

    /** Bytes for a process, which becomes active. */
    method ProcCharge(slot: nat, len: nat, inbound: bool)
      requires WF(T()) && Known(T(), slot) && procActiveCount == |procActive|
      modifies this
      ensures Conf() == old(Conf())
      ensures logStat == old(logStat) && fids == old(fids) && flows == old(flows)
      ensures WF(T()) && procActiveCount == |procActive| && old(slot < |pids.ids| && pids.ids[slot] in View().held)
      ensures View() == (var a, pid := old(View()), old(pids.ids[slot]);
                         a.(held := a.held[pid := Accounting.Charge(a.held[pid], len, inbound)],
                           queue := Activate(a.queue, pid)))
    {
      hide WF, StatTables.View, InUse, ActivateProc;
      ghost var t := T();
      KnownHeld(t, logStat, slot);
      ghost var traf := Accounting.Charge(procs[slot].traf, len, inbound);
      SetTrafWF(t, slot, traf, logStat);
      ghost var t1 := SetTraf(t, slot, traf);
      ActivateProcWF(t1, slot, logStat);
      procs := procs[slot := procs[slot].(traf := Accounting.Charge(procs[slot].traf, len, inbound))];
      assert T() == t1;
      ProcActiveAdd(slot);
    }

    /** A known or a new process, without flows yet. */
    method AssociateProc(pid: nat, isReauth: bool) returns (status: Status, slot: nat, isNewProc: bool)
      requires WF(T())
      modifies this
      ensures Rest() == old(Rest()) && fids == old(fids) && flows == old(flows)
      ensures status == if !old(logStat) then DataError
                        else if pid in old(View()).held then Success
                        else if isReauth then FlowBlock
                        else if |old(View()).held| + 1 >= PROC_COUNT_MAX then NoResources
                        else Success
      ensures status != Success ==> T() == old(T()) && !isNewProc
      ensures status == Success ==>
                && WF(T()) && Known(T(), slot) && slot < |procs| && slot < |pids.ids| && pids.ids[slot] == pid
                && isNewProc == (pid !in old(View()).held) && pid in pids.slots && pids.slots[pid] == slot
                && View() == (if isNewProc then old(View()).(held := old(View()).held[pid := ZERO]) else old(View()))
    {
      hide WF, StatTables.View, AddProc, InUse;
      status, slot, isNewProc := Success, 0, false;
      if !logStat {
        return DataError, 0, false;
      }
      ghost var t := T();
      FullTable(t, logStat, pid);
      if pid in pids.slots {
        slot := pids.slots[pid];
        return;
      }
      if isReauth {
        return FlowBlock, 0, false;
      }
      if pids.free == [] ==> |procs| + 1 < PROC_COUNT_MAX {
        AddedProc(t, pid, logStat);
      }
      isNewProc, slot := ProcAdd(pid);
      if !isNewProc {
        status := NoResources;
      } else {
        UseFacts(pids, slot);
      }
    }

    /** fort_flow_new: a slot for a flow, whose options are set by the caller. */
    method FlowNew(f: nat) returns (slot: nat)
      requires Sized(T()) && (fids.free != [] ==> fids.free[0] < |flows|)
      modifies this
      ensures Rest() == old(Rest()) && pids == old(pids) && procs == old(procs)
      ensures slot == NextSlot(old(fids)) && fids == Insert(old(fids), f)
      ensures flows == if slot < |old(flows)| then old(flows) else old(flows) + [BLANK_FLOW]
    {
      slot := NextSlot(fids);
      fids := Insert(fids, f);
      if slot == |flows| {
        flows := flows + [BLANK_FLOW];
      }
    }

    /**
      * fort_flow_add: a new or closed flow is opened to the process and counted; an open one gets its options
      * set again, and is not counted.
      */
    method FlowAdd(f: nat, group: nat, procSlot: nat, fragment: bool, speedLimit: bool, isReauth: bool,
                   ghost a: Accounts, ghost pid: nat)
      returns (status: Status)
      requires WF(T()) && Known(T(), procSlot) && procSlot < |procs| && procSlot < |pids.ids|
      requires OptionsOk(fids, flows) && group < GROUPS
      requires a == View() && pid == pids.ids[procSlot]
      modifies this
      ensures Rest() == old(Rest())
      ensures status == if isReauth && f !in a.flows then FlowBlock else Success
      ensures status != Success ==> WF(T()) && View() == a
      ensures status == Success ==> View() == a.(flows := a.flows[f := Some(pid)])
      ensures status == Success ==> (WF(T()) <==> KeepsCounts(a, f, pid))
      ensures OptionsOk(fids, flows)
      ensures pids == old(pids) && (status != Success ==> fids == old(fids) && flows == old(flows))
      ensures status == Success ==>
                && f in fids.slots
                && OptionsSet(old(fids), old(flows), fids, flows, fids.slots[f])
                && var fl, prior := flows[fids.slots[f]], OpenFlowOf(old(fids), old(flows), f);
                   && fl.group == group && fl.proc == procSlot
                   && fl.flags.limitIn == speedLimit && !fl.flags.limitOut && fl.flags.fragment == fragment
                   && !fl.flags.deferIn && !fl.flags.deferOut
                   && fl.flags.fragmentDefer == (prior.Some? && prior.value.flags.fragmentDefer)
                   && fl.flags.fragmented == (prior.Some? && prior.value.flags.fragmented)
    {
      hide WF, StatTables.View, Known, InUse, Insert, OptionsOk, OptionsSet, KeepsCounts;
      ghost var t := T();
      var isNewFlow := false;
      FlowIsOpen(t, logStat, f);
      RefcountIsRefs(t, logStat, procSlot);
      var slot;
      if f !in fids.slots {
        if isReauth {
          return FlowBlock;
        }
        slot := FlowNew(f);
        isNewFlow := true;
      } else {
        slot := fids.slots[f];
        isNewFlow := flows[slot].proc == BAD_INDEX;
      }
      if isNewFlow {
        procs := procs[procSlot := CountProc(procs[procSlot], 1)];
      }
      var prior := flows[slot].flags;
      var flags := Flags(speedLimit, false, false, false, fragment, !isNewFlow && prior.fragmentDefer,
                         !isNewFlow && prior.fragmented);
      ghost var fl := Flow(flags, group, procSlot);
      flows := flows[slot := Flow(flags, group, procSlot)];
      if f !in t.fids.slots {
        NewFlowAdded(t, T(), logStat, f, slot, fl);
      } else if isNewFlow {
        ClosedFlowAdded(t, logStat, f, slot, fl);
      } else {
        OpenFlowAdded(t, logStat, f, slot, fl);
      }
      OptionsKept(t.fids, t.flows, fids, flows, slot, fl);
      status := Success;
    }

    /**
      * fort_flow_associate. A flow that moves to another process while open, or a count of 2^16 - 1, is the
      * only way for the tables to lose their consistency.
      */
    method Associate(f: nat, pid: nat, group: nat, isReauth: bool) returns (status: Status, isNewProc: bool)
      requires Valid() && group < GROUPS
      modifies this
      ensures Rest() == old(Rest())
      ensures status == AssociateStatus(old(View()), f, pid, isReauth)
      ensures status == if !old(logStat) then DataError
                        else if isReauth && !old(pid in View().held && f in View().flows) then FlowBlock
                        else if pid !in old(View()).held && |old(View()).held| >= 32766 then NoResources
                        else Success
      ensures View() == AssociateStep(old(View()), f, pid, isReauth)
      ensures View() ==
                (var a := old(View());
                 if status != Success then a
                 else if isNewProc then a.(held := a.held[pid := Traf(0, 0)], flows := a.flows[f := Some(pid)])
                 else a.(flows := a.flows[f := Some(pid)]))
      ensures Valid() <==> (status == Success ==> KeepsCounts(old(View()), f, pid))
      ensures isNewProc == (status == Success && pid !in old(View()).held)
      ensures status != Success ==> fids == old(fids) && flows == old(flows)
      ensures status == Success ==>
                && f in fids.slots && pid in pids.slots
                && OptionsSet(old(fids), old(flows), fids, flows, fids.slots[f])
                && var fl, prior := flows[fids.slots[f]], OpenFlowOf(old(fids), old(flows), f);
                   && fl.group == group && fl.proc == pids.slots[pid]
                   && fl.flags.limitIn == limitBits[group] && !fl.flags.limitOut
                   && fl.flags.fragment == fragmentBits[group] && !fl.flags.deferIn && !fl.flags.deferOut
                   && fl.flags.fragmentDefer == (prior.Some? && prior.value.flags.fragmentDefer)
                   && fl.flags.fragmented == (prior.Some? && prior.value.flags.fragmented)
    {
      hide WF, StatTables.View, InUse, Known, OptionsOk, OptionsSet, OpenFlowOf, Refs, AssociateStep, AssociateStatus,
        KeepsCounts;
      ghost var a := View();
      var procSlot;
      FailedAssociation(a, f, pid, isReauth);
      status, procSlot, isNewProc := AssociateProc(pid, isReauth);
      if status != Success {
        return;
      }
      ghost var a1 := View();
      Associated(a, a1, f, pid, isNewProc, isReauth);
      var fragment, speedLimit := fragmentBits[group], limitBits[group];
      // Only a re-authorisation fails here, which never comes with a new process to be freed.
      status := FlowAdd(f, group, procSlot, fragment, speedLimit, isReauth, a1, pid);
    }

    /** fort_flow_delete: a process left without references is queued for its last report. */
    method Delete(slot: nat)
      requires Valid() && slot < |flows| && InUse(fids, slot)
      modifies this
      ensures Conf() == old(Conf())
      ensures Valid() && old(fids.ids[slot] in View().flows)
      ensures View() == DeleteStep(old(View()), old(fids.ids[slot]))
      ensures View() ==
                (var a, f := old(View()), old(fids.ids[slot]);
                 var unused := a.flows[f].Some? && a.flows[f].value !in a.queue
                               && forall g | g in a.flows && g != f :: a.flows[g] != a.flows[f];
                 a.(flows := a.flows - {f}, queue := if unused then [a.flows[f].value] + a.queue else a.queue))
      ensures fids == Remove(old(fids), slot) && flows == old(flows)
    {
      hide WF, StatTables.View, InUse, OptionsOk, ActivateProc, Remove, DeleteStep, CountProc;
      ghost var t := T();
      FlowInUse(t, logStat, slot);
      Deleted(t, logStat, slot);
      DeleteMeaning(View(), fids.ids[slot]);
      RemovedOptions(fids, flows, slot);
      var procSlot := flows[slot].proc;
      if procSlot != BAD_INDEX {
        ProcDec(procSlot);
      }
      fids := Remove(fids, slot);
    }

    /**
      * fort_flow_classify: the bytes are charged to the process of the flow, and to its group when the flow
      * has a speed limit for the direction; outbound flows never have one.
      */
    method Classify(slot: nat, len: nat, isTcp: bool, inbound: bool)
      requires Valid() && groups.Valid() && slot < |flows| && InUse(fids, slot)
      modifies this, groups`flushBits, groups.traf
      ensures Conf() == old(Conf())
      ensures Valid() && groups.Valid() && old(fids.ids[slot] in View().flows)
      ensures View() == ClassifyStep(old(View()), old(fids.ids[slot]), len, inbound)
      ensures View() ==
                (var a, owner := old(View()), old(View().flows[fids.ids[slot]]);
                 if !a.log || owner.None? || owner.value !in a.held then a
                 else
                   var pid, t := owner.value, a.held[owner.value];
                   a.(held := a.held[pid := if inbound then Traf((t.inBytes + len) % 0x1_0000_0000, t.outBytes)
                                            else Traf(t.inBytes, (t.outBytes + len) % 0x1_0000_0000)],
                      queue := if pid in a.queue then a.queue else [pid] + a.queue))
      ensures fids == old(fids)
      ensures var charged :=
                old(logStat && flows[slot].proc != BAD_INDEX && flows[slot].flags.limitIn) && isTcp && inbound;
              var fl := old(flows[slot]);
              if charged then
                var d := old(groups.Dir(fl.group, true));
                && groups.Dir(fl.group, true) == Direction((d.bytes + len) % U32, true)
                && (forall i, k | 0 <= i < GROUPS && (i, k) != (fl.group, true) ::
                     groups.Dir(i, k) == old(groups.Dir(i, k)))
                && flows == old(flows)[slot :=
                     fl.(flags := fl.flags.(
                       deferOut := groups.Dir(fl.group, true).bytes >= groups.Limit(fl.group, true)))]
              else
                groups.traf[..] == old(groups.traf[..]) && groups.flushBits == old(groups.flushBits)
                  && flows == old(flows)
    {
      hide WF, StatTables.View, InUse, Known, OptionsOk, ClassifyStep;
      ghost var t := T();
      FlowInUse(t, logStat, slot);
      ClassifyMeaning(View(), fids.ids[slot], len, inbound);
      if !logStat {
        return;
      }
      var opt := flows[slot];
      if opt.proc == BAD_INDEX {
        return;
      }
      OpenOptions(fids, flows, slot);
      KnownHeld(t, logStat, opt.proc);
      ProcCharge(opt.proc, len, inbound);
      if (inbound && opt.flags.limitIn) || (!inbound && opt.flags.limitOut) {
        var flags := groups.Charge(opt.flags, opt.group, len, isTcp, inbound);
        ghost var t1 := T();
        flows := flows[slot := opt.(flags := flags)];
        SetFlags(t1, T(), logStat, slot, flags);
      }
    }

    /** One step of the flush: the head of the active chain is reported, and freed when nothing refers to it. */
    method FlushHeadProc() returns (report: Report)
      requires Valid() && procActive != []
      modifies this
      ensures Conf() == old(Conf())
      ensures Valid() && logStat == old(logStat) && |procActive| == |old(procActive)| - 1
      ensures Queued(old(View())) && old(View()).queue != []
      ensures report == NextReport(old(View())) && View() == FlushOne(old(View()))
      ensures fids == old(fids) && flows == old(flows)
    {
      hide WF, StatTables.View, InUse, Known, OptionsOk, Remove, Queued, NextReport, FlushOne;
      ghost var t := T();
      FlushHeadFacts(t, logStat);
      var slot := procActive[0];
      report := Report(pids.ids[slot], procs[slot].refcount == 0, procs[slot].traf);
      if procs[slot].refcount == 0 {
        pids := Remove(pids, slot);
      } else {
        procs := procs[slot := Proc(false, procs[slot].refcount, ZERO)];
      }
      procActive := procActive[1..];
      procActiveCount := procActiveCount - 1;
    }

    /** fort_stat_dpc_traf_flush */
    method TrafFlush(procCount: nat) returns (reports: seq<Report>)
      requires Valid()
      modifies this
      ensures Conf() == old(Conf())
      ensures Valid() && Queued(old(View())) && logStat == old(logStat)
      ensures View() == FlushStep(old(View()), procCount)
      ensures reports == Reports(old(View()), procCount)
      ensures procActiveCount == old(procActiveCount) - |reports|
      ensures fids == old(fids) && flows == old(flows)
    {
      hide WF, StatTables.View, OptionsOk, FlushStep, Reports, Queued, NextReport, FlushOne;
      reports := [];
      var n := procCount;
      ghost var a := View();
      ViewQueued(T(), logStat);
      while procActive != [] && n != 0
        invariant Valid() && Queued(View()) && logStat == old(logStat)
        invariant FlushStep(View(), n) == FlushStep(a, procCount)
        invariant reports + Reports(View(), n) == Reports(a, procCount)
        invariant procActiveCount == old(procActiveCount) - |reports| && Conf() == old(Conf())
        invariant fids == old(fids) && flows == old(flows)
        decreases |procActive|
      {
        FlushUnfold(View(), n);
        var report := FlushHeadProc();
        reports := reports + [report];
        n := n - 1;
      }
      FlushUnfold(View(), n);
      QueueLength(T(), logStat);
    }

    /** Every process is freed, in any order. */
    method FreeProcs()
      requires Ok(pids)
      modifies this
      ensures Ok(pids) && pids.slots == map[] && |pids.ids| == |old(pids).ids|
      ensures Rest() == old(Rest()) && procs == old(procs) && fids == old(fids) && flows == old(flows)
    {
      hide Ok;
      while pids.slots != map[]
        invariant Ok(pids) && |pids.ids| == |old(pids).ids|
        invariant Rest() == old(Rest()) && procs == old(procs) && fids == old(fids) && flows == old(flows)
        decreases |pids.slots|
      {
        var pid :| pid in pids.slots;
        UsedSlot(pids, pid);
        RemoveOk(pids, pids.slots[pid]);
        pids := Remove(pids, pids.slots[pid]);
      }
    }

    /** Every known flow is closed. */
    method CloseFlows()
      requires |flows| == |fids.ids|
      modifies this
      ensures Rest() == old(Rest()) && pids == old(pids) && procs == old(procs) && fids == old(fids)
      ensures Closed(fids, old(flows), flows)
    {
      hide InUse;
      var i := 0;
      while i < |flows|
        invariant i <= |flows| == |old(flows)|
        invariant forall k: nat {:trigger InUse(fids, k)} | k < i && InUse(fids, k) ::
                    flows[k] == old(flows)[k].(proc := BAD_INDEX)
        invariant forall k | i <= k < |flows| :: flows[k] == old(flows)[k]
        invariant Rest() == old(Rest()) && pids == old(pids) && procs == old(procs) && fids == old(fids)
      {
        if InUse(fids, i) {
          flows := flows[i := flows[i].(proc := BAD_INDEX)];
        }
        i := i + 1;
      }
    }

    /** fort_stat_clear */
    method Clear()
      requires Valid() && groups.Valid()
      modifies this, groups.traf
      ensures Conf() == old(Conf())
      ensures Valid() && groups.Valid() && logStat == old(logStat)
      ensures View() == Cleared(old(View()))
      ensures View().held == map[] && View().queue == [] && View().flows.Keys == old(View()).flows.Keys
      ensures forall f | f in View().flows :: View().flows[f] == None
      ensures fids == old(fids) && Closed(fids, old(flows), flows)
      ensures forall i | 0 <= i < GROUPS :: groups.traf[i] == ZERO
    {
      hide StatTables.View, InUse, Closed, OptionsOk, FlowProcs, Counts, ActiveChain;
      ghost var t := T();
      procActive := [];
      procActiveCount := 0;
      FreeProcs();
      CloseFlows();
      ClearedWF(t, T(), logStat);
      groups.Zero();
    }

    /** fort_stat_update: switching the statistics off clears them. */
    method Update(log: bool)
      requires Valid() && groups.Valid()
      modifies this, groups.traf
      ensures fragmentBits == old(fragmentBits) && limitBits == old(limitBits)
      ensures Valid() && groups.Valid() && View() == UpdateStep(old(View()), log)
      ensures logStat == log && fids == old(fids)
      ensures if old(logStat) && !log then
                && View().held == map[] && View().queue == [] && View().flows.Keys == old(View()).flows.Keys
                && forall f | f in View().flows :: View().flows[f] == None
              else View() == old(View()).(log := log)
      ensures if old(logStat) && !log
              then Closed(fids, old(flows), flows) && forall i | 0 <= i < GROUPS :: groups.traf[i] == ZERO
              else flows == old(flows) && groups.traf[..] == old(groups.traf[..])
    {
      hide WF;
      if logStat && !log {
        Clear();
      }
      logStat := log;
    }
  }

  // ---------------------------------------------------------------------------------------------
  // Runs that break the counts
  // ---------------------------------------------------------------------------------------------

  /** The first inbound TCP segment of a flow is charged to its group exactly when that has a speed limit. */
  method FirstSegment(s: Stat, f: nat, pid: nat, group: nat, len: nat) returns (status: Status)
    requires s.Valid() && s.groups.Valid() && group < GROUPS && KeepsCounts(s.View(), f, pid)
    modifies s, s.groups`flushBits, s.groups.traf
    ensures status == Success ==>
              forall i, d | 0 <= i < GROUPS ::
                s.groups.Dir(i, d) ==
                  if s.limitBits[group] && (i, d) == (group, true)
                  then Direction((old(s.groups.traf[group].inBytes) + len) % 0x1_0000_0000, true)
                  else old(s.groups.Dir(i, d))
    ensures status == Success ==>
              f in s.fids.slots && s.fids.slots[f] < |s.flows|
              && s.flows[s.fids.slots[f]].flags.deferOut ==
                   (s.limitBits[group] && s.groups.traf[group].inBytes >= s.groups.limits[group].inBytes)
  {
    hide WF, StatTables.View, OptionsSet, OptionsOk, InUse, KeepsCounts;
    var isNew;
    status, isNew := s.Associate(f, pid, group, false);
    if status == Success {
      var slot := s.fids.slots[f];
      FlowIsOpen(s.T(), s.logStat, f);
      var fl := s.flows[slot];
      assert s.logStat && fl.proc != BAD_INDEX && fl.group == group && fl.flags.limitIn == s.limitBits[group];
      label L:
      s.Classify(slot, len, true, true);
      assert !fl.flags.limitIn ==> forall i | 0 <= i < GROUPS :: s.groups.traf[..][i] == old@L(s.groups.traf[..])[i];
    }
  }

  /** An open flow is moved from process 4 to process 8: no flow is open to 4 any more, and its count is 1. */
  method MovedFlow() returns (s: Stat)
    ensures fresh(s) && s.View().flows == map[1 := Some(8)] && Refs(s.View(), 4) == 0
    ensures !s.Valid()
  {
    hide WF, StatTables.View, OptionsSet, OptionsOk;
    s := new Stat();
    s.Update(true);
    var status, isNew := s.Associate(1, 4, 0, false);
    status, isNew := s.Associate(1, 8, 0, false);
    assert OpenFlows(s.View(), 4) == {};
  }

  /** A process has 65535 flows, and gets one more: the 16-bit count is 0. */
  method ManyFlows() returns (s: Stat)
    ensures fresh(s) && Refs(s.View(), 4) == U16
    ensures !s.Valid()
  {
    hide WF, StatTables.View, OptionsSet, OptionsOk, FlowsBelow, AssociateStep, AssociateStatus, KeepsCounts, Refs;
    s := new Stat();
    s.Update(true);
    NoFlows(s.View());
    var i := 0;
    while i < REFCOUNT_MAX
      invariant i <= REFCOUNT_MAX && fresh(s) && s.Valid() && s.View().log && FlowsBelow(s.View(), i)
    {
      NextFlow(s.View(), i);
      var status, isNew := s.Associate(i, 4, 0, false);
      i := i + 1;
    }
    NextFlow(s.View(), i);
    var status, isNew := s.Associate(i, 4, 0, false);
    BelowRefs(s.View(), i + 1);
  }

  /** The flows below n are known, and open to process 4, the only one. */
  ghost predicate FlowsBelow(a: Accounts, n: nat) {
    a.held.Keys <= {4} && (forall f: nat :: f in a.flows <==> f < n) && forall f: nat | f < n :: a.flows[f] == Some(4)
  }

  lemma NoFlows(a: Accounts)
    requires a.flows == map[] && a.held == map[]
    ensures FlowsBelow(a, 0)
  {
  }

  lemma NextFlow(a: Accounts, n: nat)
    requires a.log && FlowsBelow(a, n)
    ensures AssociateStatus(a, n, 4, false) == Success && AssociateStep(a, n, 4, false).log
    ensures FlowsBelow(AssociateStep(a, n, 4, false), n + 1)
    ensures KeepsCounts(a, n, 4) <==> n < REFCOUNT_MAX
  {
    BelowRefs(a, n);
  }

  lemma BelowRefs(a: Accounts, n: nat)
    requires FlowsBelow(a, n)
    ensures Refs(a, 4) == n && |a.held| <= 1
  {
    assert OpenFlows(a, 4) == Range(n);
    assert a.held.Keys == {4} || a.held.Keys == {};
    assert |a.held| == |a.held.Keys|;
  }

  ghost function Range(n: nat): (r: set<nat>)
    ensures |r| == n && forall x: nat :: x in r <==> x < n
  {
    if n == 0 then {} else Range(n - 1) + {n - 1}
  }

  ghost predicate Closed(fids: Index, flows: seq<Flow>, flows': seq<Flow>) {
    && |flows'| == |flows|
    && forall k: nat {:trigger InUse(fids, k)} | k < |flows| && InUse(fids, k) ::
         flows'[k] == flows[k].(proc := BAD_INDEX)
  }

  lemma ClearedWF(t: Tables, t': Tables, log: bool)
    requires WF(t) && OptionsOk(t.fids, t.flows)
    requires Ok(t'.pids) && t'.pids.slots == map[] && |t'.pids.ids| == |t.pids.ids|
    requires t'.procs == t.procs && t'.active == [] && t'.fids == t.fids && Closed(t.fids, t.flows, t'.flows)
    ensures WF(t') && OptionsOk(t'.fids, t'.flows)
    ensures StatTables.View(t', log) == Cleared(StatTables.View(t, log))
  {
    hide InUse, Ok, HeldOf, QueueOf, FlowsOf, FlowProcs, Counts, ActiveChain;
    NothingKnown(t');
    ClearedFlows(t, t');
    EmptyChain(t');
    ClearedOptions(t, t');
    assert |t'.flows| == |t.flows|;
  }

  lemma NothingKnown(t: Tables)
    requires t.pids.slots == map[]
    ensures forall k: nat {:trigger Known(t, k)} :: !Known(t, k)
    ensures HeldOf(t) == map[]
    ensures Counts(t)
  {
    assert forall k: nat {:trigger Known(t, k)} :: !Known(t, k);
    assert forall k: nat {:trigger Counted(t, k)} :: Counted(t, k);
  }

  lemma EmptyChain(t: Tables)
    requires t.active == [] && forall k: nat {:trigger Known(t, k)} :: !Known(t, k)
    ensures ActiveChain(t) && QueueOf(t) == []
  {
  }

  lemma ClearedFlows(t: Tables, t': Tables)
    requires Sized(t) && Ok(t.fids) && t'.fids == t.fids && Closed(t.fids, t.flows, t'.flows)
    ensures FlowProcs(t') && FlowsOf(t') == map f | f in FlowsOf(t) :: None
  {
    hide Ok;
    forall f {:trigger ProcOf(t', f)} | f in t.fids.slots
      ensures ProcOf(t', f) == BAD_INDEX
    {
      UsedSlot(t.fids, f);
    }
  }

  lemma ClearedOptions(t: Tables, t': Tables)
    requires OptionsOk(t.fids, t.flows) && t'.fids == t.fids && Closed(t.fids, t.flows, t'.flows)
    ensures OptionsOk(t'.fids, t'.flows)
  {
    hide InUse;
  }

  lemma FlushHeadFacts(t: Tables, log: bool)
    requires WF(t) && t.active != []
    ensures Sized(t) && t.active[0] < |t.procs| && WF(FlushHead(t))
    ensures var a := StatTables.View(t, log);
            && Queued(a) && a.queue != []
            && NextReport(a) ==
                 Report(t.pids.ids[t.active[0]], t.procs[t.active[0]].refcount == 0, t.procs[t.active[0]].traf)
            && StatTables.View(FlushHead(t), log) == FlushOne(a)
  {
    ViewQueued(t, log);
    FlushHeadWF(t, log);
  }

  lemma QueueLength(t: Tables, log: bool)
    ensures |StatTables.View(t, log).queue| == |t.active|
  {
  }

  lemma OpenOptions(fids: Index, flows: seq<Flow>, slot: nat)
    requires OptionsOk(fids, flows) && slot < |flows| && InUse(fids, slot)
    ensures flows[slot].group < GROUPS && !flows[slot].flags.limitOut
  {
  }

  /** What a flow in use says. */
  lemma FlowInUse(t: Tables, log: bool, slot: nat)
    requires WF(t) && InUse(t.fids, slot)
    ensures Sized(t) && slot < |t.flows| && t.fids.ids[slot] in t.fids.slots && t.fids.slots[t.fids.ids[slot]] == slot
    ensures ProcOf(t, t.fids.ids[slot]) == t.flows[slot].proc
    ensures var f, p, a := t.fids.ids[slot], t.flows[slot].proc, StatTables.View(t, log);
            && f in a.flows
            && (p == BAD_INDEX ==> a.flows[f] == None)
            && (p != BAD_INDEX ==> Known(t, p) && p < |t.procs| && a.flows[f] == Some(t.pids.ids[p]))
  {
    FlowIsOpen(t, log, t.fids.ids[slot]);
  }

  /** Setting the flags of a flow changes nothing in the accounts. */
  lemma SetFlags(t: Tables, t': Tables, log: bool, slot: nat, flags: Flags)
    requires WF(t) && OptionsOk(t.fids, t.flows) && InUse(t.fids, slot) && slot < |t.flows|
             && t.flows[slot].proc != BAD_INDEX
    requires t' == t.(flows := t.flows[slot := t.flows[slot].(flags := flags)]) && !flags.limitOut
    ensures WF(t') && OptionsOk(t'.fids, t'.flows) && StatTables.View(t', log) == StatTables.View(t, log)
  {
    hide WF, StatTables.View, InUse;
    var fl := t.flows[slot].(flags := flags);
    FlowInUse(t, log, slot);
    SetOptionsWF(t, slot, fl, log);
    FlowIsOpen(t, log, t.fids.ids[slot]);
    var a := StatTables.View(t, log);
    assert a.flows[t.fids.ids[slot] := Some(t.pids.ids[fl.proc])] == a.flows;
  }

  lemma RemovedOptions(fids: Index, flows: seq<Flow>, slot: nat)
    requires OptionsOk(fids, flows) && slot < |fids.ids| && InUse(fids, slot)
    ensures OptionsOk(Remove(fids, slot), flows)
  {
    forall k: nat {:trigger InUse(Remove(fids, slot), k)} | k < |flows| && InUse(Remove(fids, slot), k)
      ensures InUse(fids, k)
    {
    }
  }

  /** What a classified packet changes in the accounts. */
  lemma ClassifyMeaning(a: Accounts, f: nat, len: nat, inbound: bool)
    requires f in a.flows
    ensures ClassifyStep(a, f, len, inbound) ==
              (if !a.log || a.flows[f].None? || a.flows[f].value !in a.held then a
               else
                 var pid, t := a.flows[f].value, a.held[a.flows[f].value];
                 a.(held := a.held[pid := if inbound then Traf((t.inBytes + len) % 0x1_0000_0000, t.outBytes)
                                          else Traf(t.inBytes, (t.outBytes + len) % 0x1_0000_0000)],
                    queue := if pid in a.queue then a.queue else [pid] + a.queue))
  {
  }

  /** A process is queued when its last open flow goes, unless it is queued already. */
  lemma DeleteMeaning(a: Accounts, f: nat)
    requires f in a.flows
    ensures DeleteStep(a, f) ==
      (var unused := a.flows[f].Some? && a.flows[f].value !in a.queue
                     && forall g | g in a.flows && g != f :: a.flows[g] != a.flows[f];
       a.(flows := a.flows - {f}, queue := if unused then [a.flows[f].value] + a.queue else a.queue))
  {
    if a.flows[f].Some? {
      var pid, a' := a.flows[f].value, a.(flows := a.flows - {f});
      if g :| g in a.flows && g != f && a.flows[g] == Some(pid) {
        SomeRefs(a', g, pid);
      } else {
        assert OpenFlows(a', pid) == {};
      }
    }
  }

  lemma RemoveFlowKnows(t: Tables, slot: nat, p: nat)
    requires slot < |t.flows| == |t.fids.ids| && (t.flows[slot].proc < |t.procs| || t.flows[slot].proc == BAD_INDEX)
    ensures RemoveFlow(t, slot).pids == t.pids
    ensures Known(RemoveFlow(t, slot), p) == Known(t, p)
  {
  }

  lemma ShortQueue(t: Tables)
    requires WF(t)
    ensures |t.active| < PROC_COUNT_MAX
  {
    ShortChain(t);
  }

  /** The reference of a flow to be deleted is dropped. */
  function DropReference(t: Tables, slot: nat): Tables
    requires slot < |t.flows|
  {
    var p := t.flows[slot].proc;
    if p < |t.procs| then
      var t1 := t.(procs := t.procs[p := CountProc(t.procs[p], -1)]);
      if t1.procs[p].refcount == 0 then ActivateProc(t1, p) else t1
    else t
  }

  lemma DropAndRemove(t: Tables, slot: nat)
    requires Sized(t) && slot < |t.flows| && (t.flows[slot].proc < |t.procs| || t.flows[slot].proc == BAD_INDEX)
    ensures var t1, p := RemoveFlow(t, slot), t.flows[slot].proc;
            DropReference(t, slot).(fids := Remove(t.fids, slot)) ==
              if p != BAD_INDEX && t1.procs[p].refcount == 0 then ActivateProc(t1, p) else t1
  {
  }

  lemma Deleted(t: Tables, log: bool, slot: nat)
    requires WF(t) && slot < |t.flows| && InUse(t.fids, slot)
    ensures Sized(t) && (t.flows[slot].proc < |t.procs| || t.flows[slot].proc == BAD_INDEX)
    ensures |t.active| < PROC_COUNT_MAX && !(BAD_INDEX < |t.procs|)
    ensures var f, a, t' := t.fids.ids[slot], StatTables.View(t, log),
            DropReference(t, slot).(fids := Remove(t.fids, slot));
            f in a.flows && WF(t') && |t'.active| < PROC_COUNT_MAX && StatTables.View(t', log) == DeleteStep(a, f)
  {
    hide WF, StatTables.View, RemoveFlow, DropReference, ActivateProc;
    var f, p := t.fids.ids[slot], t.flows[slot].proc;
    FlowInUse(t, log, slot);
    RemoveFlowWF(t, slot, log);
    var t1 := RemoveFlow(t, slot);
    ShortQueue(t);
    ShortQueue(t1);
    if p != BAD_INDEX {
      RemoveFlowKnows(t, slot, p);
      RefcountIsRefs(t1, log, p);
      ActivateProcWF(t1, p, log);
    }
    DropAndRemove(t, slot);
  }

  lemma FailedAssociation(a: Accounts, f: nat, pid: nat, isReauth: bool)
    ensures !a.log ==> AssociateStatus(a, f, pid, isReauth) == DataError
    ensures a.log && pid !in a.held && isReauth ==> AssociateStatus(a, f, pid, isReauth) == FlowBlock
    ensures a.log && pid !in a.held && !isReauth && |a.held| + 1 >= PROC_COUNT_MAX ==>
              AssociateStatus(a, f, pid, isReauth) == NoResources
    ensures AssociateStatus(a, f, pid, isReauth) != Success ==> AssociateStep(a, f, pid, isReauth) == a
  {
  }

  /** Adding the process and then the flow amounts to the association. */
  lemma Associated(a: Accounts, a1: Accounts, f: nat, pid: nat, isNewProc: bool, isReauth: bool)
    requires a.log && isNewProc == (pid !in a.held) && (isNewProc ==> !isReauth && |a.held| + 1 < PROC_COUNT_MAX)
    requires a1 == if isNewProc then a.(held := a.held[pid := ZERO]) else a
    ensures isReauth && f !in a1.flows ==>
              AssociateStatus(a, f, pid, isReauth) == FlowBlock && a1 == a == AssociateStep(a, f, pid, isReauth)
    ensures !(isReauth && f !in a1.flows) ==>
              && AssociateStatus(a, f, pid, isReauth) == Success
              && a1.(flows := a1.flows[f := Some(pid)]) == AssociateStep(a, f, pid, isReauth)
    ensures KeepsCounts(a1, f, pid) <==> KeepsCounts(a, f, pid)
  {
    SameRefs(a, a1, pid);
  }

  lemma OptionsKept(fids: Index, flows: seq<Flow>, fids': Index, flows': seq<Flow>, slot: nat, fl: Flow)
    requires OptionsOk(fids, flows) && OptionsSet(fids, flows, fids', flows', slot)
    requires slot < |flows'| && flows'[slot] == fl && fl.group < GROUPS && !fl.flags.limitOut
    ensures OptionsOk(fids', flows')
  {
    hide InUse;
  }

  /** Only the options of the flow in the slot have been set. */
  ghost predicate OptionsSet(fids: Index, flows: seq<Flow>, fids': Index, flows': seq<Flow>, slot: nat) {
    && slot < |flows'|
    && forall k: nat {:trigger InUse(fids', k)} | k < |flows'| && k != slot && InUse(fids', k) ::
         k < |flows| && InUse(fids, k) && flows'[k] == flows[k]
  }

  lemma FlowIsOpen(t: Tables, log: bool, f: nat)
    requires WF(t)
    ensures Sized(t) && (t.fids.free != [] ==> t.fids.free[0] < |t.flows|)
    ensures f in StatTables.View(t, log).flows <==> f in t.fids.slots
    ensures f in t.fids.slots ==>
              var slot := t.fids.slots[f];
              && slot < |t.flows| && slot < |t.fids.ids| && t.fids.ids[slot] == f && InUse(t.fids, slot)
              && (t.flows[slot].proc == BAD_INDEX <==> StatTables.View(t, log).flows[f] == None)
              && (t.flows[slot].proc != BAD_INDEX ==>
                    && t.flows[slot].proc < |t.pids.ids| && Known(t, t.flows[slot].proc)
                    && StatTables.View(t, log).flows[f] == Some(t.pids.ids[t.flows[slot].proc]))
  {
    if f in t.fids.slots {
      UsedSlot(t.fids, f);
      assert ProcOf(t, f) == t.flows[t.fids.slots[f]].proc;
    }
  }

  /** What adding an open flow f for the process of slot fl.proc results in. */
  ghost predicate FlowAdded(t: Tables, t': Tables, log: bool, f: nat, slot: nat, fl: Flow) {
    && fl.proc < |t.pids.ids|
    && f in t'.fids.slots && t'.fids.slots[f] == slot < |t'.flows|
    && (var a, pid := StatTables.View(t, log), t.pids.ids[fl.proc];
        && StatTables.View(t', log) == a.(flows := a.flows[f := Some(pid)])
        && (WF(t') <==> KeepsCounts(a, f, pid)))
    && OptionsSet(t.fids, t.flows, t'.fids, t'.flows, slot)
  }

  lemma OnePid(t: Tables, p: nat, q: nat)
    requires Known(t, p) && Known(t, q)
    ensures t.pids.ids[p] == t.pids.ids[q] <==> p == q
  {
  }

  lemma NewFlowShape(t: Tables, t': Tables, f: nat, slot: nat, closed: Flow, fl: Flow)
    requires WF(t) && Known(t, fl.proc) && fl.proc < |t.procs| && f !in t.fids.slots && closed == fl.(proc := BAD_INDEX)
    requires t.fids.free != [] ==> t.fids.free[0] < |t.flows|
    requires slot == NextSlot(t.fids) <= |t.flows|
    requires t' == t.(fids := Insert(t.fids, f),
                      flows := (if slot < |t.flows| then t.flows else t.flows + [BLANK_FLOW])[slot := fl],
                      procs := t.procs[fl.proc := CountProc(t.procs[fl.proc], 1)])
    ensures var t1 := AddFlow(t, f, closed);
            && t1.pids == t.pids && t1.procs == t.procs && Known(t1, fl.proc) && slot < |t1.flows| == |t'.flows|
            && slot < |t1.fids.ids| && t1.fids.ids[slot] == f && InUse(t1.fids, slot)
            && f in t'.fids.slots && t'.fids.slots[f] == slot
            && t1.flows[slot].proc == BAD_INDEX && t' == OpenFlow(t1, slot, fl)
    ensures !fl.flags.limitOut ==> OptionsSet(t.fids, t.flows, t'.fids, t'.flows, slot)
  {
    InsertUses(t.fids, f);
    var t1 := AddFlow(t, f, closed);
    assert t'.flows == OpenFlow(t1, slot, fl).flows;
  }

  lemma TwoUpdates(a: Accounts, a1: Accounts, a2: Accounts, f: nat, owner: Option<nat>)
    requires a1 == a.(flows := a.flows[f := None]) && a2 == a1.(flows := a1.flows[f := owner])
    ensures a2 == a.(flows := a.flows[f := owner])
  {
    assert a.flows[f := None][f := owner] == a.flows[f := owner];
  }

  lemma NewFlowAdded(t: Tables, t': Tables, log: bool, f: nat, slot: nat, fl: Flow)
    requires WF(t) && Known(t, fl.proc) && f !in t.fids.slots && !fl.flags.limitOut
    requires t.fids.free != [] ==> t.fids.free[0] < |t.flows|
    requires slot == NextSlot(t.fids) <= |t.flows| && fl.proc < |t.procs|
    requires t' == t.(fids := Insert(t.fids, f),
                      flows := (if slot < |t.flows| then t.flows else t.flows + [BLANK_FLOW])[slot := fl],
                      procs := t.procs[fl.proc := CountProc(t.procs[fl.proc], 1)])
    ensures FlowAdded(t, t', log, f, slot, fl)
  {
    hide WF, Ok, InUse, AddFlow, OpenFlow, StatTables.View, Known, Insert, OptionsSet, Refs;
    var closed := fl.(proc := BAD_INDEX);
    FlowIsOpen(t, log, f);
    var t1 := AddFlow(t, f, closed);
    NewFlowShape(t, t', f, slot, closed, fl);
    AddFlowWF(t, f, closed, log);
    RefcountIsRefs(t, log, fl.proc);
    FlowIsOpen(t, log, f);
    KnownInRange(t, fl.proc);
    OpenFlowWF(t1, slot, fl, log);
    TwoUpdates(StatTables.View(t, log), StatTables.View(t1, log), StatTables.View(t', log), f,
      Some(t.pids.ids[fl.proc]));
    assert WF(t') <==> KeepsCounts(StatTables.View(t, log), f, t.pids.ids[fl.proc]);
  }

  lemma ClosedFlowAdded(t: Tables, log: bool, f: nat, slot: nat, fl: Flow)
    requires WF(t) && Known(t, fl.proc) && fl.proc < |t.procs| && !fl.flags.limitOut
    requires f in t.fids.slots && slot == t.fids.slots[f] && slot < |t.flows| && t.flows[slot].proc == BAD_INDEX
    ensures FlowAdded(t, OpenFlow(t, slot, fl), log, f, slot, fl)
  {
    hide WF, InUse;
    FlowIsOpen(t, log, f);
    OpenFlowWF(t, slot, fl, log);
    RefcountIsRefs(t, log, fl.proc);
  }

  lemma OpenFlowAdded(t: Tables, log: bool, f: nat, slot: nat, fl: Flow)
    requires WF(t) && Known(t, fl.proc) && fl.proc < |t.procs| && !fl.flags.limitOut
    requires f in t.fids.slots && slot == t.fids.slots[f] && slot < |t.flows| && t.flows[slot].proc != BAD_INDEX
    ensures WF(SetOptions(t, slot, fl)) <==> KeepsCounts(StatTables.View(t, log), f, t.pids.ids[fl.proc])
    ensures FlowAdded(t, SetOptions(t, slot, fl), log, f, slot, fl)
  {
    hide WF, InUse, StatTables.View;
    FlowIsOpen(t, log, f);
    SetOptionsWF(t, slot, fl, log);
    OnePid(t, fl.proc, t.flows[slot].proc);
  }

  lemma AddedProc(t: Tables, pid: nat, log: bool)
    requires WF(t) && pid !in t.pids.slots && (t.pids.free == [] ==> |t.procs| + 1 < PROC_COUNT_MAX)
    ensures Sized(t) && (t.pids.free != [] ==> t.pids.free[0] < |t.procs|)
    ensures var t', slot := AddProc(t, pid), NextSlot(t.pids);
            && WF(t') && Known(t', slot) && slot < |t'.procs| && slot < |t'.pids.ids| && t'.pids.ids[slot] == pid
            && StatTables.View(t', log) == StatTables.View(t, log).(held := StatTables.View(t, log).held[pid := ZERO])
  {
    AddProcWF(t, pid, log);
    KnownInRange(AddProc(t, pid), NextSlot(t.pids));
  }

  /** The process table is full when the free chain is empty and the slots are used up. */
  lemma FullTable(t: Tables, log: bool, pid: nat)
    requires WF(t)
    ensures Sized(t) && (t.pids.free != [] ==> t.pids.free[0] < |t.procs|)
    ensures pid in StatTables.View(t, log).held <==> pid in t.pids.slots
    ensures (t.pids.free == [] ==> |t.procs| + 1 < PROC_COUNT_MAX) <==>
              |StatTables.View(t, log).held| + 1 < PROC_COUNT_MAX
    ensures pid in t.pids.slots ==>
              var slot := t.pids.slots[pid];
              Known(t, slot) && slot < |t.procs| && slot < |t.pids.ids| && t.pids.ids[slot] == pid
  {
    HeldKeys(t, log, pid);
    if pid in t.pids.slots { UsedSlot(t.pids, pid); }
  }

  /** Known flows belong to a group; no flow is ever marked for the outbound limit. */
  ghost predicate OptionsOk(fids: Index, flows: seq<Flow>) {
    forall slot: nat {:trigger InUse(fids, slot)} | slot < |flows| && InUse(fids, slot) ::
      flows[slot].group < GROUPS && !flows[slot].flags.limitOut
  }

  lemma EmptyWF(t: Tables)
    requires t == Tables(EMPTY, [], [], EMPTY, [])
    ensures WF(t) && StatTables.View(t, false) == START
  {
    assert forall k: nat {:trigger Counted(t, k)} :: Counted(t, k);
  }

  lemma HeldKeys(t: Tables, log: bool, pid: nat)
    requires WF(t)
    ensures pid in StatTables.View(t, log).held <==> pid in t.pids.slots
    ensures |StatTables.View(t, log).held| == |t.pids.slots| == |t.procs| - |t.pids.free|
  {
    forall p | p in t.pids.slots
      ensures p in HeldOf(t)
    {
      UsedSlot(t.pids, p);
    }
    assert HeldOf(t).Keys == t.pids.slots.Keys;
  }
}

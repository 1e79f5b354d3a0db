/** The driver's process and flow tables, and what they mean for the traffic accounts. */
module StatTables {
  import opened Accounting
  import opened Wrappers
  import opened SlotIndex
  import opened SpeedLimit

  const BAD_INDEX := 0xFFFF   // FORT_PROC_BAD_INDEX

  datatype Proc = Proc(active: bool, refcount: nat, traf: Traf)

  datatype Flow = Flow(flags: Flags, group: nat, proc: nat)

  const IDLE := Proc(false, 0, ZERO)

  /** The active chain is listed from its head. */
  datatype Tables = Tables(pids: Index, procs: seq<Proc>, active: seq<nat>, fids: Index, flows: seq<Flow>)

  predicate Sized(t: Tables) {
    |t.procs| == |t.pids.ids| < PROC_COUNT_MAX && |t.flows| == |t.fids.ids|
  }

  predicate Known(t: Tables, slot: nat) {
    InUse(t.pids, slot)
  }

  /** The process slot of a known flow. */
  function ProcOf(t: Tables, f: nat): nat {
    if f in t.fids.slots && t.fids.slots[f] < |t.flows| then t.flows[t.fids.slots[f]].proc else BAD_INDEX
  }

  ghost predicate FlowProcs(t: Tables) {
    forall f {:trigger ProcOf(t, f)} | f in t.fids.slots :: ProcOf(t, f) == BAD_INDEX || Known(t, ProcOf(t, f))
  }

  /** The active chain lists the known processes whose active flag is set. */
  ghost predicate ActiveChain(t: Tables) {
    && DistinctBelow(t.active, |t.procs|)
    && (forall slot | slot in t.active :: Known(t, slot))
    && (forall slot: nat {:trigger Known(t, slot)} | slot < |t.procs| && Known(t, slot) ::
         t.procs[slot].active <==> slot in t.active)
  }

  ghost function FlowsTo(t: Tables, slot: nat): set<nat> {
    set f | f in t.fids.slots && ProcOf(t, f) == slot
  }

  ghost predicate Counted(t: Tables, slot: nat) {
    Known(t, slot) && slot < |t.procs| ==> t.procs[slot].refcount == |FlowsTo(t, slot)| <= REFCOUNT_MAX
  }

  /** Each reference count is the number of open flows. */
  ghost predicate Counts(t: Tables) {
    forall slot {:trigger Counted(t, slot)} :: Counted(t, slot)
  }

  ghost predicate WF(t: Tables) {
    Sized(t) && Ok(t.pids) && Ok(t.fids) && FlowProcs(t) && ActiveChain(t) && Counts(t)
  }

  // ---------------------------------------------------------------------------------------------
  // What the tables mean
  // ---------------------------------------------------------------------------------------------

  ghost function Owner(t: Tables, slot: nat): Option<nat> {
    if slot == BAD_INDEX || slot >= |t.pids.ids| then None else Some(t.pids.ids[slot])
  }

  ghost function HeldOf(t: Tables): map<nat, Traf> {
    map pid | pid in t.pids.slots && t.pids.slots[pid] < |t.procs| :: t.procs[t.pids.slots[pid]].traf
  }

  ghost function QueueOf(t: Tables): seq<nat> {
    seq(|t.active|, i requires 0 <= i < |t.active| => if t.active[i] < |t.pids.ids| then t.pids.ids[t.active[i]] else 0)
  }

  ghost function FlowsOf(t: Tables): map<nat, Option<nat>> {
    map f | f in t.fids.slots :: Owner(t, ProcOf(t, f))
  }

  ghost function View(t: Tables, log: bool): (a: Accounts)
    ensures a.log == log
  {
    Accounts(log, HeldOf(t), QueueOf(t), FlowsOf(t))
  }

  /** The reference count of a process is the number of open flows of the accounts. */
  lemma RefcountIsRefs(t: Tables, log: bool, slot: nat)
    requires WF(t) && Known(t, slot)
    ensures t.procs[slot].refcount == Refs(View(t, log), t.pids.ids[slot])
  {
    var pid := t.pids.ids[slot];
    assert Counted(t, slot);
    forall f
      ensures f in FlowsTo(t, slot) <==> f in OpenFlows(View(t, log), pid)
    {
      if f in t.fids.slots {
        assert ProcOf(t, f) == BAD_INDEX || Known(t, ProcOf(t, f));
      }
    }
    assert FlowsTo(t, slot) == OpenFlows(View(t, log), pid);
  }

  // ---------------------------------------------------------------------------------------------
  // Steps on the tables
  // ---------------------------------------------------------------------------------------------

  /** Flows whose references have not changed count the same. */
  lemma SameFlowsTo(t: Tables, t': Tables, slot: nat)
    requires forall f {:trigger ProcOf(t, f)} {:trigger ProcOf(t', f)} ::
               (f in t.fids.slots && ProcOf(t, f) == slot) <==> (f in t'.fids.slots && ProcOf(t', f) == slot)
    ensures FlowsTo(t', slot) == FlowsTo(t, slot)
  {
    assert forall f :: f in FlowsTo(t', slot) <==> f in FlowsTo(t, slot);
  }

  function SetProc(procs: seq<Proc>, slot: nat, p: Proc): seq<Proc>
    requires slot <= |procs|
  {
    if slot < |procs| then procs[slot := p] else procs + [p]
  }

  function AddProc(t: Tables, pid: nat): Tables
    requires Sized(t) && (t.pids.free != [] ==> t.pids.free[0] < |t.procs|)
  {
    t.(pids := Insert(t.pids, pid), procs := SetProc(t.procs, NextSlot(t.pids), IDLE))
  }

  /** What AddProc does to the process table. */
  ghost predicate ProcAdded(t: Tables, t': Tables, pid: nat, slot: nat) {
    && Sized(t) && Sized(t') && t'.fids == t.fids && t'.flows == t.flows && t'.active == t.active
    && Known(t', slot) && !Known(t, slot) && slot <= |t.procs| <= |t'.procs|
    && t'.procs[slot] == IDLE && t'.pids.ids[slot] == pid && t'.pids.slots == t.pids.slots[pid := slot]
    && (forall k: nat | k < |t.procs| && k != slot :: t'.procs[k] == t.procs[k] && t'.pids.ids[k] == t.pids.ids[k])
    && (forall k: nat {:trigger Known(t, k)} {:trigger Known(t', k)} | k != slot :: Known(t', k) <==> Known(t, k))
  }

  lemma AddProcAdds(t: Tables, pid: nat)
    requires Sized(t) && Ok(t.pids) && pid !in t.pids.slots && (t.pids.free == [] ==> |t.procs| + 1 < PROC_COUNT_MAX)
    ensures t.pids.free != [] ==> t.pids.free[0] < |t.procs|
    ensures ProcAdded(t, AddProc(t, pid), pid, NextSlot(t.pids)) && Ok(AddProc(t, pid).pids)
  {
    InsertUses(t.pids, pid);
    InsertOk(t.pids, pid);
  }

  lemma AddProcFlows(t: Tables, t': Tables, pid: nat, slot: nat)
    requires ProcAdded(t, t', pid, slot) && FlowProcs(t) && Counts(t)
    ensures FlowProcs(t') && Counts(t') && FlowsOf(t') == FlowsOf(t)
  {
    hide Known;
    assert forall f {:trigger ProcOf(t', f)} {:trigger ProcOf(t, f)} :: ProcOf(t', f) == ProcOf(t, f);
    forall k: nat {:trigger Counted(t', k)}
      ensures Counted(t', k)
    {
      SameFlowsTo(t, t', k);
      KnownInRange(t, k);
      assert Counted(t, k);
      assert k == slot ==> forall f {:trigger ProcOf(t, f)} | f in t.fids.slots :: ProcOf(t, f) != slot;
      assert k == slot ==> FlowsTo(t, k) == {};
    }
    forall f | f in t.fids.slots
      ensures Owner(t', ProcOf(t', f)) == Owner(t, ProcOf(t, f))
    {
      KnownInRange(t, ProcOf(t, f));
      KnownInRange(t', ProcOf(t, f));
    }
  }

  lemma KnownInRange(t: Tables, slot: nat)
    ensures Known(t, slot) ==> slot < |t.pids.ids|
  {
  }

  lemma AddProcChain(t: Tables, t': Tables, pid: nat, slot: nat)
    requires ProcAdded(t, t', pid, slot) && ActiveChain(t)
    ensures ActiveChain(t') && QueueOf(t') == QueueOf(t)
  {
    hide Known;
    assert slot !in t.active;
    forall k: nat {:trigger Known(t', k)} | k < |t'.procs| && Known(t', k)
      ensures t'.procs[k].active <==> k in t'.active
    {
      KnownInRange(t, k);
    }
  }

  lemma AddProcHeld(t: Tables, t': Tables, pid: nat, slot: nat)
    requires ProcAdded(t, t', pid, slot) && Ok(t.pids)
    ensures HeldOf(t') == HeldOf(t)[pid := ZERO]
  {
    forall p | p in t.pids.slots
      ensures t.pids.slots[p] < |t.procs| && t.pids.slots[p] != slot
    {
      UsedSlot(t.pids, p);
    }
  }

  lemma AddProcWF(t: Tables, pid: nat, log: bool)
    requires WF(t) && pid !in t.pids.slots && (t.pids.free == [] ==> |t.procs| + 1 < PROC_COUNT_MAX)
    ensures t.pids.free != [] ==> t.pids.free[0] < |t.procs|
    ensures var t', slot := AddProc(t, pid), NextSlot(t.pids);
            && WF(t') && ProcAdded(t, t', pid, slot)
            && View(t', log) == View(t, log).(held := View(t, log).held[pid := ZERO])
  {
    hide ProcAdded, FlowProcs, Counts, ActiveChain, Ok, HeldOf, QueueOf, FlowsOf;
    AddProcAdds(t, pid);
    var t', slot := AddProc(t, pid), NextSlot(t.pids);
    AddProcFlows(t, t', pid, slot);
    AddProcChain(t, t', pid, slot);
    AddProcHeld(t, t', pid, slot);
    AddProcSized(t, t', pid, slot);
  }

  lemma AddProcSized(t: Tables, t': Tables, pid: nat, slot: nat)
    requires ProcAdded(t, t', pid, slot)
    ensures Sized(t') && t'.fids == t.fids
  {
  }

  lemma UsedSlot(x: Index, id: nat)
    requires Ok(x) && id in x.slots
    ensures InUse(x, x.slots[id]) && x.slots[id] < |x.ids| && x.ids[x.slots[id]] == id
  {
  }

  /** Steps that touch only flows and reference counts. */
  lemma ChainKept(t: Tables, t': Tables)
    requires Sized(t) && Sized(t') && t'.pids == t.pids && t'.active == t.active && |t'.procs| == |t.procs|
    requires forall k | 0 <= k < |t.procs| ::
               t'.procs[k].active == t.procs[k].active && t'.procs[k].traf == t.procs[k].traf
    ensures ActiveChain(t) ==> ActiveChain(t')
    ensures HeldOf(t') == HeldOf(t) && QueueOf(t') == QueueOf(t)
  {
    hide InUse;
    assert forall k: nat {:trigger Known(t', k)} :: Known(t', k) == Known(t, k);
  }

  /** Steps that touch only byte counters and the active chain. */
  lemma FlowsKept(t: Tables, t': Tables)
    requires Sized(t) && Sized(t') && t'.pids == t.pids && t'.fids == t.fids && t'.flows == t.flows
             && |t'.procs| == |t.procs|
    requires forall k | 0 <= k < |t.procs| :: t'.procs[k].refcount == t.procs[k].refcount
    ensures FlowProcs(t) ==> FlowProcs(t')
    ensures Counts(t) ==> Counts(t')
    ensures FlowsOf(t') == FlowsOf(t)
  {
    hide InUse;
    assert forall f {:trigger ProcOf(t', f)} {:trigger ProcOf(t, f)} :: ProcOf(t', f) == ProcOf(t, f);
    if Counts(t) {
      forall k: nat {:trigger Counted(t', k)}
        ensures Counted(t', k)
      {
        SameFlowsTo(t, t', k);
        assert Counted(t, k);
      }
    }
  }

  function SetFlow(flows: seq<Flow>, slot: nat, fl: Flow): seq<Flow>
    requires slot <= |flows|
  {
    if slot < |flows| then flows[slot := fl] else flows + [fl]
  }

  /** A new flow, closed for now. */
  function AddFlow(t: Tables, f: nat, fl: Flow): Tables
    requires Sized(t) && (t.fids.free != [] ==> t.fids.free[0] < |t.flows|)
  {
    t.(fids := Insert(t.fids, f), flows := SetFlow(t.flows, NextSlot(t.fids), fl))
  }

  lemma AddFlowWF(t: Tables, f: nat, fl: Flow, log: bool)
    requires WF(t) && f !in t.fids.slots && fl.proc == BAD_INDEX
    ensures t.fids.free != [] ==> t.fids.free[0] < |t.flows|
    ensures var t' := AddFlow(t, f, fl);
            && WF(t') && f in t'.fids.slots && t'.fids.slots[f] == NextSlot(t.fids) < |t'.flows|
               && t'.flows[NextSlot(t.fids)] == fl
            && View(t', log) == View(t, log).(flows := View(t, log).flows[f := None])
  {
    hide Ok, FlowProcs, Counts, ActiveChain, HeldOf, QueueOf, FlowsOf;
    InsertUses(t.fids, f);
    InsertOk(t.fids, f);
    AddFlowRefs(t, f, fl);
    ChainKept(t, AddFlow(t, f, fl));
  }

  lemma AddFlowProcOf(t: Tables, f: nat, fl: Flow)
    requires Sized(t) && Ok(t.fids) && f !in t.fids.slots && fl.proc == BAD_INDEX
    ensures t.fids.free != [] ==> t.fids.free[0] < |t.flows|
    ensures forall g {:trigger ProcOf(AddFlow(t, f, fl), g)} {:trigger ProcOf(t, g)} ::
              ProcOf(AddFlow(t, f, fl), g) == ProcOf(t, g)
  {
    InsertUses(t.fids, f);
    var t' := AddFlow(t, f, fl);
    forall g {:trigger ProcOf(t', g)} {:trigger ProcOf(t, g)}
      ensures ProcOf(t', g) == ProcOf(t, g)
    {
      if g in t.fids.slots { UsedSlot(t.fids, g); }
    }
  }

  lemma AddFlowRefs(t: Tables, f: nat, fl: Flow)
    requires Sized(t) && Ok(t.fids) && FlowProcs(t) && Counts(t) && f !in t.fids.slots && fl.proc == BAD_INDEX
    ensures t.fids.free != [] ==> t.fids.free[0] < |t.flows|
    ensures var t' := AddFlow(t, f, fl);
            FlowProcs(t') && Counts(t') && FlowsOf(t') == FlowsOf(t)[f := None]
  {
    hide Ok, InUse, AddFlow, ProcOf;
    AddFlowProcOf(t, f, fl);
    AddFlowKeeps(t, f, fl);
    ClosedFlow(t, f);
    BadUnknown(t);
    var t' := AddFlow(t, f, fl);
    forall k: nat {:trigger Counted(t', k)}
      ensures Counted(t', k)
    {
      if k != BAD_INDEX { SameFlowsTo(t, t', k); }
      assert Counted(t, k);
    }
  }

  lemma AddFlowKeeps(t: Tables, f: nat, fl: Flow)
    requires Sized(t) && (t.fids.free != [] ==> t.fids.free[0] < |t.flows|)
    ensures var t' := AddFlow(t, f, fl);
            && t'.pids == t.pids && t'.procs == t.procs && t'.active == t.active
            && t'.fids.slots == t.fids.slots[f := NextSlot(t.fids)]
  {
  }

  lemma ClosedFlow(t: Tables, f: nat)
    requires f !in t.fids.slots
    ensures ProcOf(t, f) == BAD_INDEX
  {
  }

  lemma BadUnknown(t: Tables)
    requires Sized(t)
    ensures !Known(t, BAD_INDEX)
  {
  }

  /** Flow f comes to refer to another process slot, or to none. */
  lemma RefersTo(t: Tables, t': Tables, f: nat, k: nat)
    requires f in t.fids.slots || f in t'.fids.slots
    requires forall g {:trigger ProcOf(t, g)} {:trigger ProcOf(t', g)} | g != f ::
               (g in t.fids.slots <==> g in t'.fids.slots) && ProcOf(t', g) == ProcOf(t, g)
    ensures f in t'.fids.slots && ProcOf(t', f) == k ==> FlowsTo(t', k) == FlowsTo(t, k) + {f}
    ensures !(f in t'.fids.slots && ProcOf(t', f) == k) ==> FlowsTo(t', k) == FlowsTo(t, k) - {f}
  {
    forall g
      ensures g != f ==> (g in FlowsTo(t', k) <==> g in FlowsTo(t, k))
    {
      if g != f { assert ProcOf(t', g) == ProcOf(t, g); }
    }
  }

  function CountProc(p: Proc, delta: int): Proc {
    p.(refcount := (p.refcount + delta) % 0x1_0000)
  }

  /** A closed flow is opened to a process: the reference count is incremented, modulo 2^16. */
  function OpenFlow(t: Tables, slot: nat, fl: Flow): Tables
    requires slot < |t.flows| && fl.proc < |t.procs|
  {
    t.(flows := t.flows[slot := fl], procs := t.procs[fl.proc := CountProc(t.procs[fl.proc], 1)])
  }

  lemma FlowSlotChange(t: Tables, t': Tables, slot: nat, fl: Flow)
    requires Sized(t) && Ok(t.fids) && InUse(t.fids, slot) && slot < |t.flows|
    requires t'.fids == t.fids && t'.flows == t.flows[slot := fl]
    ensures var f := t.fids.ids[slot];
            && f in t.fids.slots && ProcOf(t, f) == t.flows[slot].proc && ProcOf(t', f) == fl.proc
            && forall g {:trigger ProcOf(t, g)} {:trigger ProcOf(t', g)} | g != f :: ProcOf(t', g) == ProcOf(t, g)
  {
    var f := t.fids.ids[slot];
    forall g {:trigger ProcOf(t, g)} {:trigger ProcOf(t', g)} | g != f
      ensures ProcOf(t', g) == ProcOf(t, g)
    {
      if g in t.fids.slots { UsedSlot(t.fids, g); }
    }
  }

  lemma OpenFlowRefs(t: Tables, slot: nat, fl: Flow)
    requires Sized(t) && Ok(t.fids) && FlowProcs(t) && Counts(t) && InUse(t.fids, slot) && slot < |t.flows|
    requires Known(t, fl.proc) && fl.proc < |t.procs| && t.flows[slot].proc == BAD_INDEX
    ensures var t', f := OpenFlow(t, slot, fl), t.fids.ids[slot];
            && f in t.fids.slots
            && FlowProcs(t') && FlowsOf(t') == FlowsOf(t)[f := Some(t.pids.ids[fl.proc])]
            && (Counts(t') <==> t.procs[fl.proc].refcount < REFCOUNT_MAX)
  {
    hide Ok, InUse, ProcOf;
    var t', f := OpenFlow(t, slot, fl), t.fids.ids[slot];
    FlowSlotChange(t, t', slot, fl);
    BadUnknown(t);
    assert forall k: nat {:trigger Known(t', k)} :: Known(t', k) == Known(t, k);
    forall k {:trigger Counted(t', k)}
      ensures Counted(t', k) <==> k != fl.proc || t.procs[fl.proc].refcount < REFCOUNT_MAX
    {
      RefersTo(t, t', f, k);
      assert Counted(t, k);
      if k != BAD_INDEX { assert f !in FlowsTo(t, k); }
    }
    assert Counts(t') ==> Counted(t', fl.proc);
    KnownInRange(t, fl.proc);
  }

  /** Opening keeps the counts exactly when the counter does not wrap. */
  lemma OpenFlowWF(t: Tables, slot: nat, fl: Flow, log: bool)
    requires WF(t) && InUse(t.fids, slot) && slot < |t.flows|
    requires Known(t, fl.proc) && fl.proc < |t.procs| && t.flows[slot].proc == BAD_INDEX
    ensures var t', f := OpenFlow(t, slot, fl), t.fids.ids[slot];
            && (WF(t') <==> t.procs[fl.proc].refcount < REFCOUNT_MAX)
            && View(t', log) == View(t, log).(flows := View(t, log).flows[f := Some(t.pids.ids[fl.proc])])
  {
    hide Ok, InUse, FlowProcs, ActiveChain, HeldOf, QueueOf, FlowsOf, FlowsTo, Counts;
    var t' := OpenFlow(t, slot, fl);
    OpenFlowRefs(t, slot, fl);
    ChainKept(t, t');
  }

  /** The options of an open flow are set again. */
  function SetOptions(t: Tables, slot: nat, fl: Flow): Tables
    requires slot < |t.flows|
  {
    t.(flows := t.flows[slot := fl])
  }

  /** Setting the options of an open flow keeps the counts exactly when the process stays the same. */
  lemma SetOptionsWF(t: Tables, slot: nat, fl: Flow, log: bool)
    requires WF(t) && InUse(t.fids, slot) && slot < |t.flows| && t.flows[slot].proc != BAD_INDEX && Known(t, fl.proc)
    ensures var t' := SetOptions(t, slot, fl);
            && (WF(t') <==> fl.proc == t.flows[slot].proc)
            && View(t', log) ==
                 View(t, log).(flows := View(t, log).flows[t.fids.ids[slot] := Some(t.pids.ids[fl.proc])])
  {
    hide Ok, InUse;
    var t', f, p := SetOptions(t, slot, fl), t.fids.ids[slot], t.flows[slot].proc;
    FlowSlotChange(t, t', slot, fl);
    ChainKept(t, t');
    KnownInRange(t, p);
    assert Known(t, p);
    assert Counted(t, p) && Known(t', p);
    KnownInRange(t, fl.proc);
    BadUnknown(t);
    assert FlowsOf(t') == FlowsOf(t)[f := Some(t.pids.ids[fl.proc])];
    if fl.proc == p {
      assert forall g {:trigger ProcOf(t', g)} {:trigger ProcOf(t, g)} :: ProcOf(t', g) == ProcOf(t, g);
      SameReferences(t, t');
    } else {
      RefersTo(t, t', f, p);
      assert f in FlowsTo(t, p);
      assert !Counted(t', p);
    }
  }

  lemma SameReferences(t: Tables, t': Tables)
    requires Sized(t) && Sized(t') && t'.pids == t.pids && t'.procs == t.procs && t'.fids == t.fids
    requires forall g {:trigger ProcOf(t', g)} {:trigger ProcOf(t, g)} :: ProcOf(t', g) == ProcOf(t, g)
    requires FlowProcs(t) && Counts(t)
    ensures FlowProcs(t') && Counts(t') && FlowsOf(t') == FlowsOf(t)
  {
    hide InUse, ProcOf;
    forall k: nat {:trigger Counted(t', k)}
      ensures Counted(t', k)
    {
      SameFlowsTo(t, t', k);
      assert Counted(t, k);
    }
  }

  /** A flow is deleted; the reference count of its process is decremented, modulo 2^16. */
  function RemoveFlow(t: Tables, slot: nat): Tables
    requires slot < |t.flows| == |t.fids.ids| && (t.flows[slot].proc < |t.procs| || t.flows[slot].proc == BAD_INDEX)
  {
    var p := t.flows[slot].proc;
    t.(fids := Remove(t.fids, slot),
       procs := if p == BAD_INDEX || p >= |t.procs| then t.procs else t.procs[p := CountProc(t.procs[p], -1)])
  }

  lemma RemoveFlowProcs(t: Tables, slot: nat)
    requires Sized(t) && Ok(t.fids) && InUse(t.fids, slot)
             && (t.flows[slot].proc < |t.procs| || t.flows[slot].proc == BAD_INDEX)
    ensures var t', f := RemoveFlow(t, slot), t.fids.ids[slot];
            && f in t.fids.slots && f !in t'.fids.slots && t'.fids.slots == t.fids.slots - {f}
            && ProcOf(t, f) == t.flows[slot].proc && ProcOf(t', f) == BAD_INDEX && Ok(t'.fids) && Sized(t')
            && forall g {:trigger ProcOf(t, g)} {:trigger ProcOf(t', g)} | g != f :: ProcOf(t', g) == ProcOf(t, g)
  {
    hide Ok;
    RemoveOk(t.fids, slot);
  }

  /** Flow f no longer refers to process slot p, whose reference count has been decremented. */
  ghost predicate Dropped(t: Tables, t': Tables, f: nat, p: nat) {
    && Sized(t) && Sized(t') && t'.pids == t.pids && |t'.procs| == |t.procs|
    && f in t.fids.slots && ProcOf(t, f) == p && t'.fids.slots == t.fids.slots - {f}
    && (forall g {:trigger ProcOf(t, g)} {:trigger ProcOf(t', g)} | g != f :: ProcOf(t', g) == ProcOf(t, g))
    && (forall k | 0 <= k < |t.procs| :: t'.procs[k] == if k == p then CountProc(t.procs[k], -1) else t.procs[k])
  }

  lemma DroppedCounted(t: Tables, t': Tables, f: nat, p: nat, k: nat)
    requires Dropped(t, t', f, p) && Counted(t, k)
    ensures Counted(t', k)
  {
    hide InUse, ProcOf;
    RefersTo(t, t', f, k);
    BadUnknown(t);
    assert f in FlowsTo(t, k) <==> k == p;
  }

  lemma DroppedFlows(t: Tables, t': Tables, f: nat, p: nat)
    requires Dropped(t, t', f, p)
    ensures FlowsOf(t') == FlowsOf(t) - {f}
    ensures FlowProcs(t) ==> FlowProcs(t')
  {
    hide InUse, ProcOf;
    assert forall k: nat {:trigger Known(t', k)} :: Known(t', k) == Known(t, k);
  }

  lemma FlowProcInRange(t: Tables, slot: nat)
    requires Sized(t) && FlowProcs(t) && InUse(t.fids, slot)
    ensures t.flows[slot].proc < |t.procs| || t.flows[slot].proc == BAD_INDEX
  {
    assert ProcOf(t, t.fids.ids[slot]) == t.flows[slot].proc;
  }

  lemma RemoveFlowRefs(t: Tables, slot: nat)
    requires WF(t) && InUse(t.fids, slot)
    ensures t.flows[slot].proc < |t.procs| || t.flows[slot].proc == BAD_INDEX
    ensures var t', f := RemoveFlow(t, slot), t.fids.ids[slot];
            FlowProcs(t') && Counts(t') && FlowsOf(t') == FlowsOf(t) - {f}
  {
    hide Ok, InUse, ProcOf, ActiveChain;
    UseFacts(t.fids, slot);
    var f, p := t.fids.ids[slot], t.flows[slot].proc;
    FlowProcInRange(t, slot);
    RemoveFlowProcs(t, slot);
    var t' := RemoveFlow(t, slot);
    assert Dropped(t, t', f, p);
    DroppedFlows(t, t', f, p);
    forall k: nat {:trigger Counted(t', k)}
      ensures Counted(t', k)
    {
      assert Counted(t, k);
      DroppedCounted(t, t', f, p, k);
    }
  }

  lemma RemoveFlowWF(t: Tables, slot: nat, log: bool)
    requires WF(t) && InUse(t.fids, slot)
    ensures t.flows[slot].proc < |t.procs| || t.flows[slot].proc == BAD_INDEX
    ensures var t', f := RemoveFlow(t, slot), t.fids.ids[slot];
            && WF(t') && f in t.fids.slots && ProcOf(t, f) == t.flows[slot].proc
            && View(t', log) == View(t, log).(flows := View(t, log).flows - {f})
  {
    RemoveFlowRefs(t, slot);
    RemoveFlowProcs(t, slot);
    ChainKept(t, RemoveFlow(t, slot));
  }

  /** The process goes to the head of the active chain, unless it is in the chain. */
  function ActivateProc(t: Tables, slot: nat): Tables
    requires slot < |t.procs|
  {
    if t.procs[slot].active then t
    else t.(procs := t.procs[slot := t.procs[slot].(active := true)], active := [slot] + t.active)
  }

  lemma ShortChain(t: Tables)
    requires Sized(t) && ActiveChain(t)
    ensures |t.active| < PROC_COUNT_MAX
  {
    DistinctShort(t.active, |t.procs|);
  }

  lemma ActivateProcWF(t: Tables, slot: nat, log: bool)
    requires WF(t) && Known(t, slot)
    ensures var t' := ActivateProc(t, slot);
            && WF(t') && |t'.active| < PROC_COUNT_MAX
            && View(t', log) == View(t, log).(queue := Activate(View(t, log).queue, t.pids.ids[slot]))
  {
    hide Ok, InUse, FlowProcs, Counts, ActiveChain, QueueOf, FlowsOf;
    KnownInRange(t, slot);
    var t' := ActivateProc(t, slot);
    FlowsKept(t, t');
    ActivateChain(t, slot);
    ShortChain(t');
    assert HeldOf(t') == HeldOf(t);
  }

  lemma ActivateChain(t: Tables, slot: nat)
    requires Sized(t) && Ok(t.pids) && ActiveChain(t) && Known(t, slot)
    ensures ActiveChain(ActivateProc(t, slot))
    ensures QueueOf(ActivateProc(t, slot)) == Activate(QueueOf(t), t.pids.ids[slot])
  {
    hide Ok, InUse;
    KnownInRange(t, slot);
    var t', pid := ActivateProc(t, slot), t.pids.ids[slot];
    assert forall k: nat {:trigger Known(t', k)} :: Known(t', k) == Known(t, k);
    InQueue(t, slot);
    assert forall i | 0 < i < |t'.active| :: !t.procs[slot].active ==> t'.active[i] == t.active[i - 1];
    assert forall i | 0 < i < |t'.active| :: !t.procs[slot].active ==> QueueOf(t')[i] == QueueOf(t)[i - 1];
  }

  lemma InQueue(t: Tables, slot: nat)
    requires Sized(t) && Ok(t.pids) && ActiveChain(t) && Known(t, slot)
    ensures t.procs[slot].active <==> t.pids.ids[slot] in QueueOf(t)
  {
    var q := QueueOf(t);
    if slot in t.active {
      var i :| 0 <= i < |t.active| && t.active[i] == slot;
      assert q[i] == t.pids.ids[slot];
    }
    if t.pids.ids[slot] in q {
      var i :| 0 <= i < |q| && q[i] == t.pids.ids[slot];
      assert t.active[i] in t.active && Known(t, t.active[i]);
    }
  }

  function SetTraf(t: Tables, slot: nat, traf: Traf): Tables
    requires slot < |t.procs|
  {
    t.(procs := t.procs[slot := t.procs[slot].(traf := traf)])
  }

  lemma SetTrafWF(t: Tables, slot: nat, traf: Traf, log: bool)
    requires WF(t) && Known(t, slot)
    ensures var t' := SetTraf(t, slot, traf);
            && WF(t') && t.pids.ids[slot] in HeldOf(t) && HeldOf(t)[t.pids.ids[slot]] == t.procs[slot].traf
            && View(t', log) == View(t, log).(held := View(t, log).held[t.pids.ids[slot] := traf])
  {
    hide Ok, InUse, FlowProcs, Counts, FlowsOf, HeldOf;
    KnownInRange(t, slot);
    var t' := SetTraf(t, slot, traf);
    FlowsKept(t, t');
    assert forall k: nat {:trigger Known(t', k)} :: Known(t', k) == Known(t, k);
    SetTrafHeld(t, slot, traf);
    assert QueueOf(t') == QueueOf(t);
  }

  lemma SetTrafHeld(t: Tables, slot: nat, traf: Traf)
    requires Sized(t) && Ok(t.pids) && Known(t, slot)
    ensures t.pids.ids[slot] in HeldOf(t) && HeldOf(t)[t.pids.ids[slot]] == t.procs[slot].traf
    ensures HeldOf(SetTraf(t, slot, traf)) == HeldOf(t)[t.pids.ids[slot] := traf]
  {
    forall p | p in t.pids.slots
      ensures t.pids.slots[p] < |t.procs| && (t.pids.slots[p] == slot <==> p == t.pids.ids[slot])
    {
      UsedSlot(t.pids, p);
    }
  }

  /** The head of the active chain is reported: a process without references is freed. */
  function FlushHead(t: Tables): Tables
    requires t.active != [] && t.active[0] < |t.procs| == |t.pids.ids|
  {
    var slot := t.active[0];
    if t.procs[slot].refcount == 0 then t.(pids := Remove(t.pids, slot), active := t.active[1..])
    else t.(procs := t.procs[slot := Proc(false, t.procs[slot].refcount, ZERO)], active := t.active[1..])
  }

  ghost predicate HeadFreed(t: Tables, t': Tables, slot: nat) {
    && Sized(t) && Sized(t') && t'.fids == t.fids && t'.flows == t.flows && t'.procs == t.procs
    && t.active != [] && slot == t.active[0] && t'.active == t.active[1..]
    && Known(t, slot) && !Known(t', slot) && slot < |t.procs| && t.procs[slot].refcount == 0
    && t'.pids.slots == t.pids.slots - {t.pids.ids[slot]} && t'.pids.ids == t.pids.ids
    && (forall k: nat {:trigger Known(t, k)} {:trigger Known(t', k)} | k != slot :: Known(t', k) <==> Known(t, k))
  }

  lemma FlushHeadFrees(t: Tables)
    requires WF(t) && t.active != [] && t.active[0] < |t.procs| && t.procs[t.active[0]].refcount == 0
    ensures HeadFreed(t, FlushHead(t), t.active[0]) && Ok(FlushHead(t).pids)
  {
    assert t.active[0] in t.active;
    RemoveOk(t.pids, t.active[0]);
  }

  lemma SameProcOf(t: Tables, t': Tables)
    requires t'.fids == t.fids && t'.flows == t.flows
    ensures forall f {:trigger ProcOf(t', f)} {:trigger ProcOf(t, f)} :: ProcOf(t', f) == ProcOf(t, f)
  {
  }

  lemma HeadFreedFlows(t: Tables, t': Tables, slot: nat)
    requires HeadFreed(t, t', slot) && FlowProcs(t) && Counts(t)
    ensures FlowProcs(t') && Counts(t') && FlowsOf(t') == FlowsOf(t)
  {
    hide InUse, ProcOf;
    SameProcOf(t, t');
    assert Counted(t, slot) && FlowsTo(t, slot) == {};
    assert forall f {:trigger ProcOf(t, f)} | f in t.fids.slots && ProcOf(t, f) == slot :: f in FlowsTo(t, slot);
    forall k: nat {:trigger Counted(t', k)}
      ensures Counted(t', k)
    {
      SameFlowsTo(t, t', k);
      assert Counted(t, k);
    }
  }

  /** Behind the head, the active chain is as before. */
  lemma ChainTail(t: Tables, t': Tables, slot: nat)
    requires ActiveChain(t) && t.active != [] && slot == t.active[0] && t'.active == t.active[1..]
             && |t'.procs| == |t.procs|
    requires forall k: nat {:trigger Known(t, k)} {:trigger Known(t', k)} | k != slot :: Known(t', k) <==> Known(t, k)
    requires forall k | 0 <= k < |t.procs| && k != slot :: t'.procs[k].active == t.procs[k].active
    requires slot < |t.procs| && Known(t', slot) ==> !t'.procs[slot].active
    requires t'.pids.ids == t.pids.ids
    ensures ActiveChain(t') && QueueOf(t') == QueueOf(t)[1..]
  {
    hide InUse, Known;
    assert forall i | 0 <= i < |t'.active| :: t'.active[i] == t.active[i + 1];
    assert forall k | k in t.active && k != slot :: k in t'.active;
    assert QueueOf(t')== QueueOf(t)[1..];
  }

  lemma HeadFreedHeld(t: Tables, t': Tables, slot: nat)
    requires HeadFreed(t, t', slot)
    ensures HeldOf(t') == HeldOf(t) - {t.pids.ids[slot]}
  {
    hide InUse;
  }

  ghost predicate HeadKept(t: Tables, t': Tables, slot: nat) {
    && Sized(t) && Sized(t') && t'.pids == t.pids && t'.fids == t.fids && t'.flows == t.flows
    && t.active != [] && slot == t.active[0] && t'.active == t.active[1..]
    && Known(t, slot) && slot < |t.procs|
    && t'.procs == t.procs[slot := Proc(false, t.procs[slot].refcount, ZERO)]
  }

  lemma HeadKeptHeld(t: Tables, t': Tables, slot: nat)
    requires HeadKept(t, t', slot) && Ok(t.pids)
    ensures HeldOf(t') == HeldOf(t)[t.pids.ids[slot] := ZERO]
  {
    hide Ok, InUse;
    SetTrafHeld(t, slot, ZERO);
    assert HeldOf(t') == HeldOf(SetTraf(t, slot, ZERO));
  }

  lemma HeadInUse(t: Tables)
    requires Sized(t) && ActiveChain(t) && t.active != []
    ensures Known(t, t.active[0]) && t.active[0] < |t.procs|
    ensures var t', slot := FlushHead(t), t.active[0];
            t.procs[slot].refcount != 0 ==>
              HeadKept(t, t', slot) && forall k: nat {:trigger Known(t', k)} :: Known(t', k) == Known(t, k)
  {
    assert t.active[0] in t.active;
  }

  lemma FlushHeadParts(t: Tables)
    requires WF(t) && t.active != []
    ensures Known(t, t.active[0]) && t.active[0] < |t.procs|
    ensures var t', slot := FlushHead(t), t.active[0];
            && WF(t') && FlowsOf(t') == FlowsOf(t) && QueueOf(t') == QueueOf(t)[1..]
            && HeldOf(t') ==
                 if t.procs[slot].refcount == 0 then HeldOf(t) - {t.pids.ids[slot]}
                 else HeldOf(t)[t.pids.ids[slot] := ZERO]
  {
    hide Ok, InUse, ActiveChain, FlowProcs, Counts, FlushHead, Known;
    HeadInUse(t);
    var t', slot := FlushHead(t), t.active[0];
    if t.procs[slot].refcount == 0 {
      FlushHeadFrees(t);
      HeadFreedFlows(t, t', slot);
      HeadFreedHeld(t, t', slot);
      ChainTail(t, t', slot);
    } else {
      HeadKeptHeld(t, t', slot);
      FlowsKept(t, t');
      ChainTail(t, t', slot);
    }
  }

  lemma KnownHeld(t: Tables, log: bool, slot: nat)
    requires WF(t) && Known(t, slot)
    ensures slot < |t.procs| == |t.pids.ids| && t.pids.ids[slot] in View(t, log).held
    ensures View(t, log).held[t.pids.ids[slot]] == t.procs[slot].traf
    ensures |t.active| < PROC_COUNT_MAX
  {
    SetTrafHeld(t, slot, ZERO);
    DistinctShort(t.active, |t.procs|);
  }

  lemma FlushHeadWF(t: Tables, log: bool)
    requires WF(t) && t.active != []
    ensures t.active[0] < |t.procs|
    ensures var t', a := FlushHead(t), View(t, log);
            && a.queue != [] && a.queue[0] in a.held && a.queue[0] == t.pids.ids[t.active[0]]
            && NextReport(a) ==
                 Report(t.pids.ids[t.active[0]], t.procs[t.active[0]].refcount == 0, t.procs[t.active[0]].traf)
            && WF(t') && View(t', log) == FlushOne(a)
  {
    hide WF, HeldOf, FlowsOf, Refs, FlushHead;
    var slot := t.active[0];
    FlushHeadParts(t);
    RefcountIsRefs(t, log, slot);
    KnownHeld(t, log, slot);
  }

  /** The queue of the accounts has no duplicates and names known processes. */
  lemma ViewQueued(t: Tables, log: bool)
    requires WF(t)
    ensures Queued(View(t, log))
  {
    var q := QueueOf(t);
    forall i, j | 0 <= i < j < |q|
      ensures q[i] != q[j]
    {
      assert t.active[i] in t.active && t.active[j] in t.active;
      assert Known(t, t.active[i]) && Known(t, t.active[j]);
    }
    forall pid | pid in q
      ensures pid in HeldOf(t)
    {
      var i :| 0 <= i < |q| && q[i] == pid;
      assert t.active[i] in t.active;
    }
  }
}

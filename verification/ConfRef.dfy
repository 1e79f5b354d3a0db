/** The configuration shared by readers and replaced while they hold it: a protocol of locked sections. */
module ConfRef {
  import opened Wrappers

  type Conf = nat

  /** A call in progress, between its locked sections. */
  datatype Agent =
    | Holding(conf: Conf)                              // after fort_conf_ref_take
    | Taken(prior: Option<Conf>, next: Option<Conf>)     // fort_conf_ref_set, after its take
    | Swapped(left: Conf)                               // fort_conf_ref_set, after its exchange

  /** refs: the reference counts of the configurations made so far; freed: those deleted. */
  datatype Device = Device(current: Option<Conf>, refs: map<Conf, nat>, freed: set<Conf>, agents: map<nat, Agent>)

  const START := Device(None, map[], {}, map[])

  datatype Step =
    | Take(agent: nat)
    | Put(agent: nat)
    | SetTake(agent: nat, next: Option<Conf>)
    | SetSwap(agent: nat)

  function Held(a: Agent): Option<Conf> {
    match a
    case Holding(c) => Some(c)
    case Taken(prior, _) => prior
    case Swapped(c) => Some(c)
  }

  ghost function Holders(d: Device, c: Conf): set<nat> {
    set i | i in d.agents && Held(d.agents[i]) == Some(c)
  }

  /** c is waiting to be set by the agent. */
  predicate Waiting(d: Device, i: nat, c: Conf) {
    i in d.agents && d.agents[i].Taken? && d.agents[i].next == Some(c)
  }

  ghost predicate IsWaiting(d: Device, c: Conf) {
    exists i: nat :: Waiting(d, i, c)
  }

  // ---------------------------------------------------------------------------------------------
  // The steps
  // ---------------------------------------------------------------------------------------------

  /** `++refcount` of the current configuration. */
  function TakeRef(d: Device): Device {
    match d.current
    case None => d
    case Some(c) => if c in d.refs then d.(refs := d.refs[c := d.refs[c] + 1]) else d
  }

  /** `--refcount`, and deletion when it gets to 0 for one that is no longer current. */
  function PutRef(d: Device, c: Conf): Device
    requires c in d.refs && d.refs[c] > 0
  {
    var n := d.refs[c] - 1;
    d.(refs := d.refs[c := n], freed := if n == 0 && Some(c) != d.current then d.freed + {c} else d.freed)
  }

  /** Whether an agent can make the step; a configuration to be set is newly made. */
  predicate Enabled(d: Device, s: Step) {
    match s
    case Take(i) => i !in d.agents
    case Put(i) => i in d.agents && !d.agents[i].Taken?
    case SetTake(i, next) => i !in d.agents && (next.Some? ==> next.value !in d.refs)
    case SetSwap(i) => i in d.agents && d.agents[i].Taken?
  }

  function Next(d: Device, s: Step): Device
    requires Enabled(d, s)
  {
    match s
    case Take(i) =>
      if d.current == None then d
      else TakeRef(d).(agents := d.agents[i := Holding(d.current.value)])
    case Put(i) =>
      var c := Held(d.agents[i]).value;
      var d' := d.(agents := d.agents - {i});
      if c in d.refs && d.refs[c] > 0 then PutRef(d', c) else d'
    case SetTake(i, next) =>
      var d' := if next.Some? then d.(refs := d.refs[next.value := 0]) else d;
      TakeRef(d').(agents := d.agents[i := Taken(d.current, next)])
    case SetSwap(i) =>
      var a := d.agents[i];
      d.(current := a.next, agents := if a.prior.Some? then d.agents[i := Swapped(a.prior.value)] else d.agents - {i})
  }

  // ---------------------------------------------------------------------------------------------
  // Safety
  // ---------------------------------------------------------------------------------------------

  /** The count is the number of holders; what is freed is not held, current or waiting. */
  ghost predicate CountOk(d: Device, c: Conf) {
    && (c in d.refs ==> d.refs[c] == |Holders(d, c)|)
    && (c !in d.refs ==> Holders(d, c) == {} && !IsWaiting(d, c) && d.current != Some(c) && c !in d.freed)
    && (c in d.freed ==> Holders(d, c) == {} && !IsWaiting(d, c) && d.current != Some(c))
    && (IsWaiting(d, c) ==> d.current != Some(c) && Holders(d, c) == {})
    && (forall i: nat, j: nat | Waiting(d, i, c) && Waiting(d, j, c) :: i == j)
  }

  ghost predicate Safe(d: Device) {
    forall c: Conf {:trigger CountOk(d, c)} :: CountOk(d, c)
  }

  lemma SameHolders(d: Device, d': Device, c: Conf)
    requires forall i :: (i in d.agents && Held(d.agents[i]) == Some(c)) <==>
               (i in d'.agents && Held(d'.agents[i]) == Some(c))
    ensures Holders(d', c) == Holders(d, c)
  {
  }

  lemma SameWaiting(d: Device, d': Device, c: Conf)
    requires forall i: nat :: Waiting(d', i, c) <==> Waiting(d, i, c)
    ensures IsWaiting(d', c) <==> IsWaiting(d, c)
  {
    if IsWaiting(d, c) {
      var i :| Waiting(d, i, c);
      assert Waiting(d', i, c);
    }
    if IsWaiting(d', c) {
      var i :| Waiting(d', i, c);
      assert Waiting(d, i, c);
    }
  }

  lemma AddedHolder(d: Device, d': Device, c: Conf, i: nat)
    requires i !in d.agents && i in d'.agents && d'.agents == d.agents[i := d'.agents[i]]
    ensures Holders(d', c) == Holders(d, c) + (if Held(d'.agents[i]) == Some(c) then {i} else {})
    ensures i !in Holders(d, c)
  {
  }

  lemma DroppedHolder(d: Device, d': Device, c: Conf, i: nat)
    requires i in d.agents && d'.agents == d.agents - {i}
    ensures Holders(d', c) == Holders(d, c) - {i}
    ensures i in Holders(d, c) <==> Held(d.agents[i]) == Some(c)
  {
  }

  lemma TakeSafe(d: Device, i: nat)
    requires Safe(d) && Enabled(d, Take(i))
    ensures Safe(Next(d, Take(i)))
  {
    var d' := Next(d, Take(i));
    if d.current.Some? {
      forall c: Conf {:trigger CountOk(d', c)}
        ensures CountOk(d', c)
      {
        assert CountOk(d, c) && CountOk(d, d.current.value);
        AddedHolder(d, d', c, i);
        SameWaiting(d, d', c);
      }
    }
  }

  lemma SetTakeSafe(d: Device, i: nat, next: Option<Conf>)
    requires Safe(d) && Enabled(d, SetTake(i, next))
    ensures Safe(Next(d, SetTake(i, next)))
  {
    var d' := Next(d, SetTake(i, next));
    forall c: Conf {:trigger CountOk(d', c)}
      ensures CountOk(d', c)
    {
      assert CountOk(d, c) && (d.current.Some? ==> CountOk(d, d.current.value))
             && (next.Some? ==> CountOk(d, next.value));
      AddedHolder(d, d', c, i);
      assert forall j: nat :: Waiting(d', j, c) <==> Waiting(d, j, c) || (j == i && next == Some(c));
      if next != Some(c) { SameWaiting(d, d', c); } else { assert Waiting(d', i, c); }
    }
  }

  lemma SwapSafe(d: Device, i: nat)
    requires Safe(d) && Enabled(d, SetSwap(i))
    ensures Safe(Next(d, SetSwap(i)))
  {
    var d', a := Next(d, SetSwap(i)), d.agents[i];
    forall c: Conf {:trigger CountOk(d', c)}
      ensures CountOk(d', c)
    {
      assert CountOk(d, c);
      SameHolders(d, d', c);
      assert forall j: nat :: Waiting(d', j, c) <==> Waiting(d, j, c) && j != i;
      if a.next == Some(c) { assert Waiting(d, i, c); } else { SameWaiting(d, d', c); }
    }
  }

  lemma PutSafe(d: Device, i: nat)
    requires Safe(d) && Enabled(d, Put(i))
    ensures Safe(Next(d, Put(i)))
  {
    var d', h := Next(d, Put(i)), Held(d.agents[i]).value;
    forall c: Conf {:trigger CountOk(d', c)}
      ensures CountOk(d', c)
    {
      assert CountOk(d, c) && CountOk(d, h);
      DroppedHolder(d, d', c, i);
      SameWaiting(d, d', c);
    }
  }

  /** Every step keeps safety. */
  lemma StepSafe(d: Device, s: Step)
    requires Safe(d) && Enabled(d, s)
    ensures Safe(Next(d, s))
  {
    match s
    case Take(i) => TakeSafe(d, i);
    case Put(i) => PutSafe(d, i);
    case SetTake(i, next) => SetTakeSafe(d, i, next);
    case SetSwap(i) => SwapSafe(d, i);
  }

  ghost predicate Legal(d: Device, steps: seq<Step>)
    decreases |steps|
  {
    steps == [] || (Enabled(d, steps[0]) && Legal(Next(d, steps[0]), steps[1..]))
  }

  ghost function Run(d: Device, steps: seq<Step>): Device
    requires Legal(d, steps)
    decreases |steps|
  {
    if steps == [] then d else Run(Next(d, steps[0]), steps[1..])
  }

  lemma StartSafe()
    ensures Safe(START) && NoLeak(START)
  {
    forall c: Conf {:trigger CountOk(START, c)}
      ensures CountOk(START, c)
    {
      assert Holders(START, c) == {};
    }
  }

  /** In every interleaving, counts are the holders, and nothing held or current has been freed. */
  lemma {:induction false} RunSafe(d: Device, steps: seq<Step>)
    requires Safe(d) && Legal(d, steps)
    ensures Safe(Run(d, steps))
    decreases |steps|
  {
    if steps != [] {
      StepSafe(d, steps[0]);
      RunSafe(Next(d, steps[0]), steps[1..]);
    }
  }

  /** What an agent holds stays held, and is not freed, until that agent's put. */
  lemma {:induction false} HeldUntilPut(d: Device, steps: seq<Step>, i: nat, c: Conf)
    requires Safe(d) && Legal(d, steps) && Put(i) !in steps
    requires i in d.agents && Held(d.agents[i]) == Some(c)
    ensures var d' := Run(d, steps); i in d'.agents && Held(d'.agents[i]) == Some(c) && c !in d'.freed
    decreases |steps|
  {
    if steps == [] {
      assert CountOk(d, c) && i in Holders(d, c);
    } else {
      assert steps[0] in steps && forall s | s in steps[1..] :: s in steps;
      StepSafe(d, steps[0]);
      HeldUntilPut(Next(d, steps[0]), steps[1..], i, c);
    }
  }

  /** A configuration that a take has returned is counted for its holder, and not freed before the holder's put. */
  lemma TakenNotFreed(d: Device, i: nat, c: Conf, steps: seq<Step>)
    requires Safe(d) && Enabled(d, Take(i)) && d.current == Some(c)
    requires Legal(Next(d, Take(i)), steps) && Put(i) !in steps
    ensures c in d.refs && Next(d, Take(i)).refs == d.refs[c := d.refs[c] + 1]
    ensures c !in Run(Next(d, Take(i)), steps).freed
  {
    assert CountOk(d, c);
    StepSafe(d, Take(i));
    HeldUntilPut(Next(d, Take(i)), steps, i, c);
  }

  /** A configuration is freed only by a put, when it was not freed before and nothing refers to it any more. */
  lemma FreedOnce(d: Device, s: Step, c: Conf)
    requires Safe(d) && Enabled(d, s)
    ensures d.freed <= Next(d, s).freed
    ensures c in Next(d, s).freed - d.freed ==>
              s.Put? && Held(d.agents[s.agent]) == Some(c) && Holders(d, c) == {s.agent} && d.current != Some(c)
    ensures s.Put? ==> Held(d.agents[s.agent]).value !in d.freed
  {
    assert CountOk(d, c);
    if s.Put? {
      var h := Held(d.agents[s.agent]).value;
      assert CountOk(d, h) && s.agent in Holders(d, h);
      if c in Next(d, s).freed - d.freed {
        OneLeft(Holders(d, c), s.agent);
      }
    }
  }

  lemma OneLeft(s: set<nat>, x: nat)
    requires x in s && |s| == 1
    ensures s == {x}
  {
    assert |s - {x}| == 0;
  }

  // ---------------------------------------------------------------------------------------------
  // Leaks
  // ---------------------------------------------------------------------------------------------

  /** Whether anything will still lead to the configuration. */
  ghost predicate Reachable(d: Device, c: Conf) {
    c in d.refs && c !in d.freed ==> d.current == Some(c) || IsWaiting(d, c) || d.refs[c] > 0
  }

  ghost predicate NoLeak(d: Device) {
    forall c: Conf {:trigger Reachable(d, c)} :: Reachable(d, c)
  }

  /** Steps other than the exchange leak nothing. */
  lemma StepNoLeak(d: Device, s: Step)
    requires Safe(d) && NoLeak(d) && Enabled(d, s) && !s.SetSwap?
    ensures NoLeak(Next(d, s))
  {
    var d' := Next(d, s);
    forall c: Conf {:trigger Reachable(d', c)}
      ensures Reachable(d', c)
    {
      assert Reachable(d, c) && CountOk(d, c);
      if IsWaiting(d, c) {
        var i :| Waiting(d, i, c);
        assert Waiting(d', i, c);
      }
      if s.SetTake? && s.next == Some(c) {
        assert Waiting(d', s.agent, c);
      }
    }
  }

  /** The exchange leaks the configuration it replaces exactly when nobody holds that one. */
  lemma SwapLeaks(d: Device, i: nat)
    requires Safe(d) && NoLeak(d) && Enabled(d, SetSwap(i))
    ensures NoLeak(Next(d, SetSwap(i))) <==>
              d.current == None || d.current.value !in d.refs || d.refs[d.current.value] > 0
  {
    var d', a := Next(d, SetSwap(i)), d.agents[i];
    if d.current.Some? {
      var c := d.current.value;
      assert CountOk(d, c) && CountOk(d', c) by { SwapSafe(d, i); }
      assert IsWaiting(d', c) ==> IsWaiting(d, c) by {
        if IsWaiting(d', c) {
          var j :| Waiting(d', j, c);
          assert Waiting(d, j, c);
        }
      }
      if a.next == Some(c) { assert Waiting(d, i, c); }
      assert Reachable(d', c) <==> c !in d.refs || d.refs[c] > 0;
    }
    forall c: Conf {:trigger Reachable(d', c)} | d.current != Some(c)
      ensures Reachable(d', c)
    {
      assert Reachable(d, c);
      if IsWaiting(d, c) && a.next != Some(c) {
        var j :| Waiting(d, j, c);
        assert Waiting(d', j, c);
      }
    }
    if d.current == None || d.current.value !in d.refs || d.refs[d.current.value] > 0 {
      forall c: Conf {:trigger Reachable(d', c)}
        ensures Reachable(d', c)
      {
      }
    }
  }

  /** Two sets in progress at once can lose a configuration. */
  lemma UnserialisedLeak()
    ensures var steps := [SetTake(1, Some(10)), SetTake(2, Some(20)), SetSwap(1), SetSwap(2)];
            Legal(START, steps) && !NoLeak(Run(START, steps)) && Run(START, steps).agents == map[]
  {
    var d1 := Next(START, SetTake(1, Some(10)));
    var d2 := Next(d1, SetTake(2, Some(20)));
    var d3 := Next(d2, SetSwap(1));
    var d4 := Next(d3, SetSwap(2));
    var steps := [SetTake(1, Some(10)), SetTake(2, Some(20)), SetSwap(1), SetSwap(2)];
    assert steps[1..] == [SetTake(2, Some(20)), SetSwap(1), SetSwap(2)];
    assert steps[1..][1..] == [SetSwap(1), SetSwap(2)] && steps[1..][1..][1..] == [SetSwap(2)]
           && steps[1..][1..][1..][1..] == [];
    assert Run(START, steps) == Run(d1, steps[1..]) == Run(d2, steps[1..][1..]) == Run(d3, [SetSwap(2)]) == d4;
    assert !Reachable(d4, 10);
  }

  /** Sets are serialised: none starts before the previous one has made its exchange. */
  ghost predicate Serial(d: Device, s: Step) {
    s.SetTake? ==> forall i | i in d.agents :: !d.agents[i].Taken?
  }

  /** The set in progress holds the current configuration. */
  ghost predicate InOrder(d: Device) {
    && (forall i | i in d.agents && d.agents[i].Taken? :: d.agents[i].prior == d.current)
    && (forall i, j | i in d.agents && j in d.agents && d.agents[i].Taken? && d.agents[j].Taken? :: i == j)
  }

  ghost predicate SerialRun(d: Device, steps: seq<Step>)
    requires Legal(d, steps)
    decreases |steps|
  {
    steps == [] || (Serial(d, steps[0]) && SerialRun(Next(d, steps[0]), steps[1..]))
  }

  lemma SerialStep(d: Device, s: Step)
    requires Safe(d) && NoLeak(d) && InOrder(d) && Enabled(d, s) && Serial(d, s)
    ensures NoLeak(Next(d, s)) && InOrder(Next(d, s))
  {
    if s.SetSwap? {
      if d.current.Some? {
        assert CountOk(d, d.current.value);
        assert s.agent in Holders(d, d.current.value);
      }
      SwapLeaks(d, s.agent);
    } else {
      StepNoLeak(d, s);
    }
  }

  /** With serialised sets, nothing is ever lost: what is not freed is current, waiting or held. */
  lemma {:induction false} SerialNoLeak(d: Device, steps: seq<Step>)
    requires Safe(d) && NoLeak(d) && InOrder(d) && Legal(d, steps) && SerialRun(d, steps)
    ensures NoLeak(Run(d, steps)) && Safe(Run(d, steps))
    decreases |steps|
  {
    if steps != [] {
      StepSafe(d, steps[0]);
      SerialStep(d, steps[0]);
      SerialNoLeak(Next(d, steps[0]), steps[1..]);
    }
  }

  /** Once all calls have returned, only the current configuration is left. */
  lemma OnlyCurrentLeft(d: Device, c: Conf)
    requires Safe(d) && NoLeak(d) && d.agents == map[]
    ensures c in d.refs && c !in d.freed ==> d.current == Some(c) && d.refs[c] == 0
  {
    assert CountOk(d, c) && Reachable(d, c);
    assert Holders(d, c) == {};
  }

  // ---------------------------------------------------------------------------------------------
  // The locked sections
  // ---------------------------------------------------------------------------------------------

  lemma CurrentCounted(d: Device)
    requires Safe(d)
    ensures d.current.Some? ==> d.current.value in d.refs
  {
    assert d.current.Some? ==> CountOk(d, d.current.value);
  }

  /** The device configuration; calls in progress are ghost. */
  class DeviceConf {
    var ref: Option<Conf>
    var refcounts: map<Conf, nat>
    var freed: set<Conf>
    ghost var agents: map<nat, Agent>

    constructor ()
      ensures D() == START
    {
      ref, refcounts, freed, agents := None, map[], {}, map[];
    }

    ghost function D(): Device
      reads this
    {
      Device(ref, refcounts, freed, agents)
    }

    /** fort_conf_ref_take */
    method RefTake(ghost agent: nat) returns (conf: Option<Conf>)
      requires Safe(D()) && agent !in agents
      modifies this
      ensures Safe(D()) && D() == Next(old(D()), Take(agent)) && conf == old(ref)
      ensures ref == old(ref) && freed == old(freed) && (conf.Some? ==> conf.value in old(refcounts))
      ensures if conf.Some?
              then refcounts == old(refcounts)[conf.value := old(refcounts[conf.value]) + 1]
                   && agents == old(agents)[agent := Holding(conf.value)]
              else refcounts == old(refcounts) && agents == old(agents)
    {
      StepSafe(D(), Take(agent));
      conf := ref;
      if conf.Some? {
        assert CountOk(D(), conf.value);
        refcounts := refcounts[conf.value := refcounts[conf.value] + 1];
        agents := agents[agent := Holding(conf.value)];
      }
    }

    /** fort_conf_ref_put */
    method RefPut(conf: Conf, ghost agent: nat)
      requires Safe(D()) && agent in agents && !agents[agent].Taken? && Held(agents[agent]) == Some(conf)
      modifies this
      ensures Safe(D()) && D() == Next(old(D()), Put(agent))
      ensures conf !in old(freed) && conf in old(refcounts) && old(refcounts[conf]) > 0
      ensures ref == old(ref) && refcounts == old(refcounts)[conf := old(refcounts[conf]) - 1]
      ensures freed == old(freed) + (if old(refcounts[conf]) == 1 && ref != Some(conf) then {conf} else {})
      ensures agents == old(agents) - {agent}
    {
      StepSafe(D(), Put(agent));
      assert CountOk(D(), conf) && agent in Holders(D(), conf);
      var refcount := refcounts[conf] - 1;
      refcounts := refcounts[conf := refcount];
      if refcount == 0 && Some(conf) != ref {
        freed := freed + {conf};
      }
      agents := agents - {agent};
    }

    /** fort_conf_ref_set, up to the end of its take; its last part is a RefPut. */
    method SetBegin(next: Option<Conf>, ghost agent: nat) returns (prior: Option<Conf>)
      requires Safe(D()) && agent !in agents && (next.Some? ==> next.value !in refcounts)
      modifies this
      ensures Safe(D()) && D() == Next(old(D()), SetTake(agent, next)) && prior == old(ref)
      ensures ref == old(ref) && freed == old(freed) && (prior.Some? ==> prior.value in old(refcounts))
      ensures agents == old(agents)[agent := Taken(prior, next)]
      ensures refcounts.Keys == old(refcounts).Keys + (if next.Some? then {next.value} else {})
      ensures forall c | c in old(refcounts) ::
                refcounts[c] == old(refcounts[c]) + (if prior == Some(c) then 1 else 0)
      ensures next.Some? ==> refcounts[next.value] == 0
    {
      hide Safe;
      StepSafe(D(), SetTake(agent, next));
      CurrentCounted(D());
      if next.Some? {
        refcounts := refcounts[next.value := 0];
      }
      prior := ref;
      if prior.Some? {
        refcounts := refcounts[prior.value := refcounts[prior.value] + 1];
      }
      agents := agents[agent := Taken(prior, next)];
    }

    /** fort_conf_ref_set, the exchange. */
    method SetExchange(next: Option<Conf>, ghost agent: nat)
      requires Safe(D()) && agent in agents && agents[agent].Taken? && agents[agent].next == next
      modifies this
      ensures Safe(D()) && D() == Next(old(D()), SetSwap(agent)) && ref == next
      ensures refcounts == old(refcounts) && freed == old(freed)
      ensures match old(agents[agent]).prior
              case Some(c) => agents == old(agents)[agent := Swapped(c)]
              case None => agents == old(agents) - {agent}
    {
      StepSafe(D(), SetSwap(agent));
      ref := next;
      agents :=
        if agents[agent].prior.Some? then agents[agent := Swapped(agents[agent].prior.value)] else agents - {agent};
    }
  }
}

/**
 The three instance commands that change state: `instances snapshot`,
 `instances stop` and `instances start`. Each produces the trace of commands
 it issues to the provider. Which commands the provider rejects is a
 parameter; waiting for a state change is a command like any other.
 */
module Commands {
  import opened Ec2Model
  import Selection

  datatype Command =
    | Stop(instanceId: string)
    | WaitUntilStopped(instanceId: string)
    | CreateSnapshot(volumeId: string, description: string)
    | Start(instanceId: string)
    | WaitUntilRunning(instanceId: string)

  /** `Issued` is a command sent to the provider, `Skipped` a volume the
      pending-snapshot guard held back, `Rejected` the report that follows a
      command the provider refused. */
  datatype Event = Issued(cmd: Command) | Skipped(volumeId: string) | Rejected(cmd: Command)

  datatype Outcome = Finished | Aborted(failed: Command)

  datatype Run = Run(trace: seq<Event>, outcome: Outcome)

  /** The commands sent to the provider, in order. */
  function IssuedCommands(trace: seq<Event>): (r: seq<Command>)
    ensures |r| <= |trace|
    ensures forall c :: c in r <==> Issued(c) in trace
  {
    if |trace| == 0 then []
    else
      var rest := IssuedCommands(trace[1..]);
      assert forall e :: e in trace <==> e == trace[0] || e in trace[1..];
      (if trace[0].Issued? then [trace[0].cmd] else []) + rest
  }

  lemma {:induction false} IssuedCommandsAppend(a: seq<Event>, b: seq<Event>)
    ensures IssuedCommands(a + b) == IssuedCommands(a) + IssuedCommands(b)
  {
    if |a| == 0 {
      assert a + b == b;
    } else {
      assert (a + b)[1..] == a[1..] + b;
      IssuedCommandsAppend(a[1..], b);
    }
  }

  /** No command the trace sends is one the provider rejects. */
  predicate NoneFailing(trace: seq<Event>, failing: set<Command>)
  {
    forall k :: 0 <= k < |trace| && trace[k].Issued? ==> trace[k].cmd !in failing
  }

  // ---------------------------------------------------------------------------
  // instances snapshot
  // ---------------------------------------------------------------------------

  /** One volume: create a snapshot unless one is already pending. */
  function VolumeStep(v: Volume): Event
  {
    if Selection.HasPendingSnapshot(v) then Skipped(v.id)
    else Issued(CreateSnapshot(v.id, SnapshotDescription))
  }

  function VolumeSteps(vs: seq<Volume>): seq<Event>
  {
    seq(|vs|, k requires 0 <= k < |vs| => VolumeStep(vs[k]))
  }

  /** One instance: stop it, wait, snapshot its volumes, start it, wait. Each
      volume gets exactly one step: a skip when the guard holds, otherwise a
      create with the fixed description. */
  function InstancePlan(inst: Instance): (r: seq<Event>)
    ensures |r| == |inst.volumes| + 4
    ensures r[..2] == [Issued(Stop(inst.id)), Issued(WaitUntilStopped(inst.id))]
    ensures r[|r| - 2..] == [Issued(Start(inst.id)), Issued(WaitUntilRunning(inst.id))]
    ensures forall k :: 0 <= k < |inst.volumes| ==>
              (r[k + 2] == Skipped(inst.volumes[k].id) <==> Selection.HasPendingSnapshot(inst.volumes[k]))
    ensures forall k :: 0 <= k < |inst.volumes| ==>
              (r[k + 2] == Issued(CreateSnapshot(inst.volumes[k].id, SnapshotDescription))
               <==> !Selection.HasPendingSnapshot(inst.volumes[k]))
  {
    [Issued(Stop(inst.id)), Issued(WaitUntilStopped(inst.id))]
      + VolumeSteps(inst.volumes)
      + [Issued(Start(inst.id)), Issued(WaitUntilRunning(inst.id))]
  }

  /** Every instance in turn, each finished before the next begins. Every
      event belongs to the plan of some selected instance, and every selected
      instance's plan is part of it. */
  function SnapshotPlan(insts: seq<Instance>): (r: seq<Event>)
    ensures forall e :: e in r <==> exists k :: 0 <= k < |insts| && e in InstancePlan(insts[k])
  {
    if |insts| == 0 then []
    else
      var rest := SnapshotPlan(insts[1..]);
      assert forall k :: 0 <= k < |insts| - 1 ==> insts[1..][k] == insts[k + 1];
      InstancePlan(insts[0]) + rest
  }

  /** The volumes the guard lets through, in volume order. */
  function Unguarded(vs: seq<Volume>): (r: seq<Volume>)
    ensures |r| <= |vs|
    ensures forall v :: v in r <==> v in vs && !Selection.HasPendingSnapshot(v)
  {
    if |vs| == 0 then []
    else if Selection.HasPendingSnapshot(vs[0]) then Unguarded(vs[1..])
    else [vs[0]] + Unguarded(vs[1..])
  }

  function CreatesFor(vs: seq<Volume>): seq<Command>
  {
    seq(|vs|, k requires 0 <= k < |vs| => CreateSnapshot(vs[k].id, SnapshotDescription))
  }

  /** The volume loop creates one snapshot for each unguarded volume, in
      volume order, and nothing else. */
  lemma {:induction false} VolumeStepsIssueUnguarded(vs: seq<Volume>)
    ensures IssuedCommands(VolumeSteps(vs)) == CreatesFor(Unguarded(vs))
  {
    if |vs| > 0 {
      var v := vs[0];
      var step := VolumeStep(v);
      assert VolumeSteps(vs) == [step] + VolumeSteps(vs[1..]);
      IssuedCommandsAppend([step], VolumeSteps(vs[1..]));
      VolumeStepsIssueUnguarded(vs[1..]);
      if Selection.HasPendingSnapshot(v) {
        assert IssuedCommands([step]) == [];
      } else {
        assert IssuedCommands([step]) == [CreateSnapshot(v.id, SnapshotDescription)];
        CreatesForCons(v, Unguarded(vs[1..]));
      }
    }
  }

  lemma CreatesForCons(v: Volume, u: seq<Volume>)
    ensures CreatesFor([v] + u) == [CreateSnapshot(v.id, SnapshotDescription)] + CreatesFor(u)
  {
  }

  /** Per instance the provider sees: stop, wait until stopped, one create for
      each unguarded volume in volume order, start, wait until running. */
  lemma InstancePlanIssues(inst: Instance)
    ensures IssuedCommands(InstancePlan(inst))
         == [Stop(inst.id), WaitUntilStopped(inst.id)]
          + CreatesFor(Unguarded(inst.volumes))
          + [Start(inst.id), WaitUntilRunning(inst.id)]
  {
    var head := [Issued(Stop(inst.id)), Issued(WaitUntilStopped(inst.id))];
    var tail := [Issued(Start(inst.id)), Issued(WaitUntilRunning(inst.id))];
    var body := VolumeSteps(inst.volumes);
    IssuedCommandsAppend(head + body, tail);
    IssuedCommandsAppend(head, body);
    VolumeStepsIssueUnguarded(inst.volumes);
    assert IssuedCommands(head) == [Stop(inst.id), WaitUntilStopped(inst.id)] by {
      assert head[1..][1..] == [];
    }
    assert IssuedCommands(tail) == [Start(inst.id), WaitUntilRunning(inst.id)] by {
      assert tail[1..][1..] == [];
    }
  }

  /** A volume whose newest snapshot is pending gets no new snapshot, given
      that volume ids are distinct as the provider guarantees. */
  lemma GuardedVolumeGetsNoSnapshot(inst: Instance, j: nat, description: string)
    requires j < |inst.volumes|
    requires forall a, b :: 0 <= a < b < |inst.volumes| ==> inst.volumes[a].id != inst.volumes[b].id
    requires Selection.HasPendingSnapshot(inst.volumes[j])
    ensures CreateSnapshot(inst.volumes[j].id, description) !in IssuedCommands(InstancePlan(inst))
  {
    var vs := inst.volumes;
    var u := Unguarded(vs);
    forall k | 0 <= k < |u|
      ensures u[k].id != vs[j].id
    {
      assert u[k] in u;
      var l :| 0 <= l < |vs| && vs[l] == u[k];
      assert l != j;
    }
    var c := CreateSnapshot(vs[j].id, description);
    assert c !in CreatesFor(u);
    InstancePlanIssues(inst);
  }

  /** Snapshotting `a + b` snapshots every instance of `a` before any of `b`. */
  lemma {:induction false} SnapshotPlanAppend(a: seq<Instance>, b: seq<Instance>)
    ensures SnapshotPlan(a + b) == SnapshotPlan(a) + SnapshotPlan(b)
  {
    if |a| == 0 {
      assert a + b == b;
    } else {
      assert (a + b)[1..] == a[1..] + b;
      SnapshotPlanAppend(a[1..], b);
    }
  }

  /** Runs a plan with no error isolation: the first command the provider
      rejects ends the whole run, and nothing after it is issued. */
  function Execute(plan: seq<Event>, failing: set<Command>): (r: Run)
    ensures r.trace <= plan
    ensures r.outcome.Finished? ==> r.trace == plan
  {
    if |plan| == 0 then Run([], Finished)
    else if plan[0].Issued? && plan[0].cmd in failing then Run([plan[0]], Aborted(plan[0].cmd))
    else
      var rest := Execute(plan[1..], failing);
      Run([plan[0]] + rest.trace, rest.outcome)
  }

  /** The run finishes, having issued the whole plan, exactly when the
      provider accepts every planned command. */
  lemma {:induction false} ExecuteFinishesIffAccepted(plan: seq<Event>, failing: set<Command>)
    ensures Execute(plan, failing).outcome.Finished? <==> NoneFailing(plan, failing)
  {
    if |plan| > 0 {
      NoneFailingCons(plan, failing);
      if !(plan[0].Issued? && plan[0].cmd in failing) {
        ExecuteFinishesIffAccepted(plan[1..], failing);
        ExecuteStep(plan, failing);
      }
    }
  }

  /** An aborted run ends with the rejected command, and every command it
      issued before that one was accepted. */
  lemma {:induction false} ExecuteAbortsAtFirstRejection(plan: seq<Event>, failing: set<Command>)
    ensures var r := Execute(plan, failing);
      r.outcome.Aborted? ==>
        && |r.trace| > 0
        && r.trace[|r.trace| - 1] == Issued(r.outcome.failed)
        && r.outcome.failed in failing
        && NoneFailing(r.trace[..|r.trace| - 1], failing)
  {
    if |plan| > 0 && !(plan[0].Issued? && plan[0].cmd in failing) {
      var rest := Execute(plan[1..], failing);
      ExecuteStep(plan, failing);
      if rest.outcome.Aborted? {
        ExecuteAbortsAtFirstRejection(plan[1..], failing);
        var r := Execute(plan, failing);
        var before := rest.trace[..|rest.trace| - 1];
        assert r.trace[..|r.trace| - 1] == [plan[0]] + before;
        NoneFailingCons([plan[0]] + before, failing);
        assert ([plan[0]] + before)[1..] == before;
      }
    }
  }

  /** A trace is free of rejected commands exactly when its first event and
      the rest are. */
  lemma NoneFailingCons(t: seq<Event>, failing: set<Command>)
    requires |t| > 0
    ensures NoneFailing(t, failing) <==> !(t[0].Issued? && t[0].cmd in failing) && NoneFailing(t[1..], failing)
  {
    if !(t[0].Issued? && t[0].cmd in failing) && NoneFailing(t[1..], failing) {
      forall k | 0 <= k < |t| && t[k].Issued?
        ensures t[k].cmd !in failing
      {
        if k > 0 {
          assert t[k] == t[1..][k - 1];
        }
      }
    }
    if NoneFailing(t, failing) {
      forall k | 0 <= k < |t| - 1 && t[1..][k].Issued?
        ensures t[1..][k].cmd !in failing
      {
        assert t[1..][k] == t[k + 1];
      }
    }
  }

  /** A stretch of the plan that the provider accepts throughout is issued in
      full, and the run carries on with what follows it. */
  lemma {:induction false} ExecuteAppend(a: seq<Event>, b: seq<Event>, failing: set<Command>)
    requires NoneFailing(a, failing)
    ensures Execute(a + b, failing) == Run(a + Execute(b, failing).trace, Execute(b, failing).outcome)
  {
    var tail := Execute(b, failing);
    if |a| == 0 {
      assert a + b == b;
      assert a + tail.trace == tail.trace;
    } else {
      var ab := a + b;
      assert ab[0] == a[0] && ab[1..] == a[1..] + b;
      NoneFailingCons(a, failing);
      ExecuteAppend(a[1..], b, failing);
      ExecuteStep(ab, failing);
      assert [a[0]] + (a[1..] + tail.trace) == a + tail.trace;
    }
  }

  /** An accepted first event is issued and the run goes on with the rest. */
  lemma ExecuteStep(plan: seq<Event>, failing: set<Command>)
    requires |plan| > 0 && !(plan[0].Issued? && plan[0].cmd in failing)
    ensures Execute(plan, failing)
         == Run([plan[0]] + Execute(plan[1..], failing).trace, Execute(plan[1..], failing).outcome)
  {
  }

  /** `instances snapshot`. */
  function CreateSnapshots(p: Provider, project: Option<string>, failing: set<Command>): (r: Run)
    ensures r.trace <= SnapshotPlan(Selection.FilterInstances(p, project))
    ensures r.outcome.Finished? <==> NoneFailing(SnapshotPlan(Selection.FilterInstances(p, project)), failing)
  {
    var plan := SnapshotPlan(Selection.FilterInstances(p, project));
    ExecuteFinishesIffAccepted(plan, failing);
    Execute(plan, failing)
  }

  /** When the stop of instance `k` is the first command rejected, the batch
      ends there: instances after `k` are never stopped, snapshotted or
      started. */
  lemma AbortSkipsLaterInstances(insts: seq<Instance>, failing: set<Command>, k: nat)
    requires k < |insts|
    requires NoneFailing(SnapshotPlan(insts[..k]), failing)
    requires Stop(insts[k].id) in failing
    ensures Execute(SnapshotPlan(insts), failing)
         == Run(SnapshotPlan(insts[..k]) + [Issued(Stop(insts[k].id))], Aborted(Stop(insts[k].id)))
  {
    assert insts == insts[..k] + insts[k..];
    SnapshotPlanAppend(insts[..k], insts[k..]);
    var rest := SnapshotPlan(insts[k..]);
    assert rest == InstancePlan(insts[k]) + SnapshotPlan(insts[k + 1..]);
    assert rest[0] == Issued(Stop(insts[k].id));
    ExecuteAppend(SnapshotPlan(insts[..k]), rest, failing);
  }

  // ---------------------------------------------------------------------------
  // instances stop / instances start
  // ---------------------------------------------------------------------------

  /** Each report sits right after the command it reports, every rejected
      command is reported, and no volume is skipped. */
  predicate WellReported(trace: seq<Event>, rejected: set<Command>)
  {
    && (forall k :: 0 <= k < |trace| ==> !trace[k].Skipped?)
    && (forall k :: 0 <= k < |trace| && trace[k].Rejected? ==>
          0 < k && trace[k - 1] == Issued(trace[k].cmd) && trace[k].cmd in rejected)
    && (forall k :: 0 <= k < |trace| && trace[k].Issued? && trace[k].cmd in rejected ==>
          k + 1 < |trace| && trace[k + 1] == Rejected(trace[k].cmd))
  }

  lemma WellReportedAppend(a: seq<Event>, b: seq<Event>, rejected: set<Command>)
    requires WellReported(a, rejected) && WellReported(b, rejected)
    ensures WellReported(a + b, rejected)
  {
    var t := a + b;
    forall k | 0 <= k < |t| && t[k].Rejected?
      ensures 0 < k && t[k - 1] == Issued(t[k].cmd) && t[k].cmd in rejected
    {
      if k >= |a| {
        assert t[k] == b[k - |a|];
        assert b[k - |a|].Rejected?;
        assert t[k - 1] == b[k - |a| - 1];
      } else {
        assert t[k] == a[k];
      }
    }
    forall k | 0 <= k < |t| && t[k].Issued? && t[k].cmd in rejected
      ensures k + 1 < |t| && t[k + 1] == Rejected(t[k].cmd)
    {
      if k >= |a| {
        assert t[k] == b[k - |a|];
      } else {
        assert t[k] == a[k];
        assert t[k + 1] == a[k + 1];
      }
    }
  }

  /** One attempt: the command, then its report if the provider rejects it. */
  function Attempt(c: Command, rejected: set<Command>): (trace: seq<Event>)
    ensures IssuedCommands(trace) == [c]
    ensures WellReported(trace, rejected)
  {
    if c in rejected then
      var t := [Issued(c), Rejected(c)];
      assert t[1..][1..] == [];
      t
    else [Issued(c)]
  }

  /** Issues every command once, in order; a rejected command is reported
      right after it and the loop goes on with the next one. */
  function Isolated(cmds: seq<Command>, rejected: set<Command>): (trace: seq<Event>)
    ensures IssuedCommands(trace) == cmds
    ensures WellReported(trace, rejected)
  {
    if |cmds| == 0 then []
    else
      var first := Attempt(cmds[0], rejected);
      var rest := Isolated(cmds[1..], rejected);
      IssuedCommandsAppend(first, rest);
      WellReportedAppend(first, rest, rejected);
      assert cmds == [cmds[0]] + cmds[1..];
      first + rest
  }

  function StopCommands(insts: seq<Instance>): seq<Command>
  {
    seq(|insts|, k requires 0 <= k < |insts| => Stop(insts[k].id))
  }

  function StartCommands(insts: seq<Instance>): seq<Command>
  {
    seq(|insts|, k requires 0 <= k < |insts| => Start(insts[k].id))
  }

  /** `instances stop`: every selected instance is asked to stop exactly once,
      in order, whatever the provider rejects; exactly the rejected stops are
      reported. */
  function StopInstances(p: Provider, project: Option<string>, rejected: set<Command>): (trace: seq<Event>)
    ensures var insts := Selection.FilterInstances(p, project);
      && |IssuedCommands(trace)| == |insts|
      && forall k :: 0 <= k < |insts| ==> IssuedCommands(trace)[k] == Stop(insts[k].id)
    ensures forall c :: Rejected(c) in trace <==> c in rejected && Issued(c) in trace
  {
    var trace := Isolated(StopCommands(Selection.FilterInstances(p, project)), rejected);
    IsolatedReportsExactlyRejections(trace, rejected);
    trace
  }

  /** `instances start`: the same as `instances stop` with start commands. */
  function StartInstances(p: Provider, project: Option<string>, rejected: set<Command>): (trace: seq<Event>)
    ensures var insts := Selection.FilterInstances(p, project);
      && |IssuedCommands(trace)| == |insts|
      && forall k :: 0 <= k < |insts| ==> IssuedCommands(trace)[k] == Start(insts[k].id)
    ensures forall c :: Rejected(c) in trace <==> c in rejected && Issued(c) in trace
  {
    var trace := Isolated(StartCommands(Selection.FilterInstances(p, project)), rejected);
    IsolatedReportsExactlyRejections(trace, rejected);
    trace
  }

  /** Reads the adjacency facts of an isolated trace as membership. */
  lemma IsolatedReportsExactlyRejections(trace: seq<Event>, rejected: set<Command>)
    requires WellReported(trace, rejected)
    ensures forall c :: Rejected(c) in trace <==> c in rejected && Issued(c) in trace
  {
    forall c ensures Rejected(c) in trace <==> c in rejected && Issued(c) in trace {
      if Rejected(c) in trace {
        var k :| 0 <= k < |trace| && trace[k] == Rejected(c);
        assert trace[k - 1] == Issued(c);
      }
      if c in rejected && Issued(c) in trace {
        var k :| 0 <= k < |trace| && trace[k] == Issued(c);
        assert trace[k + 1] == Rejected(c);
      }
    }
  }

  // ---------------------------------------------------------------------------
  // Scenarios
  // ---------------------------------------------------------------------------

  /** Two instances, the first rejected by the provider: the second is still
      asked to stop. */
  lemma StopRejectionScenario()
    ensures Isolated([Stop("i-a"), Stop("i-b")], {Stop("i-a")})
         == [Issued(Stop("i-a")), Rejected(Stop("i-a")), Issued(Stop("i-b"))]
  {
    assert [Stop("i-a"), Stop("i-b")][1..] == [Stop("i-b")];
    assert Stop("i-b") != Stop("i-a");
  }

  /** One instance with two volumes, the first with a pending snapshot: it is
      stopped, only the second volume is snapshotted, and it is started again. */
  lemma SnapshotScenario()
    ensures
      var pending := Volume("vol-1", "in-use", 8, false, [Snapshot("snap-1", Pending, "10%")]);
      var idle := Volume("vol-2", "in-use", 8, true, []);
      var inst := Instance("i-a", "t2.micro", "us-east-1a", "running", "", None, [pending, idle]);
      Execute(InstancePlan(inst), {})
      == Run([Issued(Stop("i-a")), Issued(WaitUntilStopped("i-a")),
             Skipped("vol-1"), Issued(CreateSnapshot("vol-2", SnapshotDescription)),
             Issued(Start("i-a")), Issued(WaitUntilRunning("i-a"))], Finished)
  {
    var pending := Volume("vol-1", "in-use", 8, false, [Snapshot("snap-1", Pending, "10%")]);
    var idle := Volume("vol-2", "in-use", 8, true, []);
    var inst := Instance("i-a", "t2.micro", "us-east-1a", "running", "", None, [pending, idle]);
    var plan := InstancePlan(inst);
    assert VolumeSteps(inst.volumes) == [Skipped("vol-1"), Issued(CreateSnapshot("vol-2", SnapshotDescription))];
    assert NoneFailing(plan, {});
    ExecuteFinishesIffAccepted(plan, {});
  }
}

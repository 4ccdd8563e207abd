/**
 The two decision rules every shotty command builds on: which instances a
 `--project` option selects, and whether a volume already has a snapshot in
 progress.
 */
module Selection {
  import opened Ec2Model

  /** The option counts as given only when it is present and non-empty:
      `None` and `""` are both false in the source's `if project:` test. */
  predicate IsGiven(project: Option<string>)
  {
    project.Some? && project.value != ""
  }

  /** The provider's `tag:Project` filter: some tag says `Project=name`. */
  predicate Tagged(inst: Instance, name: string)
  {
    var ts := TagList(inst.tags);
    exists j :: 0 <= j < |ts| && ts[j].key == ProjectKey && ts[j].value == name
  }

  /** The instances of `insts` tagged `Project=name`, in their original order. */
  function KeepTagged(insts: seq<Instance>, name: string): (r: seq<Instance>)
    ensures |r| <= |insts|
    ensures forall x :: x in r <==> x in insts && Tagged(x, name)
  {
    if |insts| == 0 then []
    else if Tagged(insts[0], name) then [insts[0]] + KeepTagged(insts[1..], name)
    else KeepTagged(insts[1..], name)
  }

  /** Selecting from a concatenation selects from each part and keeps the parts
      in order; with the one-element case this pins down provider order. */
  lemma {:induction false} KeepTaggedAppend(a: seq<Instance>, b: seq<Instance>, name: string)
    ensures KeepTagged(a + b, name) == KeepTagged(a, name) + KeepTagged(b, name)
  {
    if |a| == 0 {
      assert a + b == b;
    } else {
      assert (a + b)[1..] == a[1..] + b;
      KeepTaggedAppend(a[1..], b, name);
    }
  }

  /** A single instance is kept exactly when it is tagged. */
  lemma KeepTaggedSingle(x: Instance, name: string)
    ensures KeepTagged([x], name) == (if Tagged(x, name) then [x] else [])
  {
    assert [x][1..] == [];
  }

  /** Selection of the instances a command works on. */
  function FilterInstances(p: Provider, project: Option<string>): (r: seq<Instance>)
    ensures !IsGiven(project) ==> r == p.instances
    ensures IsGiven(project) ==>
      forall x :: x in r <==> x in p.instances && Tagged(x, project.value)
    ensures |r| <= |p.instances|
  {
    if IsGiven(project) then KeepTagged(p.instances, project.value) else p.instances
  }

  /** Selecting again with the same project selects nothing new and drops
      nothing: the selected instances are all tagged. */
  lemma {:induction false} KeepTaggedIdempotent(insts: seq<Instance>, name: string)
    ensures KeepTagged(KeepTagged(insts, name), name) == KeepTagged(insts, name)
  {
    if |insts| > 0 {
      KeepTaggedIdempotent(insts[1..], name);
      if Tagged(insts[0], name) {
        var rest := KeepTagged(insts[1..], name);
        assert ([insts[0]] + rest)[1..] == rest;
      }
    }
  }

  /** The pending-snapshot guard: the volume has a newest snapshot and it is
      still pending. An older pending snapshot does not count. */
  function HasPendingSnapshot(v: Volume): (r: bool)
    ensures r <==> |v.snapshots| > 0 && v.snapshots[0].state == Pending
    ensures r ==> exists k :: 0 <= k < |v.snapshots| && v.snapshots[k].state == Pending
  {
    if |v.snapshots| == 0 then false else v.snapshots[0].state == Pending
  }

  /** A volume without snapshots never needs the guard. */
  lemma NoSnapshotsNoGuard(v: Volume)
    requires |v.snapshots| == 0
    ensures !HasPendingSnapshot(v)
  {
  }

  /** The guard reads the newest snapshot only: two volumes whose newest
      snapshots agree on state (or that both have none) get the same answer,
      whatever their older snapshots are. */
  lemma GuardReadsOnlyNewest(v: Volume, w: Volume)
    requires |v.snapshots| == 0 <==> |w.snapshots| == 0
    requires |v.snapshots| > 0 ==> v.snapshots[0].state == w.snapshots[0].state
    ensures HasPendingSnapshot(v) == HasPendingSnapshot(w)
  {
  }
}

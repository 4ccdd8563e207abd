/**
 The three listing commands. Each produces one record per line the command
 would print; the text formatting of those lines is not modelled.
 */
module Listing {
  import opened Ec2Model
  import Selection

  datatype SnapshotRow = SnapshotRow(
    snapshotId: string,
    volumeId: string,
    instanceId: string,
    state: SnapshotState,
    progress: string)

  datatype VolumeRow = VolumeRow(
    volumeId: string,
    instanceId: string,
    state: string,
    size: nat,
    encrypted: bool)

  datatype InstanceRow = InstanceRow(
    instanceId: string,
    instanceType: string,
    availabilityZone: string,
    state: string,
    publicDnsName: string,
    project: string)

  // ---------------------------------------------------------------------------
  // Snapshot listing
  // ---------------------------------------------------------------------------

  function RowOf(inst: Instance, v: Volume, s: Snapshot): SnapshotRow
  {
    SnapshotRow(s.id, v.id, inst.id, s.state, s.progress)
  }

  /** One row per snapshot of `snaps`, in order. */
  function Rows(inst: Instance, v: Volume, snaps: seq<Snapshot>): seq<SnapshotRow>
  {
    seq(|snaps|, k requires 0 <= k < |snaps| => RowOf(inst, v, snaps[k]))
  }

  /** The snapshots of one volume that the listing shows. Without `listAll`
      the listing ends right after the first completed snapshot; if there is
      none it shows them all. */
  function Truncated(snaps: seq<Snapshot>, listAll: bool): (r: seq<Snapshot>)
    ensures r <= snaps
    ensures listAll ==> r == snaps
    ensures |snaps| > 0 ==> |r| > 0
    ensures !listAll ==> forall k :: 0 <= k < |r| - 1 ==> r[k].state != Completed
    ensures |r| < |snaps| ==> r[|r| - 1].state == Completed
  {
    if listAll || |snaps| == 0 then snaps
    else if snaps[0].state == Completed then [snaps[0]]
    else [snaps[0]] + Truncated(snaps[1..], listAll)
  }

  /** Without a completed snapshot the listing shows every snapshot. */
  lemma NoCompletedShowsAll(snaps: seq<Snapshot>, listAll: bool)
    requires forall k :: 0 <= k < |snaps| ==> snaps[k].state != Completed
    ensures Truncated(snaps, listAll) == snaps
  {
  }

  /** Without `listAll`, the listing is the shortest prefix that ends at the
      first completed snapshot. */
  lemma FirstCompletedEndsListing(snaps: seq<Snapshot>, k: nat)
    requires k < |snaps| && snaps[k].state == Completed
    requires forall m :: 0 <= m < k ==> snaps[m].state != Completed
    ensures Truncated(snaps, false) == snaps[..k + 1]
  {
  }

  /** The innermost loop of the snapshot listing, `break` included. */
  method ListVolumeSnapshots(inst: Instance, v: Volume, listAll: bool)
    returns (rows: seq<SnapshotRow>)
    ensures rows == Rows(inst, v, Truncated(v.snapshots, listAll))
  {
    rows := [];
    var k := 0;
    while k < |v.snapshots|
      invariant 0 <= k <= |v.snapshots|
      invariant rows == Rows(inst, v, v.snapshots[..k])
      invariant !listAll ==> forall m :: 0 <= m < k ==> v.snapshots[m].state != Completed
    {
      var s := v.snapshots[k];
      rows := rows + [RowOf(inst, v, s)];
      assert rows == Rows(inst, v, v.snapshots[..k + 1]);
      if !listAll && s.state == Completed {
        FirstCompletedEndsListing(v.snapshots, k);
        break;
      }
      k := k + 1;
    }
    if k == |v.snapshots| {
      assert v.snapshots[..k] == v.snapshots;
      if !listAll {
        NoCompletedShowsAll(v.snapshots, listAll);
      }
    }
  }

  /** The rows for the volumes `vs` of `inst`, volume after volume. */
  function VolumesSnapshotRows(inst: Instance, vs: seq<Volume>, listAll: bool): seq<SnapshotRow>
  {
    if |vs| == 0 then []
    else
      var v := vs[|vs| - 1];
      VolumesSnapshotRows(inst, vs[..|vs| - 1], listAll)
        + Rows(inst, v, Truncated(v.snapshots, listAll))
  }

  /** The whole snapshot listing for the instances `insts`, instance after
      instance. */
  function SnapshotListing(insts: seq<Instance>, listAll: bool): seq<SnapshotRow>
  {
    if |insts| == 0 then []
    else
      var inst := insts[|insts| - 1];
      SnapshotListing(insts[..|insts| - 1], listAll)
        + VolumesSnapshotRows(inst, inst.volumes, listAll)
  }

  /** The volume loop of the snapshot listing for one instance. */
  method ListInstanceSnapshots(inst: Instance, listAll: bool) returns (rows: seq<SnapshotRow>)
    ensures rows == VolumesSnapshotRows(inst, inst.volumes, listAll)
  {
    rows := [];
    var j := 0;
    while j < |inst.volumes|
      invariant 0 <= j <= |inst.volumes|
      invariant rows == VolumesSnapshotRows(inst, inst.volumes[..j], listAll)
    {
      var vrows := ListVolumeSnapshots(inst, inst.volumes[j], listAll);
      assert inst.volumes[..j + 1][..j] == inst.volumes[..j];
      rows := rows + vrows;
      j := j + 1;
    }
    assert inst.volumes[..j] == inst.volumes;
  }

  /** `snapshots list`: the nested loops over instances, volumes and
      snapshots. */
  method ListSnapshots(p: Provider, project: Option<string>, listAll: bool)
    returns (rows: seq<SnapshotRow>)
    ensures rows == SnapshotListing(Selection.FilterInstances(p, project), listAll)
  {
    var insts := Selection.FilterInstances(p, project);
    rows := [];
    var i := 0;
    while i < |insts|
      invariant 0 <= i <= |insts|
      invariant rows == SnapshotListing(insts[..i], listAll)
    {
      var irows := ListInstanceSnapshots(insts[i], listAll);
      assert insts[..i + 1][..i] == insts[..i];
      rows := rows + irows;
      i := i + 1;
    }
    assert insts[..i] == insts;
  }

  /** Listing the volumes `a + b` lists `a`'s volumes and then `b`'s: how one
      volume is truncated never affects the rows of the volumes after it. */
  lemma {:induction false} VolumesSnapshotRowsAppend(inst: Instance, a: seq<Volume>, b: seq<Volume>, listAll: bool)
    ensures VolumesSnapshotRows(inst, a + b, listAll)
         == VolumesSnapshotRows(inst, a, listAll) + VolumesSnapshotRows(inst, b, listAll)
  {
    if |b| == 0 {
      assert a + b == a;
    } else {
      var n := |b| - 1;
      assert (a + b)[..|a + b| - 1] == a + b[..n];
      assert (a + b)[|a + b| - 1] == b[n];
      VolumesSnapshotRowsAppend(inst, a, b[..n], listAll);
    }
  }

  /** Listing the instances `a + b` lists `a`'s snapshots and then `b`'s. */
  lemma {:induction false} SnapshotListingAppend(a: seq<Instance>, b: seq<Instance>, listAll: bool)
    ensures SnapshotListing(a + b, listAll) == SnapshotListing(a, listAll) + SnapshotListing(b, listAll)
  {
    if |b| == 0 {
      assert a + b == a;
    } else {
      var n := |b| - 1;
      var last := VolumesSnapshotRows(b[n], b[n].volumes, listAll);
      assert (a + b)[..|a + b| - 1] == a + b[..n];
      assert (a + b)[|a + b| - 1] == b[n];
      assert SnapshotListing(a + b, listAll) == SnapshotListing(a + b[..n], listAll) + last;
      SnapshotListingAppend(a, b[..n], listAll);
      assert SnapshotListing(b, listAll) == SnapshotListing(b[..n], listAll) + last;
    }
  }

  /** The rows shown for volume `j` of `inst` are among the instance's rows. */
  lemma VolumeRowsInInstanceRows(inst: Instance, listAll: bool, j: nat)
    requires j < |inst.volumes|
    ensures var v := inst.volumes[j];
      forall r :: r in Rows(inst, v, Truncated(v.snapshots, listAll)) ==> r in VolumesSnapshotRows(inst, inst.volumes, listAll)
  {
    var vs := inst.volumes;
    var v := vs[j];
    assert vs == vs[..j] + [v] + vs[j + 1..];
    VolumesSnapshotRowsAppend(inst, vs[..j] + [v], vs[j + 1..], listAll);
    VolumesSnapshotRowsAppend(inst, vs[..j], [v], listAll);
    assert [v][..0] == [];
  }

  /** The rows of instance `k` are all in the listing. */
  lemma InstanceRowsListed(insts: seq<Instance>, listAll: bool, k: nat)
    requires k < |insts|
    ensures forall r :: r in VolumesSnapshotRows(insts[k], insts[k].volumes, listAll) ==> r in SnapshotListing(insts, listAll)
  {
    var inst := insts[k];
    assert insts == insts[..k] + [inst] + insts[k + 1..];
    SnapshotListingAppend(insts[..k] + [inst], insts[k + 1..], listAll);
    SnapshotListingAppend(insts[..k], [inst], listAll);
    assert [inst][..0] == [];
  }

  /** The rows shown for volume `j` of instance `k` are all in the listing. */
  lemma VolumeRowsListed(insts: seq<Instance>, listAll: bool, k: nat, j: nat)
    requires k < |insts| && j < |insts[k].volumes|
    ensures forall r :: r in Rows(insts[k], insts[k].volumes[j], Truncated(insts[k].volumes[j].snapshots, listAll))
                ==> r in SnapshotListing(insts, listAll)
  {
    VolumeRowsInInstanceRows(insts[k], listAll, j);
    InstanceRowsListed(insts, listAll, k);
  }

  /** With `--all` every snapshot of every volume of every selected instance is
      listed. */
  lemma EverySnapshotListedWithAll(insts: seq<Instance>, k: nat, j: nat, m: nat)
    requires k < |insts| && j < |insts[k].volumes| && m < |insts[k].volumes[j].snapshots|
    ensures RowOf(insts[k], insts[k].volumes[j], insts[k].volumes[j].snapshots[m])
            in SnapshotListing(insts, true)
  {
    VolumeRowsListed(insts, true, k, j);
    var v := insts[k].volumes[j];
    assert Rows(insts[k], v, Truncated(v.snapshots, true))[m] == RowOf(insts[k], v, v.snapshots[m]);
  }

  /** In either mode the newest snapshot of every volume is listed, so no
      volume that has snapshots is left without a row. */
  lemma NewestSnapshotAlwaysListed(insts: seq<Instance>, listAll: bool, k: nat, j: nat)
    requires k < |insts| && j < |insts[k].volumes| && |insts[k].volumes[j].snapshots| > 0
    ensures RowOf(insts[k], insts[k].volumes[j], insts[k].volumes[j].snapshots[0])
            in SnapshotListing(insts, listAll)
  {
    VolumeRowsListed(insts, listAll, k, j);
    var v := insts[k].volumes[j];
    var shown := Truncated(v.snapshots, listAll);
    assert shown[0] == v.snapshots[0];
    assert Rows(insts[k], v, shown)[0] == RowOf(insts[k], v, v.snapshots[0]);
  }

  /** Every listed row is the row of a shown snapshot of some volume of some
      instance: the listing invents nothing. */
  lemma {:induction false} ListedRowsAreShownSnapshots(insts: seq<Instance>, listAll: bool, r: SnapshotRow)
    requires r in SnapshotListing(insts, listAll)
    ensures exists k, j :: 0 <= k < |insts| && 0 <= j < |insts[k].volumes|
              && r in Rows(insts[k], insts[k].volumes[j], Truncated(insts[k].volumes[j].snapshots, listAll))
  {
    var n := |insts| - 1;
    var inst := insts[n];
    if r in SnapshotListing(insts[..n], listAll) {
      ListedRowsAreShownSnapshots(insts[..n], listAll, r);
      var k, j :| 0 <= k < n && 0 <= j < |insts[..n][k].volumes|
        && r in Rows(insts[..n][k], insts[..n][k].volumes[j], Truncated(insts[..n][k].volumes[j].snapshots, listAll));
      assert insts[..n][k] == insts[k];
    } else {
      var j := VolumeOfRow(inst, inst.volumes, listAll, r);
      assert insts[n] == inst;
    }
  }

  /** The index of a volume of `vs` whose shown rows contain `r`. */
  lemma {:induction false} VolumeOfRow(inst: Instance, vs: seq<Volume>, listAll: bool, r: SnapshotRow)
    returns (j: nat)
    requires r in VolumesSnapshotRows(inst, vs, listAll)
    ensures j < |vs| && r in Rows(inst, vs[j], Truncated(vs[j].snapshots, listAll))
  {
    var n := |vs| - 1;
    if r in VolumesSnapshotRows(inst, vs[..n], listAll) {
      j := VolumeOfRow(inst, vs[..n], listAll, r);
      assert vs[..n][j] == vs[j];
    } else {
      j := n;
    }
  }

  // ---------------------------------------------------------------------------
  // Volume listing
  // ---------------------------------------------------------------------------

  function VolumeRowOf(inst: Instance, v: Volume): VolumeRow
  {
    VolumeRow(v.id, inst.id, v.state, v.size, v.encrypted)
  }

  /** `volumes list`: one row per attached volume, instance after instance. */
  function VolumeListing(insts: seq<Instance>): (rows: seq<VolumeRow>)
    ensures forall r :: r in rows ==>
      exists k, j :: 0 <= k < |insts| && 0 <= j < |insts[k].volumes| && r == VolumeRowOf(insts[k], insts[k].volumes[j])
  {
    if |insts| == 0 then []
    else
      var n := |insts| - 1;
      var inst := insts[n];
      var front := VolumeListing(insts[..n]);
      var own := seq(|inst.volumes|, j requires 0 <= j < |inst.volumes| => VolumeRowOf(inst, inst.volumes[j]));
      assert forall r :: r in front ==>
        exists k, j :: 0 <= k < n && 0 <= j < |insts[k].volumes| && r == VolumeRowOf(insts[k], insts[k].volumes[j]) by {
        forall r | r in front
          ensures exists k, j :: 0 <= k < n && 0 <= j < |insts[k].volumes| && r == VolumeRowOf(insts[k], insts[k].volumes[j])
        {
          var k, j :| 0 <= k < n && 0 <= j < |insts[..n][k].volumes| && r == VolumeRowOf(insts[..n][k], insts[..n][k].volumes[j]);
          assert insts[..n][k] == insts[k];
        }
      }
      front + own
  }

  /** `volumes list --project`: the volume listing of the selected instances.
      Every row is the row of a volume of a selected instance, and every
      volume of a selected instance has its row. */
  function VolumesList(p: Provider, project: Option<string>): (rows: seq<VolumeRow>)
    ensures forall r :: r in rows ==>
      exists inst, j :: inst in Selection.FilterInstances(p, project) && 0 <= j < |inst.volumes|
                        && r == VolumeRowOf(inst, inst.volumes[j])
    ensures forall inst, j :: inst in Selection.FilterInstances(p, project) && 0 <= j < |inst.volumes|
              ==> VolumeRowOf(inst, inst.volumes[j]) in rows
  {
    var insts := Selection.FilterInstances(p, project);
    var rows := VolumeListing(insts);
    assert forall inst, j :: inst in insts && 0 <= j < |inst.volumes| ==> VolumeRowOf(inst, inst.volumes[j]) in rows by {
      forall inst, j | inst in insts && 0 <= j < |inst.volumes|
        ensures VolumeRowOf(inst, inst.volumes[j]) in rows
      {
        var k :| 0 <= k < |insts| && insts[k] == inst;
        EveryVolumeListed(insts, k, j);
      }
    }
    rows
  }

  /** Every volume of every selected instance has its row in the listing. */
  lemma {:induction false} EveryVolumeListed(insts: seq<Instance>, k: nat, j: nat)
    requires k < |insts| && j < |insts[k].volumes|
    ensures VolumeRowOf(insts[k], insts[k].volumes[j]) in VolumeListing(insts)
  {
    var n := |insts| - 1;
    if k < n {
      EveryVolumeListed(insts[..n], k, j);
      assert insts[..n][k] == insts[k];
    } else {
      var inst := insts[n];
      var own := seq(|inst.volumes|, i requires 0 <= i < |inst.volumes| => VolumeRowOf(inst, inst.volumes[i]));
      assert own[j] == VolumeRowOf(inst, inst.volumes[j]);
    }
  }

  /** The number of rows is the number of attached volumes. */
  lemma {:induction false} VolumeListingLength(insts: seq<Instance>)
    ensures |VolumeListing(insts)| == VolumeCount(insts)
  {
    if |insts| > 0 {
      var n := |insts| - 1;
      VolumeListingLength(insts[..n]);
      VolumeCountAppend(insts[..n], [insts[n]]);
      assert insts[..n] + [insts[n]] == insts;
      assert [insts[n]][1..] == [];
    }
  }

  /** How many volumes the instances have altogether. */
  function VolumeCount(insts: seq<Instance>): nat
  {
    if |insts| == 0 then 0 else |insts[0].volumes| + VolumeCount(insts[1..])
  }

  lemma {:induction false} VolumeCountAppend(a: seq<Instance>, b: seq<Instance>)
    ensures VolumeCount(a + b) == VolumeCount(a) + VolumeCount(b)
  {
    if |a| == 0 {
      assert a + b == b;
    } else {
      assert (a + b)[1..] == a[1..] + b;
      VolumeCountAppend(a[1..], b);
    }
  }

  // ---------------------------------------------------------------------------
  // Instance listing
  // ---------------------------------------------------------------------------

  /** The dictionary built from a tag list: each key maps to the value of its
      last occurrence, as later entries overwrite earlier ones. */
  function TagMap(ts: seq<Tag>): (m: map<string, string>)
    ensures forall key :: key in m <==> HasKey(ts, key)
    ensures forall j :: 0 <= j < |ts| && IsLastOfKey(ts, j) ==> ts[j].key in m && m[ts[j].key] == ts[j].value
  {
    if |ts| == 0 then map[]
    else
      var n := |ts| - 1;
      var front := TagMap(ts[..n]);
      HasKeySplit(ts);
      LastOfKeySplit(ts);
      front[ts[n].key := ts[n].value]
  }

  /** A key occurs in `ts` exactly when it occurs before the last tag or in it. */
  lemma HasKeySplit(ts: seq<Tag>)
    requires |ts| > 0
    ensures forall key :: HasKey(ts, key) <==> HasKey(ts[..|ts| - 1], key) || ts[|ts| - 1].key == key
  {
    var n := |ts| - 1;
    forall key ensures HasKey(ts, key) ==> HasKey(ts[..n], key) || ts[n].key == key {
      if HasKey(ts, key) && ts[n].key != key {
        var j :| 0 <= j < |ts| && ts[j].key == key;
        assert ts[..n][j] == ts[j];
      }
    }
    forall key ensures HasKey(ts[..n], key) ==> HasKey(ts, key) {
      if HasKey(ts[..n], key) {
        var j :| 0 <= j < n && ts[..n][j].key == key;
        assert ts[j] == ts[..n][j];
      }
    }
  }

  /** A last occurrence before the final tag is also a last occurrence in the
      shorter list. */
  lemma LastOfKeySplit(ts: seq<Tag>)
    requires |ts| > 0
    ensures forall j :: 0 <= j < |ts| - 1 && IsLastOfKey(ts, j) ==>
              ts[..|ts| - 1][j] == ts[j] && IsLastOfKey(ts[..|ts| - 1], j) && ts[j].key != ts[|ts| - 1].key
  {
  }

  /** The project column of the instance listing: the value of the `Project`
      tag, the last one if the key repeats, or `<no project>`. */
  function ProjectColumn(tags: Option<seq<Tag>>): (r: string)
    ensures !HasKey(TagList(tags), ProjectKey) ==> r == NoProject
    ensures forall j ::
              (0 <= j < |TagList(tags)| && TagList(tags)[j].key == ProjectKey && IsLastOfKey(TagList(tags), j))
              ==> r == TagList(tags)[j].value
  {
    var m := TagMap(TagList(tags));
    if ProjectKey in m then m[ProjectKey] else NoProject
  }

  /** A missing tag list shows the same column as an empty one. */
  lemma MissingTagsShowNoProject()
    ensures ProjectColumn(None) == ProjectColumn(Some([])) == NoProject
  {
  }

  /** An instance that has a `Project` tag shows one of its `Project` values,
      never the placeholder unless that is the tag's value. */
  lemma {:induction false} TaggedInstanceShowsATagValue(tags: Option<seq<Tag>>)
    requires HasKey(TagList(tags), ProjectKey)
    ensures exists j :: 0 <= j < |TagList(tags)| && TagList(tags)[j].key == ProjectKey
              && ProjectColumn(tags) == TagList(tags)[j].value
  {
    LastOfKeyExists(TagList(tags), ProjectKey);
  }

  /** An instance selected by `--project name` shows `name` in its project
      column, given the provider's guarantee that tag keys are unique. */
  lemma SelectedInstanceShowsItsProject(p: Provider, project: Option<string>, inst: Instance)
    requires Selection.IsGiven(project)
    requires inst in Selection.FilterInstances(p, project)
    requires UniqueKeys(TagList(inst.tags))
    ensures ProjectColumn(inst.tags) == project.value
  {
    var ts := TagList(inst.tags);
    var j :| 0 <= j < |ts| && ts[j].key == ProjectKey && ts[j].value == project.value;
    assert IsLastOfKey(ts, j);
  }

  function InstanceRowOf(inst: Instance): InstanceRow
  {
    InstanceRow(inst.id, inst.instanceType, inst.availabilityZone, inst.state,
                inst.publicDnsName, ProjectColumn(inst.tags))
  }

  /** `instances list`: one row per selected instance, in selection order. */
  function InstanceListing(p: Provider, project: Option<string>): (rows: seq<InstanceRow>)
    ensures |rows| == |Selection.FilterInstances(p, project)|
    ensures forall row :: row in rows <==>
              exists inst :: inst in Selection.FilterInstances(p, project) && row == InstanceRowOf(inst)
  {
    var insts := Selection.FilterInstances(p, project);
    var rows := seq(|insts|, k requires 0 <= k < |insts| => InstanceRowOf(insts[k]));
    assert forall inst :: inst in insts ==> InstanceRowOf(inst) in rows by {
      forall inst | inst in insts
        ensures InstanceRowOf(inst) in rows
      {
        var k :| 0 <= k < |insts| && insts[k] == inst;
        assert rows[k] == InstanceRowOf(inst);
      }
    }
    rows
  }

  /** With `--project name`, and tag keys unique as the provider guarantees,
      every row of `instances list` shows `name` in its project column: the
      selection and the column agree. */
  lemma ProjectListingShowsProject(p: Provider, project: Option<string>)
    requires Selection.IsGiven(project)
    requires forall inst :: inst in p.instances ==> UniqueKeys(TagList(inst.tags))
    ensures forall row :: row in InstanceListing(p, project) ==> row.project == project.value
  {
    forall row | row in InstanceListing(p, project)
      ensures row.project == project.value
    {
      var inst :| inst in Selection.FilterInstances(p, project) && row == InstanceRowOf(inst);
      SelectedInstanceShowsItsProject(p, project, inst);
    }
  }
}

/**
 An in-memory picture of the EC2 data the shotty command line reads: instances
 with their tags and attached volumes, and each volume's snapshots as the
 provider lists them (newest first). The model holds no connection or session;
 a `Provider` value is passed explicitly to every operation.
 */
module Ec2Model {

  datatype Option<+T> = None | Some(value: T)

  /** The five states EC2 reports for a snapshot. */
  datatype SnapshotState = Pending | Completed | Error | Recoverable | Recovering

  /** One key/value pair of an instance's tag list. */
  datatype Tag = Tag(key: string, value: string)

  datatype Snapshot = Snapshot(id: string, state: SnapshotState, progress: string)

  /** `snapshots` is in provider order, most recent first. */
  datatype Volume = Volume(
    id: string,
    state: string,
    size: nat,
    encrypted: bool,
    snapshots: seq<Snapshot>)

  /** `tags` is `None` when the provider reports no tag list at all. */
  datatype Instance = Instance(
    id: string,
    instanceType: string,
    availabilityZone: string,
    state: string,
    publicDnsName: string,
    tags: Option<seq<Tag>>,
    volumes: seq<Volume>)

  /** The provider's current view of all instances, in enumeration order. */
  datatype Provider = Provider(instances: seq<Instance>)

  /** The tag key that scopes instances to a project. */
  const ProjectKey: string := "Project"

  /** What the instance listing shows when an instance has no project tag. */
  const NoProject: string := "<no project>"

  /** The description every snapshot created by the snapshot command carries. */
  const SnapshotDescription: string := "Created by SnapshotAlizer 30000"

  /** A missing tag list reads as an empty one. */
  function TagList(tags: Option<seq<Tag>>): seq<Tag>
  {
    match tags
    case Some(ts) => ts
    case None => []
  }

  /** Some tag in `ts` has key `key`. */
  predicate HasKey(ts: seq<Tag>, key: string)
  {
    exists j :: 0 <= j < |ts| && ts[j].key == key
  }

  /** No later tag of `ts` repeats the key of `ts[j]`. */
  predicate IsLastOfKey(ts: seq<Tag>, j: int)
    requires 0 <= j < |ts|
  {
    forall l :: j < l < |ts| ==> ts[l].key != ts[j].key
  }

  /** Every key occurs at most once, as EC2 itself guarantees for tags. */
  predicate UniqueKeys(ts: seq<Tag>)
  {
    forall j, l :: 0 <= j < l < |ts| ==> ts[j].key != ts[l].key
  }

  /** Every key that occurs in a tag list has a last occurrence. */
  lemma {:induction false} LastOfKeyExists(ts: seq<Tag>, key: string)
    requires HasKey(ts, key)
    ensures exists j :: 0 <= j < |ts| && ts[j].key == key && IsLastOfKey(ts, j)
  {
    var n := |ts| - 1;
    if ts[n].key == key {
      assert IsLastOfKey(ts, n);
    } else {
      var front := ts[..n];
      var w :| 0 <= w < |ts| && ts[w].key == key;
      assert front[w].key == key;
      LastOfKeyExists(front, key);
      var j :| 0 <= j < |front| && front[j].key == key && IsLastOfKey(front, j);
      assert ts[j] == front[j];
      assert IsLastOfKey(ts, j);
    }
  }
}

# shotty: selection, listing and command-trace model

`shotty` is a small command-line tool that lists and manipulates AWS EC2
instances, volumes and snapshots, optionally scoped to instances tagged
`Project=<name>`, and that automates a stop / snapshot / start backup pass.
This project models the tool's decision rules over an immutable, in-memory
picture of the provider's data and proves what those rules guarantee.

- `ec2_model.dfy` (module `Ec2Model`): instances (id, type, zone, state, DNS
  name, an optional tag list, ordered volumes), volumes (id, state, size,
  encryption flag, snapshots newest first), snapshots (id, one of EC2's five
  snapshot states, progress) and a `Provider` value holding the instances in
  enumeration order. The provider is passed explicitly instead of living in a
  module-level session.
- `selection.dfy` (module `Selection`): the `--project` selection and the
  pending-snapshot guard.
- `listing.dfy` (module `Listing`): `snapshots list` (with and without
  `--all`), `volumes list` and `instances list`, each as a sequence of row
  records instead of printed lines. The per-volume snapshot loop, `break`
  included, is a method verified against a functional definition.
- `commands.dfy` (module `Commands`): `instances snapshot`, `instances stop`
  and `instances start` as traces of the commands sent to the provider.
  Which commands the provider rejects is a parameter (a set of commands).
  The snapshot command runs its plan with no error isolation: the first
  rejected command ends the whole batch. Stop and start report a rejected
  command and carry on with the next instance.

Decisions the code settles:

- The code branches on the project option's truthiness (`if project:`), so both a
  missing option and an empty string select every instance. The model uses
  `Option<string>` and treats `Some("")` like `None`.
- Selection uses the provider's tag filter: an instance is kept when some tag
  is `Project=<name>`. The listing's project column instead reads a dictionary
  built from the tag list, so with a repeated `Project` key the last value
  wins. When tag keys are unique, as EC2 guarantees, the two agree
  (`Listing.SelectedInstanceShowsItsProject`).
- A missing tag list (`i.tags` is `None`) reads as an empty one.
- Unlike stop and start, the snapshot command does not isolate per-instance
  failures: a rejected command aborts the remaining batch. The model keeps
  that asymmetry (`Commands.AbortSkipsLaterInstances`).

## Model

| member | source | states |
|---|---|---|
| Selection.KeepTagged | shotty/shotty.py:11-13 | the kept instances are exactly those carrying the tag `Project=<name>`, and there are never more of them than instances |
| Selection.KeepTaggedAppend | shotty/shotty.py:11-13 | selecting from `a + b` is selecting from `a` followed by selecting from `b`, so the provider's order is kept |
| Selection.KeepTaggedSingle | shotty/shotty.py:11-13 | one instance is kept exactly when it is tagged; with the concatenation law this fixes the selection of every sequence |
| Selection.KeepTaggedIdempotent | shotty/shotty.py:11-13 | selecting the selected instances again changes nothing |
| Selection.FilterInstances | shotty/shotty.py:8-17 | with no project (missing or empty) every instance is returned unchanged; with a project, an instance is returned exactly when it carries the tag `Project=<name>` |
| Selection.HasPendingSnapshot | shotty/shotty.py:19-21 | the guard holds exactly when the volume has a newest snapshot and that snapshot is pending; it then has some pending snapshot |
| Selection.NoSnapshotsNoGuard | shotty/shotty.py:19-21 | a volume with no snapshots never counts as having a pending snapshot |
| Selection.GuardReadsOnlyNewest | shotty/shotty.py:20-21 | the guard depends only on whether there is a newest snapshot and on its state; older snapshots never change the answer |
| Listing.Truncated | shotty/shotty.py:40-50 | the snapshots shown for a volume are a prefix of its snapshots; with `--all` they are all of them; without it no snapshot before the last shown is completed, and the listing stops early only right after a completed one; it is never empty when the volume has snapshots |
| Listing.NoCompletedShowsAll | shotty/shotty.py:40-50 | a volume with no completed snapshot has all its snapshots listed |
| Listing.FirstCompletedEndsListing | shotty/shotty.py:50 | without `--all`, the listing of a volume ends exactly at its first completed snapshot, that snapshot included |
| Listing.ListVolumeSnapshots | shotty/shotty.py:40-50 | the loop with its `break` emits exactly the rows of the truncated snapshot sequence |
| Listing.ListInstanceSnapshots | shotty/shotty.py:39-50 | the volume loop for one instance emits the rows of each volume's shown snapshots, volume after volume |
| Listing.ListSnapshots | shotty/shotty.py:36-51 | the nested loops over selected instances, their volumes and their snapshots emit the functional snapshot listing |
| Listing.VolumesSnapshotRowsAppend | shotty/shotty.py:39-50 | the rows for volumes `a + b` are the rows for `a` followed by the rows for `b`: the `break` in one volume never drops rows of later volumes |
| Listing.SnapshotListingAppend | shotty/shotty.py:38-50 | the listing for instances `a + b` is the listing for `a` followed by the listing for `b` |
| Listing.VolumeRowsListed | shotty/shotty.py:38-50 | every row shown for any volume of any selected instance appears in the full listing |
| Listing.EverySnapshotListedWithAll | shotty/shotty.py:34-50 | with `--all` every snapshot of every volume of every selected instance has its row in the listing |
| Listing.NewestSnapshotAlwaysListed | shotty/shotty.py:40-50 | in either mode the newest snapshot of every volume that has one is listed |
| Listing.ListedRowsAreShownSnapshots | shotty/shotty.py:38-48 | every listed row belongs to the shown snapshots of some volume of some selected instance |
| Listing.VolumeListing | shotty/shotty.py:62-70 | every row of the volume listing of a sequence of instances describes some volume of one of those instances |
| Listing.VolumesList | shotty/shotty.py:60-70 | `volumes list` shows a row for exactly the volumes of the instances the project selects: every row is such a volume, and every such volume has its row |
| Listing.EveryVolumeListed | shotty/shotty.py:62-70 | every volume of every selected instance has its row in the volume listing |
| Listing.VolumeListingLength | shotty/shotty.py:62-70 | the volume listing has one row per attached volume |
| Listing.TagMap | shotty/shotty.py:106 | the dictionary built from a tag list has exactly the keys that occur in it, each mapped to the value of its last occurrence |
| Listing.ProjectColumn | shotty/shotty.py:106-113 | the project column is the value of the last `Project` tag, or `<no project>` when there is none |
| Listing.MissingTagsShowNoProject | shotty/shotty.py:106 | a missing tag list shows the same column as an empty one, `<no project>` |
| Listing.TaggedInstanceShowsATagValue | shotty/shotty.py:106-113 | an instance with a `Project` tag shows the value of one of its `Project` tags |
| Listing.SelectedInstanceShowsItsProject | shotty/shotty.py:103-113 | an instance selected by `--project name` shows `name` in the project column when its tag keys are unique |
| Listing.InstanceListing | shotty/shotty.py:103-113 | `instances list` has one row per selected instance, and its rows are exactly the rows of the selected instances |
| Listing.ProjectListingShowsProject | shotty/shotty.py:103-113 | with `--project name` and unique tag keys, every row of `instances list` shows `name` in its project column |
| Commands.VolumeStepsIssueUnguarded | shotty/shotty.py:88-94 | the volume loop sends one create-snapshot, with the fixed description, for each volume the guard lets through, in volume order, and no other command |
| Commands.InstancePlan | shotty/shotty.py:83-98 | per instance: stop and wait first, start and wait last, and between them one step per volume in order, a skip exactly when the guard holds and otherwise a create with the fixed description |
| Commands.InstancePlanIssues | shotty/shotty.py:83-98 | per instance the provider receives stop, wait-until-stopped, the creates for the unguarded volumes, start and wait-until-running, in that order |
| Commands.GuardedVolumeGetsNoSnapshot | shotty/shotty.py:88-91 | a volume whose newest snapshot is pending receives no create-snapshot |
| Commands.SnapshotPlanAppend | shotty/shotty.py:83-98 | snapshotting instances `a + b` processes every instance of `a` completely before any of `b` |
| Commands.SnapshotPlan | shotty/shotty.py:83-98 | every event of the batch plan belongs to the plan of some selected instance, and every event of every selected instance's plan is in the batch plan |
| Commands.Execute | shotty/shotty.py:83-98 | the run's trace is a prefix of the plan, and a finished run has issued the whole plan |
| Commands.ExecuteFinishesIffAccepted | shotty/shotty.py:83-98 | the run finishes exactly when the provider accepts every planned command |
| Commands.ExecuteAbortsAtFirstRejection | shotty/shotty.py:83-98 | an aborted run ends with the rejected command, and every command issued before it was accepted: nothing after the first rejection is issued |
| Commands.ExecuteAppend | shotty/shotty.py:83-98 | a part of the plan the provider accepts throughout is issued in full and the run continues with the rest |
| Commands.CreateSnapshots | shotty/shotty.py:80-99 | the snapshot command issues a prefix of the plan for the selected instances and finishes exactly when the provider rejects none of its commands |
| Commands.AbortSkipsLaterInstances | shotty/shotty.py:83-86 | when the stop of instance `k` is the first rejected command, the trace is the plan for the earlier instances plus that stop, and later instances get no command |
| Commands.Attempt | shotty/shotty.py:122-126 | one attempt issues its command once and reports it right after exactly when the provider rejects it |
| Commands.Isolated | shotty/shotty.py:120-127 | every command is issued exactly once in order whatever is rejected; each rejection is reported right after its command and every rejected command is reported |
| Commands.StopInstances | shotty/shotty.py:118-128 | one stop per selected instance, in selection order, regardless of rejections; exactly the rejected stops are reported |
| Commands.StartInstances | shotty/shotty.py:132-142 | one start per selected instance, in selection order, regardless of rejections; exactly the rejected starts are reported |
| Commands.StopRejectionScenario | shotty/shotty.py:120-126 | when the first of two instances is rejected, the second is still asked to stop |
| Commands.SnapshotScenario | shotty/shotty.py:83-98 | an instance whose first volume has a pending snapshot is stopped, only its second volume is snapshotted, and it is started again |

## Left out

- The boto3 session, the `shotty` profile and the module-level `ec2` resource: replaced by an explicit `Provider` value.
- The click groups, commands, options and the `__main__` entry, and the packaging metadata in `setup.py`: argument parsing and packaging only.
- Output formatting: the comma-joined lines, the `GiB` suffix, the encryption wording and the locale-dependent `strftime('%c')` start time. Rows are records, and snapshot start times are not part of the model.
- The progress messages printed by the commands (`Stopping ...`, `Creating snapshot ...`); the trace events carry the same information.
- Blocking waits: `wait_until_stopped` and `wait_until_running` are trace commands; their polling and timeouts are the provider's.
- Error details: a rejection is membership of the command in a set; the `ClientError` message text is not modelled. Provider read errors, which end any command, are not modelled.
- The provider's tag filter is modelled as exact equality; EC2 filter values also accept `*` and `?` wildcards, which the model does not.
- The race between the guard check and the snapshot creation: the model reads one consistent picture of the provider per command.
- Commands.SnapshotPlan: every guard reads the picture from before the command, so snapshots this run created are invisible to later guards. A volume attached to two selected instances (EBS Multi-Attach) gets a create for each attachment in the model. The source's second guard instead reads the snapshot created for the first attachment, and skips the volume while that snapshot is still pending. Whether it is still pending depends on timing, which the model does not represent.
- Commands.StopInstances / Commands.StartInstances: only `ClientError` rejections are modelled. Any other exception from `stop()` or `start()` leaves the loop in the source. Examples are a connection error, missing credentials or a read timeout. Later instances are then never attempted. The rejected set expresses only the caught case.
- Commands.GuardedVolumeGetsNoSnapshot: assumes volume ids are distinct within an instance, as EC2 guarantees, because the trace identifies volumes by id.
- Listing.SelectedInstanceShowsItsProject: assumes tag keys are unique, as EC2 guarantees; with a repeated `Project` key the filter and the column may disagree.

/** The persisted snapshot: the store flattened section by section, then
    task by task (saveTasksToLocalStorage). */
module Persistence {
  import opened Tasks

  /** The records of one section's tasks, in task order. */
  function Records(name: string, ts: seq<Task>): (r: seq<Record>)
    ensures |r| == |ts|
    ensures forall j :: 0 <= j < |ts| ==> r[j] == ToRecord(name, ts[j])
  {
    if ts == [] then []
    else Records(name, ts[..|ts| - 1]) + [ToRecord(name, ts[|ts| - 1])]
  }

  /** The records of every section, in section order. */
  function Snapshot(secs: seq<Section>): seq<Record>
  {
    if secs == [] then []
    else
      var last := secs[|secs| - 1];
      Snapshot(secs[..|secs| - 1]) + Records(last.name, last.tasks)
  }

  /** One more task adds its record at the end. */
  lemma {:induction false} RecordsSnoc(name: string, ts: seq<Task>, t: Task)
    ensures Records(name, ts + [t]) == Records(name, ts) + [ToRecord(name, t)]
  {
    assert (ts + [t])[..|ts|] == ts;
  }

  /** One more section adds its records at the end. */
  lemma {:induction false} SnapshotSnoc(secs: seq<Section>, s: Section)
    ensures Snapshot(secs + [s]) == Snapshot(secs) + Records(s.name, s.tasks)
  {
    assert (secs + [s])[..|secs|] == secs;
  }

  /** The snapshot of a store split in two is the two snapshots joined. */
  lemma {:induction false} SnapshotAppend(a: seq<Section>, b: seq<Section>)
    ensures Snapshot(a + b) == Snapshot(a) + Snapshot(b)
  {
    if b != [] {
      var b0 := b[..|b| - 1];
      assert (a + b)[..|a + b| - 1] == a + b0;
      SnapshotAppend(a, b0);
    } else {
      assert a + b == a;
    }
  }

  /** Section `k`'s records sit, in order, between those of the sections
      before it and those of the sections after it. */
  lemma {:induction false} SnapshotAround(secs: seq<Section>, k: nat)
    requires k < |secs|
    ensures Snapshot(secs) ==
            Snapshot(secs[..k]) + Records(secs[k].name, secs[k].tasks) + Snapshot(secs[k + 1..])
  {
    var front := secs[..k + 1];
    assert front[..k] == secs[..k];
    assert Snapshot(front) == Snapshot(secs[..k]) + Records(secs[k].name, secs[k].tasks);
    assert secs == front + secs[k + 1..];
    SnapshotAppend(front, secs[k + 1..]);
  }

  /** The nested forEach of saveTasksToLocalStorage: visit the sections in
      order and, inside each, its tasks in order, pushing one record per
      task. */
  method SaveRecords(secs: seq<Section>) returns (all: seq<Record>)
    ensures all == Snapshot(secs)
  {
    all := [];
    var si := 0;
    while si < |secs|
      invariant 0 <= si <= |secs|
      invariant all == Snapshot(secs[..si])
    {
      var sec := secs[si];
      var ti := 0;
      while ti < |sec.tasks|
        invariant 0 <= ti <= |sec.tasks|
        invariant all == Snapshot(secs[..si]) + Records(sec.name, sec.tasks[..ti])
      {
        assert sec.tasks[..ti + 1][..ti] == sec.tasks[..ti];
        all := all + [ToRecord(sec.name, sec.tasks[ti])];
        ti := ti + 1;
      }
      assert sec.tasks[..ti] == sec.tasks;
      assert secs[..si + 1][..si] == secs[..si];
      si := si + 1;
    }
    assert secs[..si] == secs;
  }

  /** The snapshot with its last record's completed flag cleared. */
  function ClearLast(rs: seq<Record>): (r: seq<Record>)
    requires rs != []
    ensures |r| == |rs| && r[..|rs| - 1] == rs[..|rs| - 1]
    ensures r[|rs| - 1] == rs[|rs| - 1].(completed := false)
  {
    rs[..|rs| - 1] + [rs[|rs| - 1].(completed := false)]
  }
}

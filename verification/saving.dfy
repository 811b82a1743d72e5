/** What the save after a delete or a toggle writes, compared with the
    snapshot saved before it. */
module Saving {
  import opened Tasks
  import opened Persistence
  import opened Store

  /** Removing from the middle part of three joined sequences. */
  lemma {:induction false} RemoveFromMiddle<T>(x: seq<T>, y: seq<T>, z: seq<T>, i: nat)
    requires i < |y|
    ensures RemoveAt(x + y + z, |x| + i) == x + RemoveAt(y, i) + z
  {
  }

  lemma {:induction false} RecordsRemoveAt(name: string, ts: seq<Task>, i: nat)
    requires i < |ts|
    ensures Records(name, RemoveAt(ts, i)) == RemoveAt(Records(name, ts), i)
  {
  }

  /** The snapshot of a store with section `a` replaced. */
  lemma {:induction false} SnapshotReplace(secs: seq<Section>, a: nat, s: Section)
    requires a < |secs|
    ensures Snapshot(secs[a := s]) == Snapshot(secs[..a]) + Records(s.name, s.tasks) + Snapshot(secs[a + 1..])
  {
    var r := secs[a := s];
    SnapshotAround(r, a);
    assert r[..a] == secs[..a] && r[a + 1..] == secs[a + 1..];
  }

  /** The snapshot of a store with section `a` dropped. */
  lemma {:induction false} SnapshotDrop(secs: seq<Section>, a: nat)
    requires a < |secs|
    ensures Snapshot(secs[..a] + secs[a + 1..]) == Snapshot(secs[..a]) + Snapshot(secs[a + 1..])
  {
    SnapshotAppend(secs[..a], secs[a + 1..]);
  }

  /** The snapshot after a delete, around the section that lost a task. */
  lemma {:induction false} DeleteSnapshotAround(secs: seq<Section>, p: Pos)
    requires ValidPos(secs, p)
    ensures var sec := secs[p.section];
            Snapshot(DeleteAt(secs, p)) ==
            Snapshot(secs[..p.section]) + RemoveAt(Records(sec.name, sec.tasks), p.index) + Snapshot(secs[p.section + 1..])
  {
    var a, i := p.section, p.index;
    var sec := secs[a];
    var rest := RemoveAt(sec.tasks, i);
    RecordsRemoveAt(sec.name, sec.tasks, i);
    if rest == [] {
      assert DeleteAt(secs, p) == secs[..a] + secs[a + 1..];
      SnapshotDrop(secs, a);
    } else {
      assert DeleteAt(secs, p) == secs[a := Section(sec.name, rest)];
      SnapshotReplace(secs, a, Section(sec.name, rest));
    }
  }

  /** What gets saved after a delete is the old snapshot without exactly
      the deleted task's record. */
  lemma {:induction false} DeleteSnapshot(secs: seq<Section>, p: Pos)
    requires ValidPos(secs, p)
    ensures FlatIndex(secs, p) < |Snapshot(secs)|
    ensures Snapshot(DeleteAt(secs, p)) == RemoveAt(Snapshot(secs), FlatIndex(secs, p))
  {
    var a, i := p.section, p.index;
    var x, y, z := Snapshot(secs[..a]), Records(secs[a].name, secs[a].tasks), Snapshot(secs[a + 1..]);
    var s := Snapshot(secs);
    SnapshotAround(secs, a);
    assert s == x + y + z;
    RemoveFromMiddle(x, y, z, i);
    assert RemoveAt(s, |x| + i) == x + RemoveAt(y, i) + z;
    DeleteSnapshotAround(secs, p);
  }

  /** Flipping the flag of a record in the middle part of three joined
      sequences. */
  lemma {:induction false} FlipMiddle(x: seq<Record>, y: seq<Record>, z: seq<Record>, i: nat)
    requires i < |y|
    ensures var s := x + y + z;
            var k := |x| + i;
            k < |s| && s[k := s[k].(completed := !s[k].completed)] ==
            x + y[i := y[i].(completed := !y[i].completed)] + z
  {
  }

  lemma {:induction false} RecordsFlip(name: string, ts: seq<Task>, i: nat)
    requires i < |ts|
    ensures var rs := Records(name, ts);
            Records(name, ts[i := ts[i].(completed := !ts[i].completed)]) ==
            rs[i := rs[i].(completed := !rs[i].completed)]
  {
  }

  /** The snapshot after a toggle, around the section holding the task. */
  lemma {:induction false} ToggleSnapshotAround(secs: seq<Section>, p: Pos)
    requires ValidPos(secs, p)
    ensures var recs := Records(secs[p.section].name, secs[p.section].tasks);
            Snapshot(Toggle(secs, p)) ==
            Snapshot(secs[..p.section]) + recs[p.index := recs[p.index].(completed := !recs[p.index].completed)]
              + Snapshot(secs[p.section + 1..])
  {
    var a, i := p.section, p.index;
    var sec := secs[a];
    var flipped := sec.tasks[i := sec.tasks[i].(completed := !sec.tasks[i].completed)];
    assert Toggle(secs, p) == secs[a := Section(sec.name, flipped)];
    SnapshotReplace(secs, a, Section(sec.name, flipped));
    RecordsFlip(sec.name, sec.tasks, i);
  }

  /** What gets saved after a toggle is the old snapshot with the flag of
      exactly that task's record flipped. */
  lemma {:induction false} ToggleSnapshot(secs: seq<Section>, p: Pos)
    requires ValidPos(secs, p)
    ensures var s := Snapshot(secs);
            var k := FlatIndex(secs, p);
            k < |s| && Snapshot(Toggle(secs, p)) == s[k := s[k].(completed := !s[k].completed)]
  {
    var a, i := p.section, p.index;
    var x, y, z := Snapshot(secs[..a]), Records(secs[a].name, secs[a].tasks), Snapshot(secs[a + 1..]);
    var s := Snapshot(secs);
    SnapshotAround(secs, a);
    assert s == x + y + z;
    FlipMiddle(x, y, z, i);
    assert s[|x| + i := s[|x| + i].(completed := !s[|x| + i].completed)] ==
           x + y[i := y[i].(completed := !y[i].completed)] + z;
    ToggleSnapshotAround(secs, p);
  }
}

/** Priority-sorted insertion of a task into a section (insertTaskSorted). */
module Insertion {
  import opened Tasks

  /** Non-increasing rank from front to back. */
  ghost predicate Sorted(ts: seq<Task>)
  {
    forall i, j :: 0 <= i < j < |ts| ==> Rank(ts[i].priority) >= Rank(ts[j].priority)
  }

  /** Index of the first task whose rank is strictly lower than `p`'s, or
      the length when there is none. */
  function InsertPos(ts: seq<Task>, p: Priority): (k: nat)
    ensures k <= |ts|
    ensures forall j :: 0 <= j < k ==> Rank(ts[j].priority) >= Rank(p)
    ensures k < |ts| ==> Rank(ts[k].priority) < Rank(p)
  {
    if ts == [] then 0
    else if Rank(p) > Rank(ts[0].priority) then 0
    else 1 + InsertPos(ts[1..], p)
  }

  /** The first-strictly-lower index is the only index with that property. */
  lemma {:induction false} InsertPosUnique(ts: seq<Task>, p: Priority, k: nat)
    requires k <= |ts|
    requires forall j :: 0 <= j < k ==> Rank(ts[j].priority) >= Rank(p)
    requires k < |ts| ==> Rank(ts[k].priority) < Rank(p)
    ensures k == InsertPos(ts, p)
  {
  }

  /** The section's tasks after `t` is put before the first task of strictly
      lower rank, or at the end. */
  function Insert(ts: seq<Task>, t: Task): (r: seq<Task>)
    ensures |r| == |ts| + 1
    ensures multiset(r) == multiset(ts) + multiset{t}
  {
    var k := InsertPos(ts, t.priority);
    assert ts == ts[..k] + ts[k..];
    ts[..k] + [t] + ts[k..]
  }

  /** Where the new task lands and what happens to the others: `t` sits at
      InsertPos, the tasks before it are the old ones before it, and the
      tasks after it are the old ones after it, shifted by one. */
  lemma {:induction false} InsertShape(ts: seq<Task>, t: Task, x: nat)
    requires x < |ts| + 1
    ensures var k := InsertPos(ts, t.priority);
            Insert(ts, t)[x] == (if x < k then ts[x] else if x == k then t else ts[x - 1])
  {
  }

  /** Stability: removing the new task from the result gives back the old
      list, in its old order. */
  lemma {:induction false} InsertStable(ts: seq<Task>, t: Task)
    ensures var k := InsertPos(ts, t.priority);
            var r := Insert(ts, t);
            r[k] == t && r[..k] + r[k + 1..] == ts
  {
    var k := InsertPos(ts, t.priority);
    var r := Insert(ts, t);
    assert r[..k] == ts[..k];
    assert r[k + 1..] == ts[k..];
  }

  /** In a sorted section, the new task lands after every task of rank at
      least its own (equal ranks included: ties keep insertion order) and
      before every task of strictly lower rank. */
  lemma {:induction false} InsertAfterNotLower(ts: seq<Task>, t: Task)
    requires Sorted(ts)
    ensures forall j :: 0 <= j < |ts| ==>
              (Rank(ts[j].priority) >= Rank(t.priority) <==> j < InsertPos(ts, t.priority))
  {
  }

  /** Insertion keeps a section sorted. */
  lemma {:induction false} InsertKeepsSorted(ts: seq<Task>, t: Task)
    requires Sorted(ts)
    ensures Sorted(Insert(ts, t))
  {
    var k := InsertPos(ts, t.priority);
    var r := Insert(ts, t);
    forall i, j | 0 <= i < j < |r|
      ensures Rank(r[i].priority) >= Rank(r[j].priority)
    {
      InsertShape(ts, t, i);
      InsertShape(ts, t, j);
      if i == k {
        assert Rank(ts[j - 1].priority) < Rank(t.priority) by {
          assert Rank(ts[k].priority) < Rank(t.priority);
          if j - 1 > k {
            assert Rank(ts[k].priority) >= Rank(ts[j - 1].priority);
          }
        }
      } else if j == k {
        assert Rank(ts[i].priority) >= Rank(t.priority);
      }
    }
  }

  /** A task whose rank is no higher than any already in the section is
      appended: it becomes the section's last task. */
  lemma {:induction false} InsertAppendsLowest(ts: seq<Task>, t: Task)
    requires forall j :: 0 <= j < |ts| ==> Rank(ts[j].priority) >= Rank(t.priority)
    ensures Insert(ts, t) == ts + [t]
  {
    InsertPosUnique(ts, t.priority, |ts|);
  }

  /** The scan of insertTaskSorted: walk the existing tasks with an
      `inserted` flag and put `t` before the first one of strictly lower
      rank; append it when no such task was met. */
  method InsertTaskSorted(ts: seq<Task>, t: Task) returns (r: seq<Task>)
    ensures r == Insert(ts, t)
  {
    var inserted := false;
    var at: nat := |ts|;
    var i := 0;
    while i < |ts|
      invariant 0 <= i <= |ts|
      invariant inserted ==> at < i && at < |ts| && Rank(ts[at].priority) < Rank(t.priority)
      invariant forall j :: 0 <= j < (if inserted then at else i) ==> Rank(ts[j].priority) >= Rank(t.priority)
      invariant !inserted ==> at == |ts|
    {
      if Rank(t.priority) > Rank(ts[i].priority) && !inserted {
        at := i;
        inserted := true;
      }
      i := i + 1;
    }
    InsertPosUnique(ts, t.priority, at);
    r := ts[..at] + [t] + ts[at..];
  }
}

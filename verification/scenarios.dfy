/** The to-do list's worked example, on concrete tasks: three adds to the
    "Home" section, a toggle, and three deletes. */
module Scenarios {
  import opened Tasks
  import opened Insertion
  import opened Store

  const BuyMilk := Task(0, "Buy milk", High, false)
  const CallBob := Task(1, "Call Bob", Low, false)
  const FixBug := Task(2, "Fix bug", Medium, false)

  /** Call Bob, of the lowest priority, goes after Buy milk. */
  lemma {:induction false} AddCallBob()
    ensures AddToStore(AddToStore([], "Home", BuyMilk), "Home", CallBob)
            == [Section("Home", [BuyMilk, CallBob])]
  {
    var s1 := [Section("Home", [BuyMilk])];
    assert AddToStore([], "Home", BuyMilk) == s1;
    assert SectionIndex(s1, "Home") == Some(0);
    InsertAppendsLowest([BuyMilk], CallBob);
    assert [BuyMilk] + [CallBob] == [BuyMilk, CallBob];
  }

  /** Fix bug (Medium) goes between Buy milk (High) and Call Bob (Low). */
  lemma {:induction false} InsertFixBug()
    ensures Insert([BuyMilk, CallBob], FixBug) == [BuyMilk, FixBug, CallBob]
  {
    var ts := [BuyMilk, CallBob];
    InsertPosUnique(ts, Medium, 1);
    assert ts[..1] == [BuyMilk] && ts[1..] == [CallBob];
  }

  /** Adding Buy milk (High), Call Bob (Low) and Fix bug (Medium) to
      "Home" orders the section High, Medium, Low. */
  lemma {:induction false} AddScenario()
    ensures AddToStore(AddToStore(AddToStore([], "Home", BuyMilk), "Home", CallBob), "Home", FixBug)
            == [Section("Home", [BuyMilk, FixBug, CallBob])]
  {
    AddCallBob();
    var s2 := [Section("Home", [BuyMilk, CallBob])];
    assert SectionIndex(s2, "Home") == Some(0);
    assert AddToStore(s2, "Home", FixBug) == [Section("Home", Insert([BuyMilk, CallBob], FixBug))];
    InsertFixBug();
  }

  /** Toggling Fix bug sets its flag and leaves the order and the other
      tasks as they were. */
  lemma {:induction false} ToggleScenario()
    ensures Toggle([Section("Home", [BuyMilk, FixBug, CallBob])], Pos(0, 1))
            == [Section("Home", [BuyMilk, FixBug.(completed := true), CallBob])]
  {
    var ts := [BuyMilk, FixBug, CallBob];
    assert ts[1 := ts[1].(completed := true)] == [BuyMilk, FixBug.(completed := true), CallBob];
  }

  /** Deleting Buy milk, Fix bug and Call Bob, in that order, removes the
      "Home" section. */
  lemma {:induction false} DeleteScenario()
    ensures var s1 := DeleteAt([Section("Home", [BuyMilk, FixBug, CallBob])], Pos(0, 0));
            ValidPos(s1, Pos(0, 0)) && var s2 := DeleteAt(s1, Pos(0, 0));
            ValidPos(s2, Pos(0, 0)) && DeleteAt(s2, Pos(0, 0)) == []
  {
    assert RemoveAt([BuyMilk, FixBug, CallBob], 0) == [FixBug, CallBob];
    var s1 := DeleteAt([Section("Home", [BuyMilk, FixBug, CallBob])], Pos(0, 0));
    assert s1 == [Section("Home", [FixBug, CallBob])];
    assert RemoveAt([FixBug, CallBob], 0) == [CallBob];
    var s2 := DeleteAt(s1, Pos(0, 0));
    assert s2 == [Section("Home", [CallBob])];
  }
}

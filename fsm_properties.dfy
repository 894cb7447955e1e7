/** Properties of the engine model that relate several operations: the
    invariant every operation keeps, undo and redo each restoring the history
    and state the other left, and what the stale overrides left by
    clearHistory and changeState can and cannot do. */
module FsmProperties {
  import opened FsmSpec

  /** Under the invariant the current state is a key of the configuration, so
      the transition-table lookup that trigger performs is always defined. */
  lemma StateHasTransitionTable(c: Config, m: Snapshot)
    requires WellFormed(c) && Inv(c, m)
    ensures m.state in c.table
    ensures |m.history| > 0 ==> m.state == m.history[FindActive(m.history)].name
  {
  }

  /** A successful trigger keeps the invariant (a failed one changes nothing). */
  lemma TriggerKeepsInv(c: Config, m: Snapshot, e: string)
    requires WellFormed(c) && Inv(c, m)
    ensures m.state in c.table
    ensures Trigger(c, m, e).Ok? ==> Inv(c, Trigger(c, m, e).value)
  {
  }

  /** A successful undo keeps every recorded name declared and the invariant. */
  lemma UndoKeepsInv(c: Config, m: Snapshot)
    requires Inv(c, m)
    ensures Undo(m).Some? ==> Inv(c, Undo(m).value)
  {
  }

  /** A successful redo keeps every recorded name declared and the invariant. */
  lemma RedoKeepsInv(c: Config, m: Snapshot)
    requires Inv(c, m)
    ensures Redo(m).Some? ==> Inv(c, Redo(m).value)
  {
  }

  /** redo right after a successful undo returns to the entry undo left: the
      history and the state are as before the undo. */
  lemma UndoThenRedo(m: Snapshot)
    requires Consistent(m) && Undo(m).Some?
    ensures Redo(Undo(m).value).Some?
    ensures var n := Redo(Undo(m).value).value;
            n.history == m.history && n.state == m.state
            && n.prevStateIndex == UndoTarget(m) && n.nextStateIndex == -1
  {
  }

  /** undo right after a successful redo returns to the entry redo left. */
  lemma RedoThenUndo(m: Snapshot)
    requires Consistent(m) && Redo(m).Some?
    ensures Undo(Redo(m).value).Some?
    ensures var n := Undo(Redo(m).value).value;
            n.history == m.history && n.state == m.state
            && n.nextStateIndex == RedoTarget(m) && n.prevStateIndex == -1
  {
  }

  /** undo right after a changeState goes back to the entry that was active
      before it, wherever that entry is: the history is the old one followed
      by an inactive record of the new state. */
  lemma ChangeStateThenUndo(c: Config, m: Snapshot, s: string)
    requires Consistent(m) && |m.history| > 0 && s in c.order
    ensures var n := ChangeState(c, m, s).value;
            Undo(n).Some?
            && Undo(n).value.state == m.state
            && Undo(n).value.history == m.history + [Entry(s, false)]
            && Undo(n).value.nextStateIndex == |m.history|
  {
  }

  /** From state A, changeState(B), undo and redo: the undo comes back to A and
      the redo to B, with the history of the changeState restored. */
  lemma UndoRedoRoundTrip(c: Config, m: Snapshot, b: string)
    requires Consistent(m) && |m.history| > 0 && b in c.order
    ensures var n := ChangeState(c, m, b).value;
            Undo(n).Some? && Undo(n).value.state == m.state
            && Redo(Undo(n).value).Some?
            && Redo(Undo(n).value).value == n.(nextStateIndex := -1)
  {
  }

  /** Right after a changeState the new entry is the last one, so redo cannot
      move: a next-override left over from before is never followed. */
  lemma NoRedoAfterChangeState(c: Config, m: Snapshot, s: string)
    requires s in c.order
    ensures Redo(ChangeState(c, m, s).value).None?
  {
  }

  /** changeState on an empty history (after clearHistory) records a single
      active entry and clears the previous-override, whatever was stale. */
  lemma ChangeStateAfterClear(c: Config, m: Snapshot, s: string)
    requires s in c.order
    ensures var n := ChangeState(c, ClearHistory(m), s).value;
            n.history == [Entry(s, true)] && n.prevStateIndex == -1 && Undo(n).None?
  {
  }

  /** changeState does not discard the entries after the active one, and redo
      can later step into them. From [a, b, c] with c active and the
      previous-override at b: undo to b, changeState(d) giving [a, b, c, d],
      undo to b, undo to a, redo to b, and a second redo lands on the old entry
      c, not on the newer d. */
  lemma RedoReachesEntryBeforeChangeState(cfg: Config, a: string, b: string, c: string, d: string)
    requires d in cfg.order
    ensures var m := Snapshot(c, [Entry(a, false), Entry(b, false), Entry(c, true)], 1, -1);
            Consistent(m)
            && var s1 := Undo(m).value;
            var s2 := ChangeState(cfg, s1, d).value;
            var s3 := Undo(s2).value;
            var s4 := Undo(s3).value;
            var s5 := Redo(s4).value;
            var s6 := Redo(s5).value;
            s2.history == [Entry(a, false), Entry(b, false), Entry(c, false), Entry(d, true)]
            && s5.state == b
            && s6 == Snapshot(c, [Entry(a, false), Entry(b, false), Entry(c, true), Entry(d, false)], 1, -1)
  {
    var m := Snapshot(c, [Entry(a, false), Entry(b, false), Entry(c, true)], 1, -1);
    FindActiveOnly(m.history, 2);
    var s1 := Snapshot(b, [Entry(a, false), Entry(b, true), Entry(c, false)], -1, 2);
    MoveToIs(m, 1, -1, 2, s1);
    assert Undo(m) == Some(s1);

    FindActiveOnly(s1.history, 1);
    assert Deactivate(s1.history) == [Entry(a, false), Entry(b, false), Entry(c, false)];
    var s2 := Snapshot(d, [Entry(a, false), Entry(b, false), Entry(c, false), Entry(d, true)], 1, 2);
    assert Deactivate(s1.history) + [Entry(d, true)] == s2.history;
    assert ChangeState(cfg, s1, d) == Ok(s2);

    FindActiveOnly(s2.history, 3);
    var s3 := Snapshot(b, [Entry(a, false), Entry(b, true), Entry(c, false), Entry(d, false)], -1, 3);
    MoveToIs(s2, 1, -1, 3, s3);
    assert Undo(s2) == Some(s3);

    FindActiveOnly(s3.history, 1);
    var s4 := Snapshot(a, [Entry(a, true), Entry(b, false), Entry(c, false), Entry(d, false)], -1, 1);
    MoveToIs(s3, 0, -1, 1, s4);
    assert Undo(s3) == Some(s4);

    FindActiveOnly(s4.history, 0);
    var s5 := Snapshot(b, [Entry(a, false), Entry(b, true), Entry(c, false), Entry(d, false)], 0, -1);
    MoveToIs(s4, 1, 0, -1, s5);
    assert Redo(s4) == Some(s5);

    FindActiveOnly(s5.history, 1);
    var s6 := Snapshot(c, [Entry(a, false), Entry(b, false), Entry(c, true), Entry(d, false)], 1, -1);
    MoveToIs(s5, 2, 1, -1, s6);
    assert Redo(s5) == Some(s6);
  }

  /** MoveTo gives the snapshot whose history has the same names with only
      entry `t` active. */
  lemma MoveToIs(m: Snapshot, t: int, prev: int, next: int, n: Snapshot)
    requires 0 <= t < |m.history|
    requires n.state == m.history[t].name && n.prevStateIndex == prev && n.nextStateIndex == next
    requires |n.history| == |m.history|
    requires forall i :: 0 <= i < |n.history| ==> n.history[i] == Entry(m.history[i].name, i == t)
    ensures MoveTo(m, t, prev, next) == n
  {
  }

  /** getStates with an event selects each declared state at most once. */
  lemma {:induction false} StatesWithNoDuplicates(c: Config, names: seq<string>, e: string)
    requires forall i :: 0 <= i < |names| ==> names[i] in c.table
    requires NoDuplicates(names)
    ensures NoDuplicates(StatesWith(c, names, e))
  {
    if names != [] {
      var init, last := names[..|names| - 1], names[|names| - 1];
      assert last !in init;
      StatesWithNoDuplicates(c, init, e);
    }
  }

  /** A three-state workflow: two triggers forward, undo back to the start and
      once more (refused), redo forward twice, then an event the current state
      has no transition for. */
  lemma WorkflowScenario()
    ensures var c := WorkflowConfig();
            var s0 := Create(Some(c)).value;
            var s1 := Trigger(c, s0, "start").value;
            var s2 := Trigger(c, s1, "pause").value;
            var s3 := Undo(s2).value;
            var s4 := Undo(s3).value;
            var s5 := Redo(s4).value;
            var s6 := Redo(s5).value;
            s0.state == "idle" && s1.state == "running" && s2.state == "paused"
            && s3.state == "running" && s4.state == "idle" && Undo(s4).None?
            && s5.state == "running" && s6.state == "paused"
            && Trigger(c, s6, "stop") == Err(NoTransition)
  {
    var c := WorkflowConfig();
    var s0 := Create(Some(c)).value;
    assert s0 == Snapshot("idle", [Entry("idle", true)], -1, -1);
    var s1 := Trigger(c, s0, "start").value;
    assert s1 == Snapshot("running", [Entry("idle", false), Entry("running", true)], 0, -1);
    var s2 := Trigger(c, s1, "pause").value;
    assert Deactivate(s1.history) == [Entry("idle", false), Entry("running", false)];
    assert s2 == Snapshot("paused", [Entry("idle", false), Entry("running", false), Entry("paused", true)], 1, -1);
    FindActiveOnly(s2.history, 2);
    var s3 := Undo(s2).value;
    FindActiveOnly(s3.history, 1);
    var s4 := Undo(s3).value;
    FindActiveOnly(s4.history, 0);
    var s5 := Redo(s4).value;
    FindActiveOnly(s5.history, 1);
    var s6 := Redo(s5).value;
  }

  function WorkflowConfig(): (c: Config)
    ensures WellFormed(c)
  {
    var c := Config("idle", ["idle", "running", "paused"],
                    map["idle" := map["start" := "running"],
                        "running" := map["pause" := "paused", "stop" := "idle"],
                        "paused" := map["resume" := "running"]]);
    assert c.order[0] != c.order[1] && c.order[1] != c.order[2] && c.order[0] != c.order[2];
    c
  }
}

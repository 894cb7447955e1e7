/** The engine itself: a class whose methods update its fields step by step as
    src/fsm.js does, each proved to take the snapshot of its fields to the one
    the matching function of FsmSpec gives. */
module Fsm {
  import opened FsmSpec
  import FsmProperties

  datatype Outcome = Pass | Fail(error: Error)

  class FSM {
    const config: Config
    const states: seq<string>
    var state: string
    var history: seq<Entry>
    var prevStateIndex: int
    var nextStateIndex: int

    /** The current values of the mutable fields. */
    function View(): Snapshot
      reads this
    {
      Snapshot(state, history, prevStateIndex, nextStateIndex)
    }

    ghost predicate Valid()
      reads this
    {
      WellFormed(config) && config.initial in config.order && states == config.order
      && Inv(config, View())
    }

    /** Construction with a configuration whose initial state is declared: the
        fields start empty and unset, then the engine resets. */
    constructor (config: Config)
      requires WellFormed(config) && config.initial in config.order
      ensures Valid() && this.config == config
      ensures View() == FsmSpec.Create(Some(config)).value
    {
      this.config := config;
      states := config.order;
      history := [];
      prevStateIndex := -1;
      nextStateIndex := -1;
      state := config.initial;
      new;
      Initialize();
    }

    /** Construction as a caller sees it: no configuration fails with
        ConfigMissing, an undeclared initial state fails with InvalidState (the
        reset inside construction rejects it), anything else yields a fresh
        engine at the initial state. */
    static method Create(config: Option<Config>) returns (r: Result<FSM>)
      requires config.Some? ==> WellFormed(config.value)
      ensures r.Err? <==> FsmSpec.Create(config).Err?
      ensures r.Err? ==> r.error == FsmSpec.Create(config).error
      ensures r.Ok? ==> fresh(r.value) && r.value.Valid() && r.value.config == config.value
                        && r.value.View() == FsmSpec.Create(config).value
    {
      if config.None? {
        return Err(ConfigMissing);
      }
      if config.value.initial !in config.value.order {
        return Err(InvalidState);
      }
      var m := new FSM(config.value);
      return Ok(m);
    }

    /** The current state; it is always declared, and it is the name of the
        active entry whenever history is non-empty. */
    function GetState(): (s: string)
      reads this
      requires Valid()
      ensures s in states
      ensures |history| > 0 ==> s == history[FindActive(history)].name
    {
      state
    }

    /** Marks every history entry inactive. */
    method UpdateActiveStateHistory()
      modifies this`history
      ensures history == Deactivate(old(history))
    {
      history := Deactivate(history);
    }

    method ChangeState(s: string) returns (status: Outcome)
      requires Valid()
      modifies this
      ensures Valid()
      ensures var r := FsmSpec.ChangeState(config, old(View()), s);
              (status == Pass <==> r.Ok?)
              && (r.Err? ==> status == Fail(r.error) && View() == old(View()))
              && (r.Ok? ==> View() == r.value)
    {
      if s !in states {
        return Fail(InvalidState);
      }
      ghost var before := View();
      state := s;
      var activeIndex := FindActive(history);
      UpdateActiveStateHistory();
      history := history + [Entry(s, true)];
      prevStateIndex := activeIndex;
      assert View() == FsmSpec.ChangeState(config, before, s).value;
      status := Pass;
    }

    method Trigger(event: string) returns (status: Outcome)
      requires Valid()
      modifies this
      ensures Valid()
      ensures old(state) in config.table
      ensures var r := FsmSpec.Trigger(config, old(View()), event);
              (status == Pass <==> r.Ok?)
              && (r.Err? ==> status == Fail(r.error) && View() == old(View()))
              && (r.Ok? ==> View() == r.value)
    {
      FsmProperties.StateHasTransitionTable(config, View());
      var transitions := config.table[GetState()];
      if event !in transitions || transitions[event] == "" {
        return Fail(NoTransition);
      }
      status := ChangeState(transitions[event]);
    }

    /** A reset cannot fail: the initial state of a constructed engine is
        declared. */
    method Reset()
      requires Valid()
      modifies this
      ensures Valid()
      ensures View() == FsmSpec.Reset(config, old(View())).value
    {
      var status := ChangeState(config.initial);
    }

    method Initialize()
      requires Valid()
      modifies this
      ensures Valid()
      ensures View() == FsmSpec.Reset(config, old(View())).value
    {
      Reset();
    }

    /** The declared states, or, for a non-empty event, those whose transition
        table has the event as a key, in declaration order. */
    method GetStates(event: Option<string>) returns (r: seq<string>)
      requires Valid()
      ensures event.None? || event.value == "" ==> r == states
      ensures event.Some? && event.value != "" ==>
                r == StatesWith(config, states, event.value)
                && (forall x :: x in r <==> x in states && event.value in config.table[x])
                && IsSubsequence(r, states) && NoDuplicates(r)
    {
      if event.None? || event.value == "" {
        return states;
      }
      var e := event.value;
      r := [];
      var i := 0;
      while i < |states|
        invariant 0 <= i <= |states|
        invariant r == StatesWith(config, states[..i], e)
      {
        var s := states[i];
        assert states[..i + 1] == states[..i] + [s];
        var events := config.table[s];
        if e in events {
          r := r + [s];
        }
        i := i + 1;
      }
      assert states[..i] == states;
      FsmProperties.StatesWithNoDuplicates(config, states, e);
    }

    method Undo() returns (moved: bool)
      requires Valid()
      modifies this
      ensures Valid()
      ensures var r := FsmSpec.Undo(old(View()));
              moved == r.Some? && View() == (if r.Some? then r.value else old(View()))
    {
      var size := |history|;
      var activeIndex := FindActive(history);
      if size == 0 || activeIndex < 1 {
        return false;
      }
      FsmProperties.UndoKeepsInv(config, View());
      UpdateActiveStateHistory();
      var prevIndex := if prevStateIndex == -1 then activeIndex - 1 else prevStateIndex;
      state := history[prevIndex].name;
      history := history[prevIndex := Entry(history[prevIndex].name, true)];
      nextStateIndex := activeIndex;
      prevStateIndex := -1;
      return true;
    }

    method Redo() returns (moved: bool)
      requires Valid()
      modifies this
      ensures Valid()
      ensures var r := FsmSpec.Redo(old(View()));
              moved == r.Some? && View() == (if r.Some? then r.value else old(View()))
    {
      var size := |history|;
      var activeIndex := FindActive(history);
      if size == 0 || activeIndex == size - 1 {
        return false;
      }
      FsmProperties.RedoKeepsInv(config, View());
      UpdateActiveStateHistory();
      var nextIndex := if nextStateIndex == -1 then activeIndex + 1 else nextStateIndex;
      state := history[nextIndex].name;
      history := history[nextIndex := Entry(history[nextIndex].name, true)];
      prevStateIndex := activeIndex;
      nextStateIndex := -1;
      return true;
    }

    method ClearHistory()
      requires Valid()
      modifies this
      ensures Valid()
      ensures View() == FsmSpec.ClearHistory(old(View()))
    {
      history := [];
    }
  }

}

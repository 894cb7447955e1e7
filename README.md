# Finite-state machine with navigable history, in Dafny

This project models the `FSM` class of `src/fsm.js`: a table-driven finite-state
machine whose configuration maps each declared state to a transition table
(event name to destination name), and which records every state it enters in a
linear history that `undo` and `redo` walk by moving a single "active" marker.

Three modules:

- `FsmSpec` (`fsm_spec.dfy`) — the data model (`Config`, `Entry`, the `Snapshot`
  of one engine's four mutable fields, the `Error` kinds) and one function per
  operation giving the snapshot after the call. It also holds the invariant:
  when history is non-empty, exactly one entry is active and `state` is its
  name. A set previous-override points strictly before the active entry. A set
  next-override points strictly after it, unless the active entry is the last
  one. Every recorded name and `state` are declared states. With an empty
  history (after `clearHistory`) the overrides may hold stale values.
- `FsmProperties` (`fsm_properties.dfy`) — lemmas relating several operations.
  Every operation keeps the invariant. A successful `undo` followed by `redo`
  (or `redo` followed by `undo`) restores the history and the state. The
  overrides are not restored in general: after undo then redo,
  `prevStateIndex` is the index undo moved to and `nextStateIndex` is -1, and
  the mirror image holds for redo then undo. `changeState` followed by `undo`
  returns to where the engine was. Redo is impossible straight after
  `changeState`. `WorkflowScenario` traces an idle/running/paused
  configuration through two triggers, two undos, a refused undo, two redos,
  and a trigger that fails with `NoTransition`.
- `Fsm` (`fsm.dfy`) — the class `FSM` itself. Its fields are `config`,
  `states`, `state`, `history`, `prevStateIndex` and `nextStateIndex`. Its
  methods update those fields step by step as the JavaScript does. Each public
  method is proved to keep `Valid()` and to take `View()` (the snapshot of its
  fields) to what the matching `FsmSpec` function gives. The internal
  `UpdateActiveStateHistory` only promises its effect on `history`, since it
  runs in the middle of an operation, while the invariant is broken.

Thrown errors become `Err(ConfigMissing)`, `Err(InvalidState)` or
`Err(NoTransition)` results (or a `Fail(...)` status on the class). Each
failure comes with the guarantee that nothing changed. `undo`/`redo` return
`false` exactly when the code does. JavaScript truthiness is modelled where the
code relies on it: a missing configuration is `None`, a transition whose
destination is missing or `""` fails with `NoTransition`, and an event that is
`None` or `""` makes `getStates` return every declared state.

The history is never truncated. A `changeState` after an `undo` keeps the
entries after the active one and appends the new entry after them
(`ChangeState`'s contract: the names become the old names plus the new state).
Later redos can step into those older entries:
`RedoReachesEntryBeforeChangeState` goes from `[a, b, c]` through undo,
`changeState(d)`, two undos and two redos, and ends on the old entry `c`
rather than the newer `d`.

Two consequences of the code worth stating:

- `trigger` whose destination is present and non-empty but not a declared
  state fails with `InvalidState`, raised by the `changeState` it calls.
- A stale `nextStateIndex` is never followed. Right after `changeState` the
  new entry is the last one, so `redo` refuses (`NoRedoAfterChangeState`), and
  the next successful `undo` overwrites the override. The invariant
  `Consistent` shows that any next-override `redo` follows lies strictly after
  the active entry and inside the history.

## Model

| member | source | states |
|---|---|---|
| FsmSpec.FindActive | src/fsm.js:35 | the result is -1 exactly when no entry is active, else the index of the first active entry |
| FsmSpec.Deactivate | src/fsm.js:125-127 | same length, every entry keeps its name and is inactive |
| FsmSpec.ChangeState | src/fsm.js:30-39 | fails with InvalidState iff the target is undeclared; otherwise state is the target, names grow by exactly the target, the new last entry is the only active one, prevStateIndex is the previously active index (-1 if none), nextStateIndex is unchanged, and the invariant holds afterwards |
| FsmSpec.Trigger | src/fsm.js:45-51 | NoTransition iff the current state's table has no key for the event or maps it to ""; otherwise the result is exactly changeState to the destination (success iff the destination is declared, and then the new state is the destination) |
| FsmSpec.Reset | src/fsm.js:56-58 | the result is exactly changeState to the initial state: succeeds iff it is declared, and then the state is the initial state and one active entry for it is appended |
| FsmSpec.Create | src/fsm.js:6-16 | ConfigMissing without a configuration, InvalidState when the initial state is undeclared, otherwise state = initial, history = [initial active], both overrides -1, and the invariant holds |
| FsmSpec.UndoTarget | src/fsm.js:88 | the index undo reads lies in 0 .. active-1 |
| FsmSpec.RedoTarget | src/fsm.js:106 | the index redo reads lies in active+1 .. length-1 |
| FsmSpec.MoveTo | src/fsm.js:87-90 | names unchanged, the target is the only active entry and its name is the new state |
| FsmSpec.Undo | src/fsm.js:83-94 | refuses exactly when history is empty or the active index is below 1; otherwise names are unchanged, the active index moves strictly backwards, landing on prevStateIndex when set and on active-1 otherwise, nextStateIndex is the index left, prevStateIndex is -1, and the invariant holds |
| FsmSpec.Redo | src/fsm.js:101-112 | refuses exactly when history is empty or the active entry is the last; otherwise names are unchanged, the active index moves strictly forwards, landing on nextStateIndex when set and on active+1 otherwise, prevStateIndex is the index left, nextStateIndex is -1, and the invariant holds |
| FsmSpec.ClearHistory | src/fsm.js:117-119 | history empty, state and both overrides kept, invariant kept, and both undo and redo refuse afterwards |
| FsmSpec.StatesWith | src/fsm.js:68-75 | contains exactly the given states whose transition table has the event as a key, and is a subsequence of them (declaration order kept) |
| FsmProperties.StateHasTransitionTable | src/fsm.js:46 | under the invariant the current state is a configuration key, so the lookup of its transition table is defined |
| FsmProperties.TriggerKeepsInv | src/fsm.js:45-51 | a successful trigger keeps the invariant |
| FsmProperties.UndoKeepsInv | src/fsm.js:83-94 | a successful undo keeps every name declared and the invariant |
| FsmProperties.RedoKeepsInv | src/fsm.js:101-112 | a successful redo keeps every name declared and the invariant |
| FsmProperties.UndoThenRedo | src/fsm.js:83-112 | redo after a successful undo succeeds and restores the history and state from before the undo |
| FsmProperties.RedoThenUndo | src/fsm.js:83-112 | undo after a successful redo succeeds and restores the history and state from before the redo |
| FsmProperties.ChangeStateThenUndo | src/fsm.js:30-94 | undo after changeState(s) returns to the previously active entry (even when it is not adjacent); history is the old history plus an inactive entry for s |
| FsmProperties.UndoRedoRoundTrip | src/fsm.js:30-112 | from state A, changeState(B), undo gives A and the following redo gives back exactly the post-changeState snapshot except nextStateIndex = -1 |
| FsmProperties.NoRedoAfterChangeState | src/fsm.js:101-106 | redo refuses right after any changeState, so a stale nextStateIndex is never followed then |
| FsmProperties.ChangeStateAfterClear | src/fsm.js:35-38 | changeState on an emptied history records a single active entry and clears the stale prevStateIndex; undo still refuses |
| FsmProperties.RedoReachesEntryBeforeChangeState | src/fsm.js:30-112 | history is not truncated by changeState: from [a, b, c*] with prevStateIndex 1, undo, changeState(d), undo, undo, redo, redo ends with c active in [a, b, c, d], a redo into an entry recorded before the changeState |
| FsmProperties.StatesWithNoDuplicates | src/fsm.js:66-76 | getStates with an event lists each state at most once |
| FsmProperties.WorkflowScenario | src/fsm.js:45-112 | the idle/running/paused sequence: triggers reach running and paused, undo twice reaches idle, a third undo refuses, redo twice reaches paused, and an event paused lacks fails with NoTransition |
| Fsm.FSM.constructor | src/fsm.js:6-16 | a declared initial state gives a valid engine whose fields equal Create's snapshot |
| Fsm.FSM.Create | src/fsm.js:6-16 | fails exactly as FsmSpec.Create does; otherwise returns a fresh valid engine at the initial state |
| Fsm.FSM.GetState | src/fsm.js:22-24 | the state is declared and is the name of the active entry when history is non-empty |
| Fsm.FSM.UpdateActiveStateHistory | src/fsm.js:125-127 | history becomes Deactivate of the old history; no other field changes |
| Fsm.FSM.ChangeState | src/fsm.js:30-39 | status and new fields are those of FsmSpec.ChangeState; on failure nothing changes; Valid() is kept |
| Fsm.FSM.Trigger | src/fsm.js:45-51 | status and new fields are those of FsmSpec.Trigger; on failure nothing changes; Valid() is kept |
| Fsm.FSM.Reset | src/fsm.js:56-58 | fields become FsmSpec.Reset's snapshot, which always succeeds on a valid engine |
| Fsm.FSM.Initialize | src/fsm.js:121-123 | same effect as Reset |
| Fsm.FSM.GetStates | src/fsm.js:66-76 | all declared states for no event or ""; otherwise exactly the declared states whose table has the event, in declaration order, without duplicates |
| Fsm.FSM.Undo | src/fsm.js:83-94 | return value and new fields are those of FsmSpec.Undo; on false nothing changes; Valid() is kept |
| Fsm.FSM.Redo | src/fsm.js:101-112 | return value and new fields are those of FsmSpec.Redo; on false nothing changes; Valid() is kept |
| Fsm.FSM.ClearHistory | src/fsm.js:117-119 | fields become FsmSpec.ClearHistory's snapshot: empty history, state and overrides untouched |

## Left out

- Error messages and `module.exports`: failures are the `Error` values, not strings.
- Other falsy values: only a missing configuration (`None`) fails construction. An empty-string event (`getStates`) and an empty-string destination (`trigger`) are modelled. Other falsy JavaScript values (`0`, `false`, `null` inside the tables) cannot occur with string-typed tables.
- Inherited object properties: a JavaScript lookup such as `transitions["toString"]` would find a prototype member. The model treats the tables as plain maps.
- Object key order: `Config.order` is the key list of the configuration's states object, given explicitly. `WellFormed` says it lists each key of the table exactly once.
- Fsm.FSM.Create: requires `WellFormed` of a supplied configuration, since a configuration object always enumerates its own keys once each. Its construction-time `InvalidState` failure is decided before the object is allocated, because a Dafny constructor cannot fail. The check it runs is the same membership test that `changeState` performs inside the JavaScript constructor.
- Fsm.FSM.Reset: returns no status. On a constructed engine the initial state is always declared, so the `changeState` it makes cannot fail.
- Configuration shape: the configuration's per-state `{transitions: {...}}` objects are flattened to `map<string, map<string, string>>`. Two crashes in the code are not representable: a configuration without a `states` property (src/fsm.js:12), and a state object without a `transitions` property.
- Aliasing: `getStates()` returns the internal array by reference, and `Object.assign` flips shared entry objects in place. The model passes history and results by value. The engine also keeps the caller's configuration object by reference (src/fsm.js:11), so a caller that mutates it after construction changes what `trigger` and `getStates` do. The model's `config` is an immutable value fixed at construction.
- Concurrency and persistence: the code has none.

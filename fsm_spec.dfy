/** A value-level model of the finite-state machine engine: its configuration,
    its history entries, a snapshot of one engine's fields, and one function per
    operation that gives the snapshot after the call. The class in module Fsm is
    proved to follow these functions; the lemmas in module FsmProperties are
    about them. */
module FsmSpec {

  /** The three errors the engine throws. */
  datatype Error = ConfigMissing | InvalidState | NoTransition

  datatype Result<T> = Ok(value: T) | Err(error: Error)

  datatype Option<T> = None | Some(value: T)

  /** The caller's configuration. `table` maps a state name to its transition
      table (event name to destination name); `order` lists the declared state
      names in the order the configuration enumerates them. */
  datatype Config = Config(initial: string, order: seq<string>, table: map<string, map<string, string>>)

  /** One recorded visit to a state. */
  datatype Entry = Entry(name: string, active: bool)

  /** The mutable fields of one engine. */
  datatype Snapshot = Snapshot(state: string, history: seq<Entry>, prevStateIndex: int, nextStateIndex: int)

  predicate NoDuplicates(s: seq<string>)
  {
    forall i, j :: 0 <= i < j < |s| ==> s[i] != s[j]
  }

  /** `order` enumerates exactly the keys of `table`, each once, as the key list
      of a configuration object does. */
  predicate WellFormed(c: Config)
  {
    NoDuplicates(c.order)
    && (forall s | s in c.table :: s in c.order)
    && (forall s | s in c.order :: s in c.table)
  }

  function Names(h: seq<Entry>): (r: seq<string>)
  {
    seq(|h|, i requires 0 <= i < |h| => h[i].name)
  }

  /** Index of the first active entry, or -1 when no entry is active. */
  function FindActive(h: seq<Entry>): (r: int)
    ensures -1 <= r < |h|
    ensures r == -1 ==> forall i :: 0 <= i < |h| ==> !h[i].active
    ensures r >= 0 ==> h[r].active && forall i :: 0 <= i < r ==> !h[i].active
  {
    if h == [] then -1
    else if h[0].active then 0
    else
      var r := FindActive(h[1..]);
      if r == -1 then -1 else r + 1
  }

  /** Every entry keeps its name and is marked inactive. */
  function Deactivate(h: seq<Entry>): (r: seq<Entry>)
    ensures |r| == |h|
    ensures forall i :: 0 <= i < |h| ==> r[i] == Entry(h[i].name, false)
  {
    if h == [] then [] else [Entry(h[0].name, false)] + Deactivate(h[1..])
  }

  /** Entry `a` is the one and only active entry of `h`. */
  predicate OnlyActive(h: seq<Entry>, a: int)
  {
    0 <= a < |h| && forall i :: 0 <= i < |h| ==> (h[i].active <==> i == a)
  }

  /** The only active entry is the first active entry. */
  lemma FindActiveOnly(h: seq<Entry>, a: int)
    requires OnlyActive(h, a)
    ensures FindActive(h) == a
  {
    var r := FindActive(h);
    assert h[a].active;
    if r >= 0 {
      assert h[r].active;
    }
  }

  /** The invariant of the history bookkeeping. When history is non-empty,
      exactly one entry is active, `state` is its name, a set previous-override
      points strictly before it, and a set next-override points strictly after
      it unless the active entry is the last one. With an empty history the
      overrides may be stale. */
  predicate Consistent(m: Snapshot)
  {
    var h := m.history;
    |h| > 0 ==>
      var a := FindActive(h);
      OnlyActive(h, a) && h[a].name == m.state
      && (m.prevStateIndex == -1 || 0 <= m.prevStateIndex < a)
      && (a == |h| - 1 || m.nextStateIndex == -1 || a < m.nextStateIndex < |h|)
  }

  /** The current state and every recorded name are declared states. */
  predicate Declared(c: Config, m: Snapshot)
  {
    m.state in c.order && forall i :: 0 <= i < |m.history| ==> m.history[i].name in c.order
  }

  predicate Inv(c: Config, m: Snapshot)
  {
    Consistent(m) && Declared(c, m)
  }

  /** changeState: an undeclared target fails with nothing changed; otherwise
      every entry is deactivated, an active entry for `s` is appended, the
      previous-override takes the old active index and the next-override is
      left as it was. */
  function ChangeState(c: Config, m: Snapshot, s: string): (r: Result<Snapshot>)
    ensures r.Err? <==> s !in c.order
    ensures r.Err? ==> r.error == InvalidState
    ensures r.Ok? ==>
              var n := r.value;
              n.state == s
              && Names(n.history) == Names(m.history) + [s]
              && OnlyActive(n.history, |m.history|)
              && n.prevStateIndex == FindActive(m.history)
              && n.nextStateIndex == m.nextStateIndex
              && Consistent(n)
              && (Declared(c, m) ==> Declared(c, n))
  {
    if s !in c.order then Err(InvalidState)
    else
      var a := FindActive(m.history);
      var h := Deactivate(m.history) + [Entry(s, true)];
      assert OnlyActive(h, |m.history|);
      FindActiveOnly(h, |m.history|);
      Ok(Snapshot(s, h, a, m.nextStateIndex))
  }

  /** trigger: looks the event up in the current state's transition table; a
      missing or empty destination fails with NoTransition, otherwise the call
      is a changeState to the destination. */
  function Trigger(c: Config, m: Snapshot, e: string): (r: Result<Snapshot>)
    requires m.state in c.table
    ensures r == Err(NoTransition) <==> e !in c.table[m.state] || c.table[m.state][e] == ""
    ensures r != Err(NoTransition) ==> r == ChangeState(c, m, c.table[m.state][e])
    ensures r.Ok? ==> r.value.state == c.table[m.state][e]
  {
    var transitions := c.table[m.state];
    if e !in transitions || transitions[e] == "" then Err(NoTransition)
    else ChangeState(c, m, transitions[e])
  }

  /** reset is a changeState to the initial state. */
  function Reset(c: Config, m: Snapshot): (r: Result<Snapshot>)
    ensures r == ChangeState(c, m, c.initial)
    ensures r.Ok? <==> c.initial in c.order
    ensures r.Ok? ==> r.value.state == c.initial && |r.value.history| == |m.history| + 1
                      && r.value.history[|m.history|] == Entry(c.initial, true)
  {
    ChangeState(c, m, c.initial)
  }

  /** Construction: fails without a configuration; otherwise starts from an
      empty history with both overrides unset and performs a reset. */
  function Create(config: Option<Config>): (r: Result<Snapshot>)
    ensures config.None? ==> r == Err(ConfigMissing)
    ensures config.Some? ==> (r.Err? <==> config.value.initial !in config.value.order)
    ensures config.Some? && r.Err? ==> r.error == InvalidState
    ensures r.Ok? ==> r.value == Snapshot(config.value.initial, [Entry(config.value.initial, true)], -1, -1)
                      && Inv(config.value, r.value)
  {
    match config
    case None => Err(ConfigMissing)
    case Some(c) => Reset(c, Snapshot(c.initial, [], -1, -1))
  }

  /** The index undo moves to: the previous-override when set, else one before
      the active entry. */
  function UndoTarget(m: Snapshot): (t: int)
    requires Consistent(m) && |m.history| > 0 && FindActive(m.history) >= 1
    ensures 0 <= t < FindActive(m.history)
  {
    if m.prevStateIndex == -1 then FindActive(m.history) - 1 else m.prevStateIndex
  }

  /** The index redo moves to: the next-override when set, else one after the
      active entry. */
  function RedoTarget(m: Snapshot): (t: int)
    requires Consistent(m) && |m.history| > 0 && FindActive(m.history) != |m.history| - 1
    ensures FindActive(m.history) < t < |m.history|
  {
    if m.nextStateIndex == -1 then FindActive(m.history) + 1 else m.nextStateIndex
  }

  /** Deactivates every entry, then activates entry `t` and makes it the
      current state; the overrides are set by the caller. */
  function MoveTo(m: Snapshot, t: int, prev: int, next: int): (n: Snapshot)
    requires 0 <= t < |m.history|
    ensures n.state == m.history[t].name && Names(n.history) == Names(m.history)
    ensures OnlyActive(n.history, t)
  {
    var d := Deactivate(m.history);
    Snapshot(d[t].name, d[t := Entry(d[t].name, true)], prev, next)
  }

  /** undo: None (the call returns false and changes nothing) when history is
      empty or the active entry is the first one. Otherwise the active marker
      moves strictly backwards, the next-override remembers the index left and
      the previous-override is cleared. */
  function Undo(m: Snapshot): (r: Option<Snapshot>)
    requires Consistent(m)
    ensures r.None? <==> |m.history| == 0 || FindActive(m.history) < 1
    ensures r.Some? ==>
              var n := r.value;
              Consistent(n)
              && Names(n.history) == Names(m.history)
              && 0 <= FindActive(n.history) < FindActive(m.history)
              && FindActive(n.history) == (if m.prevStateIndex == -1 then FindActive(m.history) - 1
                                           else m.prevStateIndex)
              && n.nextStateIndex == FindActive(m.history)
              && n.prevStateIndex == -1
  {
    var h := m.history;
    var a := FindActive(h);
    if |h| == 0 || a < 1 then None
    else
      var t := UndoTarget(m);
      var n := MoveTo(m, t, -1, a);
      FindActiveOnly(n.history, t);
      Some(n)
  }

  /** redo: the mirror image of undo. None when history is empty or the active
      entry is the last one; otherwise the active marker moves strictly
      forwards, the previous-override remembers the index left and the
      next-override is cleared. */
  function Redo(m: Snapshot): (r: Option<Snapshot>)
    requires Consistent(m)
    ensures r.None? <==> |m.history| == 0 || FindActive(m.history) == |m.history| - 1
    ensures r.Some? ==>
              var n := r.value;
              Consistent(n)
              && Names(n.history) == Names(m.history)
              && FindActive(m.history) < FindActive(n.history) < |n.history|
              && FindActive(n.history) == (if m.nextStateIndex == -1 then FindActive(m.history) + 1
                                           else m.nextStateIndex)
              && n.prevStateIndex == FindActive(m.history)
              && n.nextStateIndex == -1
  {
    var h := m.history;
    var a := FindActive(h);
    if |h| == 0 || a == |h| - 1 then None
    else
      var t := RedoTarget(m);
      var n := MoveTo(m, t, a, -1);
      FindActiveOnly(n.history, t);
      Some(n)
  }

  /** clearHistory: history becomes empty; the state and the (now stale)
      overrides stay, and neither undo nor redo can move afterwards. */
  function ClearHistory(m: Snapshot): (r: Snapshot)
    ensures r.history == [] && r.state == m.state
    ensures r.prevStateIndex == m.prevStateIndex && r.nextStateIndex == m.nextStateIndex
    ensures Consistent(r) && Undo(r).None? && Redo(r).None?
  {
    m.(history := [])
  }

  /** getStates with an event: the declared states whose transition table has
      the event as a key, in declaration order. */
  function StatesWith(c: Config, names: seq<string>, e: string): (r: seq<string>)
    requires forall i :: 0 <= i < |names| ==> names[i] in c.table
    ensures forall x :: x in r <==> x in names && e in c.table[x]
    ensures IsSubsequence(r, names)
  {
    if names == [] then []
    else
      var init, last := names[..|names| - 1], names[|names| - 1];
      assert names == init + [last];
      var r := StatesWith(c, init, e);
      SubsequenceExtend(r, init, last);
      if e in c.table[last] then r + [last] else r
  }

  /** `a` is obtained from `b` by deleting elements, order kept. */
  predicate IsSubsequence(a: seq<string>, b: seq<string>)
    decreases |b|
  {
    a == [] ||
    (b != [] &&
     ((a[|a| - 1] == b[|b| - 1] && IsSubsequence(a[..|a| - 1], b[..|b| - 1]))
      || IsSubsequence(a, b[..|b| - 1])))
  }

  lemma SubsequenceExtend(a: seq<string>, b: seq<string>, x: string)
    requires IsSubsequence(a, b)
    ensures IsSubsequence(a, b + [x]) && IsSubsequence(a + [x], b + [x])
  {
  }
}

/** The finite-state-machine helper: table construction and what every run of SendEvent keeps. */
module Fsms {

  type StateType = string
  type EventType = string

  const ENTRY: EventType := "Entry event"
  const EXIT: EventType := "Exit event"

  datatype Transition = Transition(event: EventType, from: StateType, to: StateType) {
    function Key(): (EventType, StateType) { (event, from) }
  }

  /** What a callback makes of the current state it is called with. */
  type Callback = (StateType, EventType) -> StateType

  datatype Call = Call(state: StateType, event: EventType)

  /** `NilCallback` is the run-time panic of calling a missing callback. */
  datatype Outcome = Done | UnknownTransition | NilCallback

  datatype NewError = DuplicateTransition(t: Transition) | UnknownState(s: StateType)

  datatype Machine = Machine(table: map<(EventType, StateType), Transition>, callbacks: map<StateType, Callback>)

  datatype Built = Built(machine: Machine) | Failed(error: NewError)

  class State {
    var current: StateType

    constructor (init: StateType)
      ensures current == init
    {
      current := init;
    }
  }

  // ---------------------------------------------------------------- construction

  predicate NoDuplicates(ts: seq<Transition>) {
    forall i, j :: 0 <= i < j < |ts| ==> ts[i].Key() != ts[j].Key()
  }

  /** The states that the transitions mention. */
  ghost function Mentioned(ts: seq<Transition>): set<StateType> {
    (set t | t in ts :: t.from) + (set t | t in ts :: t.to)
  }

  /** The table holds exactly the listed transitions, each under its own key. */
  ghost predicate TableOf(table: map<(EventType, StateType), Transition>, ts: seq<Transition>) {
    && (forall t :: t in ts ==> t.Key() in table && table[t.Key()] == t)
    && (forall k :: k in table ==> table[k] in ts && table[k].Key() == k)
  }

  /** NewFSM succeeds iff no (event, from) pair repeats and every callback state occurs in a transition. */
  method NewFSM(ts: seq<Transition>, callbacks: map<StateType, Callback>) returns (r: Built)
    ensures r.Built? <==>
            && (forall i, j :: 0 <= i < j < |ts| ==> ts[i].event != ts[j].event || ts[i].from != ts[j].from)
            && (forall s :: s in callbacks ==> exists t :: t in ts && (t.from == s || t.to == s))
    ensures r.Built? <==> NoDuplicates(ts) && callbacks.Keys <= Mentioned(ts)
    ensures r.Built? ==> TableOf(r.machine.table, ts) && r.machine.callbacks == callbacks
    ensures r.Failed? && r.error.DuplicateTransition? ==>
              exists i, j :: 0 <= i < j < |ts| && ts[j] == r.error.t && ts[i].Key() == ts[j].Key() && NoDuplicates(ts[..j])
    ensures r.Failed? && r.error.UnknownState? ==>
              NoDuplicates(ts) && r.error.s in callbacks && r.error.s !in Mentioned(ts)
  {
    PlainConditions(ts, callbacks.Keys);
    hide NoDuplicates, TableOf, Mentioned;
    var table := map[];
    var allStates: set<StateType> := {};
    NoTransitions();
    assert ts[..0] == [];
    for n := 0 to |ts|
      invariant NoDuplicates(ts[..n]) && TableOf(table, ts[..n])
      invariant allStates == Mentioned(ts[..n])
    {
      var t := ts[n];
      TableGrows(ts, n, table);
      if t.Key() in table {
        return Failed(DuplicateTransition(t));
      }
      table := table[t.Key() := t];
      allStates := allStates + {t.from, t.to};
    }
    assert ts[..|ts|] == ts;
    var left := callbacks.Keys;
    var built: map<StateType, Callback> := map[];
    while left != {}
      invariant left <= callbacks.Keys && built.Keys == callbacks.Keys - left
      invariant built.Keys <= allStates
      invariant forall s :: s in built ==> built[s] == callbacks[s]
      decreases left
    {
      var s :| s in left;
      if s !in allStates {
        return Failed(UnknownState(s));
      }
      built := built[s := callbacks[s]];
      left := left - {s};
    }
    assert built == callbacks;
    return Built(Machine(table, built));
  }

  /** The two conditions in terms of the fields of transitions. */
  lemma PlainConditions(ts: seq<Transition>, states: set<StateType>)
    ensures NoDuplicates(ts) <==>
            forall i, j :: 0 <= i < j < |ts| ==> ts[i].event != ts[j].event || ts[i].from != ts[j].from
    ensures states <= Mentioned(ts) <==> forall s :: s in states ==> exists t :: t in ts && (t.from == s || t.to == s)
  {
    if forall s :: s in states ==> exists t :: t in ts && (t.from == s || t.to == s) {
      forall s | s in states ensures s in Mentioned(ts) {
        var t :| t in ts && (t.from == s || t.to == s);
      }
    }
  }

  lemma NoTransitions()
    ensures NoDuplicates([]) && TableOf(map[], []) && Mentioned([]) == {}
  {
  }

  /** One turn of the loop over the transitions: the next one repeats a key, or the table takes it. */
  lemma TableGrows(ts: seq<Transition>, n: nat, table: map<(EventType, StateType), Transition>)
    requires n < |ts| && NoDuplicates(ts[..n]) && TableOf(table, ts[..n])
    ensures ts[n].Key() in table ==> !NoDuplicates(ts) && exists i :: 0 <= i < n && ts[i].Key() == ts[n].Key()
    ensures ts[n].Key() !in table ==> NoDuplicates(ts[..n + 1]) && TableOf(table[ts[n].Key() := ts[n]], ts[..n + 1])
    ensures Mentioned(ts[..n + 1]) == Mentioned(ts[..n]) + {ts[n].from, ts[n].to}
  {
    assert ts[..n + 1] == ts[..n] + [ts[n]];
    if ts[n].Key() in table {
      var i :| 0 <= i < n && ts[..n][i] == table[ts[n].Key()];
      assert ts[i].Key() == ts[n].Key();
    }
  }

  // ---------------------------------------------------------------- one event

  /** The state, the callbacks run and the outcome of one event. */
  function Send(m: Machine, s: StateType, event: EventType): (StateType, seq<Call>, Outcome) {
    if (event, s) !in m.table then (s, [], UnknownTransition)
    else
      var t := m.table[(event, s)];
      if t.from !in m.callbacks then (s, [], NilCallback)
      else
        var s1 := m.callbacks[t.from](s, event);
        if t.from == t.to then (s1, [Call(t.from, event)], Done)
        else if t.to !in m.callbacks then (t.to, [Call(t.from, event), Call(t.from, EXIT)], NilCallback)
        else (m.callbacks[t.to](t.to, ENTRY), [Call(t.from, event), Call(t.from, EXIT), Call(t.to, ENTRY)], Done)
  }

  method SendEvent(m: Machine, state: State, event: EventType) returns (calls: seq<Call>, outcome: Outcome)
    modifies state
    ensures (state.current, calls, outcome) == Send(m, old(state.current), event)
  {
    calls := [];
    if (event, state.current) !in m.table {
      return calls, UnknownTransition;
    }
    var t := m.table[(event, state.current)];
    if t.from !in m.callbacks {
      return calls, NilCallback;
    }
    state.current := m.callbacks[t.from](state.current, event);
    calls := [Call(t.from, event)];
    if t.from != t.to {
      state.current := m.callbacks[t.from](state.current, EXIT);
      calls := calls + [Call(t.from, EXIT)];
    }
    if t.from != t.to {
      state.current := t.to;
      if t.to !in m.callbacks {
        assert calls == [Call(t.from, event), Call(t.from, EXIT)];
        return calls, NilCallback;
      }
      state.current := m.callbacks[t.to](state.current, ENTRY);
      calls := calls + [Call(t.to, ENTRY)];
      assert calls == [Call(t.from, event), Call(t.from, EXIT), Call(t.to, ENTRY)];
    }
    return calls, Done;
  }

  // ---------------------------------------------------------------- runs

  /** Every state of the table has a callback. */
  predicate Complete(m: Machine) {
    forall k :: k in m.table ==> m.table[k].from in m.callbacks && m.table[k].to in m.callbacks
  }

  /** Callbacks leave the state alone where it matters: on entry after a proper move, and on the event of a
      self-loop. */
  predicate Inert(m: Machine) {
    && (forall k :: k in m.table && m.table[k].from != m.table[k].to && m.table[k].to in m.callbacks ==>
          m.callbacks[m.table[k].to](m.table[k].to, ENTRY) == m.table[k].to)
    && (forall k :: k in m.table && m.table[k].from == m.table[k].to && k.1 in m.callbacks ==>
          m.callbacks[k.1](k.1, k.0) == k.1)
  }

  /** The step the table alone prescribes. */
  function TableStep(m: Machine, s: StateType, event: EventType): StateType {
    if (event, s) in m.table then m.table[(event, s)].to else s
  }

  /** The table takes every listed transition from its `from` to its `to`, and stays put on any other event. */
  lemma TableMoves(ts: seq<Transition>, m: Machine, s: StateType, e: EventType)
    requires TableOf(m.table, ts)
    ensures forall t :: t in ts && t.event == e && t.from == s ==> TableStep(m, s, e) == t.to
    ensures (forall t :: t in ts ==> t.event != e || t.from != s) ==> TableStep(m, s, e) == s
  {
    forall t | t in ts && t.event == e && t.from == s ensures TableStep(m, s, e) == t.to {
      assert t.Key() == (e, s);
    }
    if (e, s) in m.table {
      assert m.table[(e, s)].Key() == (e, s);
    }
  }

  /** The states visited by a run: the start and the new state of every proper move. */
  function Visited(m: Machine, s: StateType, events: seq<EventType>): (path: seq<StateType>)
    ensures path != [] && path[0] == s
    decreases |events|
  {
    if events == [] then [s]
    else
      var s' := TableStep(m, s, events[0]);
      if s' == s then Visited(m, s, events[1..]) else [s] + Visited(m, s', events[1..])
  }

  /** The state, the entry and exit callbacks and the worst outcome of a run. */
  function Run(m: Machine, s: StateType, events: seq<EventType>): (StateType, seq<Call>, bool)
    decreases |events|
  {
    if events == [] then (s, [], true)
    else
      var (s', calls, outcome) := Send(m, s, events[0]);
      var (last, rest, clean) := Run(m, s', events[1..]);
      (last, calls[if |calls| == 0 then 0 else 1..] + rest, clean && outcome != NilCallback)
  }

  /** Exit(s0), Entry(s1), Exit(s1), Entry(s2), ... along a path. */
  function Boundary(path: seq<StateType>): seq<Call> {
    if |path| <= 1 then [] else [Call(path[0], EXIT), Call(path[1], ENTRY)] + Boundary(path[1..])
  }

  /** In every run the state follows the table, unknown events change nothing, no callback is missing,
      and the exit and entry callbacks alternate along the states visited. */
  lemma {:induction false} RunFollowsTable(ts: seq<Transition>, m: Machine, s: StateType, events: seq<EventType>)
    requires TableOf(m.table, ts) && Complete(m) && Inert(m)
    ensures var path := Visited(m, s, events);
            Run(m, s, events) == (path[|path| - 1], Boundary(path), true)
    decreases |events|
  {
    if events != [] {
      var e := events[0];
      var s' := TableStep(m, s, e);
      StepFollowsTable(ts, m, s, e);
      RunFollowsTable(ts, m, s', events[1..]);
      var tail := Visited(m, s', events[1..]);
      if s' != s {
        assert ([s] + tail)[1..] == tail;
        assert Boundary([s] + tail) == [Call(s, EXIT), Call(s', ENTRY)] + Boundary(tail);
      } else {
        assert [] + Boundary(tail) == Boundary(tail);
      }
    }
  }

  lemma StepFollowsTable(ts: seq<Transition>, m: Machine, s: StateType, e: EventType)
    requires TableOf(m.table, ts) && Complete(m) && Inert(m)
    ensures var (s', calls, outcome) := Send(m, s, e);
            && s' == TableStep(m, s, e) && outcome != NilCallback
            && (outcome.UnknownTransition? <==> (e, s) !in m.table)
            && calls == if outcome.UnknownTransition? then []
                        else [Call(s, e)] + if s' == s then [] else [Call(s, EXIT), Call(s', ENTRY)]
  {
    if (e, s) in m.table {
      assert m.table[(e, s)].Key() == (e, s);
    }
  }

  /** No event in any state meets a missing callback iff every state of the table has one. */
  lemma CompleteIff(ts: seq<Transition>, m: Machine)
    requires TableOf(m.table, ts)
    ensures Complete(m) <==> forall s, e :: Send(m, s, e).2 != NilCallback
  {
    if forall s, e :: Send(m, s, e).2 != NilCallback {
      forall k | k in m.table ensures m.table[k].from in m.callbacks && m.table[k].to in m.callbacks {
        assert m.table[k].Key() == k;
        assert Send(m, k.1, k.0).2 != NilCallback;
      }
    }
    if Complete(m) {
      forall s, e ensures Send(m, s, e).2 != NilCallback {
        if (e, s) in m.table {
          assert m.table[(e, s)].Key() == (e, s);
        }
      }
    }
  }

  /** What SendEvent does follows the table, for every state and event, iff every state has a callback and
      the callbacks are inert. */
  lemma FollowsTableIff(ts: seq<Transition>, m: Machine)
    requires TableOf(m.table, ts)
    ensures Complete(m) && Inert(m) <==>
            forall s, e :: Send(m, s, e).0 == TableStep(m, s, e) && Send(m, s, e).2 != NilCallback
  {
    if Complete(m) && Inert(m) {
      forall s, e ensures Send(m, s, e).0 == TableStep(m, s, e) && Send(m, s, e).2 != NilCallback {
        StepFollowsTable(ts, m, s, e);
      }
    }
    if forall s, e :: Send(m, s, e).0 == TableStep(m, s, e) && Send(m, s, e).2 != NilCallback {
      CompleteIff(ts, m);
      forall k | k in m.table
        ensures var t := m.table[k];
                if t.from != t.to then m.callbacks[t.to](t.to, ENTRY) == t.to else m.callbacks[k.1](k.1, k.0) == k.1
      {
        assert m.table[k].Key() == k;
        assert Send(m, k.1, k.0).0 == TableStep(m, k.1, k.0);
      }
    }
  }
}

/** SafeCh: a channel whose senders hold the read lock and whose closer holds the write lock, as a
    system of interleaved steps of any number of threads. */
module SafeChannels {
  import opened Options

  /** Where a thread stands inside Send, Close or IsClosed. */
  datatype Pc<T> =
    | Idle
    | SendLocked(e: T)   // read lock taken, flag not yet tested
    | Sending(e: T)      // flag was false, the channel send is pending
    | SendDone           // about to release the read lock
    | CloseLocked        // write lock taken, flag not yet tested
    | Closing            // flag was false, about to close the channel
    | Marking            // channel closed, about to set the flag
    | CloseDone          // about to release the write lock
    | QueryLocked        // read lock taken by IsClosed
    | QueryDone(answer: bool)
  {
    predicate Reads() { SendLocked? || Sending? || SendDone? || QueryLocked? || QueryDone? }

    predicate Writes() { CloseLocked? || Closing? || Marking? || CloseDone? }
  }

  /** `readers` and `writer` are the RWMutex; `shut` is the channel's own closed state and `closed` the
      flag of SafeCh. `accepted` and `received` record what went in and what came out. */
  datatype System<T> = System(
    pcs: seq<Pc<T>>, readers: set<nat>, writer: Option<nat>,
    closed: bool, shut: bool, cap: nat, buffer: seq<T>,
    accepted: seq<T>, received: seq<T>, panicked: bool)

  datatype Action<T> =
    | BeginSend(t: nat, e: T) | TestSend(t: nat) | Push(t: nat) | Handoff(t: nat) | EndSend(t: nat)
    | BeginClose(t: nat) | TestClose(t: nat) | Shut(t: nat) | Mark(t: nat) | EndClose(t: nat)
    | BeginQuery(t: nat) | Read(t: nat) | EndQuery(t: nat)
    | Receive

  function Start<T>(threads: nat, cap: nat): System<T> {
    System(seq(threads, _ => Idle), {}, None, false, false, cap, [], [], [], false)
  }

  function Go<T>(s: System<T>, t: nat, pc: Pc<T>): System<T>
    requires t < |s.pcs|
  {
    s.(pcs := s.pcs[t := pc])
  }


  /** One step; None when the action is not enabled. A send on a shut channel and a second close panic. */
  function Step<T>(s: System<T>, a: Action<T>): Option<System<T>> {
    if a.Receive? then
      if s.buffer == [] then None
      else Some(s.(received := s.received + [s.buffer[0]], buffer := s.buffer[1..]))
    else if a.t >= |s.pcs| || s.panicked then None
    else
      var pc := s.pcs[a.t];
      match a
      case BeginSend(t, e) =>
        if pc.Idle? && s.writer.None? then Some(Go(s, t, SendLocked(e)).(readers := s.readers + {t})) else None
      case TestSend(t) =>
        if pc.SendLocked? then Some(Go(s, t, if s.closed then SendDone else Sending(pc.e))) else None
      case Push(t) =>
        if !pc.Sending? then None
        else if s.shut then Some(s.(panicked := true))
        else if |s.buffer| >= s.cap then None
        else Some(Go(s, t, SendDone).(buffer := s.buffer + [pc.e], accepted := s.accepted + [pc.e]))
      case Handoff(t) =>
        if !pc.Sending? then None
        else if s.shut then Some(s.(panicked := true))
        else if s.buffer != [] then None
        else Some(Go(s, t, SendDone).(received := s.received + [pc.e], accepted := s.accepted + [pc.e]))
      case EndSend(t) =>
        if pc.SendDone? then Some(Go(s, t, Idle).(readers := s.readers - {t})) else None
      case BeginClose(t) =>
        if pc.Idle? && s.writer.None? && s.readers == {} then Some(Go(s, t, CloseLocked).(writer := Some(t))) else None
      case TestClose(t) =>
        if pc.CloseLocked? then Some(Go(s, t, if s.closed then CloseDone else Closing)) else None
      case Shut(t) =>
        if !pc.Closing? then None
        else if s.shut then Some(s.(panicked := true))
        else Some(Go(s, t, Marking).(shut := true))
      case Mark(t) =>
        if pc.Marking? then Some(Go(s, t, CloseDone).(closed := true)) else None
      case EndClose(t) =>
        if pc.CloseDone? then Some(Go(s, t, Idle).(writer := None)) else None
      case BeginQuery(t) =>
        if pc.Idle? && s.writer.None? then Some(Go(s, t, QueryLocked).(readers := s.readers + {t})) else None
      case Read(t) =>
        if pc.QueryLocked? then Some(Go(s, t, QueryDone(s.closed))) else None
      case EndQuery(t) =>
        if pc.QueryDone? then Some(Go(s, t, Idle).(readers := s.readers - {t})) else None
  }

  // ---------------------------------------------------------------- invariant

  /** The lock is held by exactly the threads that stand inside a locked region. */
  ghost predicate LockOk<T>(s: System<T>) {
    && (forall t: nat :: t in s.readers <==> t < |s.pcs| && s.pcs[t].Reads())
    && (forall t: nat :: s.writer == Some(t) <==> t < |s.pcs| && s.pcs[t].Writes())
    && (s.writer.Some? ==> s.readers == {})
  }

  /** What each position in the code knows about the flag and the channel. */
  predicate KnowsOk<T>(s: System<T>, pc: Pc<T>) {
    && (pc.Sending? ==> !s.closed && !s.shut)
    && (pc.Closing? ==> !s.closed && !s.shut)
    && (pc.Marking? ==> !s.closed && s.shut)
    && (pc.CloseDone? ==> s.closed)
    && (pc.QueryDone? ==> pc.answer == s.closed)
  }

  ghost predicate Inv<T>(s: System<T>) {
    && !s.panicked
    && LockOk(s)
    && (forall t :: 0 <= t < |s.pcs| ==> KnowsOk(s, s.pcs[t]))
    && (s.closed ==> s.shut)
    && (s.shut && !s.closed ==> exists t :: 0 <= t < |s.pcs| && s.pcs[t].Marking?)
    && s.accepted == s.received + s.buffer
    && |s.buffer| <= s.cap
  }

  lemma StartOk<T>(threads: nat, cap: nat)
    ensures Inv(Start<T>(threads, cap))
  {
  }

  /** Two threads never hold the lock in conflict. */
  lemma Exclusive<T>(s: System<T>, t: nat, u: nat)
    requires LockOk(s) && t < |s.pcs| && u < |s.pcs| && t != u && s.pcs[t].Writes()
    ensures !s.pcs[u].Writes() && !s.pcs[u].Reads()
  {
    assert s.writer == Some(t);
    assert u !in s.readers;
  }

  lemma StepKeepsInv<T>(s: System<T>, a: Action<T>)
    requires Inv(s) && Step(s, a).Some?
    ensures Inv(Step(s, a).value)
  {
    var s' := Step(s, a).value;
    if a.Receive? {
      assert s.received + s.buffer == s'.received + s'.buffer;
    } else {
      StepKeepsLock(s, a);
      StepKeepsKnowledge(s, a);
      StepKeepsContents(s, a);
    }
  }

  lemma StepKeepsLock<T>(s: System<T>, a: Action<T>)
    requires Inv(s) && !a.Receive? && Step(s, a).Some?
    ensures LockOk(Step(s, a).value)
  {
    var s' := Step(s, a).value;
    LockStep(s, s', a.t, s'.pcs[a.t]);
  }

  /** Moving one thread keeps the lock consistent when the lock fields move with it. */
  lemma LockStep<T>(s: System<T>, s': System<T>, t: nat, pc: Pc<T>)
    requires LockOk(s) && t < |s.pcs| && s'.pcs == s.pcs[t := pc]
    requires pc.Reads() && !s.pcs[t].Reads() ==> s.writer.None?
    requires pc.Writes() && !s.pcs[t].Writes() ==> s.writer.None? && s.readers == {}
    requires s'.readers == if pc.Reads() then s.readers + {t} else s.readers - {t}
    requires s'.writer == if pc.Writes() then Some(t) else if s.pcs[t].Writes() then None else s.writer
    ensures LockOk(s')
  {
    assert s.writer == Some(t) <==> s.pcs[t].Writes();
    forall u: nat ensures s'.writer == Some(u) <==> u < |s'.pcs| && s'.pcs[u].Writes() {
      assert s.writer == Some(u) <==> u < |s.pcs| && s.pcs[u].Writes();
    }
    assert t in s.readers <==> s.pcs[t].Reads();
  }

  lemma StepKeepsContents<T>(s: System<T>, a: Action<T>)
    requires Inv(s) && !a.Receive? && Step(s, a).Some?
    ensures var s' := Step(s, a).value;
            !s'.panicked && s'.accepted == s'.received + s'.buffer && |s'.buffer| <= s'.cap
  {
    assert KnowsOk(s, s.pcs[a.t]);
  }

  lemma StepKeepsKnowledge<T>(s: System<T>, a: Action<T>)
    requires Inv(s) && !a.Receive? && Step(s, a).Some?
    ensures var s' := Step(s, a).value;
            && (forall t :: 0 <= t < |s'.pcs| ==> KnowsOk(s', s'.pcs[t]))
            && (s'.closed ==> s'.shut)
            && (s'.shut && !s'.closed ==> exists t :: 0 <= t < |s'.pcs| && s'.pcs[t].Marking?)
  {
    var s' := Step(s, a).value;
    assert KnowsOk(s, s.pcs[a.t]);
    if s.pcs[a.t].Writes() {
      forall u: nat | u < |s.pcs| && u != a.t ensures !s.pcs[u].Writes() && !s.pcs[u].Reads() {
        Exclusive(s, a.t, u);
      }
    }
    if s.shut && !s.closed {
      var m :| 0 <= m < |s.pcs| && s.pcs[m].Marking?;
      assert m == a.t && a.Mark?;
    } else if a.Shut? {
      assert s'.pcs[a.t].Marking?;
    }
  }

  // ---------------------------------------------------------------- runs

  /** `states` is a run of the system under the schedule `acts`. */
  ghost predicate IsRun<T>(threads: nat, cap: nat, acts: seq<Action<T>>, states: seq<System<T>>) {
    && |states| == |acts| + 1
    && states[0] == Start(threads, cap)
    && forall i :: 0 <= i < |acts| ==> Step(states[i], acts[i]) == Some(states[i + 1])
  }

  lemma {:induction false} RunInv<T>(threads: nat, cap: nat, acts: seq<Action<T>>, states: seq<System<T>>, n: nat)
    requires IsRun(threads, cap, acts, states) && n < |states|
    ensures Inv(states[n])
  {
    if n == 0 {
      StartOk<T>(threads, cap);
    } else {
      RunInv(threads, cap, acts, states, n - 1);
      assert Step(states[n - 1], acts[n - 1]) == Some(states[n - 1 + 1]);
      StepKeepsInv(states[n - 1], acts[n - 1]);
    }
  }

  /** In no interleaving does a thread push to a shut channel or shut it twice, and what was received,
      followed by what is buffered, is exactly what was accepted. */
  lemma NoPanicNoLoss<T>(threads: nat, cap: nat, acts: seq<Action<T>>, states: seq<System<T>>, n: nat)
    requires IsRun(threads, cap, acts, states) && n < |states|
    ensures !states[n].panicked
    ensures states[n].accepted == states[n].received + states[n].buffer
    ensures forall t :: 0 <= t < |states[n].pcs| && (states[n].pcs[t].Sending? || states[n].pcs[t].Closing?) ==>
                          !states[n].shut
  {
    RunInv(threads, cap, acts, states, n);
  }

  lemma ShutStepFreezes<T>(s: System<T>, a: Action<T>)
    requires Inv(s) && s.shut && Step(s, a).Some?
    ensures Step(s, a).value.shut && Step(s, a).value.accepted == s.accepted
    ensures s.closed ==> Step(s, a).value.closed
    ensures s.received <= Step(s, a).value.received
  {
    if !a.Receive? {
      assert KnowsOk(s, s.pcs[a.t]);
    }
  }

  /** Once the channel is shut, nothing more is ever accepted, and the flag never goes back. */
  lemma {:induction false} FrozenOnceShut<T>(threads: nat, cap: nat, acts: seq<Action<T>>, states: seq<System<T>>, i: nat, j: nat)
    requires IsRun(threads, cap, acts, states) && i <= j < |states| && states[i].shut
    ensures states[j].shut && states[j].accepted == states[i].accepted
    ensures states[i].closed ==> states[j].closed
    ensures states[i].received <= states[j].received
  {
    if i < j {
      FrozenOnceShut(threads, cap, acts, states, i, j - 1);
      RunInv(threads, cap, acts, states, j - 1);
      assert Step(states[j - 1], acts[j - 1]) == Some(states[j - 1 + 1]);
      ShutStepFreezes(states[j - 1], acts[j - 1]);
    }
  }

  /** If IsClosed has answered true, or Close has finished, then no later send is accepted, and a
      receiver that finds the buffer empty has received everything there will ever be. */
  lemma ClosedAnswerIsFinal<T>(threads: nat, cap: nat, acts: seq<Action<T>>, states: seq<System<T>>, i: nat, j: nat, t: nat)
    requires IsRun(threads, cap, acts, states) && i <= j < |states| && t < |states[i].pcs|
    requires states[i].pcs[t].CloseDone? || (states[i].pcs[t].QueryDone? && states[i].pcs[t].answer)
    ensures states[j].closed && states[j].accepted == states[i].accepted
    ensures states[j].buffer == [] ==> states[j].received == states[i].accepted
  {
    RunInv(threads, cap, acts, states, i);
    assert KnowsOk(states[i], states[i].pcs[t]);
    FrozenOnceShut(threads, cap, acts, states, i, j);
    RunInv(threads, cap, acts, states, j);
  }

  /** A thread that holds the read lock keeps the flag from changing. */
  lemma ReaderHoldsFlag<T>(s: System<T>, a: Action<T>, t: nat)
    requires Inv(s) && Step(s, a).Some? && t < |s.pcs| && s.pcs[t].Reads()
    ensures Step(s, a).value.closed == s.closed
  {
    if a.Mark? {
      assert a.t < |s.pcs|;
      if s.pcs[a.t].Writes() && a.t != t {
        Exclusive(s, a.t, t);
      }
    }
  }

  /** From the step `i` in which `t` takes the lock for IsClosed to state `j` it has not left the call. */
  ghost predicate InQuery<T>(acts: seq<Action<T>>, states: seq<System<T>>, i: nat, j: nat, t: nat)
    requires i < |acts| && |states| == |acts| + 1 && j < |states|
  {
    && acts[i] == BeginQuery(t)
    && forall k :: i < k <= j ==> t < |states[k].pcs| && (states[k].pcs[t].QueryLocked? || states[k].pcs[t].QueryDone?)
  }

  lemma {:induction false} FlagDuringQuery<T>(threads: nat, cap: nat, acts: seq<Action<T>>, states: seq<System<T>>,
                                              i: nat, j: nat, t: nat)
    requires IsRun(threads, cap, acts, states) && i < j < |states| && InQuery(acts, states, i, j, t)
    ensures states[j].closed == states[i].closed
  {
    hide Inv;
    RunInv(threads, cap, acts, states, j - 1);
    assert Step(states[j - 1], acts[j - 1]) == Some(states[j - 1 + 1]);
    if i + 1 < j {
      hide Step;
      FlagDuringQuery(threads, cap, acts, states, i, j - 1, t);
      ReaderHoldsFlag(states[j - 1], acts[j - 1], t);
    }
  }

  /** In every run the answer of IsClosed is the flag as it was when the lock was taken, and as it still is. */
  lemma AnswerIsFlag<T>(threads: nat, cap: nat, acts: seq<Action<T>>, states: seq<System<T>>, i: nat, j: nat, t: nat)
    requires IsRun(threads, cap, acts, states) && i < j < |states| && InQuery(acts, states, i, j, t)
    requires states[j].pcs[t].QueryDone?
    ensures states[j].pcs[t].answer == states[i].closed == states[j].closed
  {
    FlagDuringQuery(threads, cap, acts, states, i, j, t);
    RunInv(threads, cap, acts, states, j);
    assert KnowsOk(states[j], states[j].pcs[t]);
  }

  /** An IsClosed that takes the lock after some Close has set the flag answers true. */
  lemma AnswerAfterClose<T>(threads: nat, cap: nat, acts: seq<Action<T>>, states: seq<System<T>>,
                            c: nat, i: nat, j: nat, t: nat)
    requires IsRun(threads, cap, acts, states) && c < i < j < |states| && acts[c].Mark?
    requires InQuery(acts, states, i, j, t) && states[j].pcs[t].QueryDone?
    ensures states[j].pcs[t].answer
  {
    assert Step(states[c], acts[c]) == Some(states[c + 1]);
    RunInv(threads, cap, acts, states, c + 1);
    FrozenOnceShut(threads, cap, acts, states, c + 1, i);
    AnswerIsFlag(threads, cap, acts, states, i, j, t);
  }

  // ---------------------------------------------------------------- what a thread waits for

  /** What a thread waits for: the lock, and room in the channel or a receiver. Any number of threads may hold
      the read lock together. */
  lemma EnabledIff<T>(s: System<T>, t: nat, e: T)
    requires Inv(s) && t < |s.pcs|
    ensures var pc := s.pcs[t];
            && (Step(s, BeginSend(t, e)).Some? <==> pc.Idle? && s.writer.None?)
            && (Step(s, BeginQuery(t)).Some? <==> pc.Idle? && s.writer.None?)
            && (Step(s, BeginClose(t)).Some? <==> pc.Idle? && s.writer.None? && s.readers == {})
            && (Step(s, Push(t)).Some? <==> pc.Sending? && |s.buffer| < s.cap)
            && (Step(s, Handoff(t)).Some? <==> pc.Sending? && s.buffer == [])
  {
    assert KnowsOk(s, s.pcs[t]);
  }

  /** With somebody receiving there is no deadlock: in every reachable state each thread inside a call can take
      its next step, or it is sending and the buffer holds something to receive. */
  lemma NoDeadlock<T>(threads: nat, cap: nat, acts: seq<Action<T>>, states: seq<System<T>>, n: nat, t: nat)
    requires IsRun(threads, cap, acts, states) && n < |states| && t < |states[n].pcs| && !states[n].pcs[t].Idle?
    ensures (exists a: Action<T> :: !a.Receive? && a.t == t && Step(states[n], a).Some?)
         || (states[n].pcs[t].Sending? && Step(states[n], Receive).Some?)
  {
    RunInv(threads, cap, acts, states, n);
    var s := states[n];
    assert KnowsOk(s, s.pcs[t]);
    var a: Action<T> := match s.pcs[t]
      case SendLocked(_) => TestSend(t)
      case SendDone => EndSend(t)
      case CloseLocked => TestClose(t)
      case Closing => Shut(t)
      case Marking => Mark(t)
      case CloseDone => EndClose(t)
      case QueryLocked => Read(t)
      case QueryDone(_) => EndQuery(t)
      case _ => Handoff(t);
    if !s.pcs[t].Sending? || s.buffer == [] {
      assert Step(s, a).Some?;
    }
  }

  // ---------------------------------------------------------------- undisturbed calls

  /** The state after a schedule; None when some action is not enabled. */
  function Steps<T>(s: System<T>, acts: seq<Action<T>>): Option<System<T>>
    decreases |acts|
  {
    if acts == [] then Some(s)
    else match Step(s, acts[0])
      case None => None
      case Some(s') => Steps(s', acts[1..])
  }

  ghost predicate Quiet<T>(s: System<T>, t: nat) {
    !s.panicked && t < |s.pcs| && s.pcs[t].Idle? && s.readers == {} && s.writer.None?
  }

  lemma FourSteps<T>(s: System<T>, a: Action<T>, b: Action<T>, c: Action<T>, d: Action<T>, s1: System<T>, s2: System<T>, s3: System<T>)
    requires Step(s, a) == Some(s1) && Step(s1, b) == Some(s2) && Step(s2, c) == Some(s3)
    ensures Steps(s, [a, b, c, d]) == Step(s3, d)
    ensures Steps(s, [a, b, c]) == Some(s3)
  {
    hide Step;
    assert [a, b, c, d][1..] == [b, c, d] && [b, c, d][1..] == [c, d] && [c, d][1..] == [d] && [d][1..] == [];
    assert [a, b, c][1..] == [b, c] && [b, c][1..] == [c] && [c][1..] == [];
    assert Steps(s3, [d]) == Step(s3, d);
    assert Steps(s2, [c, d]) == Steps(s3, [d]);
    assert Steps(s1, [b, c, d]) == Steps(s2, [c, d]);
    assert Steps(s2, [c]) == Some(s3);
    assert Steps(s1, [b, c]) == Steps(s2, [c]);
  }

  /** An undisturbed Send on an open channel with room puts its element last and leaves the lock free. */
  lemma SendAlone<T>(s: System<T>, t: nat, e: T)
    requires Quiet(s, t) && !s.closed && !s.shut && |s.buffer| < s.cap
    ensures Steps(s, [BeginSend(t, e), TestSend(t), Push(t), EndSend(t)]) ==
            Some(s.(buffer := s.buffer + [e], accepted := s.accepted + [e]))
  {
    var s1 := Step(s, BeginSend(t, e)).value;
    var s2 := Step(s1, TestSend(t)).value;
    var s3 := Step(s2, Push(t)).value;
    FourSteps(s, BeginSend(t, e), TestSend(t), Push(t), EndSend(t), s1, s2, s3);
    assert s3.pcs[t := Idle] == s.pcs && {t} - {t} == {};
  }

  /** An undisturbed Send after the close is dropped without a trace. */
  lemma SendAfterCloseDropped<T>(s: System<T>, t: nat, e: T)
    requires Quiet(s, t) && s.closed
    ensures Steps(s, [BeginSend(t, e), TestSend(t), EndSend(t)]) == Some(s)
  {
    var s1 := Step(s, BeginSend(t, e)).value;
    var s2 := Step(s1, TestSend(t)).value;
    var s3 := Step(s2, EndSend(t)).value;
    FourSteps(s, BeginSend(t, e), TestSend(t), EndSend(t), Receive, s1, s2, s3);
    assert s3.pcs == s.pcs && s3.readers == {};
  }

  lemma CloseEntered<T>(s: System<T>, t: nat) returns (s3: System<T>)
    requires Quiet(s, t) && !s.closed && !s.shut
    ensures Steps(s, [BeginClose(t), TestClose(t), Shut(t)]) == Some(s3)
    ensures s3 == s.(pcs := s.pcs[t := Marking], writer := Some(t), shut := true)
  {
    var s1 := Step(s, BeginClose(t)).value;
    var s2 := Step(s1, TestClose(t)).value;
    s3 := Step(s2, Shut(t)).value;
    FourSteps(s, BeginClose(t), TestClose(t), Shut(t), Receive, s1, s2, s3);
  }

  /** An undisturbed Close shuts the channel, sets the flag and changes nothing else. */
  lemma CloseAlone<T>(s: System<T>, t: nat)
    requires Quiet(s, t) && !s.closed && !s.shut
    ensures var s3 := Steps(s, [BeginClose(t), TestClose(t), Shut(t)]);
            && s3.Some?
            && Steps(s3.value, [Mark(t), EndClose(t)]) == Some(s.(closed := true, shut := true))
  {
    var s3 := CloseEntered(s, t);
    var s4 := Step(s3, Mark(t)).value;
    var s5 := Step(s4, EndClose(t)).value;
    assert s5.pcs == s.pcs;
    hide Step;
    var acts: seq<Action<T>> := [Mark(t), EndClose(t)];
    assert acts[1..] == [EndClose(t)];
    assert Steps(s4, acts[1..]) == Steps(s5, []);
  }

  /** An undisturbed second Close changes nothing. */
  lemma CloseAgainAlone<T>(s: System<T>, t: nat)
    requires Quiet(s, t) && s.closed
    ensures Steps(s, [BeginClose(t), TestClose(t), EndClose(t)]) == Some(s)
  {
    var s1 := Step(s, BeginClose(t)).value;
    var s2 := Step(s1, TestClose(t)).value;
    var s3 := Step(s2, EndClose(t)).value;
    FourSteps(s, BeginClose(t), TestClose(t), EndClose(t), Receive, s1, s2, s3);
    assert s3.pcs == s.pcs;
  }

  /** An undisturbed IsClosed answers exactly the flag and leaves the system as it was. */
  lemma QueryAlone<T>(s: System<T>, t: nat)
    requires Quiet(s, t)
    ensures var s2 := Steps(s, [BeginQuery(t), Read(t)]);
            && s2.Some? && s2.value.pcs == s.pcs[t := QueryDone(s.closed)]
            && Steps(s2.value, [EndQuery(t)]) == Some(s)
  {
    var s1 := Step(s, BeginQuery(t)).value;
    var s2 := Step(s1, Read(t)).value;
    var s3 := Step(s2, EndQuery(t)).value;
    assert s3.pcs == s.pcs && s3.readers == {};
    var acts: seq<Action<T>> := [BeginQuery(t), Read(t)];
    var last: seq<Action<T>> := [EndQuery(t)];
    hide Step;
    assert acts[1..] == [Read(t)] && acts[1..][1..] == [] && last[1..] == [];
    assert Steps(s1, acts[1..]) == Steps(s2, []);
    assert Steps(s2, last) == Steps(s3, []);
  }
}

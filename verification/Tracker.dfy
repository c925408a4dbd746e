/** The tracker in pattern mode: what it records about each UE, and who is on the notification list. */
module Trackers {
  import opened Basics
  import opened Topologies
  import opened Patterns

  // ---------------------------------------------------------------- one UE

  datatype Level = Unset | Tracking | Alert | Complete | Cleared

  datatype Ue = Ue(hist: seq<int>, tais: seq<int>, tracking: bool, level: Level,
                   alerted: bool, entered: bool, pos: nat)

  const FRESH := Ue([], [], false, Unset, false, false, 0)

  /** What the tracker knows about a UE is what its history says. */
  ghost predicate UeOk(pat: seq<int>, tac: map<int, int>, u: Ue)
    requires pat != []
  {
    && Known(tac, u.hist)
    && Stutterless(u.hist) && Stutterless(u.tais)
    && u.tais == DropRepeats(Tacs(tac, u.hist))
    && u.pos == PosOf(pat, u.tais)
    && (u.alerted <==> Reached(pat, u.tais, |pat| - 1))
    && (u.entered <==> Reached(pat, u.tais, |pat|))
    && (u.tracking <==> Tracked(pat, u.tais))
    && LevelOk(pat, u.tais, u.pos, u.level)
  }

  /** A position at which the UE is being tracked: begun or one before the end, not complete. */
  predicate InPattern(pat: seq<int>, k: nat) {
    k < |pat| && (k > 0 || k == |pat| - 1)
  }

  ghost predicate Tracked(pat: seq<int>, h: seq<int>)
    requires pat != []
  {
    exists k: nat :: InPattern(pat, k) && Reached(pat, h, k)
  }

  /** The history once stood at a positive position. */
  ghost predicate Moved(pat: seq<int>, h: seq<int>)
    requires pat != []
  {
    exists k: nat :: k > 0 && Reached(pat, h, k)
  }

  /** The level shown is the one of the current position; at position 0 it tells whether the UE once matched
      something. */
  ghost predicate LevelOk(pat: seq<int>, h: seq<int>, pos: nat, level: Level)
    requires pat != []
  {
    && (h == [] ==> level.Unset?)
    && (h != [] ==>
          && (level.Complete? <==> pos == |pat|)
          && (level.Alert? <==> pos == |pat| - 1)
          && (level.Tracking? <==> 0 < pos < |pat| - 1)
          && (level.Cleared? <==> pos == 0 && |pat| >= 2 && Moved(pat, h))
          && (level.Unset? <==> pos == 0 && |pat| >= 2 && !Moved(pat, h)))
  }

  /** The report of a new cell, after the position has been advanced. */
  function Judge(pat: seq<int>, u: Ue, before: nat): Ue
    requires pat != []
  {
    if u.pos >= |pat| then u.(entered := true, level := Complete)
    else if u.pos == |pat| - 1 then u.(tracking := true, level := Alert, alerted := true)
    else if u.pos > 0 then u.(tracking := true, level := Tracking)
    else if before > 0 then u.(level := Cleared)
    else u
  }

  /** A report of cell `gnb` for one UE. */
  function Observe(pat: seq<int>, tac: map<int, int>, u: Ue, gnb: int): Ue
    requires pat != [] && gnb in tac
  {
    if u.hist != [] && u.hist[|u.hist| - 1] == gnb then u
    else
      var v := u.(hist := u.hist + [gnb]);
      if u.tais != [] && u.tais[|u.tais| - 1] == tac[gnb] then v
      else Judge(pat, v.(tais := u.tais + [tac[gnb]], pos := Advance(pat, u.pos, tac[gnb])), u.pos)
  }

  lemma ObserveKeepsUeOk(pat: seq<int>, tac: map<int, int>, u: Ue, gnb: int)
    requires pat != [] && gnb in tac && UeOk(pat, tac, u)
    ensures UeOk(pat, tac, Observe(pat, tac, u, gnb))
  {
    hide DropRepeats, Tacs, Known, Stutterless, Reached, Advance, Judge, PosOf, Tracked, LevelOk;
    var t := tac[gnb];
    TacsSnoc(tac, u.hist, gnb);
    DropRepeatsSnoc(Tacs(tac, u.hist), t);
    StutterlessSnoc(u.hist, gnb);
    if (u.tais == [] || u.tais[|u.tais| - 1] != t) && (u.hist == [] || u.hist[|u.hist| - 1] != gnb) {
      StutterlessSnoc(u.tais, t);
      JudgeIsRight(pat, u, u.(hist := u.hist + [gnb]), t);
    }
  }

  lemma MovedSnoc(pat: seq<int>, h: seq<int>, t: int)
    requires pat != []
    ensures Moved(pat, h + [t]) <==> Moved(pat, h) || PosOf(pat, h + [t]) > 0
    ensures h == [] ==> !Moved(pat, h)
    ensures PosOf(pat, h) > 0 ==> Moved(pat, h)
  {
    hide PosOf;
    NoStart(pat);
    if h != [] {
      LastIsReached(pat, h);
    }
    LastIsReached(pat, h + [t]);
    if Moved(pat, h + [t]) {
      var k: nat :| k > 0 && Reached(pat, h + [t], k);
      ReachedSnoc(pat, h, t, k);
    }
    if Moved(pat, h) {
      var k: nat :| k > 0 && Reached(pat, h, k);
      ReachedSnoc(pat, h, t, k);
    }
  }

  /** After a change of tracking area the flags again say what the history says. */
  lemma JudgeIsRight(pat: seq<int>, u: Ue, v: Ue, t: int)
    requires pat != [] && u.pos == PosOf(pat, u.tais) && v == u.(hist := v.hist)
    requires u.alerted <==> Reached(pat, u.tais, |pat| - 1)
    requires u.entered <==> Reached(pat, u.tais, |pat|)
    requires u.tracking <==> Tracked(pat, u.tais)
    requires LevelOk(pat, u.tais, u.pos, u.level)
    ensures var w := Judge(pat, v.(tais := u.tais + [t], pos := Advance(pat, u.pos, t)), u.pos);
            && w.hist == v.hist && w.tais == u.tais + [t] && w.pos == PosOf(pat, w.tais)
            && (w.alerted <==> Reached(pat, w.tais, |pat| - 1))
            && (w.entered <==> Reached(pat, w.tais, |pat|))
            && (w.tracking <==> Tracked(pat, w.tais))
            && LevelOk(pat, w.tais, w.pos, w.level)
  {
    hide Reached, PosOf, Moved;
    PosOfSnoc(pat, u.tais, t);
    forall k: nat ensures Reached(pat, u.tais + [t], k) <==> Reached(pat, u.tais, k) || PosOf(pat, u.tais + [t]) == k {
      ReachedSnoc(pat, u.tais, t, k);
    }
    NoStart(pat);
    MovedSnoc(pat, u.tais, t);
    var next := Advance(pat, u.pos, t);
    assert Reached(pat, u.tais + [t], next);
    assert Reached(pat, u.tais + [t], |pat| - 1) <==> Reached(pat, u.tais, |pat| - 1) || next == |pat| - 1;
    assert Reached(pat, u.tais + [t], |pat|) <==> Reached(pat, u.tais, |pat|) || next == |pat|;
  }

  /** The record of a UE after a sequence of reported cells. */
  function ObserveAll(pat: seq<int>, tac: map<int, int>, cells: seq<int>): Ue
    requires pat != [] && Known(tac, cells)
  {
    if cells == [] then FRESH
    else Observe(pat, tac, ObserveAll(pat, tac, cells[..|cells| - 1]), cells[|cells| - 1])
  }

  /** One report appends the cell and its tracking area, unless they are already the last ones. */
  lemma ObserveAppends(pat: seq<int>, tac: map<int, int>, u: Ue, c: int)
    requires pat != [] && c in tac && UeOk(pat, tac, u)
    ensures var v := Observe(pat, tac, u, c);
            v.hist == AppendChange(u.hist, c) && v.tais == AppendChange(u.tais, tac[c])
  {
    hide DropRepeats, Reached, PosOf, Tracked, LevelOk, Advance, Stutterless;
  }

  /** The history is the reports without immediate repeats, and the tracking areas are those of the
      reports without immediate repeats. */
  lemma {:induction false} RecordIsReports(pat: seq<int>, tac: map<int, int>, cells: seq<int>)
    requires pat != [] && Known(tac, cells)
    ensures var u := ObserveAll(pat, tac, cells);
            && UeOk(pat, tac, u)
            && u.hist == DropRepeats(cells) && u.tais == DropRepeats(Tacs(tac, cells))
  {
    hide UeOk, Observe, Tacs, AppendChange;
    if cells == [] {
      FreshOk(pat, tac);
      NoReports(tac);
    } else {
      var before, c := cells[..|cells| - 1], cells[|cells| - 1];
      RecordIsReports(pat, tac, before);
      var u := ObserveAll(pat, tac, before);
      ObserveKeepsUeOk(pat, tac, u, c);
      ObserveAppends(pat, tac, u, c);
      DropLast(tac, cells);
    }
  }

  lemma NoReports(tac: map<int, int>)
    ensures Tacs(tac, []) == []
  {
  }

  lemma DropLast(tac: map<int, int>, cells: seq<int>)
    requires cells != [] && Known(tac, cells)
    ensures var before, c := cells[..|cells| - 1], cells[|cells| - 1];
            && DropRepeats(cells) == AppendChange(DropRepeats(before), c)
            && DropRepeats(Tacs(tac, cells)) == AppendChange(DropRepeats(Tacs(tac, before)), tac[c])
  {
    hide AppendChange;
    var before, c := cells[..|cells| - 1], cells[|cells| - 1];
    assert cells == before + [c];
    TacsSnoc(tac, before, c);
    DropRepeatsSnoc(before, c);
    DropRepeatsSnoc(Tacs(tac, before), tac[c]);
  }

  // ---------------------------------------------------------------- the tracker

  lemma AppendNew<T>(s: seq<T>, x: T)
    requires Distinct(s)
    ensures x !in s ==> Distinct(s + [x])
    ensures forall y :: y in s + [x] ==> y in s || y == x
    ensures x in s + [x] && forall y :: y in s ==> y in s + [x]
  {
  }

  /** The records of all UEs and the notification list. `Supi` identifies a UE. */
  datatype State<Supi> = State(ue: map<Supi, Ue>, notify: seq<Supi>)

  function RecordOf<Supi(==)>(st: State<Supi>, supi: Supi): Ue {
    if supi in st.ue then st.ue[supi] else FRESH
  }

  /** The state after a report. A cell that is not in the topology is ignored. */
  function Reported<Supi(==)>(pat: seq<int>, tac: map<int, int>, st: State<Supi>, supi: Supi, gnb: int): State<Supi>
    requires pat != []
  {
    if gnb !in tac then st
    else
      var u := RecordOf(st, supi);
      var v := Observe(pat, tac, u, gnb);
      State(st.ue[supi := v],
            if v.alerted && !u.alerted && supi !in st.notify then st.notify + [supi] else st.notify)
  }

  /** Holds after every report, whatever the reports are. */
  ghost predicate StateOk<Supi(!new)>(pat: seq<int>, tac: map<int, int>, st: State<Supi>)
    requires pat != []
  {
    && (forall supi :: supi in st.ue ==> UeOk(pat, tac, st.ue[supi]))
    && Distinct(st.notify)
    && (forall supi :: supi in st.notify <==> supi in st.ue && st.ue[supi].alerted)
  }

  lemma RecordOk<Supi(!new)>(pat: seq<int>, tac: map<int, int>, st: State<Supi>, supi: Supi)
    requires pat != [] && StateOk(pat, tac, st)
    ensures UeOk(pat, tac, RecordOf(st, supi))
    ensures supi in st.notify <==> RecordOf(st, supi).alerted
  {
    FreshOk(pat, tac);
  }

  lemma ReportedKeepsOk<Supi(!new)>(pat: seq<int>, tac: map<int, int>, st: State<Supi>, supi: Supi, gnb: int)
    requires pat != [] && StateOk(pat, tac, st)
    ensures StateOk(pat, tac, Reported(pat, tac, st, supi, gnb))
    ensures st.notify <= Reported(pat, tac, st, supi, gnb).notify
  {
    hide UeOk, Observe, Distinct;
    RecordOk(pat, tac, st, supi);
    if gnb in tac {
      var u := RecordOf(st, supi);
      ObserveKeepsUeOk(pat, tac, u, gnb);
      AlertStays(pat, tac, u, gnb);
      AppendNew(st.notify, supi);
    }
  }

  lemma AlertStays(pat: seq<int>, tac: map<int, int>, u: Ue, gnb: int)
    requires pat != [] && gnb in tac
    ensures u.alerted ==> Observe(pat, tac, u, gnb).alerted
  {
  }

  class Tracker<Supi(==,!new)> {
    const pattern: seq<int>
    const tac: map<int, int>
    var ue: map<Supi, Ue>
    var notify: seq<Supi>

    ghost function Now(): State<Supi>
      reads this
    {
      State(ue, notify)
    }

    ghost predicate Valid()
      reads this
    {
      pattern != [] && StateOk(pattern, tac, Now())
    }

    constructor (pattern: seq<int>, tac: map<int, int>)
      requires pattern != []
      ensures Valid() && this.pattern == pattern && this.tac == tac && Now() == State(map[], [])
    {
      this.pattern, this.tac := pattern, tac;
      this.ue, this.notify := map[], [];
    }

    /** Whatever history the old position stands for, the new one stands for that history with `t` added:
        its last tracking areas are the first ones of the pattern. */
    method AdvancePattern(s: Ue, t: int) returns (s': Ue)
      requires pattern != []
      ensures s' == s.(pos := Advance(pattern, s.pos, t))
      ensures forall h :: PosOf(pattern, h) == s.pos ==>
                            PosOf(pattern, h + [t]) == s'.pos && EndsWith(h + [t], pattern, s'.pos)
    {
      hide PosOf, EndsWith;
      var pos := s.pos;
      if pos < |pattern| && t == pattern[pos] {
        pos := pos + 1;
      } else if t == pattern[0] {
        pos := 1;
      } else {
        pos := 0;
      }
      s' := s.(pos := pos);
      forall h | PosOf(pattern, h) == s.pos
        ensures PosOf(pattern, h + [t]) == s'.pos && EndsWith(h + [t], pattern, s'.pos)
      {
        PosOfSnoc(pattern, h, t);
        PositionMatches(pattern, h + [t]);
      }
    }

    /** A location report in pattern mode. */
    method OnLocationPattern(supi: Supi, gnb: int)
      requires Valid()
      modifies this
      ensures Valid()
      ensures Now() == Reported(pattern, tac, old(Now()), supi, gnb)
      ensures old(notify) <= notify
    {
      ghost var before := Now();
      ReportedKeepsOk(pattern, tac, before, supi, gnb);
      hide StateOk, Observe;
      if gnb !in tac {
        return;
      }
      var s := if supi in ue then ue[supi] else FRESH;
      var s', alert := Report(s, gnb);
      ue := ue[supi := s'];
      if alert && supi !in notify {
        notify := notify + [supi];
      }
    }

    /** The update of one UE's record; `alert` tells that it now has to be on the notification list. */
    method Report(u: Ue, gnb: int) returns (s: Ue, alert: bool)
      requires pattern != [] && gnb in tac
      ensures s == Observe(pattern, tac, u, gnb)
      ensures alert <==> s.alerted && !u.alerted
      ensures u.alerted ==> s.alerted
    {
      hide PosOf, EndsWith;
      s, alert := u, false;
      if s.hist != [] && s.hist[|s.hist| - 1] == gnb {
        return;
      }
      s := s.(hist := s.hist + [gnb]);
      var tacChanged := s.tais == [] || s.tais[|s.tais| - 1] != tac[gnb];
      if !tacChanged {
        return;
      }
      s := s.(tais := s.tais + [tac[gnb]]);
      var before := s.pos;
      s := AdvancePattern(s, tac[gnb]);
      if s.pos >= |pattern| {
        s := s.(entered := true, level := Complete);
      } else if s.pos == |pattern| - 1 {
        s := s.(tracking := true, level := Alert);
        if !s.alerted {
          s := s.(alerted := true);
          alert := true;
        }
      } else if s.pos > 0 {
        s := s.(tracking := true, level := Tracking);
      } else if before > 0 {
        s := s.(level := Cleared);
      }
    }
  }

  lemma FreshOk(pat: seq<int>, tac: map<int, int>)
    requires pat != []
    ensures UeOk(pat, tac, FRESH)
  {
  }

  // ---------------------------------------------------------------- runs of reports

  /** The state after a sequence of reports about any UEs, from the start. */
  function StateAfter<Supi(==)>(pat: seq<int>, tac: map<int, int>, reports: seq<(Supi, int)>): State<Supi>
    requires pat != []
  {
    if reports == [] then State(map[], [])
    else
      var (supi, gnb) := reports[|reports| - 1];
      Reported(pat, tac, StateAfter(pat, tac, reports[..|reports| - 1]), supi, gnb)
  }

  /** The cells of the topology reported for one UE. */
  function CellsOf<Supi(==)>(tac: map<int, int>, reports: seq<(Supi, int)>, supi: Supi): (cells: seq<int>)
    ensures Known(tac, cells)
  {
    if reports == [] then []
    else
      var (who, gnb) := reports[|reports| - 1];
      CellsOf(tac, reports[..|reports| - 1], supi) + if who == supi && gnb in tac then [gnb] else []
  }

  lemma {:induction false} RunOk<Supi(!new)>(pat: seq<int>, tac: map<int, int>, reports: seq<(Supi, int)>)
    requires pat != []
    ensures StateOk(pat, tac, StateAfter(pat, tac, reports))
  {
    if reports != [] {
      var before := reports[..|reports| - 1];
      var (supi, gnb) := reports[|reports| - 1];
      RunOk(pat, tac, before);
      ReportedKeepsOk(pat, tac, StateAfter(pat, tac, before), supi, gnb);
    }
  }

  /** The record of a UE depends on the reports about it alone. */
  lemma {:induction false} RecordInRun<Supi(!new)>(pat: seq<int>, tac: map<int, int>, reports: seq<(Supi, int)>, supi: Supi)
    requires pat != []
    ensures RecordOf(StateAfter(pat, tac, reports), supi) == ObserveAll(pat, tac, CellsOf(tac, reports, supi))
  {
    hide Observe;
    if reports != [] {
      var before := reports[..|reports| - 1];
      var (who, gnb) := reports[|reports| - 1];
      RecordInRun(pat, tac, before, supi);
      var cells := CellsOf(tac, before, supi);
      if who == supi && gnb in tac {
        assert (cells + [gnb])[..|cells|] == cells;
      } else {
        assert cells + [] == cells;
      }
    }
  }

  // ---------------------------------------------------------------- what the notification list means

  /** The report with which a UE completes the pattern. */
  predicate CompletedBy(pat: seq<int>, u: Ue, v: Ue) {
    v.pos == |pat| && v.tais != u.tais
  }

  /** A report that completes a pattern of at least two elements finds the UE one before the end and
      already alerted. */
  lemma CompletionFindsAlert(pat: seq<int>, tac: map<int, int>, u: Ue, gnb: int)
    requires |pat| >= 2 && gnb in tac && UeOk(pat, tac, u)
    ensures var v := Observe(pat, tac, u, gnb);
            && (v.entered && !u.entered ==> CompletedBy(pat, u, v))
            && (CompletedBy(pat, u, v) ==> u.pos == |pat| - 1 && u.alerted && u.level.Alert? && v.entered)
  {
    hide PosOf, Reached, DropRepeats, Tacs, Stutterless, Tracked;
    NoStart(pat);
    if u.tais != [] {
      LastIsReached(pat, u.tais);
    }
  }

  /** In every run of reports about any UEs: at the report with which a UE completes the pattern it is
      already on the notification list. */
  lemma NotifiedBeforeCompletion<Supi(!new)>(pat: seq<int>, tac: map<int, int>, reports: seq<(Supi, int)>, supi: Supi, gnb: int)
    requires |pat| >= 2
    ensures var before := StateAfter(pat, tac, reports);
            var after := StateAfter(pat, tac, reports + [(supi, gnb)]);
            var u, v := RecordOf(before, supi), RecordOf(after, supi);
            && (v.entered && !u.entered ==> CompletedBy(pat, u, v))
            && (CompletedBy(pat, u, v) ==> supi in before.notify && u.pos == |pat| - 1)
            && Distinct(before.notify)
  {
    hide UeOk, Observe, Distinct;
    var before := StateAfter(pat, tac, reports);
    var longer := reports + [(supi, gnb)];
    assert longer[..|longer| - 1] == reports;
    RunOk(pat, tac, reports);
    RecordOk(pat, tac, before, supi);
    if gnb in tac {
      CompletionFindsAlert(pat, tac, RecordOf(before, supi), gnb);
    }
  }

  /** With a single element the first report in its area completes the pattern without any notification. */
  lemma OneElementNotNotified(x: int, tac: map<int, int>, c: int)
    requires c in tac && tac[c] == x
    ensures var u := ObserveAll([x], tac, [c]);
            u.entered && !u.alerted && u.pos == 1
  {
    assert [c][..0] == [];
    assert ObserveAll([x], tac, [c]) == Observe([x], tac, FRESH, c);
  }

  /** Why the program refuses patterns of one element: completion implies notification, for every topology
      and all reports, if and only if the pattern has two elements or more. */
  lemma NotifiedIffTwoElements(pat: seq<int>)
    requires pat != []
    ensures |pat| >= 2 <==>
            forall tac, cells :: Known(tac, cells) && ObserveAll(pat, tac, cells).entered ==>
                                   ObserveAll(pat, tac, cells).alerted
  {
    if |pat| >= 2 {
      forall tac, cells | Known(tac, cells) && ObserveAll(pat, tac, cells).entered
        ensures ObserveAll(pat, tac, cells).alerted
      {
        RecordIsReports(pat, tac, cells);
        ReachedBefore(pat, ObserveAll(pat, tac, cells).tais);
      }
    } else {
      assert pat == [pat[0]];
      var tac: map<int, int> := map[1 := pat[0]];
      OneElementNotNotified(pat[0], tac, 1);
      assert Known(tac, [1]);
    }
  }

  /** A UE is on the list only if its history contains all but the last pattern element in a row; when
      the overlaps are found, also if. The same holds of completion and the whole pattern. */
  lemma NotifiedIffContained(pat: seq<int>, tac: map<int, int>, u: Ue)
    requires |pat| >= 2 && UeOk(pat, tac, u)
    ensures u.alerted ==> Contains(u.tais, pat, |pat| - 1)
    ensures u.entered ==> Contains(u.tais, pat, |pat|)
    ensures OverlapsAgree(pat, |pat| - 1) ==> (u.alerted <==> Contains(u.tais, pat, |pat| - 1))
    ensures OverlapsAgree(pat, |pat|) ==> (u.entered <==> Contains(u.tais, pat, |pat|))
  {
    hide Contains, Reached, PosOf, OverlapsAgree;
    if u.alerted { ReachedIsContained(pat, u.tais, |pat| - 1); }
    if u.entered { ReachedIsContained(pat, u.tais, |pat|); }
    if OverlapsAgree(pat, |pat| - 1) && Contains(u.tais, pat, |pat| - 1) {
      ContainedIsReached(pat, u.tais, |pat| - 1);
    }
    if OverlapsAgree(pat, |pat|) && Contains(u.tais, pat, |pat|) {
      ContainedIsReached(pat, u.tais, |pat|);
    }
  }

  /** A pattern with an immediate repeat is never completed: the history has none. */
  lemma RepeatNeverCompletes(pat: seq<int>, tac: map<int, int>, u: Ue, i: nat)
    requires pat != [] && UeOk(pat, tac, u) && i + 1 < |pat| && pat[i] == pat[i + 1]
    ensures !u.entered
  {
    if u.entered {
      var n :| 0 < n <= |u.tais| && PosOf(pat, u.tais[..n]) == |pat|;
      PositionMatches(pat, u.tais[..n]);
      MatchHasNoRepeats(pat, u.tais[..n], |pat|);
    }
  }

  /** For every sequence of reports about any UEs: a UE is on the notification list if and only if the
      tracking areas it was reported in, immediate repeats dropped, contain all but the last pattern
      element in a row; and it has completed the pattern if and only if they contain all of it. */
  lemma ReportsDecide<Supi(!new)>(pat: seq<int>, tac: map<int, int>, reports: seq<(Supi, int)>, supi: Supi)
    requires |pat| >= 2
    ensures var st := StateAfter(pat, tac, reports);
            var areas := DropRepeats(Tacs(tac, CellsOf(tac, reports, supi)));
            && (supi in st.notify ==> Contains(areas, pat, |pat| - 1))
            && (OverlapsAgree(pat, |pat| - 1) ==> (supi in st.notify <==> Contains(areas, pat, |pat| - 1)))
            && (OverlapsAgree(pat, |pat|) ==> (RecordOf(st, supi).entered <==> Contains(areas, pat, |pat|)))
  {
    hide ObserveAll, DropRepeats, Contains, UeOk, Tacs, StateAfter, OverlapsAgree;
    var cells := CellsOf(tac, reports, supi);
    RunOk(pat, tac, reports);
    RecordOk(pat, tac, StateAfter(pat, tac, reports), supi);
    RecordInRun(pat, tac, reports, supi);
    RecordIsReports(pat, tac, cells);
    NotifiedIffContained(pat, tac, ObserveAll(pat, tac, cells));
  }

  /** What is noted about a UE at position `k`: the notification one before the end, then completion. */
  predicate Noted(pat: seq<int>, u: Ue, k: nat) {
    if k == |pat| then u.entered else u.alerted
  }

  ghost predicate NotedIffContained(pat: seq<int>, tac: map<int, int>, cells: seq<int>, k: nat)
    requires |pat| >= 2 && k <= |pat| && Known(tac, cells)
  {
    Noted(pat, ObserveAll(pat, tac, cells), k) <==> Contains(DropRepeats(Tacs(tac, cells)), pat, k)
  }

  /** The condition is exact: whatever the topology and the reports, a UE is notified (has completed the
      pattern) if and only if the areas it was reported in contain all but the last element (all elements)
      in a row, exactly for the patterns whose overlaps are found. */
  lemma NotificationExactIff(pat: seq<int>, k: nat)
    requires |pat| >= 2 && |pat| - 1 <= k <= |pat|
    ensures OverlapsAgree(pat, k) <==>
            forall tac: map<int, int>, cells: seq<int> :: Known(tac, cells) ==> NotedIffContained(pat, tac, cells, k)
  {
    hide ObserveAll, DropRepeats, Contains, Tacs, OverlapsAgree, Reached;
    forall tac: map<int, int>, cells: seq<int> | OverlapsAgree(pat, k) && Known(tac, cells)
      ensures NotedIffContained(pat, tac, cells, k)
    {
      RecordIsReports(pat, tac, cells);
      NotifiedIffContained(pat, tac, ObserveAll(pat, tac, cells));
    }
    if forall tac: map<int, int>, cells: seq<int> :: Known(tac, cells) ==> NotedIffContained(pat, tac, cells, k) {
      forall h | Stutterless(h) && Contains(h, pat, k) ensures Reached(pat, h, k) {
        var tac := map x | x in h :: x;
        OneCellPerArea(tac, h);
        RecordIsReports(pat, tac, h);
        assert NotedIffContained(pat, tac, h, k);
      }
      ReachedWhenContainedIff(pat, k);
    }
  }

  /** A UE that is missed: with the pattern 1, 2, 1, 2, 3, 9 and one cell in each area the reports contain all
      but the last element in a row, and the UE is not notified. */
  lemma UeMissed(tac: map<int, int>)
    requires forall x :: x in [1, 2, 3] ==> x in tac && tac[x] == x
    ensures var pat, cells := [1, 2, 1, 2, 3, 9], [1, 2, 1, 2, 1, 2, 3];
            && Known(tac, cells) && Contains(DropRepeats(Tacs(tac, cells)), pat, 5)
            && !ObserveAll(pat, tac, cells).alerted
  {
    hide ObserveAll, DropRepeats, Contains, Tacs, Reached, PosOf;
    var pat, cells := [1, 2, 1, 2, 3, 9], [1, 2, 1, 2, 1, 2, 3];
    OverlapMissed();
    forall i | 0 <= i < |cells| ensures cells[i] in tac && tac[cells[i]] == cells[i] {
      var x := cells[i];
      assert x in [1, 2, 3];
    }
    OneCellPerArea(tac, cells);
    RecordIsReports(pat, tac, cells);
  }

  /** With one cell in each area every history without immediate repeats can be reported. */
  lemma OneCellPerArea(tac: map<int, int>, h: seq<int>)
    requires Stutterless(h) && forall i :: 0 <= i < |h| ==> h[i] in tac && tac[h[i]] == h[i]
    ensures Known(tac, h) && DropRepeats(Tacs(tac, h)) == h
  {
    assert Tacs(tac, h) == h;
    NothingToDrop(h);
  }

  lemma {:induction false} NothingToDrop(h: seq<int>)
    requires Stutterless(h)
    ensures DropRepeats(h) == h
  {
    if h != [] {
      var g, t := h[..|h| - 1], h[|h| - 1];
      NothingToDrop(g);
      assert h == g + [t];
      DropRepeatsSnoc(g, t);
      hide DropRepeats;
      if g != [] {
        assert h[|g| - 1] != h[|g| - 1 + 1];
      }
    }
  }
}

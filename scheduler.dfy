/**
 * The recursive scheduler of fringe.rb over the Show objects themselves.
 * `fp` is the set of objects the shows own (each show and its showtimes);
 * it is ghost and only frames what the scheduler may change. Every method
 * is proved to agree with the value-level functions of Plan.
 */
module Scheduler {
  import opened Wrappers
  import opened Timetable
  import opened Ordering
  import opened Shows
  import opened Plan

  /** Every show owns objects of fp only, is valid, and shares no object with another show. */
  ghost predicate Fleet(shows: seq<Show>, fp: set<object>)
    reads shows, fp
  {
    (forall s :: s in shows ==> s.Repr <= fp) &&
    (forall s :: s in shows ==> s.Valid()) &&
    (forall s, r :: s in shows && r in shows && s != r ==> s.Repr !! r.Repr)
  }

  /** The shows of the array as values. */
  ghost function StateOf(shows: seq<Show>, fp: set<object>): State
    reads shows, fp
    requires Fleet(shows, fp)
  {
    map s | s in shows :: s.State()
  }

  /** Changing one show of the array changes only its entry in the state. */
  lemma StateOfReplace(shows: seq<Show>, fp: set<object>, prev: State, x: Show)
    requires Fleet(shows, fp) && x in shows && prev.Keys == (set s | s in shows)
    requires forall s :: s in shows && s != x ==> s.State() == prev[s]
    ensures StateOf(shows, fp) == prev[x := x.State()]
  {
  }

  /**
   * One pass of the propagation loop: the show at position j closes the
   * showtimes in the window, which extends the propagation by one show.
   */
  method MarkOne(schedule: seq<Show>, ghost fp: set<object>, ghost st: State, from: nat, j: nat, day: string, hour: int)
    requires from <= j < |schedule| && Fleet(schedule, fp)
    requires StateOf(schedule, fp) == Propagate(st, schedule[from..j], day, hour)
    modifies fp
    ensures Fleet(schedule, fp)
    ensures StateOf(schedule, fp) == Propagate(st, schedule[from..j + 1], day, hour)
  {
    ghost var before := StateOf(schedule, fp);
    var x := schedule[j];
    assert x in schedule;
    x.MarkTimeUnavailable(day, hour);
    StateOfReplace(schedule, fp, before, x);
    PropagateSnoc(st, schedule, from, j, day, hour);
  }

  /** The propagation loop: every show of schedule[from..] closes the showtimes in the window. */
  method MarkLaterUnavailable(schedule: seq<Show>, ghost fp: set<object>, from: nat, day: string, hour: int)
    requires from <= |schedule| && Fleet(schedule, fp)
    modifies fp
    ensures Fleet(schedule, fp)
    ensures StateOf(schedule, fp) == Propagate(old(StateOf(schedule, fp)), schedule[from..], day, hour)
  {
    ghost var st := StateOf(schedule, fp);
    var j := from;
    assert schedule[from..j] == [];
    while j < |schedule|
      invariant from <= j <= |schedule| && Fleet(schedule, fp)
      invariant StateOf(schedule, fp) == Propagate(st, schedule[from..j], day, hour)
    {
      MarkOne(schedule, fp, st, from, j, day, hour);
      j := j + 1;
    }
    SliceToEnd(schedule, from);
  }

  /** Two arrays with the same shows, in any order, describe the same fleet and the same state. */
  lemma Permuted(a: seq<Show>, b: seq<Show>, fp: set<object>)
    requires multiset(a) == multiset(b) && Fleet(a, fp)
    ensures Fleet(b, fp) && StateOf(b, fp) == StateOf(a, fp)
  {
    assert forall s :: s in a <==> s in b by {
      forall s ensures s in a <==> s in b {
        assert s in a <==> s in multiset(a);
        assert s in b <==> s in multiset(b);
      }
    }
  }

  /** Choosing the k-th showtime of a show: the showtime and the show become attended. */
  method Choose(show: Show, time: Showtime, ghost k: nat)
    requires show.Valid() && k < |show.times| && show.times[k] == time
    modifies show, time
    ensures show.Valid() && show.Repr == old(show.Repr) && show.times == old(show.times)
    ensures show.State() == Attend(old(show.State()), k)
  {
    ViewsAgree(show.times);
    ghost var start := show.State();
    ghost var each := EachView(show.times);
    time.MarkAttended();
    ViewsReplace(show.times, each, k);
    show.attended := true;
    show.AttendDone(start, k);
  }

  /** Choosing the k-th showtime of a show of the array, seen from the whole array. */
  method ChooseInFleet(schedule: seq<Show>, ghost fp: set<object>, show: Show, time: Showtime, ghost k: nat)
    requires Fleet(schedule, fp) && show in schedule && k < |show.times| && show.times[k] == time
    modifies fp
    ensures Fleet(schedule, fp)
    ensures StateOf(schedule, fp) == old(StateOf(schedule, fp))[show := Attend(old(StateOf(schedule, fp))[show], k)]
  {
    ghost var before := StateOf(schedule, fp);
    Choose(show, time, k);
    StateOfReplace(schedule, fp, before, show);
  }

  /** The counters the re-sort compares, read from the shows. */
  lemma CountersAre(schedule: seq<Show>, fp: set<object>)
    requires Fleet(schedule, fp)
    ensures Counters(schedule) == AvailKeys(StateOf(schedule, fp), schedule)
  {
  }

  /** The first available showtime of the show at `index`, seen from the whole array. */
  method FirstFree(schedule: seq<Show>, ghost fp: set<object>, index: nat) returns (time: Showtime?)
    requires index < |schedule| && Fleet(schedule, fp)
    ensures StateOf(schedule, fp) == old(StateOf(schedule, fp))
    ensures FirstAvailable(StateOf(schedule, fp)[schedule[index]].slots).None? ==> time == null
    ensures FirstAvailable(StateOf(schedule, fp)[schedule[index]].slots).Some? ==>
      time == schedule[index].times[FirstAvailable(StateOf(schedule, fp)[schedule[index]].slots).value]
  {
    assert schedule[index] in schedule;
    assert StateOf(schedule, fp)[schedule[index]] == schedule[index].State();
    time := schedule[index].GetAvailable();
  }

  /**
   * Attends the first available showtime of the show at `index` and closes
   * the showtimes in its window on every later show: one successful step.
   */
  method AttendAndClose(schedule: seq<Show>, ghost fp: set<object>, index: nat, time: Showtime)
    requires index < |schedule| && Fleet(schedule, fp)
    requires FirstAvailable(StateOf(schedule, fp)[schedule[index]].slots).Some?
    requires time == schedule[index].times[FirstAvailable(StateOf(schedule, fp)[schedule[index]].slots).value]
    modifies fp
    ensures Fleet(schedule, fp)
    ensures Step(old(StateOf(schedule, fp)), schedule, index) == Some(StateOf(schedule, fp))
  {
    ghost var st := StateOf(schedule, fp);
    assert st[schedule[index]] == schedule[index].State();
    ghost var k := FirstAvailable(st[schedule[index]].slots).value;
    ViewAt(schedule[index].times, k);
    StepUnfolds(st, schedule, index, k, time.day, time.hour);
    assert schedule[index] in schedule && time in schedule[index].Repr;
    ChooseInFleet(schedule, fp, schedule[index], time, k);
    MarkLaterUnavailable(schedule, fp, index + 1, time.day, time.hour);
  }

  /** The counter of every show of the array. */
  function Counters(schedule: seq<Show>): (r: map<Show, int>)
    reads schedule
    ensures Keyed(schedule, r)
  {
    map s | s in schedule :: s.numAvail
  }

  /**
   * One call of the recursive scheduler: attend the first available showtime
   * of the show at `index`, close the showtimes in its window on every later
   * show, re-sort the array by counter and recurse, exactly as the
   * value-level run does.
   */
  method ScheduleNextShow(schedule: seq<Show>, ghost fp: set<object>, index: nat) returns (success: bool)
    requires index < |schedule| && Fleet(schedule, fp)
    modifies fp
    ensures Fleet(schedule, fp)
    ensures Run(old(StateOf(schedule, fp)), schedule, index) == Outcome(success, StateOf(schedule, fp))
    decreases |schedule| - index
  {
    ghost var st := StateOf(schedule, fp);
    var time := FirstFree(schedule, fp, index);
    if time == null {
      NoShowtimeFails(st, schedule, index);
      return false;
    }
    AttendAndClose(schedule, fp, index, time);
    ghost var next := StateOf(schedule, fp);
    RunAfterStep(st, schedule, index, next);
    if index + 1 == |schedule| {
      return true;
    }
    var sorted := SortBy(schedule, Counters(schedule));
    CountersAre(schedule, fp);
    Permuted(schedule, sorted, fp);
    success := ScheduleNextShow(sorted, fp, index + 1);
    Permuted(sorted, schedule, fp);
  }
}

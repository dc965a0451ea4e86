/**
 * The scheduler with the re-sort confined to the shows not yet scheduled:
 * positions up to the index keep their shows, and only the rest is sorted by
 * counter. With that change a run that reports success has booked every
 * show on exactly one showtime, and no two booked showtimes are within half
 * an hour of each other on the same day.
 */
module SuffixResort {
  import opened Wrappers
  import opened Timetable
  import opened Ordering
  import opened Shows
  import opened Plan
  import opened Scheduler

  /** The array for the next index: the scheduled prefix as it is, the rest re-sorted by counter. */
  function ResortRest(st: State, order: seq<Show>, index: nat): (r: seq<Show>)
    requires index <= |order| && Covers(st, order)
    ensures |r| == |order| && r[..index] == order[..index]
    ensures multiset(r[index..]) == multiset(order[index..]) && Covers(st, r)
  {
    assert forall s :: s in order[index..] ==> s in order;
    var r := order[..index] + Resort(st, order[index..]);
    assert r[..index] == order[..index] && r[index..] == Resort(st, order[index..]);
    assert order == order[..index] + order[index..];
    assert multiset(r) == multiset(order);
    assert forall s :: s in r ==> s in multiset(order);
    r
  }

  /** The corrected recursion: as Plan.Run, but re-sorting only the positions after the index. */
  function RunRest(st: State, order: seq<Show>, index: nat): (r: Outcome)
    requires index < |order| && Covers(st, order)
    ensures r.state.Keys == st.Keys
    decreases |order| - index
  {
    match Step(st, order, index)
    case None => Outcome(false, st)
    case Some(next) =>
      if index + 1 == |order| then Outcome(true, next)
      else RunRest(next, ResortRest(next, order, index + 1), index + 1)
  }

  // ---------------------------------------------------------------------------
  // What a booking is

  /** Two showtimes within the window of each other. */
  predicate Clash(x: Slot, y: Slot)
  {
    Conflicts(x.day, x.hour, y.day, y.hour)
  }

  /** Neither the show nor any of its showtimes is attended yet. */
  predicate Untouched(s: ShowState)
  {
    !s.attended && forall i :: 0 <= i < |s.slots| ==> !s.slots[i].attended
  }

  /** The i-th showtime is the only attended one. */
  predicate OnlyAttended(s: ShowState, i: nat)
  {
    forall j :: 0 <= j < |s.slots| ==> (s.slots[j].attended <==> j == i)
  }

  /** The show is attended, on exactly one of its showtimes. */
  predicate Booked(s: ShowState)
  {
    s.attended && exists i :: 0 <= i < |s.slots| && OnlyAttended(s, i)
  }

  /** No attended showtime of `a` clashes with an available showtime of `b`. */
  predicate Apart(a: ShowState, b: ShowState)
  {
    forall i, j :: 0 <= i < |a.slots| && 0 <= j < |b.slots| && a.slots[i].attended && b.slots[j].available ==>
      !Clash(a.slots[i], b.slots[j])
  }

  /** No attended showtime of `a` clashes with an attended showtime of `b`. */
  predicate Compatible(a: ShowState, b: ShowState)
  {
    forall i, j :: 0 <= i < |a.slots| && 0 <= j < |b.slots| && a.slots[i].attended && b.slots[j].attended ==>
      !Clash(a.slots[i], b.slots[j])
  }

  /** Every show of `shows` is booked, and the bookings of different shows do not clash. */
  predicate Timetabled(st: State, shows: seq<Show>)
    requires Covers(st, shows)
  {
    (forall s :: s in shows ==> Booked(st[s])) &&
    (forall s, t :: s in shows && t in shows && s != t ==> Compatible(st[s], st[t]))
  }

  /**
   * Between steps: the scheduled shows are booked without clashes, the others
   * are untouched, and nothing still available to them clashes with a booking.
   */
  predicate Progress(st: State, done: seq<Show>, rest: seq<Show>)
    requires Covers(st, done) && Covers(st, rest)
  {
    Timetabled(st, done) &&
    (forall s :: s in rest ==> Untouched(st[s])) &&
    (forall s, t :: s in done && t in rest ==> Apart(st[s], st[t]))
  }

  // ---------------------------------------------------------------------------
  // One show at a time

  /** Attending a showtime of an untouched show books it on that showtime alone. */
  lemma AttendBooks(s: ShowState, k: nat)
    requires Untouched(s) && k < |s.slots|
    ensures Booked(Attend(s, k)) && OnlyAttended(Attend(s, k), k)
  {
    assert OnlyAttended(Attend(s, k), k);
  }

  /** Invalidation neither attends nor reopens anything. */
  lemma InvalidatedUntouched(s: ShowState, day: string, hour: int)
    requires Untouched(s)
    ensures Untouched(Invalidated(s, day, hour))
  {
    InvalidateMeaning(s.slots, day, hour);
  }

  /** Closing showtimes of `b` keeps it apart from `a`. */
  lemma InvalidatedApart(a: ShowState, b: ShowState, day: string, hour: int)
    requires Apart(a, b)
    ensures Apart(a, Invalidated(b, day, hour))
  {
    InvalidateMeaning(b.slots, day, hour);
  }

  /** After the window around the k-th showtime of `a` is closed in `b`, the booking of `a` is apart from `b`. */
  lemma BookedApart(a: ShowState, k: nat, b: ShowState)
    requires Untouched(a) && k < |a.slots|
    ensures Apart(Attend(a, k), Invalidated(b, a.slots[k].day, a.slots[k].hour))
  {
    AttendBooks(a, k);
    InvalidateMeaning(b.slots, a.slots[k].day, a.slots[k].hour);
  }

  /** A booking made on a showtime still available is compatible, both ways, with every booking it is apart from. */
  lemma BookedCompatible(d: ShowState, a: ShowState, k: nat)
    requires Untouched(a) && k < |a.slots| && a.slots[k].available && Apart(d, a)
    ensures Compatible(d, Attend(a, k)) && Compatible(Attend(a, k), d)
  {
    AttendBooks(a, k);
    forall i | 0 <= i < |d.slots| && d.slots[i].attended
      ensures !Clash(d.slots[i], a.slots[k]) && !Clash(a.slots[k], d.slots[i])
    {
      ConflictsSymmetric(d.slots[i].day, d.slots[i].hour, a.slots[k].day, a.slots[k].hour);
    }
  }

  // ---------------------------------------------------------------------------
  // One step

  /** In an array without repeated shows, a show of the prefix is not in the suffix. */
  lemma DistinctSplit(order: seq<Show>, index: nat)
    requires index <= |order| && Distinct(order)
    ensures forall s :: s in order[..index] ==> s !in order[index..]
  {
    forall s | s in order[..index] ensures s !in order[index..] {
      var p :| 0 <= p < index && order[p] == s;
      assert forall q :: 0 <= q < |order| - index ==> order[index..][q] == order[index + q] != s;
    }
  }

  /** A successful step over a distinct array: each show's new state. */
  lemma StepShows(st: State, order: seq<Show>, index: nat)
    requires index < |order| && Covers(st, order) && Distinct(order) && Step(st, order, index).Some?
    ensures var cur := st[order[index]];
      var k := FirstAvailable(cur.slots).value;
      var next := Step(st, order, index).value;
      next[order[index]] == Attend(cur, k) &&
      (forall s :: s in order[index + 1..] ==> next[s] == Invalidated(st[s], cur.slots[k].day, cur.slots[k].hour)) &&
      (forall s :: s in order[..index] ==> next[s] == st[s])
  {
    var cur := st[order[index]];
    var k := FirstAvailable(cur.slots).value;
    var t := cur.slots[k];
    var later := order[index + 1..];
    var st1 := st[order[index] := Attend(cur, k)];
    DistinctSplit(order, index);
    DistinctSplit(order, index + 1);
    assert order[index] in order[..index + 1];
    assert forall s :: s in order[..index] ==> s in order[..index + 1] && s in order;
    forall s | s in st
      ensures Propagate(st1, later, t.day, t.hour)[s] ==
              if s in later then Invalidated(st1[s], t.day, t.hour) else st1[s]
    {
      PropagateAt(st1, later, t.day, t.hour, s);
    }
  }

  /** Membership in the two halves around the index. */
  lemma Halves(order: seq<Show>, index: nat)
    requires index < |order|
    ensures forall s :: s in order[..index + 1] <==> s in order[..index] || s == order[index]
    ensures forall s :: s in order[index..] <==> s == order[index] || s in order[index + 1..]
  {
    assert order[..index + 1] == order[..index] + [order[index]];
    assert order[index..] == [order[index]] + order[index + 1..];
  }

  /** A successful step moves the show at the index from the untouched part to the booked part. */
  lemma StepProgress(st: State, order: seq<Show>, index: nat)
    requires index < |order| && Covers(st, order) && Distinct(order) && Step(st, order, index).Some?
    requires Progress(st, order[..index], order[index..])
    ensures Covers(Step(st, order, index).value, order)
    ensures Progress(Step(st, order, index).value, order[..index + 1], order[index + 1..])
  {
    var cur := order[index];
    var k := FirstAvailable(st[cur].slots).value;
    var t := st[cur].slots[k];
    var next := Step(st, order, index).value;
    StepShows(st, order, index);
    Halves(order, index);
    DistinctSplit(order, index);
    DistinctSplit(order, index + 1);
    assert cur in order[index..];
    AttendBooks(st[cur], k);
    forall s | s in order[index + 1..] ensures Untouched(next[s]) && Apart(next[cur], next[s]) {
      InvalidatedUntouched(st[s], t.day, t.hour);
      BookedApart(st[cur], k, st[s]);
    }
    forall d, s | d in order[..index] && s in order[index + 1..] ensures Apart(next[d], next[s]) {
      InvalidatedApart(st[d], st[s], t.day, t.hour);
    }
    forall d | d in order[..index] ensures Compatible(next[d], next[cur]) && Compatible(next[cur], next[d]) {
      BookedCompatible(st[d], st[cur], k);
    }
  }

  // ---------------------------------------------------------------------------
  // The whole run

  /** Progress depends only on which shows are in each part, not on their order. */
  lemma ProgressRearranged(st: State, done: seq<Show>, rest: seq<Show>, rest': seq<Show>)
    requires Covers(st, done) && Covers(st, rest) && multiset(rest) == multiset(rest')
    requires Progress(st, done, rest)
    ensures Covers(st, rest') && Progress(st, done, rest')
  {
    forall s ensures s in rest <==> s in rest' {
      assert s in rest <==> s in multiset(rest);
      assert s in rest' <==> s in multiset(rest');
    }
  }

  /** The corrected re-sort rearranges the array. */
  lemma ResortRestPermutes(st: State, order: seq<Show>, index: nat)
    requires index <= |order| && Covers(st, order)
    ensures multiset(ResortRest(st, order, index)) == multiset(order)
  {
    var r := ResortRest(st, order, index);
    assert r == r[..index] + r[index..];
    assert order == order[..index] + order[index..];
  }

  /** The next array is again without repeated shows. */
  lemma ResortRestDistinct(st: State, order: seq<Show>, index: nat)
    requires index <= |order| && Covers(st, order) && Distinct(order)
    ensures Distinct(ResortRest(st, order, index))
  {
    ResortRestPermutes(st, order, index);
    DistinctPermuted(order, ResortRest(st, order, index));
  }

  /** The re-sorted array again has no repeated show, and the same progress, at the next index. */
  lemma ResortRestProgress(st: State, order: seq<Show>, index: nat)
    requires index < |order| && Covers(st, order) && Distinct(order)
    requires Progress(st, order[..index], order[index..])
    ensures var order' := ResortRest(st, order, index);
      Distinct(order') && Progress(st, order'[..index], order'[index..]) &&
      forall s :: s in order' <==> s in order
  {
    var order' := ResortRest(st, order, index);
    ResortRestDistinct(st, order, index);
    assert order'[..index] == order[..index];
    assert forall s :: s in order[index..] ==> s in order;
    ProgressRearranged(st, order[..index], order[index..], order'[index..]);
    ResortRestPermutes(st, order, index);
    forall s ensures s in order' <==> s in order {
      assert s in order' <==> s in multiset(order');
      assert s in order <==> s in multiset(order);
    }
  }

  /** Timetabled depends only on which shows are listed. */
  lemma TimetabledSameShows(st: State, a: seq<Show>, b: seq<Show>)
    requires Covers(st, a) && forall s :: s in a <==> s in b
    requires Timetabled(st, a)
    ensures Covers(st, b) && Timetabled(st, b)
  {
  }

  /**
   * From any point where the scheduled prefix is booked without clashes and
   * the rest is untouched, a run that reports success has booked every show.
   */
  lemma {:induction false} RunRestBooks(st: State, order: seq<Show>, index: nat)
    requires index < |order| && Covers(st, order) && Distinct(order)
    requires Progress(st, order[..index], order[index..])
    ensures RunRest(st, order, index).success ==> Timetabled(RunRest(st, order, index).state, order)
    decreases |order| - index
  {
    match Step(st, order, index)
    case None =>
    case Some(next) =>
      StepProgress(st, order, index);
      if index + 1 == |order| {
        assert order[..index + 1] == order;
      } else {
        var order' := ResortRest(next, order, index + 1);
        ResortRestProgress(next, order, index + 1);
        RunRestBooks(next, order', index + 1);
        if RunRest(next, order', index + 1).success {
          TimetabledSameShows(RunRest(next, order', index + 1).state, order', order);
        }
      }
  }

  /**
   * The corrected scheduler keeps its promise: started on shows none of which
   * is attended, a run that reports success has booked every show on exactly
   * one showtime, and no two bookings clash.
   */
  lemma ResortRestSchedulesAll(st: State, order: seq<Show>)
    requires |order| > 0 && Covers(st, order) && Distinct(order)
    requires forall s :: s in order ==> Untouched(st[s])
    ensures RunRest(st, order, 0).success ==> Timetabled(RunRest(st, order, 0).state, order)
  {
    assert order[..0] == [] && order[0..] == order;
    RunRestBooks(st, order, 0);
  }

  // ---------------------------------------------------------------------------
  // The corrected scheduler over the Show objects

  /** A show with no available showtime ends the corrected run with failure and no change. */
  lemma RunRestFails(st: State, order: seq<Show>, index: nat)
    requires index < |order| && Covers(st, order) && Step(st, order, index).None?
    ensures RunRest(st, order, index) == Outcome(false, st)
  {
  }

  /** After a successful step the corrected run ends at the last show, and otherwise re-sorts the rest and goes on. */
  lemma RunRestAfterStep(st: State, order: seq<Show>, index: nat, next: State)
    requires index < |order| && Covers(st, order) && Step(st, order, index) == Some(next)
    ensures Covers(next, order)
    ensures index + 1 == |order| ==> RunRest(st, order, index) == Outcome(true, next)
    ensures index + 1 < |order| ==> RunRest(st, order, index) == RunRest(next, ResortRest(next, order, index + 1), index + 1)
  {
  }

  /** Shows taken from a fleet form a fleet with the same states. */
  lemma FleetPart(shows: seq<Show>, part: seq<Show>, fp: set<object>)
    requires Fleet(shows, fp) && forall s :: s in part ==> s in shows
    ensures Fleet(part, fp) && forall s :: s in part ==> StateOf(part, fp)[s] == StateOf(shows, fp)[s]
  {
  }

  /**
   * The shows before the index followed by the rest sorted by their own
   * counters: this is the corrected re-sort, and it is a rearrangement of the
   * array that leaves every show as it is.
   */
  lemma SortedRest(schedule: seq<Show>, fp: set<object>, index: nat)
    requires index <= |schedule| && Fleet(schedule, fp)
    ensures var sorted := schedule[..index] + SortBy(schedule[index..], Counters(schedule[index..]));
      sorted == ResortRest(StateOf(schedule, fp), schedule, index) &&
      multiset(sorted) == multiset(schedule) &&
      Fleet(sorted, fp) && StateOf(sorted, fp) == StateOf(schedule, fp)
  {
    var rest := schedule[index..];
    assert forall s :: s in rest ==> s in schedule;
    FleetPart(schedule, rest, fp);
    CountersAre(rest, fp);
    assert AvailKeys(StateOf(rest, fp), rest) == AvailKeys(StateOf(schedule, fp), rest);
    var sorted := schedule[..index] + SortBy(rest, Counters(rest));
    assert schedule == schedule[..index] + rest;
    Permuted(schedule, sorted, fp);
  }

  /**
   * The scheduler with the corrected re-sort: as ScheduleNextShow, but the
   * shows up to the index keep their positions. It computes the corrected
   * run, so on shows none of which is attended, with no show listed twice,
   * success means every show is booked once and no two bookings clash.
   */
  method ScheduleRemaining(schedule: seq<Show>, ghost fp: set<object>, index: nat) returns (success: bool)
    requires index < |schedule| && Fleet(schedule, fp)
    modifies fp
    ensures Fleet(schedule, fp)
    ensures RunRest(old(StateOf(schedule, fp)), schedule, index) == Outcome(success, StateOf(schedule, fp))
    decreases |schedule| - index
  {
    ghost var st := StateOf(schedule, fp);
    var time := FirstFree(schedule, fp, index);
    if time == null {
      RunRestFails(st, schedule, index);
      return false;
    }
    AttendAndClose(schedule, fp, index, time);
    ghost var next := StateOf(schedule, fp);
    RunRestAfterStep(st, schedule, index, next);
    if index + 1 == |schedule| {
      return true;
    }
    var rest := schedule[index + 1..];
    var sorted := schedule[..index + 1] + SortBy(rest, Counters(rest));
    SortedRest(schedule, fp, index + 1);
    assert StateOf(sorted, fp) == next;
    success := ScheduleRemaining(sorted, fp, index + 1);
    ghost var result := Outcome(success, StateOf(sorted, fp));
    assert RunRest(next, sorted, index + 1) == result;
    Permuted(sorted, schedule, fp);
    assert RunRest(st, schedule, index) == result;
  }

  /** Started at position 0 on untouched shows, the corrected scheduler books every show without clashes when it succeeds. */
  method ScheduleAll(schedule: seq<Show>, ghost fp: set<object>) returns (success: bool)
    requires |schedule| > 0 && Fleet(schedule, fp) && Distinct(schedule)
    requires forall s :: s in schedule ==> Untouched(s.State())
    modifies fp
    ensures Fleet(schedule, fp)
    ensures success ==> Timetabled(StateOf(schedule, fp), schedule)
  {
    ghost var st := StateOf(schedule, fp);
    ResortRestSchedulesAll(st, schedule);
    success := ScheduleRemaining(schedule, fp, 0);
  }
}

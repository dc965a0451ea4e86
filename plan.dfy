/**
 * The scheduler of fringe.rb as a function on values. A state gives every
 * show its counter, its flag and its showtimes; the order is the array the
 * scheduler walks, and the index is the position it is about to fill.
 * The imperative scheduler is proved to compute exactly this.
 */
module Plan {
  import opened Wrappers
  import opened Timetable
  import opened Ordering
  import opened Shows

  type State = map<Show, ShowState>

  /** Every show of the order has a state. */
  predicate Covers(st: State, order: seq<Show>)
  {
    forall s :: s in order ==> s in st
  }

  /** The outcome of a run: the boolean the source returns, and the shows as they are left. */
  datatype Outcome = Outcome(success: bool, state: State)

  /** The propagation loop: each show of `later`, in turn, loses its showtimes in the window. */
  function Propagate(st: State, later: seq<Show>, day: string, hour: int): (r: State)
    ensures r.Keys == st.Keys
    decreases |later|
  {
    if later == [] then st
    else
      var m := Propagate(st, later[..|later| - 1], day, hour);
      var x := later[|later| - 1];
      if x in m then m[x := Invalidated(m[x], day, hour)] else m
  }

  /** Propagating over one more show of the order. */
  lemma PropagateSnoc(st: State, order: seq<Show>, from: nat, j: nat, day: string, hour: int)
    requires from <= j < |order|
    ensures var m := Propagate(st, order[from..j], day, hour);
      Propagate(st, order[from..j + 1], day, hour) ==
      if order[j] in m then m[order[j] := Invalidated(m[order[j]], day, hour)] else m
  {
    assert order[from..j + 1][..j - from] == order[from..j];
  }

  /** The whole suffix is the slice to the end. */
  lemma SliceToEnd(order: seq<Show>, from: nat)
    requires from <= |order|
    ensures order[from..|order|] == order[from..]
  {
  }

  /**
   * One call without its recursion: take the first available showtime of the
   * show at `index`, attend it, and invalidate the window on every show after
   * `index`. None when the show has no available showtime.
   */
  function Step(st: State, order: seq<Show>, index: nat): (r: Option<State>)
    requires index < |order| && Covers(st, order)
    ensures r.Some? ==> r.value.Keys == st.Keys
  {
    var cur := st[order[index]];
    match FirstAvailable(cur.slots)
    case None => None
    case Some(k) =>
      var t := cur.slots[k];
      Some(Propagate(st[order[index] := Attend(cur, k)], order[index + 1..], t.day, t.hour))
  }

  /** A step, unfolded for a show whose first available showtime is the k-th. */
  lemma StepUnfolds(st: State, order: seq<Show>, index: nat, k: nat, day: string, hour: int)
    requires index < |order| && Covers(st, order)
    requires FirstAvailable(st[order[index]].slots) == Some(k)
    requires day == st[order[index]].slots[k].day && hour == st[order[index]].slots[k].hour
    ensures Step(st, order, index) ==
            Some(Propagate(st[order[index] := Attend(st[order[index]], k)], order[index + 1..], day, hour))
  {
  }

  /** A show with no available showtime ends the run with failure and no change. */
  lemma NoShowtimeFails(st: State, order: seq<Show>, index: nat)
    requires index < |order| && Covers(st, order)
    requires FirstAvailable(st[order[index]].slots).None?
    ensures Run(st, order, index) == Outcome(false, st)
  {
  }

  /** The counters the re-sort compares. */
  function AvailKeys(st: State, order: seq<Show>): map<Show, int>
    requires Covers(st, order)
  {
    map s | s in order :: st[s].numAvail
  }

  /** The re-sort: the same shows, by non-decreasing counter. */
  function Resort(st: State, order: seq<Show>): (r: seq<Show>)
    requires Covers(st, order)
    ensures multiset(r) == multiset(order) && Covers(st, r)
  {
    var r := SortBy(order, AvailKeys(st, order));
    assert forall s :: s in r ==> s in multiset(order);
    r
  }

  /**
   * The whole recursion: steps until a show has no available showtime
   * (false) or the index reaches the end of the array (true), re-sorting
   * the whole array between steps.
   */
  function Run(st: State, order: seq<Show>, index: nat): (r: Outcome)
    requires index < |order| && Covers(st, order)
    ensures r.state.Keys == st.Keys
    decreases |order| - index
  {
    match Step(st, order, index)
    case None => Outcome(false, st)
    case Some(next) =>
      if index + 1 == |order| then Outcome(true, next)
      else Run(next, Resort(next, order), index + 1)
  }

  // ---------------------------------------------------------------------------
  // What one step does

  /** Invalidating a show more than once is the same as invalidating it once. */
  lemma {:induction false} PropagateAt(st: State, later: seq<Show>, day: string, hour: int, s: Show)
    requires s in st
    ensures Propagate(st, later, day, hour)[s] ==
            if s in later then Invalidated(st[s], day, hour) else st[s]
    decreases |later|
  {
    if later != [] {
      var front := later[..|later| - 1];
      assert later == front + [later[|later| - 1]];
      PropagateAt(st, front, day, hour, s);
      if s in front && s == later[|later| - 1] {
        InvalidatedIdempotent(st[s], day, hour);
      }
    }
  }

  /** The step fails exactly when the current show's counter is zero, and then nothing changes. */
  lemma StepFailsIffExhausted(st: State, order: seq<Show>, index: nat)
    requires index < |order| && Covers(st, order) && Counted(st[order[index]])
    ensures Step(st, order, index).None? <==> st[order[index]].numAvail == 0
    ensures Step(st, order, index).None? ==> Run(st, order, index) == Outcome(false, st)
  {
    NoneAvailableIffZero(st[order[index]].slots);
  }

  /**
   * A successful step on an array without repeated shows: the current show
   * attends its first available showtime, every later show is invalidated
   * around that showtime, and every earlier show is left exactly as it was.
   */
  lemma StepEffect(st: State, order: seq<Show>, index: nat)
    requires index < |order| && Covers(st, order) && Distinct(order)
    requires Step(st, order, index).Some?
    ensures var cur := st[order[index]];
      var k := FirstAvailable(cur.slots).value;
      var t := cur.slots[k];
      var next := Step(st, order, index).value;
      next[order[index]] == Attend(cur, k) &&
      (forall p :: 0 <= p < index ==> next[order[p]] == st[order[p]]) &&
      (forall p :: index < p < |order| ==> next[order[p]] == Invalidated(st[order[p]], t.day, t.hour)) &&
      (forall s :: s in st && s !in order ==> next[s] == st[s])
  {
    var cur := st[order[index]];
    var k := FirstAvailable(cur.slots).value;
    var t := cur.slots[k];
    var later := order[index + 1..];
    var st1 := st[order[index] := Attend(cur, k)];
    assert forall s :: s in later ==> s in order;
    forall s | s in st
      ensures Propagate(st1, later, t.day, t.hour)[s] ==
              if s in later then Invalidated(st1[s], t.day, t.hour) else st1[s]
    {
      PropagateAt(st1, later, t.day, t.hour, s);
    }
    forall p | 0 <= p < |order| && p != index
      ensures (order[p] in later <==> p > index) && order[p] != order[index]
    {
      if p > index {
        assert order[p] == later[p - index - 1];
      }
      if order[p] in later {
        var q :| 0 <= q < |later| && later[q] == order[p];
        assert order[index + 1 + q] == order[p];
      }
    }
  }

  // ---------------------------------------------------------------------------
  // What the whole run keeps

  /** A show is marked attended exactly when one of its showtimes is. */
  predicate Committed(s: ShowState)
  {
    s.attended <==> exists i :: 0 <= i < |s.slots| && s.slots[i].attended
  }

  /**
   * How a show may change during a run: the list keeps its length and each
   * showtime its day and time; a closed showtime is never reopened and an
   * attended showtime or show is never un-attended.
   */
  predicate Evolves(a: ShowState, b: ShowState)
  {
    |b.slots| == |a.slots| && (a.attended ==> b.attended) &&
    forall i :: 0 <= i < |a.slots| ==>
      b.slots[i].day == a.slots[i].day && b.slots[i].hour == a.slots[i].hour &&
      (b.slots[i].available ==> a.slots[i].available) &&
      (a.slots[i].attended ==> b.slots[i].attended)
  }

  /** Every show's counter agrees with its showtimes. */
  predicate AllCounted(st: State)
  {
    forall s :: s in st ==> Counted(st[s])
  }

  /** Every show's flag agrees with its showtimes. */
  predicate AllCommitted(st: State)
  {
    forall s :: s in st ==> Committed(st[s])
  }

  /** Every show of `st` has evolved into its state in `st'`. */
  predicate AllEvolve(st: State, st': State)
  {
    st'.Keys == st.Keys && forall s :: s in st ==> Evolves(st[s], st'[s])
  }

  lemma EvolvesTransitive(a: ShowState, b: ShowState, c: ShowState)
    requires Evolves(a, b) && Evolves(b, c)
    ensures Evolves(a, c)
  {
  }

  lemma AllEvolveTransitive(st1: State, st2: State, st3: State)
    requires AllEvolve(st1, st2) && AllEvolve(st2, st3)
    ensures AllEvolve(st1, st3)
  {
    forall s | s in st1 ensures Evolves(st1[s], st3[s]) {
      EvolvesTransitive(st1[s], st2[s], st3[s]);
    }
  }

  /** Attending keeps the counter right, commits the show, and only adds attendance. */
  lemma AttendKeeps(s: ShowState, k: nat)
    requires k < |s.slots|
    ensures Counted(s) ==> Counted(Attend(s, k))
    ensures Committed(Attend(s, k)) && Evolves(s, Attend(s, k))
  {
    CountAvailableIgnoresAttendance(s.slots, k);
    assert Attend(s, k).slots[k].attended;
  }

  /** Invalidation keeps the counter and the flag right, and only closes showtimes. */
  lemma InvalidatedKeeps(s: ShowState, day: string, hour: int)
    ensures Counted(s) ==> Counted(Invalidated(s, day, hour))
    ensures Committed(s) ==> Committed(Invalidated(s, day, hour))
    ensures Evolves(s, Invalidated(s, day, hour))
  {
    InvalidateMeaning(s.slots, day, hour);
    InvalidateCount(s.slots, day, hour);
    var r := Invalidated(s, day, hour);
    if Committed(s) && s.attended {
      var i :| 0 <= i < |s.slots| && s.slots[i].attended;
      assert r.slots[i].attended;
    }
  }

  /** One successful step keeps every counter and flag right and only moves shows forward. */
  lemma StepKeeps(st: State, order: seq<Show>, index: nat)
    requires index < |order| && Covers(st, order) && Step(st, order, index).Some?
    ensures var next := Step(st, order, index).value;
      (AllCounted(st) ==> AllCounted(next)) &&
      (AllCommitted(st) ==> AllCommitted(next)) &&
      AllEvolve(st, next)
  {
    var cur := st[order[index]];
    var k := FirstAvailable(cur.slots).value;
    var t := cur.slots[k];
    var later := order[index + 1..];
    var st1 := st[order[index] := Attend(cur, k)];
    assert forall s :: s in later ==> s in order;
    var next := Step(st, order, index).value;
    AttendKeeps(cur, k);
    forall s | s in st
      ensures (Counted(st[s]) ==> Counted(next[s])) && (Committed(st[s]) ==> Committed(next[s]))
      ensures Evolves(st[s], next[s])
    {
      PropagateAt(st1, later, t.day, t.hour, s);
      InvalidatedKeeps(st1[s], t.day, t.hour);
      if s == order[index] {
        EvolvesTransitive(st[s], st1[s], next[s]);
      }
    }
  }

  /**
   * Over a whole run the counters stay equal to the number of available
   * showtimes, a show is attended exactly when one of its showtimes is, and
   * showtimes are only ever closed or attended, never reopened or dropped.
   */
  lemma {:induction false} RunKeeps(st: State, order: seq<Show>, index: nat)
    requires index < |order| && Covers(st, order)
    ensures var r := Run(st, order, index).state;
      (AllCounted(st) ==> AllCounted(r)) &&
      (AllCommitted(st) ==> AllCommitted(r)) &&
      AllEvolve(st, r)
    decreases |order| - index
  {
    match Step(st, order, index)
    case None =>
    case Some(next) =>
      StepKeeps(st, order, index);
      if index + 1 < |order| {
        var sorted := Resort(next, order);
        RunKeeps(next, sorted, index + 1);
        AllEvolveTransitive(st, next, Run(next, sorted, index + 1).state);
      }
  }

  /** No showtime of the show is available. */
  predicate Exhausted(s: ShowState)
  {
    forall i :: 0 <= i < |s.slots| ==> !s.slots[i].available
  }

  /** A run that reports failure leaves a show of the array with no available showtime. */
  lemma {:induction false} RunFailure(st: State, order: seq<Show>, index: nat)
    requires index < |order| && Covers(st, order)
    requires !Run(st, order, index).success
    ensures exists s :: s in order && Exhausted(Run(st, order, index).state[s])
    decreases |order| - index
  {
    match Step(st, order, index)
    case None =>
      assert order[index] in order;
    case Some(next) =>
      var sorted := Resort(next, order);
      RunFailure(next, sorted, index + 1);
      var s :| s in sorted && Exhausted(Run(next, sorted, index + 1).state[s]);
      assert s in multiset(sorted);
  }

  /** After a successful step the run ends with success at the last show, and otherwise re-sorts and goes on. */
  lemma RunAfterStep(st: State, order: seq<Show>, index: nat, next: State)
    requires index < |order| && Covers(st, order) && Step(st, order, index) == Some(next)
    ensures Covers(next, order)
    ensures index + 1 == |order| ==> Run(st, order, index) == Outcome(true, next)
    ensures index + 1 < |order| ==> Run(st, order, index) == Run(next, Resort(next, order), index + 1)
  {
  }
}

/**
 * Value-level vocabulary of the scheduler: a showtime as a value, the
 * half-hour conflict window, and what one pass of conflict propagation
 * does to a show's list of showtimes.
 *
 * Times are minutes since midnight (HH * 60 + MM), so the source's
 * window of half an hour on decimal hours is a window of 30 minutes.
 */
module Timetable {
  import opened Wrappers

  /** A snapshot of one showtime: its day label, start time and two flags. */
  datatype Slot = Slot(day: string, hour: int, available: bool, attended: bool)

  /** A snapshot of one show: its cached counter, its flag and its showtimes. */
  datatype ShowState = ShowState(numAvail: int, attended: bool, slots: seq<Slot>)

  /** Same day and start times at most half an hour (30 minutes) apart. */
  predicate Conflicts(day1: string, hour1: int, day2: string, hour2: int)
  {
    day1 == day2 && -30 <= hour1 - hour2 <= 30
  }

  lemma ConflictsSymmetric(day1: string, hour1: int, day2: string, hour2: int)
    ensures Conflicts(day1, hour1, day2, hour2) <==> Conflicts(day2, hour2, day1, hour1)
  {
  }

  /** One iteration of the invalidation loop: an available slot in the window is closed. */
  function Clear(t: Slot, day: string, hour: int): Slot
  {
    if Conflicts(day, hour, t.day, t.hour) && t.available then t.(available := false) else t
  }

  /** The invalidation loop over a whole list of showtimes. */
  function Invalidate(slots: seq<Slot>, day: string, hour: int): (r: seq<Slot>)
    ensures |r| == |slots|
  {
    if slots == [] then [] else [Clear(slots[0], day, hour)] + Invalidate(slots[1..], day, hour)
  }

  /** Number of showtimes still available. */
  function CountAvailable(slots: seq<Slot>): nat
  {
    if slots == [] then 0 else (if slots[0].available then 1 else 0) + CountAvailable(slots[1..])
  }

  /** Number of showtimes one invalidation pass closes: available and in the window. */
  function CountFlipped(slots: seq<Slot>, day: string, hour: int): nat
  {
    if slots == [] then 0
    else (if slots[0].available && Conflicts(day, hour, slots[0].day, slots[0].hour) then 1 else 0)
         + CountFlipped(slots[1..], day, hour)
  }

  /** Position of the first available showtime in list order, if any. */
  function FirstAvailable(slots: seq<Slot>): (r: Option<nat>)
    ensures r.Some? ==> r.value < |slots| && slots[r.value].available
    ensures r.Some? ==> forall j :: 0 <= j < r.value ==> !slots[j].available
    ensures r.None? <==> forall j :: 0 <= j < |slots| ==> !slots[j].available
  {
    if slots == [] then None
    else if slots[0].available then Some(0)
    else match FirstAvailable(slots[1..])
      case None => None
      case Some(k) => Some(k + 1)
  }

  /** The counter of a show agrees with its list of showtimes. */
  predicate Counted(s: ShowState)
  {
    s.numAvail == CountAvailable(s.slots)
  }

  /** A show after one more showtime is added: an available slot at the end, and the counter one higher. */
  function Appended(s: ShowState, day: string, hour: int): ShowState
  {
    s.(numAvail := s.numAvail + 1, slots := s.slots + [Slot(day, hour, true, false)])
  }

  /** A show after one call of the invalidation method: list and counter both updated. */
  function Invalidated(s: ShowState, day: string, hour: int): ShowState
  {
    s.(numAvail := s.numAvail - CountFlipped(s.slots, day, hour), slots := Invalidate(s.slots, day, hour))
  }

  /** Chooses the k-th showtime: it and its show become attended; availability is untouched. */
  function Attend(s: ShowState, k: nat): ShowState
    requires k < |s.slots|
  {
    s.(attended := true, slots := s.slots[k := s.slots[k].(attended := true)])
  }

  lemma {:induction false} InvalidateAt(slots: seq<Slot>, day: string, hour: int, i: nat)
    requires i < |slots|
    ensures Invalidate(slots, day, hour)[i] == Clear(slots[i], day, hour)
  {
    if i > 0 {
      InvalidateAt(slots[1..], day, hour, i - 1);
    }
  }

  /**
   * After invalidation a showtime is available exactly when it was before and
   * lies outside the window; day, time and attendance never change, nor does
   * the length or order of the list.
   */
  lemma InvalidateMeaning(slots: seq<Slot>, day: string, hour: int)
    ensures var r := Invalidate(slots, day, hour);
      |r| == |slots| &&
      forall i :: 0 <= i < |slots| ==>
        r[i].day == slots[i].day && r[i].hour == slots[i].hour && r[i].attended == slots[i].attended &&
        (r[i].available <==> slots[i].available && !Conflicts(day, hour, slots[i].day, slots[i].hour))
  {
    forall i | 0 <= i < |slots| {
      InvalidateAt(slots, day, hour, i);
    }
  }

  /** Showtimes on another day or further than half an hour away are left exactly as they were. */
  lemma InvalidateKeepsOutside(slots: seq<Slot>, day: string, hour: int, i: nat)
    requires i < |slots| && !Conflicts(day, hour, slots[i].day, slots[i].hour)
    ensures Invalidate(slots, day, hour)[i] == slots[i]
  {
    InvalidateAt(slots, day, hour, i);
  }

  /** A second identical pass changes nothing. */
  lemma {:induction false} InvalidateIdempotent(slots: seq<Slot>, day: string, hour: int)
    ensures Invalidate(Invalidate(slots, day, hour), day, hour) == Invalidate(slots, day, hour)
  {
    if slots != [] {
      InvalidateIdempotent(slots[1..], day, hour);
      var r := Invalidate(slots, day, hour);
      assert r[1..] == Invalidate(slots[1..], day, hour);
    }
  }

  /** After a pass nothing in the window is left for a second pass to close. */
  lemma {:induction false} NothingLeftToFlip(slots: seq<Slot>, day: string, hour: int)
    ensures CountFlipped(Invalidate(slots, day, hour), day, hour) == 0
  {
    if slots != [] {
      NothingLeftToFlip(slots[1..], day, hour);
      var r := Invalidate(slots, day, hour);
      assert r[1..] == Invalidate(slots[1..], day, hour);
    }
  }

  /** The counter goes down by exactly the number of showtimes the pass closes. */
  lemma {:induction false} InvalidateCount(slots: seq<Slot>, day: string, hour: int)
    ensures CountAvailable(Invalidate(slots, day, hour)) == CountAvailable(slots) - CountFlipped(slots, day, hour)
  {
    if slots != [] {
      InvalidateCount(slots[1..], day, hour);
      var r := Invalidate(slots, day, hour);
      assert r[1..] == Invalidate(slots[1..], day, hour);
    }
  }

  /** The list after its first i showtimes have been cleared around the given time. */
  function Swept(before: seq<Slot>, i: nat, day: string, hour: int): (r: seq<Slot>)
    requires i <= |before|
    ensures |r| == |before|
  {
    Invalidate(before[..i], day, hour) + before[i..]
  }

  /** Sweeping one more showtime clears exactly that one, which is still as it was. */
  lemma SweptStep(before: seq<Slot>, i: nat, day: string, hour: int)
    requires i < |before|
    ensures Swept(before, i, day, hour)[i] == before[i]
    ensures Swept(before, i + 1, day, hour) == Swept(before, i, day, hour)[i := Clear(before[i], day, hour)]
  {
    var a := Swept(before, i, day, hour);
    var b := Swept(before, i + 1, day, hour);
    forall j | 0 <= j < |before| ensures b[j] == a[i := Clear(before[i], day, hour)][j] {
      if j < i {
        InvalidateAt(before[..i], day, hour, j);
        InvalidateAt(before[..i + 1], day, hour, j);
      } else if j == i {
        InvalidateAt(before[..i + 1], day, hour, j);
      }
    }
  }

  /** Nothing swept is the list itself; everything swept is the invalidated list. */
  lemma SweptEnds(before: seq<Slot>, day: string, hour: int)
    ensures Swept(before, 0, day, hour) == before
    ensures Swept(before, |before|, day, hour) == Invalidate(before, day, hour)
  {
    assert before[..|before|] == before;
    assert before[0..] == before;
  }

  /** A second call of the invalidation method leaves the whole show, counter included, unchanged. */
  lemma InvalidatedIdempotent(s: ShowState, day: string, hour: int)
    ensures Invalidated(Invalidated(s, day, hour), day, hour) == Invalidated(s, day, hour)
  {
    InvalidateIdempotent(s.slots, day, hour);
    NothingLeftToFlip(s.slots, day, hour);
  }

  /** Invalidation keeps the counter in step with the list. */
  lemma InvalidatedCounted(s: ShowState, day: string, hour: int)
    requires Counted(s)
    ensures Counted(Invalidated(s, day, hour))
  {
    InvalidateCount(s.slots, day, hour);
  }

  /** Appending a showtime adds one to the count exactly when it is available. */
  lemma {:induction false} CountAvailableAppend(slots: seq<Slot>, t: Slot)
    ensures CountAvailable(slots + [t]) == CountAvailable(slots) + (if t.available then 1 else 0)
  {
    if slots != [] {
      assert (slots + [t])[1..] == slots[1..] + [t];
      CountAvailableAppend(slots[1..], t);
    }
  }

  /** Closing one available showtime lowers the count by exactly one. */
  lemma {:induction false} CountAvailableClose(slots: seq<Slot>, i: nat)
    requires i < |slots| && slots[i].available
    ensures CountAvailable(slots[i := slots[i].(available := false)]) == CountAvailable(slots) - 1
  {
    if i > 0 {
      assert slots[i := slots[i].(available := false)][1..] == slots[1..][i - 1 := slots[i].(available := false)];
      CountAvailableClose(slots[1..], i - 1);
    }
  }

  /** Adding a showtime keeps the counter in step with the list. */
  lemma AppendedCounted(s: ShowState, day: string, hour: int)
    requires Counted(s)
    ensures Counted(Appended(s, day, hour))
  {
    CountAvailableAppend(s.slots, Slot(day, hour, true, false));
  }

  /** Changing only attendance flags leaves the count unchanged. */
  lemma {:induction false} CountAvailableIgnoresAttendance(slots: seq<Slot>, i: nat)
    requires i < |slots|
    ensures CountAvailable(slots[i := slots[i].(attended := true)]) == CountAvailable(slots)
  {
    if i > 0 {
      assert slots[i := slots[i].(attended := true)][1..] == slots[1..][i - 1 := slots[i].(attended := true)];
      CountAvailableIgnoresAttendance(slots[1..], i - 1);
    }
  }

  /** There is no available showtime exactly when the count is zero. */
  lemma {:induction false} NoneAvailableIffZero(slots: seq<Slot>)
    ensures FirstAvailable(slots).None? <==> CountAvailable(slots) == 0
  {
    if slots != [] {
      NoneAvailableIffZero(slots[1..]);
    }
  }
}

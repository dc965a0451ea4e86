/**
 * The two classes of the scheduler: a showtime with its two flags, and a
 * show that owns an ordered list of showtimes and caches how many of them
 * are still available.
 */
module Shows {
  import opened Wrappers
  import opened Timetable

  /** One showing of a play. Day and time never change after creation. */
  class Showtime {
    const day: string
    const hour: int
    var available: bool
    var attended: bool

    /** The showtime as a value. */
    ghost function View(): Slot
      reads this
    {
      Slot(day, hour, available, attended)
    }

    /** A new showtime is available and not attended. */
    constructor (day: string, hour: int)
      ensures View() == Slot(day, hour, true, false)
    {
      this.day := day;
      this.hour := hour;
      available := true;
      attended := false;
    }

    /** Chooses this showtime; its availability is left as it was. */
    method MarkAttended()
      modifies this`attended
      ensures View() == old(View()).(attended := true)
    {
      attended := true;
    }

    /** Closes this showtime. */
    method MarkUnavailable()
      modifies this`available
      ensures View() == old(View()).(available := false)
    {
      available := false;
    }
  }

  /** A list of showtimes as values; it depends on nothing but the showtimes themselves. */
  ghost function Views(ts: seq<Showtime>): (r: seq<Slot>)
    reads ts
    ensures |r| == |ts|
  {
    if ts == [] then [] else Views(ts[..|ts| - 1]) + [ts[|ts| - 1].View()]
  }

  /**
   * The same list built position by position; it unfolds to every entry at
   * once, which the loop that closes showtimes needs and other code does not.
   */
  ghost function EachView(ts: seq<Showtime>): seq<Slot>
    reads ts
  {
    seq(|ts|, i requires 0 <= i < |ts| reads ts => ts[i].View())
  }

  lemma {:induction false} ViewsAgree(ts: seq<Showtime>)
    ensures Views(ts) == EachView(ts)
    decreases |ts|
  {
    if ts != [] {
      ViewsAgree(ts[..|ts| - 1]);
    }
  }

  /** Appending a showtime appends its view. */
  lemma ViewsSnoc(ts: seq<Showtime>, t: Showtime)
    ensures Views(ts + [t]) == Views(ts) + [t.View()]
  {
    assert (ts + [t])[..|ts|] == ts;
  }

  /** Each entry of the list of views is the view of the showtime at that position. */
  lemma {:induction false} ViewAt(ts: seq<Showtime>, i: nat)
    requires i < |ts|
    ensures Views(ts)[i] == ts[i].View()
    decreases |ts|
  {
    if i < |ts| - 1 {
      ViewAt(ts[..|ts| - 1], i);
    }
  }

  /** A list of views that differs from the current one at most at position i. */
  lemma ViewsReplace(ts: seq<Showtime>, slots: seq<Slot>, i: nat)
    requires |slots| == |ts| && i < |ts|
    requires forall j :: 0 <= j < |ts| && j != i ==> ts[j].View() == slots[j]
    ensures EachView(ts) == slots[i := ts[i].View()]
  {
  }

  /** A play with its showtimes in the order they were added. */
  class Show {
    const title: string
    const venue: string
    var numAvail: int
    var attended: bool
    var times: seq<Showtime>
    /** The show and the showtimes it owns. */
    ghost var Repr: set<object>

    /** The show owns every showtime in its list. */
    ghost predicate Owns()
      reads this
    {
      this in Repr && forall i :: 0 <= i < |times| ==> times[i] in Repr
    }

    /** The showtimes as values, in list order. */
    ghost function Slots(): seq<Slot>
      reads this, Repr
      requires Owns()
    {
      Views(times)
    }

    /** The whole show as a value. */
    ghost function State(): ShowState
      reads this, Repr
      requires Owns()
    {
      ShowState(numAvail, attended, Slots())
    }

    /** The show owns each of its showtimes once. */
    ghost predicate Wf()
      reads this
    {
      Owns() && forall i, j :: 0 <= i < j < |times| ==> times[i] != times[j]
    }

    /** Well formed, and the cached counter equals the number of showtimes still available. */
    ghost predicate Valid()
      reads this, Repr
    {
      Wf() && Counted(State())
    }

    constructor (title: string, venue: string)
      ensures Valid() && fresh(Repr)
      ensures this.title == title && this.venue == venue
      ensures times == [] && numAvail == 0 && !attended
    {
      this.title := title;
      this.venue := venue;
      numAvail := 0;
      attended := false;
      times := [];
      Repr := {this};
      new;
      assert Slots() == [];
    }

    /** Appends one new, available, unattended showtime and counts it. */
    method AddShowtime(day: string, hour: int)
      requires Valid()
      modifies this
      ensures Valid() && |times| == |old(times)| + 1 && times[..|old(times)|] == old(times)
      ensures fresh(times[|old(times)|]) && Repr == old(Repr) + {times[|old(times)|]}
      ensures State() == Appended(old(State()), day, hour)
    {
      ghost var before := Slots();
      ghost var earlier := times;
      var t := new Showtime(day, hour);
      assert Views(earlier) == before;
      times, Repr, numAvail := times + [t], Repr + {t}, numAvail + 1;
      ViewsSnoc(earlier, t);
      CountAvailableAppend(before, Slot(day, hour, true, false));
    }

    /** The first showtime in list order that is still available, or null. Changes nothing. */
    method GetAvailable() returns (r: Showtime?)
      requires Valid()
      ensures FirstAvailable(Slots()).None? ==> r == null
      ensures FirstAvailable(Slots()).Some? ==> r == times[FirstAvailable(Slots()).value]
    {
      ViewsAgree(times);
      var i := 0;
      while i < |times|
        invariant 0 <= i <= |times|
        invariant forall j :: 0 <= j < i ==> !times[j].available
      {
        if times[i].available {
          assert Slots()[i].available;
          return times[i];
        }
        i := i + 1;
      }
      return null;
    }

    /**
     * Closes every available showtime on the given day within half an hour of
     * the given time, and lowers the counter once per showtime it closes.
     */
    method MarkTimeUnavailable(day: string, hour: int)
      requires Valid()
      modifies Repr
      ensures Valid() && Repr == old(Repr) && times == old(times)
      ensures State() == Invalidated(old(State()), day, hour)
    {
      ViewsAgree(times);
      ghost var start := State();
      ghost var before := EachView(times);
      SweptEnds(before, day, hour);
      var i := 0;
      while i < |times|
        invariant 0 <= i <= |times| == |before| && Wf()
        invariant Repr == old(Repr) && times == old(times) && attended == old(attended)
        invariant EachView(times) == Swept(before, i, day, hour)
        invariant numAvail == old(numAvail) - (CountAvailable(before) - CountAvailable(Swept(before, i, day, hour)))
      {
        SweepAt(i, day, hour, before);
        i := i + 1;
      }
      SweepDone(start, day, hour);
    }

    /** Once every showtime has been swept, the show is the invalidated show. */
    lemma SweepDone(start: ShowState, day: string, hour: int)
      requires Wf() && Counted(start) && attended == start.attended
      requires EachView(times) == Invalidate(start.slots, day, hour)
      requires numAvail == start.numAvail - (CountAvailable(start.slots) - CountAvailable(Invalidate(start.slots, day, hour)))
      ensures Valid() && State() == Invalidated(start, day, hour)
    {
      InvalidateCount(start.slots, day, hour);
      ViewsAgree(times);
    }

    /** Once the k-th showtime and the show carry the attended flag, the show is the attended show. */
    lemma AttendDone(start: ShowState, k: nat)
      requires Wf() && Counted(start) && k < |start.slots|
      requires numAvail == start.numAvail && attended
      requires EachView(times) == start.slots[k := start.slots[k].(attended := true)]
      ensures Valid() && State() == Attend(start, k)
    {
      CountAvailableIgnoresAttendance(start.slots, k);
      ViewsAgree(times);
    }

    /** One pass of the loop above: the i-th showtime closes when it is available and in the window. */
    method SweepAt(i: nat, day: string, hour: int, ghost before: seq<Slot>)
      requires Wf() && i < |times| == |before|
      requires EachView(times) == Swept(before, i, day, hour)
      modifies Repr
      ensures Wf() && Repr == old(Repr) && times == old(times) && attended == old(attended)
      ensures EachView(times) == Swept(before, i + 1, day, hour)
      ensures numAvail - CountAvailable(Swept(before, i + 1, day, hour)) ==
              old(numAvail) - CountAvailable(Swept(before, i, day, hour))
    {
      var t := times[i];
      SweptStep(before, i, day, hour);
      if Conflicts(day, hour, t.day, t.hour) && t.available {
        ghost var slots := EachView(times);
        t.MarkUnavailable();
        ViewsReplace(times, slots, i);
        CountAvailableClose(slots, i);
        numAvail := numAvail - 1;
      }
    }
  }
}

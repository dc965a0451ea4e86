/**
 * The re-sort in schedule_next_show sorts the whole array, the shows
 * already scheduled included. A scheduled show whose counter is higher than
 * that of an unscheduled one is moved behind it, past the index, and is
 * scheduled a second time while the other is never reached; the run still
 * reports success. This module exhibits such a catalog; module SuffixResort
 * gives the corrected re-sort and proves that with it a successful run gives
 * what it is meant to: every show attended, and no two chosen showtimes in
 * conflict.
 */
module Findings {
  import opened Wrappers
  import opened Timetable
  import opened Ordering
  import opened Shows
  import opened Plan
  import opened SuffixResort

  // ---------------------------------------------------------------------------
  // As written: a successful run that leaves a show unattended

  /** A showtime as it is read from the catalog: available and not attended. */
  function Open(day: string, hour: int): Slot
  {
    Slot(day, hour, true, false)
  }

  /** Show A: Friday at 10:00 and at 20:00. */
  function PlayA(): ShowState
  {
    ShowState(2, false, [Open("Fri", 600), Open("Fri", 1200)])
  }

  /** Show B: Friday at 10:00 and 10:15, Saturday at 10:00. */
  function PlayB(): ShowState
  {
    ShowState(3, false, [Open("Fri", 600), Open("Fri", 615), Open("Sat", 600)])
  }

  /** Show C: Sunday at 10:00, 12:00 and 14:00. */
  function PlayC(): ShowState
  {
    ShowState(3, false, [Open("Sun", 600), Open("Sun", 720), Open("Sun", 840)])
  }

  /** The state of three shows. */
  function Trio(a: Show, sa: ShowState, b: Show, sb: ShowState, c: Show, sc: ShowState): (r: State)
    ensures r.Keys == {a, b, c}
    ensures a != b && b != c && a != c ==> r[a] == sa && r[b] == sb && r[c] == sc
  {
    var none: State := map[];
    none[a := sa][b := sb][c := sc]
  }

  /** Propagation over two different shows invalidates each of them once. */
  lemma PropagatePair(st: State, x: Show, y: Show, day: string, hour: int)
    requires x in st && y in st && x != y
    ensures Propagate(st, [x, y], day, hour) ==
      st[x := Invalidated(st[x], day, hour)][y := Invalidated(st[y], day, hour)]
  {
    assert [x][..0] == [];
    assert Propagate(st, [x], day, hour) == st[x := Invalidated(st[x], day, hour)];
    assert [x, y][..1] == [x];
  }

  /** Sorting three shows whose counters are all different. */
  lemma SortThree(x: Show, y: Show, z: Show, key: map<Show, int>)
    requires x in key && y in key && z in key
    requires key[y] < key[x] < key[z]
    ensures SortBy([x, y, z], key) == [y, x, z]
  {
    var yz, xz := [y, z], [x, z];
    assert yz[1..] == [z] && [x, y, z][1..] == yz && [x, y, z][0] == x;
    SortedStays(yz, key);
    SortByFirst([x, y, z], key);
    InsertFirst(x, yz, key);
    InsertFirst(x, [z], key);
    Joined(x, y, z);
  }

  /** Putting y in front of x and z. */
  lemma Joined<T>(x: T, y: T, z: T)
    ensures [y] + ([x] + [z]) == [y, x, z]
  {
  }

  /** Sorting three shows that are already in order of their different counters. */
  lemma SortedThree(x: Show, y: Show, z: Show, key: map<Show, int>)
    requires x in key && y in key && z in key
    requires key[x] < key[y] < key[z]
    ensures SortBy([x, y, z], key) == [x, y, z]
  {
    var xyz := [x, y, z];
    assert forall i, j :: 0 <= i < j < |xyz| ==> key[xyz[i]] < key[xyz[j]];
    SortedStays(xyz, key);
  }

  /** Shows already in strictly increasing order of their counters stay where they are. */
  lemma {:induction false} SortedStays(xs: seq<Show>, key: map<Show, int>)
    requires Keyed(xs, key) && forall i, j :: 0 <= i < j < |xs| ==> key[xs[i]] < key[xs[j]]
    ensures SortBy(xs, key) == xs
    decreases |xs|
  {
    if xs != [] {
      var rest := xs[1..];
      assert xs == [xs[0]] + rest;
      assert forall i, j :: 0 <= i < j < |rest| ==> key[rest[i]] < key[rest[j]] by {
        forall i, j | 0 <= i < j < |rest| ensures key[rest[i]] < key[rest[j]] {
          assert rest[i] == xs[i + 1] && rest[j] == xs[j + 1];
        }
      }
      SortByFirst(xs, key);
      SortedStays(rest, key);
      if rest != [] {
        InsertFirst(xs[0], rest, key);
        assert rest[0] == xs[1];
      }
    }
  }

  /** The sort inserts the first element into the sorted rest. */
  lemma SortByFirst(xs: seq<Show>, key: map<Show, int>)
    requires xs != [] && Keyed(xs, key)
    ensures Keyed(xs[1..], key) && SortBy(xs, key) == Insert(xs[0], SortBy(xs[1..], key), key)
  {
  }

  /** Insertion goes in front of the first element unless that element's key is smaller. */
  lemma InsertFirst(x: Show, xs: seq<Show>, key: map<Show, int>)
    requires xs != [] && x in key && Keyed(xs, key)
    ensures Keyed(xs[1..], key)
    ensures Insert(x, xs, key) == if key[x] <= key[xs[0]] then [x] + xs else [xs[0]] + Insert(x, xs[1..], key)
  {
  }

  /** Propagation over a single show invalidates it. */
  lemma PropagateOne(st: State, x: Show, day: string, hour: int)
    requires x in st
    ensures Propagate(st, [x], day, hour) == st[x := Invalidated(st[x], day, hour)]
  {
    assert [x][..0] == [];
  }

  /** A's first showtime is its first available one, before and after it is attended. */
  lemma FactsA()
    ensures FirstAvailable(PlayA().slots) == Some(0) && PlayA().slots[0] == Open("Fri", 600)
    ensures FirstAvailable(Attend(PlayA(), 0).slots) == Some(0) && Attend(PlayA(), 0).slots[0] == Open("Fri", 600).(attended := true)
    ensures Attend(Attend(PlayA(), 0), 0) == Attend(PlayA(), 0) && Attend(PlayA(), 0).numAvail == 2
    ensures Counted(PlayA())
  {
    var slots := PlayA().slots;
    assert slots[1..][1..] == [];
    assert CountAvailable(slots[1..]) == 1;
  }

  /** After Friday 10:00, B has one showtime left and is not attended. */
  lemma FactsB()
    ensures Invalidated(PlayB(), "Fri", 600).numAvail == 1 && !Invalidated(PlayB(), "Fri", 600).attended
    ensures Counted(PlayB())
  {
    var slots := PlayB().slots;
    assert slots[1..][1..][1..] == [];
    assert CountAvailable(slots[1..][1..]) == 1;
    assert CountAvailable(slots[1..]) == 2;
    assert CountFlipped(slots[1..][1..], "Fri", 600) == 0 by {
      assert "Fri" != "Sat";
    }
    assert CountFlipped(slots[1..], "Fri", 600) == 1;
  }

  /** A window that meets none of the showtimes closes nothing. */
  lemma InvalidateMissing(s: ShowState, day: string, hour: int)
    requires forall i :: 0 <= i < |s.slots| ==> !Conflicts(day, hour, s.slots[i].day, s.slots[i].hour)
    ensures Invalidated(s, day, hour) == s
  {
    forall i | 0 <= i < |s.slots| ensures Invalidate(s.slots, day, hour)[i] == s.slots[i] {
      InvalidateKeepsOutside(s.slots, day, hour, i);
    }
    assert Invalidate(s.slots, day, hour) == s.slots;
    InvalidateCount(s.slots, day, hour);
  }

  /** C's first showtime is available, and its counter is right. */
  lemma FactsC()
    ensures FirstAvailable(PlayC().slots) == Some(0) && PlayC().numAvail == 3
    ensures Counted(PlayC())
  {
    var slots := PlayC().slots;
    assert slots[1..][1..][1..] == [];
    assert CountAvailable(slots[1..][1..]) == 1;
    assert CountAvailable(slots[1..]) == 2;
  }

  /** Friday 10:00 closes none of C's Sunday showtimes. */
  lemma SundayUntouched()
    ensures Invalidated(PlayC(), "Fri", 600) == PlayC()
  {
    var slots := PlayC().slots;
    assert "Fri" != "Sun";
    assert forall i :: 0 <= i < |slots| ==> slots[i].day == "Sun";
    InvalidateMissing(PlayC(), "Fri", 600);
  }

  /** Index 0: A attends its first showtime, which closes some of B's and none of C's. */
  lemma FirstStep(a: Show, b: Show, c: Show, sa: ShowState, sb: ShowState, sc: ShowState, day: string, hour: int)
    requires a != b && b != c && a != c
    requires FirstAvailable(sa.slots) == Some(0) && sa.slots[0].day == day && sa.slots[0].hour == hour
    ensures Step(Trio(a, sa, b, sb, c, sc), [a, b, c], 0) ==
      Some(Trio(a, Attend(sa, 0), b, Invalidated(sb, day, hour), c, Invalidated(sc, day, hour)))
  {
    var st := Trio(a, sa, b, sb, c, sc);
    StepUnfolds(st, [a, b, c], 0, 0, day, hour);
    assert [a, b, c][1..] == [b, c];
    var st0 := st[a := Attend(sa, 0)];
    assert st0[b] == sb && st0[c] == sc;
    PropagatePair(st0, b, c, day, hour);
    assert st0[b := Invalidated(sb, day, hour)][c := Invalidated(sc, day, hour)] ==
      Trio(a, Attend(sa, 0), b, Invalidated(sb, day, hour), c, Invalidated(sc, day, hour));
  }

  /** Index 1 holds A again: it attends the same showtime, and C, the only show after it, keeps its showtimes. */
  lemma SecondStep(a: Show, b: Show, c: Show, st: State, day: string, hour: int)
    requires a != b && b != c && a != c && a in st && b in st && c in st
    requires FirstAvailable(st[a].slots) == Some(0) && st[a].slots[0].day == day && st[a].slots[0].hour == hour
    requires Attend(st[a], 0) == st[a] && Invalidated(st[c], day, hour) == st[c]
    ensures Step(st, [b, a, c], 1) == Some(st)
  {
    StepUnfolds(st, [b, a, c], 1, 0, day, hour);
    assert [b, a, c][2..] == [c];
    assert st[a := Attend(st[a], 0)] == st;
    PropagateOne(st, c, day, hour);
    assert st[c := Invalidated(st[c], day, hour)] == st;
  }

  /** Index 2 holds C, the last position: it attends its first showtime and the run ends. */
  lemma LastStep(a: Show, b: Show, c: Show, st: State)
    requires a in st && b in st && c in st && FirstAvailable(st[c].slots) == Some(0)
    ensures Run(st, [b, a, c], 2) == Outcome(true, st[c := Attend(st[c], 0)])
  {
    StepUnfolds(st, [b, a, c], 2, 0, st[c].slots[0].day, st[c].slots[0].hour);
    assert [b, a, c][3..] == [];
  }

  /** The counters the re-sort compares, read off three shows. */
  lemma KeysOfThree(st: State, x: Show, y: Show, z: Show)
    requires x in st && y in st && z in st
    ensures var key := AvailKeys(st, [x, y, z]);
      x in key && y in key && z in key &&
      key[x] == st[x].numAvail && key[y] == st[y].numAvail && key[z] == st[z].numAvail
  {
    assert x in [x, y, z] && y in [x, y, z] && z in [x, y, z];
  }

  /** The re-sort orders the three shows by their counters, whatever order they come in. */
  lemma ResortThree(a: Show, b: Show, c: Show, st: State)
    requires a != b && b != c && a != c && a in st && b in st && c in st
    requires st[b].numAvail < st[a].numAvail < st[c].numAvail
    ensures Resort(st, [a, b, c]) == [b, a, c]
  {
    KeysOfThree(st, a, b, c);
    SortThree(a, b, c, AvailKeys(st, [a, b, c]));
  }

  /** Three shows already in order of their counters stay in that order. */
  lemma ResortKept(a: Show, b: Show, c: Show, st: State)
    requires a != b && b != c && a != c && a in st && b in st && c in st
    requires st[b].numAvail < st[a].numAvail < st[c].numAvail
    ensures Resort(st, [b, a, c]) == [b, a, c]
  {
    KeysOfThree(st, b, a, c);
    SortedThree(b, a, c, AvailKeys(st, [b, a, c]));
  }

  /** The whole run over the three shows, given what each step needs. */
  lemma SkipChain(a: Show, b: Show, c: Show, sa: ShowState, sb: ShowState, sc: ShowState, day: string, hour: int)
    requires a != b && b != c && a != c
    requires FirstAvailable(sa.slots) == Some(0) && sa.slots[0].day == day && sa.slots[0].hour == hour
    requires Attend(Attend(sa, 0), 0) == Attend(sa, 0) && Invalidated(sc, day, hour) == sc
    requires FirstAvailable(sc.slots) == Some(0)
    requires Invalidated(sb, day, hour).numAvail < sa.numAvail < sc.numAvail
    ensures Run(Trio(a, sa, b, sb, c, sc), [a, b, c], 0) ==
      Outcome(true, Trio(a, Attend(sa, 0), b, Invalidated(sb, day, hour), c, sc)[c := Attend(sc, 0)])
    ensures Run(Trio(a, sa, b, sb, c, sc), [a, b, c], 0).state[b] == Invalidated(sb, day, hour)
  {
    var st := Trio(a, sa, b, sb, c, sc);
    var st1 := Trio(a, Attend(sa, 0), b, Invalidated(sb, day, hour), c, sc);
    AttendFirst(sa);
    FirstStep(a, b, c, sa, sb, sc, day, hour);
    ResortThree(a, b, c, st1);
    ResortKept(a, b, c, st1);
    RunAfterStep(st, [a, b, c], 0, st1);
    assert Run(st, [a, b, c], 0) == Run(st1, [b, a, c], 1);
    SecondStep(a, b, c, st1, day, hour);
    RunAfterStep(st1, [b, a, c], 1, st1);
    assert Run(st1, [b, a, c], 1) == Run(st1, [b, a, c], 2);
    LastStep(a, b, c, st1);
  }

  /** Attending a showtime keeps the list's days, times and availability. */
  lemma AttendFirst(s: ShowState)
    requires FirstAvailable(s.slots) == Some(0)
    ensures FirstAvailable(Attend(s, 0).slots) == Some(0) && Attend(s, 0).slots[0].day == s.slots[0].day
    ensures Attend(s, 0).slots[0].hour == s.slots[0].hour && Attend(s, 0).numAvail == s.numAvail
  {
  }

  /** Three shows whose counters are right. */
  lemma TrioCounted(a: Show, sa: ShowState, b: Show, sb: ShowState, c: Show, sc: ShowState)
    requires a != b && b != c && a != c && Counted(sa) && Counted(sb) && Counted(sc)
    ensures AllCounted(Trio(a, sa, b, sb, c, sc))
  {
  }

  /** None of the three shows is attended before the run. */
  lemma FreshPlays()
    ensures Untouched(PlayA()) && Untouched(PlayB()) && Untouched(PlayC())
  {
  }

  /** Three shows none of which is attended. */
  lemma TrioUntouched(a: Show, sa: ShowState, b: Show, sb: ShowState, c: Show, sc: ShowState)
    requires a != b && b != c && a != c && Untouched(sa) && Untouched(sb) && Untouched(sc)
    ensures forall s :: s in [a, b, c] ==> Untouched(Trio(a, sa, b, sb, c, sc)[s])
  {
  }

  /** A listed show that is not attended is not booked. */
  lemma Unbooked(st: State, order: seq<Show>, x: Show)
    requires Covers(st, order) && x in order && !st[x].attended
    ensures !Timetabled(st, order)
  {
  }

  /** The run over three shows shaped like A, B and C: success, with B never attended. */
  lemma SkipShape(a: Show, b: Show, c: Show, sa: ShowState, sb: ShowState, sc: ShowState, day: string, hour: int)
    requires a != b && b != c && a != c
    requires FirstAvailable(sa.slots) == Some(0) && sa.slots[0].day == day && sa.slots[0].hour == hour
    requires Attend(Attend(sa, 0), 0) == Attend(sa, 0) && Invalidated(sc, day, hour) == sc
    requires FirstAvailable(sc.slots) == Some(0)
    requires Invalidated(sb, day, hour).numAvail < sa.numAvail < sc.numAvail
    requires Counted(sa) && Counted(sb) && Counted(sc) && Untouched(sa) && Untouched(sb) && Untouched(sc)
    requires !Invalidated(sb, day, hour).attended
    ensures var st := Trio(a, sa, b, sb, c, sc);
      var r := Run(st, [a, b, c], 0);
      AllCounted(st) && (forall s :: s in [a, b, c] ==> Untouched(st[s])) &&
      r.success && !r.state[b].attended && !Timetabled(r.state, [a, b, c])
  {
    SkipChain(a, b, c, sa, sb, sc, day, hour);
    TrioCounted(a, sa, b, sb, c, sc);
    TrioUntouched(a, sa, b, sb, c, sc);
    var r := Run(Trio(a, sa, b, sb, c, sc), [a, b, c], 0);
    Unbooked(r.state, [a, b, c], b);
  }

  /**
   * A is scheduled first and closes B's Friday showtimes; the re-sort puts B
   * (one left) before A (two left), so A is scheduled again at index 1 and C
   * at index 2. The run reports success and B is never attended, although
   * the shows start untouched, as the corrected run requires.
   */
  lemma WholeResortSkipsAShow(a: Show, b: Show, c: Show)
    requires a != b && b != c && a != c
    ensures var st := Trio(a, PlayA(), b, PlayB(), c, PlayC());
      var r := Run(st, [a, b, c], 0);
      AllCounted(st) && (forall s :: s in [a, b, c] ==> Untouched(st[s])) &&
      r.success && !r.state[b].attended && !Timetabled(r.state, [a, b, c])
  {
    FactsA();
    FactsB();
    FactsC();
    FreshPlays();
    SundayUntouched();
    SkipShape(a, b, c, PlayA(), PlayB(), PlayC(), "Fri", 600);
  }
}

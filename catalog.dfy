/**
 * Reading the catalog: the lines of the show file, already split into
 * records, are grouped into one show per title, with the showtimes of a
 * title in the order its lines arrive. The shows are then sorted by how
 * many showtimes they have, and the scheduler starts at position 0.
 */
module Catalog {
  import opened Wrappers
  import opened Timetable
  import opened Ordering
  import opened Shows
  import opened Plan
  import opened Scheduler

  /** One line of the show file: title, venue, day label and start time in minutes. */
  datatype Record = Record(title: string, venue: string, day: string, minutes: int)

  // ---------------------------------------------------------------------------
  // What grouping should produce, on values

  /** The titles in order of first appearance. */
  function Titles(records: seq<Record>): (r: seq<string>)
    ensures Distinct(r)
    decreases |records|
  {
    if records == [] then []
    else
      var front := Titles(records[..|records| - 1]);
      var t := records[|records| - 1].title;
      if t in front then front else front + [t]
  }

  /** The showtimes of one title, one per record with that title, in arrival order. */
  function SlotsOf(records: seq<Record>, title: string): (r: seq<Slot>)
    decreases |records|
  {
    if records == [] then []
    else
      var front := SlotsOf(records[..|records| - 1], title);
      var x := records[|records| - 1];
      if x.title == title then front + [Slot(x.day, x.minutes, true, false)] else front
  }

  /** The venue of the first record with the given title, if any. */
  function FirstVenue(records: seq<Record>, title: string): Option<string>
  {
    if records == [] then None
    else if records[0].title == title then Some(records[0].venue)
    else FirstVenue(records[1..], title)
  }

  /** The show a title should become: all its showtimes, all available, nothing attended. */
  function Grouped(records: seq<Record>, title: string): ShowState
  {
    ShowState(|SlotsOf(records, title)|, false, SlotsOf(records, title))
  }

  /** Every title of the file with the show it should become. */
  function Grouping(records: seq<Record>): (r: map<string, ShowState>)
    ensures forall t :: t in r <==> t in Titles(records)
  {
    map t | t in Titles(records) :: Grouped(records, t)
  }

  /** A title is listed exactly when some record carries it. */
  lemma {:induction false} TitlesComplete(records: seq<Record>, title: string)
    ensures title in Titles(records) <==> exists i :: 0 <= i < |records| && records[i].title == title
    decreases |records|
  {
    if records != [] {
      var front := records[..|records| - 1];
      TitlesComplete(front, title);
      if exists i :: 0 <= i < |front| && front[i].title == title {
        var i :| 0 <= i < |front| && front[i].title == title;
        assert records[i].title == title;
      }
      if exists i :: 0 <= i < |records| && records[i].title == title {
        var i :| 0 <= i < |records| && records[i].title == title;
        if i < |front| {
          assert front[i].title == title;
        }
      }
    }
  }

  /** Grouping a file in two parts: the showtimes of the second part follow those of the first. */
  lemma {:induction false} SlotsOfAppend(a: seq<Record>, b: seq<Record>, title: string)
    ensures SlotsOf(a + b, title) == SlotsOf(a, title) + SlotsOf(b, title)
    decreases |b|
  {
    if b != [] {
      var front := b[..|b| - 1];
      assert (a + b)[..|a + b| - 1] == a + front;
      SlotsOfAppend(a, front, title);
    } else {
      assert a + b == a;
    }
  }

  /** A title has a showtime exactly when it is listed, and all its showtimes are available. */
  lemma {:induction false} SlotsOfMeaning(records: seq<Record>, title: string)
    ensures |SlotsOf(records, title)| > 0 <==> title in Titles(records)
    ensures Counted(Grouped(records, title))
    decreases |records|
  {
    if records != [] {
      var front := records[..|records| - 1];
      SlotsOfMeaning(front, title);
      var x := records[|records| - 1];
      if x.title == title {
        CountAvailableAppend(SlotsOf(front, title), Slot(x.day, x.minutes, true, false));
      }
    }
  }

  /** The first venue of a title exists exactly when the title is listed; a later record does not change it. */
  lemma {:induction false} FirstVenueSnoc(records: seq<Record>, x: Record, title: string)
    ensures FirstVenue(records, title).Some? <==> title in Titles(records)
    ensures FirstVenue(records + [x], title) ==
            if title in Titles(records) then FirstVenue(records, title)
            else if x.title == title then Some(x.venue) else None
    decreases |records|
  {
    if records == [] {
      assert [x][1..] == [];
    } else {
      assert (records + [x])[1..] == records[1..] + [x];
      FirstVenueSnoc(records[1..], x, title);
      TitlesComplete(records, title);
      TitlesComplete(records[1..], title);
      if title in Titles(records) && records[0].title != title {
        var i :| 0 <= i < |records| && records[i].title == title;
        assert records[1..][i - 1].title == title;
      }
      if title in Titles(records[1..]) {
        var i :| 0 <= i < |records[1..]| && records[1..][i].title == title;
        assert records[i + 1].title == title;
      }
    }
  }

  /** One more record: its title gains one available showtime at the end. */
  lemma GroupingSnoc(records: seq<Record>, i: nat)
    requires i < |records|
    ensures var x := records[i];
      var m := Grouping(records[..i]);
      var s := if x.title in m then m[x.title] else ShowState(0, false, []);
      Grouping(records[..i + 1]) == m[x.title := Appended(s, x.day, x.minutes)]
  {
    var front := records[..i];
    assert records[..i + 1][..i] == front;
    SlotsOfMeaning(front, records[i].title);
  }

  // ---------------------------------------------------------------------------
  // The hash of shows being built

  /** Every title maps to a valid show of that title inside fp; shows of different titles share nothing. */
  ghost predicate Pool(shows: map<string, Show>, fp: set<object>)
    reads fp
  {
    (forall t :: t in shows ==> shows[t] in fp && shows[t].title == t && shows[t].Repr <= fp) &&
    (forall t :: t in shows ==> shows[t].Valid()) &&
    (forall t, u :: t in shows && u in shows && t != u ==> shows[t].Repr !! shows[u].Repr)
  }

  /** The shows of the hash as values, by title. */
  ghost function PoolState(shows: map<string, Show>, fp: set<object>): map<string, ShowState>
    reads fp
    requires Pool(shows, fp)
  {
    map t | t in shows :: shows[t].State()
  }

  /** Updating a key twice keeps the second value. */
  lemma UpdateTwice<K, V>(m: map<K, V>, k: K, a: V, b: V)
    ensures m[k := a][k := b] == m[k := b]
  {
  }

  /** Removing a key and putting its value back gives the map itself. */
  lemma RemoveRestore<K, V>(m: map<K, V>, k: K)
    requires k in m
    ensures (m - {k})[k := m[k]] == m
  {
  }

  /** Taking one show out of the hash: the rest is a hash of its own, outside that show's objects. */
  lemma PoolSplit(shows: map<string, Show>, fp: set<object>, title: string)
    requires Pool(shows, fp) && title in shows
    ensures var x := shows[title];
      Pool(shows - {title}, fp - x.Repr) && x in x.Repr && (fp - x.Repr) !! x.Repr &&
      PoolState(shows, fp) == PoolState(shows - {title}, fp - x.Repr)[title := x.State()]
  {
  }

  /** Putting a valid show back into the rest of the hash adds only its own entry to the state. */
  lemma PoolJoin(shows: map<string, Show>, fp: set<object>, title: string, others: set<object>)
    requires title in shows && Pool(shows - {title}, others)
    requires shows[title].title == title && shows[title].Valid()
    requires others !! shows[title].Repr && fp == others + shows[title].Repr
    ensures Pool(shows, fp)
    ensures PoolState(shows, fp) == PoolState(shows - {title}, others)[title := shows[title].State()]
  {
    RemoveRestore(shows, title);
  }

  /** Any record whose title is known: its showtime is appended to the show of its title. */
  method Append(shows: map<string, Show>, ghost fp: set<object>, title: string, day: string, minutes: int)
    returns (ghost fp': set<object>)
    requires Pool(shows, fp) && title in shows
    modifies shows[title]
    ensures Pool(shows, fp') && fp <= fp' && fresh(fp' - fp)
    ensures PoolState(shows, fp') == old(PoolState(shows, fp))[title := Appended(old(PoolState(shows, fp))[title], day, minutes)]
  {
    var s := shows[title];
    PoolSplit(shows, fp, title);
    ghost var others := fp - s.Repr;
    ghost var m := PoolState(shows - {title}, others);
    ghost var before := s.State();
    Grow(s, others, day, minutes);
    fp' := fp + s.Repr;
    assert Pool(shows - {title}, others) && PoolState(shows - {title}, others) == m;
    PoolJoin(shows, fp', title, others);
    UpdateTwice(m, title, before, Appended(before, day, minutes));
  }

  /** Adds a showtime to one show; objects it does not own stay as they were. */
  method Grow(s: Show, ghost others: set<object>, day: string, minutes: int)
    requires s.Valid() && others !! s.Repr
    modifies s
    ensures s.Valid() && fresh(s.Repr - old(s.Repr)) && old(s.Repr) <= s.Repr && others !! s.Repr
    ensures s.State() == Appended(old(s.State()), day, minutes)
    ensures unchanged(others)
  {
    s.AddShowtime(day, minutes);
  }

  /** The shows of the hash in the order their titles were first seen. */
  function InOrder(shows: map<string, Show>, titles: seq<string>): (r: seq<Show>)
    requires forall t :: t in titles ==> t in shows
    ensures |r| == |titles| && forall j :: 0 <= j < |titles| ==> r[j] == shows[titles[j]]
  {
    seq(|titles|, j requires 0 <= j < |titles| => shows[titles[j]])
  }

  /** The values of the hash, listed by distinct titles, form a fleet with the same states. */
  lemma PoolFleet(shows: map<string, Show>, titles: seq<string>, fp: set<object>)
    requires Pool(shows, fp) && Distinct(titles) && forall t :: t in titles ==> t in shows
    ensures Distinct(InOrder(shows, titles)) && Fleet(InOrder(shows, titles), fp)
  {
    var values := InOrder(shows, titles);
    forall s | s in values ensures s.title in shows && shows[s.title] == s {
      var j :| 0 <= j < |values| && values[j] == s;
    }
    forall i, j | 0 <= i < j < |values| ensures values[i] != values[j] {
      assert values[i].title == titles[i] && values[j].title == titles[j];
    }
  }

  /** The hash has one show per title of the first i records, with the venue of the first of them. */
  ghost predicate Listed(records: seq<Record>, i: nat, shows: map<string, Show>, titles: seq<string>)
    requires i <= |records|
  {
    titles == Titles(records[..i]) &&
    (forall t :: t in shows <==> t in titles) &&
    (forall t :: t in shows ==> FirstVenue(records[..i], t) == Some(shows[t].venue))
  }

  /** The hash and the list of titles hold exactly what the first i records describe. */
  ghost predicate Built(records: seq<Record>, i: nat, shows: map<string, Show>, titles: seq<string>, fp: set<object>)
    reads fp
    requires i <= |records| && Pool(shows, fp)
  {
    Listed(records, i, shows, titles) && PoolState(shows, fp) == Grouping(records[..i])
  }

  /** The i-th record adds its title to the hash and the list when the title is new. */
  lemma ListedStep(records: seq<Record>, i: nat, shows: map<string, Show>, titles: seq<string>,
                   shows': map<string, Show>, titles': seq<string>)
    requires i < |records| && Listed(records, i, shows, titles)
    requires records[i].title in shows ==> shows' == shows && titles' == titles
    requires records[i].title !in shows ==>
      shows'.Keys == shows.Keys + {records[i].title} && titles' == titles + [records[i].title] &&
      shows'[records[i].title].venue == records[i].venue && forall t :: t in shows ==> shows'[t] == shows[t]
    ensures Listed(records, i + 1, shows', titles')
  {
    var r := records[i];
    assert records[..i + 1] == records[..i] + [r];
    assert records[..i + 1][..i] == records[..i];
    FirstVenueSnoc(records[..i], r, r.title);
    forall t | t in shows ensures FirstVenue(records[..i + 1], t) == Some(shows[t].venue) {
      FirstVenueSnoc(records[..i], r, t);
    }
  }

  /** One pass of the grouping loop: the i-th record opens a show if its title is new, then adds its showtime. */
  method AddRecord(records: seq<Record>, i: nat, shows: map<string, Show>, titles: seq<string>, ghost fp: set<object>)
    returns (shows': map<string, Show>, titles': seq<string>, ghost fp': set<object>)
    requires i < |records| && Pool(shows, fp) && Built(records, i, shows, titles, fp)
    modifies fp
    ensures Pool(shows', fp') && fp <= fp' && fresh(fp' - fp)
    ensures Built(records, i + 1, shows', titles', fp')
  {
    var r := records[i];
    GroupingSnoc(records, i);
    if r.title !in shows {
      shows', titles', fp' := AddFirst(records, i, shows, titles, fp);
    } else {
      shows', titles' := shows, titles;
      ListedStep(records, i, shows, titles, shows', titles');
      fp' := Append(shows, fp, r.title, r.day, r.minutes);
    }
  }

  /** The i-th record carries a new title: a show is created for it and receives the showtime. */
  method AddFirst(records: seq<Record>, i: nat, shows: map<string, Show>, titles: seq<string>, ghost fp: set<object>)
    returns (shows': map<string, Show>, titles': seq<string>, ghost fp': set<object>)
    requires i < |records| && Pool(shows, fp) && Built(records, i, shows, titles, fp)
    requires records[i].title !in shows
    ensures Pool(shows', fp') && fp <= fp' && fresh(fp' - fp)
    ensures Built(records, i + 1, shows', titles', fp')
  {
    var r := records[i];
    GroupingSnoc(records, i);
    var s := NewShow(r.title, r.venue, r.day, r.minutes);
    shows' := shows[r.title := s];
    titles' := titles + [r.title];
    fp' := fp + s.Repr;
    ListedStep(records, i, shows, titles, shows', titles');
    Adopt(shows, fp, s);
  }

  /** A valid show under a new title, sharing nothing with the hash, joins it with only its own entry. */
  lemma Adopt(shows: map<string, Show>, fp: set<object>, s: Show)
    requires Pool(shows, fp) && s.title !in shows && s.Valid() && fp !! s.Repr
    ensures Pool(shows[s.title := s], fp + s.Repr)
    ensures PoolState(shows[s.title := s], fp + s.Repr) == PoolState(shows, fp)[s.title := s.State()]
  {
    assert shows[s.title := s] - {s.title} == shows;
    PoolJoin(shows[s.title := s], fp + s.Repr, s.title, fp);
  }

  /** A new show with its first showtime. */
  method NewShow(title: string, venue: string, day: string, minutes: int) returns (s: Show)
    ensures fresh(s.Repr) && s.Valid() && s.title == title && s.venue == venue
    ensures s.State() == Appended(ShowState(0, false, []), day, minutes)
  {
    s := new Show(title, venue);
    assert s.State() == ShowState(0, false, []);
    s.AddShowtime(day, minutes);
  }

  /** The values of a finished hash, in order of first appearance, with what each one holds. */
  lemma Finished(records: seq<Record>, shows: map<string, Show>, titles: seq<string>, fp: set<object>)
    requires Pool(shows, fp) && Built(records, |records|, shows, titles, fp)
    ensures var values := InOrder(shows, titles);
      Fleet(values, fp) && Distinct(values) && |values| == |Titles(records)| &&
      (forall j :: 0 <= j < |values| ==>
        values[j].title == Titles(records)[j] && FirstVenue(records, values[j].title) == Some(values[j].venue)) &&
      (forall s :: s in values ==> s.State() == Grouped(records, s.title))
  {
    assert records[..|records|] == records;
    var values := InOrder(shows, titles);
    PoolFleet(shows, titles, fp);
    forall s | s in values ensures s.State() == Grouped(records, s.title) {
      var j :| 0 <= j < |values| && values[j] == s;
      assert PoolState(shows, fp)[titles[j]] == s.State();
    }
  }

  /**
   * The grouping loop: one show per title in order of first appearance, its
   * venue from the first record of that title, its showtimes one per record
   * in arrival order. The values of the hash, in that order, are returned.
   */
  method Group(records: seq<Record>) returns (values: seq<Show>, ghost fp: set<object>)
    ensures Fleet(values, fp) && fresh(fp) && Distinct(values)
    ensures |values| == |Titles(records)|
    ensures forall j :: 0 <= j < |values| ==>
      values[j].title == Titles(records)[j] && FirstVenue(records, values[j].title) == Some(values[j].venue)
    ensures forall s :: s in values ==> s.State() == Grouped(records, s.title)
  {
    var shows: map<string, Show> := map[];
    var titles: seq<string> := [];
    fp := {};
    var i := 0;
    assert records[..i] == [];
    while i < |records|
      invariant 0 <= i <= |records| && Pool(shows, fp) && fresh(fp)
      invariant Built(records, i, shows, titles, fp)
    {
      shows, titles, fp := AddRecord(records, i, shows, titles, fp);
      i := i + 1;
    }
    values := InOrder(shows, titles);
    Finished(records, shows, titles, fp);
  }

  /**
   * The catalog as the scheduler receives it: the grouped shows sorted by
   * their counters, so shows with fewer showtimes come first.
   */
  method BuildSchedule(records: seq<Record>) returns (schedule: seq<Show>, ghost fp: set<object>)
    ensures Fleet(schedule, fp) && fresh(fp)
    ensures |schedule| == |Titles(records)|
    ensures forall t :: t in Titles(records) <==> exists s :: s in schedule && s.title == t
    ensures forall i, j :: 0 <= i < j < |schedule| ==> schedule[i].title != schedule[j].title
    ensures forall s :: s in schedule ==>
      FirstVenue(records, s.title) == Some(s.venue) && s.State() == Grouped(records, s.title)
    ensures Keyed(schedule, Counters(schedule)) && Ascending(schedule, Counters(schedule))
  {
    var values;
    values, fp := Group(records);
    schedule := SortBy(values, Counters(values));
    Permuted(values, schedule, fp);
    Rearranged(values, schedule, Titles(records));
    assert Counters(schedule) == Counters(values);
  }

  /**
   * Shows listed by distinct titles, rearranged: the same shows, every title
   * still present, and still no title twice.
   */
  lemma Rearranged(values: seq<Show>, schedule: seq<Show>, titles: seq<string>)
    requires multiset(values) == multiset(schedule) && Distinct(titles)
    requires |values| == |titles| && forall j :: 0 <= j < |values| ==> values[j].title == titles[j]
    ensures forall s :: s in schedule <==> s in values
    ensures forall t :: t in titles <==> exists s :: s in schedule && s.title == t
    ensures forall i, j :: 0 <= i < j < |schedule| ==> schedule[i].title != schedule[j].title
  {
    forall s ensures s in schedule <==> s in values {
      assert s in schedule <==> s in multiset(schedule);
      assert s in values <==> s in multiset(values);
    }
    forall t | t in titles ensures exists s :: s in schedule && s.title == t {
      var j :| 0 <= j < |titles| && titles[j] == t;
      assert values[j] in schedule;
    }
    forall s | s in schedule ensures s.title in titles {
      var j :| 0 <= j < |values| && values[j] == s;
    }
    assert Distinct(values) by {
      forall a, b | 0 <= a < b < |values| ensures values[a] != values[b] {
        assert values[a].title == titles[a] && values[b].title == titles[b];
      }
    }
    DistinctPermuted(values, schedule);
    forall i, j | 0 <= i < j < |schedule| ensures schedule[i].title != schedule[j].title {
      assert schedule[i] in values && schedule[j] in values;
      var a :| 0 <= a < |values| && values[a] == schedule[i];
      var b :| 0 <= b < |values| && values[b] == schedule[j];
      assert a != b;
    }
  }

  /** The shows of an array as values, as grouping leaves them. */
  function Initial(schedule: seq<Show>, records: seq<Record>): (r: State)
    ensures Covers(r, schedule)
  {
    map s | s in schedule :: Grouped(records, s.title)
  }

  /** Shows as grouping built them: their state is the initial state, and their counters are its keys. */
  lemma InitialKeys(schedule: seq<Show>, fp: set<object>, records: seq<Record>)
    requires Fleet(schedule, fp) && forall s :: s in schedule ==> s.State() == Grouped(records, s.title)
    ensures StateOf(schedule, fp) == Initial(schedule, records)
    ensures AvailKeys(Initial(schedule, records), schedule) == Counters(schedule)
  {
    CountersAre(schedule, fp);
  }

  /**
   * The whole program without its input and output: group the records, sort,
   * and run the scheduler from position 0. An empty file leaves no show at
   * position 0, where the source fails, so at least one record is required.
   */
  method ScheduleFestival(records: seq<Record>) returns (success: bool, schedule: seq<Show>, ghost fp: set<object>)
    requires records != []
    ensures Fleet(schedule, fp) && fresh(fp)
    ensures |schedule| == |Titles(records)| > 0
    ensures forall t :: t in Titles(records) <==> exists s :: s in schedule && s.title == t
    ensures forall i, j :: 0 <= i < j < |schedule| ==> schedule[i].title != schedule[j].title
    ensures forall s :: s in schedule ==> FirstVenue(records, s.title) == Some(s.venue)
    ensures Ascending(schedule, AvailKeys(Initial(schedule, records), schedule))
    ensures Run(Initial(schedule, records), schedule, 0) == Outcome(success, StateOf(schedule, fp))
  {
    TitlesComplete(records, records[0].title);
    schedule, fp := BuildSchedule(records);
    InitialKeys(schedule, fp, records);
    success := ScheduleNextShow(schedule, fp, 0);
  }
}

/** The StudentList component as a pure render: given the roster, the course, the
    instants at which it reads the clock, the page state and the sort state, it yields the rows, the
    resolved column keys and the pagination properties. The page state changes only
    through onPageChange, driven by the pagination control's clicks. */
module StudentList {
  import opened Wrappers
  import opened Recency
  import opened PageWindow
  import opened StudentsPagination
  import opened ColumnKeys

  /** One rendered row: the student and the showRecent flag passed to the row. */
  datatype Row<S> = Row(student: S, showRecent: bool)

  /** The properties handed to the pagination control. */
  datatype PaginationProps = PaginationProps(totalItems: nat, itemsPerPage: nat, currentPage: int, totalPages: nat)

  /** Everything the component renders. */
  datatype View<S> = View(rows: seq<Row<S>>, keys: map<string, Column>, pagination: PaginationProps)

  function Students<S>(rows: seq<Row<S>>): (students: seq<S>)
    ensures |students| == |rows|
    ensures forall i :: 0 <= i < |rows| ==> students[i] == rows[i].student
  {
    seq(|rows|, i requires 0 <= i < |rows| => rows[i].student)
  }

  /** The instants at which one render reads the clock: showRecent runs once per
      visible row, in row order, and once more for the column-key rule afterwards. */
  datatype Clock = Clock(rowNows: seq<Timestamp>, keysNow: Timestamp)

  /** The clock readings of a render move forward: row by row, then the key rule. */
  predicate Monotone(clock: Clock)
  {
    && (forall i, j :: 0 <= i <= j < |clock.rowNows| ==> clock.rowNows[i] <= clock.rowNows[j])
    && (forall i :: 0 <= i < |clock.rowNows| ==> clock.rowNows[i] <= clock.keysNow)
  }

  /** One render. The rows are the current page's window of the roster, each carrying
      the recency flag read at its own instant; the keys are the base keys resolved
      with the recency flag read at the key rule's instant; the pagination control
      sees the roster size, the page size 25, the page state and the page count. */
  function Render<S>(students: seq<S>, course: Course, clock: Clock, page: int,
                     sort: Sort, baseKeys: map<string, Column>): (v: View<S>)
    requires |clock.rowNows| == |Window(students, page)|
    ensures |v.rows| <= PerPage
    ensures Students(v.rows) == Window(students, page)
    ensures page >= 1 ==>
      Students(v.rows) == students[Min((page - 1) * PerPage, |students|)..Min(page * PerPage, |students|)]
    ensures forall i :: 0 <= i < |v.rows| ==> v.rows[i].showRecent == ShowRecent(course, clock.rowNows[i])
    ensures v.keys == Resolve(baseKeys, ShowRecent(course, clock.keysNow), sort)
    ensures RecentRevisions in baseKeys ==>
      (RecentRevisions in v.keys <==> ShowRecent(course, clock.keysNow))
    ensures v.pagination == PaginationProps(|students|, PerPage, page, TotalPages(|students|))
  {
    var visible := Window(students, page);
    var rows := seq(|visible|, i requires 0 <= i < |visible| =>
                      Row(visible[i], ShowRecent(course, clock.rowNows[i])));
    assert Students(rows) == visible;
    View(rows, Resolve(baseKeys, ShowRecent(course, clock.keysNow), sort),
         PaginationProps(|students|, PerPage, page, TotalPages(|students|)))
  }

  /** Because the clock only moves forward, a kept recent_revisions column implies that
      every visible row was flagged recent too (each row read the clock no later). */
  lemma KeptColumnImpliesRecentRows<S>(students: seq<S>, course: Course, clock: Clock, page: int,
                                                          sort: Sort, baseKeys: map<string, Column>)
    requires |clock.rowNows| == |Window(students, page)|
    requires Monotone(clock)
    requires RecentRevisions in Render(students, course, clock, page, sort, baseKeys).keys
    ensures forall i :: 0 <= i < |Render(students, course, clock, page, sort, baseKeys).rows| ==>
      Render(students, course, clock, page, sort, baseKeys).rows[i].showRecent
  {
    var v := Render(students, course, clock, page, sort, baseKeys);
    assert ShowRecent(course, clock.keysNow);
    forall i | 0 <= i < |v.rows|
      ensures v.rows[i].showRecent
    {
      StalenessPersists(course, clock.rowNows[i], clock.keysNow);
    }
  }

  /** Without the forward-moving hypothesis the implication fails: a wall clock stepped
      back between the row and the key rule keeps the column over a row flagged stale. */
  lemma BackwardClockKeepsColumnOverStaleRow()
    ensures var course := Course(Some(Update(0)));
            var base := map[RecentRevisions := Column("Recent Edits", Unsorted)];
            var v := Render([1], course, Clock([SevenDays], SevenDays - 1), 1, Sort(None, false), base);
            !v.rows[0].showRecent && RecentRevisions in v.keys
  {
    var course := Course(Some(Update(0)));
    assert !ShowRecent(course, SevenDays);
    assert ShowRecent(course, SevenDays - 1);
  }

  /** The converse fails: a render that straddles the seven-day boundary flags its row
      recent and then deletes the recent_revisions column. */
  lemma StraddlingRenderDisagrees()
    ensures var course := Course(Some(Update(0)));
            var base := map[RecentRevisions := Column("Recent Edits", Unsorted)];
            var v := Render([1], course, Clock([SevenDays - 1], SevenDays), 1, Sort(None, false), base);
            v.rows[0].showRecent && RecentRevisions !in v.keys
  {
    var course := Course(Some(Update(0)));
    assert ShowRecent(course, SevenDays - 1);
    assert !ShowRecent(course, SevenDays);
  }

  /** The page-info line of an empty roster: total 0 over 0 pages, page size 25, and
      the page state unchanged. */
  lemma EmptyRosterPageInfo<S>(students: seq<S>, course: Course, now: Timestamp, page: int,
                               sort: Sort, baseKeys: map<string, Column>)
    requires students == []
    ensures Render(students, course, Clock([], now), page, sort, baseKeys).pagination
            == PaginationProps(0, 25, page, 0)
  {
  }

  /** The page state after a click on `control`: setPage's argument when onPageChange is
      called, the unchanged page otherwise. */
  function AfterClick(page: int, count: nat, control: Control): (next: int)
    ensures OnClick(page, TotalPages(count), control).None? ==> next == page
    ensures OnClick(page, TotalPages(count), control).Some? ==> next == OnClick(page, TotalPages(count), control).value
    ensures page >= 1 && Offered(control, TotalPages(count)) ==> next >= 1
  {
    OnClick(page, TotalPages(count), control).GetOr(page)
  }

  /** The page state after a sequence of clicks, each against the roster size of the
      render it happened in. */
  function AfterClicks(page: int, clicks: seq<(nat, Control)>): int
    decreases clicks
  {
    if |clicks| == 0 then page
    else AfterClicks(AfterClick(page, clicks[0].0, clicks[0].1), clicks[1..])
  }

  /** The page state never drops below 1 from its initial value 1, whatever rendered
      elements are clicked and however the roster size changes between renders; so the window is always the
      clamped slice and never wraps around from the end. */
  lemma {:induction false} PageStaysPositive(page: int, clicks: seq<(nat, Control)>)
    requires page >= 1
    requires forall i :: 0 <= i < |clicks| ==> Offered(clicks[i].1, TotalPages(clicks[i].0))
    ensures AfterClicks(page, clicks) >= 1
    decreases clicks
  {
    if |clicks| > 0 {
      var (count, control) := clicks[0];
      var next := AfterClick(page, count, control);
      PageStaysPositive(next, clicks[1..]);
    }
  }

  /** While the roster size stays fixed, clicks on rendered elements keep a page inside
      1..TotalPages inside it. */
  lemma {:induction false} PageStaysInRange(page: int, count: nat, controls: seq<Control>)
    requires 1 <= page <= TotalPages(count)
    requires forall i :: 0 <= i < |controls| ==> Offered(controls[i], TotalPages(count))
    ensures 1 <= AfterClicks(page, seq(|controls|, i requires 0 <= i < |controls| => (count, controls[i]))) <= TotalPages(count)
    decreases controls
  {
    var clicks := seq(|controls|, i requires 0 <= i < |controls| => (count, controls[i]));
    if |controls| > 0 {
      var next := AfterClick(page, count, controls[0]);
      PageStaysInRange(next, count, controls[1..]);
      var rest := seq(|controls[1..]|, i requires 0 <= i < |controls[1..]| => (count, controls[1..][i]));
      assert clicks[1..] == rest;
    }
  }

  /** Thirty students: page 1 shows the first 25 of two pages; page 2 shows the last 5,
      with previous enabled and next flagged disabled. */
  lemma ThirtyStudents(s: seq<int>, course: Course, now: Timestamp, sort: Sort, keys: map<string, Column>)
    requires |s| == 30
    ensures Students(Render(s, course, Clock(seq(25, i => now), now), 1, sort, keys).rows) == s[..25]
    ensures Students(Render(s, course, Clock(seq(5, i => now), now), 2, sort, keys).rows) == s[25..]
    ensures Render(s, course, Clock(seq(5, i => now), now), 2, sort, keys).pagination.totalPages == 2
    ensures Links(2, 2) == [PreviousLink(false), NumberLink(1, false), NumberLink(2, true), NextLink(true)]
  {
  }
}

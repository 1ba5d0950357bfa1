/** Page windowing of the student roster: a fixed page size of 25, the page count by
    integer ceiling division, and the visible slice taken with JavaScript's
    Array.prototype.slice semantics. */
module PageWindow {

  /** The fixed number of students shown per page. */
  const PerPage: nat := 25

  function Min(a: int, b: int): int { if a <= b then a else b }

  /** Number of pages needed for `count` students: the ceiling of count / PerPage. */
  function TotalPages(count: nat): (pages: nat)
    ensures pages * PerPage >= count
    ensures pages == 0 || (pages - 1) * PerPage < count
    ensures pages == 0 <==> count == 0
  {
    (count + PerPage - 1) / PerPage
  }

  /** Resolves one slice bound against a sequence length as Array.prototype.slice
      does: a negative bound counts back from the end, and the result is clamped to
      the sequence. */
  function ResolveBound(i: int, len: nat): (r: nat)
    ensures r <= len
  {
    if i < 0 then (if len + i < 0 then 0 else len + i)
    else if i < len then i
    else len
  }

  /** Array.prototype.slice(start, end): never fails, yields the empty sequence when
      the resolved bounds cross. */
  function Slice<T>(s: seq<T>, start: int, end: int): seq<T>
  {
    var from := ResolveBound(start, |s|);
    var to := ResolveBound(end, |s|);
    if from < to then s[from..to] else []
  }

  /** The students shown on page `page` (1-based). For every page at least 1 it is the
      clamped range [(page-1)*25, page*25); past the last page it is empty. */
  function Window<T>(students: seq<T>, page: int): (w: seq<T>)
    ensures |w| <= PerPage
    ensures page >= 1 ==>
      w == students[Min((page - 1) * PerPage, |students|)..Min(page * PerPage, |students|)]
    ensures page > TotalPages(|students|) ==> w == []
    ensures page == 0 ==> w == []
  {
    Slice(students, (page - 1) * PerPage, page * PerPage)
  }

  /** The windows of pages 1..k, concatenated in page order. */
  function Paged<T>(students: seq<T>, k: nat): seq<T>
  {
    if k == 0 then [] else Paged(students, k - 1) + Window(students, k)
  }

  /** The first k pages together are exactly the first k*25 students (clamped). */
  lemma {:induction false} PagedIsPrefix<T>(students: seq<T>, k: nat)
    ensures Paged(students, k) == students[..Min(k * PerPage, |students|)]
  {
    if k > 0 {
      PagedIsPrefix(students, k - 1);
      var a := Min((k - 1) * PerPage, |students|);
      var b := Min(k * PerPage, |students|);
      assert students[..a] + students[a..b] == students[..b];
    }
  }

  /** Concatenating the windows of pages 1..TotalPages reproduces the roster exactly,
      in order: no student is dropped, duplicated or moved. */
  lemma {:induction false} WindowsReassemble<T>(students: seq<T>)
    ensures Paged(students, TotalPages(|students|)) == students
  {
    PagedIsPrefix(students, TotalPages(|students|));
  }

  /** The windows' lengths over pages 1..k add up to the number of students they cover. */
  function PagedCount<T>(students: seq<T>, k: nat): nat
  {
    if k == 0 then 0 else PagedCount(students, k - 1) + |Window(students, k)|
  }

  lemma {:induction false} PagedCountIsLength<T>(students: seq<T>, k: nat)
    ensures PagedCount(students, k) == |Paged(students, k)|
  {
    if k > 0 {
      PagedCountIsLength(students, k - 1);
    }
  }

  /** The sum of the slice lengths over pages 1..TotalPages is the number of students. */
  lemma {:induction false} SliceLengthsSumToCount<T>(students: seq<T>)
    ensures PagedCount(students, TotalPages(|students|)) == |students|
  {
    PagedCountIsLength(students, TotalPages(|students|));
    WindowsReassemble(students);
  }

  /** Every student appears on exactly the page its index determines, at the offset
      its index determines. */
  lemma StudentOnItsPage<T>(students: seq<T>, i: nat)
    requires i < |students|
    ensures 1 <= i / PerPage + 1 <= TotalPages(|students|)
    ensures i % PerPage < |Window(students, i / PerPage + 1)|
    ensures Window(students, i / PerPage + 1)[i % PerPage] == students[i]
  {
    var p := i / PerPage + 1;
    assert (p - 1) * PerPage + i % PerPage == i;
  }

  /** A negative page index (never reached by the roster, whose page starts at 1 and only
      moves through the pagination guards) wraps around from the end, as slice does. */
  lemma NegativePageWraps()
    ensures Window(seq(30, i => i), -1) == [0, 1, 2, 3, 4]
  {
    var s := seq(30, i => i);
    assert Window(s, -1) == s[0..5];
  }
}

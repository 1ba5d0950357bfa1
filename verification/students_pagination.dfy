/** The StudentsPagination control of the roster: a previous link, one link per page
    number, a next link, and a summary line (whose four values are StudentList's
    pagination properties). A click either calls onPageChange once, with the value
    modelled here, or does nothing. */
module StudentsPagination {
  import opened Wrappers

  /** The three kinds of clickable element the control renders. */
  datatype Control = Previous | PageLink(number: int) | Next

  /** The rendered state of one element: the CSS flags the control sets. */
  datatype Link =
    | PreviousLink(disabled: bool)
    | NumberLink(number: int, isCurrent: bool)
    | NextLink(disabled: bool)

  /** A control the component actually renders for `totalPages` pages: the edges, and
      the page numbers 1..totalPages. */
  predicate Offered(control: Control, totalPages: nat)
  {
    control.PageLink? ==> 1 <= control.number <= totalPages
  }

  /** The click handlers: Some(v) when onPageChange(v) is called, None when the click
      is a no-op. A call never targets the current page; for a current page inside
      1..totalPages, a call from a rendered element stays inside 1..totalPages. */
  function OnClick(current: int, totalPages: nat, control: Control): (call: Option<int>)
    ensures call.Some? ==> call.value != current
    ensures 1 <= current <= totalPages && Offered(control, totalPages) && call.Some? ==>
      1 <= call.value <= totalPages
    ensures control.Previous? ==> (call.Some? <==> current > 1)
    ensures control.Next? ==> (call.Some? <==> current < totalPages)
    ensures control.PageLink? ==> (call.Some? <==> control.number != current)
    ensures control.Previous? && call.Some? ==> call.value == current - 1
    ensures control.Next? && call.Some? ==> call.value == current + 1
    ensures control.PageLink? && call.Some? ==> call.value == control.number
  {
    match control
    case Previous => if current > 1 then Some(current - 1) else None
    case PageLink(n) => if current != n then Some(n) else None
    case Next => if current < totalPages then Some(current + 1) else None
  }

  /** The element rendered for each control. */
  function LinkFor(current: int, totalPages: nat, control: Control): Link
  {
    match control
    case Previous => PreviousLink(current == 1)
    case PageLink(n) => NumberLink(n, current == n)
    case Next => NextLink(current == totalPages)
  }

  /** The controls in rendering order: previous, 1..totalPages, next. */
  function Controls(totalPages: nat): (cs: seq<Control>)
    ensures |cs| == totalPages + 2
    ensures cs[0] == Previous && cs[|cs| - 1] == Next
    ensures forall i :: 1 <= i <= totalPages ==> cs[i] == PageLink(i)
    ensures forall i :: 0 <= i < |cs| ==> Offered(cs[i], totalPages)
    ensures forall n :: 1 <= n <= totalPages ==> PageLink(n) in cs
  {
    var numbers := seq(totalPages, i => PageLink(i + 1));
    assert forall n :: 1 <= n <= totalPages ==> numbers[n - 1] == PageLink(n);
    [Previous] + numbers + [Next]
  }

  /** The rendered control: previous is flagged disabled iff the current page is 1,
      next iff it equals totalPages, and the numbered links are exactly 1..totalPages
      with the current one marked. */
  function Links(current: int, totalPages: nat): (links: seq<Link>)
    ensures |links| == totalPages + 2
    ensures links[0] == PreviousLink(current == 1)
    ensures links[|links| - 1] == NextLink(current == totalPages)
    ensures forall i :: 1 <= i <= totalPages ==> links[i] == NumberLink(i, i == current)
  {
    var cs := Controls(totalPages);
    seq(|cs|, i requires 0 <= i < |cs| => LinkFor(current, totalPages, cs[i]))
  }

  /** For a current page inside 1..totalPages the flags tell the truth: an element is
      flagged (disabled or current) exactly when clicking it does nothing. */
  lemma FlagsMatchClicks(current: int, totalPages: nat, control: Control)
    requires 1 <= current <= totalPages
    ensures LinkFor(current, totalPages, control).PreviousLink? ==>
      (LinkFor(current, totalPages, control).disabled <==> OnClick(current, totalPages, control).None?)
    ensures LinkFor(current, totalPages, control).NextLink? ==>
      (LinkFor(current, totalPages, control).disabled <==> OnClick(current, totalPages, control).None?)
    ensures LinkFor(current, totalPages, control).NumberLink? ==>
      (LinkFor(current, totalPages, control).isCurrent <==> OnClick(current, totalPages, control).None?)
  {
  }

  /** Exactly one numbered link is marked current when the current page is inside
      1..totalPages, and none otherwise. */
  lemma {:induction false} CurrentMarkedOnce(current: int, totalPages: nat)
    ensures forall i, j ::
              && 1 <= i <= totalPages && 1 <= j <= totalPages
              && Links(current, totalPages)[i].isCurrent && Links(current, totalPages)[j].isCurrent
              ==> i == j
    ensures (exists i :: 1 <= i <= totalPages && Links(current, totalPages)[i].isCurrent)
      <==> 1 <= current <= totalPages
  {
    var links := Links(current, totalPages);
    if 1 <= current <= totalPages {
      assert links[current].isCurrent;
    }
  }

  /** A page left behind by a shrinking roster is kept as is. Its previous link still
      fires with the page below it, which can itself lie past the last page; its next
      link is not flagged disabled (5 differs from 2) yet clicking it does nothing. */
  lemma StalePageClicks()
    ensures OnClick(5, 2, Previous) == Some(4)
    ensures Links(5, 2)[0] == PreviousLink(false)
    ensures Links(5, 2)[3] == NextLink(false)
    ensures OnClick(5, 2, Next).None?
  {
  }

  /** With no students there are no pages: next is not flagged disabled (1 differs from
      0), yet clicking it, like clicking previous, calls nothing. */
  lemma EmptyRosterNextNotFlagged()
    ensures Links(1, 0) == [PreviousLink(true), NextLink(false)]
    ensures OnClick(1, 0, Next).None? && OnClick(1, 0, Previous).None?
  {
  }

  /** An emptied roster shown on a later page: previous is not flagged and still fires,
      taking the page back to 1. */
  lemma EmptiedRosterOnLaterPage()
    ensures Links(2, 0) == [PreviousLink(false), NextLink(false)]
    ensures OnClick(2, 0, Previous) == Some(1) && OnClick(2, 0, Next).None?
  {
  }
}

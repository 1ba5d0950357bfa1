/** The customised will_paginate LinkRenderer: the per-slot rendering decisions for
    page numbers, previous/next links and gaps, and the url builder that carries every
    request parameter except the routing ones over into each page link, computing the
    base parameters once per renderer. */
module LinkRenderer {
  import opened Wrappers
  import opened RubyValues

  const ActionKey: string := "action"
  const ControllerKey: string := "controller"
  const PageKey: string := "page"

  /** The two routing keys that are never carried over into page links. */
  const Routing: set<string> := {ActionKey, ControllerKey}

  // ---------------------------------------------------------------- slots

  /** The class of the list item wrapping a slot. */
  datatype ItemClass = Plain | Selected | Disabled

  /** Where an anchor points: a page (whose url `Url` builds) or '#'. */
  datatype Target = ToPage(page: int) | Hash

  /** The text of an anchor: a page number or a literal string. */
  datatype Text = PageText(page: int) | Literal(s: string)

  /** One rendered slot: the list item class, the anchor's text, target and class, and
      whether a rel attribute for the page is requested explicitly. */
  datatype Slot = Slot(item: ItemClass, text: Text, target: Target, anchorClass: Option<string>, explicitRel: bool)

  /** A slot is navigable exactly when it is not disabled, and a selected slot points
      at the current page. */
  predicate Consistent(slot: Slot, currentPage: int)
  {
    && (slot.item == Disabled <==> slot.target == Hash)
    && (slot.item == Selected ==> slot.target == ToPage(currentPage))
  }

  /** page_number: the current page is a selected item whose anchor has class 'current';
      any other page is a plain item linking to that page with its rel. */
  function PageNumber(page: int, currentPage: int): (slot: Slot)
    ensures slot.item == Selected <==> page == currentPage
    ensures slot.anchorClass == Some("current") <==> page == currentPage
    ensures slot.explicitRel <==> page != currentPage
    ensures page != currentPage ==> slot.anchorClass.None? && slot.item == Plain
    ensures slot.item != Disabled && slot.target == ToPage(page) && slot.text == PageText(page)
    ensures Consistent(slot, currentPage)
  {
    if page == currentPage then Slot(Selected, PageText(page), ToPage(page), Some("current"), false)
    else Slot(Plain, PageText(page), ToPage(page), None, true)
  }

  /** previous_or_next_page: with no adjacent page (nil or false) the item is disabled and the
      anchor points at '#'; otherwise it is an enabled link to that page. The text and
      the anchor class are the caller's either way. */
  function PreviousOrNextPage(page: Option<int>, text: string, classname: string, currentPage: int): (slot: Slot)
    ensures slot.item == Disabled <==> page.None?
    ensures slot.target == Hash <==> page.None?
    ensures page.Some? ==> slot.target == ToPage(page.value) && slot.item == Plain
    ensures slot.text == Literal(text) && slot.anchorClass == Some(classname) && !slot.explicitRel
    ensures Consistent(slot, currentPage)
  {
    match page
    case Some(p) => Slot(Plain, Literal(text), ToPage(p), Some(classname), false)
    case None => Slot(Disabled, Literal(text), Hash, Some(classname), false)
  }

  /** gap: always a disabled item with the text '...' pointing at '#'. */
  function Gap(currentPage: int): (slot: Slot)
    ensures slot.item == Disabled && slot.text == Literal("...") && slot.target == Hash
    ensures slot.anchorClass.None? && !slot.explicitRel
    ensures Consistent(slot, currentPage)
  {
    Slot(Disabled, Literal("..."), Hash, None, false)
  }

  // ---------------------------------------------------------------- url

  /** A renderer: the request's parameters, the collection's current page, and the
      memoised base parameter hash (nil until the first url call). */
  datatype Renderer = Renderer(request: Params, currentPage: int, memo: Option<Params>)

  /** The base parameters before memoisation: the request's parameters without the
      routing keys (the optional extra parameters merged in are taken to be none). */
  function BaseParams(request: Params): (base: Params)
    ensures base.Keys == request.Keys - Routing
    ensures forall k :: k in base ==> base[k] == request[k]
  {
    request - Routing
  }

  /** The renderer's memo, if set, agrees with the request's base everywhere except
      possibly at 'page' (which each url call overwrites in the memoised hash). */
  predicate Valid(r: Renderer)
  {
    r.memo.None? || r.memo.value - {PageKey} == BaseParams(r.request) - {PageKey}
  }

  datatype UrlResult = UrlResult(renderer: Renderer, params: Params)

  /** url(page): the parameters url_for receives. They are the request's parameters
      with action and controller removed and 'page' set to the target, inserted when
      absent and overwritten when present; every other key keeps its value. The memo
      is set (to the very hash returned) and stays valid. */
  function Url(r: Renderer, page: int): (res: UrlResult)
    requires Valid(r)
    ensures res.params.Keys == (r.request.Keys - Routing) + {PageKey}
    ensures res.params[PageKey] == Num(page)
    ensures forall k :: k in r.request && k !in Routing && k != PageKey ==> res.params[k] == r.request[k]
    ensures res.renderer == r.(memo := Some(res.params))
    ensures Valid(res.renderer)
  {
    var base := if r.memo.Some? then r.memo.value else BaseParams(r.request);
    var params := base[PageKey := Num(page)];
    assert params == (base - {PageKey})[PageKey := Num(page)];
    UrlResult(r.(memo := Some(params)), params)
  }

  /** A renderer as created for one pagination control. */
  function Fresh(request: Params, currentPage: int): (r: Renderer)
    ensures Valid(r) && r.memo.None?
  {
    Renderer(request, currentPage, None)
  }

  /** The parameters of the link to `page`, independent of the renderer's history. */
  function LinkParams(request: Params, page: int): Params
  {
    BaseParams(request)[PageKey := Num(page)]
  }

  /** Whatever url calls came before, url(page) yields the same parameters. */
  lemma UrlIsHistoryFree(r: Renderer, page: int)
    requires Valid(r)
    ensures Url(r, page).params == LinkParams(r.request, page)
  {
  }

  /** Repeating url(p) yields the same parameters. */
  lemma RepeatedUrlIsStable(r: Renderer, p: int)
    requires Valid(r)
    ensures Url(Url(r, p).renderer, p).params == Url(r, p).params
  {
  }

  /** Successive url calls on one renderer yield hashes that differ only at 'page'. */
  lemma SuccessiveUrlsDifferOnlyInPage(r: Renderer, p: int, q: int)
    requires Valid(r)
    ensures Url(Url(r, p).renderer, q).params == Url(r, p).params[PageKey := Num(q)]
    ensures Url(Url(r, p).renderer, q).params - {PageKey} == Url(r, p).params - {PageKey}
  {
  }

  /** The link targets of one rendered control, one url call per page in rendering
      order; every link carries the same base parameters and its own page. */
  method LinkTargets(r: Renderer, pages: seq<int>) returns (last: Renderer, targets: seq<Params>)
    requires Valid(r)
    ensures |targets| == |pages|
    ensures forall i :: 0 <= i < |pages| ==> targets[i] == LinkParams(r.request, pages[i])
    ensures Valid(last) && last.request == r.request && last.currentPage == r.currentPage
  {
    last := r;
    targets := [];
    var i := 0;
    while i < |pages|
      invariant 0 <= i <= |pages|
      invariant Valid(last) && last.request == r.request && last.currentPage == r.currentPage
      invariant |targets| == i
      invariant forall j :: 0 <= j < i ==> targets[j] == LinkParams(r.request, pages[j])
    {
      var res := Url(last, pages[i]);
      UrlIsHistoryFree(last, pages[i]);
      last := res.renderer;
      targets := targets + [res.params];
      i := i + 1;
    }
  }

  /** A request {foo: 'bar', page: '2'} routed to some action: the link to page 5
      keeps foo, overwrites page with 5 and drops the routing keys. */
  lemma PageOverwrittenExample()
    ensures var request := map["foo" := Str("bar"), "page" := Str("2"),
                               "action" := Str("index"), "controller" := Str("students")];
            Url(Fresh(request, 2), 5).params == map["foo" := Str("bar"), "page" := Num(5)]
  {
    var request := map["foo" := Str("bar"), "page" := Str("2"),
                       "action" := Str("index"), "controller" := Str("students")];
    var params := Url(Fresh(request, 2), 5).params;
    assert params.Keys == {"foo", "page"};
  }
}

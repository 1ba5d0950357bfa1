# Student roster paging and pagination links — a Dafny model

This project models the decision rules of two small pieces of the WikiEduDashboard:

- **The student roster (`StudentList`)**, a React component. It decides whether the
  "recent edits" column is still meaningful. That is the seven-day recency rule
  `showRecent`. It cuts the roster into pages of 25 students, and it resolves the
  table's column keys. That means dropping `recent_revisions` when recency is off and
  marking the sorted column. Its `StudentsPagination` control decides when a click
  calls `onPageChange`, and with which page.
- **The customised will_paginate `LinkRenderer`**, on the Rails side. It decides how
  each pagination slot is rendered: the current page, a numbered page,
  previous/next enabled or disabled, and a gap. It also builds each link's
  parameters from the request's parameters. The routing keys are dropped and
  `page` is set. The base is memoised per renderer. Finally it splits the i18n
  candidate keys into a lookup key and ordered defaults.

Everything is modelled as pure functions over immutable values:

- Timestamps are integer milliseconds. The instants at which a render reads the clock
  are parameters: one per visible row, and one for the column-key rule.
- The page state and the sort state are explicit inputs.
- Request parameters are a `map<string, Value>`.
- The memoised base is a field of an immutable `Renderer` value, which each `url`
  call returns updated.

Modules, one file each:

| module | models |
|---|---|
| `Wrappers` | `Option`, standing for null/undefined and for a Ruby nil or false page |
| `Recency` | `showRecent` |
| `PageWindow` | `perPage`, `totalPages`, and the page slice taken with `Array.prototype.slice` semantics |
| `StudentsPagination` | the click guards and the disabled/current flags |
| `ColumnKeys` | the delete and sort rules applied to the key map |
| `StudentList` | one render of the component, including the pagination properties (the summary line's four values), and the page state driven by clicks |
| `RubyValues` | parameter and option values on the Ruby side |
| `LinkRenderer` | `page_number`, `previous_or_next_page`, `gap`, and `url` with its memo |
| `PaginateTranslate` | `will_paginate_translate` and `page_entries_info_translate` |

Behaviours of the code worth knowing, each shown by a lemma:

- Resolving a sort sets the order flag of the sorted column only. Flags already
  present on other columns are not cleared (`ColumnKeys.OtherSortFlagsNotCleared`).
- With no students there are 0 pages. On page 1, previous is flagged disabled, but
  next is not, because it is flagged only when the current page equals `totalPages`
  (`1 == 0` is false). On page 1, clicking either one does nothing
  (`StudentsPagination.EmptyRosterNextNotFlagged`). If the roster empties while a
  later page is shown, previous is not flagged and its click goes back to page 1
  (`StudentsPagination.EmptiedRosterOnLaterPage`).
- A page past the last one, and page 0, give an empty slice. A negative page would
  wrap around from the end, as `Array.prototype.slice` does
  (`PageWindow.NegativePageWraps`). The page starts at 1 and only moves through the
  click guards, so it never goes negative (`StudentList.PageStaysPositive`).
- When the roster shrinks, the page is kept as it is. From a page past the last one,
  previous still fires with the page below it, which can also lie past the last page.
  On the same page next is not flagged disabled, yet clicking it does nothing
  (`StudentsPagination.StalePageClicks`). The click guards keep a page
  inside 1..totalPages only while it starts there.
- `showRecent` reads the clock once per visible row and once more for the column-key
  rule. If the clock readings do not go backwards, a kept `recent_revisions` column
  means every row was flagged recent (`StudentList.KeptColumnImpliesRecentRows`). A
  wall clock stepped back between the readings breaks this
  (`StudentList.BackwardClockKeepsColumnOverStaleRow`). The
  converse fails: a render that straddles the seven-day boundary can flag rows as
  recent and then delete the column (`StudentList.StraddlingRenderDisagrees`).
- The comment at StudentList.jsx:18 says "not more than 7 days ago", which includes
  exactly 7 days. The code uses the strict `isAfter`, so exactly 7 days counts as not
  recent (`Recency.SevenDayBoundary`). The model follows the code.

## Model

| member | source | states |
|---|---|---|
| `Recency.ShowRecent` | app/assets/javascripts/components/students/shared/StudentList/StudentList.jsx:17-24 | false without a last update; otherwise true iff less than seven days (in ms) separate the update's end from now |
| `Recency.SevenDayBoundary` | app/assets/javascripts/components/students/shared/StudentList/StudentList.jsx:23 | exactly seven days after the end the flag is false, one millisecond earlier it is true (strict `isAfter`) |
| `Recency.StalenessPersists` | app/assets/javascripts/components/students/shared/StudentList/StudentList.jsx:23 | recency only decays: recent at a later instant implies recent at an earlier one |
| `PageWindow.TotalPages` | app/assets/javascripts/components/students/shared/StudentList/StudentList.jsx:88-90 | the page count is the ceiling of count/25: enough pages to hold every student, no empty last page, 0 pages exactly for 0 students |
| `PageWindow.Window` | app/assets/javascripts/components/students/shared/StudentList/StudentList.jsx:88-89 | a page holds at most 25 students; for page ≥ 1 it is the clamped range [(page-1)*25, page*25); past the last page, and at page 0, it is empty without error |
| `PageWindow.PagedIsPrefix` | app/assets/javascripts/components/students/shared/StudentList/StudentList.jsx:89 | pages 1..k concatenated are the first min(25k, n) students |
| `PageWindow.WindowsReassemble` | app/assets/javascripts/components/students/shared/StudentList/StudentList.jsx:89-90 | concatenating pages 1..totalPages reproduces the roster exactly, in order |
| `PageWindow.SliceLengthsSumToCount` | app/assets/javascripts/components/students/shared/StudentList/StudentList.jsx:89-90 | the slice lengths over pages 1..totalPages sum to the number of students |
| `PageWindow.StudentOnItsPage` | app/assets/javascripts/components/students/shared/StudentList/StudentList.jsx:89-90 | student i is on page i/25+1 (a page that exists) at offset i mod 25 |
| `PageWindow.NegativePageWraps` | app/assets/javascripts/components/students/shared/StudentList/StudentList.jsx:89 | slice semantics: page -1 of 30 students is students 0..4, not an empty page |
| `StudentsPagination.OnClick` | app/assets/javascripts/components/students/shared/StudentList/StudentList.jsx:31-71 | previous fires iff current > 1 (with current-1), next iff current < totalPages (with current+1), a number iff it differs from current (with that number), so a call never targets the current page; for a current page in 1..totalPages a rendered element only calls with a page in 1..totalPages |
| `StudentsPagination.Controls` | app/assets/javascripts/components/students/shared/StudentList/StudentList.jsx:27-71 | previous first, then the numbers 1..totalPages in order at positions 1..totalPages, then next: totalPages+2 elements, all rendered ones |
| `StudentsPagination.Links` | app/assets/javascripts/components/students/shared/StudentList/StudentList.jsx:27-71 | previous is flagged disabled iff current is 1, next iff current equals totalPages, the numbered links are 1..totalPages with the one equal to current marked; each element's flags are those `StudentsPagination.LinkFor` computes from the className expressions |
| `StudentsPagination.FlagsMatchClicks` | app/assets/javascripts/components/students/shared/StudentList/StudentList.jsx:31-71 | for current in 1..totalPages an element is flagged disabled/current exactly when clicking it is a no-op |
| `StudentsPagination.CurrentMarkedOnce` | app/assets/javascripts/components/students/shared/StudentList/StudentList.jsx:42-45 | at most one numbered link is marked current, and one is iff current is in 1..totalPages |
| `StudentsPagination.EmptyRosterNextNotFlagged` | app/assets/javascripts/components/students/shared/StudentList/StudentList.jsx:62-67 | on page 1 with 0 pages, previous is flagged disabled and next is not, yet clicking either calls nothing |
| `StudentsPagination.EmptiedRosterOnLaterPage` | app/assets/javascripts/components/students/shared/StudentList/StudentList.jsx:32-35 | on page 2 with 0 pages, previous is not flagged and calls onPageChange(1); next calls nothing |
| `StudentsPagination.StalePageClicks` | app/assets/javascripts/components/students/shared/StudentList/StudentList.jsx:32-66 | on stale page 5 of 2 pages, previous is not flagged and calls onPageChange(4), outside 1..totalPages; next is not flagged either, yet its click calls nothing |
| `ColumnKeys.DropStale` | app/assets/javascripts/components/students/shared/StudentList/StudentList.jsx:105 | recent_revisions is absent iff recency is off (or it was never there); every other column is kept unchanged |
| `ColumnKeys.ApplySort` | app/assets/javascripts/components/students/shared/StudentList/StudentList.jsx:106 | the key set is unchanged; a present column named by a truthy sort key gets order asc/desc from sortKey and keeps its other attributes; every other column is unchanged |
| `ColumnKeys.Resolve` | app/assets/javascripts/components/students/shared/StudentList/StudentList.jsx:104-106 | the resolved keys: recent_revisions present iff recency on and in the base, the sorted column's order set, every other column identical to the base |
| `ColumnKeys.SortOnRemovedColumnIsIgnored` | app/assets/javascripts/components/students/shared/StudentList/StudentList.jsx:105-106 | a sort on a removed recent_revisions sets nothing |
| `ColumnKeys.UnknownSortKeyIgnored` | app/assets/javascripts/components/students/shared/StudentList/StudentList.jsx:106 | a falsy or unknown sort key leaves the keys as the delete rule left them |
| `ColumnKeys.OtherSortFlagsNotCleared` | app/assets/javascripts/components/students/shared/StudentList/StudentList.jsx:106 | an 'asc' flag on another column survives a sort on a different column |
| `StudentList.Render` | app/assets/javascripts/components/students/shared/StudentList/StudentList.jsx:85-127 | the rows are exactly the page's window (clamped slice for page ≥ 1), each flagged by showRecent at its own clock reading; the keys are the base keys resolved with showRecent at the key rule's reading, so, when the base has it, recent_revisions is kept iff that flag is on; the control receives count, 25, the page and the page count |
| `StudentList.KeptColumnImpliesRecentRows` | app/assets/javascripts/components/students/shared/StudentList/StudentList.jsx:91-106 | with a forward-moving clock, a kept recent_revisions column implies every visible row was flagged recent |
| `StudentList.BackwardClockKeepsColumnOverStaleRow` | app/assets/javascripts/components/students/shared/StudentList/StudentList.jsx:23 | with the key rule's reading earlier than a row's, the column is kept over a row flagged not recent |
| `StudentList.StraddlingRenderDisagrees` | app/assets/javascripts/components/students/shared/StudentList/StudentList.jsx:98-105 | a render straddling the seven-day boundary flags its row recent yet deletes recent_revisions |
| `StudentList.EmptyRosterPageInfo` | app/assets/javascripts/components/students/shared/StudentList/StudentList.jsx:73-80 | for an empty roster the page-info values are total 0, 0 pages, page size 25 and the unchanged page |
| `StudentList.AfterClick` | app/assets/javascripts/components/students/shared/StudentList/StudentList.jsx:121-127 | setPage receives the onPageChange value, otherwise the page is unchanged; a click on a rendered element never takes a page ≥ 1 below 1 |
| `StudentList.PageStaysPositive` | app/assets/javascripts/components/students/shared/StudentList/StudentList.jsx:87-89 | from page 1, any clicks on rendered elements, even as the roster size changes, keep the page ≥ 1 |
| `StudentList.PageStaysInRange` | app/assets/javascripts/components/students/shared/StudentList/StudentList.jsx:121-127 | with a fixed roster size, clicks on rendered elements keep a page inside 1..totalPages |
| `StudentList.ThirtyStudents` | app/assets/javascripts/components/students/shared/StudentList/StudentList.jsx:88-90 | 30 students: page 1 shows the first 25, page 2 the last 5, 2 pages, on page 2 previous enabled and next flagged disabled |
| `LinkRenderer.PageNumber` | config/initializers/will_paginate.rb:34-40 | selected item with anchor class current iff the page is the current page; otherwise a plain item whose anchor has no class and an explicit rel; the anchor always links to the page |
| `LinkRenderer.PreviousOrNextPage` | config/initializers/will_paginate.rb:42-48 | disabled item pointing at '#' iff the page is absent (nil or false); otherwise an enabled link to the page; text and class are the caller's |
| `LinkRenderer.Gap` | config/initializers/will_paginate.rb:50-52 | always disabled, text '...', target '#', no anchor class and no rel |
| `LinkRenderer.BaseParams` | config/initializers/will_paginate.rb:58-59 | the request's parameters without action and controller, every other value kept |
| `LinkRenderer.Url` | config/initializers/will_paginate.rb:55-63 | the link parameters are the request's minus action/controller with page inserted or overwritten, every other key and value preserved; the memo is set to that hash and stays valid |
| `LinkRenderer.UrlIsHistoryFree` | config/initializers/will_paginate.rb:56-61 | whatever url calls came before, url(p) yields the same parameters |
| `LinkRenderer.RepeatedUrlIsStable` | config/initializers/will_paginate.rb:56-61 | repeating url(p) on the renderer it returned yields the same map |
| `LinkRenderer.SuccessiveUrlsDifferOnlyInPage` | config/initializers/will_paginate.rb:56-61 | two successive url calls on one renderer yield maps that differ only in page |
| `LinkRenderer.LinkTargets` | config/initializers/will_paginate.rb:55-63 | the targets of a whole control: each is the shared base with its own page |
| `LinkRenderer.PageOverwrittenExample` | config/initializers/will_paginate.rb:58-61 | {foo:'bar', page:'2'} plus routing keys, linked to page 5, gives {foo:'bar', page:5} |
| `PaginateTranslate.Translate` | config/initializers/will_paginate.rb:8-24 | with I18n the key is keys[0] (nil for an empty list), the :default option is keys[1..] in order, other options pass through, the caller's list loses its first element and a caller's block is dropped; without I18n the library lookup gets the arguments and the block unchanged |
| `PaginateTranslate.KeyThenDefaultsIsOriginal` | config/initializers/will_paginate.rb:8-24 | the key followed by the defaults read back from the options is the caller's original list |

## Left out

- Rendering: the JSX markup, inline styles, `e.preventDefault`, the `List` and `StudentRow` components, and the HTML container. Presentation only.
- React state and Redux: `useState` and `useSelector` are replaced by explicit page and sort inputs.
- The contents of `studentListKeys` are an opaque input map. A column's display attributes are represented by one `title` field, because they are only ever passed through.
- `CourseUtils.i18n`, and the text of every i18n string. Only the lookup key and options are modelled.
- Recency.ShowRecent: does not model `toDate` parsing or date-fns' calendar-day `addDays`. Timestamps are integer milliseconds and seven days is a fixed 604,800,000 ms, so a daylight-saving shift inside the window is not reflected.
- Recency.ShowRecent: a last update without an `end_time` is not modelled. Its behaviour depends on the date parsing helper, which is not part of this model.
- ColumnKeys.Resolve: a sort key that names an inherited JavaScript object property (such as `constructor`) is treated as absent, because the key map is a plain map.
- StudentList.KeptColumnImpliesRecentRows: holds only if the clock readings of one render do not go backwards. `new Date()` reads the wall clock, which can be stepped back, and the model does not promise the implication then.
- `Math.ceil` over floating-point numbers is replaced by integer ceiling division, which is exact for every roster size.
- LinkRenderer.Url: `merge_optional_params` is taken to be the identity, and `url_for` is abstracted. The model returns the parameter hash `url_for` receives, not the URL string. Both are library calls whose code is not part of this model.
- LinkRenderer.PageNumber: `link`, `tag` and `rel_value` are library calls. The slot records the item class, the anchor's text, target and class, and whether a rel is requested explicitly, not the rel value.
- PaginateTranslate.Translate: `keys` is a list of key names. When I18n is loaded and the caller passes a single key that is not an Array, `keys.shift` raises NoMethodError; that error path is not modelled, although a caller passing a bare Symbol key reaches it.
- PaginateTranslate.Translate: the branch without I18n calls the library's own implementation (`super`), which is not part of this model. It is represented by the unchanged arguments it receives.
- The numbering-window algorithm that decides which page numbers and gaps will_paginate renders belongs to the library and is not part of this model.

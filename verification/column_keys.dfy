/** Column-key resolution of the student roster: the base key map loses its
    recent_revisions column when recency is off, and the column named by the sort
    state gets its order flag set. */
module ColumnKeys {
  import opened Wrappers

  /** The key of the "recent edits" column. */
  const RecentRevisions: string := "recent_revisions"

  /** A column's sort marker: unset, 'asc' or 'desc'. */
  datatype Order = Unsorted | Asc | Desc

  /** One column description; its display attributes other than the title pass
      through untouched, so the title stands for all of them. */
  datatype Column = Column(title: string, order: Order)

  /** The global sort state: the sorted column key (null, undefined and "" are all
      falsy) and the direction flag. */
  datatype Sort = Sort(key: Option<string>, sortKey: bool)

  /** The sort key when it is truthy. */
  function SortedKey(sort: Sort): Option<string>
  {
    if sort.key.Some? && sort.key.value != "" then sort.key else None
  }

  /** The order the sort state asks for: 'asc' when sortKey is truthy, else 'desc'. */
  function Direction(sort: Sort): Order
  {
    if sort.sortKey then Asc else Desc
  }

  /** The key map after the delete rule: recent_revisions is absent iff recency is off
      (or it was never there); every other column is kept as is. */
  function DropStale(base: map<string, Column>, showRecent: bool): (keys: map<string, Column>)
    ensures RecentRevisions in keys <==> showRecent && RecentRevisions in base
    ensures keys.Keys == if showRecent then base.Keys else base.Keys - {RecentRevisions}
    ensures forall k :: k in keys ==> keys[k] == base[k]
  {
    if showRecent then base else base - {RecentRevisions}
  }

  /** The sort rule: if the sort key is truthy and names a column still present, that
      column's order becomes the requested direction. Nothing else changes; in
      particular other columns' order flags are not cleared. */
  function ApplySort(keys: map<string, Column>, sort: Sort): (sorted: map<string, Column>)
    ensures sorted.Keys == keys.Keys
    ensures forall k :: k in sorted && Some(k) != SortedKey(sort) ==> sorted[k] == keys[k]
    ensures forall k :: k in sorted && Some(k) == SortedKey(sort) ==>
      sorted[k] == keys[k].(order := Direction(sort))
  {
    match SortedKey(sort)
    case None => keys
    case Some(k) => if k in keys then keys[k := keys[k].(order := Direction(sort))] else keys
  }

  /** The resolved keys handed to the list: the delete rule, then the sort rule. */
  function Resolve(base: map<string, Column>, showRecent: bool, sort: Sort): (keys: map<string, Column>)
    ensures RecentRevisions in keys <==> showRecent && RecentRevisions in base
    ensures keys.Keys == DropStale(base, showRecent).Keys
    ensures forall k :: k in keys && Some(k) == SortedKey(sort) ==>
      keys[k].order == Direction(sort) && keys[k].title == base[k].title
    ensures forall k :: k in keys && Some(k) != SortedKey(sort) ==> keys[k] == base[k]
  {
    ApplySort(DropStale(base, showRecent), sort)
  }

  /** A sort on a removed recent_revisions column sets nothing: the result is the base
      map without that column. */
  lemma SortOnRemovedColumnIsIgnored(base: map<string, Column>, ascending: bool)
    ensures Resolve(base, false, Sort(Some(RecentRevisions), ascending)) == base - {RecentRevisions}
  {
  }

  /** Unknown or falsy sort keys are ignored: the result is the delete rule alone. */
  lemma UnknownSortKeyIgnored(base: map<string, Column>, showRecent: bool, sort: Sort)
    requires SortedKey(sort).None? || SortedKey(sort).value !in DropStale(base, showRecent)
    ensures Resolve(base, showRecent, sort) == DropStale(base, showRecent)
  {
  }

  /** Sort flags already present on other columns survive: resolving a sort on one
      column leaves a second column's 'asc' in place, so two columns can be marked. */
  lemma OtherSortFlagsNotCleared()
    ensures var base := map["username" := Column("Name", Asc), "total_edits" := Column("Edits", Unsorted)];
            var keys := Resolve(base, true, Sort(Some("total_edits"), false));
            keys["username"].order == Asc && keys["total_edits"].order == Desc
  {
  }
}

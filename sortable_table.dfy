/** The sortable table component: the header click that cycles the sort
    state, and `filteredAndSortedData`, which runs the search, custom-filter
    and column-filter stages and then the optional sort. */
module SortableTable {
  import opened JsBase
  import opened JsStrings

  /** `SortDirection`: `'asc'`, `'desc'` or `null`. */
  datatype Direction = Asc | Desc | NoDirection

  /** A property value of a table row. */
  datatype Value = Str(s: string) | Num(n: int) | Bool(b: bool) | Null

  /** A row, by its own enumerable properties; a missing key reads as `undefined`. */
  type Item = map<string, Value>

  /** JavaScript truthiness of a property value. */
  predicate IsTruthy(v: Value) {
    match v
    case Str(s) => s != ""
    case Num(n) => n != 0
    case Bool(b) => b
    case Null => false
  }

  /** `value.toString()`. */
  function ToText(v: Value): string {
    match v
    case Str(s) => s
    case Num(n) => IntToString(n)
    case Bool(b) => if b then "true" else "false"
    case Null => "null"
  }

  datatype FilterKind = TextKind | SelectKind | MultiSelectKind

  /** What a custom filter is set to: the text of an input or a select, or the
      options chosen in a multiselect. */
  datatype FilterValue = Text(text: string) | Options(values: seq<string>)

  /** `FilterConfig<T>`, without its label and options. */
  datatype FilterConfig = FilterConfig(
    key: string,
    kind: FilterKind,
    filterFn: Option<(Item, FilterValue) -> bool>,
    getFilterValue: Option<Item -> string>)

  datatype ColumnFilterType = TextColumn | SelectColumn

  /** `SortableColumn<T>`, without its label and class name. */
  datatype Column = Column(
    key: string,
    sortable: bool,
    sortFn: Option<(Item, Item) -> int>,
    filterable: bool,
    filterType: Option<ColumnFilterType>,
    getFilterValue: Option<Item -> string>)

  /** `columns.find(col => col.key === key)`, as the index of the first such column. */
  function FindColumn(columns: seq<Column>, key: string): (r: Option<nat>)
    ensures r.None? <==> forall i :: 0 <= i < |columns| ==> columns[i].key != key
    ensures r.Some? ==> (r.value < |columns| && columns[r.value].key == key
      && forall j :: 0 <= j < r.value ==> columns[j].key != key)
  {
    if columns == [] then None
    else if columns[0].key == key then Some(0)
    else match FindColumn(columns[1..], key)
      case None => None
      case Some(i) => Some(i + 1)
  }

  // ---------------------------------------------------------------------
  // The sort header

  /** `(sortKey, sortDirection)`. */
  datatype SortState = SortState(key: Option<string>, direction: Direction)

  /** The state after `handleSort(columnKey)`. */
  function NextSort(columns: seq<Column>, s: SortState, columnKey: string): SortState {
    match FindColumn(columns, columnKey)
    case None => s
    case Some(i) =>
      if !columns[i].sortable then s
      else if s.key == Some(columnKey) then
        var direction := match s.direction case Asc => Desc case Desc => NoDirection case NoDirection => Asc;
        SortState(if s.direction == Desc then None else s.key, direction)
      else SortState(Some(columnKey), Asc)
  }

  /** Column `key` exists and its first column is sortable. */
  predicate SortableKey(columns: seq<Column>, key: string) {
    FindColumn(columns, key).Some? && columns[FindColumn(columns, key).value].sortable
  }

  /** A click on an unknown or non-sortable column changes nothing; on another
      column it sorts by that column ascending; on the current column it goes
      from ascending to descending, from descending to no sort at all (the key
      is cleared too), and from no direction to ascending. */
  lemma NextSortSpec(columns: seq<Column>, s: SortState, k: string)
    ensures !SortableKey(columns, k) ==> NextSort(columns, s, k) == s
    ensures SortableKey(columns, k) && s.key != Some(k) ==> NextSort(columns, s, k) == SortState(Some(k), Asc)
    ensures SortableKey(columns, k) && s.key == Some(k) ==>
      NextSort(columns, s, k) == match s.direction
        case Asc => SortState(Some(k), Desc)
        case Desc => SortState(None, NoDirection)
        case NoDirection => SortState(Some(k), Asc)
  {
  }

  /** Clicking a sortable column again and again goes round ascending,
      descending and unsorted: from any state, the fourth click gives the
      state of the first, and the three states in between are different. */
  lemma NextSortCycle(columns: seq<Column>, s: SortState, k: string)
    requires SortableKey(columns, k)
    ensures var s1 := NextSort(columns, s, k);
      var s2 := NextSort(columns, s1, k);
      var s3 := NextSort(columns, s2, k);
      && NextSort(columns, s3, k) == s1
      && s1 != s2 && s2 != s3 && s1 != s3
      && {s1, s2, s3} == {SortState(Some(k), Asc), SortState(Some(k), Desc), SortState(None, NoDirection)}
  {
    NextSortSpec(columns, s, k);
    var s1 := NextSort(columns, s, k);
    NextSortSpec(columns, s1, k);
    var s2 := NextSort(columns, s1, k);
    NextSortSpec(columns, s2, k);
    var s3 := NextSort(columns, s2, k);
    NextSortSpec(columns, s3, k);
  }

  // ---------------------------------------------------------------------
  // The filter stages

  /** Everything `filteredAndSortedData` depends on besides the data. */
  datatype View = View(
    columns: seq<Column>,
    filters: seq<FilterConfig>,
    showSearch: bool,
    searchKeys: seq<string>,
    searchQuery: string,
    filterValues: map<string, FilterValue>,
    columnFilters: map<string, string>,
    sortKey: Option<string>,
    sortDirection: Direction)

  /** `showSearch && searchQuery.trim()`. */
  predicate SearchActive(v: View) {
    v.showSearch && Trim(v.searchQuery) != ""
  }

  /** Property `key` of `item` is truthy and its text, lower-cased, contains `query`. */
  predicate KeyHit(item: Item, key: string, query: string) {
    key in item && IsTruthy(item[key]) && Includes(Lower(ToText(item[key])), query)
  }

  /** The search callback, `query` being the lower-cased (untrimmed) query:
      some search key matches, or, without search keys, some non-empty string
      property contains the query. */
  predicate SearchHit(item: Item, keys: seq<string>, query: string) {
    if |keys| > 0 then exists i :: 0 <= i < |keys| && KeyHit(item, keys[i], query)
    else exists k :: k in item && item[k].Str? && item[k].s != "" && Includes(Lower(item[k].s), query)
  }

  /** Whether the custom filter `f` keeps `item`. A filter without a value,
      or set to `''`, keeps everything; so does an empty multiselect and a
      filter with neither `filterFn` nor `getFilterValue`. */
  predicate FilterKeeps(f: FilterConfig, values: map<string, FilterValue>, item: Item) {
    if f.key !in values || values[f.key] == Text("") then true
    else
      var value := values[f.key];
      if f.filterFn.Some? then f.filterFn.value(item, value)
      else if f.getFilterValue.None? then true
      else if f.kind == MultiSelectKind && value.Options? then
        |value.values| == 0 || f.getFilterValue.value(item) in value.values
      else value == Text(f.getFilterValue.value(item))
  }

  /** Whether the filter of column `c` keeps `item`: a text filter is a
      case-insensitive substring test on the column's non-empty value, any
      other an exact comparison. */
  predicate ColumnKeeps(c: Column, values: map<string, string>, item: Item) {
    if !c.filterable || c.key !in values || values[c.key] == "" || c.getFilterValue.None? then true
    else if c.filterType == Some(TextColumn) then
      var value := c.getFilterValue.value(item);
      value != "" && Includes(Lower(value), Lower(values[c.key]))
    else c.getFilterValue.value(item) == values[c.key]
  }

  /** `item` passes the first `n` custom filters. */
  predicate FiltersKeep(v: View, item: Item, n: nat)
    requires n <= |v.filters|
  {
    n == 0 || (FiltersKeep(v, item, n - 1) && FilterKeeps(v.filters[n - 1], v.filterValues, item))
  }

  /** `item` passes the filters of the first `n` columns. */
  predicate ColumnsKeep(v: View, item: Item, n: nat)
    requires n <= |v.columns|
  {
    n == 0 || (ColumnsKeep(v, item, n - 1) && ColumnKeeps(v.columns[n - 1], v.columnFilters, item))
  }

  /** `item` passes the search, the first `nf` custom filters and the filters
      of the first `nc` columns. */
  predicate Passes(v: View, item: Item, nf: nat, nc: nat)
    requires nf <= |v.filters| && nc <= |v.columns|
  {
    && (SearchActive(v) ==> SearchHit(item, v.searchKeys, Lower(v.searchQuery)))
    && FiltersKeep(v, item, nf)
    && ColumnsKeep(v, item, nc)
  }

  /** The items of `xs` that pass, in their order in `xs`. */
  function Passing(xs: seq<Item>, v: View, nf: nat, nc: nat): (r: seq<Item>)
    requires nf <= |v.filters| && nc <= |v.columns|
    ensures |r| <= |xs|
  {
    if xs == [] then [] else (if Passes(v, xs[0], nf, nc) then [xs[0]] else []) + Passing(xs[1..], v, nf, nc)
  }

  /** `xs.filter(keep)`. */
  function Select(xs: seq<Item>, keep: Item -> bool): (r: seq<Item>)
    ensures |r| <= |xs|
  {
    if xs == [] then [] else (if keep(xs[0]) then [xs[0]] else []) + Select(xs[1..], keep)
  }

  /** Before any filter stage, the passing items are the search's hits, or
      everything when the search is off. */
  lemma {:induction false} SearchStage(xs: seq<Item>, v: View)
    ensures Passing(xs, v, 0, 0)
         == if SearchActive(v) then Select(xs, x => SearchHit(x, v.searchKeys, Lower(v.searchQuery))) else xs
  {
    if xs != [] {
      SearchStage(xs[1..], v);
      assert xs == [xs[0]] + xs[1..];
    }
  }

  /** A filter callback that agrees with custom filter `nf` takes the passing
      items one stage further. */
  lemma {:induction false} FilterStep(xs: seq<Item>, v: View, nf: nat, keep: Item -> bool)
    requires nf < |v.filters|
    requires forall x :: keep(x) == FilterKeeps(v.filters[nf], v.filterValues, x)
    ensures Select(Passing(xs, v, nf, 0), keep) == Passing(xs, v, nf + 1, 0)
  {
    if xs != [] {
      FilterStep(xs[1..], v, nf, keep);
      var head := if Passes(v, xs[0], nf, 0) then [xs[0]] else [];
      SelectAppend(head, Passing(xs[1..], v, nf, 0), keep);
    }
  }

  /** A filter callback that agrees with the filter of column `nc` takes the
      passing items one stage further. */
  lemma {:induction false} ColumnStep(xs: seq<Item>, v: View, nc: nat, keep: Item -> bool)
    requires nc < |v.columns|
    requires forall x :: keep(x) == ColumnKeeps(v.columns[nc], v.columnFilters, x)
    ensures Select(Passing(xs, v, |v.filters|, nc), keep) == Passing(xs, v, |v.filters|, nc + 1)
  {
    if xs != [] {
      ColumnStep(xs[1..], v, nc, keep);
      var head := if Passes(v, xs[0], |v.filters|, nc) then [xs[0]] else [];
      SelectAppend(head, Passing(xs[1..], v, |v.filters|, nc), keep);
    }
  }

  /** A custom filter with no value, the value `''`, or an empty multiselect
      (without `filterFn`) drops nothing. */
  lemma {:induction false} FilterNoOp(xs: seq<Item>, v: View, nf: nat)
    requires nf < |v.filters|
    requires var f := v.filters[nf];
      || f.key !in v.filterValues
      || v.filterValues[f.key] == Text("")
      || (f.filterFn.None? && f.kind == MultiSelectKind && v.filterValues[f.key] == Options([]))
    ensures Passing(xs, v, nf + 1, 0) == Passing(xs, v, nf, 0)
  {
    if xs != [] {
      FilterNoOp(xs[1..], v, nf);
    }
  }

  /** A column filter with no value or the value `''`, or on a column that is
      not filterable, drops nothing. */
  lemma {:induction false} ColumnNoOp(xs: seq<Item>, v: View, nc: nat)
    requires nc < |v.columns|
    requires var c := v.columns[nc];
      !c.filterable || c.key !in v.columnFilters || v.columnFilters[c.key] == ""
    ensures Passing(xs, v, |v.filters|, nc + 1) == Passing(xs, v, |v.filters|, nc)
  {
    if xs != [] {
      ColumnNoOp(xs[1..], v, nc);
    }
  }

  /** Two callbacks that agree on every item select the same items. */
  lemma {:induction false} SelectSame(xs: seq<Item>, keep: Item -> bool, keep': Item -> bool)
    requires forall x :: keep(x) == keep'(x)
    ensures Select(xs, keep) == Select(xs, keep')
  {
    if xs != [] {
      SelectSame(xs[1..], keep, keep');
    }
  }

  /** A callback that keeps every item selects them all. */
  lemma {:induction false} SelectAll(xs: seq<Item>, keep: Item -> bool)
    requires forall x :: keep(x)
    ensures Select(xs, keep) == xs
  {
    if xs != [] {
      SelectAll(xs[1..], keep);
      assert xs == [xs[0]] + xs[1..];
    }
  }

  lemma {:induction false} SelectAppend(a: seq<Item>, b: seq<Item>, keep: Item -> bool)
    ensures Select(a + b, keep) == Select(a, keep) + Select(b, keep)
  {
    if a == [] {
      assert a + b == b;
    } else {
      var c := a + b;
      assert c[0] == a[0];
      assert c[1..] == a[1..] + b;
      SelectAppend(a[1..], b, keep);
      var h := if keep(a[0]) then [a[0]] else [];
      assert Select(c, keep) == h + Select(c[1..], keep);
      assert Select(a, keep) == h + Select(a[1..], keep);
    }
  }

  /** The passing items occur in `xs`, no more often than there. */
  lemma {:induction false} PassingElements(xs: seq<Item>, v: View, nf: nat, nc: nat)
    requires nf <= |v.filters| && nc <= |v.columns|
    ensures multiset(Passing(xs, v, nf, nc)) <= multiset(xs)
  {
    if xs != [] {
      PassingElements(xs[1..], v, nf, nc);
      KeptElements(xs[0], Passes(v, xs[0], nf, nc), Passing(xs[1..], v, nf, nc), xs[1..]);
      assert xs == [xs[0]] + xs[1..];
    }
  }

  lemma {:induction false} KeptElements(x: Item, keep: bool, kept: seq<Item>, rest: seq<Item>)
    requires multiset(kept) <= multiset(rest)
    ensures multiset((if keep then [x] else []) + kept) <= multiset([x] + rest)
  {
  }

  /** An item is among the passing items exactly when it is in `xs` and passes. */
  lemma {:induction false} PassingMembers(xs: seq<Item>, v: View, nf: nat, nc: nat)
    requires nf <= |v.filters| && nc <= |v.columns|
    ensures forall x :: x in Passing(xs, v, nf, nc) <==> x in xs && Passes(v, x, nf, nc)
  {
    if xs != [] {
      PassingMembers(xs[1..], v, nf, nc);
      assert xs == [xs[0]] + xs[1..];
    }
  }

  // ---------------------------------------------------------------------
  // Sorting

  /** `Array.prototype.sort` with comparator `cmp`, as a stable insertion
      sort: an element goes before the first later one it does not compare
      greater than. */
  function Insert(x: Item, s: seq<Item>, cmp: (Item, Item) -> int): (r: seq<Item>)
    ensures |r| == |s| + 1
  {
    if s == [] || cmp(x, s[0]) <= 0 then [x] + s else [s[0]] + Insert(x, s[1..], cmp)
  }

  function SortBy(xs: seq<Item>, cmp: (Item, Item) -> int): (r: seq<Item>)
    ensures |r| == |xs|
  {
    if xs == [] then [] else Insert(xs[0], SortBy(xs[1..], cmp), cmp)
  }

  /** `Array.prototype.reverse`. */
  function Reverse(s: seq<Item>): (r: seq<Item>)
    ensures |r| == |s|
  {
    seq(|s|, i requires 0 <= i < |s| => s[|s| - 1 - i])
  }

  /** A consistent comparator in the sense of `Array.prototype.sort`: of two
      elements at least one does not compare greater than the other, and
      "not greater" is transitive. */
  ghost predicate Consistent(cmp: (Item, Item) -> int) {
    && (forall a, b :: cmp(a, b) > 0 ==> cmp(b, a) <= 0)
    && (forall a, b, c :: cmp(a, b) <= 0 && cmp(b, c) <= 0 ==> cmp(a, c) <= 0)
  }

  ghost predicate Ascending(s: seq<Item>, cmp: (Item, Item) -> int) {
    forall i, j :: 0 <= i < j < |s| ==> cmp(s[i], s[j]) <= 0
  }

  lemma {:induction false} InsertElements(x: Item, s: seq<Item>, cmp: (Item, Item) -> int)
    ensures multiset(Insert(x, s, cmp)) == multiset(s) + multiset{x}
  {
    if s != [] && cmp(x, s[0]) > 0 {
      InsertElements(x, s[1..], cmp);
      assert s == [s[0]] + s[1..];
    }
  }

  /** An element that does not compare greater than the head of an
      ascending sequence goes in front of it and keeps it ascending. */
  lemma InsertFront(x: Item, s: seq<Item>, cmp: (Item, Item) -> int)
    requires Consistent(cmp) && Ascending(s, cmp)
    requires s == [] || cmp(x, s[0]) <= 0
    ensures Ascending([x] + s, cmp)
  {
    var r := [x] + s;
    forall i, j | 0 <= i < j < |r| ensures cmp(r[i], r[j]) <= 0 {
      if i == 0 && j > 1 {
        assert cmp(x, s[0]) <= 0 && cmp(s[0], s[j - 1]) <= 0;
      }
    }
  }

  /** The head of an ascending sequence does not compare greater than any
      element of an ascending `rest` drawn from its tail and from `x`, when `x`
      compares greater than it; so the head can go in front of `rest`. */
  lemma HeadFront(h: Item, x: Item, t: seq<Item>, rest: seq<Item>, cmp: (Item, Item) -> int)
    requires Consistent(cmp) && Ascending([h] + t, cmp) && Ascending(rest, cmp)
    requires cmp(x, h) > 0
    requires multiset(rest) == multiset(t) + multiset{x}
    ensures Ascending([h] + rest, cmp)
  {
    forall j | 0 <= j < |rest| ensures cmp(h, rest[j]) <= 0 {
      assert rest[j] in multiset(rest);
      if rest[j] != x {
        var k :| 0 <= k < |t| && t[k] == rest[j];
        assert ([h] + t)[0] == h && ([h] + t)[k + 1] == t[k];
      } else {
        assert cmp(h, x) <= 0;
      }
    }
    var r := [h] + rest;
    forall i, j | 0 <= i < j < |r| ensures cmp(r[i], r[j]) <= 0 {
      if i > 0 {
        assert r[i] == rest[i - 1];
      }
      assert r[j] == rest[j - 1];
    }
  }

  lemma {:induction false} InsertAscending(x: Item, s: seq<Item>, cmp: (Item, Item) -> int)
    requires Consistent(cmp) && Ascending(s, cmp)
    ensures Ascending(Insert(x, s, cmp), cmp)
  {
    if s == [] || cmp(x, s[0]) <= 0 {
      InsertFront(x, s, cmp);
    } else {
      var t := s[1..];
      assert s == [s[0]] + t;
      InsertAscending(x, t, cmp);
      InsertElements(x, t, cmp);
      HeadFront(s[0], x, t, Insert(x, t, cmp), cmp);
    }
  }

  /** Sorting keeps every element as often as it was there. */
  lemma {:induction false} SortByElements(xs: seq<Item>, cmp: (Item, Item) -> int)
    ensures multiset(SortBy(xs, cmp)) == multiset(xs)
  {
    if xs != [] {
      SortByElements(xs[1..], cmp);
      InsertElements(xs[0], SortBy(xs[1..], cmp), cmp);
      assert xs == [xs[0]] + xs[1..];
    }
  }

  /** With a consistent comparator, sorting puts the elements in ascending order. */
  lemma {:induction false} SortByAscending(xs: seq<Item>, cmp: (Item, Item) -> int)
    requires Consistent(cmp)
    ensures Ascending(SortBy(xs, cmp), cmp)
  {
    if xs != [] {
      SortByAscending(xs[1..], cmp);
      InsertAscending(xs[0], SortBy(xs[1..], cmp), cmp);
    }
  }

  /** Neither of `a` and `b` compares greater than the other. */
  predicate Tied(a: Item, b: Item, cmp: (Item, Item) -> int) {
    cmp(a, b) <= 0 && cmp(b, a) <= 0
  }

  /** The elements of `s` tied with `e`, in their order in `s`. */
  function TiesWith(s: seq<Item>, e: Item, cmp: (Item, Item) -> int): seq<Item> {
    if s == [] then [] else (if Tied(s[0], e, cmp) then [s[0]] else []) + TiesWith(s[1..], e, cmp)
  }

  lemma {:induction false} TiesCons(h: Item, t: seq<Item>, e: Item, cmp: (Item, Item) -> int)
    ensures TiesWith([h] + t, e, cmp) == (if Tied(h, e, cmp) then [h] else []) + TiesWith(t, e, cmp)
  {
    assert ([h] + t)[0] == h && ([h] + t)[1..] == t;
  }

  /** Two elements tied with the same element do not compare greater than each other. */
  lemma {:induction false} TiedOrdered(a: Item, b: Item, e: Item, cmp: (Item, Item) -> int)
    requires Consistent(cmp) && Tied(a, e, cmp) && Tied(b, e, cmp)
    ensures cmp(a, b) <= 0
  {
    assert cmp(a, e) <= 0 && cmp(e, b) <= 0;
  }

  /** Inserting behind a head that `x` compares greater than, when not both are tied with `e`. */
  lemma {:induction false} InsertTiesBehind(x: Item, s: seq<Item>, e: Item, cmp: (Item, Item) -> int)
    requires s != [] && cmp(x, s[0]) > 0
    requires !(Tied(x, e, cmp) && Tied(s[0], e, cmp))
    requires TiesWith(Insert(x, s[1..], cmp), e, cmp) == (if Tied(x, e, cmp) then [x] else []) + TiesWith(s[1..], e, cmp)
    ensures TiesWith(Insert(x, s, cmp), e, cmp) == (if Tied(x, e, cmp) then [x] else []) + TiesWith(s, e, cmp)
  {
    var own := if Tied(x, e, cmp) then [x] else [];
    var head := if Tied(s[0], e, cmp) then [s[0]] else [];
    var rest := TiesWith(s[1..], e, cmp);
    TiesCons(s[0], Insert(x, s[1..], cmp), e, cmp);
    TiesCons(s[0], s[1..], e, cmp);
    assert s == [s[0]] + s[1..];
    assert head + (own + rest) == own + (head + rest);
  }

  /** An element goes in front of every element it is tied with. */
  lemma {:induction false} InsertTies(x: Item, s: seq<Item>, e: Item, cmp: (Item, Item) -> int)
    requires Consistent(cmp)
    ensures TiesWith(Insert(x, s, cmp), e, cmp) == (if Tied(x, e, cmp) then [x] else []) + TiesWith(s, e, cmp)
  {
    if s == [] || cmp(x, s[0]) <= 0 {
      TiesCons(x, s, e, cmp);
    } else {
      InsertTies(x, s[1..], e, cmp);
      if Tied(x, e, cmp) && Tied(s[0], e, cmp) {
        TiedOrdered(x, s[0], e, cmp);
        assert false;
      }
      InsertTiesBehind(x, s, e, cmp);
    }
  }

  /** The sort is stable: elements tied with one another keep the order they
      had in the input, as `Array.prototype.sort` requires. */
  lemma {:induction false} SortByStable(xs: seq<Item>, e: Item, cmp: (Item, Item) -> int)
    requires Consistent(cmp)
    ensures TiesWith(SortBy(xs, cmp), e, cmp) == TiesWith(xs, e, cmp)
  {
    if xs != [] {
      SortByStable(xs[1..], e, cmp);
      InsertTies(xs[0], SortBy(xs[1..], cmp), e, cmp);
    }
  }

  lemma {:induction false} ReverseElements(s: seq<Item>)
    ensures multiset(Reverse(s)) == multiset(s)
  {
    if s != [] {
      ReverseElements(s[1..]);
      assert Reverse(s) == Reverse(s[1..]) + [s[0]];
      assert s == [s[0]] + s[1..];
    }
  }

  /** `columns.find(col => col.key === sortKey)?.sortFn`, when `sortKey && sortDirection`. */
  function ActiveSort(v: View): Option<(Item, Item) -> int> {
    if Truthy(v.sortKey) && v.sortDirection != NoDirection then
      match FindColumn(v.columns, v.sortKey.value)
      case Some(i) => v.columns[i].sortFn
      case None => None
    else None
  }

  /** The sort stage: sorted by the active column's comparator, then
      reversed for `desc`; unchanged without an active sort. */
  function Arrange(xs: seq<Item>, v: View): (r: seq<Item>)
    ensures |r| == |xs|
  {
    match ActiveSort(v)
    case None => xs
    case Some(cmp) => if v.sortDirection == Desc then Reverse(SortBy(xs, cmp)) else SortBy(xs, cmp)
  }

  /** Every element compares not greater than the ones before it. */
  ghost predicate Descending(s: seq<Item>, cmp: (Item, Item) -> int) {
    forall i, j :: 0 <= i < j < |s| ==> cmp(s[j], s[i]) <= 0
  }

  lemma ReverseDescending(s: seq<Item>, cmp: (Item, Item) -> int)
    requires Ascending(s, cmp)
    ensures Descending(Reverse(s), cmp)
  {
    var r := Reverse(s);
    forall i, j | 0 <= i < j < |r| ensures cmp(r[j], r[i]) <= 0 {
      assert r[j] == s[|s| - 1 - j] && r[i] == s[|s| - 1 - i];
    }
  }

  /** The sort stage keeps the filtered items, each as often: in their order
      without an active sort, sorted for `asc`, and for `desc` the sorted
      order reversed. */
  lemma ArrangeSpec(xs: seq<Item>, v: View)
    ensures multiset(Arrange(xs, v)) == multiset(xs)
    ensures ActiveSort(v).None? ==> Arrange(xs, v) == xs
    ensures ActiveSort(v).Some? && v.sortDirection == Asc ==> Arrange(xs, v) == SortBy(xs, ActiveSort(v).value)
    ensures ActiveSort(v).Some? && v.sortDirection == Desc ==> Arrange(xs, v) == Reverse(SortBy(xs, ActiveSort(v).value))
  {
    match ActiveSort(v)
    case None =>
    case Some(cmp) =>
      SortByElements(xs, cmp);
      if v.sortDirection == Desc {
        ReverseElements(SortBy(xs, cmp));
      }
  }

  /** With a consistent comparator on the sort column, the output of the sort
      stage is ascending for `asc` and descending for `desc`. */
  lemma ArrangeOrder(xs: seq<Item>, v: View)
    requires ActiveSort(v).Some? && Consistent(ActiveSort(v).value)
    ensures v.sortDirection == Asc ==> Ascending(Arrange(xs, v), ActiveSort(v).value)
    ensures v.sortDirection == Desc ==> Descending(Arrange(xs, v), ActiveSort(v).value)
  {
    var cmp := ActiveSort(v).value;
    SortByAscending(xs, cmp);
    if v.sortDirection == Desc {
      ReverseDescending(SortBy(xs, cmp), cmp);
    }
  }

  /** The table's output holds only items of the data, no more often than
      there, at most as many; an item of the data is in it exactly when it
      passes every stage. */
  lemma FilteredAndSortedSpec(data: seq<Item>, v: View)
    ensures var out := Arrange(Passing(data, v, |v.filters|, |v.columns|), v);
      && multiset(out) <= multiset(data)
      && |out| <= |data|
      && forall x :: x in out <==> x in data && Passes(v, x, |v.filters|, |v.columns|)
  {
    var p := Passing(data, v, |v.filters|, |v.columns|);
    PassingElements(data, v, |v.filters|, |v.columns|);
    PassingMembers(data, v, |v.filters|, |v.columns|);
    ArrangeSpec(p, v);
    assert forall x :: x in Arrange(p, v) <==> x in multiset(Arrange(p, v));
  }

  // ---------------------------------------------------------------------
  // The component

  /** One pass of the custom-filter loop: `filter` applied to `filtered`. */
  method ApplyFilter(filtered: seq<Item>, filter: FilterConfig, filterValues: map<string, FilterValue>)
    returns (r: seq<Item>)
    ensures r == Select(filtered, x => FilterKeeps(filter, filterValues, x))
  {
    var spec := x => FilterKeeps(filter, filterValues, x);
    if filter.key in filterValues && filterValues[filter.key] != Text("") {
      var value := filterValues[filter.key];
      if filter.filterFn.Some? {
        var filterFn := filter.filterFn.value;
        var keep := (x: Item) => filterFn(x, value);
        SelectSame(filtered, keep, spec);
        r := Select(filtered, keep);
      } else if filter.getFilterValue.Some? {
        var get := filter.getFilterValue.value;
        if filter.kind == MultiSelectKind && value.Options? {
          if |value.values| > 0 {
            var keep := (x: Item) => get(x) in value.values;
            SelectSame(filtered, keep, spec);
            r := Select(filtered, keep);
          } else {
            SelectAll(filtered, spec);
            r := filtered;
          }
        } else {
          var keep := (x: Item) => value == Text(get(x));
          SelectSame(filtered, keep, spec);
          r := Select(filtered, keep);
        }
      } else {
        SelectAll(filtered, spec);
        r := filtered;
      }
    } else {
      SelectAll(filtered, spec);
      r := filtered;
    }
  }

  /** One pass of the column-filter loop: the filter of `column` applied to `filtered`. */
  method ApplyColumnFilter(filtered: seq<Item>, column: Column, columnFilters: map<string, string>)
    returns (r: seq<Item>)
    ensures r == Select(filtered, x => ColumnKeeps(column, columnFilters, x))
  {
    var spec := x => ColumnKeeps(column, columnFilters, x);
    if column.filterable && column.key in columnFilters && columnFilters[column.key] != ""
       && column.getFilterValue.Some? {
      var value := columnFilters[column.key];
      var get := column.getFilterValue.value;
      if column.filterType == Some(TextColumn) {
        var query := Lower(value);
        var keep := (x: Item) => get(x) != "" && Includes(Lower(get(x)), query);
        SelectSame(filtered, keep, spec);
        r := Select(filtered, keep);
      } else {
        var keep := (x: Item) => get(x) == value;
        SelectSame(filtered, keep, spec);
        r := Select(filtered, keep);
      }
    } else {
      SelectAll(filtered, spec);
      r := filtered;
    }
  }

  /** The sort stage of `filteredAndSortedData`: a copy sorted by the sort
      column's `sortFn`, reversed for `desc`. */
  method ApplySort(filtered: seq<Item>, v: View) returns (r: seq<Item>)
    ensures r == Arrange(filtered, v)
  {
    r := filtered;
    if Truthy(v.sortKey) && v.sortDirection != NoDirection {
      var index := FindColumn(v.columns, v.sortKey.value);
      if index.Some? && v.columns[index.value].sortFn.Some? {
        r := SortBy(r, v.columns[index.value].sortFn.value);
        if v.sortDirection == Desc {
          r := Reverse(r);
        }
      }
    }
  }

  class Table {
    const columns: seq<Column>
    const filters: seq<FilterConfig>
    const showSearch: bool
    const searchKeys: seq<string>
    var sortKey: Option<string>
    var sortDirection: Direction
    var searchQuery: string
    var filterValues: map<string, FilterValue>
    var columnFilters: map<string, string>

    /** The props and the initial state: `initialSort?.key || null` and
        `initialSort?.direction || null`. */
    constructor(columns: seq<Column>, filters: seq<FilterConfig>, showSearch: bool, searchKeys: seq<string>,
                initialSort: Option<SortState>)
      ensures this.columns == columns && this.filters == filters
      ensures this.showSearch == showSearch && this.searchKeys == searchKeys
      ensures sortKey == if initialSort.Some? && Truthy(initialSort.value.key) then initialSort.value.key else None
      ensures sortDirection == if initialSort.Some? then initialSort.value.direction else NoDirection
      ensures searchQuery == "" && filterValues == map[] && columnFilters == map[]
    {
      this.columns := columns;
      this.filters := filters;
      this.showSearch := showSearch;
      this.searchKeys := searchKeys;
      sortKey := if initialSort.Some? && Truthy(initialSort.value.key) then initialSort.value.key else None;
      sortDirection := if initialSort.Some? then initialSort.value.direction else NoDirection;
      searchQuery := "";
      filterValues := map[];
      columnFilters := map[];
    }

    function Current(): View
      reads this
    {
      View(columns, filters, showSearch, searchKeys, searchQuery, filterValues, columnFilters, sortKey, sortDirection)
    }

    /** `handleSort(columnKey)`. */
    method HandleSort(columnKey: string)
      modifies this
      ensures SortState(sortKey, sortDirection) == NextSort(columns, SortState(old(sortKey), old(sortDirection)), columnKey)
      ensures searchQuery == old(searchQuery) && filterValues == old(filterValues) && columnFilters == old(columnFilters)
    {
      var column := FindColumn(columns, columnKey);
      if column.None? || !columns[column.value].sortable {
        return;
      }
      if sortKey == Some(columnKey) {
        var previous := sortDirection;
        sortDirection := match previous case Asc => Desc case Desc => NoDirection case NoDirection => Asc;
        if previous == Desc {
          sortKey := None;
        }
      } else {
        sortKey := Some(columnKey);
        sortDirection := Asc;
      }
    }

    /** The search input's `onChange`. */
    method SetSearchQuery(query: string)
      modifies this
      ensures searchQuery == query
      ensures sortKey == old(sortKey) && sortDirection == old(sortDirection)
      ensures filterValues == old(filterValues) && columnFilters == old(columnFilters)
    {
      searchQuery := query;
    }

    /** `handleFilterChange(filterKey, value)`. */
    method HandleFilterChange(filterKey: string, value: FilterValue)
      modifies this
      ensures filterValues == old(filterValues)[filterKey := value]
      ensures sortKey == old(sortKey) && sortDirection == old(sortDirection)
      ensures searchQuery == old(searchQuery) && columnFilters == old(columnFilters)
    {
      filterValues := filterValues[filterKey := value];
    }

    /** `handleColumnFilterChange(columnKey, value)`; the clear button sets `''`. */
    method HandleColumnFilterChange(columnKey: string, value: string)
      modifies this
      ensures columnFilters == old(columnFilters)[columnKey := value]
      ensures sortKey == old(sortKey) && sortDirection == old(sortDirection)
      ensures searchQuery == old(searchQuery) && filterValues == old(filterValues)
    {
      columnFilters := columnFilters[columnKey := value];
    }

    /** `filteredAndSortedData`: the data items that pass the search and
        every custom and column filter, in data order, then sorted. The data
        array is not modified: the stages work on a copy. */
    method FilteredAndSortedData(data: array<Item>) returns (out: seq<Item>)
      ensures out == Arrange(Passing(data[..], Current(), |filters|, |columns|), Current())
    {
      var v := Current();
      ghost var d := data[..];
      var filtered := data[..];
      if showSearch && Trim(searchQuery) != "" {
        var query := Lower(searchQuery);
        filtered := Select(filtered, (x: Item) => SearchHit(x, searchKeys, query));
      }
      SearchStage(d, v);
      var i := 0;
      while i < |filters|
        invariant i <= |filters|
        invariant filtered == Passing(d, v, i, 0)
      {
        var filter := filters[i];
        FilterStep(d, v, i, x => FilterKeeps(filter, v.filterValues, x));
        filtered := ApplyFilter(filtered, filter, filterValues);
        i := i + 1;
      }
      var j := 0;
      while j < |columns|
        invariant j <= |columns|
        invariant filtered == Passing(d, v, |filters|, j)
      {
        var column := columns[j];
        ColumnStep(d, v, j, x => ColumnKeeps(column, v.columnFilters, x));
        filtered := ApplyColumnFilter(filtered, column, columnFilters);
        j := j + 1;
      }
      filtered := ApplySort(filtered, v);
      out := filtered;
    }
  }
}

/**
 * The table rows that convertPropertiesToTableRows appends for two property
 * lists: one row per merged entry, in sorted order, each followed at once by
 * the rows of its nested properties (a pre-order listing). A row's `parent`
 * is the absolute index of the row that introduced its level, so the rows a
 * call appends depend on where in the accumulator they land (`base`).
 */
module PropertyRows {
  import opened Options
  import opened PlanProperties
  import opened PropertySort
  import opened Sequences

  /** PropertiesSortType, with a case for a value the switch does not handle. */
  datatype SortType = DisplayOrder | Alphabetical | ReverseAlphabetical | Unsorted

  /** The switch on `this.sortType`; without a matching case the map is left as it is. */
  function ApplySort(sortType: SortType, m: PropertiesMap): PropertiesMap
  {
    match sortType
    case DisplayOrder => SortPropertiesByImportance(m)
    case Alphabetical => SortPropertiesAlphabetically(m)
    case ReverseAlphabetical => SortPropertiesReverseAlphabetically(m)
    case Unsorted => m
  }

  /** Every sort only reorders the entries; an unhandled sort type leaves them as they are. */
  lemma ApplySortPermutation(sortType: SortType, m: PropertiesMap)
    ensures multiset(ApplySort(sortType, m)) == multiset(m)
    ensures sortType == Unsorted ==> ApplySort(sortType, m) == m
  {
    match sortType
    case DisplayOrder => StableSortPermutation(CompareByImportance, m);
    case Alphabetical => StableSortPermutation(CompareAlphabetically, m);
    case ReverseAlphabetical => StableSortPermutation(CompareReverse, m);
    case Unsorted =>
  }

  /** One row of the grid, keyed by the fields `name`, `parent`, `displayOrder`, `value1` and `value2`. */
  datatype Row = Row(
    name: string,
    parent: int,
    displayOrder: Option<int>,
    value1: Option<string>,
    value2: Option<string>)

  /** `'  '.repeat(indent)` */
  function Indentation(indent: nat): (s: string)
    ensures |s| == 2 * indent
    ensures forall i | 0 <= i < |s| :: s[i] == ' '
  {
    if indent == 0 then "" else "  " + Indentation(indent - 1)
  }

  lemma {:induction false} IndentationPrefix(m: nat, n: nat)
    requires m <= n
    ensures Indentation(m) <= Indentation(n)
  {
    assert Indentation(m) == Indentation(n)[..2 * m];
  }

  /**
   * The arguments of the recursive call that follows a row whose name is on
   * both sides, by the three-way test of the source. Its third test repeats
   * the first, so a nested top value beside a string bottom value gets no call.
   */
  function BothSidesChildren(t: Property, b: Property): (r: Option<(seq<Property>, seq<Property>)>)
    ensures r.Some? <==> !IsString(b)
    ensures r.Some? ==> r.value.1 == NestedProperties(b)
    ensures r.Some? ==> r.value.0 == NestedProperties(t)
  {
    if !IsString(t) && !IsString(b) then Some((NestedProperties(t), NestedProperties(b)))
    else if IsString(t) && !IsString(b) then Some(([], NestedProperties(b)))
    else if !IsString(t) && !IsString(b) then Some((NestedProperties(t), []))
    else None
  }

  /**
   * The arguments of the recursive call that follows the row of `e`, if any:
   * a one-sided entry recurses exactly when its value is nested, on that
   * side's children; a two-sided one exactly when its bottom value is nested.
   */
  function ChildCall(e: MapEntry): (r: Option<(seq<Property>, seq<Property>)>)
    ensures r.Some? ==> SizeOf(r.value.0) + SizeOf(r.value.1) < EntrySize(e)
    ensures !HasSide(e) ==> r.None?
    ensures e.topProp.Some? && e.bottomProp.None? ==>
      (r.Some? <==> !IsString(e.topProp.value)) && (r.Some? ==> r.value == (NestedProperties(e.topProp.value), []))
    ensures e.topProp.None? && e.bottomProp.Some? ==>
      (r.Some? <==> !IsString(e.bottomProp.value)) && (r.Some? ==> r.value == ([], NestedProperties(e.bottomProp.value)))
    ensures e.topProp.Some? && e.bottomProp.Some? ==>
      && (r.Some? <==> !IsString(e.bottomProp.value))
      && (r.Some? ==> r.value == (NestedProperties(e.topProp.value), NestedProperties(e.bottomProp.value)))
  {
    match (e.topProp, e.bottomProp)
    case (Some(t), Some(b)) =>
      NestedSmaller(t);
      NestedSmaller(b);
      BothSidesChildren(t, b)
    case (Some(t), None) =>
      NestedSmaller(t);
      if IsString(t) then None else Some((NestedProperties(t), []))
    case (None, Some(b)) =>
      NestedSmaller(b);
      if IsString(b) then None else Some(([], NestedProperties(b)))
    case (None, None) => None
  }

  /** The row pushed for entry `e` of a level. */
  function HeadRow(e: MapEntry, parentIndex: int, indent: nat, removeLineBreaks: string -> string): (r: Row)
    requires HasSide(e)
    ensures r.parent == parentIndex
    ensures Indentation(indent) <= r.name
  {
    var name := Indentation(indent) + e.name;
    if e.topProp.Some? && e.bottomProp.Some? then
      Row(name, parentIndex, e.topProp.value.displayOrder,
        Some(removeLineBreaks(e.topProp.value.displayValue)),
        Some(removeLineBreaks(e.bottomProp.value.displayValue)))
    else if e.topProp.Some? then
      Row(name, parentIndex, e.topProp.value.displayOrder, Some(e.topProp.value.displayValue), None)
    else
      Row(name, parentIndex, e.bottomProp.value.displayOrder, None, Some(e.bottomProp.value.displayValue))
  }

  /** The merged entries of one level, in the order of `sortType`. */
  function SortedEntries(top: seq<Property>, bottom: seq<Property>, sortType: SortType): (es: PropertiesMap)
    ensures forall e | e in es :: HasSide(e) && EntrySize(e) <= SizeOf(top) + SizeOf(bottom)
  {
    var es := ApplySort(sortType, MergeProperties(top, bottom));
    MergeEntries(top, bottom);
    ApplySortPermutation(sortType, MergeProperties(top, bottom));
    assert forall e | e in es :: e in multiset(MergeProperties(top, bottom));
    es
  }

  /**
   * The rows appended by `convertPropertiesToTableRows(top, bottom, parentIndex, indent, rows)`
   * when `rows` holds `base` rows.
   */
  function Rows(top: seq<Property>, bottom: seq<Property>, parentIndex: int, indent: nat, base: nat,
                sortType: SortType, removeLineBreaks: string -> string): seq<Row>
    decreases SizeOf(top) + SizeOf(bottom), 2, 0
  {
    RowsOf(SortedEntries(top, bottom, sortType), parentIndex, indent, base, sortType, removeLineBreaks,
      SizeOf(top) + SizeOf(bottom))
  }

  /** The rows of a call are those of the forEach over its merged and sorted entries. */
  lemma RowsUnfold(top: seq<Property>, bottom: seq<Property>, parentIndex: int, indent: nat, base: nat,
                   sortType: SortType, removeLineBreaks: string -> string)
    ensures Rows(top, bottom, parentIndex, indent, base, sortType, removeLineBreaks)
      == RowsOf(SortedEntries(top, bottom, sortType), parentIndex, indent, base, sortType, removeLineBreaks,
                SizeOf(top) + SizeOf(bottom))
  {
  }

  /** The rows appended by the forEach over the sorted entries `es`. */
  function RowsOf(es: seq<MapEntry>, parentIndex: int, indent: nat, base: nat,
                  sortType: SortType, removeLineBreaks: string -> string, ghost bound: nat): seq<Row>
    requires forall e | e in es :: EntrySize(e) <= bound
    decreases bound, 1, |es|
  {
    if es == [] then []
    else
      var here := EntryRows(es[0], parentIndex, indent, base, sortType, removeLineBreaks, bound);
      here + RowsOf(es[1..], parentIndex, indent, base + |here|, sortType, removeLineBreaks, bound)
  }

  lemma RowsOfCons(es: seq<MapEntry>, parentIndex: int, indent: nat, base: nat,
                   sortType: SortType, removeLineBreaks: string -> string, bound: nat)
    requires es != []
    requires forall e | e in es :: EntrySize(e) <= bound
    ensures var here := EntryRows(es[0], parentIndex, indent, base, sortType, removeLineBreaks, bound);
      RowsOf(es, parentIndex, indent, base, sortType, removeLineBreaks, bound)
        == here + RowsOf(es[1..], parentIndex, indent, base + |here|, sortType, removeLineBreaks, bound)
  {
  }

  /** One step of the forEach: once the rows of `es[0]`, pushed at index `base`, follow `before`,
      the rest of `es` follows `after`, starting at the index `next` just past them. */
  lemma RowsOfStep(es: seq<MapEntry>, parentIndex: int, indent: nat, base: nat, next: nat, sortType: SortType,
                   removeLineBreaks: string -> string, bound: nat, all: seq<Row>, before: seq<Row>, after: seq<Row>)
    requires es != []
    requires forall e | e in es :: EntrySize(e) <= bound
    requires all == before + RowsOf(es, parentIndex, indent, base, sortType, removeLineBreaks, bound)
    requires after == before + EntryRows(es[0], parentIndex, indent, base, sortType, removeLineBreaks, bound)
    requires next == base + |EntryRows(es[0], parentIndex, indent, base, sortType, removeLineBreaks, bound)|
    ensures all == after + RowsOf(es[1..], parentIndex, indent, next, sortType, removeLineBreaks, bound)
  {
    var here := EntryRows(es[0], parentIndex, indent, base, sortType, removeLineBreaks, bound);
    var rest := RowsOf(es[1..], parentIndex, indent, next, sortType, removeLineBreaks, bound);
    RowsOfCons(es, parentIndex, indent, base, sortType, removeLineBreaks, bound);
    AppendStep(all, before, here, rest, after);
  }

  /** The end of the forEach: nothing of `es` is left to append. */
  lemma RowsOfEnd(es: seq<MapEntry>, k: nat, parentIndex: int, indent: nat, base: nat, sortType: SortType,
                  removeLineBreaks: string -> string, bound: nat, all: seq<Row>, rows: seq<Row>)
    requires k == |es|
    requires forall e | e in es :: EntrySize(e) <= bound
    requires all == rows + RowsOf(es[k..], parentIndex, indent, base, sortType, removeLineBreaks, bound)
    ensures all == rows
  {
    assert es[k..] == [];
    assert rows + [] == rows;
  }

  /** The row of `e`, pushed at index `base`, then the rows of its nested properties. */
  function EntryRows(e: MapEntry, parentIndex: int, indent: nat, base: nat,
                     sortType: SortType, removeLineBreaks: string -> string, ghost bound: nat): seq<Row>
    requires EntrySize(e) <= bound
    decreases bound, 0, 1
  {
    if !HasSide(e) then []
    else [HeadRow(e, parentIndex, indent, removeLineBreaks)] + ChildRows(e, base, indent, sortType, removeLineBreaks, bound)
  }

  /** The rows of an entry: its row, then those of the call on its nested properties, if any. */
  lemma EntryRowsChildren(e: MapEntry, parentIndex: int, indent: nat, base: nat,
                          sortType: SortType, removeLineBreaks: string -> string, bound: nat)
    requires EntrySize(e) <= bound && HasSide(e)
    ensures EntryRows(e, parentIndex, indent, base, sortType, removeLineBreaks, bound)
      == [HeadRow(e, parentIndex, indent, removeLineBreaks)] +
         (match ChildCall(e)
          case None => []
          case Some(call) => Rows(call.0, call.1, base, indent + 2, base + 1, sortType, removeLineBreaks))
  {
  }

  /** The accumulator after the row of `e`, which has no nested call, was pushed onto `before`. */
  lemma EntryRowsLeaf(e: MapEntry, parentIndex: int, indent: nat, sortType: SortType,
                      removeLineBreaks: string -> string, bound: nat, before: seq<Row>, after: seq<Row>)
    requires EntrySize(e) <= bound && HasSide(e) && ChildCall(e).None?
    requires after == before + [HeadRow(e, parentIndex, indent, removeLineBreaks)]
    ensures after == before + EntryRows(e, parentIndex, indent, |before|, sortType, removeLineBreaks, bound)
  {
    EntryRowsChildren(e, parentIndex, indent, |before|, sortType, removeLineBreaks, bound);
    assert [HeadRow(e, parentIndex, indent, removeLineBreaks)] + [] == [HeadRow(e, parentIndex, indent, removeLineBreaks)];
  }

  /** The accumulator after the row of `e` and then the rows of its nested call were pushed onto `before`. */
  lemma EntryRowsNested(e: MapEntry, call: (seq<Property>, seq<Property>), parentIndex: int, indent: nat,
                        sortType: SortType, removeLineBreaks: string -> string, bound: nat,
                        before: seq<Row>, mid: seq<Row>, parent: int, after: seq<Row>)
    requires EntrySize(e) <= bound && HasSide(e) && ChildCall(e) == Some(call)
    requires mid == before + [HeadRow(e, parentIndex, indent, removeLineBreaks)] && parent == |mid| - 1
    requires after == mid + Rows(call.0, call.1, parent, indent + 2, |mid|, sortType, removeLineBreaks)
    ensures after == before + EntryRows(e, parentIndex, indent, |before|, sortType, removeLineBreaks, bound)
  {
    var kids := Rows(call.0, call.1, |before|, indent + 2, |before| + 1, sortType, removeLineBreaks);
    EntryRowsChildren(e, parentIndex, indent, |before|, sortType, removeLineBreaks, bound);
    AppendAssoc(before, [HeadRow(e, parentIndex, indent, removeLineBreaks)], kids);
  }

  /** The rows of the recursive call made after the row of `e` was pushed at index `base`. */
  function ChildRows(e: MapEntry, base: nat, indent: nat,
                     sortType: SortType, removeLineBreaks: string -> string, ghost bound: nat): seq<Row>
    requires EntrySize(e) <= bound
    decreases bound, 0, 0
  {
    match ChildCall(e)
    case None => []
    case Some(call) => Rows(call.0, call.1, base, indent + 2, base + 1, sortType, removeLineBreaks)
  }

  // ---------------------------------------------------------------------------
  // Parent links
  // ---------------------------------------------------------------------------

  /**
   * Every row of `rs`, appended from index `base` on, either belongs to the
   * call's own level (`parent` is `parentIndex`, name indented by `indent`)
   * or points at a row appended earlier by the same call and is indented at
   * least one nesting step (`indent + 2`) deeper.
   */
  ghost predicate Layout(rs: seq<Row>, parentIndex: int, base: int, indent: nat) {
    forall k | 0 <= k < |rs| :: Placed(rs[k], k, parentIndex, base, indent)
  }

  /** Row `r`, the `k`-th a call appends, is on the call's own level or below an earlier row of the call. */
  ghost predicate Placed(r: Row, k: int, parentIndex: int, base: int, indent: nat) {
    || (r.parent == parentIndex && Indentation(indent) <= r.name)
    || (base <= r.parent < base + k && Indentation(indent + 2) <= r.name)
  }

  lemma LayoutParents(rs: seq<Row>, parentIndex: int, base: int, indent: nat)
    requires Layout(rs, parentIndex, base, indent)
    ensures forall k | 0 <= k < |rs| :: parentIndex <= rs[k].parent || base <= rs[k].parent
  {
  }

  lemma LayoutConcat(a: seq<Row>, b: seq<Row>, parentIndex: int, base: int, indent: nat)
    requires Layout(a, parentIndex, base, indent)
    requires Layout(b, parentIndex, base + |a|, indent)
    ensures Layout(a + b, parentIndex, base, indent)
  {
    forall k | |a| <= k < |a + b| ensures (a + b)[k] == b[k - |a|] { }
  }

  /** A row placed by the child call made after the row at index `base` is placed in the parent call. */
  lemma KidPlaced(r: Row, j: nat, parentIndex: int, base: int, indent: nat)
    requires Placed(r, j, base, base + 1, indent + 2)
    ensures Placed(r, j + 1, parentIndex, base, indent)
  {
    if r.parent != base {
      IndentationPrefix(indent + 2, indent + 4);
      assert Indentation(indent + 2) == Indentation(indent + 4)[..2 * (indent + 2)];
      assert Indentation(indent + 2) == r.name[..2 * (indent + 2)];
    }
  }

  lemma LayoutCons(head: Row, kids: seq<Row>, parentIndex: int, base: int, indent: nat)
    requires head.parent == parentIndex && Indentation(indent) <= head.name
    requires Layout(kids, base, base + 1, indent + 2)
    ensures Layout([head] + kids, parentIndex, base, indent)
  {
    var rs := [head] + kids;
    forall k | 0 <= k < |rs| ensures Placed(rs[k], k, parentIndex, base, indent) {
      if k > 0 {
        assert rs[k] == kids[k - 1];
        KidPlaced(kids[k - 1], k - 1, parentIndex, base, indent);
      }
    }
  }

  lemma {:induction false} RowsLayout(top: seq<Property>, bottom: seq<Property>, parentIndex: int, indent: nat, base: nat,
                                      sortType: SortType, removeLineBreaks: string -> string)
    ensures Layout(Rows(top, bottom, parentIndex, indent, base, sortType, removeLineBreaks), parentIndex, base, indent)
    decreases SizeOf(top) + SizeOf(bottom), 2, 0
  {
    RowsOfLayout(SortedEntries(top, bottom, sortType), parentIndex, indent, base, sortType, removeLineBreaks,
      SizeOf(top) + SizeOf(bottom));
  }

  lemma {:induction false} RowsOfLayout(es: seq<MapEntry>, parentIndex: int, indent: nat, base: nat,
                                        sortType: SortType, removeLineBreaks: string -> string, bound: nat)
    requires forall e | e in es :: EntrySize(e) <= bound
    ensures Layout(RowsOf(es, parentIndex, indent, base, sortType, removeLineBreaks, bound), parentIndex, base, indent)
    decreases bound, 1, |es|
  {
    if es != [] {
      var here := EntryRows(es[0], parentIndex, indent, base, sortType, removeLineBreaks, bound);
      var rest := RowsOf(es[1..], parentIndex, indent, base + |here|, sortType, removeLineBreaks, bound);
      EntryRowsLayout(es[0], parentIndex, indent, base, sortType, removeLineBreaks, bound);
      RowsOfLayout(es[1..], parentIndex, indent, base + |here|, sortType, removeLineBreaks, bound);
      LayoutConcat(here, rest, parentIndex, base, indent);
    }
  }

  lemma {:induction false} EntryRowsLayout(e: MapEntry, parentIndex: int, indent: nat, base: nat,
                                           sortType: SortType, removeLineBreaks: string -> string, bound: nat)
    requires EntrySize(e) <= bound
    ensures Layout(EntryRows(e, parentIndex, indent, base, sortType, removeLineBreaks, bound), parentIndex, base, indent)
    decreases bound, 0, 1
  {
    if HasSide(e) {
      ChildRowsLayout(e, base, indent, sortType, removeLineBreaks, bound);
      LayoutCons(HeadRow(e, parentIndex, indent, removeLineBreaks),
        ChildRows(e, base, indent, sortType, removeLineBreaks, bound), parentIndex, base, indent);
    }
  }

  lemma {:induction false} ChildRowsLayout(e: MapEntry, base: nat, indent: nat,
                                           sortType: SortType, removeLineBreaks: string -> string, bound: nat)
    requires EntrySize(e) <= bound
    ensures Layout(ChildRows(e, base, indent, sortType, removeLineBreaks, bound), base, base + 1, indent + 2)
    decreases bound, 0, 0
  {
    match ChildCall(e)
    case None =>
    case Some(call) =>
      RowsLayout(call.0, call.1, base, indent + 2, base + 1, sortType, removeLineBreaks);
  }

  /**
   * Parent links: every row a call appends points at its level's parent
   * (`parentIndex`) or at a row appended before it, never forward.
   */
  lemma RowsParents(top: seq<Property>, bottom: seq<Property>, parentIndex: int, indent: nat, base: nat,
                    sortType: SortType, removeLineBreaks: string -> string)
    requires parentIndex < base
    ensures var rs := Rows(top, bottom, parentIndex, indent, base, sortType, removeLineBreaks);
      forall k | 0 <= k < |rs| :: rs[k].parent < base + k && (rs[k].parent == parentIndex || base <= rs[k].parent)
  {
    RowsLayout(top, bottom, parentIndex, indent, base, sortType, removeLineBreaks);
  }

  // ---------------------------------------------------------------------------
  // The rows of a call's own level
  // ---------------------------------------------------------------------------

  /** The rows of `rows` whose parent is `p`, in order. */
  function WithParent(rows: seq<Row>, p: int): seq<Row>
  {
    if rows == [] then []
    else (if rows[0].parent == p then [rows[0]] else []) + WithParent(rows[1..], p)
  }

  lemma {:induction false} WithParentConcat(a: seq<Row>, b: seq<Row>, p: int)
    ensures WithParent(a + b, p) == WithParent(a, p) + WithParent(b, p)
  {
    if a == [] {
      assert a + b == b;
    } else {
      var h := if a[0].parent == p then [a[0]] else [];
      assert (a + b)[0] == a[0];
      assert (a + b)[1..] == a[1..] + b;
      WithParentConcat(a[1..], b, p);
      AppendAssoc(h, WithParent(a[1..], p), WithParent(b, p));
    }
  }

  lemma {:induction false} WithParentNone(rows: seq<Row>, p: int)
    requires forall k | 0 <= k < |rows| :: rows[k].parent != p
    ensures WithParent(rows, p) == []
  {
    if rows != [] {
      WithParentNone(rows[1..], p);
    }
  }

  /** The head rows of a sequence of entries. */
  function HeadRows(es: seq<MapEntry>, parentIndex: int, indent: nat, removeLineBreaks: string -> string): (r: seq<Row>)
    requires forall e | e in es :: HasSide(e)
    ensures |r| == |es|
  {
    if es == [] then []
    else [HeadRow(es[0], parentIndex, indent, removeLineBreaks)] + HeadRows(es[1..], parentIndex, indent, removeLineBreaks)
  }

  lemma {:induction false} RowsOfLevel(es: seq<MapEntry>, parentIndex: int, indent: nat, base: nat,
                                       sortType: SortType, removeLineBreaks: string -> string, bound: nat)
    requires parentIndex < base
    requires forall e | e in es :: EntrySize(e) <= bound && HasSide(e)
    ensures WithParent(RowsOf(es, parentIndex, indent, base, sortType, removeLineBreaks, bound), parentIndex)
         == HeadRows(es, parentIndex, indent, removeLineBreaks)
    decreases |es|
  {
    if es != [] {
      var here := EntryRows(es[0], parentIndex, indent, base, sortType, removeLineBreaks, bound);
      RowsOfLevel(es[1..], parentIndex, indent, base + |here|, sortType, removeLineBreaks, bound);
      RowsOfLevelStep(es, parentIndex, indent, base, sortType, removeLineBreaks, bound);
    }
  }

  lemma RowsOfLevelStep(es: seq<MapEntry>, parentIndex: int, indent: nat, base: nat,
                        sortType: SortType, removeLineBreaks: string -> string, bound: nat)
    requires parentIndex < base
    requires es != []
    requires forall e | e in es :: EntrySize(e) <= bound && HasSide(e)
    requires var here := EntryRows(es[0], parentIndex, indent, base, sortType, removeLineBreaks, bound);
      WithParent(RowsOf(es[1..], parentIndex, indent, base + |here|, sortType, removeLineBreaks, bound), parentIndex)
        == HeadRows(es[1..], parentIndex, indent, removeLineBreaks)
    ensures WithParent(RowsOf(es, parentIndex, indent, base, sortType, removeLineBreaks, bound), parentIndex)
         == HeadRows(es, parentIndex, indent, removeLineBreaks)
  {
    var here := EntryRows(es[0], parentIndex, indent, base, sortType, removeLineBreaks, bound);
    var rest := RowsOf(es[1..], parentIndex, indent, base + |here|, sortType, removeLineBreaks, bound);
    calc {
      WithParent(RowsOf(es, parentIndex, indent, base, sortType, removeLineBreaks, bound), parentIndex);
      WithParent(here + rest, parentIndex);
      { WithParentConcat(here, rest, parentIndex); }
      WithParent(here, parentIndex) + WithParent(rest, parentIndex);
      { EntryRowsLevel(es[0], parentIndex, indent, base, sortType, removeLineBreaks, bound); }
      [HeadRow(es[0], parentIndex, indent, removeLineBreaks)] + HeadRows(es[1..], parentIndex, indent, removeLineBreaks);
    }
  }

  lemma EntryRowsLevel(e: MapEntry, parentIndex: int, indent: nat, base: nat,
                       sortType: SortType, removeLineBreaks: string -> string, bound: nat)
    requires parentIndex < base
    requires EntrySize(e) <= bound && HasSide(e)
    ensures WithParent(EntryRows(e, parentIndex, indent, base, sortType, removeLineBreaks, bound), parentIndex)
         == [HeadRow(e, parentIndex, indent, removeLineBreaks)]
  {
    var head := HeadRow(e, parentIndex, indent, removeLineBreaks);
    var kids := ChildRows(e, base, indent, sortType, removeLineBreaks, bound);
    ChildRowsLayout(e, base, indent, sortType, removeLineBreaks, bound);
    LayoutParents(kids, base, base + 1, indent + 2);
    WithParentNone(kids, parentIndex);
    WithParentConcat([head], kids, parentIndex);
    assert WithParent([head], parentIndex) == [head];
  }

  /**
   * The rows a call appends at its own level are the head rows of the sorted
   * merged entries: one per distinct name of `top` and `bottom`, in sorted
   * order, named by its key after `indent` double spaces.
   */
  lemma LevelRows(top: seq<Property>, bottom: seq<Property>, parentIndex: int, indent: nat, base: nat,
                  sortType: SortType, removeLineBreaks: string -> string)
    requires parentIndex < base
    ensures var es := SortedEntries(top, bottom, sortType);
      && (forall e | e in es :: HasSide(e))
      && WithParent(Rows(top, bottom, parentIndex, indent, base, sortType, removeLineBreaks), parentIndex)
         == HeadRows(es, parentIndex, indent, removeLineBreaks)
  {
    RowsOfLevel(SortedEntries(top, bottom, sortType), parentIndex, indent, base, sortType, removeLineBreaks,
      SizeOf(top) + SizeOf(bottom));
  }

  /**
   * Each sorted entry is the merged map's entry for its own name, so
   * MergeLookup tells which properties and display order it carries.
   */
  lemma SortedEntriesLookup(top: seq<Property>, bottom: seq<Property>, sortType: SortType)
    ensures forall e | e in SortedEntries(top, bottom, sortType) :: Get(MergeProperties(top, bottom), e.name) == Some(e)
  {
    var m := MergeProperties(top, bottom);
    MergeKeys(top, bottom);
    ApplySortPermutation(sortType, m);
    forall e | e in SortedEntries(top, bottom, sortType) ensures Get(m, e.name) == Some(e) {
      assert e in multiset(ApplySort(sortType, m));
      GetMember(m, e);
    }
  }

  // ---------------------------------------------------------------------------
  // The rows of a level, read off the two property lists
  // ---------------------------------------------------------------------------

  /**
   * The row of a level for the property name `k`, read straight from the two
   * lists: the last property called `k` on each side supplies that side's
   * value, both values pass through `removeLineBreaks` when both sides have
   * one, and the display order is the top side's when there is one.
   */
  function NamedRow(top: seq<Property>, bottom: seq<Property>, parentIndex: int, indent: nat,
                    removeLineBreaks: string -> string): string -> Row
  {
    (k: string) =>
      var t, b := LastNamed(top, k), LastNamed(bottom, k);
      var name := Indentation(indent) + k;
      if t.Some? && b.Some? then
        Row(name, parentIndex, t.value.displayOrder,
          Some(removeLineBreaks(t.value.displayValue)), Some(removeLineBreaks(b.value.displayValue)))
      else if t.Some? then Row(name, parentIndex, t.value.displayOrder, Some(t.value.displayValue), None)
      else if b.Some? then Row(name, parentIndex, b.value.displayOrder, None, Some(b.value.displayValue))
      else Row(name, parentIndex, None, None, None)
  }

  function EntryRow(top: seq<Property>, bottom: seq<Property>, parentIndex: int, indent: nat,
                    removeLineBreaks: string -> string): MapEntry -> Row
  {
    (e: MapEntry) => NamedRow(top, bottom, parentIndex, indent, removeLineBreaks)(e.name)
  }

  /** The row pushed for a sorted entry is the row of its name. */
  lemma HeadRowNamed(top: seq<Property>, bottom: seq<Property>, sortType: SortType, parentIndex: int, indent: nat,
                     removeLineBreaks: string -> string, e: MapEntry)
    requires e in SortedEntries(top, bottom, sortType)
    ensures HeadRow(e, parentIndex, indent, removeLineBreaks) == NamedRow(top, bottom, parentIndex, indent, removeLineBreaks)(e.name)
  {
    SortedEntriesLookup(top, bottom, sortType);
    MergeLookup(top, bottom, e.name);
  }

  lemma {:induction false} HeadRowsNamed(top: seq<Property>, bottom: seq<Property>, sortType: SortType,
                                         es: seq<MapEntry>, parentIndex: int, indent: nat, removeLineBreaks: string -> string)
    requires forall e | e in es :: e in SortedEntries(top, bottom, sortType)
    ensures forall e | e in es :: HasSide(e)
    ensures HeadRows(es, parentIndex, indent, removeLineBreaks) == MapSeq(EntryRow(top, bottom, parentIndex, indent, removeLineBreaks), es)
  {
    if es != [] {
      var f := EntryRow(top, bottom, parentIndex, indent, removeLineBreaks);
      HeadRowsNamed(top, bottom, sortType, es[1..], parentIndex, indent, removeLineBreaks);
      HeadRowNamed(top, bottom, sortType, parentIndex, indent, removeLineBreaks, es[0]);
      MapSeqConcat(f, [es[0]], es[1..]);
      assert es == [es[0]] + es[1..];
    }
  }

  /**
   * One row per name: the rows a call appends at its own level are, up to
   * their sorted order, the rows of the distinct property names of `top` and
   * `bottom`, one for each, with the name indented by `indent` double spaces
   * and the values and display order the two lists give that name.
   */
  lemma LevelContents(top: seq<Property>, bottom: seq<Property>, parentIndex: int, indent: nat, base: nat,
                      sortType: SortType, removeLineBreaks: string -> string)
    requires parentIndex < base
    ensures forall k :: k in Dedup(Names(top) + Names(bottom)) <==> k in Names(top) || k in Names(bottom)
    ensures Distinct(Dedup(Names(top) + Names(bottom)))
    ensures multiset(WithParent(Rows(top, bottom, parentIndex, indent, base, sortType, removeLineBreaks), parentIndex))
         == multiset(MapSeq(NamedRow(top, bottom, parentIndex, indent, removeLineBreaks), Dedup(Names(top) + Names(bottom))))
  {
    var m := MergeProperties(top, bottom);
    var es := SortedEntries(top, bottom, sortType);
    var f := EntryRow(top, bottom, parentIndex, indent, removeLineBreaks);
    MergeKeys(top, bottom);
    calc {
      multiset(WithParent(Rows(top, bottom, parentIndex, indent, base, sortType, removeLineBreaks), parentIndex));
      { LevelRows(top, bottom, parentIndex, indent, base, sortType, removeLineBreaks); }
      multiset(HeadRows(es, parentIndex, indent, removeLineBreaks));
      { HeadRowsNamed(top, bottom, sortType, es, parentIndex, indent, removeLineBreaks); }
      multiset(MapSeq(f, es));
      { ApplySortPermutation(sortType, m);
        MapSeqPermutation(f, es, m); }
      multiset(MapSeq(f, m));
      { assert MapSeq(f, m) == MapSeq(NamedRow(top, bottom, parentIndex, indent, removeLineBreaks), Keys(m)); }
      multiset(MapSeq(NamedRow(top, bottom, parentIndex, indent, removeLineBreaks), Keys(m)));
    }
  }

  /**
   * The root call (no parent, no indentation, onto an empty list) lists a
   * tree: each row's parent is -1 or an earlier row, and the rows with no
   * parent are those of the distinct names of the two lists.
   */
  lemma RootRows(top: seq<Property>, bottom: seq<Property>, sortType: SortType, removeLineBreaks: string -> string)
    ensures var rows := Rows(top, bottom, -1, 0, 0, sortType, removeLineBreaks);
      && (forall k | 0 <= k < |rows| :: rows[k].parent == -1 || 0 <= rows[k].parent < k)
      && multiset(WithParent(rows, -1)) == multiset(MapSeq(NamedRow(top, bottom, -1, 0, removeLineBreaks), Dedup(Names(top) + Names(bottom))))
  {
    RowsParents(top, bottom, -1, 0, 0, sortType, removeLineBreaks);
    LevelContents(top, bottom, -1, 0, 0, sortType, removeLineBreaks);
  }

  /**
   * The block of rows one entry contributes when its row lands at index
   * `base`: that row first, on the entry's level; every later row points
   * back into the block at an earlier row (the rows of the recursive call
   * made with `rows.length - 1` as parent); and the rows whose parent is
   * the entry's own row are, up to order, one per distinct name of the two
   * nested lists, each read from those lists.
   */
  lemma EntryBlock(e: MapEntry, parentIndex: int, indent: nat, base: nat,
                   sortType: SortType, removeLineBreaks: string -> string, bound: nat)
    requires EntrySize(e) <= bound
    ensures var rs := EntryRows(e, parentIndex, indent, base, sortType, removeLineBreaks, bound);
      && (!HasSide(e) ==> rs == [])
      && (HasSide(e) ==>
            && |rs| >= 1
            && rs[0] == HeadRow(e, parentIndex, indent, removeLineBreaks)
            && rs[0].parent == parentIndex
            && (forall k | 1 <= k < |rs| :: base <= rs[k].parent < base + k)
            && (ChildCall(e).None? ==> |rs| == 1)
            && (ChildCall(e).Some? ==>
                  var c := ChildCall(e).value;
                  multiset(WithParent(rs[1..], base))
                  == multiset(MapSeq(NamedRow(c.0, c.1, base, indent + 2, removeLineBreaks), Dedup(Names(c.0) + Names(c.1))))))
  {
    if HasSide(e) {
      EntryRowsChildren(e, parentIndex, indent, base, sortType, removeLineBreaks, bound);
      match ChildCall(e)
      case None =>
      case Some(c) =>
        BlockKids(c.0, c.1, HeadRow(e, parentIndex, indent, removeLineBreaks),
          EntryRows(e, parentIndex, indent, base, sortType, removeLineBreaks, bound), base, indent, sortType, removeLineBreaks);
    }
  }

  /** A head row followed by the rows of a nested call whose parent is the head row's index `base`. */
  lemma BlockKids(top: seq<Property>, bottom: seq<Property>, head: Row, rs: seq<Row>, base: nat, indent: nat,
                  sortType: SortType, removeLineBreaks: string -> string)
    requires rs == [head] + Rows(top, bottom, base, indent + 2, base + 1, sortType, removeLineBreaks)
    ensures forall k | 1 <= k < |rs| :: base <= rs[k].parent < base + k
    ensures multiset(WithParent(rs[1..], base))
         == multiset(MapSeq(NamedRow(top, bottom, base, indent + 2, removeLineBreaks), Dedup(Names(top) + Names(bottom))))
  {
    var kids := Rows(top, bottom, base, indent + 2, base + 1, sortType, removeLineBreaks);
    assert rs[1..] == kids;
    RowsParents(top, bottom, base, indent + 2, base + 1, sortType, removeLineBreaks);
    LevelContents(top, bottom, base, indent + 2, base + 1, sortType, removeLineBreaks);
    forall k | 1 <= k < |rs| ensures base <= rs[k].parent < base + k {
      assert rs[k] == kids[k - 1];
    }
  }
}

/**
 * ExecutionPlanComparisonPropertiesView: the view object, its sort setting
 * and the recursive convertPropertiesToTableRows that appends the rows of
 * two property lists to a shared row list.
 */
module PropertiesView {
  import opened Options
  import opened PlanProperties
  import opened PropertySort
  import opened PropertyRows
  import opened Sequences

  /** The `rows` array that every recursive call pushes onto. */
  class RowList {
    var rows: seq<Row>

    constructor()
      ensures rows == []
    {
      rows := [];
    }

    /** `rows.push(row)` */
    method Push(row: Row)
      modifies this
      ensures rows == old(rows) + [row]
    {
      rows := rows + [row];
    }
  }

  /** `element?.properties`, or no properties when either is missing. */
  function PropertiesOrEmpty(element: Option<seq<Property>>): seq<Property> {
    if element.Some? then element.value else []
  }

  class ExecutionPlanComparisonPropertiesView {
    const sortType: SortType
    /** `removeLineBreaks(text, ' ')`, a helper outside this model. */
    const removeLineBreaks: string -> string

    static lemma InsertTopStep(ps: seq<Property>, i: nat)
      requires i < |ps|
      ensures InsertTop(ps[..i + 1]) == Set(InsertTop(ps[..i]), MapEntry(Some(ps[i]), None, ps[i].displayOrder, ps[i].name))
    {
      assert ps[..i + 1][..i] == ps[..i];
    }

    static lemma InsertBottomStep(m: PropertiesMap, ps: seq<Property>, j: nat)
      requires j < |ps|
      ensures InsertBottom(m, ps[..j + 1]) == AddBottom(InsertBottom(m, ps[..j]), ps[j])
    {
      assert ps[..j + 1][..j] == ps[..j];
    }

    /** The forEach over `topNode`: each property becomes the entry of its name, with no bottom side. */
    static method AddTopProperties(topNode: seq<Property>) returns (propertiesMap: PropertiesMap)
      ensures propertiesMap == InsertTop(topNode)
    {
      propertiesMap := [];
      for i := 0 to |topNode|
        invariant propertiesMap == InsertTop(topNode[..i])
      {
        var p := topNode[i];
        InsertTopStep(topNode, i);
        propertiesMap := Set(propertiesMap, MapEntry(Some(p), None, p.displayOrder, p.name));
      }
      assert topNode[..|topNode|] == topNode;
    }

    /**
     * The forEach over `bottomNode`: a property whose name has an entry becomes
     * that entry's bottom side; any other becomes a new entry with no top side.
     */
    static method AddBottomProperties(m: PropertiesMap, bottomNode: seq<Property>) returns (propertiesMap: PropertiesMap)
      ensures propertiesMap == InsertBottom(m, bottomNode)
    {
      propertiesMap := m;
      for j := 0 to |bottomNode|
        invariant propertiesMap == InsertBottom(m, bottomNode[..j])
      {
        var p := bottomNode[j];
        InsertBottomStep(m, bottomNode, j);
        var existing := Get(propertiesMap, p.name);
        if existing.Some? {
          propertiesMap := Set(propertiesMap, existing.value.(bottomProp := Some(p)));
        } else {
          propertiesMap := Set(propertiesMap, MapEntry(None, Some(p), p.displayOrder, p.name));
        }
      }
      assert bottomNode[..|bottomNode|] == bottomNode;
    }

    constructor(sortType: SortType, removeLineBreaks: string -> string)
      ensures this.sortType == sortType && this.removeLineBreaks == removeLineBreaks
    {
      this.sortType := sortType;
      this.removeLineBreaks := removeLineBreaks;
    }

    /**
     * renderView's table rows: the root call on the properties of the two
     * compared elements (none when an element or its properties is missing),
     * with no parent and no indentation, onto a fresh row list. Each row's
     * parent is -1 or an earlier row, and the root level holds one row per
     * distinct property name of the two elements.
     */
    method RenderView(topElement: Option<seq<Property>>, bottomElement: Option<seq<Property>>) returns (rows: seq<Row>)
      ensures rows == Rows(PropertiesOrEmpty(topElement), PropertiesOrEmpty(bottomElement), -1, 0, 0, sortType, removeLineBreaks)
      ensures forall k | 0 <= k < |rows| :: rows[k].parent == -1 || 0 <= rows[k].parent < k
      ensures var top, bottom := PropertiesOrEmpty(topElement), PropertiesOrEmpty(bottomElement);
        multiset(WithParent(rows, -1)) == multiset(MapSeq(NamedRow(top, bottom, -1, 0, removeLineBreaks), Dedup(Names(top) + Names(bottom))))
    {
      var topProps := PropertiesOrEmpty(topElement);
      var bottomProps := PropertiesOrEmpty(bottomElement);
      var list := new RowList();
      var result := ConvertPropertiesToTableRows(topProps, bottomProps, -1, 0, list);
      rows := result.rows;
      RootRows(topProps, bottomProps, sortType, removeLineBreaks);
    }

    /**
     * Appends to `rows` the rows of `topNode` and `bottomNode`: one per merged
     * entry, in the order of `sortType`, each followed by the rows of its
     * nested properties, which name it as their parent.
     */
    method ConvertPropertiesToTableRows(topNode: seq<Property>, bottomNode: seq<Property>, parentIndex: int,
                                        indent: nat, rows: RowList) returns (result: RowList)
      modifies rows
      ensures result == rows
      ensures rows.rows == old(rows.rows) + Rows(topNode, bottomNode, parentIndex, indent, |old(rows.rows)|,
                                                 sortType, removeLineBreaks)
      decreases SizeOf(topNode) + SizeOf(bottomNode), 1
    {
      ghost var start := rows.rows;
      var propertiesMap := AddTopProperties(topNode);
      propertiesMap := AddBottomProperties(propertiesMap, bottomNode);

      match sortType {
        case DisplayOrder => propertiesMap := SortPropertiesByImportance(propertiesMap);
        case Alphabetical => propertiesMap := SortPropertiesAlphabetically(propertiesMap);
        case ReverseAlphabetical => propertiesMap := SortPropertiesReverseAlphabetically(propertiesMap);
        case Unsorted =>
      }

      assert rows.rows == start;
      ghost var bound := SizeOf(topNode) + SizeOf(bottomNode);
      assert propertiesMap == SortedEntries(topNode, bottomNode, sortType);
      AppendEntries(propertiesMap, parentIndex, indent, rows, bound);
      assert rows.rows == start + RowsOf(propertiesMap, parentIndex, indent, |start|, sortType, removeLineBreaks, bound);
      RowsUnfold(topNode, bottomNode, parentIndex, indent, |start|, sortType, removeLineBreaks);
      return rows;
    }

    /** The forEach over the sorted map: appends the rows of each entry of `es` in turn. */
    method AppendEntries(es: seq<MapEntry>, parentIndex: int, indent: nat, rows: RowList, ghost bound: nat)
      requires forall e | e in es :: EntrySize(e) <= bound
      modifies rows
      ensures rows.rows == old(rows.rows) + RowsOf(es, parentIndex, indent, |old(rows.rows)|,
                                                   sortType, removeLineBreaks, bound)
      decreases bound, 0, 1
    {
      ghost var all := rows.rows + RowsOf(es, parentIndex, indent, |rows.rows|, sortType, removeLineBreaks, bound);
      ghost var base := |rows.rows|;
      assert es[0..] == es;
      var k := 0;
      while k < |es|
        invariant 0 <= k <= |es|
        invariant base == |rows.rows|
        invariant all == rows.rows + RowsOf(es[k..], parentIndex, indent, base, sortType, removeLineBreaks, bound)
        decreases |es| - k
      {
        ghost var before := rows.rows;
        AppendEntryRows(es[k], parentIndex, indent, rows, bound);
        ghost var here := EntryRows(es[k], parentIndex, indent, base, sortType, removeLineBreaks, bound);
        assert rows.rows == before + here;
        assert es[k..][0] == es[k] && es[k..][1..] == es[k + 1..];
        RowsOfStep(es[k..], parentIndex, indent, base, base + |here|, sortType, removeLineBreaks, bound, all, before, rows.rows);
        base := base + |here|;
        k := k + 1;
      }
      RowsOfEnd(es, k, parentIndex, indent, base, sortType, removeLineBreaks, bound, all, rows.rows);
    }

    /**
     * The callback of the forEach over the sorted map: pushes the row of `v`
     * (HeadRow holds the three-way choice of its display order and values),
     * then makes the recursive call on its nested properties that ChildCall
     * selects, with the new row as their parent.
     */
    method AppendEntryRows(v: MapEntry, parentIndex: int, indent: nat, rows: RowList, ghost bound: nat)
      requires EntrySize(v) <= bound
      modifies rows
      ensures rows.rows == old(rows.rows) + EntryRows(v, parentIndex, indent, |old(rows.rows)|,
                                                      sortType, removeLineBreaks, bound)
      decreases bound, 0, 0
    {
      if HasSide(v) {
        rows.Push(HeadRow(v, parentIndex, indent, removeLineBreaks));
        ghost var mid := rows.rows;
        match ChildCall(v) {
          case None =>
            EntryRowsLeaf(v, parentIndex, indent, sortType, removeLineBreaks, bound, old(rows.rows), rows.rows);
          case Some(call) =>
            var parent := |rows.rows| - 1;
            var _ := ConvertPropertiesToTableRows(call.0, call.1, parent, indent + 2, rows);
            EntryRowsNested(v, call, parentIndex, indent, sortType, removeLineBreaks, bound, old(rows.rows), mid, parent, rows.rows);
        }
      } else {
        assert EntryRows(v, parentIndex, indent, |rows.rows|, sortType, removeLineBreaks, bound) == [];
        assert rows.rows + [] == rows.rows;
      }
    }
  }
}

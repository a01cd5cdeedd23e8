/**
 * Execution-plan properties and the insertion-ordered map that pairs the
 * properties of the top plan with those of the bottom plan
 * (executionPlanComparisonPropertiesView.ts, convertPropertiesToTableRows,
 * the two forEach loops that fill `propertiesMap`).
 */
module PlanProperties {
  import opened Options
  import opened Sequences

  /** The `value` of a property: a display string, or nested properties. */
  datatype PropertyValue = Leaf(text: string) | Nested(children: seq<Property>)

  /** ExecutionPlanGraphElementProperty. */
  datatype Property = Property(
    name: string,
    displayValue: string,
    value: PropertyValue,
    displayOrder: Option<int>)

  /** `isString(p.value)` */
  predicate IsString(p: Property) {
    p.value.Leaf?
  }

  /** The nested properties of `p`, or none when its value is a string. */
  function NestedProperties(p: Property): (r: seq<Property>)
    ensures IsString(p) ==> r == []
  {
    if p.value.Nested? then p.value.children else []
  }

  /** Number of properties in a property tree: the termination measure of the flattening. */
  function Size(p: Property): nat
  {
    match p.value
    case Leaf(_) => 1
    case Nested(cs) => 1 + SizeOf(cs)
  }

  function SizeOf(ps: seq<Property>): nat
  {
    if ps == [] then 0 else Size(ps[0]) + SizeOf(ps[1..])
  }

  lemma NestedSmaller(p: Property)
    ensures SizeOf(NestedProperties(p)) < Size(p)
  {
  }

  lemma {:induction false} SizeOfMember(ps: seq<Property>, p: Property)
    requires p in ps
    ensures Size(p) <= SizeOf(ps)
  {
    if ps[0] != p {
      SizeOfMember(ps[1..], p);
    }
  }

  // ---------------------------------------------------------------------------
  // TablePropertiesMapEntry and the JavaScript Map that holds the entries
  // ---------------------------------------------------------------------------

  /** TablePropertiesMapEntry: the top and/or bottom property of one name. */
  datatype MapEntry = MapEntry(
    topProp: Option<Property>,
    bottomProp: Option<Property>,
    displayOrder: Option<int>,
    name: string)

  /**
   * A `Map<string, TablePropertiesMapEntry>`: its entries in insertion order.
   * The key of every entry the source inserts is the entry's own `name`.
   */
  type PropertiesMap = seq<MapEntry>

  function Keys(m: PropertiesMap): (ks: seq<string>)
    ensures |ks| == |m|
    ensures forall i | 0 <= i < |m| :: ks[i] == m[i].name
  {
    seq(|m|, i requires 0 <= i < |m| => m[i].name)
  }

  predicate Distinct(s: seq<string>) {
    forall i, j | 0 <= i < j < |s| :: s[i] != s[j]
  }

  /** `m.get(k)` */
  function Get(m: PropertiesMap, k: string): (r: Option<MapEntry>)
    ensures r.Some? <==> k in Keys(m)
    ensures r.Some? ==> r.value in m && r.value.name == k
  {
    if m == [] then None
    else if m[0].name == k then Some(m[0])
    else
      assert Keys(m) == [m[0].name] + Keys(m[1..]);
      Get(m[1..], k)
  }

  /**
   * `m.set(e.name, e)`: an existing key keeps its position and gets the new
   * entry; a new key is appended.
   */
  function Set(m: PropertiesMap, e: MapEntry): PropertiesMap
  {
    if m == [] then [e]
    else if m[0].name == e.name then [e] + m[1..]
    else [m[0]] + Set(m[1..], e)
  }

  lemma KeysCons(x: MapEntry, m: PropertiesMap)
    ensures Keys([x] + m) == [x.name] + Keys(m)
  {
    forall i | 1 <= i < |m| + 1 ensures Keys([x] + m)[i] == Keys(m)[i - 1] {
      assert ([x] + m)[i] == m[i - 1];
    }
  }

  /** `m.set(e.name, e)` keeps the order of the keys and appends a new one. */
  lemma {:induction false} SetKeys(m: PropertiesMap, e: MapEntry)
    ensures Keys(Set(m, e)) == if e.name in Keys(m) then Keys(m) else Keys(m) + [e.name]
  {
    if m == [] {
    } else {
      var t := m[1..];
      assert m == [m[0]] + t;
      KeysCons(m[0], t);
      if m[0].name == e.name {
        KeysCons(e, t);
      } else {
        SetKeys(t, e);
        KeysCons(m[0], Set(t, e));
        assert e.name in Keys(m) <==> e.name in Keys(t);
        AppendAssoc([m[0].name], Keys(t), [e.name]);
      }
    }
  }

  /** After `m.set(e.name, e)`, the key `e.name` gives `e` and every other key what it gave before. */
  lemma {:induction false} SetLookup(m: PropertiesMap, e: MapEntry)
    ensures forall k :: Get(Set(m, e), k) == if k == e.name then Some(e) else Get(m, k)
  {
    if m != [] && m[0].name != e.name {
      SetLookup(m[1..], e);
      assert ([m[0]] + Set(m[1..], e))[1..] == Set(m[1..], e);
    }
  }

  /** `m.set(e.name, e)` holds `e` and entries of `m` only. */
  lemma {:induction false} SetMembers(m: PropertiesMap, e: MapEntry)
    ensures forall x | x in Set(m, e) :: x in m || x == e
  {
    if m != [] && m[0].name != e.name {
      SetMembers(m[1..], e);
    }
  }

  lemma {:induction false} GetMember(m: PropertiesMap, e: MapEntry)
    requires Distinct(Keys(m))
    requires e in m
    ensures Get(m, e.name) == Some(e)
  {
    if m[0] != e {
      assert e in m[1..];
      assert m[0].name != e.name by {
        var i :| 0 <= i < |m| && m[i] == e;
        assert Keys(m)[0] != Keys(m)[i];
      }
      assert Keys(m[1..]) == Keys(m)[1..];
      GetMember(m[1..], e);
    }
  }

  // ---------------------------------------------------------------------------
  // Filling the map: top properties first, then bottom properties
  // ---------------------------------------------------------------------------

  function TopEntry(p: Property): MapEntry {
    MapEntry(Some(p), None, p.displayOrder, p.name)
  }

  function BottomEntry(p: Property): MapEntry {
    MapEntry(None, Some(p), p.displayOrder, p.name)
  }

  /** The map after the forEach over the top properties. */
  function InsertTop(ps: seq<Property>): PropertiesMap
  {
    if ps == [] then []
    else Set(InsertTop(ps[..|ps| - 1]), TopEntry(ps[|ps| - 1]))
  }

  /** One step of the forEach over the bottom properties. */
  function AddBottom(m: PropertiesMap, p: Property): PropertiesMap
  {
    match Get(m, p.name)
    case Some(e) => Set(m, e.(bottomProp := Some(p)))
    case None => Set(m, BottomEntry(p))
  }

  /** A bottom property with a new name gets an entry at the end. */
  lemma AddBottomKeys(m: PropertiesMap, p: Property)
    ensures Keys(AddBottom(m, p)) == if p.name in Keys(m) then Keys(m) else Keys(m) + [p.name]
  {
    match Get(m, p.name)
    case Some(e) => SetKeys(m, e.(bottomProp := Some(p)));
    case None => SetKeys(m, BottomEntry(p));
  }

  /** A bottom property joins the entry of its name as `bottomProp`, or makes a bottom-only entry. */
  lemma AddBottomLookup(m: PropertiesMap, p: Property)
    ensures forall k ::
              Get(AddBottom(m, p), k) ==
              if k != p.name then Get(m, k)
              else match Get(m, k)
                case Some(e) => Some(e.(bottomProp := Some(p)))
                case None => Some(BottomEntry(p))
  {
    match Get(m, p.name)
    case Some(e) => SetLookup(m, e.(bottomProp := Some(p)));
    case None => SetLookup(m, BottomEntry(p));
  }

  /** The map after the forEach over the bottom properties. */
  function InsertBottom(m: PropertiesMap, ps: seq<Property>): PropertiesMap
  {
    if ps == [] then m
    else AddBottom(InsertBottom(m, ps[..|ps| - 1]), ps[|ps| - 1])
  }

  /** The merged, not yet sorted, map of one level. */
  function MergeProperties(top: seq<Property>, bottom: seq<Property>): PropertiesMap
  {
    InsertBottom(InsertTop(top), bottom)
  }

  // ---------------------------------------------------------------------------
  // Reference definitions the merge is proved against
  // ---------------------------------------------------------------------------

  function Names(ps: seq<Property>): (ns: seq<string>)
    ensures |ns| == |ps|
    ensures forall i | 0 <= i < |ps| :: ns[i] == ps[i].name
  {
    seq(|ps|, i requires 0 <= i < |ps| => ps[i].name)
  }

  /** `d` followed by the elements of `s` not seen before, each once, in first-occurrence order. */
  function AppendNew(d: seq<string>, s: seq<string>): seq<string>
  {
    if s == [] then d
    else
      var d' := AppendNew(d, s[..|s| - 1]);
      if s[|s| - 1] in d' then d' else d' + [s[|s| - 1]]
  }

  /** The distinct elements of `s` in first-occurrence order. */
  function Dedup(s: seq<string>): seq<string> {
    AppendNew([], s)
  }

  /** The last property of `ps` called `k`. */
  function LastNamed(ps: seq<Property>, k: string): (r: Option<Property>)
    ensures r.Some? <==> k in Names(ps)
    ensures r.Some? ==> r.value in ps && r.value.name == k
  {
    if ps == [] then None
    else if ps[|ps| - 1].name == k then Some(ps[|ps| - 1])
    else
      assert Names(ps) == Names(ps[..|ps| - 1]) + [ps[|ps| - 1].name];
      LastNamed(ps[..|ps| - 1], k)
  }

  /** The first property of `ps` called `k`. */
  function FirstNamed(ps: seq<Property>, k: string): (r: Option<Property>)
    ensures r.Some? <==> k in Names(ps)
    ensures r.Some? ==> r.value in ps && r.value.name == k
  {
    if ps == [] then None
    else
      assert Names(ps) == Names(ps[..|ps| - 1]) + [ps[|ps| - 1].name];
      var f := FirstNamed(ps[..|ps| - 1], k);
      if f.Some? then f
      else if ps[|ps| - 1].name == k then Some(ps[|ps| - 1])
      else None
  }

  lemma {:induction false} AppendNewMembers(d: seq<string>, s: seq<string>)
    ensures forall x :: x in AppendNew(d, s) <==> x in d || x in s
    ensures Distinct(d) ==> Distinct(AppendNew(d, s))
    ensures d <= AppendNew(d, s)
  {
    if s != [] {
      AppendNewMembers(d, s[..|s| - 1]);
      assert s == s[..|s| - 1] + [s[|s| - 1]];
    }
  }

  lemma {:induction false} AppendNewConcat(d: seq<string>, a: seq<string>, b: seq<string>)
    ensures AppendNew(AppendNew(d, a), b) == AppendNew(d, a + b)
  {
    if b == [] {
      assert a + b == a;
    } else {
      AppendNewConcat(d, a, b[..|b| - 1]);
      assert (a + b)[..|a + b| - 1] == a + b[..|b| - 1];
    }
  }

  lemma {:induction false} AppendNewDistinct(d: seq<string>, s: seq<string>)
    requires Distinct(d + s)
    ensures AppendNew(d, s) == d + s
  {
    if s != [] {
      var s' := s[..|s| - 1];
      assert d + s == (d + s') + [s[|s| - 1]];
      assert Distinct(d + s') by {
        forall i, j | 0 <= i < j < |d + s'| ensures (d + s')[i] != (d + s')[j] {
          assert (d + s')[i] == (d + s)[i] && (d + s')[j] == (d + s)[j];
        }
      }
      AppendNewDistinct(d, s');
      assert s[|s| - 1] !in d + s' by {
        forall i | 0 <= i < |d + s'| ensures (d + s')[i] != s[|s| - 1] {
          assert (d + s)[i] != (d + s)[|d + s| - 1];
        }
      }
    }
  }

  lemma {:induction false} InsertTopKeys(ps: seq<Property>)
    ensures Keys(InsertTop(ps)) == AppendNew([], Names(ps))
  {
    if ps != [] {
      InsertTopKeys(ps[..|ps| - 1]);
      SetKeys(InsertTop(ps[..|ps| - 1]), TopEntry(ps[|ps| - 1]));
      assert Names(ps[..|ps| - 1]) == Names(ps)[..|ps| - 1];
    }
  }

  lemma {:induction false} InsertBottomKeys(m: PropertiesMap, ps: seq<Property>)
    ensures Keys(InsertBottom(m, ps)) == AppendNew(Keys(m), Names(ps))
  {
    if ps != [] {
      InsertBottomKeys(m, ps[..|ps| - 1]);
      AddBottomKeys(InsertBottom(m, ps[..|ps| - 1]), ps[|ps| - 1]);
      assert Names(ps[..|ps| - 1]) == Names(ps)[..|ps| - 1];
    }
  }

  /**
   * One entry per distinct name: the keys of the merged map are the names of
   * the top properties and then of the bottom properties, each once, in
   * order of first occurrence.
   */
  lemma MergeKeys(top: seq<Property>, bottom: seq<Property>)
    ensures Keys(MergeProperties(top, bottom)) == Dedup(Names(top) + Names(bottom))
    ensures Distinct(Keys(MergeProperties(top, bottom)))
    ensures forall k :: k in Keys(MergeProperties(top, bottom)) <==> k in Names(top) || k in Names(bottom)
  {
    InsertTopKeys(top);
    InsertBottomKeys(InsertTop(top), bottom);
    AppendNewConcat([], Names(top), Names(bottom));
    AppendNewMembers([], Names(top) + Names(bottom));
  }

  /** When no name repeats across the two lists, the map has one entry per property. */
  lemma MergeDisjointCount(top: seq<Property>, bottom: seq<Property>)
    requires Distinct(Names(top) + Names(bottom))
    ensures |MergeProperties(top, bottom)| == |top| + |bottom|
  {
    MergeKeys(top, bottom);
    AppendNewDistinct([], Names(top) + Names(bottom));
    assert [] + (Names(top) + Names(bottom)) == Names(top) + Names(bottom);
  }

  lemma {:induction false} InsertTopLookup(ps: seq<Property>, k: string)
    ensures Get(InsertTop(ps), k) == if LastNamed(ps, k).Some? then Some(TopEntry(LastNamed(ps, k).value)) else None
  {
    if ps != [] {
      InsertTopLookup(ps[..|ps| - 1], k);
      SetLookup(InsertTop(ps[..|ps| - 1]), TopEntry(ps[|ps| - 1]));
    }
  }

  lemma {:induction false} InsertBottomLookup(m: PropertiesMap, ps: seq<Property>, k: string)
    ensures Get(InsertBottom(m, ps), k) ==
      match Get(m, k)
      case Some(e) => Some(if LastNamed(ps, k).Some? then e.(bottomProp := LastNamed(ps, k)) else e)
      case None =>
        if LastNamed(ps, k).Some?
        then Some(MapEntry(None, LastNamed(ps, k), FirstNamed(ps, k).value.displayOrder, k))
        else None
  {
    if ps != [] {
      InsertBottomLookup(m, ps[..|ps| - 1], k);
      AddBottomLookup(InsertBottom(m, ps[..|ps| - 1]), ps[|ps| - 1]);
    }
  }

  /**
   * What the merged map holds for a name: the last top property of that name,
   * the last bottom property of that name, and the display order of the top
   * property when there is one, otherwise that of the first bottom property
   * of that name (a later bottom property only replaces `bottomProp`).
   */
  lemma MergeLookup(top: seq<Property>, bottom: seq<Property>, k: string)
    ensures Get(MergeProperties(top, bottom), k) ==
      if LastNamed(top, k).Some? then
        Some(MapEntry(LastNamed(top, k), LastNamed(bottom, k), LastNamed(top, k).value.displayOrder, k))
      else if LastNamed(bottom, k).Some? then
        Some(MapEntry(None, LastNamed(bottom, k), FirstNamed(bottom, k).value.displayOrder, k))
      else None
  {
    InsertTopLookup(top, k);
    InsertBottomLookup(InsertTop(top), bottom, k);
  }

  /** An entry of the merged map has at least one side. */
  predicate HasSide(e: MapEntry) {
    e.topProp.Some? || e.bottomProp.Some?
  }

  /** Number of properties under the sides of an entry. */
  function EntrySize(e: MapEntry): nat {
    (if e.topProp.Some? then Size(e.topProp.value) else 0) +
    (if e.bottomProp.Some? then Size(e.bottomProp.value) else 0)
  }

  /** Every merged entry has a side, drawn from the matching input list. */
  lemma MergeEntries(top: seq<Property>, bottom: seq<Property>)
    ensures forall e | e in MergeProperties(top, bottom) ::
      && HasSide(e)
      && (e.topProp.Some? ==> e.topProp.value in top)
      && (e.bottomProp.Some? ==> e.bottomProp.value in bottom)
      && EntrySize(e) <= SizeOf(top) + SizeOf(bottom)
  {
    var m := MergeProperties(top, bottom);
    MergeKeys(top, bottom);
    forall e | e in m
      ensures HasSide(e)
      ensures e.topProp.Some? ==> e.topProp.value in top
      ensures e.bottomProp.Some? ==> e.bottomProp.value in bottom
      ensures EntrySize(e) <= SizeOf(top) + SizeOf(bottom)
    {
      GetMember(m, e);
      MergeLookup(top, bottom, e.name);
      if e.topProp.Some? {
        SizeOfMember(top, e.topProp.value);
      }
      if e.bottomProp.Some? {
        SizeOfMember(bottom, e.bottomProp.value);
      }
    }
  }
}

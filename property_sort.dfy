/**
 * The three orderings of the merged properties map
 * (sortPropertiesAlphabetically, sortPropertiesByImportance and
 * sortPropertiesReverseAlphabetically). Each copies the entries, sorts them
 * with `Array.prototype.sort`, which is stable, and builds a new map.
 */
module PropertySort {
  import opened Options
  import opened PlanProperties

  /** `!x.displayOrder`: the display order is absent or zero. */
  predicate FalsyOrder(d: Option<int>) {
    d.None? || d.value == 0
  }

  /** `String.prototype.localeCompare`, taken as code-point lexicographic order. */
  function LocaleCompare(a: string, b: string): int
  {
    if a == [] && b == [] then 0
    else if a == [] then -1
    else if b == [] then 1
    else if a[0] < b[0] then -1
    else if b[0] < a[0] then 1
    else LocaleCompare(a[1..], b[1..])
  }

  /** The comparator of sortPropertiesAlphabetically: empty names first. */
  function CompareAlphabetically(a: MapEntry, b: MapEntry): int {
    if a.name == "" && b.name == "" then 0
    else if a.name == "" then -1
    else if b.name == "" then 1
    else LocaleCompare(a.name, b.name)
  }

  /** The comparator of sortPropertiesByImportance: falsy orders first, then ascending. */
  function CompareByImportance(a: MapEntry, b: MapEntry): int {
    if FalsyOrder(a.displayOrder) && FalsyOrder(b.displayOrder) then 0
    else if FalsyOrder(a.displayOrder) then -1
    else if FalsyOrder(b.displayOrder) then 1
    else a.displayOrder.value - b.displayOrder.value
  }

  /** The comparator of sortPropertiesReverseAlphabetically: falsy orders first, then descending order. */
  function CompareReverse(a: MapEntry, b: MapEntry): int {
    if FalsyOrder(a.displayOrder) && FalsyOrder(b.displayOrder) then 0
    else if FalsyOrder(a.displayOrder) then -1
    else if FalsyOrder(b.displayOrder) then 1
    else b.displayOrder.value - a.displayOrder.value
  }

  // ---------------------------------------------------------------------------
  // The comparators are consistent
  // ---------------------------------------------------------------------------

  type Comparator = (MapEntry, MapEntry) -> int

  /**
   * What `Array.prototype.sort` asks of a comparator: swapping the arguments
   * flips the sign, and "not greater" is transitive.
   */
  ghost predicate Consistent(cmp: Comparator) {
    && (forall a, b :: cmp(a, b) < 0 <==> cmp(b, a) > 0)
    && (forall a, b, c :: cmp(a, b) <= 0 && cmp(b, c) <= 0 ==> cmp(a, c) <= 0)
  }

  lemma {:induction false} LocaleCompareConsistent(a: string, b: string)
    ensures LocaleCompare(a, b) == 0 <==> a == b
    ensures LocaleCompare(a, b) == -LocaleCompare(b, a)
    ensures -1 <= LocaleCompare(a, b) <= 1
  {
    if a != [] && b != [] && a[0] == b[0] {
      LocaleCompareConsistent(a[1..], b[1..]);
      if a[1..] == b[1..] {
        assert a == [a[0]] + a[1..] && b == [b[0]] + b[1..];
      }
    }
  }

  lemma {:induction false} LocaleCompareTransitive(a: string, b: string, c: string)
    requires LocaleCompare(a, b) <= 0 && LocaleCompare(b, c) <= 0
    ensures LocaleCompare(a, c) <= 0
  {
    if a != [] && b != [] && c != [] && a[0] == b[0] == c[0] {
      LocaleCompareTransitive(a[1..], b[1..], c[1..]);
    }
  }

  lemma AlphabeticalConsistent()
    ensures Consistent(CompareAlphabetically)
  {
    forall a, b ensures CompareAlphabetically(a, b) < 0 <==> CompareAlphabetically(b, a) > 0 {
      LocaleCompareConsistent(a.name, b.name);
    }
    forall a, b, c | CompareAlphabetically(a, b) <= 0 && CompareAlphabetically(b, c) <= 0
      ensures CompareAlphabetically(a, c) <= 0
    {
      if a.name != "" && b.name != "" && c.name != "" {
        LocaleCompareTransitive(a.name, b.name, c.name);
      }
    }
  }

  lemma ImportanceConsistent()
    ensures Consistent(CompareByImportance)
  {
  }

  lemma ReverseConsistent()
    ensures Consistent(CompareReverse)
  {
  }

  // ---------------------------------------------------------------------------
  // A stable sort
  // ---------------------------------------------------------------------------

  predicate Sorted(cmp: Comparator, s: seq<MapEntry>) {
    forall i, j | 0 <= i < j < |s| :: cmp(s[i], s[j]) <= 0
  }

  /** Inserts `e` after every element of `r` that does not compare greater. */
  function Insert(cmp: Comparator, r: seq<MapEntry>, e: MapEntry): seq<MapEntry>
  {
    if r == [] then [e]
    else if cmp(r[0], e) > 0 then [e] + r
    else [r[0]] + Insert(cmp, r[1..], e)
  }

  lemma {:induction false} InsertPermutation(cmp: Comparator, r: seq<MapEntry>, e: MapEntry)
    ensures multiset(Insert(cmp, r, e)) == multiset(r) + multiset{e}
  {
    if r != [] && cmp(r[0], e) <= 0 {
      InsertPermutation(cmp, r[1..], e);
      assert r == [r[0]] + r[1..];
    }
  }

  /** Insertion sort of `s` by `cmp`, inserting the elements in their order in `s`. */
  function StableSort(cmp: Comparator, s: seq<MapEntry>): seq<MapEntry>
  {
    if s == [] then []
    else Insert(cmp, StableSort(cmp, s[..|s| - 1]), s[|s| - 1])
  }

  /** The sort only reorders: the result holds the elements of `s`, each as often. */
  lemma {:induction false} StableSortPermutation(cmp: Comparator, s: seq<MapEntry>)
    ensures multiset(StableSort(cmp, s)) == multiset(s)
  {
    if s != [] {
      StableSortPermutation(cmp, s[..|s| - 1]);
      InsertPermutation(cmp, StableSort(cmp, s[..|s| - 1]), s[|s| - 1]);
      assert s == s[..|s| - 1] + [s[|s| - 1]];
    }
  }

  lemma SortedCons(cmp: Comparator, h: MapEntry, t: seq<MapEntry>)
    requires Sorted(cmp, t)
    requires forall x | x in t :: cmp(h, x) <= 0
    ensures Sorted(cmp, [h] + t)
  {
    forall i, j | 0 <= i < j < |[h] + t| ensures cmp(([h] + t)[i], ([h] + t)[j]) <= 0 {
      if i == 0 {
        assert ([h] + t)[j] == t[j - 1];
      } else {
        assert ([h] + t)[i] == t[i - 1] && ([h] + t)[j] == t[j - 1];
      }
    }
  }

  lemma SortedHead(cmp: Comparator, r: seq<MapEntry>, x: MapEntry)
    requires Sorted(cmp, r) && x in r
    ensures cmp(r[0], x) <= 0 || x == r[0]
  {
    var j :| 0 <= j < |r| && r[j] == x;
    if j > 0 {
      assert cmp(r[0], r[j]) <= 0;
    }
  }

  lemma SortedTail(cmp: Comparator, r: seq<MapEntry>)
    requires Sorted(cmp, r) && r != []
    ensures Sorted(cmp, r[1..])
  {
    forall i, j | 0 <= i < j < |r[1..]| ensures cmp(r[1..][i], r[1..][j]) <= 0 {
      assert r[1..][i] == r[i + 1] && r[1..][j] == r[j + 1];
    }
  }

  /** An element that compares greater than `e` comes after it, and so does anything after that element. */
  lemma GreaterHead(cmp: Comparator, a: MapEntry, e: MapEntry, x: MapEntry)
    requires Consistent(cmp)
    requires cmp(a, e) > 0 && (x == a || cmp(a, x) <= 0)
    ensures cmp(e, x) <= 0
  {
    assert cmp(e, a) < 0;
  }

  /** The elements after the head of a sorted `r`, with `e` inserted among them, follow the head. */
  lemma {:induction false} InsertHeadBound(cmp: Comparator, r: seq<MapEntry>, e: MapEntry)
    requires Sorted(cmp, r) && r != [] && cmp(r[0], e) <= 0
    ensures forall x | x in Insert(cmp, r[1..], e) :: cmp(r[0], x) <= 0
  {
    InsertPermutation(cmp, r[1..], e);
    forall x | x in Insert(cmp, r[1..], e) ensures cmp(r[0], x) <= 0 {
      assert x in multiset(Insert(cmp, r[1..], e));
      if x != e {
        assert x in r[1..];
        var j :| 0 <= j < |r[1..]| && r[1..][j] == x;
        assert r[j + 1] == x;
      }
    }
  }

  lemma {:induction false} InsertSorted(cmp: Comparator, r: seq<MapEntry>, e: MapEntry)
    requires Consistent(cmp)
    requires Sorted(cmp, r)
    ensures Sorted(cmp, Insert(cmp, r, e))
  {
    if r == [] {
    } else if cmp(r[0], e) > 0 {
      forall x | x in r ensures cmp(e, x) <= 0 {
        SortedHead(cmp, r, x);
        GreaterHead(cmp, r[0], e, x);
      }
      SortedCons(cmp, e, r);
    } else {
      SortedTail(cmp, r);
      InsertSorted(cmp, r[1..], e);
      InsertHeadBound(cmp, r, e);
      SortedCons(cmp, r[0], Insert(cmp, r[1..], e));
    }
  }

  /** The sorted result is ordered by the comparator. */
  lemma {:induction false} StableSortSorted(cmp: Comparator, s: seq<MapEntry>)
    requires Consistent(cmp)
    ensures Sorted(cmp, StableSort(cmp, s))
  {
    if s != [] {
      StableSortSorted(cmp, s[..|s| - 1]);
      InsertSorted(cmp, StableSort(cmp, s[..|s| - 1]), s[|s| - 1]);
    }
  }

  /** The elements of `s` that compare equal to `k`, in their order in `s`. */
  function Equivalents(cmp: Comparator, s: seq<MapEntry>, k: MapEntry): seq<MapEntry>
  {
    if s == [] then []
    else (if cmp(s[0], k) == 0 then [s[0]] else []) + Equivalents(cmp, s[1..], k)
  }

  lemma {:induction false} EquivalentsConcat(cmp: Comparator, a: seq<MapEntry>, b: seq<MapEntry>, k: MapEntry)
    ensures Equivalents(cmp, a + b, k) == Equivalents(cmp, a, k) + Equivalents(cmp, b, k)
  {
    if a == [] {
      assert a + b == b;
    } else {
      assert (a + b)[0] == a[0];
      assert (a + b)[1..] == a[1..] + b;
      EquivalentsConcat(cmp, a[1..], b, k);
    }
  }

  lemma {:induction false} EquivalentsNone(cmp: Comparator, s: seq<MapEntry>, k: MapEntry)
    requires forall x | x in s :: cmp(x, k) != 0
    ensures Equivalents(cmp, s, k) == []
  {
    if s != [] {
      EquivalentsNone(cmp, s[1..], k);
    }
  }

  /** Nothing from an element greater than `e` on compares equal to what `e` compares equal to. */
  lemma AfterGreater(cmp: Comparator, a: MapEntry, e: MapEntry, x: MapEntry, k: MapEntry)
    requires Consistent(cmp)
    requires cmp(a, e) > 0 && cmp(e, k) == 0 && (x == a || cmp(a, x) <= 0)
    ensures cmp(x, k) != 0
  {
    assert cmp(k, e) == 0;
  }

  lemma {:induction false} InsertEquivalents(cmp: Comparator, r: seq<MapEntry>, e: MapEntry, k: MapEntry)
    requires Consistent(cmp)
    requires Sorted(cmp, r)
    ensures Equivalents(cmp, Insert(cmp, r, e), k) ==
      Equivalents(cmp, r, k) + (if cmp(e, k) == 0 then [e] else [])
  {
    if r == [] {
    } else if cmp(r[0], e) > 0 {
      if cmp(e, k) == 0 {
        forall x | x in r ensures cmp(x, k) != 0 {
          SortedHead(cmp, r, x);
          AfterGreater(cmp, r[0], e, x, k);
        }
        EquivalentsNone(cmp, r, k);
      }
      EquivalentsConcat(cmp, [e], r, k);
    } else {
      InsertEquivalents(cmp, r[1..], e, k);
    }
  }

  /** Stability: the elements that compare equal keep their relative order. */
  lemma {:induction false} StableSortStable(cmp: Comparator, s: seq<MapEntry>, k: MapEntry)
    requires Consistent(cmp)
    ensures Equivalents(cmp, StableSort(cmp, s), k) == Equivalents(cmp, s, k)
  {
    if s != [] {
      var front, last := s[..|s| - 1], s[|s| - 1];
      var tail := if cmp(last, k) == 0 then [last] else [];
      assert Equivalents(cmp, [last], k) == tail + Equivalents(cmp, [], k);
      calc {
        Equivalents(cmp, StableSort(cmp, s), k);
        Equivalents(cmp, Insert(cmp, StableSort(cmp, front), last), k);
        { StableSortSorted(cmp, front);
          InsertEquivalents(cmp, StableSort(cmp, front), last, k); }
        Equivalents(cmp, StableSort(cmp, front), k) + tail;
        { StableSortStable(cmp, front, k); }
        Equivalents(cmp, front, k) + Equivalents(cmp, [last], k);
        { EquivalentsConcat(cmp, front, [last], k); }
        Equivalents(cmp, front + [last], k);
        { assert s == front + [last]; }
        Equivalents(cmp, s, k);
      }
    }
  }

  lemma {:induction false} InsertLast(cmp: Comparator, r: seq<MapEntry>, e: MapEntry)
    requires forall x | x in r :: cmp(x, e) <= 0
    ensures Insert(cmp, r, e) == r + [e]
  {
    if r != [] {
      InsertLast(cmp, r[1..], e);
    }
  }

  lemma SortedFront(cmp: Comparator, front: seq<MapEntry>, last: MapEntry)
    requires Sorted(cmp, front + [last])
    ensures Sorted(cmp, front)
    ensures forall x | x in front :: cmp(x, last) <= 0
  {
    var s := front + [last];
    forall i, j | 0 <= i < j < |front| ensures cmp(front[i], front[j]) <= 0 {
      assert front[i] == s[i] && front[j] == s[j];
    }
    forall x | x in front ensures cmp(x, last) <= 0 {
      var j :| 0 <= j < |front| && front[j] == x;
      assert s[j] == x && s[|front|] == last;
    }
  }

  /** Sorting an already sorted sequence leaves it as it is. */
  lemma {:induction false} StableSortSortedFixpoint(cmp: Comparator, s: seq<MapEntry>)
    requires Sorted(cmp, s)
    ensures StableSort(cmp, s) == s
  {
    if s != [] {
      var front, last := s[..|s| - 1], s[|s| - 1];
      assert s == front + [last];
      SortedFront(cmp, front, last);
      calc {
        StableSort(cmp, s);
        Insert(cmp, StableSort(cmp, front), last);
        { StableSortSortedFixpoint(cmp, front); }
        Insert(cmp, front, last);
        { InsertLast(cmp, front, last); }
        front + [last];
      }
    }
  }

  // ---------------------------------------------------------------------------
  // The three sorting functions of the view
  // ---------------------------------------------------------------------------

  /** sortPropertiesAlphabetically: the entries, reordered by CompareAlphabetically. */
  function SortPropertiesAlphabetically(props: PropertiesMap): PropertiesMap
  {
    StableSort(CompareAlphabetically, props)
  }

  /** sortPropertiesByImportance: the entries, reordered by CompareByImportance. */
  function SortPropertiesByImportance(props: PropertiesMap): PropertiesMap
  {
    StableSort(CompareByImportance, props)
  }

  /** sortPropertiesReverseAlphabetically: despite its name, reordered by descending display order, not by name. */
  function SortPropertiesReverseAlphabetically(props: PropertiesMap): PropertiesMap
  {
    StableSort(CompareReverse, props)
  }

  /**
   * Entries with no name come first; the named ones follow in locale order;
   * entries the comparator ties keep their relative order.
   */
  lemma AlphabeticalOrder(props: PropertiesMap)
    ensures var r := SortPropertiesAlphabetically(props);
      && multiset(r) == multiset(props)
      && (forall i, j | 0 <= i < j < |r| :: r[i].name == "" || (r[j].name != "" && LocaleCompare(r[i].name, r[j].name) <= 0))
      && (forall k :: Equivalents(CompareAlphabetically, r, k) == Equivalents(CompareAlphabetically, props, k))
  {
    StableSortPermutation(CompareAlphabetically, props);
    AlphabeticalConsistent();
    StableSortSorted(CompareAlphabetically, props);
    forall k ensures Equivalents(CompareAlphabetically, StableSort(CompareAlphabetically, props), k)
                  == Equivalents(CompareAlphabetically, props, k) {
      StableSortStable(CompareAlphabetically, props, k);
    }
  }

  /**
   * Entries with a falsy display order (none, or 0) come first; the others
   * follow in ascending display order; ties keep their relative order.
   */
  lemma ImportanceOrder(props: PropertiesMap)
    ensures var r := SortPropertiesByImportance(props);
      && multiset(r) == multiset(props)
      && (forall i, j | 0 <= i < j < |r| && FalsyOrder(r[j].displayOrder) :: FalsyOrder(r[i].displayOrder))
      && (forall i, j | 0 <= i < j < |r| && !FalsyOrder(r[i].displayOrder) && !FalsyOrder(r[j].displayOrder) ::
            r[i].displayOrder.value <= r[j].displayOrder.value)
      && (forall k :: Equivalents(CompareByImportance, r, k) == Equivalents(CompareByImportance, props, k))
  {
    StableSortPermutation(CompareByImportance, props);
    ImportanceConsistent();
    StableSortSorted(CompareByImportance, props);
    forall k ensures Equivalents(CompareByImportance, StableSort(CompareByImportance, props), k)
                  == Equivalents(CompareByImportance, props, k) {
      StableSortStable(CompareByImportance, props, k);
    }
  }

  /**
   * Entries with a falsy display order come first; the others follow in
   * descending display order; ties keep their relative order.
   */
  lemma ReverseOrder(props: PropertiesMap)
    ensures var r := SortPropertiesReverseAlphabetically(props);
      && multiset(r) == multiset(props)
      && (forall i, j | 0 <= i < j < |r| && FalsyOrder(r[j].displayOrder) :: FalsyOrder(r[i].displayOrder))
      && (forall i, j | 0 <= i < j < |r| && !FalsyOrder(r[i].displayOrder) && !FalsyOrder(r[j].displayOrder) ::
            r[i].displayOrder.value >= r[j].displayOrder.value)
      && (forall k :: Equivalents(CompareReverse, r, k) == Equivalents(CompareReverse, props, k))
  {
    StableSortPermutation(CompareReverse, props);
    ReverseConsistent();
    StableSortSorted(CompareReverse, props);
    forall k ensures Equivalents(CompareReverse, StableSort(CompareReverse, props), k)
                  == Equivalents(CompareReverse, props, k) {
      StableSortStable(CompareReverse, props, k);
    }
  }
}

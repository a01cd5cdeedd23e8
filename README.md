# Execution-plan comparison properties and the automation element searches

This project models two pieces of Azure Data Studio.

The first is the properties grid of the execution-plan comparison view
(`ExecutionPlanComparisonPropertiesView`). The view compares two plan
elements: the top one and the bottom one. It merges each side's property
list into a map keyed by property name, sorts that map one of three ways,
and emits one grid row per name. After a row come the rows of the nested
properties under it, indented by two more double spaces and linked to it
by its row index (`parent`). `renderView` makes the root call, with no
parent and no indentation.

The second is three helpers of the smoke-test automation driver:

- `findElement` and `findElements` search a snapshot of the DOM breadth
  first, using a queue.
- `poll` retries a probe until its result passes an accept function, or
  gives up after a number of trials.

Modules:

- `Options`: the `Option` datatype.
- `Sequences`: `MapSeq` and small sequence lemmas.
- `PlanProperties`:
  - the property and `TablePropertiesMapEntry` datatypes;
  - the JavaScript `Map`, modelled as a sequence of entries in insertion order;
  - the merge done by the two `forEach` loops, and reference definitions
    (`Names`, `Dedup`, `LastNamed`, `FirstNamed`) it is proved against.
- `PropertySort`:
  - the three comparators;
  - a stable insertion sort standing in for `Array.prototype.sort`;
  - the three sort functions, with permutation, ordering and stability lemmas.
- `PropertyRows`: the function `Rows`, the rows a call of
  `convertPropertiesToTableRows` appends, and what those rows are proved to be:
  - parent links point backwards;
  - a level holds one row per distinct name;
  - each row's values are read from the two lists.
- `PropertiesView`:
  - the view class, with its sort type and line-break helper;
  - the recursive `ConvertPropertiesToTableRows`, which pushes to a shared
    `RowList`, with its two `forEach` loops and the row loop as methods;
  - `RenderView`.
- `ElementSearch`: the DOM node datatype, the queue walk
  (`BreadthFirst`), level order, and the two searches as loops.
- `Poll`: the retry loop.

Points where the model follows the code:

- **Leaf beside leaf.** When both sides of a name hold plain strings, the code
  makes no recursive call (the test at line 206 needs both values nested).
  The model does the same.
- **Line 210 repeats line 206.** An entry whose top value is nested and whose
  bottom value is a string therefore gets no child rows. `BothSidesChildren`
  reproduces the three tests as written, and its contract states what
  actually happens: a two-sided entry recurses exactly when its bottom value
  is nested.
- **"Reverse alphabetical" uses display order.**
  `sortPropertiesReverseAlphabetically` orders by descending display order,
  not by name. The model does the same.
- **Falsy display orders.** A display order that is missing or 0 counts as
  falsy and sorts first in both display-order sorts. An empty name sorts
  first in the alphabetical sort.
- **`displayOrder` of a new entry.** An entry created by a bottom property
  takes that property's display order. A later bottom property of the same
  name replaces only `bottomProp`.

## Model

| member | source | states |
|---|---|---|
| PlanProperties.Get | src/sql/workbench/contrib/executionPlan/browser/executionPlanComparisonPropertiesView.ts:168-169 | `m.get(k)` finds an entry exactly when `k` is a key, and the entry found has that name |
| PlanProperties.SetKeys | src/sql/workbench/contrib/executionPlan/browser/executionPlanComparisonPropertiesView.ts:157 | `Map.set` keeps the key order of an existing key and appends a new key at the end |
| PlanProperties.SetLookup | src/sql/workbench/contrib/executionPlan/browser/executionPlanComparisonPropertiesView.ts:157 | after `set`, the new key yields the new entry and every other key yields what it did before |
| PlanProperties.SetMembers | src/sql/workbench/contrib/executionPlan/browser/executionPlanComparisonPropertiesView.ts:157 | after `set`, every entry is the new one or was already in the map |
| PlanProperties.GetMember | src/sql/workbench/contrib/executionPlan/browser/executionPlanComparisonPropertiesView.ts:168-169 | in a map with distinct keys, every entry is what `get` returns for its own name |
| PlanProperties.AddBottomKeys | src/sql/workbench/contrib/executionPlan/browser/executionPlanComparisonPropertiesView.ts:167-177 | a bottom property leaves the keys alone when its name is present, otherwise it appends its name |
| PlanProperties.AddBottomLookup | src/sql/workbench/contrib/executionPlan/browser/executionPlanComparisonPropertiesView.ts:167-177 | a bottom property becomes `bottomProp` of the entry of its name, or a new entry with no top side; other keys are untouched |
| PlanProperties.InsertTopKeys | src/sql/workbench/contrib/executionPlan/browser/executionPlanComparisonPropertiesView.ts:155-164 | after the top `forEach`, the keys are the distinct top names in first-occurrence order |
| PlanProperties.InsertTopLookup | src/sql/workbench/contrib/executionPlan/browser/executionPlanComparisonPropertiesView.ts:155-164 | after the top `forEach`, a name maps to a top-only entry of the last top property of that name |
| PlanProperties.InsertBottomKeys | src/sql/workbench/contrib/executionPlan/browser/executionPlanComparisonPropertiesView.ts:166-179 | the bottom `forEach` appends the bottom names not yet present, each once, in first-occurrence order |
| PlanProperties.InsertBottomLookup | src/sql/workbench/contrib/executionPlan/browser/executionPlanComparisonPropertiesView.ts:166-179 | after the bottom `forEach`, an existing entry has the last bottom property of its name as `bottomProp`; a new entry has no top side and the first bottom property's display order |
| PlanProperties.MergeKeys | src/sql/workbench/contrib/executionPlan/browser/executionPlanComparisonPropertiesView.ts:153-179 | the merged keys are the top names, then the new bottom names, each once; a name is a key exactly when it is on either side |
| PlanProperties.MergeDisjointCount | src/sql/workbench/contrib/executionPlan/browser/executionPlanComparisonPropertiesView.ts:153-179 | with no repeated name, the map has one entry per property |
| PlanProperties.MergeLookup | src/sql/workbench/contrib/executionPlan/browser/executionPlanComparisonPropertiesView.ts:153-179 | the entry of a name holds the last top and the last bottom property of that name, and the display order of the top side, or else of the first bottom property |
| PlanProperties.MergeEntries | src/sql/workbench/contrib/executionPlan/browser/executionPlanComparisonPropertiesView.ts:239-244 | every merged entry has at least one side, and each side comes from the matching list |
| PlanProperties.AppendNewMembers | src/sql/workbench/contrib/executionPlan/browser/executionPlanComparisonPropertiesView.ts:166-179 | the reference merge of names contains exactly the names of both parts, and keeps distinct names distinct |
| PropertySort.AlphabeticalConsistent | src/sql/workbench/contrib/executionPlan/browser/executionPlanComparisonPropertiesView.ts:111-121 | the alphabetical comparator is antisymmetric and its "not greater" relation is transitive, as `sort` requires |
| PropertySort.ImportanceConsistent | src/sql/workbench/contrib/executionPlan/browser/executionPlanComparisonPropertiesView.ts:125-135 | the importance comparator is antisymmetric and transitive |
| PropertySort.ReverseConsistent | src/sql/workbench/contrib/executionPlan/browser/executionPlanComparisonPropertiesView.ts:139-149 | the reverse comparator is antisymmetric and transitive |
| PropertySort.LocaleCompareConsistent | src/sql/workbench/contrib/executionPlan/browser/executionPlanComparisonPropertiesView.ts:119 | the string comparison flips sign when its arguments swap, and is 0 only for equal strings |
| PropertySort.LocaleCompareTransitive | src/sql/workbench/contrib/executionPlan/browser/executionPlanComparisonPropertiesView.ts:119 | the string comparison's "not greater" is transitive |
| PropertySort.InsertPermutation | src/sql/workbench/contrib/executionPlan/browser/executionPlanComparisonPropertiesView.ts:111 | one insertion step of the sort loses and adds no entry |
| PropertySort.StableSortPermutation | src/sql/workbench/contrib/executionPlan/browser/executionPlanComparisonPropertiesView.ts:111 | sorting the entries is a permutation |
| PropertySort.InsertSorted | src/sql/workbench/contrib/executionPlan/browser/executionPlanComparisonPropertiesView.ts:111 | inserting into a sorted list keeps it sorted |
| PropertySort.StableSortSorted | src/sql/workbench/contrib/executionPlan/browser/executionPlanComparisonPropertiesView.ts:111 | with a consistent comparator, the sorted entries are ordered by it |
| PropertySort.StableSortStable | src/sql/workbench/contrib/executionPlan/browser/executionPlanComparisonPropertiesView.ts:111 | the sort is stable: entries that compare equal keep their relative order |
| PropertySort.StableSortSortedFixpoint | src/sql/workbench/contrib/executionPlan/browser/executionPlanComparisonPropertiesView.ts:111 | sorting an already sorted list changes nothing |
| PropertySort.AlphabeticalOrder | src/sql/workbench/contrib/executionPlan/browser/executionPlanComparisonPropertiesView.ts:110-122 | `sortPropertiesAlphabetically` returns a permutation with unnamed entries first and the rest in name order, stable on ties |
| PropertySort.ImportanceOrder | src/sql/workbench/contrib/executionPlan/browser/executionPlanComparisonPropertiesView.ts:124-136 | `sortPropertiesByImportance` returns a permutation with falsy display orders first and the rest ascending, stable on ties |
| PropertySort.ReverseOrder | src/sql/workbench/contrib/executionPlan/browser/executionPlanComparisonPropertiesView.ts:138-150 | `sortPropertiesReverseAlphabetically` returns a permutation with falsy display orders first and the rest descending, stable on ties |
| PropertyRows.ApplySortPermutation | src/sql/workbench/contrib/executionPlan/browser/executionPlanComparisonPropertiesView.ts:181-191 | every branch of the sort switch only reorders the map, and a sort type without a case leaves it unchanged |
| PropertyRows.Indentation | src/sql/workbench/contrib/executionPlan/browser/executionPlanComparisonPropertiesView.ts:195 | `'  '.repeat(indent)` is `2 * indent` spaces |
| PropertyRows.BothSidesChildren | src/sql/workbench/contrib/executionPlan/browser/executionPlanComparisonPropertiesView.ts:206-212 | the three-way test recurses exactly when the bottom value is nested, on the nested children of both sides |
| PropertyRows.ChildCall | src/sql/workbench/contrib/executionPlan/browser/executionPlanComparisonPropertiesView.ts:201-227 | which recursive call follows an entry's row: a one-sided entry recurses exactly when its value is nested, a two-sided one exactly when its bottom value is; each call is on strictly fewer properties |
| PropertyRows.EntryBlock | src/sql/workbench/contrib/executionPlan/browser/executionPlanComparisonPropertiesView.ts:193-227 | an entry with a side contributes its row first, on its own level; every later row of its block points at an earlier row of the block; the rows under the entry's row (parent `rows.length - 1`) are, up to order, one per distinct name of the nested lists; an entry with no recursive call contributes one row |
| PropertyRows.RowsParents | src/sql/workbench/contrib/executionPlan/browser/executionPlanComparisonPropertiesView.ts:193-227 | every row a call appends points at the call's parent or at an earlier row appended by the same call |
| PropertyRows.LevelRows | src/sql/workbench/contrib/executionPlan/browser/executionPlanComparisonPropertiesView.ts:193-229 | a call's own-level rows are the rows of the sorted merged entries, in sorted order |
| PropertyRows.SortedEntriesLookup | src/sql/workbench/contrib/executionPlan/browser/executionPlanComparisonPropertiesView.ts:181-193 | each sorted entry is the merged map's entry for its own name |
| PropertyRows.HeadRowNamed | src/sql/workbench/contrib/executionPlan/browser/executionPlanComparisonPropertiesView.ts:194-223 | an entry's row carries the values and display order that the two lists give its name |
| PropertyRows.LevelContents | src/sql/workbench/contrib/executionPlan/browser/executionPlanComparisonPropertiesView.ts:152-231 | a call's own-level rows are, up to order, one per distinct name of the two lists, each built from that name's properties |
| PropertyRows.RootRows | src/sql/workbench/contrib/executionPlan/browser/executionPlanComparisonPropertiesView.ts:107 | the root call's rows form a tree with -1 at the root, and the root rows are one per distinct name |
| PropertiesView.RowList.Push | src/sql/workbench/contrib/executionPlan/browser/executionPlanComparisonPropertiesView.ts:205 | `rows.push(row)` appends one row |
| PropertiesView.ExecutionPlanComparisonPropertiesView.AddTopProperties | src/sql/workbench/contrib/executionPlan/browser/executionPlanComparisonPropertiesView.ts:155-164 | the top loop builds the map `InsertTop` describes |
| PropertiesView.ExecutionPlanComparisonPropertiesView.AddBottomProperties | src/sql/workbench/contrib/executionPlan/browser/executionPlanComparisonPropertiesView.ts:166-179 | the bottom loop builds the map `InsertBottom` describes |
| PropertiesView.ExecutionPlanComparisonPropertiesView.AppendEntries | src/sql/workbench/contrib/executionPlan/browser/executionPlanComparisonPropertiesView.ts:193-229 | the loop over the sorted map appends each entry's rows in turn |
| PropertiesView.ExecutionPlanComparisonPropertiesView.AppendEntryRows | src/sql/workbench/contrib/executionPlan/browser/executionPlanComparisonPropertiesView.ts:194-227 | one entry pushes its row, then runs the recursive call with that row's index as parent |
| PropertiesView.ExecutionPlanComparisonPropertiesView.ConvertPropertiesToTableRows | src/sql/workbench/contrib/executionPlan/browser/executionPlanComparisonPropertiesView.ts:152-231 | appends exactly the rows `Rows` describes at the current end of the shared list, and returns that list |
| PropertiesView.ExecutionPlanComparisonPropertiesView.RenderView | src/sql/workbench/contrib/executionPlan/browser/executionPlanComparisonPropertiesView.ts:98-107 | missing elements count as empty lists; the rows form a tree rooted at -1 with one root row per distinct property name |
| ElementSearch.BreadthFirstIsLevelOrder | test/automation/src/code.ts:320-330 | the shift/push queue discipline visits nodes in level order |
| ElementSearch.TreeWalk | test/automation/src/code.ts:320-330 | starting from the root, the walk visits every node of the tree exactly once, root first |
| ElementSearch.FirstMatchFound | test/automation/src/code.ts:322-332 | a first match satisfies the predicate, and there is none exactly when nothing does |
| ElementSearch.FilterCount | test/automation/src/code.ts:339-345 | each node is collected as often as it occurs when it matches, and never otherwise |
| ElementSearch.SearchesAgree | test/automation/src/code.ts:319-350 | `findElement` returns the first result of `findElements`, and `null` exactly when that list is empty |
| ElementSearch.FindElement | test/automation/src/code.ts:319-333 | returns the first match in level order (the root when it matches); `null` exactly when no node of the tree matches |
| ElementSearch.FindElements | test/automation/src/code.ts:335-350 | returns all matches in level order, root first; each node appears as often as in the tree when it matches |
| Poll.Poll | test/automation/src/code.ts:88-122 | returns the first accepted result within `retryCount` trials (200 when the caller passes none); otherwise rejects with `Timeout: ` and the message after exactly that many trials; the `lastError` output is the text logged at line 102: the last failure's reason, or empty when no trial ran |

## Left out

- Columns, `populateTable`, the header elements, `setTopElement` and `setBottomElement`: these are DOM and grid rendering, not logic.
- The `sortType` setter, which re-renders: the sort type is a constant of the view object, and each call reads it.
- `removeLineBreaks(text, ' ')` comes from a string library outside these files. It is an uninterpreted function parameter of the view.
- `isString` is modelled by the leaf/nested shape of a property value, so a value is either a string or a list of properties.
- The rows are records with the five fields the code sets. A key the code does not set is `None`.
- PropertySort.LocaleCompare: `localeCompare` is modelled as code-point lexicographic order, because locale collation rules are outside the model.
- PropertySort.StableSort: `Array.prototype.sort` is modelled as a stable insertion sort. Any stable sort gives the same result with a consistent comparator. The comparators are proved consistent.
- Poll.Poll:
  - the sleep between trials is left out;
  - the logger calls are left out;
  - the seconds figure in the timeout message is left out, because it is floating-point arithmetic;
  - the probe's outcomes are a function from trial number to outcome, so the probe has no side effects across calls;
  - a thrown error's stack is its text, with the `os.EOL` joining of an array stack already applied;
  - an `acceptFn` that throws is not modelled;
  - only rejections with an `Error` whose stack is a string are modelled: a rejection with `null` or `undefined` (whose `e.stack` would throw out of poll) and one with no stack (which leaves `lastError` undefined) are not;
  - `retryCount` is an integer; a fractional count is not modelled.
- PropertySort.FalsyOrder: display orders are integers or absent, so `NaN`, which is also falsy in the source, is not modelled.
- The DOM snapshot (`IElement`) is a finite tree value. The driver call that fetches it lies outside `findElement` and `findElements` and is not modelled.
- Every asynchronous part (`await`, promises) is sequential in the model.

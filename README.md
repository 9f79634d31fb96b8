# antctl display transforms for address groups and network policies

This project is a Dafny model of the display layer that the `antctl` command-line tool uses for
two resource kinds. Once a server response has been decoded, this layer does the following:

- **Address groups** (`pkg/antctl/transform/addressgroup/transform.go`). A decoded list is sorted
  in place by an `Adsorter`, which implements Go's `sort.Interface`. The `sort-by` option picks the
  comparator: creation time for `"CreationTimestamp"`, the name for anything else. Each group is
  then projected into a `Response{Name, Pods}`. A response renders as the header
  `NAME | POD-IPS` and a two-cell row. The pod-IP cell is the list of pod IPs passed through the
  shared summariser.
- **Network policies** (`pkg/antctl/transform/networkpolicy/transform.go`). A response is the
  decoded policy itself. It renders as a six-column header and a six-cell row. An optional
  priority renders as the empty string when it is absent, and as decimal for an `int32`.

Files:

- `common.dfy` (module `Common`): `Option`, the `GroupMember` projection and the `Summarizer`
  type of the shared summariser.
- `decimal.dfy` (module `Decimal`): `IntToString`, which writes decimal as `strconv.Itoa` does,
  and `ParseInt`, which reads it back. They are proved inverse on canonical spellings.
- `addressgroup.dfy` (module `AddressGroupTransform`): the group record, the comparators, the
  `Adsorter` class over an `array`, the in-place insertion sort, `ObjectTransform`,
  `ListTransform` and the response's table methods.
- `networkpolicy.dfy` (module `NetworkPolicyTransform`): the `Priority` variant,
  `PriorityToString` and the response's table functions.

How the model is built:

- `Adsorter` is a class. Its array field is the caller's own array, as the Go slice is, so
  sorting rearranges the caller's list. `Swap` exchanges only the `creationTimestamp` fields, as
  the source does. `Less` is the predicate `Precedes` applied to two records.
- Go's `sort.Sort` algorithm is not specified, so `Sort` is an insertion sort that uses only
  `Len`, `Less` and `Swap`.
- The loops that append to `result` and `pods`, and the indexed loop that fills `list`, are
  methods with loop invariants.
- Go compares strings with `<` byte by byte. For valid UTF-8 this equals code-point order
  (object names are ASCII), so
  `LexLess` compares characters lexicographically. The model proves it is a strict total order.
- A timestamp is an `int`, and `metav1.Time.Before` is `<`.

Code that this layer calls but that is not part of this model becomes a function parameter. The
model asserts nothing about its output. These are:

- `common.GroupMemberPodTransform`: the `project` parameter.
- `common.GenerateTableElementWithSummary`: the `summarize` parameter.
- `SourceRef.ToString`: the `sourceRefToString` parameter.
- `strconv.FormatFloat`: the `formatFloat` parameter.

The wire member, rule and source-reference types are type parameters.

**What the sort actually does to the list:**

- Sorting by name does not reorder the groups. `Adsorter.Swap`
  (`addressgroup/transform.go:81-83`) exchanges only creation times, so names and members never
  move. Under the name comparator the names stay in input order, and only the creation times are
  shuffled.
- Under the timestamp comparator, the creation-time column ends up ascending, but each time is
  reassigned to whatever group sits at that position. `CreationTimeSortExample` shows such an
  instance.
- The responses therefore always follow the input order of names and members, whatever
  "sort-by" says.
- The code's `Response` has no `Nodes` field.

## Model

| member | source | states |
|---|---|---|
| `Decimal.NatToString` | pkg/antctl/transform/networkpolicy/transform.go:41 | The digits of a natural number are a canonical spelling (digits only, no leading zero unless it is "0") whose decimal value is the number. |
| `Decimal.IntToString` | pkg/antctl/transform/networkpolicy/transform.go:41 | The rendering of any integer is canonical: an optional minus sign, then digits with no leading zero. There is never a "-0". |
| `Decimal.ParseIntToString` | pkg/antctl/transform/networkpolicy/transform.go:40-41 | Reading back the decimal form of n gives n. |
| `Decimal.IntToStringOfParse` | pkg/antctl/transform/networkpolicy/transform.go:40-41 | Every canonical spelling reads as an integer whose rendering is that same spelling, so rendering is a bijection onto canonical spellings. |
| `NetworkPolicyTransform.PriorityToString` | pkg/antctl/transform/networkpolicy/transform.go:37-46 | A nil priority gives "". An int32 gives its canonical decimal spelling, which reads back as the value. A float64 gives the float formatter's output. |
| `NetworkPolicyTransform.EmptyCellMeansAbsent` | pkg/antctl/transform/networkpolicy/transform.go:37-41 | Outside the float case, the cell is empty exactly when the priority is absent. The cell reads "0" only for an int32 zero, never for absence. |
| `NetworkPolicyTransform.Response.GetTableHeader` | pkg/antctl/transform/networkpolicy/transform.go:50-52 | The header is NAME, APPLIED-TO, RULES, SOURCE, TIER-PRIORITY, PRIORITY, in that order. |
| `NetworkPolicyTransform.Response.GetTableRow` | pkg/antctl/transform/networkpolicy/transform.go:54-60 | The row has one cell per header column. They are: the name; the summarised applied-to groups; a canonical decimal that reads back as the number of rules; the rendered source reference; the rendered tier priority; the rendered priority. |
| `NetworkPolicyTransform.Response.SortRows` | pkg/antctl/transform/networkpolicy/transform.go:62-64 | Policy rows are never re-sorted by the printer. |
| `AddressGroupTransform.LexLessIrreflexive` | pkg/antctl/transform/addressgroup/transform.go:90 | No name is less than itself under Go's string order. |
| `AddressGroupTransform.LexLessTransitive` | pkg/antctl/transform/addressgroup/transform.go:90 | Go's string order on names is transitive. |
| `AddressGroupTransform.LexLessConnected` | pkg/antctl/transform/addressgroup/transform.go:90 | Of two different names, one is less than the other, so the name comparator is total. |
| `AddressGroupTransform.PrecedesIsStrictOrder` | pkg/antctl/transform/addressgroup/transform.go:85-91 | Under either comparator, `Less` is irreflexive and transitive on records. |
| `AddressGroupTransform.SortByOption` | pkg/antctl/transform/addressgroup/transform.go:35-38 | The sort key is the "sort-by" option when it is present, and "" when it is absent. |
| `AddressGroupTransform.SortOptionSelectsComparator` | pkg/antctl/transform/addressgroup/transform.go:85-91 | Records are compared by creation time exactly when "sort-by" is present and equals "CreationTimestamp". Otherwise, including when the option is absent, they are compared by name. |
| `AddressGroupTransform.SwapTimestamps` | pkg/antctl/transform/addressgroup/transform.go:81-83 | Records i and j exchange creation times. Every name and member list, and every other record, is unchanged. |
| `AddressGroupTransform.SwapTimestampsKeepsTimestamps` | pkg/antctl/transform/addressgroup/transform.go:81-83 | A swap keeps the multiset of creation times. |
| `AddressGroupTransform.Adsorter.constructor` | pkg/antctl/transform/addressgroup/transform.go:39-42 | The sorter shares the caller's array (no copy) and keeps the sort key. |
| `AddressGroupTransform.Adsorter.Len` | pkg/antctl/transform/addressgroup/transform.go:80 | The length is the number of records in the shared list. |
| `AddressGroupTransform.Adsorter.Swap` | pkg/antctl/transform/addressgroup/transform.go:81-83 | The new array contents are the old ones with only the creation times of i and j exchanged. |
| `AddressGroupTransform.Adsorter.Sort` | pkg/antctl/transform/addressgroup/transform.go:43 | Sorting leaves every name and member list at its index. It rearranges the creation times (same multiset). Under the timestamp comparator, the creation times end up ascending. |
| `AddressGroupTransform.CreationTimeSortIsDetermined` | pkg/antctl/transform/addressgroup/transform.go:43 | Any two results that meet Sort's timestamp-comparator contract for the same input are equal, so the outcome does not depend on the sort algorithm. |
| `AddressGroupTransform.CreationTimeSortExample` | pkg/antctl/transform/addressgroup/transform.go:81-88 | Groups x, y, z created at 2, 1, 3 and sorted by creation time come out as x at 1, y at 2, z at 3. Names stay put and times are reassigned. |
| `AddressGroupTransform.Response.GetTableHeader` | pkg/antctl/transform/addressgroup/transform.go:96-98 | The header is NAME, POD-IPS. |
| `AddressGroupTransform.Response.GetPodNames` | pkg/antctl/transform/addressgroup/transform.go:100-106 | The cell is the summariser applied to the pods' IPs. That list has one entry per pod, and entry i is the IP of pod i. |
| `AddressGroupTransform.Response.GetTableRow` | pkg/antctl/transform/addressgroup/transform.go:108-110 | The row has as many cells as the header. The first cell is the name and the second is the pod-IP cell. |
| `AddressGroupTransform.Response.SortRows` | pkg/antctl/transform/addressgroup/transform.go:112-114 | Address-group rows are always re-sorted by the printer. |
| `AddressGroupTransform.ObjectTransform` | pkg/antctl/transform/addressgroup/transform.go:53-60 | The response has the group's name and one projected member per wire member, in order. A group with no members gives an empty pod list. |
| `AddressGroupTransform.ResponseIsUnique` | pkg/antctl/transform/addressgroup/transform.go:53-60 | A group has only one response, so the projection is deterministic. |
| `AddressGroupTransform.ListTransform` | pkg/antctl/transform/addressgroup/transform.go:33-51 | It returns one response per element. Response i is the projection of element i of the sorted list, and equally of the element that was at index i before sorting, so responses follow the input order whatever "sort-by" says. The caller's list keeps its names and members in place, and its creation times are rearranged. They are ascending when "sort-by" is "CreationTimestamp". |

## Left out

- `Transform` (`addressgroup/transform.go:62-70`) and `transform.GenericFactory` are left out.
  The factory decodes an `io.Reader` through reflection, and its code is not part of this model.
- `common.GroupMemberPodTransform`, `common.GenerateTableElementWithSummary`,
  `SourceRef.ToString` and `strconv.FormatFloat` are function parameters. Their code is not part
  of this model, so nothing is stated about what they return.
- The float64 branch of `priorityToString` is only passed to the float formatter. Floating-point
  formatting is not modelled.
- `NPSorter` (`networkpolicy/transform.go:32-35`) is declared but has no methods and is never
  used.
- The type assertions at `addressgroup/transform.go:34` and `:54` panic on a wrong type. Here
  the parameters are typed, so a wrong type cannot be passed. There is no "unexpected kind" error
  path.
- `objectTransform` and `listTransform` always return a nil error. The model returns no error
  value.
- `ListTransform` passes the options to `ObjectTransform`, which ignores them, as the source
  does.
- `objectTransform` leaves `Pods` nil for a group without members, and the model gives `[]`.
  Nothing in this layer tells the two apart.
- Timestamps are unbounded integers, not `time.Time`. `Before` is `<`.
- Under the name comparator, where the creation times end up depends on Go's sort algorithm.
  The model proves only that they are rearranged (same multiset) and that names and members do
  not move. These facts hold for any sort built from `Less` and `Swap`.
- The types of `TierPriority` and `Priority` come from the API types file, which is not part of
  this model. Both are modelled with the three-way `Priority` variant that `priorityToString`
  distinguishes.
- `ParseInt` is a reference reader for `IntToString`. It does not model `strconv.Atoi`'s 64-bit
  range check.
- `Adsorter.Less` has no contract of its own. It applies `Precedes`, whose meaning is stated by
  `SortOptionSelectsComparator` and `PrecedesIsStrictOrder`.

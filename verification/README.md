# Metric tag value selector — option list and paging

A Dafny model of the data logic inside the `MetricTagValueSelect` React
component of HyperDX. The component offers the tag values of one metric in a
searchable dropdown. Two pieces of pure logic sit inside it, and both are
modelled here:

- **Option aggregation** (the `useMemo` body). From the latest tags response
  it takes the first page whose `name` equals the raw `metricName` prop. It
  turns every `[key, value]` entry of every tag record into the string
  `key:"value"`, collects those strings in a JavaScript `Set`, and maps the
  set, in insertion order, to `{value: s, label: s, options: []}`.
- **Paging** (the `pagination` state and the `onMenuScrollToBottom`
  handler). The state starts at `{page: 0, limit: 20, hasMore: true}`. A
  scroll to the bottom of the menu advances `page` by one when `hasMore`
  holds and changes nothing else.

Modules:

- `InsertionOrderedSet` (`ordered_set.dfy`): a JavaScript `Set` of strings
  modelled as the sequence of its elements. `Add` is `Set.prototype.add`.
  `FromSeq` is a fresh set after a series of `add` calls, read back with
  `Array.from`. The lemmas show that the result has no duplicates, holds
  exactly the added elements and lists them in order of first addition.
  They also show that these three properties determine the result.
- `MetricTags` (`metric_tags.dfy`): the response, page, record and menu-entry
  types. `Options` is the declarative definition of the option list.
  `CollectOptions` is the same computation written as the source's nested
  `forEach` loops, proved equal to `Options`.
- `Pagination` (`pagination.dfy`): the paging state and its one transition.

The model follows the code in three details:

- The options are built from the fetch hook's current result alone. The
  component keeps no list of its own across pages.
- Each menu entry also carries the empty `options` field.
- The page filter compares the page name with the raw `metricName`, not
  with the normalised name that is sent to the fetch hook. A response whose
  pages carry the normalised name therefore yields no options unless the two
  names agree.

A tag record is given as the sequence of `[key, value]` pairs that
`Object.entries` enumerates, in that order. The strings are not escaped, so
distinct entries can print the same (`DistinctEntriesCanMerge`). The model
does not claim that the entry-to-string map is injective. It holds only when
keys contain no colon (`CanonicalInjectiveWithoutColon`).

Nothing ever sets `hasMore` to false, and the model keeps it that way.
`HasMoreNeverCleared` states the consequence: from the initial state, the
scroll handler's guard always holds, so every scroll event moves on to the
next page.

## Model

| member | source | states |
|---|---|---|
| InsertionOrderedSet.Add | packages/app/src/MetricTagValueSelect.tsx:46-49 | Adding a present string leaves the set unchanged. Adding a new one appends it at the end. Membership grows by exactly that element and no duplicate appears. |
| InsertionOrderedSet.FromSeq | packages/app/src/MetricTagValueSelect.tsx:46-52 | The set built by a series of `add` calls has no duplicates, contains exactly the added strings and is no longer than the series. |
| InsertionOrderedSet.FromSeqOrder | packages/app/src/MetricTagValueSelect.tsx:46-52 | `Array.from` of the set lists the elements in the order of their first addition. |
| InsertionOrderedSet.FromSeqIsUnique | packages/app/src/MetricTagValueSelect.tsx:46-52 | Any duplicate-free sequence with exactly the added elements, in first-addition order, equals the set's contents, so these properties fully specify it. |
| InsertionOrderedSet.FromSeqIgnoresSeen | packages/app/src/MetricTagValueSelect.tsx:46-51 | Adding more strings that are already present leaves the set's contents unchanged. |
| MetricTags.Entries | packages/app/src/MetricTagValueSelect.tsx:47-50 | A string is among the added strings exactly when it is `key:"value"` for some entry of some tag record. |
| MetricTags.FirstPage | packages/app/src/MetricTagValueSelect.tsx:44 | `filter(...)[0]` is absent exactly when no page has the requested name. Otherwise it is the page at the first index with that name. |
| MetricTags.SelectedTags | packages/app/src/MetricTagValueSelect.tsx:43-45 | The records used are those of the first page named exactly `metricName`. They are empty when the response, its data or such a page is missing. |
| MetricTags.OptionsFromTags | packages/app/src/MetricTagValueSelect.tsx:46-56 | Every entry has `label == value` and empty `options`. No two entries share a value. The values are exactly the records' entry strings, in order of first occurrence. No records give no options. |
| MetricTags.Options | packages/app/src/MetricTagValueSelect.tsx:42-57 | The options are empty when the data is absent or no page matches `metricName`. Otherwise they are built from the first matching page only: a value appears exactly when some entry of that page prints as it. No value appears twice. |
| MetricTags.AddRecord | packages/app/src/MetricTagValueSelect.tsx:48-50 | The inner `forEach` over one record's entries leaves the set equal to the set built from the earlier strings followed by the record's strings. |
| MetricTags.CollectOptions | packages/app/src/MetricTagValueSelect.tsx:42-57 | The loop-based computation (page lookup, nested `forEach` with `Set.add`, `Array.from(...).map`) yields exactly `Options`. |
| MetricTags.RedundantRecordKeepsOptions | packages/app/src/MetricTagValueSelect.tsx:46-52 | Appending a record whose entry strings all appeared before, including an empty record, leaves the options unchanged. |
| MetricTags.OtherMetricsIgnored | packages/app/src/MetricTagValueSelect.tsx:43-45 | Pages for other metric names, placed before or after, never change the options. |
| MetricTags.LaterPagesIgnored | packages/app/src/MetricTagValueSelect.tsx:44 | Once a page named `metricName` exists, later pages, whatever their names, do not change the options. |
| MetricTags.CanonicalInjectiveWithoutColon | packages/app/src/MetricTagValueSelect.tsx:49 | When neither key contains a colon, equal `key:"value"` strings come from equal keys and equal values. |
| MetricTags.DistinctEntriesCanMerge | packages/app/src/MetricTagValueSelect.tsx:49 | The entries `("a:\"b", "c")` and `("a", "b:\"c")` differ but print the same string. Two records holding them yield a single option. |
| MetricTags.DeduplicationExample | packages/app/src/MetricTagValueSelect.tsx:46-56 | Records `{a: "1"}`, `{a: "1"}`, `{b: "2"}` yield exactly the options `a:"1"` and `b:"2"`, in that order. |
| Pagination.ScrollToBottom | packages/app/src/MetricTagValueSelect.tsx:62-68 | `limit` and `hasMore` never change. The page grows by one exactly when `hasMore` holds. The state is unchanged exactly when it does not. |
| Pagination.ScrollTimesEffect | packages/app/src/MetricTagValueSelect.tsx:62-68 | `n` scroll events add `n` to the page when `hasMore` holds and leave the state unchanged otherwise. |
| Pagination.ScrollFromInitial | packages/app/src/MetricTagValueSelect.tsx:23-27 | From the initial state `{0, 20, true}`, `n` scroll events give page `n` with limit 20 and `hasMore` still set. |
| Pagination.PageNeverDecreases | packages/app/src/MetricTagValueSelect.tsx:62-68 | After more scroll events the page is never smaller. |
| Pagination.HasMoreNeverCleared | packages/app/src/MetricTagValueSelect.tsx:63-67 | In every state reachable from the initial one, `hasMore` holds, so the handler's guard never blocks and one more event advances the page by exactly one. |

## Left out

- Rendering: the `Select` widget, `maxMenuHeight`, the class names, and the unused `dropdownOpenWidth`, `dropdownClosedWidth` and `selectProps`. These are display concerns with no data logic.
- The `api.useMetricsTags` query hook. It is a network-backed reactive query, so its latest result is a parameter (`Option<MetricsTagsResponse>`) and its loading flag is not modelled. The fetch arguments are the state's `page` and `limit`, as `PaginationState` holds them.
- `legacyMetricNameToNameAndDataType`. Its source in `./utils` is not part of this model, and its output does not feed the page filter.
- `isLoading`, `value` and `onChange`. They are passed straight to the widget.
- `metricAttribute`. It is accepted but never used.
- Memoisation and React state timing. Several scroll events before a re-render, and stale closures over `pagination`, belong to the UI runtime. `ScrollToBottom` is a pure transition on the current state.
- Pagination.ScrollToBottom: `page` is an unbounded `nat`. JavaScript numbers lose precision above 2^53, which no real session reaches.
- MetricTags.Entries: tag values are strings. A non-string value would go through template-literal conversion, which is not modelled. Records are taken in `Object.entries` enumeration order, so the key reordering JavaScript applies to integer-like keys is assumed done already.
- MetricTags.SelectedTags: the `tags` field of a matching page is always present. The `?? []` fallback is modelled only for a missing response, missing data or no matching page.

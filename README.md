# bevy_metrics_dashboard, modelled in Dafny

This project models the core of `bevy_metrics_dashboard`, a Bevy plugin that
records `metrics`-crate counters, gauges and histograms in a shared registry
and shows them in egui windows. The model covers these parts:

- **The ring buffer** (`ring.dfy`, module `RingBuffer`). The `Ring<T>` that
  every plot keeps its sliding window in. It is a class over a slot vector
  and a cursor. Its contracts are stated against the chronological view
  (`IterChronological`): pushing, shrinking and growing are specified by
  what they do to that view. The slot-level `copy_within`, `fill`,
  `resize` and `truncate` steps are proved to produce it. Growing is
  modelled twice: as written, which `resize` calls, and as corrected in
  "## Findings".
- **Plot data** (`plots.dfy`, module `Plots`):
  - the plot configurations and their defaults;
  - the uniform bucket bounds of a histogram;
  - the binary-search bucketing (`add_value_to_bucket`);
  - the counter plot's ring;
  - the histogram plot's two update modes. With a window size, the
    histogram re-tallies the newest N values held in its ring. Without
    one, it keeps adding every value ever seen.
- **The registry** (`registry.dfy`, module `Registry`):
  - metric keys and description keys;
  - `default_title`;
  - `fuzzy_search_by_name`, with the fuzzy matcher as a parameter;
  - the first-wins `describe_*` recorder calls;
  - clearing the histogram buckets;
  - sorting search results by name.
- **The namespace tree** (`namespace_tree.dfy`, module `NamespaceTree`).
  - The builder that turns name-sorted results into a tree of `::`-separated
    namespaces. The builder's contract is a recursive specification function
    `Level` whose `None` result stands for a Rust slice panic. `Level`
    takes the grouping rule as a parameter: the rule as written, or the
    corrected one from "## Findings". The tree the window shows (`Tree`,
    `TreeFromResults`) is built with the corrected rule.
  - The tree window's refresh cycle.
- **The dashboard window** (`dashboard_window.dfy`, module `Dashboard`):
  - adding plots, with duplicate titles and cached configurations;
  - the global settings;
  - updating every unpaused window;
  - drawing the expanded plots, which applies the linked window size to
    counter and gauge plots;
  - removing the plots whose "Remove" button was clicked, remembering their
    configurations as drawn.
- **The search widgets** (`search_bar.dfy`, module `Search`;
  `finder.dfy`, module `Finder`). Each frame takes the user's edit, polls
  the pending search task, and launches a debounced search 250 ms after the
  last one. Both widgets are classes whose `Draw` is one step of a shared
  specification function `Step`.
- **Shared pieces.**
  - `metric_kind_str` (`lib.dfy`).
  - The external types: `Key`, `MetricKind` and `Unit` (`metrics.dfy`),
    and `Option` (`wrappers.dfy`).
  - A millisecond clock whose `Instant::elapsed` saturates at zero
    (`clock.dfy`).

The clock, whether a background task has finished, the clicked buttons and
the user's edits are parameters of the operations that use them.

## Model

| member | source | states |
|---|---|---|
| Lib.MetricKindStr | src/lib.rs:42-48 | each kind maps to its own name ("counter", "gauge", "histogram"), each of those names identifies its kind, and names are lower-case |
| RingBuffer.Ring.constructor | src/ring.rs:13-18 | a ring of `size` default slots with the cursor on the last slot, so the oldest index is 0 and the chronological view is `size` defaults |
| RingBuffer.Ring.OldestIndex | src/ring.rs:119-121 | the oldest slot is a valid index, the one after the cursor modulo the size |
| RingBuffer.Ring.IterChronological | src/ring.rs:129-139 | the view has one value per slot and ends with the value at the cursor |
| RingBuffer.Ring.ViewIffSlots | src/ring.rs:129-139 | the view is `v` exactly when the slots hold `v` rotated so that its last value sits at the cursor (both directions) |
| RingBuffer.Ring.Size | src/ring.rs:111-113 | the size is the number of slots, and on a valid non-empty ring the cursor is one of them |
| RingBuffer.Ring.Latest | src/ring.rs:115-117 | the latest value is the last value of the chronological view |
| RingBuffer.Ring.Push | src/ring.rs:123-127 | the view loses its oldest value and gains `x` at the end; the size is unchanged, `x` is the latest value, and only the old oldest slot is written |
| RingBuffer.PushSlots | src/ring.rs:123-127 | writing the slot after the cursor lays out the view `v[1..] + [x]` with the cursor on that slot |
| RingBuffer.SlideIsWindow | src/ring.rs:123-127 | pushing `xs` onto a full ring leaves the last `size` values of the old view followed by `xs` |
| RingBuffer.SlideKeepsLastPushed | src/ring.rs:123-127 | once at least `size` values are pushed, the view is exactly the last `size` of them |
| RingBuffer.Ring.Shrink | src/ring.rs:67-102 | shrinking keeps the newest `newSize` values in chronological order; the cursor stays or moves to the new last slot |
| RingBuffer.ShrinkBelowCursorSlots | src/ring.rs:77-87 | with the cursor below the new size, `translate_left` over the dropped slots leaves the newest values laid out around the same cursor |
| RingBuffer.ShrinkPastCursorSlots | src/ring.rs:88-99 | with the cursor at or past the new size, `translate_left` to slot 0 leaves the newest values with the cursor on the new last slot |
| RingBuffer.TranslatedLeft | src/ring.rs:105-109 | `translate_left` copies the `nMove` slots at `dstStart + translate` down to `dstStart` and leaves the slots before and after that block alone |
| RingBuffer.CopiedMovesBlock | src/ring.rs:104-109 | `copy_within` puts the old source block at the destination and leaves the slots before and after it alone |
| RingBuffer.ResizedAppendsDefaults | src/ring.rs:45 | `Vec::resize` keeps the old slots and appends defaults up to the new length |
| RingBuffer.GrowAtEndSlots | src/ring.rs:44-54 | with the cursor on the last slot, growing only appends defaults: the view gains that many defaults at its oldest end |
| RingBuffer.GrowAtEndPrependsDefaults | src/ring.rs:44-54 | growing a ring whose cursor is on the last slot prepends `t` defaults to the view, as written and as corrected |
| RingBuffer.Ring.GrowAsWritten | src/ring.rs:38-65 | the view after `grow` as written is `GrownViewAsWritten` of the old view; size, cursor and latest value as required |
| RingBuffer.GrowSlotsAsWritten | src/ring.rs:56-64 | resize, `copy_within` and `fill(oldest..old_size)` as written lay out `GrownViewAsWritten` |
| RingBuffer.GrownViewAsWrittenShape | src/ring.rs:56-64 | as written, the first `m` positions are all the oldest value; without overlap the old view follows intact, with overlap only its last values survive |
| RingBuffer.GrowAsWrittenOverwritesWhenOverlapping | src/ring.rs:56-64 | `grow` as written agrees with the corrected grow exactly when the shift does not overlap or every overwritten value equals the oldest |
| RingBuffer.GrowAsWrittenLosesValue | src/ring.rs:56-64 | growing a 4-slot ring holding 20,30,40,10 (cursor 0) to 5 slots loses 30 as written; the corrected grow keeps it |
| RingBuffer.Ring.Grow | src/ring.rs:38-65 | growing keeps the whole old view at the newest end, preceded by copies of the oldest value and then defaults; the cursor and the latest value stay |
| RingBuffer.GrowSlots | src/ring.rs:56-64 | resize, `copy_within` and a fill of only the uncovered gap lay out the corrected `GrownView` |
| RingBuffer.GrowKeepsSlotsToCursor | src/ring.rs:44-60 | growing never moves the slots up to the cursor |
| RingBuffer.GrownViewShape | src/ring.rs:38-65 | the corrected grown view is the old view after `min(m, t)` copies of the oldest value and `t - min(m, t)` defaults |
| RingBuffer.Ring.Resize | src/ring.rs:20-65 | the same size changes nothing; size 0 empties the ring; smaller keeps the newest `newSize` values of the view; larger grows through `grow` as written: the view becomes `GrownViewAsWritten` of the old view and the latest value stays |
| Plots.DefaultForKind | src/plots.rs:34-40 | the default configuration has the metric's kind and a window of 500 samples, and a histogram's default bounds are strictly increasing |
| Plots.DefaultBucketConfig | src/plots.rs:172-181 | the default bounds are the 11 bounds of 10 buckets from 0.0 to 10.0, strictly increasing |
| Plots.RangeBounds | src/plots.rs:139-146 | `n_buckets + 1` bounds |
| Plots.RangeBoundsShape | src/plots.rs:139-146 | the bounds start at `min`, end at `max` and are strictly increasing |
| Plots.BucketConfigGetBounds | src/plots.rs:162-170 | `None` exactly when there are no buckets; otherwise `n_buckets + 1` strictly increasing bounds from `min` to `max` |
| Plots.BucketIsInsertionPoint | src/plots.rs:536-540 | the bucket of a value is the binary search's `Ok`/`Err` index: every bound before it is below the value, every bound from it on is at least the value |
| Plots.InsertionPointIsBucket | src/plots.rs:536-540 | that insertion point is unique: any index with that property is the bucket |
| Plots.SearchBucket | src/plots.rs:537-540 | the binary search over sorted bounds returns the value's bucket |
| Plots.AddValueToBucket | src/plots.rs:536-542 | exactly the value's bucket gains one; every other count is unchanged |
| Plots.TallyCountsPerBucket | src/plots.rs:435-447 | after bucketing `xs`, each count is its old count plus the number of values of `xs` in that bucket |
| Plots.TallyTotal | src/plots.rs:435-447 | bucketing `xs` adds exactly `|xs|` to the total count |
| Plots.TallyNeverDecreases | src/plots.rs:438-448 | without a window, no bucket count ever decreases |
| Plots.TallyAppend | src/plots.rs:438-448 | bucketing two blocks one after the other equals bucketing their concatenation |
| Plots.Pulled | src/plots.rs:424-433 | the values taken are the newest `min(n, |block|)` of the block, newest first |
| Plots.PullNewest | src/plots.rs:422-434 | the ring's view after the pull loop is the old view with the newest values pushed, as `Slide` describes |
| Plots.BucketAll | src/plots.rs:435-447 | the bucketing loops compute `Tally` of the values |
| Plots.CounterData.constructor | src/plots.rs:205-212 | the counter plot's ring has the configured window size and holds zeros |
| Plots.CounterData.Update | src/plots.rs:233-236 | the loaded value is pushed: the view drops its oldest sample and ends with the value |
| Plots.CounterData.HandleGlobalConfig | src/plots.rs:214-219 | without a global window size nothing changes; with one it replaces the plot's window size and the ring gets that size: the same size keeps slots and cursor, a smaller one keeps the newest samples of the view, a larger one gives `GrownViewAsWritten` of the view and keeps the latest sample |
| Plots.HistogramData.constructor | src/plots.rs:298-307 | no ring yet, and one zero count per bucket (`|bounds| + 1`) |
| Plots.HistogramData.BarHeights | src/plots.rs:372-382 | one bar per bucket count: `|bounds| + 1` bars, the length `make_bar_chart` asserts |
| Plots.HistogramData.UpdateBoundsFromInput | src/plots.rs:360-370 | with no buckets nothing changes; otherwise the bounds become the range's bounds and the counts are reset to one zero per bucket |
| Plots.HistogramData.Update | src/plots.rs:413-450 | with a window, the ring (created on first use) slides over the newest block values and the counts are a fresh tally of exactly the ring's values, summing to the window size; without a window, the block is tallied onto the old counts |
| Registry.MetricsRegistry.constructor | src/registry.rs:48-52 | an empty registry: no metrics, no histogram blocks, no descriptions |
| Registry.DescriptionKeyFrom | src/registry.rs:137-144 | the description key keeps the name and the kind |
| Registry.DescriptionKeyIgnoresLabels | src/registry.rs:137-144 | two metric keys share a description exactly when they have the same name and kind, whatever their labels |
| Registry.KindIsPartOfIdentity | src/registry.rs:107-111 | the same key registered as two kinds gives two distinct metric keys and two distinct description keys |
| Registry.NatToStringRoundTrip | src/registry.rs:119-121 | the decimal rendering of a count reads back as that count |
| Registry.DefaultTitle | src/registry.rs:118-128 | the title is `name (kind)`, followed by ` n` exactly when `n` duplicates exist, and the digits read back as `n` |
| Registry.DefaultTitleDistinguishesDuplicates | src/registry.rs:118-128 | different duplicate counts give different titles |
| Registry.Lookup | src/registry.rs:72 | the description is found exactly when the key is in the map, and it is the map's value |
| Registry.ResultFor | src/registry.rs:70-73 | a result carries the metric key of that kind and the description looked up under its description key |
| Registry.MatchingMembers | src/registry.rs:68-75 | a result is produced by one visit exactly when its key is visited, is of that kind, matches the input, and carries its description |
| Registry.MatchingAll | src/registry.rs:58-75 | when the matcher accepts every name, the visit produces one result per key |
| Registry.VisitMatching | src/registry.rs:68-75 | the visit appends the matching results, in visiting order, to those gathered so far |
| Registry.SearchSpecMembers | src/registry.rs:63-93 | a result is in the search exactly when its name matches, its key is registered with its kind, and it carries its description |
| Registry.EmptyQueryFindsEverything | src/registry.rs:58-93 | with a matcher that accepts the empty input, the empty search returns every registered metric |
| Registry.MetricsRegistry.FuzzySearchByName | src/registry.rs:63-93 | the results are the counters, then the gauges, then the histograms that match, as `SearchSpec` says |
| Registry.FirstDescriptionWins | src/registry.rs:95-98 | after a series of describe calls, a key keeps its existing description, else gets its first describe's, else stays absent |
| Registry.FirstDescribe | src/registry.rs:95-98 | the first describe call for a key, or none if no call names it |
| Registry.MetricsRegistry.AddDescriptionIfMissing | src/registry.rs:95-98 | the description is inserted only when the key has none; nothing else changes |
| Registry.MetricsRegistry.DescribeCounter | src/registry.rs:194-205 | adds the counter's description if missing |
| Registry.MetricsRegistry.DescribeGauge | src/registry.rs:207-218 | adds the gauge's description if missing |
| Registry.MetricsRegistry.DescribeHistogram | src/registry.rs:220-231 | adds the histogram's description if missing |
| Registry.Cleared | src/registry.rs:252-257 | every histogram keeps its key and its bucket becomes empty |
| Registry.MetricsRegistry.ClearAtomicBuckets | src/registry.rs:252-257 | empties every histogram bucket and changes nothing else |
| Registry.NameLeTotal | src/namespace_tree.rs:163 | any two names are ordered one way or the other |
| Registry.NameLeTrans | src/namespace_tree.rs:163 | name order is transitive |
| Registry.InsertByName | src/namespace_tree.rs:163 | inserting adds exactly that result |
| Registry.InsertByNameKeepsSorted | src/namespace_tree.rs:163 | inserting into a name-sorted list keeps it sorted |
| Registry.ByName | src/namespace_tree.rs:163 | the results sorted by name are a permutation of the input |
| Registry.SortByName | src/search_bar.rs:67-68 | the sort returns the input's results in ascending name order, a permutation of the input |
| NamespaceTree.FindDelim | src/namespace_tree.rs:187-188 | a found split point is followed by `::` |
| NamespaceTree.FindDelimFirst | src/namespace_tree.rs:187-188 | the split point is the first `::`, and no `::` exists when none is found |
| NamespaceTree.AfterLastColonSuffix | src/namespace_tree.rs:211-217 | the leaf's display name is the suffix of the name after its last `:`, and contains no `:` |
| NamespaceTree.Leaf | src/namespace_tree.rs:204-224 | an empty name or one ending in `:` gives no leaf; otherwise a metric node for the result showing the part after the last `:` |
| NamespaceTree.CreateParentNode | src/namespace_tree.rs:229-256 | no children gives nothing; one child is collapsed into `group::child`; more give a namespace. The node holds exactly the children's results, and a tree of branching nodes stays branching |
| NamespaceTree.GroupEnd | src/namespace_tree.rs:191-194 | the group's end is at most the number of results, and at least 1 when the first result starts with the prefix |
| NamespaceTree.GroupEndStops | src/namespace_tree.rs:191-194 | the results before the group end all start with the prefix and the one at the end does not; the search cannot panic when every name reaches the offset |
| NamespaceTree.FirstStep | src/namespace_tree.rs:179-203 | a group step consumes at least one result and moves the path start past the group name and `::` |
| NamespaceTree.DelimitedStep | src/namespace_tree.rs:187-198 | with the delimiter in the group prefix, a step never panics and every name in the group reaches the new path start |
| NamespaceTree.DelimitedNeverPanics | src/namespace_tree.rs:167-227 | with the delimiter in the group prefix, building a level never panics on names that reach the path start |
| NamespaceTree.LevelBranching | src/namespace_tree.rs:167-256 | every namespace node in a built level has at least two children |
| NamespaceTree.LevelKeepsInputOrder | src/namespace_tree.rs:167-227 | the results in a built level appear in input order, each at most once |
| NamespaceTree.TreeFromSortedResultsRecursive | src/namespace_tree.rs:167-227 | the loop-and-recursion builder returns the level `Level` specifies |
| NamespaceTree.Tree | src/namespace_tree.rs:162-165 | the tree of any results is branching and lists a subsequence of the results in name order |
| NamespaceTree.TreeFromResults | src/namespace_tree.rs:162-165 | sorts by name and builds the tree `Tree` specifies |
| NamespaceTree.PrefixWithoutDelimiterPanics | src/namespace_tree.rs:191-194 | as written, a group `g::x` followed by a name `g` + letter makes the builder panic |
| NamespaceTree.GroupWithoutDelimiterPanics | src/namespace_tree.rs:191-194 | `foo::a` and `foob` are sorted, make the builder as written panic, and become two leaves with the corrected prefix |
| NamespaceTree.SiblingGroupSteps | src/namespace_tree.rs:187-198 | for `g::x` then `gh::y`, the group `g` takes both names as written and only the first with the delimiter |
| NamespaceTree.SiblingsMerged | src/namespace_tree.rs:179-227 | as written, `g::x` and `gh::y` build one group `g`: the leaf `x`, then whatever the rest of `gh::y` gives after `g::` |
| NamespaceTree.SiblingsSeparated | src/namespace_tree.rs:179-256 | with the delimiter, `g::x` and `gh::y` become two metric nodes showing their full names |
| NamespaceTree.GroupWithoutDelimiterMisfiles | src/namespace_tree.rs:191-194 | `ab::x` and `abcde::y` are sorted; as written they become a namespace `ab` holding `x` and a metric `e::y`, so the second name is shown under the wrong group; with the corrected prefix they are two metrics |
| NamespaceTree.GroupWithoutDelimiterDrops | src/namespace_tree.rs:191-194 | `ab::x` and `abcd::y` are sorted; as written the remaining `::y` is skipped and only `ab::x` is shown; with the corrected prefix both are |
| NamespaceTree.PrefixWithDelimiterSeparates | src/namespace_tree.rs:191-194 | with the delimiter in the prefix, `g::x` and `g` + letter become two metric nodes showing their full names |
| NamespaceTree.LeadingColonDropped | src/namespace_tree.rs:181-185 | a path starting with `:` is skipped |
| NamespaceTree.GroupThenColonSkipped | src/namespace_tree.rs:181-185 | `g:::x` gives nothing: the part after the group starts with `:` |
| NamespaceTree.NoDelimDropped | src/namespace_tree.rs:204-209 | a name with no `::` that is empty or ends in `:` gives nothing |
| NamespaceTree.DanglingPath | src/namespace_tree.rs:204-209 | `g1::g2::` gives nothing: its leaf ends in `:` and the empty groups collapse away |
| NamespaceTree.LastPartIsLeaf | src/namespace_tree.rs:211-217 | a name ending in `:` + colon-free text shows that text as the leaf |
| NamespaceTree.MalformedNamesYieldNothing | src/namespace_tree.rs:179-224 | the malformed names `edge::case::`, `edge::::case`, `edge:::case`, `::edge`, `::edge::`, `:edge`, `edge:`, `:edge:`, `::`, `:` and the empty name each give an empty tree |
| NamespaceTree.NestedGroupsLevel | src/namespace_tree.rs:229-250 | a single result under two groups collapses into one metric node `g1::g2::leaf` |
| NamespaceTree.FullyCollapsedPath | src/namespace_tree.rs:229-250 | `fully::collapsed::path` alone becomes one metric node showing the full path |
| NamespaceTree.NamespaceTreeWindow.constructor | src/namespace_tree.rs:33-47 | a new window refreshes every 5000 ms, is new, has no task and no roots |
| NamespaceTree.NamespaceTreeWindow.SetRefreshPeriod | src/namespace_tree.rs:60-62 | sets the period and nothing else |
| NamespaceTree.NamespaceTreeWindow.Draw | src/namespace_tree.rs:96-114 | a refresh is spawned when the window is new or more than the period has elapsed; a finished task's tree becomes the roots, an unfinished one is kept |
| Dashboard.DashboardWindow.constructor | src/dashboard_window.rs:47-54 | no plots, no global window size, not paused |
| Dashboard.ConfigFor | src/dashboard_window.rs:156-159 | a cached configuration wins; otherwise the default for the metric's kind |
| Dashboard.NextDuplicateGetsNewTitle | src/dashboard_window.rs:153-162 | adding a plot of a key raises its duplicate count by one, so the next plot of that key gets a different title |
| Dashboard.DashboardWindow.AddPlot | src/dashboard_window.rs:146-167 | appends one plot titled by the number of plots of that key already present, with the cached or default configuration |
| Dashboard.Updated | src/dashboard_window.rs:76-80 | every plot is updated once, in place, and none is added or removed |
| Dashboard.DashboardWindow.UpdatePlots | src/dashboard_window.rs:76-80 | the plots are `Updated` and the configuration is unchanged |
| Dashboard.UpdatePlotsOnAllWindows | src/dashboard_window.rs:67-73 | every unpaused window's plots are updated; paused windows are untouched |
| Dashboard.DashboardWindow.ConfigureUi | src/dashboard_window.rs:170-181 | the pause flag is set; linking axes keeps the old window size or inserts 500, and unlinking clears it |
| Dashboard.ClickedBelow | src/dashboard_window.rs:188-193 | the collected indices are plot indices |
| Dashboard.ClickedBelowDescending | src/dashboard_window.rs:188-193 | the indices are collected in strictly descending order, and an index is collected exactly when its button was clicked |
| Dashboard.Drawn | src/plots.rs:544-614 | drawing a plot replaces a counter's or gauge's window size with the linked one; a histogram, or any plot with nothing linked, is unchanged; name, key, unit, kind and the other settings never change |
| Dashboard.Shown | src/dashboard_window.rs:188-196 | expanded plots are drawn and the others left as they are, one entry per plot |
| Dashboard.Pressed | src/dashboard_window.rs:189-193 | a plot's Remove button counts as pressed exactly when the plot is expanded and the button clicked |
| Dashboard.DrawPass | src/dashboard_window.rs:185-198 | the reverse loop draws exactly the expanded plots (`Shown`) and collects exactly the pressed indices, highest first (`ClickedBelow`) |
| Dashboard.ClickedElements | src/dashboard_window.rs:188-193 | the collected indices are the set of pressed indices |
| Dashboard.RemoveAt | src/dashboard_window.rs:201 | `Vec::remove` leaves one plot fewer |
| Dashboard.KeptRemoveAt | src/dashboard_window.rs:200-201 | removing an index above every chosen one is the same as also choosing it |
| Dashboard.RemoveDescending | src/dashboard_window.rs:200-203 | removing strictly descending indices one by one never goes out of bounds and keeps exactly the plots whose index is not chosen |
| Dashboard.CacheRemovedKeys | src/dashboard_window.rs:200-203 | after removal the cache holds the old keys and the keys of the removed plots |
| Dashboard.CacheRemovedKeepsOthers | src/dashboard_window.rs:200-203 | a cached key of no removed plot keeps its configuration |
| Dashboard.CacheRemovedLastWins | src/dashboard_window.rs:200-203 | among removed plots of one key, the last removed (the lowest index) decides the cached configuration |
| Dashboard.RemoveInOrder | src/dashboard_window.rs:200-203 | the removal loop removes the plots and caches their configurations as `RemoveAll` and `CacheRemoved` say |
| Dashboard.DashboardWindow.DrawPlots | src/dashboard_window.rs:184-204 | the window keeps exactly the plots whose Remove button was not pressed, in order and as drawn under the linked window size, and the cache receives the removed plots' configurations as drawn, in removal order |
| Clock.Elapsed | src/search_bar.rs:74 | the elapsed time since an instant, zero when the clock reads earlier |
| Search.LaunchIff | src/search_bar.rs:74-84 | a search is launched exactly when the input is dirty or was just edited and more than 250 ms passed; the launch resets the time and cleans the input |
| Search.NoLaunchWhenClean | src/search_bar.rs:74-84 | a clean, unedited input launches nothing; only a finishing task changes the task and results |
| Search.EditMarksDirty | src/search_bar.rs:49-51 | an edit replaces the input and leaves it dirty exactly when no search could be launched yet |
| Search.PollHandsOver | src/search_bar.rs:63-72 | a finished task hands over its output (sorted by name for the search bar, as is for the finder); an unfinished task is kept unless a new one replaces it |
| Search.LaunchesAreSpaced | src/search_bar.rs:74-77 | two launches in successive frames are more than 250 ms apart |
| Search.LastTaskWins | src/search_bar.rs:64-83 | a search launched before the previous completes replaces it, and only its output reaches the results |
| Search.SearchBar.constructor | src/search_bar.rs:27-35 | an empty, dirty input with no task and no results |
| Search.SearchBar.Draw | src/search_bar.rs:40-87 | the new state is one `Step`: edit, poll with sorting by name, then maybe launch a search of the edited input |
| Finder.MetricsFinder.constructor | src/finder.rs:24-32 | an empty, dirty input with no task and no results |
| Finder.MetricsFinder.Draw | src/finder.rs:34-79 | the new state is one `Step`: edit, poll without sorting, then maybe launch a search of the edited input |

## Left out

- Drawing with egui:
  - windows, plots, bar geometry and colours;
  - the dropdown that returns the selected result;
  - `draw_recursive`;
  - the rendering part of `draw_plot`: labels, plot lines and bar charts.
  These only render. The clicks, the open collapsing headers and the edits
  they produce are parameters.
  The state change `draw_plot` makes, `handle_global_config` on counter and
  gauge plots, is modelled: on a plot's configuration by
  `Dashboard.Drawn`, and on a counter's ring by
  `Plots.CounterData.HandleGlobalConfig`.
- The window-size widgets: the linked window-size slider
  (src/dashboard_window.rs:176-177) and `configure_ui` on counter, gauge and
  histogram plots (src/plots.rs:221-231, 268-278, 309-357). They do change
  state the core depends on. The linked slider sets the dashboard's global
  window size. A plot's slider resizes a counter's or gauge's ring. The
  histogram's "Sliding Window" checkbox drops its ring and zeroes its
  counts, and its slider recreates the ring. The model takes no input for
  them, so:
  - `Dashboard.DashboardWindow.ConfigureUi` only keeps the old linked size
    or inserts 500, and never sets another value;
  - a counter's or gauge's window changes only through `Dashboard.Drawn`
    and `Plots.CounterData.HandleGlobalConfig`;
  - a histogram's window size never changes, and its ring and counts
    change only through `Plots.HistogramData.Update` and
    `Plots.HistogramData.UpdateBoundsFromInput`.
  The bucket-range inputs of the histogram settings are modelled by their
  effect, `Plots.HistogramData.UpdateBoundsFromInput`, with the range as a
  parameter.
- Dashboard.DashboardWindow.DrawPlots: a drawn plot's ring is not resized, because a dashboard plot is modelled by its configuration only (see `MetricPlot` contents below).
- `GaugeData`, `Smoother` and `derivative` (src/plots.rs:239-288, 620-656): gauge smoothing and derivative plotting are floating-point presentation.
- `BucketRange::clamp_min` and `clamp_max`: UI input clamping with the constant 0.001.
- Floating point: `f64` values are `real`s. NaN, rounding and `FloatOrd`'s treatment of NaN are not modelled.
- Integer widths: `usize`, `u32` and `u64` are unbounded `nat`s, so counter and bucket-count overflow are not modelled.
- Plots.RangeBounds: requires `min < max` and at least one bucket. The source asserts the first and divides by the second.
- Plots.BucketConfigGetBounds: requires the range to be non-empty whenever there are buckets, which the source asserts. The bounds come out strictly increasing, so `sort_unstable_by_key` changes nothing and is left out.
- Plots.HistogramData.UpdateBoundsFromInput: requires the same valid range as `BucketConfigGetBounds`.
- Plots.HistogramData.constructor: requires sorted bounds, which every configuration built by this crate has. It also requires a window size of at least 1.
- Plots.CounterData.constructor: requires a window of at least 1. `Ring::new(0)` underflows `size - 1`.
- RingBuffer.Ring.constructor: requires `size >= 1` for the same underflow. The ring can still be resized to 0.
- RingBuffer.Ring.Grow and RingBuffer.Ring.Resize: growing an empty ring is excluded. `old_size - 1` underflows.
- RingBuffer.Ring.Grow: the corrected grow is not called by `Resize`. `Resize`, and so `Plots.CounterData.HandleGlobalConfig`, grow as written and can lose values (see "## Findings").
- NamespaceTree.Tree and NamespaceTree.TreeFromResults: they build with the corrected group prefix on every input. Where the rule as written would panic, misfile a name under a sibling group or drop it (see "## Findings"), the roots the tree window shows differ from the source's.
- `Ring::set_max_len` and `max_len` (called at src/plots.rs:217, 229 and 426) do not exist in src/ring.rs. They are modelled as `resize` and `size`.
- `MetricKey::title(None, n)` (src/dashboard_window.rs:162) does not exist in src/registry.rs. It is modelled as `default_title(n)` (src/registry.rs:118-128).
- `all_metrics` (src/namespace_tree.rs:101) does not exist in src/registry.rs. The snapshot of all metrics is a parameter of the tree window's `Draw`.
- Background tasks.
  - A spawned search or refresh is modelled by its eventual output, computed when it is spawned, plus a `finished` flag the caller supplies.
  - In the source the task reads the shared registry (an `Arc`) later, so it may see metrics registered in between.
- The fuzzy matcher (`SkimMatcherV2`) is a parameter: a predicate on a name and the input. Scoring is not modelled.
- The order of registry visits: the registry's counters, gauges and histograms are sequences, visited in that order. `metrics_util`'s own order is not modelled.
- `register_counter`, `register_gauge` and `register_histogram` belong to `metrics_util::Registry`. Only the registered key sequences are modelled.
- The histograms' atomic buckets are modelled as sequences of reals. Only clearing them is modelled.
- Registry.ByName: the source sorts with `sort_unstable_by` (namespace tree) or `sort_by` (search bar). This is modelled by a single insertion sort. Its contract is "sorted by name and a permutation", which holds for both. The order among equal names is not modelled.
- `binary_search_by_key`: only its result, the insertion point, is modelled. Which probe it makes is not.
- Name order is by character codes: `str::cmp` compares UTF-8 bytes, which agrees for ASCII names.
- The tree window's and dashboard window's title and egui id counter: display only.
- `MetricPlot` contents inside the dashboard: each plot is modelled by its name, key, unit, configuration and an update counter. Its data is modelled separately by `Plots.CounterData` and `Plots.HistogramData`.
- Bevy `Query`: a sequence of distinct windows. Despawning closed windows is not modelled.
- Dashboard.RemoveAll skips an index past the end instead of panicking like `Vec::remove`. `DrawPlots` never reaches that case, as `RemoveDescending` proves.
- The clock is a millisecond count passed in by the caller.

## Findings

| source | as written | input that shows it | evidently intended | confidence | as-written member | corrected member |
|---|---|---|---|---|---|---|
| src/ring.rs:59-64 | when a ring grows by less than the number of slots after the cursor, `fill(oldest_i..old_size)` overwrites part of the block just shifted right, so old values are lost and the oldest value is duplicated; `resize` and a counter plot's linked window size go through this `grow` | a 4-slot ring holding slots 10,20,30,40 with cursor 0 (view 20,30,40,10) grown to 5 slots: the view becomes 20,20,20,40,10 and 30 is lost | fill only the slots of `oldest_i..old_size` that the shifted block does not cover, `oldest_i..min(old_size, oldest_i + translate)`, so the old view survives at the newest end (20,20,30,40,10). The corrected member fixes only the overwrite: the slots `old_size..oldest_i + translate`, which the shift also leaves uncovered, keep the defaults `resize` wrote, as in the source (slots a,b,c,d with cursor 1 grown to 10 give the view c,c,0,0,0,0,c,d,a,b) | not executed | RingBuffer.Ring.GrowAsWritten, RingBuffer.GrowAsWrittenLosesValue, RingBuffer.Ring.Resize, Plots.CounterData.HandleGlobalConfig | RingBuffer.Ring.Grow, RingBuffer.GrownViewShape |
| src/namespace_tree.rs:193 | the group's extent is found with `starts_with(group_name)` without the `::`, so a sibling name that merely extends the group name is pulled into the group. Sliced past the group name and `::`, it panics when it is too short, is shown under the wrong group when its remainder has a `::`, and disappears when its remainder starts with `:` | the sorted names `foo::a` and `foob`: slicing `foob` at 5 panics. The sorted names `ab::x` and `abcde::y`: the tree shows a namespace `ab` holding `x` and `e::y`. The sorted names `ab::x` and `abcd::y`: the remainder `::y` is skipped and `abcd::y` is missing | group only names that start with `group_name::`, which never panics and keeps each of these names a separate metric | not executed | NamespaceTree.GroupWithoutDelimiterPanics, NamespaceTree.GroupWithoutDelimiterMisfiles, NamespaceTree.GroupWithoutDelimiterDrops | NamespaceTree.DelimitedNeverPanics, NamespaceTree.PrefixWithDelimiterSeparates, NamespaceTree.SiblingsSeparated |

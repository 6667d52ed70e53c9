/**
 * The dashboard window (src/dashboard_window.rs): the list of plots it
 * shows, the plots the user removes, the configurations it remembers for
 * removed plots, and the per-window settings.
 *
 * A plot is a value here: its title, key, unit, configuration and how many
 * times it has pulled data from its source. The configuration cache is a
 * resource shared by every window, so it is passed in and handed back.
 */
module Dashboard {
  import opened Wrappers
  import opened Metrics
  import opened Registry
  import opened Plots

  /** A `MetricPlot`; `updates` counts the calls to `MetricPlot::update`. */
  datatype PlotEntry = PlotEntry(
    name: string,
    key: MetricKey,
    unit: Option<Unit>,
    config: MetricPlotConfig,
    updates: nat)

  /** `DashboardConfig`. */
  datatype DashboardConfig = DashboardConfig(globalWindowSize: Option<nat>, paused: bool)

  /** `CachedPlotConfigs`. */
  type ConfigCache = map<MetricKey, MetricPlotConfig>

  // ---------------------------------------------------------------------
  // Adding a plot.
  // ---------------------------------------------------------------------

  /** How many of `plots` show the metric `key`. */
  function CountKey(plots: seq<PlotEntry>, key: MetricKey): nat
  {
    if plots == [] then 0
    else CountKey(plots[..|plots| - 1], key) + (if plots[|plots| - 1].key == key then 1 else 0)
  }

  /** The configuration a new plot of `key` starts with: the cached one, else the default for its kind. */
  function ConfigFor(cached: ConfigCache, key: MetricKey): (c: MetricPlotConfig)
    ensures key in cached ==> c == cached[key]
    ensures key !in cached ==> c == DefaultForKind(key.kind) && KindOf(c) == key.kind
  {
    if key in cached then cached[key] else DefaultForKind(key.kind)
  }

  /**
   * Every plot of the same metric added one after the other gets its own
   * title: the title of a plot added after `plots` differs from the title
   * of one added after `plots + [e]` when `e` shows the same metric.
   */
  lemma NextDuplicateGetsNewTitle(plots: seq<PlotEntry>, e: PlotEntry)
    ensures CountKey(plots + [e], e.key) == CountKey(plots, e.key) + 1
    ensures DefaultTitle(e.key, CountKey(plots + [e], e.key)) != DefaultTitle(e.key, CountKey(plots, e.key))
  {
    assert (plots + [e])[..|plots|] == plots;
    if DefaultTitle(e.key, CountKey(plots + [e], e.key)) == DefaultTitle(e.key, CountKey(plots, e.key)) {
      DefaultTitleDistinguishesDuplicates(e.key, CountKey(plots + [e], e.key), CountKey(plots, e.key));
    }
  }

  // ---------------------------------------------------------------------
  // Drawing plots.
  // ---------------------------------------------------------------------

  /**
   * What drawing a plot does to it (`draw_plot` calling
   * `handle_global_config`): a linked window size replaces a counter's or
   * a gauge's own; a histogram, and any plot when nothing is linked, is
   * left as it is. Nothing but that window size changes.
   */
  function Drawn(e: PlotEntry, globalWindowSize: Option<nat>): (d: PlotEntry)
    ensures d.name == e.name && d.key == e.key && d.unit == e.unit && d.updates == e.updates
    ensures KindOf(d.config) == KindOf(e.config)
    ensures globalWindowSize.None? || e.config.HistogramPlot? ==> d == e
    ensures globalWindowSize.Some? && e.config.CounterPlot? ==>
      d.config.counter.windowSize == globalWindowSize.value &&
      d.config.counter.derivative == e.config.counter.derivative
    ensures globalWindowSize.Some? && e.config.GaugePlot? ==>
      d.config.gauge.windowSize == globalWindowSize.value &&
      d.config.gauge.smoothingWeight == e.config.gauge.smoothingWeight &&
      d.config.gauge.derivative == e.config.gauge.derivative
  {
    match (globalWindowSize, e.config)
    case (Some(w), CounterPlot(c)) => e.(config := CounterPlot(c.(windowSize := w)))
    case (Some(w), GaugePlot(c)) => e.(config := GaugePlot(c.(windowSize := w)))
    case _ => e
  }

  /** Drawing twice under the same setting is drawing once. */
  lemma DrawnIdempotent(e: PlotEntry, globalWindowSize: Option<nat>)
    ensures Drawn(Drawn(e, globalWindowSize), globalWindowSize) == Drawn(e, globalWindowSize)
  {
  }

  /**
   * The plots after one pass of drawing: a plot whose collapsing header is
   * open (`expanded[i]`) is drawn, the others are not touched.
   */
  function Shown(plots: seq<PlotEntry>, expanded: seq<bool>, globalWindowSize: Option<nat>): (r: seq<PlotEntry>)
    requires |expanded| == |plots|
    ensures |r| == |plots|
    ensures forall i :: 0 <= i < |plots| && !expanded[i] ==> r[i] == plots[i]
    ensures forall i :: 0 <= i < |plots| && expanded[i] ==> r[i] == Drawn(plots[i], globalWindowSize)
  {
    seq(|plots|, i requires 0 <= i < |plots| => if expanded[i] then Drawn(plots[i], globalWindowSize) else plots[i])
  }

  /**
   * Whether each plot's "Remove" button was pressed: the button is inside
   * the collapsing header, so only an expanded plot's click counts.
   */
  function Pressed(expanded: seq<bool>, clicked: seq<bool>): (r: seq<bool>)
    requires |expanded| == |clicked|
    ensures |r| == |clicked|
    ensures forall i :: 0 <= i < |r| ==> (r[i] <==> expanded[i] && clicked[i])
  {
    seq(|clicked|, i requires 0 <= i < |clicked| => expanded[i] && clicked[i])
  }

  // ---------------------------------------------------------------------
  // Removing plots.
  // ---------------------------------------------------------------------

  /**
   * The indices whose "Remove" button was clicked, in the order the
   * reversed iteration over the first `n` plots meets them: descending.
   */
  function ClickedBelow(clicked: seq<bool>, n: nat): (idxs: seq<nat>)
    requires n <= |clicked|
    ensures forall k :: 0 <= k < |idxs| ==> idxs[k] < n
  {
    if n == 0 then [] else (if clicked[n - 1] then [n - 1] else []) + ClickedBelow(clicked, n - 1)
  }

  ghost predicate StrictlyDescending(idxs: seq<nat>)
  {
    forall i, j :: 0 <= i < j < |idxs| ==> idxs[i] > idxs[j]
  }

  /** The clicked indices come strictly descending, each below `n`, and are exactly the clicked ones. */
  lemma {:induction false} ClickedBelowDescending(clicked: seq<bool>, n: nat)
    requires n <= |clicked|
    ensures StrictlyDescending(ClickedBelow(clicked, n))
    ensures forall k: nat :: k in ClickedBelow(clicked, n) <==> k < n && clicked[k]
  {
    if n > 0 {
      ClickedBelowDescending(clicked, n - 1);
      var head: seq<nat> := if clicked[n - 1] then [n - 1] else [];
      var rest := ClickedBelow(clicked, n - 1);
      assert ClickedBelow(clicked, n) == head + rest;
      forall i, j | 0 <= i < j < |head + rest|
        ensures (head + rest)[i] > (head + rest)[j]
      {
        if i < |head| {
          assert (head + rest)[j] == rest[j - |head|];
        }
      }
    }
  }

  /**
   * The first pass of `draw_plots`: walking the plots in reverse, the
   * indices whose "Remove" button was pressed, highest first, and each
   * expanded plot drawn under the window's linked window size.
   */
  method DrawPass(plots: seq<PlotEntry>, expanded: seq<bool>, clicked: seq<bool>, globalWindowSize: Option<nat>)
    returns (drawn: seq<PlotEntry>, removePlots: seq<nat>)
    requires |expanded| == |plots| && |clicked| == |plots|
    ensures drawn == Shown(plots, expanded, globalWindowSize)
    ensures removePlots == ClickedBelow(Pressed(expanded, clicked), |plots|)
  {
    var pressed := Pressed(expanded, clicked);
    drawn := plots;
    removePlots := [];
    var i: nat := |plots|;
    while i > 0
      invariant i <= |plots| && |drawn| == |plots|
      invariant forall k :: 0 <= k < i ==> drawn[k] == plots[k]
      invariant forall k :: i <= k < |plots| ==> drawn[k] == Shown(plots, expanded, globalWindowSize)[k]
      invariant removePlots + ClickedBelow(pressed, i) == ClickedBelow(pressed, |plots|)
    {
      CollectStep(removePlots, pressed, i);
      i := i - 1;
      if expanded[i] {
        if clicked[i] {
          removePlots := removePlots + [i];
        }
        drawn := drawn[i := Drawn(drawn[i], globalWindowSize)];
      }
    }
  }

  /** One step of the reversed walk: index `i - 1` joins the collected indices when clicked. */
  lemma CollectStep(acc: seq<nat>, clicked: seq<bool>, i: nat)
    requires 0 < i <= |clicked|
    ensures acc + ClickedBelow(clicked, i) ==
      (if clicked[i - 1] then acc + [i - 1] else acc) + ClickedBelow(clicked, i - 1)
  {
    if clicked[i - 1] {
      assert acc + ([i - 1] + ClickedBelow(clicked, i - 1)) == acc + [i - 1] + ClickedBelow(clicked, i - 1);
    } else {
      assert [] + ClickedBelow(clicked, i - 1) == ClickedBelow(clicked, i - 1);
    }
  }

  /** The clicked indices collected are the set of clicked indices. */
  lemma ClickedElements(clicked: seq<bool>)
    ensures Elements(ClickedBelow(clicked, |clicked|)) == set i | 0 <= i < |clicked| && clicked[i]
  {
    ClickedBelowDescending(clicked, |clicked|);
  }

  /** `Vec::remove(i)`: the plots without the one at `i`. */
  function RemoveAt(plots: seq<PlotEntry>, i: nat): (r: seq<PlotEntry>)
    requires i < |plots|
    ensures |r| == |plots| - 1
  {
    plots[..i] + plots[i + 1..]
  }

  /** The plots whose index is not in `chosen`, in their order. */
  function Kept(plots: seq<PlotEntry>, chosen: set<nat>): seq<PlotEntry>
  {
    if plots == [] then []
    else Kept(plots[..|plots| - 1], chosen) + (if |plots| - 1 in chosen then [] else [plots[|plots| - 1]])
  }

  /** Indices at or past the end do not matter to `Kept`. */
  lemma {:induction false} KeptIgnoresPastEnd(plots: seq<PlotEntry>, chosen: set<nat>, x: nat)
    requires x >= |plots|
    ensures Kept(plots, chosen + {x}) == Kept(plots, chosen)
  {
    if plots != [] {
      KeptIgnoresPastEnd(plots[..|plots| - 1], chosen, x);
    }
  }

  /** Removing index `i`, above every index already chosen, is choosing `i` too. */
  lemma {:induction false} KeptRemoveAt(plots: seq<PlotEntry>, i: nat, chosen: set<nat>)
    requires i < |plots| && forall c :: c in chosen ==> c < i
    ensures Kept(RemoveAt(plots, i), chosen) == Kept(plots, chosen + {i})
  {
    var last := |plots| - 1;
    var init := plots[..last];
    if i == last {
      assert RemoveAt(plots, i) == init;
      KeptIgnoresPastEnd(init, chosen, i);
    } else {
      var removed := RemoveAt(plots, i);
      assert removed[..|removed| - 1] == RemoveAt(init, i);
      assert removed[|removed| - 1] == plots[last];
      assert |removed| - 1 !in chosen;
      KeptRemoveAt(init, i, chosen);
    }
  }

  /**
   * The plots left after removing `idxs` one after the other (an index past
   * the end, on which `Vec::remove` would panic, is skipped here; the
   * removal in `DrawPlots` never reaches one).
   */
  function RemoveAll(plots: seq<PlotEntry>, idxs: seq<nat>): seq<PlotEntry>
    decreases |idxs|
  {
    if idxs == [] then plots
    else if idxs[0] < |plots| then RemoveAll(RemoveAt(plots, idxs[0]), idxs[1..])
    else RemoveAll(plots, idxs[1..])
  }

  /**
   * Removing strictly descending indices one after the other removes
   * exactly the plots at those indices and keeps the rest in order: each
   * removal leaves the lower indices where they were.
   */
  lemma {:induction false} RemoveDescending(plots: seq<PlotEntry>, idxs: seq<nat>)
    requires StrictlyDescending(idxs) && forall k :: 0 <= k < |idxs| ==> idxs[k] < |plots|
    ensures forall k :: 0 <= k < |idxs| ==> idxs[k] < |plots| - k
    ensures RemoveAll(plots, idxs) == Kept(plots, Elements(idxs))
    decreases |idxs|
  {
    DescendingBound(idxs, |plots|);
    if idxs == [] {
      KeptNothing(plots);
    } else {
      var rest := idxs[1..];
      assert forall k :: 0 <= k < |rest| ==> rest[k] == idxs[k + 1];
      RemoveDescending(RemoveAt(plots, idxs[0]), rest);
      ElementsBelow(rest, idxs[0]);
      KeptRemoveAt(plots, idxs[0], Elements(rest));
      assert Elements(idxs) == Elements(rest) + {idxs[0]};
      assert RemoveAll(plots, idxs) == RemoveAll(RemoveAt(plots, idxs[0]), rest);
    }
  }

  /** The indices in `idxs`. */
  function Elements(idxs: seq<nat>): (r: set<nat>)
    ensures forall k :: k in r <==> k in idxs
  {
    if idxs == [] then {} else {idxs[0]} + Elements(idxs[1..])
  }

  lemma ElementsBelow(idxs: seq<nat>, bound: nat)
    requires forall k :: 0 <= k < |idxs| ==> idxs[k] < bound
    ensures forall c :: c in Elements(idxs) ==> c < bound
  {
  }

  /** A strictly descending sequence below `bound` has its `k`th element below `bound - k`. */
  lemma {:induction false} DescendingBound(idxs: seq<nat>, bound: nat)
    requires StrictlyDescending(idxs) && forall k :: 0 <= k < |idxs| ==> idxs[k] < bound
    ensures forall k :: 0 <= k < |idxs| ==> idxs[k] < bound - k
    decreases |idxs|
  {
    if idxs != [] {
      var rest := idxs[1..];
      assert forall k :: 0 <= k < |rest| ==> rest[k] == idxs[k + 1];
      DescendingBound(rest, idxs[0]);
    }
  }

  lemma {:induction false} KeptNothing(plots: seq<PlotEntry>)
    ensures Kept(plots, {}) == plots
  {
    if plots != [] {
      KeptNothing(plots[..|plots| - 1]);
    }
  }

  /** `plots` holds the same plots as `all` below index `bound`. */
  ghost predicate AgreeBelow(plots: seq<PlotEntry>, all: seq<PlotEntry>, bound: nat)
  {
    forall m :: 0 <= m < bound && m < |plots| ==> m < |all| && plots[m] == all[m]
  }

  /**
   * One removal of `DrawPlots`: the `j`th clicked index is still in range
   * and still holds the plot it held before any removal, and removing it
   * keeps the lower plots in place.
   */
  lemma RemovalStep(all: seq<PlotEntry>, idxs: seq<nat>, j: nat, remaining: seq<PlotEntry>, cache: ConfigCache)
    requires StrictlyDescending(idxs) && forall k :: 0 <= k < |idxs| ==> idxs[k] < |all| - k
    requires j < |idxs| && |remaining| == |all| - j
    requires AgreeBelow(remaining, all, if j == 0 then |all| else idxs[j - 1])
    ensures idxs[j] < |remaining| && remaining[idxs[j]] == all[idxs[j]]
    ensures RemoveAll(remaining, idxs[j..]) == RemoveAll(RemoveAt(remaining, idxs[j]), idxs[j + 1..])
    ensures CacheRemoved(cache, all, idxs[j..]) ==
      CacheRemoved(cache[all[idxs[j]].key := all[idxs[j]].config], all, idxs[j + 1..])
    ensures AgreeBelow(RemoveAt(remaining, idxs[j]), all, idxs[j])
  {
    assert idxs[j..][1..] == idxs[j + 1..];
    assert j > 0 ==> idxs[j - 1] > idxs[j];
  }

  /** Inserting the configuration of each plot at `idxs`, in that order, into the cache. */
  function CacheRemoved(cached: ConfigCache, plots: seq<PlotEntry>, idxs: seq<nat>): ConfigCache
    decreases |idxs|
  {
    if idxs == [] then cached
    else if idxs[0] < |plots| then CacheRemoved(cached[plots[idxs[0]].key := plots[idxs[0]].config], plots, idxs[1..])
    else CacheRemoved(cached, plots, idxs[1..])
  }

  /** After removal the cache holds the keys it held and the keys of the removed plots, and no others. */
  lemma {:induction false} CacheRemovedKeys(cached: ConfigCache, plots: seq<PlotEntry>, idxs: seq<nat>)
    requires forall k :: 0 <= k < |idxs| ==> idxs[k] < |plots|
    ensures forall key :: key in CacheRemoved(cached, plots, idxs) <==>
      key in cached || exists k :: 0 <= k < |idxs| && plots[idxs[k]].key == key
    decreases |idxs|
  {
    if idxs != [] {
      var p := plots[idxs[0]];
      var rest := idxs[1..];
      assert forall k :: 0 <= k < |rest| ==> rest[k] == idxs[k + 1];
      CacheRemovedKeys(cached[p.key := p.config], plots, rest);
      var r := CacheRemoved(cached, plots, idxs);
      assert r == CacheRemoved(cached[p.key := p.config], plots, rest);
      forall key | key in r
        ensures key in cached || exists k :: 0 <= k < |idxs| && plots[idxs[k]].key == key
      {
        if key !in cached && key != p.key {
          var k :| 0 <= k < |rest| && plots[rest[k]].key == key;
          assert plots[idxs[k + 1]].key == key;
        }
      }
      forall key | key in cached || exists k :: 0 <= k < |idxs| && plots[idxs[k]].key == key
        ensures key in r
      {
        if key !in cached && key != p.key {
          var k :| 0 <= k < |idxs| && plots[idxs[k]].key == key;
          assert k > 0 && plots[rest[k - 1]].key == key;
        }
      }
    }
  }

  /** A key that no removed plot shows keeps its cached configuration. */
  lemma {:induction false} CacheRemovedKeepsOthers(cached: ConfigCache, plots: seq<PlotEntry>, idxs: seq<nat>, key: MetricKey)
    requires forall k :: 0 <= k < |idxs| ==> idxs[k] < |plots| && plots[idxs[k]].key != key
    requires key in cached
    ensures key in CacheRemoved(cached, plots, idxs) && CacheRemoved(cached, plots, idxs)[key] == cached[key]
    decreases |idxs|
  {
    if idxs != [] {
      var p := plots[idxs[0]];
      var rest := idxs[1..];
      assert forall k :: 0 <= k < |rest| ==> rest[k] == idxs[k + 1];
      CacheRemovedKeepsOthers(cached[p.key := p.config], plots, rest, key);
    }
  }

  /**
   * A removed plot's key maps to the configuration of the last removed
   * plot with that key (with indices removed highest first: the plot of
   * that metric nearest the top of the window).
   */
  lemma {:induction false} CacheRemovedLastWins(cached: ConfigCache, plots: seq<PlotEntry>, idxs: seq<nat>, k: nat)
    requires forall i :: 0 <= i < |idxs| ==> idxs[i] < |plots|
    requires k < |idxs| && forall l :: k < l < |idxs| ==> plots[idxs[l]].key != plots[idxs[k]].key
    ensures plots[idxs[k]].key in CacheRemoved(cached, plots, idxs)
    ensures CacheRemoved(cached, plots, idxs)[plots[idxs[k]].key] == plots[idxs[k]].config
    decreases |idxs|
  {
    var p := plots[idxs[0]];
    var rest := idxs[1..];
    assert forall i :: 0 <= i < |rest| ==> rest[i] == idxs[i + 1];
    if k > 0 {
      CacheRemovedLastWins(cached[p.key := p.config], plots, rest, k - 1);
    } else {
      CacheRemovedKeepsOthers(cached[p.key := p.config], plots, rest, p.key);
    }
  }

  // ---------------------------------------------------------------------
  // Updating.
  // ---------------------------------------------------------------------

  /** Every plot after one more `update`. */
  function Updated(plots: seq<PlotEntry>): (r: seq<PlotEntry>)
    ensures |r| == |plots|
    ensures forall i :: 0 <= i < |plots| ==>
      r[i] == plots[i].(updates := plots[i].updates + 1)
  {
    if plots == [] then []
    else Updated(plots[..|plots| - 1]) + [plots[|plots| - 1].(updates := plots[|plots| - 1].updates + 1)]
  }

  // ---------------------------------------------------------------------
  // The window.
  // ---------------------------------------------------------------------

  /**
   * `DashboardWindow`. The search bar it embeds is modelled on its own; the
   * title is left out.
   */
  class DashboardWindow {
    var plots: seq<PlotEntry>
    var config: DashboardConfig

    /** `new`: no plots, the default configuration (no linked window size, not paused). */
    constructor ()
      ensures plots == [] && config == DashboardConfig(None, false)
    {
      plots := [];
      config := DashboardConfig(None, false);
    }

    /**
     * `add_plot`: appends one plot of `key`, titled with the number of
     * plots of the same metric already shown, starting from the cached
     * configuration of `key` or the default for its kind.
     */
    method AddPlot(cached: ConfigCache, key: MetricKey, unit: Option<Unit>)
      modifies this
      ensures plots == old(plots) + [PlotEntry(DefaultTitle(key, CountKey(old(plots), key)), key, unit,
                                               ConfigFor(cached, key), 0)]
      ensures CountKey(plots, key) == CountKey(old(plots), key) + 1
      ensures config == old(config)
    {
      var nDuplicates := 0;
      var i := 0;
      while i < |plots|
        invariant i <= |plots|
        invariant nDuplicates == CountKey(plots[..i], key)
      {
        assert plots[..i + 1][..i] == plots[..i];
        if plots[i].key == key {
          nDuplicates := nDuplicates + 1;
        }
        i := i + 1;
      }
      assert plots[..i] == plots;
      var plotConfig := if key in cached then cached[key] else DefaultForKind(key.kind);
      var e := PlotEntry(DefaultTitle(key, nDuplicates), key, unit, plotConfig, 0);
      NextDuplicateGetsNewTitle(plots, e);
      plots := plots + [e];
    }

    /** `update_plots`: one `update` on every plot. */
    method UpdatePlots()
      modifies this
      ensures plots == Updated(old(plots))
      ensures config == old(config)
    {
      var i := 0;
      while i < |plots|
        invariant i <= |plots| && |plots| == |old(plots)|
        invariant forall k :: 0 <= k < i ==> plots[k] == old(plots)[k].(updates := old(plots)[k].updates + 1)
        invariant forall k :: i <= k < |plots| ==> plots[k] == old(plots)[k]
        invariant config == old(config)
      {
        plots := plots[i := plots[i].(updates := plots[i].updates + 1)];
        i := i + 1;
      }
    }

    /**
     * The state part of `configure_ui`: `paused` and `lockChecked` are the
     * two checkboxes after the user's input. A locked window size keeps its
     * value, or starts at 500; an unlocked one is cleared.
     */
    method ConfigureUi(paused: bool, lockChecked: bool)
      modifies this
      ensures config.paused == paused
      ensures lockChecked ==>
        config.globalWindowSize == Some(if old(config.globalWindowSize).Some? then old(config.globalWindowSize).value else 500)
      ensures !lockChecked ==> config.globalWindowSize == None
      ensures plots == old(plots)
    {
      config := config.(paused := paused);
      if lockChecked {
        if config.globalWindowSize.None? {
          config := config.(globalWindowSize := Some(500));
        }
      } else {
        config := config.(globalWindowSize := None);
      }
    }

    /**
     * `draw_plots`. `expanded[i]` says whether plot `i`'s collapsing header
     * is open and `clicked[i]` whether its "Remove" button was clicked.
     * Walking the plots in reverse, each expanded plot is drawn (taking the
     * linked window size) and a press on its button collected; then each
     * collected index is removed in turn and the drawn plot's configuration
     * cached under its key. Exactly the pressed plots go, the rest keep
     * their order, and the cache receives the removed plots' configurations
     * as drawn, lowest index last.
     */
    method DrawPlots(cached: ConfigCache, expanded: seq<bool>, clicked: seq<bool>) returns (newCached: ConfigCache)
      requires |expanded| == |plots| && |clicked| == |plots|
      modifies this
      ensures plots == Kept(Shown(old(plots), expanded, config.globalWindowSize),
                            set i | 0 <= i < |old(plots)| && expanded[i] && clicked[i])
      ensures newCached == CacheRemoved(cached, Shown(old(plots), expanded, config.globalWindowSize),
                                        ClickedBelow(Pressed(expanded, clicked), |old(plots)|))
      ensures config == old(config)
    {
      var drawn, removePlots := DrawPass(plots, expanded, clicked, config.globalWindowSize);
      var pressed := Pressed(expanded, clicked);
      ClickedBelowDescending(pressed, |drawn|);
      RemoveDescending(drawn, removePlots);
      ClickedElements(pressed);
      assert (set i | 0 <= i < |pressed| && pressed[i]) == (set i | 0 <= i < |plots| && expanded[i] && clicked[i]);
      var remaining, cache := RemoveInOrder(drawn, removePlots, cached);
      plots := remaining;
      newCached := cache;
    }
  }

  /**
   * The second pass of `draw_plots`: each collected index, highest first,
   * is removed from the plots and its configuration cached under its key.
   */
  method RemoveInOrder(all: seq<PlotEntry>, removePlots: seq<nat>, cached: ConfigCache)
    returns (remaining: seq<PlotEntry>, cache: ConfigCache)
    requires StrictlyDescending(removePlots) && forall k :: 0 <= k < |removePlots| ==> removePlots[k] < |all| - k
    ensures remaining == RemoveAll(all, removePlots)
    ensures cache == CacheRemoved(cached, all, removePlots)
  {
    remaining := all;
    cache := cached;
    var j := 0;
    while j < |removePlots|
      invariant j <= |removePlots| && |remaining| == |all| - j
      invariant RemoveAll(remaining, removePlots[j..]) == RemoveAll(all, removePlots)
      invariant CacheRemoved(cache, all, removePlots[j..]) == CacheRemoved(cached, all, removePlots)
      invariant AgreeBelow(remaining, all, if j == 0 then |all| else removePlots[j - 1])
    {
      RemovalStep(all, removePlots, j, remaining, cache);
      var plot := remaining[removePlots[j]];
      remaining := RemoveAt(remaining, removePlots[j]);
      cache := cache[plot.key := plot.config];
      j := j + 1;
    }
    assert removePlots[j..] == [];
  }

  /**
   * `update_plots_on_all_windows`: every window that is not paused updates
   * all of its plots once; paused windows are left as they are.
   */
  method UpdatePlotsOnAllWindows(windows: seq<DashboardWindow>)
    requires forall i, j :: 0 <= i < j < |windows| ==> windows[i] != windows[j]
    modifies set w | w in windows
    ensures forall w :: w in windows ==> w.config == old(w.config)
    ensures forall w :: w in windows ==>
      w.plots == if old(w.config.paused) then old(w.plots) else Updated(old(w.plots))
  {
    var i := 0;
    while i < |windows|
      invariant i <= |windows|
      invariant forall w :: w in windows ==> w.config == old(w.config)
      invariant forall k :: 0 <= k < i ==>
        windows[k].plots == if old(windows[k].config.paused) then old(windows[k].plots) else Updated(old(windows[k].plots))
      invariant forall k :: i <= k < |windows| ==> windows[k].plots == old(windows[k].plots)
    {
      if !windows[i].config.paused {
        windows[i].UpdatePlots();
      }
      i := i + 1;
    }
  }
}

/**
 * `MetricsFinder` (src/finder.rs): the same debounced search as the search
 * bar, showing a completed search's results in the order the registry
 * returned them.
 */
module Finder {
  import opened Wrappers
  import opened Registry
  import opened Search
  import opened Clock

  class MetricsFinder {
    var input: string
    var dirty: bool
    var lastSearchTime: nat
    var task: Option<SearchTask>
    var results: seq<SearchResult>

    function State(): SearchState
      reads this
    {
      SearchState(input, dirty, lastSearchTime, task, results)
    }

    /** `new`: an empty, dirty input, no task and no results; the clock reads `now`. */
    constructor (now: nat)
      ensures input == [] && dirty && lastSearchTime == now && task == None && results == []
    {
      input := [];
      dirty := true;
      lastSearchTime := now;
      task := None;
      results := [];
    }

    /**
     * The state part of `draw`: one `Step` of the old state, without
     * sorting the completed task's results.
     */
    method Draw(registry: MetricsRegistry, matcher: (string, string) -> bool, now: nat,
                edit: Option<string>, finished: bool)
      modifies this
      ensures State() == Step(old(State()), now, edit, finished,
                              Found(registry, EditedInput(old(input), edit), matcher), false)
    {
      if edit.Some? {
        input := edit.value;
        dirty := true;
      }
      if task.Some? {
        if finished {
          results := task.value.output;
          task := None;
        }
      }
      if dirty && Elapsed(lastSearchTime, now) > DebounceMs {
        lastSearchTime := now;
        var found := registry.FuzzySearchByName(input, matcher);
        task := Some(SearchTask(input, found));
        dirty := false;
      }
    }
  }
}

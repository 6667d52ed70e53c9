/**
 * The search widgets (src/search_bar.rs, and src/finder.rs, which repeats
 * the same state machine without sorting): a text input, a dirty flag, the
 * time of the last launch, at most one pending search task and the results
 * shown.
 *
 * Each frame, `draw` takes the user's edit, polls the pending task, and
 * launches a new search when the input changed since the last launch and
 * more than 250 ms have passed. The clock is a number of milliseconds
 * passed in by the caller; whether a task has finished is an input too.
 */
module Search {
  import opened Wrappers
  import opened Registry
  import opened Clock

  /** The debounce interval, in milliseconds. */
  const DebounceMs: nat := 250

  /** A spawned `fuzzy_search_by_name`: the input it searches for and what it returns when it completes. */
  datatype SearchTask = SearchTask(input: string, output: seq<SearchResult>)

  /** The fields `SearchBar` and `MetricsFinder` share. */
  datatype SearchState = SearchState(
    input: string,
    dirty: bool,
    lastSearchTime: nat,
    task: Option<SearchTask>,
    results: seq<SearchResult>)

  /** The text edit: a changed input replaces the text and marks it dirty. */
  function Edited(s: SearchState, edit: Option<string>): (e: SearchState)
  {
    if edit.Some? then s.(input := edit.value, dirty := true) else s
  }

  /**
   * Polling the pending task: a finished task hands over its output
   * (ascending by name when `sortByName`) and is gone; an unfinished one
   * stays.
   */
  function Polled(s: SearchState, finished: bool, sortByName: bool): (p: SearchState)
  {
    if s.task.Some? && finished then
      s.(task := None, results := if sortByName then ByName(s.task.value.output) else s.task.value.output)
    else s
  }

  /** A search is due: the input changed since the last launch, and the debounce interval has passed. */
  predicate LaunchDue(s: SearchState, now: nat)
  {
    s.dirty && Elapsed(s.lastSearchTime, now) > DebounceMs
  }

  /** Launching: the new task replaces any pending one, the time is reset and the input is clean. */
  function Launched(s: SearchState, now: nat, found: seq<SearchResult>): (l: SearchState)
  {
    s.(lastSearchTime := now, task := Some(SearchTask(s.input, found)), dirty := false)
  }

  /**
   * One `draw`: edit, then poll, then maybe launch. `found` is what the
   * registry returns for the input after the edit.
   */
  function Step(s: SearchState, now: nat, edit: Option<string>, finished: bool,
                found: seq<SearchResult>, sortByName: bool): SearchState
  {
    var p := Polled(Edited(s, edit), finished, sortByName);
    if LaunchDue(p, now) then Launched(p, now, found) else p
  }

  /** The input after one `draw`. */
  function EditedInput(input: string, edit: Option<string>): (r: string)
    ensures edit.None? ==> r == input
  {
    if edit.Some? then edit.value else input
  }

  /** What the registry returns for `input`. */
  function Found(registry: MetricsRegistry, input: string, matcher: (string, string) -> bool): seq<SearchResult>
    reads registry
  {
    SearchSpec(registry.counters, registry.gauges, registry.histograms, input, matcher, registry.descriptions)
  }

  // ---------------------------------------------------------------------
  // Properties of one frame.
  // ---------------------------------------------------------------------

  /**
   * A search is launched exactly when the input was dirty or has just
   * changed, and more than 250 ms have passed since the last launch; a
   * launch is what moves `lastSearchTime`, to `now`.
   */
  lemma LaunchIff(s: SearchState, now: nat, edit: Option<string>, finished: bool,
                  found: seq<SearchResult>, sortByName: bool)
    ensures var t := Step(s, now, edit, finished, found, sortByName);
      t.lastSearchTime != s.lastSearchTime <==> (s.dirty || edit.Some?) && now > s.lastSearchTime + DebounceMs
    ensures var t := Step(s, now, edit, finished, found, sortByName);
      (s.dirty || edit.Some?) && now > s.lastSearchTime + DebounceMs ==>
        t.lastSearchTime == now && !t.dirty && t.task == Some(SearchTask(EditedInput(s.input, edit), found))
  {
  }

  /**
   * Without a dirty flag and without an edit nothing is launched: the time
   * and the input stay, and the task and the results change only by the
   * pending task completing.
   */
  lemma NoLaunchWhenClean(s: SearchState, now: nat, finished: bool, found: seq<SearchResult>, sortByName: bool)
    requires !s.dirty
    ensures var t := Step(s, now, None, finished, found, sortByName);
      && t.lastSearchTime == s.lastSearchTime && t.input == s.input && !t.dirty
      && (s.task.None? || !finished ==> t.task == s.task && t.results == s.results)
      && (s.task.Some? && finished ==> t.task.None?)
  {
  }

  /**
   * An edit that does not launch leaves the input dirty, so that a later
   * frame launches a search for it.
   */
  lemma EditMarksDirty(s: SearchState, now: nat, text: string, finished: bool,
                       found: seq<SearchResult>, sortByName: bool)
    ensures var t := Step(s, now, Some(text), finished, found, sortByName);
      t.input == text && (t.dirty <==> now <= s.lastSearchTime + DebounceMs)
  {
  }

  /**
   * A finished task hands over exactly its output: for the search bar, the
   * same results ascending by name; for the finder, as they came. An
   * unfinished task is kept unless a newer one replaces it.
   */
  lemma PollHandsOver(s: SearchState, now: nat, edit: Option<string>, finished: bool,
                      found: seq<SearchResult>, sortByName: bool)
    requires s.task.Some?
    ensures var t := Step(s, now, edit, finished, found, sortByName);
      finished ==>
        && (sortByName ==> SortedByName(t.results) && multiset(t.results) == multiset(s.task.value.output))
        && (!sortByName ==> t.results == s.task.value.output)
    ensures var t := Step(s, now, edit, finished, found, sortByName);
      !finished ==> t.results == s.results && (t.task == s.task || t.lastSearchTime == now)
  {
  }

  // ---------------------------------------------------------------------
  // Properties of several frames.
  // ---------------------------------------------------------------------

  /** Two launches in successive frames are more than 250 ms apart. */
  lemma LaunchesAreSpaced(s: SearchState, now1: nat, edit1: Option<string>, finished1: bool, found1: seq<SearchResult>,
                          now2: nat, edit2: Option<string>, finished2: bool, found2: seq<SearchResult>, sortByName: bool)
    ensures var s1 := Step(s, now1, edit1, finished1, found1, sortByName);
      var s2 := Step(s1, now2, edit2, finished2, found2, sortByName);
      s1.lastSearchTime != s.lastSearchTime && s2.lastSearchTime != s1.lastSearchTime ==>
        s1.lastSearchTime == now1 && s2.lastSearchTime == now2 && now2 > now1 + DebounceMs
  {
  }

  /**
   * The last task wins: when a second search is launched before the first
   * completes, the first is dropped and its output never reaches the
   * results; the results then come from the second.
   */
  lemma LastTaskWins(s: SearchState, now1: nat, text1: string, found1: seq<SearchResult>,
                     now2: nat, text2: string, found2: seq<SearchResult>,
                     now3: nat, found3: seq<SearchResult>, sortByName: bool)
    requires now1 > s.lastSearchTime + DebounceMs && now2 > now1 + DebounceMs
    ensures var s1 := Step(s, now1, Some(text1), false, found1, sortByName);
      var s2 := Step(s1, now2, Some(text2), false, found2, sortByName);
      var s3 := Step(s2, now3, None, true, found3, sortByName);
      && s1.task == Some(SearchTask(text1, found1))
      && s2.task == Some(SearchTask(text2, found2))
      && s3.results == (if sortByName then ByName(found2) else found2)
  {
  }

  // ---------------------------------------------------------------------
  // The widget.
  // ---------------------------------------------------------------------

  /** `SearchBar`: a search box whose results are shown ascending by name. */
  class SearchBar {
    var input: string
    var dirty: bool
    var lastSearchTime: nat
    var task: Option<SearchTask>
    var results: seq<SearchResult>

    function State(): SearchState
      reads this
    {
      SearchState(input, dirty, lastSearchTime, task, results)
    }

    /** `new`: an empty, dirty input, no task and no results; the clock reads `now`. */
    constructor (now: nat)
      ensures input == [] && dirty && lastSearchTime == now && task == None && results == []
    {
      input := [];
      dirty := true;
      lastSearchTime := now;
      task := None;
      results := [];
    }

    /**
     * The state part of `draw`: `edit` is the text after the user's edit,
     * if it changed; `finished` says whether the pending task has
     * completed. The new state is one `Step` of the old one.
     */
    method Draw(registry: MetricsRegistry, matcher: (string, string) -> bool, now: nat,
                edit: Option<string>, finished: bool)
      modifies this
      ensures State() == Step(old(State()), now, edit, finished,
                              Found(registry, EditedInput(old(input), edit), matcher), true)
    {
      if edit.Some? {
        input := edit.value;
        dirty := true;
      }
      if task.Some? {
        if finished {
          results := SortByName(task.value.output);
          task := None;
        }
      }
      if dirty && Elapsed(lastSearchTime, now) > DebounceMs {
        lastSearchTime := now;
        var found := registry.FuzzySearchByName(input, matcher);
        task := Some(SearchTask(input, found));
        dirty := false;
      }
    }
  }
}

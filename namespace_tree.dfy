/**
 * The namespace tree (src/namespace_tree.rs): metric names split on "::"
 * into nested groups, built from the name-sorted search results, and the
 * window that rebuilds it every refresh period.
 *
 * Names are byte strings; they are modelled as ASCII `seq<char>`, so every
 * offset is a character boundary. Where the Rust code would panic on an
 * out-of-range slice, the specification function returns `None`.
 */
module NamespaceTree {
  import opened Wrappers
  import opened Registry
  import opened Clock

  /** `NamespaceNode`. */
  datatype Node =
    | Namespace(display: string, children: seq<Node>)
    | Metric(display: string, result: SearchResult)

  /**
   * Which results join the group of the first one. `AsWritten`: those whose
   * remaining path starts with the group name, as the code tests it.
   * `Delimited`: those whose remaining path starts with the group name and
   * the delimiter, which is what the recursion's new offset assumes.
   */
  datatype GroupRule = AsWritten | Delimited

  const Delim: string := "::"

  predicate StartsWith(s: string, prefix: string)
  {
    |prefix| <= |s| && s[..|prefix|] == prefix
  }

  /** `split_once("::")`: the offset of the first delimiter, if any. */
  function FindDelim(s: string): (i: Option<nat>)
    ensures i.Some? ==> i.value + 2 <= |s| && s[i.value] == ':' && s[i.value + 1] == ':'
    decreases |s|
  {
    if |s| < 2 then None
    else if s[0] == ':' && s[1] == ':' then Some(0)
    else match FindDelim(s[1..])
      case None => None
      case Some(k) => Some(k + 1)
  }

  /** `FindDelim` finds the first delimiter, and finds none only when there is none. */
  lemma {:induction false} FindDelimFirst(s: string)
    ensures FindDelim(s).Some? ==>
      forall j :: 0 <= j < FindDelim(s).value ==> !(s[j] == ':' && s[j + 1] == ':')
    ensures FindDelim(s).None? ==> forall j :: 0 <= j < |s| - 1 ==> !(s[j] == ':' && s[j + 1] == ':')
    decreases |s|
  {
    if |s| >= 2 && !(s[0] == ':' && s[1] == ':') {
      FindDelimFirst(s[1..]);
    }
  }

  /** `rsplit_once(':')` keeping the end, or the whole string: the longest colon-free suffix. */
  function AfterLastColon(s: string): (t: string)
    decreases |s|
  {
    if s == [] then []
    else if s[|s| - 1] == ':' then []
    else AfterLastColon(s[..|s| - 1]) + [s[|s| - 1]]
  }

  /** `AfterLastColon(s)` is the suffix of `s` after its last ':', all of `s` when it has none. */
  lemma {:induction false} AfterLastColonSuffix(s: string)
    ensures |AfterLastColon(s)| <= |s| && s[|s| - |AfterLastColon(s)|..] == AfterLastColon(s)
    ensures ':' !in AfterLastColon(s)
    ensures |AfterLastColon(s)| < |s| ==> s[|s| - |AfterLastColon(s)| - 1] == ':'
    decreases |s|
  {
    if s != [] && s[|s| - 1] != ':' {
      var init := s[..|s| - 1];
      AfterLastColonSuffix(init);
      var t := AfterLastColon(init);
      assert AfterLastColon(s) == t + [s[|s| - 1]];
      assert s[|s| - |t| - 1..] == init[|init| - |t|..] + [s[|s| - 1]];
    }
  }

  /**
   * A result whose remaining path has no delimiter: no node when its full
   * name is empty or ends with ':', otherwise a `Metric` showing the last
   * ':'-separated component of the full name.
   */
  function Leaf(r: SearchResult): (n: Option<Node>)
    ensures n.None? <==> NameOf(r) == [] || NameOf(r)[|NameOf(r)| - 1] == ':'
    ensures n.Some? ==> n.value.Metric? && n.value.result == r
    ensures n.Some? ==> n.value.display == AfterLastColon(NameOf(r))
  {
    var name := NameOf(r);
    if name == [] || name[|name| - 1] == ':' then None
    else Some(Metric(AfterLastColon(name), r))
  }

  /** The results of a tree, depth first: the `result` of every `Metric`. */
  function NodeResults(n: Node): seq<SearchResult>
    decreases n
  {
    match n
    case Metric(_, r) => [r]
    case Namespace(_, cs) => ResultsOf(cs)
  }

  function ResultsOf(ns: seq<Node>): seq<SearchResult>
    decreases ns
  {
    if ns == [] then [] else NodeResults(ns[0]) + ResultsOf(ns[1..])
  }

  /** Every `Namespace` in the tree has at least two children. */
  ghost predicate Branching(n: Node)
    decreases n
  {
    match n
    case Metric(_, _) => true
    case Namespace(_, cs) => |cs| >= 2 && forall c :: c in cs ==> Branching(c)
  }

  /**
   * `create_parent_node`: no node for an empty group, the single child
   * renamed "group::child" for a group of one, and a `Namespace` otherwise.
   * It keeps the children's results and the branching invariant.
   */
  function CreateParentNode(group: string, children: seq<Node>): (n: Option<Node>)
    ensures n.None? <==> children == []
    ensures |children| >= 2 ==> n == Some(Namespace(group, children))
    ensures |children| == 1 ==>
      && n.Some?
      && n.value.display == group + Delim + children[0].display
      && n.value.Namespace? == children[0].Namespace?
      && (n.value.Namespace? ==> n.value.children == children[0].children)
      && (n.value.Metric? ==> n.value.result == children[0].result)
    ensures n.Some? ==> NodeResults(n.value) == ResultsOf(children)
    ensures n.Some? && (forall c :: c in children ==> Branching(c)) ==> Branching(n.value)
  {
    if |children| == 0 then None
    else if |children| == 1 then
      var child := children[0];
      assert children == [child] && ResultsOf(children) == NodeResults(child) + ResultsOf([]);
      assert child in children;
      match child
      case Namespace(display, grandchildren) => Some(Namespace(group + Delim + display, grandchildren))
      case Metric(display, result) => Some(Metric(group + Delim + display, result))
    else Some(Namespace(group, children))
  }

  /** Adds a node in front of `rest` when there is one. */
  function Prepend(n: Option<Node>, rest: seq<Node>): (r: seq<Node>)
    ensures ResultsOf(r) == (if n.Some? then NodeResults(n.value) else []) + ResultsOf(rest)
    ensures forall c :: c in r ==> c in rest || (n.Some? && c == n.value)
  {
    if n.Some? then
      assert ([n.value] + rest)[1..] == rest;
      [n.value] + rest
    else rest
  }

  function MaxNameLen(rs: seq<SearchResult>): (m: nat)
    ensures rs != [] ==> |NameOf(rs[0])| <= m
    decreases |rs|
  {
    if rs == [] then 0
    else
      var m := MaxNameLen(rs[1..]);
      if |NameOf(rs[0])| > m then |NameOf(rs[0])| else m
  }

  /** How far the offset can still grow before it passes every name. */
  function Depth(rs: seq<SearchResult>, p: nat): nat
  {
    if p <= MaxNameLen(rs) then MaxNameLen(rs) - p else 0
  }

  function GroupPrefix(group: string, rule: GroupRule): string
  {
    match rule
    case AsWritten => group
    case Delimited => group + Delim
  }

  /**
   * The `position` scan for the end of the group: the index of the first
   * result whose remaining path does not start with `prefix`, or `|rs|`;
   * `None` when the scan slices a name shorter than the offset first.
   */
  function GroupEnd(rs: seq<SearchResult>, p: nat, prefix: string): (e: Option<nat>)
    ensures e.Some? ==> e.value <= |rs|
    ensures e.Some? && rs != [] && p <= |NameOf(rs[0])| && StartsWith(NameOf(rs[0])[p..], prefix) ==>
      e.value >= 1
    decreases |rs|
  {
    if rs == [] then Some(0)
    else if |NameOf(rs[0])| < p then None
    else if !StartsWith(NameOf(rs[0])[p..], prefix) then Some(0)
    else match GroupEnd(rs[1..], p, prefix)
      case None => None
      case Some(k) => Some(k + 1)
  }

  /**
   * `GroupEnd` stops at the first result that does not start with the
   * prefix, and does not panic when every name reaches the offset.
   */
  lemma {:induction false} GroupEndStops(rs: seq<SearchResult>, p: nat, prefix: string)
    ensures GroupEnd(rs, p, prefix).Some? ==> forall k :: 0 <= k < GroupEnd(rs, p, prefix).value ==>
      p <= |NameOf(rs[k])| && StartsWith(NameOf(rs[k])[p..], prefix)
    ensures GroupEnd(rs, p, prefix).Some? && GroupEnd(rs, p, prefix).value < |rs| ==>
      p <= |NameOf(rs[GroupEnd(rs, p, prefix).value])| &&
      !StartsWith(NameOf(rs[GroupEnd(rs, p, prefix).value])[p..], prefix)
    ensures ReachOffset(rs, p) ==> GroupEnd(rs, p, prefix).Some?
    decreases |rs|
  {
    if rs != [] && p <= |NameOf(rs[0])| && StartsWith(NameOf(rs[0])[p..], prefix) {
      GroupEndStops(rs[1..], p, prefix);
    }
  }

  /** Names no shorter than the offset: slicing any of them there is in range. */
  ghost predicate ReachOffset(rs: seq<SearchResult>, p: nat)
  {
    forall k :: 0 <= k < |rs| ==> p <= |NameOf(rs[k])|
  }

  /** What one turn of the builder's loop does with the first remaining result. */
  datatype Step =
    | Panic                                            // a name is sliced past its end
    | Skip                                             // the remaining path starts with ':'
    | LeafStep                                         // the remaining path has no delimiter
    | GroupStep(group: string, end: nat, offset: nat)  // `rs[..end]` recurse at `offset`

  /**
   * The first turn of the loop on a non-empty `rs`. A group holds at least
   * the first result, and its offset is past `p` and within the first name.
   * Under `Delimited`, names that reach `p` never panic and the group's
   * names reach its new offset.
   */
  function FirstStep(rs: seq<SearchResult>, p: nat, rule: GroupRule): (s: Step)
    requires rs != []
    ensures s.GroupStep? ==> 1 <= s.end <= |rs| && p < s.offset <= MaxNameLen(rs)
    ensures s.GroupStep? ==> s.offset == p + |s.group| + |Delim|
  {
    var name := NameOf(rs[0]);
    if |name| < p then Panic
    else
      var path := name[p..];
      if path != [] && path[0] == ':' then Skip
      else match FindDelim(path)
        case None => LeafStep
        case Some(i) =>
          var group := path[..i];
          assert path[..i + 2] == group + Delim;
          match GroupEnd(rs, p, GroupPrefix(group, rule))
          case None => Panic
          case Some(e) => GroupStep(group, e, p + i + 2)
  }

  /** Under `Delimited`, names that reach `p` never panic and a group's names reach its new offset. */
  lemma DelimitedStep(rs: seq<SearchResult>, p: nat)
    requires rs != [] && ReachOffset(rs, p)
    ensures !FirstStep(rs, p, Delimited).Panic?
    ensures FirstStep(rs, p, Delimited).GroupStep? ==>
      ReachOffset(rs[..FirstStep(rs, p, Delimited).end], FirstStep(rs, p, Delimited).offset)
  {
    var name := NameOf(rs[0]);
    var path := name[p..];
    if !(path != [] && path[0] == ':') && FindDelim(path).Some? {
      var i := FindDelim(path).value;
      var prefix := GroupPrefix(path[..i], Delimited);
      GroupEndStops(rs, p, prefix);
      assert path[..i + 2] == prefix;
      var e := GroupEnd(rs, p, prefix).value;
      forall k | 0 <= k < e
        ensures p + i + 2 <= |NameOf(rs[k])|
      {
        assert StartsWith(NameOf(rs[k])[p..], prefix);
      }
    }
  }

  /** Pushes the node, if any, in front of the rest of the level. */
  function AddNode(n: Option<Node>, rest: Option<seq<Node>>): Option<seq<Node>>
  {
    if rest.None? then None else Some(Prepend(n, rest.value))
  }

  /** A group's parent node in front of the rest of the level. */
  function AddGroup(group: string, children: Option<seq<Node>>, rest: Option<seq<Node>>): Option<seq<Node>>
  {
    if children.None? then None else AddNode(CreateParentNode(group, children.value), rest)
  }

  /**
   * `tree_from_sorted_results_recursive(rs, p)` under the given group rule:
   * the nodes it returns, or `None` where it would slice a name at an
   * offset past its end.
   */
  function Level(rs: seq<SearchResult>, p: nat, rule: GroupRule): Option<seq<Node>>
    decreases |rs|, Depth(rs, p)
  {
    if rs == [] then Some([])
    else match FirstStep(rs, p, rule)
      case Panic => None
      case Skip => Level(rs[1..], p, rule)
      case LeafStep => AddNode(Leaf(rs[0]), Level(rs[1..], p, rule))
      case GroupStep(group, e, q) =>
        assert e == |rs| ==> rs[..e] == rs;
        AddGroup(group, Level(rs[..e], q, rule), Level(rs[e..], p, rule))
  }

  /** With the delimiter in the membership test, the builder never slices past a name. */
  lemma {:induction false} DelimitedNeverPanics(rs: seq<SearchResult>, p: nat)
    requires ReachOffset(rs, p)
    ensures Level(rs, p, Delimited).Some?
    decreases |rs|, Depth(rs, p)
  {
    if rs != [] {
      DelimitedStep(rs, p);
      match FirstStep(rs, p, Delimited)
      case Skip =>
        DelimitedNeverPanics(rs[1..], p);
      case LeafStep =>
        DelimitedNeverPanics(rs[1..], p);
      case GroupStep(group, e, q) =>
        assert e == |rs| ==> rs[..e] == rs;
        DelimitedNeverPanics(rs[..e], q);
        DelimitedNeverPanics(rs[e..], p);
    }
  }

  /** Every `Namespace` the builder makes has at least two children, at every depth. */
  lemma {:induction false} LevelBranching(rs: seq<SearchResult>, p: nat, rule: GroupRule)
    requires Level(rs, p, rule).Some?
    ensures forall n :: n in Level(rs, p, rule).value ==> Branching(n)
    decreases |rs|, Depth(rs, p)
  {
    if rs != [] {
      match FirstStep(rs, p, rule)
      case Panic =>
      case Skip =>
        LevelBranching(rs[1..], p, rule);
      case LeafStep =>
        LevelBranching(rs[1..], p, rule);
      case GroupStep(group, e, q) =>
        assert e == |rs| ==> rs[..e] == rs;
        LevelBranching(rs[..e], q, rule);
        LevelBranching(rs[e..], p, rule);
    }
  }

  /** `xs` is `ys` with some elements left out, the rest in their order. */
  ghost predicate IsSubseq<T>(xs: seq<T>, ys: seq<T>)
    decreases |ys|
  {
    xs == [] || (ys != [] && ((xs[0] == ys[0] && IsSubseq(xs[1..], ys[1..])) || IsSubseq(xs, ys[1..])))
  }

  lemma {:induction false} SubseqOfLonger<T>(xs: seq<T>, front: seq<T>, ys: seq<T>)
    requires IsSubseq(xs, ys)
    ensures IsSubseq(xs, front + ys)
    decreases |front|
  {
    if front == [] {
      assert front + ys == ys;
    } else {
      SubseqOfLonger(xs, front[1..], ys);
      assert (front + ys)[1..] == front[1..] + ys;
    }
  }

  lemma {:induction false} SubseqConcat<T>(a: seq<T>, b: seq<T>, c: seq<T>, d: seq<T>)
    requires IsSubseq(a, b) && IsSubseq(c, d)
    ensures IsSubseq(a + c, b + d)
    decreases |b|
  {
    if a == [] {
      SubseqOfLonger(c, b, d);
      assert a + c == c;
    } else {
      assert (b + d)[1..] == b[1..] + d;
      if a[0] == b[0] && IsSubseq(a[1..], b[1..]) {
        SubseqConcat(a[1..], b[1..], c, d);
        assert (a + c)[1..] == a[1..] + c;
      } else {
        SubseqConcat(a, b[1..], c, d);
      }
    }
  }

  /**
   * The `Metric` results of the tree, depth first, are the input results
   * with some left out and the rest in input order: every metric node holds
   * an input result, no input appears twice, and the order is kept.
   */
  lemma {:induction false} LevelKeepsInputOrder(rs: seq<SearchResult>, p: nat, rule: GroupRule)
    requires Level(rs, p, rule).Some?
    ensures IsSubseq(ResultsOf(Level(rs, p, rule).value), rs)
    decreases |rs|, Depth(rs, p)
  {
    if rs != [] {
      match FirstStep(rs, p, rule)
      case Panic =>
      case Skip =>
        LevelKeepsInputOrder(rs[1..], p, rule);
        SkipKeepsOrder(rs, p, rule);
      case LeafStep =>
        LevelKeepsInputOrder(rs[1..], p, rule);
        LeafKeepsOrder(rs, p, rule);
      case GroupStep(group, e, q) =>
        assert e == |rs| ==> rs[..e] == rs;
        LevelKeepsInputOrder(rs[..e], q, rule);
        LevelKeepsInputOrder(rs[e..], p, rule);
        GroupKeepsOrder(rs, p, rule, group, e, q);
    }
  }

  lemma SkipKeepsOrder(rs: seq<SearchResult>, p: nat, rule: GroupRule)
    requires rs != [] && FirstStep(rs, p, rule) == Skip && Level(rs, p, rule).Some?
    requires IsSubseq(ResultsOf(Level(rs[1..], p, rule).value), rs[1..])
    ensures IsSubseq(ResultsOf(Level(rs, p, rule).value), rs)
  {
    assert Level(rs, p, rule) == Level(rs[1..], p, rule);
  }

  lemma LeafKeepsOrder(rs: seq<SearchResult>, p: nat, rule: GroupRule)
    requires rs != [] && FirstStep(rs, p, rule) == LeafStep && Level(rs, p, rule).Some?
    requires IsSubseq(ResultsOf(Level(rs[1..], p, rule).value), rs[1..])
    ensures IsSubseq(ResultsOf(Level(rs, p, rule).value), rs)
  {
    LevelOfLeaf(rs, p, rule);
    var rest := ResultsOf(Level(rs[1..], p, rule).value);
    if Leaf(rs[0]).Some? {
      assert ResultsOf(Level(rs, p, rule).value) == [rs[0]] + rest;
      assert ([rs[0]] + rest)[1..] == rest;
    }
  }

  /** A group's parent node holds exactly its children's results. */
  lemma AddGroupResults(group: string, children: seq<Node>, rest: seq<Node>)
    ensures AddGroup(group, Some(children), Some(rest)).Some?
    ensures ResultsOf(AddGroup(group, Some(children), Some(rest)).value) == ResultsOf(children) + ResultsOf(rest)
  {
    var parent := CreateParentNode(group, children);
    if parent.None? {
      assert ResultsOf(children) == [];
    }
  }

  lemma GroupKeepsOrder(rs: seq<SearchResult>, p: nat, rule: GroupRule, group: string, e: nat, q: nat)
    requires rs != [] && FirstStep(rs, p, rule) == GroupStep(group, e, q) && Level(rs, p, rule).Some?
    requires IsSubseq(ResultsOf(Level(rs[..e], q, rule).value), rs[..e])
    requires IsSubseq(ResultsOf(Level(rs[e..], p, rule).value), rs[e..])
    ensures IsSubseq(ResultsOf(Level(rs, p, rule).value), rs)
  {
    LevelOfGroup(rs, p, rule, group, e, q);
    var children := Level(rs[..e], q, rule).value;
    var rest := Level(rs[e..], p, rule).value;
    AddGroupResults(group, children, rest);
    SubseqConcat(ResultsOf(children), rs[..e], ResultsOf(rest), rs[e..]);
    assert rs[..e] + rs[e..] == rs;
  }


  lemma PushOntoLevel(all: seq<Node>, nodes: seq<Node>, n: Option<Node>, rest: seq<Node>)
    requires all == nodes + Prepend(n, rest)
    ensures all == (if n.Some? then nodes + [n.value] else nodes) + rest
  {
  }

  // One turn of the builder's loop, stated in the terms the loop computes.

  lemma TurnReaches(rs: seq<SearchResult>, p: nat, rule: GroupRule)
    requires rs != [] && Level(rs, p, rule).Some?
    ensures p <= |NameOf(rs[0])|
  {
  }

  lemma SkipTurn(rs: seq<SearchResult>, p: nat, rule: GroupRule, path: string)
    requires rs != [] && p <= |NameOf(rs[0])| && path == NameOf(rs[0])[p..]
    requires path != [] && path[0] == ':'
    ensures Level(rs, p, rule) == Level(rs[1..], p, rule)
  {
    assert FirstStep(rs, p, rule) == Skip;
  }

  lemma LeafTurn(rs: seq<SearchResult>, p: nat, rule: GroupRule, path: string)
    requires rs != [] && p <= |NameOf(rs[0])| && path == NameOf(rs[0])[p..]
    requires !(path != [] && path[0] == ':') && FindDelim(path).None?
    ensures Level(rs, p, rule) == AddNode(Leaf(rs[0]), Level(rs[1..], p, rule))
  {
    assert FirstStep(rs, p, rule) == LeafStep;
  }

  lemma GroupTurnEnds(rs: seq<SearchResult>, p: nat, rule: GroupRule, path: string, group: string)
    requires rs != [] && Level(rs, p, rule).Some? && p <= |NameOf(rs[0])| && path == NameOf(rs[0])[p..]
    requires !(path != [] && path[0] == ':') && FindDelim(path).Some?
    requires group == path[..FindDelim(path).value]
    ensures GroupEnd(rs, p, GroupPrefix(group, rule)).Some?
  {
  }

  lemma GroupTurn(rs: seq<SearchResult>, p: nat, rule: GroupRule, path: string, group: string, e: nat, q: nat)
    requires rs != [] && p <= |NameOf(rs[0])| && path == NameOf(rs[0])[p..]
    requires !(path != [] && path[0] == ':') && FindDelim(path).Some?
    requires group == path[..FindDelim(path).value]
    requires GroupEnd(rs, p, GroupPrefix(group, rule)) == Some(e) && q == p + |group| + |Delim|
    ensures FirstStep(rs, p, rule) == GroupStep(group, e, q)
    ensures Level(rs, p, rule) == AddGroup(group, Level(rs[..e], q, rule), Level(rs[e..], p, rule))
  {
    assert FirstStep(rs, p, rule) == GroupStep(group, e, q);
  }

  /**
   * `tree_from_sorted_results_recursive`: the loop over the remaining
   * results, recursing into each group. Its precondition is that the
   * recursion never slices a name past its end.
   */
  method TreeFromSortedResultsRecursive(results: seq<SearchResult>, pathStart: nat, rule: GroupRule)
    returns (nodes: seq<Node>)
    requires Level(results, pathStart, rule).Some?
    ensures nodes == Level(results, pathStart, rule).value
    decreases |results|, Depth(results, pathStart)
  {
    nodes := [];
    var rs := results;
    while rs != []
      invariant |rs| <= |results| && (|rs| == |results| ==> rs == results)
      invariant Level(rs, pathStart, rule).Some?
      invariant Level(results, pathStart, rule).value == nodes + Level(rs, pathStart, rule).value
      decreases |rs|
    {
      var first := rs[0];
      TurnReaches(rs, pathStart, rule);
      var path := NameOf(first)[pathStart..];
      if path != [] && path[0] == ':' {
        SkipTurn(rs, pathStart, rule, path);
        rs := rs[1..];
      } else {
        var split := FindDelim(path);
        if split.Some? {
          var group := path[..split.value];
          GroupTurnEnds(rs, pathStart, rule, path, group);
          var groupEnd := GroupEnd(rs, pathStart, GroupPrefix(group, rule)).value;
          var newPathStart := pathStart + |group| + |Delim|;
          GroupTurn(rs, pathStart, rule, path, group, groupEnd, newPathStart);
          assert groupEnd == |rs| ==> rs[..groupEnd] == rs;
          ghost var rest := Level(rs[groupEnd..], pathStart, rule);
          var children := TreeFromSortedResultsRecursive(rs[..groupEnd], newPathStart, rule);
          var parent := CreateParentNode(group, children);
          PushOntoLevel(Level(results, pathStart, rule).value, nodes, parent, rest.value);
          if parent.Some? {
            nodes := nodes + [parent.value];
          }
          rs := rs[groupEnd..];
        } else {
          var leaf := Leaf(first);
          LeafTurn(rs, pathStart, rule, path);
          PushOntoLevel(Level(results, pathStart, rule).value, nodes, leaf, Level(rs[1..], pathStart, rule).value);
          if leaf.Some? {
            nodes := nodes + [leaf.value];
          }
          rs := rs[1..];
        }
      }
    }
  }

  /** `tree_from_results` with the delimiter rule: sorted by name, then built from offset 0. */
  function Tree(results: seq<SearchResult>): (nodes: seq<Node>)
    ensures forall n :: n in nodes ==> Branching(n)
    ensures IsSubseq(ResultsOf(nodes), ByName(results))
  {
    var sorted := ByName(results);
    DelimitedNeverPanics(sorted, 0);
    LevelBranching(sorted, 0, Delimited);
    LevelKeepsInputOrder(sorted, 0, Delimited);
    Level(sorted, 0, Delimited).value
  }

  /** `tree_from_results`: sorts the results by name and builds the tree from offset 0. */
  method TreeFromResults(results: seq<SearchResult>) returns (nodes: seq<Node>)
    ensures nodes == Tree(results)
  {
    var sorted := SortByName(results);
    DelimitedNeverPanics(sorted, 0);
    nodes := TreeFromSortedResultsRecursive(sorted, 0, Delimited);
  }

  // ---------------------------------------------------------------------
  // Concrete names.
  // ---------------------------------------------------------------------

  lemma {:induction false} FindDelimAt(a: string, b: string)
    requires ':' !in a
    ensures FindDelim(a + Delim + b) == Some(|a|)
    decreases |a|
  {
    if a != [] {
      FindDelimAt(a[1..], b);
      assert (a + Delim + b)[1..] == a[1..] + Delim + b;
    }
  }

  lemma FindDelimNone(a: string, tail: string)
    requires ':' !in a && |tail| <= 1
    ensures FindDelim(a + tail) == None
  {
    var s := a + tail;
    assert forall j :: 0 <= j < |s| - 1 ==> s[j] == a[j];
  }

  lemma {:induction false} AfterLastColonOf(x: string, b: string)
    requires ':' !in b && (x == [] || x[|x| - 1] == ':')
    ensures AfterLastColon(x + b) == b
    decreases |b|
  {
    if b == [] {
      assert x + b == x;
    } else {
      var init := b[..|b| - 1];
      assert b[|b| - 1] in b;
      AfterLastColonOf(x, init);
      assert (x + b)[..|x + b| - 1] == x + init;
      assert init + [b[|b| - 1]] == b;
    }
  }

  lemma LevelOfLeaf(rs: seq<SearchResult>, p: nat, rule: GroupRule)
    requires rs != [] && FirstStep(rs, p, rule) == LeafStep
    ensures Level(rs, p, rule) == AddNode(Leaf(rs[0]), Level(rs[1..], p, rule))
  {
  }

  lemma LevelOfGroup(rs: seq<SearchResult>, p: nat, rule: GroupRule, group: string, e: nat, q: nat)
    requires rs != [] && FirstStep(rs, p, rule) == GroupStep(group, e, q)
    ensures Level(rs, p, rule) == AddGroup(group, Level(rs[..e], q, rule), Level(rs[e..], p, rule))
  {
  }

  lemma LevelOfWholeGroup(rs: seq<SearchResult>, p: nat, rule: GroupRule, group: string, q: nat)
    requires rs != [] && FirstStep(rs, p, rule) == GroupStep(group, |rs|, q)
    ensures Level(rs, p, rule) == AddGroup(group, Level(rs, q, rule), Some([]))
  {
    assert rs[..|rs|] == rs;
    assert Level(rs[|rs|..], p, rule) == Some([]);
  }

  /** `g + x` sorts before `g + y` when `x` starts with a smaller character than `y`. */
  lemma {:induction false} NameLeAfterCommonPrefix(g: string, x: string, y: string)
    requires x != [] && y != [] && x[0] < y[0]
    ensures NameLe(g + x, g + y)
    decreases |g|
  {
    if g != [] {
      NameLeAfterCommonPrefix(g[1..], x, y);
      assert (g + x)[1..] == g[1..] + x && (g + y)[1..] == g[1..] + y;
    }
  }

  /**
   * Membership without the delimiter lets `group + [c]` into the group of
   * `group::x`; the recursion then slices it two characters past the group
   * name, one past its end.
   */
  lemma PrefixWithoutDelimiterPanics(a: SearchResult, b: SearchResult, group: string, x: string, c: char)
    requires group != [] && ':' !in group && ':' !in x && c != ':'
    requires NameOf(a) == group + Delim + x && NameOf(b) == group + [c]
    ensures Level([a, b], 0, AsWritten) == None
  {
    var na, nb, q := NameOf(a), NameOf(b), |group| + 2;
    assert na[0..] == na && nb[0..] == nb;
    assert [a, b][1..] == [b] && [b][1..] == [] && [a, b][..2] == [a, b] && [a, b][2..] == [];
    FindDelimAt(group, x);
    assert na[..|group|] == group && nb[..|group|] == group;
    assert GroupEnd([b], 0, group) == Some(1);
    assert GroupEnd([a, b], 0, group) == Some(2);
    assert FirstStep([a, b], 0, AsWritten) == GroupStep(group, 2, q);
    LevelOfGroup([a, b], 0, AsWritten, group, 2, q);
    assert FirstStep([b], q, AsWritten) == Panic;
    assert na[q..] == x;
    FindDelimNone(x, []);
    assert FirstStep([a, b], q, AsWritten) == LeafStep;
    LevelOfLeaf([a, b], q, AsWritten);
  }

  lemma LevelOfOneLeaf(r: SearchResult, p: nat, rule: GroupRule, m: Node)
    requires FirstStep([r], p, rule) == LeafStep && Leaf(r) == Some(m)
    ensures Level([r], p, rule) == Some([m])
  {
    LevelOfLeaf([r], p, rule);
    assert [r][1..] == [];
    assert Level([r][1..], p, rule) == Some([]);
    assert [m] + [] == [m];
  }

  /** After the delimiter, the rest of `group::x` is a leaf showing `x`. */
  lemma TailIsLeaf(a: SearchResult, group: string, x: string, rule: GroupRule)
    requires x != [] && ':' !in x && NameOf(a) == group + Delim + x
    ensures FirstStep([a], |group| + 2, rule) == LeafStep
    ensures Leaf(a) == Some(Metric(x, a))
  {
    assert NameOf(a)[|group| + 2..] == x;
    FindDelimNone(x, []);
    AfterLastColonOf(group + Delim, x);
  }

  /** A name without ':' and the delimiter is a leaf showing the whole name. */
  lemma ColonFreeIsLeaf(b: SearchResult, rule: GroupRule)
    requires NameOf(b) != [] && ':' !in NameOf(b)
    ensures FirstStep([b], 0, rule) == LeafStep
    ensures Leaf(b) == Some(Metric(NameOf(b), b))
  {
    var name := NameOf(b);
    assert name[0..] == name && name + [] == name && [] + name == name;
    assert name[|name| - 1] in name;
    FindDelimNone(name, []);
    AfterLastColonOf([], name);
  }

  /** The steps the loop takes over `group::x` then `group` + `c` when the delimiter is in the test. */
  lemma SeparatedSteps(a: SearchResult, b: SearchResult, group: string, x: string, c: char)
    requires group != [] && ':' !in group && x != [] && ':' !in x && c != ':'
    requires NameOf(a) == group + Delim + x && NameOf(b) == group + [c]
    ensures FirstStep([a, b], 0, Delimited) == GroupStep(group, 1, |group| + 2)
    ensures FirstStep([a], |group| + 2, Delimited) == LeafStep && Leaf(a) == Some(Metric(x, a))
    ensures FirstStep([b], 0, Delimited) == LeafStep && Leaf(b) == Some(Metric(NameOf(b), b))
  {
    var na := NameOf(a);
    TailIsLeaf(a, group, x, Delimited);
    ColonFreeIsLeaf(b, Delimited);
    assert [a, b][1..] == [b];
    assert GroupEnd([a, b], 0, group + Delim) == Some(1) by {
      assert na[0..] == na && na[..|group| + 2] == group + Delim;
      assert GroupEnd([b], 0, group + Delim) == Some(0);
    }
    assert na[0..] == na;
    FindDelimAt(group, x);
    assert na[..|group|] == group;
  }

  /** A one-member group around a leaf, then a leaf: the collapsed metric, then the other. */
  lemma GroupThenLeafLevel(a: SearchResult, b: SearchResult, rule: GroupRule, group: string, q: nat, m: Node, mb: Node)
    requires FirstStep([a, b], 0, rule) == GroupStep(group, 1, q)
    requires FirstStep([a], q, rule) == LeafStep && Leaf(a) == Some(m)
    requires FirstStep([b], 0, rule) == LeafStep && Leaf(b) == Some(mb)
    ensures Level([a, b], 0, rule) == Some([Metric(group + Delim + m.display, a), mb])
  {
    var n := Metric(group + Delim + m.display, a);
    assert [a, b][..1] == [a] && [a, b][1..] == [b] && [n] + [mb] == [n, mb];
    LevelOfGroup([a, b], 0, rule, group, 1, q);
    LevelOfOneLeaf(a, q, rule, m);
    LevelOfOneLeaf(b, 0, rule, mb);
    GroupOfOneMetric(group, m, [mb]);
  }

  /** With the delimiter in the membership test the same two names become two metrics. */
  lemma PrefixWithDelimiterSeparates(a: SearchResult, b: SearchResult, group: string, x: string, c: char)
    requires group != [] && ':' !in group && x != [] && ':' !in x && c != ':'
    requires NameOf(a) == group + Delim + x && NameOf(b) == group + [c]
    ensures Level([a, b], 0, Delimited) == Some([Metric(NameOf(a), a), Metric(NameOf(b), b)])
  {
    SeparatedSteps(a, b, group, x, c);
    GroupThenLeafLevel(a, b, Delimited, group, |group| + 2, Metric(x, a), Metric(NameOf(b), b));
  }

  /**
   * "foob" sorts after "foo::a", joins its group as written and is sliced
   * at offset 5, past its end; with the delimiter both are metrics.
   */
  lemma GroupWithoutDelimiterPanics(a: SearchResult, b: SearchResult)
    requires NameOf(a) == "foo::a" && NameOf(b) == "foob"
    ensures SortedByName([a, b])
    ensures Level([a, b], 0, AsWritten) == None
    ensures Level([a, b], 0, Delimited) == Some([Metric("foo::a", a), Metric("foob", b)])
  {
    assert NameOf(a) == "foo" + "::a" && NameOf(b) == "foo" + "b";
    NameLeAfterCommonPrefix("foo", "::a", "b");
    assert NameOf(a) == "foo" + Delim + "a" && NameOf(b) == "foo" + ['b'];
    PrefixWithoutDelimiterPanics(a, b, "foo", "a", 'b');
    PrefixWithDelimiterSeparates(a, b, "foo", "a", 'b');
  }

  // A second group name that extends the first: `g::x`, then `gh::y`.

  /** A group of one around a leaf collapses into one metric, renamed. */
  lemma GroupOfOneLeafLevel(r: SearchResult, p: nat, rule: GroupRule, group: string, q: nat, m: Node)
    requires FirstStep([r], p, rule) == GroupStep(group, 1, q)
    requires FirstStep([r], q, rule) == LeafStep && Leaf(r) == Some(m)
    ensures Level([r], p, rule) == Some([Metric(group + Delim + m.display, r)])
  {
    GroupAloneLevel(r, p, rule, group, q);
    LevelOfOneLeaf(r, q, rule, m);
    GroupOfOneMetric(group, m, []);
    assert [Metric(group + Delim + m.display, r)] + [] == [Metric(group + Delim + m.display, r)];
  }

  /** The first turn of the loop when the first remaining path is a group: the scan decides its end. */
  lemma GroupStepOfFirst(rs: seq<SearchResult>, p: nat, rule: GroupRule, group: string, e: nat)
    requires rs != [] && p <= |NameOf(rs[0])|
    requires NameOf(rs[0])[p..] != [] && NameOf(rs[0])[p..][0] != ':'
    requires FindDelim(NameOf(rs[0])[p..]) == Some(|group|) && NameOf(rs[0])[p..][..|group|] == group
    requires GroupEnd(rs, p, GroupPrefix(group, rule)) == Some(e)
    ensures FirstStep(rs, p, rule) == GroupStep(group, e, p + |group| + 2)
  {
  }

  /** Where `g::x` and `gh::y` start to differ: both start with `g`, only the first with `g::`. */
  lemma SiblingPrefixes(na: string, nb: string, g: string, x: string, h: string, y: string)
    requires g != [] && ':' !in g && h != [] && ':' !in h
    requires na == g + Delim + x && nb == g + h + Delim + y
    ensures FindDelim(na) == Some(|g|) && na[..|g|] == g && na[0] != ':'
    ensures StartsWith(na, g) && StartsWith(na, g + Delim)
    ensures StartsWith(nb, g) && !StartsWith(nb, g + Delim)
  {
    DelimitedPath(na, g, x);
    assert nb[..|g|] == g && nb[|g|] == h[0] && h[0] in h;
    assert (g + Delim)[|g|] == ':';
  }

  /**
   * The loop's steps over `g::x` then `gh::y`: as written both join the
   * group `g`; with the delimiter `g::x` is a group on its own.
   */
  lemma SiblingGroupSteps(a: SearchResult, b: SearchResult, g: string, x: string, h: string, y: string)
    requires g != [] && ':' !in g && h != [] && ':' !in h
    requires NameOf(a) == g + Delim + x && NameOf(b) == g + h + Delim + y
    ensures FirstStep([a, b], 0, AsWritten) == GroupStep(g, 2, |g| + 2)
    ensures FirstStep([a, b], 0, Delimited) == GroupStep(g, 1, |g| + 2)
  {
    var na, nb := NameOf(a), NameOf(b);
    assert na[0..] == na && nb[0..] == nb;
    assert [a, b][1..] == [b] && [b][1..] == [];
    SiblingPrefixes(na, nb, g, x, h, y);
    assert GroupEnd([b], 0, g) == Some(1);
    assert GroupEnd([b], 0, g + Delim) == Some(0);
    GroupStepOfFirst([a, b], 0, AsWritten, g, 2);
    GroupStepOfFirst([a, b], 0, Delimited, g, 1);
  }

  /** After the group `g`, the rest of `g::x` is a leaf showing `x`, whatever follows it. */
  lemma SiblingLeafStep(a: SearchResult, b: SearchResult, g: string, x: string, rule: GroupRule)
    requires x != [] && ':' !in x && NameOf(a) == g + Delim + x
    ensures FirstStep([a, b], |g| + 2, rule) == LeafStep
    ensures FirstStep([a], |g| + 2, rule) == LeafStep
    ensures Leaf(a) == Some(Metric(x, a))
  {
    TailIsLeaf(a, g, x, rule);
    assert NameOf(a)[|g| + 2..] == x && x[0] in x;
    FindDelimNone(x, []);
    assert x + [] == x;
  }

  /** `gh::y` alone, with colon-free parts: one metric showing the whole name. */
  lemma SecondSiblingAlone(b: SearchResult, gh: string, y: string, rule: GroupRule)
    requires gh != [] && ':' !in gh && y != [] && ':' !in y
    requires NameOf(b) == gh + Delim + y
    ensures Level([b], 0, rule) == Some([Metric(NameOf(b), b)])
  {
    assert NameOf(b) == [] + gh + Delim + y;
    GroupStepOfOne(b, [], 0, rule, gh, y);
    TailIsLeaf(b, gh, y, rule);
    GroupOfOneLeafLevel(b, 0, rule, gh, |gh| + 2, Metric(y, b));
  }

  /** With the delimiter, `g::x` and `gh::y` become two metrics showing their whole names. */
  lemma SiblingsSeparated(a: SearchResult, b: SearchResult, g: string, x: string, h: string, y: string)
    requires g != [] && ':' !in g && x != [] && ':' !in x
    requires h != [] && ':' !in h && y != [] && ':' !in y
    requires NameOf(a) == g + Delim + x && NameOf(b) == g + h + Delim + y
    ensures Level([a, b], 0, Delimited) == Some([Metric(NameOf(a), a), Metric(NameOf(b), b)])
  {
    SiblingGroupSteps(a, b, g, x, h, y);
    SiblingLeafStep(a, b, g, x, Delimited);
    assert NameOf(b) == (g + h) + Delim + y;
    SecondSiblingAlone(b, g + h, y, Delimited);
    assert [a, b][..1] == [a] && [a, b][1..] == [b];
    LevelOfGroup([a, b], 0, Delimited, g, 1, |g| + 2);
    LevelOfOneLeaf(a, |g| + 2, Delimited, Metric(x, a));
    GroupOfOneMetric(g, Metric(x, a), [Metric(NameOf(b), b)]);
    assert g + Delim + x == NameOf(a);
    assert [Metric(NameOf(a), a)] + [Metric(NameOf(b), b)] == [Metric(NameOf(a), a), Metric(NameOf(b), b)];
  }

  /** As written, `g::x` and `gh::y` form one group `g`: the leaf `x`, then whatever `h::y` gives at the new offset. */
  lemma SiblingsMerged(a: SearchResult, b: SearchResult, g: string, x: string, h: string, y: string)
    requires g != [] && ':' !in g && x != [] && ':' !in x
    requires h != [] && ':' !in h && y != [] && ':' !in y
    requires NameOf(a) == g + Delim + x && NameOf(b) == g + h + Delim + y
    ensures Level([a, b], 0, AsWritten) ==
      AddGroup(g, AddNode(Some(Metric(x, a)), Level([b], |g| + 2, AsWritten)), Some([]))
  {
    SiblingGroupSteps(a, b, g, x, h, y);
    SiblingLeafStep(a, b, g, x, AsWritten);
    assert [a, b][..2] == [a, b] && [a, b][2..] == [] && [a, b][1..] == [b];
    LevelOfGroup([a, b], 0, AsWritten, g, 2, |g| + 2);
    LevelOfLeaf([a, b], |g| + 2, AsWritten);
  }

  /** At offset 4, past "ab::", the rest of "abcde::y" is the path "e::y": one collapsed metric. */
  lemma MisfiledRemainder(b: SearchResult)
    requires NameOf(b) == "abcde::y"
    ensures Level([b], 4, AsWritten) == Some([Metric("e::y", b)])
  {
    assert NameOf(b) == "abcd" + "e" + Delim + "y" && NameOf(b) == "abcde" + Delim + "y";
    GroupStepOfOne(b, "abcd", 4, AsWritten, "e", "y");
    TailIsLeaf(b, "abcde", "y", AsWritten);
    GroupOfOneLeafLevel(b, 4, AsWritten, "e", 7, Metric("y", b));
    assert "e" + Delim + "y" == "e::y";
  }

  /**
   * "abcde::y" sorts after "ab::x" and, as written, joins the group "ab":
   * its remaining path "e::y" is shown under "ab" as though "ab::e::y" had
   * been registered. With the delimiter the two names stay apart.
   */
  lemma GroupWithoutDelimiterMisfiles(a: SearchResult, b: SearchResult)
    requires NameOf(a) == "ab::x" && NameOf(b) == "abcde::y"
    ensures SortedByName([a, b])
    ensures Level([a, b], 0, AsWritten) == Some([Namespace("ab", [Metric("x", a), Metric("e::y", b)])])
    ensures Level([a, b], 0, Delimited) == Some([Metric("ab::x", a), Metric("abcde::y", b)])
  {
    var g, x, h, y := "ab", "x", "cde", "y";
    assert NameOf(a) == g + "::x" && NameOf(b) == g + "cde::y";
    NameLeAfterCommonPrefix(g, "::x", "cde::y");
    assert NameOf(a) == g + Delim + x && NameOf(b) == g + h + Delim + y;
    SiblingsSeparated(a, b, g, x, h, y);
    SiblingsMerged(a, b, g, x, h, y);
    MisfiledRemainder(b);
    var children := [Metric(x, a), Metric("e::y", b)];
    assert [Metric(x, a)] + [Metric("e::y", b)] == children;
    assert CreateParentNode(g, children) == Some(Namespace(g, children));
    assert [Namespace(g, children)] + [] == [Namespace(g, children)];
  }

  /**
   * "abcd::y" sorts after "ab::x" and, as written, joins the group "ab";
   * its remaining path "::y" starts with ':' and is skipped, so the metric
   * is missing from the tree. With the delimiter both are shown.
   */
  lemma GroupWithoutDelimiterDrops(a: SearchResult, b: SearchResult)
    requires NameOf(a) == "ab::x" && NameOf(b) == "abcd::y"
    ensures SortedByName([a, b])
    ensures Level([a, b], 0, AsWritten) == Some([Metric("ab::x", a)])
    ensures Level([a, b], 0, Delimited) == Some([Metric("ab::x", a), Metric("abcd::y", b)])
  {
    var g, x, h, y := "ab", "x", "cd", "y";
    assert NameOf(a) == g + "::x" && NameOf(b) == g + "cd::y";
    NameLeAfterCommonPrefix(g, "::x", "cd::y");
    assert NameOf(a) == g + Delim + x && NameOf(b) == g + h + Delim + y;
    SiblingsSeparated(a, b, g, x, h, y);
    SiblingsMerged(a, b, g, x, h, y);
    assert NameOf(b) == "abcd" + [':'] + ":y";
    SkipStepOfOne(b, "abcd", AsWritten, ":y");
    SkipAloneLevel(b, 4, AsWritten);
    assert [Metric(x, a)] + [] == [Metric(x, a)];
    GroupOfOneMetric(g, Metric(x, a), []);
    assert [Metric("ab::x", a)] + [] == [Metric("ab::x", a)];
  }

  // Single results, first from their names to the loop's step, then from
  // steps to the level, so that no proof mixes string facts with unfoldings
  // of `Level`.

  /** A path `group::tail` with a colon-free group: where its delimiter is and what it starts with. */
  lemma DelimitedPath(path: string, group: string, tail: string)
    requires path == group + Delim + tail && group != [] && ':' !in group
    ensures FindDelim(path) == Some(|group|) && path[..|group|] == group
    ensures StartsWith(path, group) && StartsWith(path, group + Delim)
    ensures path[0] != ':'
  {
    FindDelimAt(group, tail);
    assert path[..|group|] == group && path[..|group| + 2] == group + Delim;
    assert path[0] == group[0] && group[0] in group;
  }

  /** One result whose remaining path is a group then the delimiter: a group of one. */
  lemma GroupStepAt(r: SearchResult, p: nat, rule: GroupRule, path: string, group: string)
    requires p <= |NameOf(r)| && path == NameOf(r)[p..] && path != [] && path[0] != ':'
    requires FindDelim(path) == Some(|group|) && path[..|group|] == group
    requires StartsWith(path, group) && StartsWith(path, group + Delim)
    ensures FirstStep([r], p, rule) == GroupStep(group, 1, p + |group| + 2)
  {
    assert [r][1..] == [];
    assert GroupEnd([r], p, GroupPrefix(group, rule)) == Some(1);
  }

  lemma GroupStepOfOne(r: SearchResult, prefix: string, p: nat, rule: GroupRule, group: string, tail: string)
    requires NameOf(r) == prefix + group + Delim + tail && group != [] && ':' !in group
    requires p == |prefix|
    ensures FirstStep([r], p, rule) == GroupStep(group, 1, p + |group| + 2)
  {
    var path := NameOf(r)[p..];
    assert path == group + Delim + tail;
    DelimitedPath(path, group, tail);
    GroupStepAt(r, p, rule, path, group);
  }

  lemma SkipStepOfOne(r: SearchResult, prefix: string, rule: GroupRule, tail: string)
    requires NameOf(r) == prefix + [':'] + tail
    ensures FirstStep([r], |prefix|, rule) == Skip
  {
    assert NameOf(r)[|prefix|..] == [':'] + tail;
  }

  lemma LeafStepOfOne(r: SearchResult, prefix: string, rest: string, rule: GroupRule)
    requires NameOf(r) == prefix + rest && FindDelim(rest) == None && !(rest != [] && rest[0] == ':')
    ensures FirstStep([r], |prefix|, rule) == LeafStep
  {
    assert NameOf(r)[|prefix|..] == rest;
  }

  lemma SkipAloneLevel(r: SearchResult, p: nat, rule: GroupRule)
    requires FirstStep([r], p, rule) == Skip
    ensures Level([r], p, rule) == Some([])
  {
    assert [r][1..] == [];
  }

  lemma LeafAloneLevel(r: SearchResult, p: nat, rule: GroupRule)
    requires FirstStep([r], p, rule) == LeafStep
    ensures Level([r], p, rule) == Some(Prepend(Leaf(r), []))
  {
    LevelOfLeaf([r], p, rule);
    assert [r][1..] == [];
  }

  lemma GroupAloneLevel(r: SearchResult, p: nat, rule: GroupRule, group: string, q: nat)
    requires FirstStep([r], p, rule) == GroupStep(group, 1, q)
    ensures Level([r], p, rule) == AddGroup(group, Level([r], q, rule), Some([]))
  {
    LevelOfWholeGroup([r], p, rule, group, q);
  }

  /** A group holding only a skipped path gives nothing. */
  lemma GroupOfSkippedLevel(r: SearchResult, rule: GroupRule, group: string, q: nat)
    requires FirstStep([r], 0, rule) == GroupStep(group, 1, q) && FirstStep([r], q, rule) == Skip
    ensures Level([r], 0, rule) == Some([])
  {
    GroupAloneLevel(r, 0, rule, group, q);
    SkipAloneLevel(r, q, rule);
  }

  /** A group around one metric collapses into that metric, renamed. */
  lemma GroupOfOneMetric(group: string, m: Node, rest: seq<Node>)
    requires m.Metric?
    ensures AddGroup(group, Some([m]), Some(rest)) == Some([Metric(group + Delim + m.display, m.result)] + rest)
  {
    var n := CreateParentNode(group, [m]).value;
    assert n.Metric? && n.display == group + Delim + m.display && n.result == m.result;
  }

  /** Two nested groups around a leaf: nothing if the leaf is dropped, else one collapsed metric. */
  lemma NestedGroupsLevel(r: SearchResult, rule: GroupRule, g1: string, q1: nat, g2: string, q2: nat)
    requires FirstStep([r], 0, rule) == GroupStep(g1, 1, q1)
    requires FirstStep([r], q1, rule) == GroupStep(g2, 1, q2)
    requires FirstStep([r], q2, rule) == LeafStep
    ensures Leaf(r).None? ==> Level([r], 0, rule) == Some([])
    ensures Leaf(r).Some? ==>
      Level([r], 0, rule) == Some([Metric(g1 + Delim + (g2 + Delim + Leaf(r).value.display), r)])
  {
    GroupAloneLevel(r, 0, rule, g1, q1);
    GroupAloneLevel(r, q1, rule, g2, q2);
    LeafAloneLevel(r, q2, rule);
    if Leaf(r).Some? {
      var m := Leaf(r).value;
      var inner := Metric(g2 + Delim + m.display, r);
      var outer := Metric(g1 + Delim + inner.display, r);
      assert [m] + [] == [m] && [inner] + [] == [inner] && [outer] + [] == [outer];
      GroupOfOneMetric(g2, m, []);
      GroupOfOneMetric(g1, inner, []);
    }
  }

  /** A name starting with ':' is skipped. */
  lemma LeadingColonDropped(r: SearchResult, rule: GroupRule)
    requires NameOf(r) != [] && NameOf(r)[0] == ':'
    ensures Level([r], 0, rule) == Some([])
  {
    var name := NameOf(r);
    assert name == [] + [':'] + name[1..];
    SkipStepOfOne(r, [], rule, name[1..]);
    SkipAloneLevel(r, 0, rule);
  }

  /** A name without the delimiter that ends with ':' (or is empty) is a leaf with no node. */
  lemma NoDelimDropped(r: SearchResult, rule: GroupRule)
    requires FindDelim(NameOf(r)) == None && !(NameOf(r) != [] && NameOf(r)[0] == ':')
    requires NameOf(r) == [] || NameOf(r)[|NameOf(r)| - 1] == ':'
    ensures Level([r], 0, rule) == Some([])
  {
    assert NameOf(r) == [] + NameOf(r);
    LeafStepOfOne(r, [], NameOf(r), rule);
    LeafAloneLevel(r, 0, rule);
  }

  /** A malformed name on its own yields no node at all, under either rule. */
  lemma MalformedNamesYieldNothing(r: SearchResult, rule: GroupRule)
    requires NameOf(r) in ["edge::case::", "edge::::case", "edge:::case", "::edge", "::edge::",
                           ":edge", "edge:", ":edge:", "::", ":", ""]
    ensures Level([r], 0, rule) == Some([])
  {
    var name := NameOf(r);
    var names := ["edge::case::", "edge::::case", "edge:::case", "::edge", "::edge::",
                  ":edge", "edge:", ":edge:", "::", ":", ""];
    var i :| 0 <= i < |names| && names[i] == name;
    if i == 0 {
      assert name == "edge" + Delim + "case" + Delim + [];
      DanglingPath(r, rule, "edge", "case");
    } else if i == 1 {
      assert name == "edge" + Delim + [':'] + ":case";
      GroupThenColonSkipped(r, rule, "edge", ":case");
    } else if i == 2 {
      assert name == "edge" + Delim + [':'] + "case";
      GroupThenColonSkipped(r, rule, "edge", "case");
    } else if i == 6 {
      assert name == "edge" + ":";
      FindDelimNone("edge", ":");
      NoDelimDropped(r, rule);
    } else if i == 10 {
      assert name == [] + [];
      FindDelimNone([], []);
      NoDelimDropped(r, rule);
    } else {
      LeadingColonDropped(r, rule);
    }
  }

  /** A one-member group whose remaining path starts with ':' gives no node. */
  lemma GroupThenColonSkipped(r: SearchResult, rule: GroupRule, group: string, tail: string)
    requires NameOf(r) == group + Delim + [':'] + tail && group != [] && ':' !in group
    ensures Level([r], 0, rule) == Some([])
  {
    var name := NameOf(r);
    var top: string := [];
    assert name == top + group + Delim + ([':'] + tail);
    assert name == (group + Delim) + [':'] + tail;
    GroupStepOfOne(r, top, 0, rule, group, [':'] + tail);
    SkipStepOfOne(r, group + Delim, rule, tail);
    GroupOfSkippedLevel(r, rule, group, |group| + 2);
  }

  lemma TwoGroupSplits(name: string, g1: string, g2: string, d: string)
    requires name == g1 + Delim + g2 + Delim + d
    ensures name == [] + g1 + Delim + (g2 + Delim + d)
    ensures name == (g1 + Delim) + g2 + Delim + d
    ensures name == (g1 + Delim + g2 + Delim) + d
    ensures g1 + Delim + (g2 + Delim + d) == name
  {
  }

  /** The steps the loop takes over `g1::g2::d` with colon-free parts: two groups of one, then a leaf. */
  lemma TwoGroupSteps(r: SearchResult, rule: GroupRule, g1: string, g2: string, d: string)
    requires NameOf(r) == g1 + Delim + g2 + Delim + d
    requires g1 != [] && ':' !in g1 && g2 != [] && ':' !in g2 && ':' !in d
    ensures FirstStep([r], 0, rule) == GroupStep(g1, 1, |g1| + 2)
    ensures FirstStep([r], |g1| + 2, rule) == GroupStep(g2, 1, |g1| + |g2| + 4)
    ensures FirstStep([r], |g1| + |g2| + 4, rule) == LeafStep
  {
    TwoGroupSplits(NameOf(r), g1, g2, d);
    GroupStepOfOne(r, [], 0, rule, g1, g2 + Delim + d);
    GroupStepOfOne(r, g1 + Delim, |g1| + 2, rule, g2, d);
    assert d + [] == d;
    FindDelimNone(d, []);
    LeafStepOfOne(r, g1 + Delim + g2 + Delim, d, rule);
  }

  /** `g1::g2::` : two groups of one around a leaf ending with ':', so no node. */
  lemma DanglingPath(r: SearchResult, rule: GroupRule, g1: string, g2: string)
    requires NameOf(r) == g1 + Delim + g2 + Delim + []
    requires g1 != [] && ':' !in g1 && g2 != [] && ':' !in g2
    ensures Level([r], 0, rule) == Some([])
  {
    assert NameOf(r) == (g1 + Delim + g2) + Delim;
    TwoGroupSteps(r, rule, g1, g2, []);
    NestedGroupsLevel(r, rule, g1, |g1| + 2, g2, |g1| + |g2| + 4);
  }

  /** The last part of a name, after a ':', colon-free and not empty, is the leaf's display. */
  lemma LastPartIsLeaf(r: SearchResult, inner: string, d: string)
    requires NameOf(r) == inner + d && inner != [] && inner[|inner| - 1] == ':'
    requires d != [] && ':' !in d
    ensures Leaf(r) == Some(Metric(d, r))
  {
    AfterLastColonOf(inner, d);
    assert d[|d| - 1] in d;
  }

  /** A path whose every group has one member collapses to one metric showing the whole name. */
  lemma FullyCollapsedPath(r: SearchResult, rule: GroupRule)
    requires NameOf(r) == "fully::collapsed::path"
    ensures Level([r], 0, rule) == Some([Metric("fully::collapsed::path", r)])
  {
    var g1, g2, d := "fully", "collapsed", "path";
    assert NameOf(r) == g1 + Delim + g2 + Delim + d;
    TwoGroupSteps(r, rule, g1, g2, d);
    TwoGroupSplits(NameOf(r), g1, g2, d);
    LastPartIsLeaf(r, g1 + Delim + g2 + Delim, d);
    NestedGroupsLevel(r, rule, g1, |g1| + 2, g2, |g1| + |g2| + 4);
  }


  // ---------------------------------------------------------------------
  // The window.
  // ---------------------------------------------------------------------

  /** A spawned rebuild: it builds the tree of the metrics registered when it ran. */
  datatype RefreshTask = RefreshTask(snapshot: seq<SearchResult>)

  /**
   * `NamespaceTreeWindow`. Time is a millisecond clock passed in by the
   * caller; whether the pending task has finished is an input too.
   */
  class NamespaceTreeWindow {
    var refreshPeriod: nat
    var isNew: bool
    var lastRefreshTime: nat
    var refreshTask: Option<RefreshTask>
    var roots: seq<Node>

    /** `new`: a five-second period, marked new, no task and no tree. */
    constructor (now: nat)
      ensures refreshPeriod == 5000 && isNew && lastRefreshTime == now
      ensures refreshTask == None && roots == []
    {
      refreshPeriod := 5000;
      isNew := true;
      lastRefreshTime := now;
      refreshTask := None;
      roots := [];
    }

    method SetRefreshPeriod(period: nat)
      modifies this
      ensures refreshPeriod == period
      ensures isNew == old(isNew) && lastRefreshTime == old(lastRefreshTime)
      ensures refreshTask == old(refreshTask) && roots == old(roots)
    {
      refreshPeriod := period;
    }

    /**
     * The state part of `draw`: a rebuild is spawned when the window is new
     * or more than one period has passed since the last one, replacing any
     * pending task; then a finished task's tree becomes the roots and an
     * unfinished one is kept.
     */
    method Draw(now: nat, allMetrics: seq<SearchResult>, finished: bool)
      modifies this
      ensures refreshPeriod == old(refreshPeriod) && !isNew
      ensures var spawn := old(isNew) || Elapsed(old(lastRefreshTime), now) > old(refreshPeriod);
        && lastRefreshTime == (if spawn then now else old(lastRefreshTime))
        && var task := if spawn then Some(RefreshTask(allMetrics)) else old(refreshTask);
           if task.Some? && finished then refreshTask == None && roots == Tree(task.value.snapshot)
           else refreshTask == task && roots == old(roots)
    {
      if isNew || Elapsed(lastRefreshTime, now) > refreshPeriod {
        isNew := false;
        refreshTask := Some(RefreshTask(allMetrics));
        lastRefreshTime := now;
      }
      var task := refreshTask;
      refreshTask := None;
      if task.Some? {
        if finished {
          roots := TreeFromResults(task.value.snapshot);
        } else {
          refreshTask := task;
        }
      }
    }
  }
}

/**
 * The metrics registry (src/registry.rs): the metrics recorded so far, one
 * description per (name, kind), and the name search the dashboard's search
 * widgets run.
 *
 * The `metrics_util` storage is modelled by its contents: the keys of each
 * kind in the order its visitors walk them, and each histogram's block of
 * samples recorded since the last clear. The fuzzy matcher is a parameter.
 */
module Registry {
  import opened Wrappers
  import opened Metrics
  import opened Lib

  /** What `describe_*` records about a metric name. */
  datatype MetricDescription = MetricDescription(unit: Option<Unit>, text: string)

  /** `DescriptionKey`: descriptions are per name and kind, whatever the labels. */
  datatype DescriptionKey = DescriptionKey(name: string, kind: MetricKind)

  /** `MetricKey`: a full key (name and labels) together with its kind. */
  datatype MetricKey = MetricKey(key: Key, kind: MetricKind)

  datatype SearchResult = SearchResult(key: MetricKey, description: Option<MetricDescription>)

  /** `DescriptionKey::from(&MetricKey)`: keeps the name and the kind, drops the labels. */
  function DescriptionKeyFrom(k: MetricKey): (d: DescriptionKey)
    ensures d.name == k.key.name && d.kind == k.kind
  {
    DescriptionKey(k.key.name, k.kind)
  }

  /** Two metric keys share a description exactly when they agree on name and kind. */
  lemma DescriptionKeyIgnoresLabels(a: MetricKey, b: MetricKey)
    ensures DescriptionKeyFrom(a) == DescriptionKeyFrom(b) <==> a.key.name == b.key.name && a.kind == b.kind
  {
  }

  /** The same `Key` as two different kinds gives two different metric keys and description keys. */
  lemma KindIsPartOfIdentity(k: Key, kind1: MetricKind, kind2: MetricKind)
    requires kind1 != kind2
    ensures MetricKey(k, kind1) != MetricKey(k, kind2)
    ensures DescriptionKeyFrom(MetricKey(k, kind1)) != DescriptionKeyFrom(MetricKey(k, kind2))
  {
  }

  // ---------------------------------------------------------------------
  // Titles.
  // ---------------------------------------------------------------------

  function DigitChar(d: nat): (c: char)
    requires d < 10
    ensures '0' <= c <= '9' && c as int - '0' as int == d
  {
    "0123456789"[d]
  }

  ghost predicate AllDigits(s: string)
  {
    forall i :: 0 <= i < |s| ==> '0' <= s[i] <= '9'
  }

  /** The decimal digits of `n`, as `format!` writes a `usize`. */
  function NatToString(n: nat): (s: string)
    ensures |s| >= 1 && AllDigits(s)
    ensures n > 0 ==> s[0] != '0'
    decreases n
  {
    if n < 10 then [DigitChar(n)] else NatToString(n / 10) + [DigitChar(n % 10)]
  }

  /** The value of a string of decimal digits. */
  function DigitsValue(s: string): nat
    requires AllDigits(s)
    decreases |s|
  {
    if s == [] then 0 else DigitsValue(s[..|s| - 1]) * 10 + (s[|s| - 1] as int - '0' as int)
  }

  /** Reading the written digits back gives the number. */
  lemma {:induction false} NatToStringRoundTrip(n: nat)
    ensures DigitsValue(NatToString(n)) == n
    decreases n
  {
    if n >= 10 {
      NatToStringRoundTrip(n / 10);
      var s := NatToString(n);
      assert s[..|s| - 1] == NatToString(n / 10);
    } else {
      assert NatToString(n)[..0] == [];
    }
  }

  /** `"{name} ({kind})"`. */
  function TitleBase(k: MetricKey): string
  {
    k.key.name + " (" + MetricKindStr(k.kind) + ")"
  }

  /**
   * `MetricKey::default_title`: the name and kind, followed by
   * `" {n_duplicates}"` when there are duplicates.
   */
  function DefaultTitle(k: MetricKey, nDuplicates: nat): (t: string)
    ensures |TitleBase(k)| <= |t| && t[..|TitleBase(k)|] == TitleBase(k)
    ensures nDuplicates == 0 <==> t == TitleBase(k)
    ensures nDuplicates > 0 ==>
      && |t| > |TitleBase(k)| + 1 && t[|TitleBase(k)|] == ' '
      && AllDigits(t[|TitleBase(k)| + 1..]) && DigitsValue(t[|TitleBase(k)| + 1..]) == nDuplicates
  {
    if nDuplicates > 0 then
      var t := TitleBase(k) + " " + NatToString(nDuplicates);
      assert t[|TitleBase(k)| + 1..] == NatToString(nDuplicates);
      NatToStringRoundTrip(nDuplicates);
      t
    else TitleBase(k)
  }

  /** Plots of the same metric get distinct titles: the title determines the duplicate count. */
  lemma DefaultTitleDistinguishesDuplicates(k: MetricKey, n1: nat, n2: nat)
    requires DefaultTitle(k, n1) == DefaultTitle(k, n2)
    ensures n1 == n2
  {
  }

  // ---------------------------------------------------------------------
  // Searching.
  // ---------------------------------------------------------------------

  function Lookup<K, V>(m: map<K, V>, k: K): (r: Option<V>)
    ensures r.Some? <==> k in m
    ensures r.Some? ==> r.value == m[k]
  {
    if k in m then Some(m[k]) else None
  }

  /** The result a visitor pushes for `key` of kind `kind`. */
  function ResultFor(key: Key, kind: MetricKind, descriptions: map<DescriptionKey, MetricDescription>): (r: SearchResult)
    ensures r.key == MetricKey(key, kind)
    ensures r.description == Lookup(descriptions, DescriptionKey(key.name, kind))
  {
    var k := MetricKey(key, kind);
    SearchResult(k, Lookup(descriptions, DescriptionKeyFrom(k)))
  }

  /** The results one visitor produces: the keys whose name the matcher accepts, in visiting order. */
  function Matching(keys: seq<Key>, kind: MetricKind, input: string, matcher: (string, string) -> bool,
                    descriptions: map<DescriptionKey, MetricDescription>): (r: seq<SearchResult>)
    ensures |r| <= |keys|
    decreases |keys|
  {
    if keys == [] then []
    else
      var rest := Matching(keys[..|keys| - 1], kind, input, matcher, descriptions);
      var key := keys[|keys| - 1];
      if matcher(key.name, input) then rest + [ResultFor(key, kind, descriptions)] else rest
  }

  /**
   * A result comes out of a visitor exactly when its key was visited and
   * matched; it carries the visitor's kind and the description stored for
   * its name and kind.
   */
  lemma {:induction false} MatchingMembers(keys: seq<Key>, kind: MetricKind, input: string,
                                           matcher: (string, string) -> bool,
                                           descriptions: map<DescriptionKey, MetricDescription>, r: SearchResult)
    ensures r in Matching(keys, kind, input, matcher, descriptions) <==>
      (r.key.key in keys && r.key.kind == kind && matcher(r.key.key.name, input)
       && r.description == Lookup(descriptions, DescriptionKey(r.key.key.name, kind)))
    decreases |keys|
  {
    if keys != [] {
      var init := keys[..|keys| - 1];
      MatchingMembers(init, kind, input, matcher, descriptions, r);
      assert keys == init + [keys[|keys| - 1]];
    }
  }

  /** When the matcher accepts every name, a visitor returns a result for every key. */
  lemma {:induction false} MatchingAll(keys: seq<Key>, kind: MetricKind, input: string,
                                       matcher: (string, string) -> bool,
                                       descriptions: map<DescriptionKey, MetricDescription>)
    requires forall k :: k in keys ==> matcher(k.name, input)
    ensures |Matching(keys, kind, input, matcher, descriptions)| == |keys|
    decreases |keys|
  {
    if keys != [] {
      MatchingAll(keys[..|keys| - 1], kind, input, matcher, descriptions);
    }
  }

  /** One `visit_*` pass of `fuzzy_search_by_name`: pushes a result for every matching key. */
  method VisitMatching(keys: seq<Key>, kind: MetricKind, input: string, matcher: (string, string) -> bool,
                       descriptions: map<DescriptionKey, MetricDescription>, results: seq<SearchResult>)
    returns (r: seq<SearchResult>)
    ensures r == results + Matching(keys, kind, input, matcher, descriptions)
  {
    r := results;
    var i := 0;
    while i < |keys|
      invariant 0 <= i <= |keys|
      invariant r == results + Matching(keys[..i], kind, input, matcher, descriptions)
    {
      var key := keys[i];
      assert keys[..i + 1][..i] == keys[..i];
      if matcher(key.name, input) {
        var mk := MetricKey(key, kind);
        var description := Lookup(descriptions, DescriptionKeyFrom(mk));
        r := r + [SearchResult(mk, description)];
      }
      i := i + 1;
    }
    assert keys[..i] == keys;
  }

  /** Everything a search over the given storage returns: counters, then gauges, then histograms. */
  function SearchSpec(counters: seq<Key>, gauges: seq<Key>, histograms: seq<Key>, input: string,
                      matcher: (string, string) -> bool,
                      descriptions: map<DescriptionKey, MetricDescription>): seq<SearchResult>
  {
    Matching(counters, Counter, input, matcher, descriptions)
    + Matching(gauges, Gauge, input, matcher, descriptions)
    + Matching(histograms, Histogram, input, matcher, descriptions)
  }

  /** A result is found exactly when its key, under its kind, is registered and matches. */
  lemma SearchSpecMembers(counters: seq<Key>, gauges: seq<Key>, histograms: seq<Key>, input: string,
                          matcher: (string, string) -> bool,
                          descriptions: map<DescriptionKey, MetricDescription>, r: SearchResult)
    ensures r in SearchSpec(counters, gauges, histograms, input, matcher, descriptions) <==>
      && matcher(r.key.key.name, input)
      && r.description == Lookup(descriptions, DescriptionKeyFrom(r.key))
      && r.key.key in (match r.key.kind case Counter => counters case Gauge => gauges case Histogram => histograms)
  {
    MatchingMembers(counters, Counter, input, matcher, descriptions, r);
    MatchingMembers(gauges, Gauge, input, matcher, descriptions, r);
    MatchingMembers(histograms, Histogram, input, matcher, descriptions, r);
  }

  /** The empty query matches every name, so it returns one result per registered metric. */
  lemma EmptyQueryFindsEverything(counters: seq<Key>, gauges: seq<Key>, histograms: seq<Key>,
                                  matcher: (string, string) -> bool,
                                  descriptions: map<DescriptionKey, MetricDescription>)
    requires forall name :: matcher(name, "")
    ensures |SearchSpec(counters, gauges, histograms, "", matcher, descriptions)|
      == |counters| + |gauges| + |histograms|
  {
    MatchingAll(counters, Counter, "", matcher, descriptions);
    MatchingAll(gauges, Gauge, "", matcher, descriptions);
    MatchingAll(histograms, Histogram, "", matcher, descriptions);
  }

  // ---------------------------------------------------------------------
  // Describing.
  // ---------------------------------------------------------------------

  /** One `describe_*` call, for replaying a sequence of them. */
  datatype Describe = Describe(key: DescriptionKey, description: MetricDescription)

  /** The descriptions after the calls `ds`, in order, on top of `m`: the first call for a key wins. */
  function DescribeAll(m: map<DescriptionKey, MetricDescription>, ds: seq<Describe>): map<DescriptionKey, MetricDescription>
    decreases |ds|
  {
    if ds == [] then m
    else
      var before := DescribeAll(m, ds[..|ds| - 1]);
      var d := ds[|ds| - 1];
      if d.key in before then before else before[d.key := d.description]
  }

  /** Index of the first call in `ds` for `key`, if any. */
  function FirstDescribe(ds: seq<Describe>, key: DescriptionKey): (i: Option<nat>)
    ensures i.Some? ==>
      i.value < |ds| && ds[i.value].key == key && forall j :: 0 <= j < i.value ==> ds[j].key != key
    ensures i.None? ==> forall j :: 0 <= j < |ds| ==> ds[j].key != key
    decreases |ds|
  {
    if ds == [] then None
    else if ds[0].key == key then Some(0)
    else
      var rest := FirstDescribe(ds[1..], key);
      if rest.Some? then Some(rest.value + 1) else None
  }

  /**
   * After any sequence of describes, a key's description is the one it
   * already had, or else the one from the first describe that named it.
   */
  lemma {:induction false} FirstDescriptionWins(m: map<DescriptionKey, MetricDescription>, ds: seq<Describe>,
                                                key: DescriptionKey)
    ensures key in m ==> key in DescribeAll(m, ds) && DescribeAll(m, ds)[key] == m[key]
    ensures key !in m && FirstDescribe(ds, key).Some? ==>
      key in DescribeAll(m, ds) && DescribeAll(m, ds)[key] == ds[FirstDescribe(ds, key).value].description
    ensures key !in m && FirstDescribe(ds, key).None? ==> key !in DescribeAll(m, ds)
    decreases |ds|
  {
    if ds != [] {
      var init := ds[..|ds| - 1];
      FirstDescriptionWins(m, init, key);
      var fi := FirstDescribe(init, key);
      var f := FirstDescribe(ds, key);
      if fi.Some? {
        assert init[fi.value] == ds[fi.value];
        assert f.Some? && f.value == fi.value;
      } else if f.Some? {
        assert f.value == |ds| - 1;
      }
    }
  }

  /** `clear_atomic_buckets` leaves every histogram with an empty block. */
  function Cleared(blocks: map<Key, seq<real>>): (r: map<Key, seq<real>>)
    ensures r.Keys == blocks.Keys
    ensures forall k :: k in r ==> r[k] == []
  {
    map k | k in blocks :: []
  }

  // ---------------------------------------------------------------------
  // Ordering results by name (`str::cmp`, byte-wise lexicographic).
  // ---------------------------------------------------------------------

  function NameOf(r: SearchResult): string
  {
    r.key.key.name
  }

  /** `a <= b` in the lexicographic order of `str`: a prefix comes first. */
  predicate NameLe(a: string, b: string)
    decreases |a|
  {
    a == [] || (b != [] && (a[0] < b[0] || (a[0] == b[0] && NameLe(a[1..], b[1..]))))
  }

  lemma {:induction false} NameLeTotal(a: string, b: string)
    ensures NameLe(a, b) || NameLe(b, a)
    decreases |a|
  {
    if a != [] && b != [] && a[0] == b[0] {
      NameLeTotal(a[1..], b[1..]);
    }
  }

  lemma {:induction false} NameLeTrans(a: string, b: string, c: string)
    requires NameLe(a, b) && NameLe(b, c)
    ensures NameLe(a, c)
    decreases |a|
  {
    if a != [] && a[0] == b[0] && b[0] == c[0] {
      NameLeTrans(a[1..], b[1..], c[1..]);
    }
  }

  ghost predicate SortedByName(rs: seq<SearchResult>)
  {
    forall i, j :: 0 <= i < j < |rs| ==> NameLe(NameOf(rs[i]), NameOf(rs[j]))
  }

  /** `r` placed after every result whose name is not greater than its own. */
  function InsertByName(s: seq<SearchResult>, r: SearchResult): (t: seq<SearchResult>)
    ensures multiset(t) == multiset(s) + multiset{r}
    decreases |s|
  {
    if s == [] then [r]
    else if !NameLe(NameOf(s[0]), NameOf(r)) then [r] + s
    else
      assert s == [s[0]] + s[1..];
      [s[0]] + InsertByName(s[1..], r)
  }

  lemma {:induction false} InsertByNameKeepsSorted(s: seq<SearchResult>, r: SearchResult)
    requires SortedByName(s)
    ensures SortedByName(InsertByName(s, r))
    decreases |s|
  {
    var t := InsertByName(s, r);
    if s == [] {
    } else if !NameLe(NameOf(s[0]), NameOf(r)) {
      NameLeTotal(NameOf(s[0]), NameOf(r));
      forall j | 0 < j < |t|
        ensures NameLe(NameOf(t[0]), NameOf(t[j]))
      {
        if j > 1 {
          NameLeTrans(NameOf(r), NameOf(s[0]), NameOf(s[j - 1]));
        }
      }
    } else {
      InsertByNameKeepsSorted(s[1..], r);
      var u := InsertByName(s[1..], r);
      assert t == [s[0]] + u;
      forall j | 0 <= j < |u|
        ensures NameLe(NameOf(s[0]), NameOf(u[j]))
      {
        assert u[j] in multiset(u);
        assert u[j] == r || u[j] in multiset(s[1..]);
        if u[j] != r {
          var k :| 0 <= k < |s[1..]| && s[1..][k] == u[j];
          assert s[k + 1] == u[j];
        }
      }
    }
  }

  /** The results ascending by name, equal names in their original order. */
  function ByName(rs: seq<SearchResult>): (sorted: seq<SearchResult>)
    ensures SortedByName(sorted)
    ensures multiset(sorted) == multiset(rs)
    decreases |rs|
  {
    if rs == [] then []
    else
      var init := ByName(rs[..|rs| - 1]);
      InsertByNameKeepsSorted(init, rs[|rs| - 1]);
      assert rs == rs[..|rs| - 1] + [rs[|rs| - 1]];
      InsertByName(init, rs[|rs| - 1])
  }

  /**
   * `sort_by(|r1, r2| r1.name().cmp(r2.name()))`: the same results,
   * ascending by name, equal names in their original order.
   */
  method SortByName(rs: seq<SearchResult>) returns (sorted: seq<SearchResult>)
    ensures sorted == ByName(rs)
    ensures SortedByName(sorted) && multiset(sorted) == multiset(rs)
  {
    sorted := [];
    var i := 0;
    while i < |rs|
      invariant 0 <= i <= |rs|
      invariant sorted == ByName(rs[..i])
    {
      assert rs[..i + 1][..i] == rs[..i];
      sorted := InsertByName(sorted, rs[i]);
      i := i + 1;
    }
    assert rs[..i] == rs;
  }

  // ---------------------------------------------------------------------
  // The registry.
  // ---------------------------------------------------------------------

  /**
   * `MetricsRegistry`. `counters`, `gauges` and `histograms` are the
   * registered keys in visiting order; `histogramBlocks` holds each
   * histogram's samples.
   */
  class MetricsRegistry {
    var counters: seq<Key>
    var gauges: seq<Key>
    var histograms: seq<Key>
    var histogramBlocks: map<Key, seq<real>>
    var descriptions: map<DescriptionKey, MetricDescription>

    /** Every histogram has a sample block. */
    ghost predicate Valid()
      reads this
    {
      forall k :: k in histograms <==> k in histogramBlocks
    }

    /** `MetricsRegistry::new`: nothing registered, nothing described. */
    constructor ()
      ensures Valid()
      ensures counters == [] && gauges == [] && histograms == []
      ensures histogramBlocks == map[] && descriptions == map[]
    {
      counters, gauges, histograms := [], [], [];
      histogramBlocks := map[];
      descriptions := map[];
    }

    /** `add_description_if_missing`: `entry(key).or_insert(description)`. */
    method AddDescriptionIfMissing(key: DescriptionKey, description: MetricDescription)
      modifies this
      ensures descriptions == DescribeAll(old(descriptions), [Describe(key, description)])
      ensures key in old(descriptions) ==> descriptions == old(descriptions)
      ensures key !in old(descriptions) ==> descriptions == old(descriptions)[key := description]
      ensures counters == old(counters) && gauges == old(gauges) && histograms == old(histograms)
      ensures histogramBlocks == old(histogramBlocks)
    {
      if key !in descriptions {
        descriptions := descriptions[key := description];
      }
    }

    method DescribeCounter(name: string, unit: Option<Unit>, text: string)
      modifies this
      ensures descriptions == DescribeAll(old(descriptions), [Describe(DescriptionKey(name, Counter), MetricDescription(unit, text))])
      ensures counters == old(counters) && gauges == old(gauges) && histograms == old(histograms)
      ensures histogramBlocks == old(histogramBlocks)
    {
      AddDescriptionIfMissing(DescriptionKey(name, Counter), MetricDescription(unit, text));
    }

    method DescribeGauge(name: string, unit: Option<Unit>, text: string)
      modifies this
      ensures descriptions == DescribeAll(old(descriptions), [Describe(DescriptionKey(name, Gauge), MetricDescription(unit, text))])
      ensures counters == old(counters) && gauges == old(gauges) && histograms == old(histograms)
      ensures histogramBlocks == old(histogramBlocks)
    {
      AddDescriptionIfMissing(DescriptionKey(name, Gauge), MetricDescription(unit, text));
    }

    method DescribeHistogram(name: string, unit: Option<Unit>, text: string)
      modifies this
      ensures descriptions == DescribeAll(old(descriptions), [Describe(DescriptionKey(name, Histogram), MetricDescription(unit, text))])
      ensures counters == old(counters) && gauges == old(gauges) && histograms == old(histograms)
      ensures histogramBlocks == old(histogramBlocks)
    {
      AddDescriptionIfMissing(DescriptionKey(name, Histogram), MetricDescription(unit, text));
    }

    /**
     * `fuzzy_search_by_name`: the matching counters, then gauges, then
     * histograms, each with its kind and its stored description.
     */
    method FuzzySearchByName(input: string, matcher: (string, string) -> bool) returns (results: seq<SearchResult>)
      ensures results == SearchSpec(counters, gauges, histograms, input, matcher, descriptions)
    {
      results := [];
      results := VisitMatching(counters, Counter, input, matcher, descriptions, results);
      results := VisitMatching(gauges, Gauge, input, matcher, descriptions, results);
      results := VisitMatching(histograms, Histogram, input, matcher, descriptions, results);
    }

    /** `clear_atomic_buckets`: empties every histogram's block and nothing else. */
    method ClearAtomicBuckets()
      requires Valid()
      modifies this
      ensures Valid()
      ensures histogramBlocks == Cleared(old(histogramBlocks))
      ensures counters == old(counters) && gauges == old(gauges) && histograms == old(histograms)
      ensures descriptions == old(descriptions)
    {
      var i := 0;
      while i < |histograms|
        invariant 0 <= i <= |histograms|
        invariant histogramBlocks.Keys == old(histogramBlocks).Keys
        invariant forall k :: k in histogramBlocks ==>
          histogramBlocks[k] == if k in histograms[..i] then [] else old(histogramBlocks)[k]
        invariant counters == old(counters) && gauges == old(gauges) && histograms == old(histograms)
        invariant descriptions == old(descriptions)
      {
        histogramBlocks := histogramBlocks[histograms[i] := []];
        assert histograms[..i + 1] == histograms[..i] + [histograms[i]];
        i := i + 1;
      }
      assert histograms[..i] == histograms;
    }
  }
}

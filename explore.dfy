/**
 * The client-side part of the exploration view
 * (src/app/_components/ExploreData.tsx): the memoised grouping of the
 * loaded pages into one time-ordered series per muid, and the guard of
 * `loadMore`.
 */
module Explore {
  import opened Wrappers
  import opened Seqs

  /** One point of a page's `chartData`; `value` is a number the view never computes with. */
  datatype Measurement = Measurement(muid: string, time: string, value: real)

  /** A page of `getAllMeasurements`. */
  datatype Page = Page(chartData: seq<Measurement>, nextCursor: Option<int>)

  /** One series of the result: a muid and its measurements. */
  datatype MuidData = MuidData(muid: string, data: seq<Measurement>)

  /** The TypeError thrown when a muid names an inherited member, whose value has no `push` method. */
  datatype JsError = TypeError

  /**
   * The accumulator object of the `reduce`: its own keys in creation order
   * and the array each one holds.
   */
  datatype Grouped = Grouped(keys: seq<string>, entries: map<string, seq<Measurement>>)

  // ---------------------------------------------------------------------------
  // Flattening the pages
  // ---------------------------------------------------------------------------

  /** The points of all loaded pages, page after page: every page's points are among them. */
  function ChartData(pages: seq<Page>): (r: seq<Measurement>)
    ensures forall i :: 0 <= i < |pages| ==> multiset(pages[i].chartData) <= multiset(r)
  {
    if pages == [] then []
    else
      var rest := ChartData(pages[1..]);
      assert forall i :: 1 <= i < |pages| ==> pages[1..][i - 1] == pages[i];
      pages[0].chartData + rest
  }

  /** The loaded points, none while the query has no data yet. The fallback is itself the rule, so the contract states it case by case. */
  function Flattened(data: Option<seq<Page>>): (r: seq<Measurement>)
    ensures data.None? ==> r == []
    ensures data.Some? ==> r == ChartData(data.value)
  {
    if data.None? then [] else ChartData(data.value)
  }

  /** Loading more pages appends their points after the points already loaded. */
  lemma {:induction false} ChartDataConcat(p: seq<Page>, q: seq<Page>)
    ensures ChartData(p + q) == ChartData(p) + ChartData(q)
  {
    if p == [] {
      assert p + q == q;
    } else {
      assert (p + q)[0] == p[0];
      assert (p + q)[1..] == p[1..] + q;
      ChartDataConcat(p[1..], q);
    }
  }

  /** A point is in the flattened data exactly when some page holds it. */
  lemma {:induction false} ChartDataMembers(pages: seq<Page>, m: Measurement)
    ensures m in ChartData(pages) <==> exists i :: 0 <= i < |pages| && m in pages[i].chartData
  {
    if pages != [] {
      ChartDataMembers(pages[1..], m);
      if m in ChartData(pages[1..]) {
        var i :| 0 <= i < |pages[1..]| && m in pages[1..][i].chartData;
        assert pages[1..][i] == pages[i + 1];
      }
      if exists i :: 0 <= i < |pages| && m in pages[i].chartData {
        var i :| 0 <= i < |pages| && m in pages[i].chartData;
        if i > 0 {
          assert pages[1..][i - 1] == pages[i];
        }
      }
    }
  }

  // ---------------------------------------------------------------------------
  // The reference grouping
  // ---------------------------------------------------------------------------

  /**
   * The names an empty object literal inherits from `Object.prototype`.
   * Reading one of them yields a truthy function (or, for `__proto__`, the
   * prototype itself), neither of which has a `push` method.
   */
  const InheritedNames: set<string> := {
    "constructor", "__defineGetter__", "__defineSetter__", "hasOwnProperty",
    "__lookupGetter__", "__lookupSetter__", "isPrototypeOf", "propertyIsEnumerable",
    "toString", "valueOf", "__proto__", "toLocaleString"
  }

  function MuidOf(m: Measurement): string
  {
    m.muid
  }

  /** The muids that occur in `ms`. */
  function Muids(ms: seq<Measurement>): set<string>
  {
    set m | m in ms :: m.muid
  }

  /** The measurements of muid `k`, in input order. */
  function OfMuid(ms: seq<Measurement>, k: string): seq<Measurement>
  {
    WithKey(ms, MuidOf, k)
  }

  /** The distinct muids of `ms`, in the order in which each first occurs. */
  function FirstOccurrences(ms: seq<Measurement>): seq<string>
  {
    if ms == [] then []
    else
      var prev := FirstOccurrences(ms[..|ms| - 1]);
      if ms[|ms| - 1].muid in prev then prev else prev + [ms[|ms| - 1].muid]
  }

  lemma MuidsSnoc(ms: seq<Measurement>, i: nat)
    requires i < |ms|
    ensures Muids(ms[..i + 1]) == Muids(ms[..i]) + {ms[i].muid}
  {
  }

  /** The first occurrences are pairwise distinct and are exactly the muids of the input. */
  lemma {:induction false} FirstOccurrencesSpec(ms: seq<Measurement>)
    ensures Distinct(FirstOccurrences(ms))
    ensures forall k :: k in FirstOccurrences(ms) <==> k in Muids(ms)
  {
    if ms != [] {
      var n := |ms| - 1;
      FirstOccurrencesSpec(ms[..n]);
      assert ms[..n + 1] == ms;
      MuidsSnoc(ms, n);
    }
  }

  /** The position at which muid `k` first occurs. */
  function FirstIndex(ms: seq<Measurement>, k: string): (i: nat)
    requires k in Muids(ms)
    ensures i < |ms| && ms[i].muid == k
    ensures forall j :: 0 <= j < i ==> ms[j].muid != k
  {
    assert ms == [ms[0]] + ms[1..];
    if ms[0].muid == k then 0
    else
      assert k in Muids(ms[1..]);
      var i := FirstIndex(ms[1..], k);
      assert forall j :: 1 <= j <= i ==> ms[1..][j - 1] == ms[j];
      1 + i
  }

  /** First occurrences do not move when the sequence grows at its end. */
  lemma FirstIndexPrefix(ms: seq<Measurement>, n: nat, k: string)
    requires n <= |ms| && k in Muids(ms[..n])
    ensures k in Muids(ms) && FirstIndex(ms, k) == FirstIndex(ms[..n], k)
  {
  }

  /** The groups of the reference order appear in the order of the first occurrence of their muid. */
  lemma {:induction false} FirstOccurrencesOrdered(ms: seq<Measurement>)
    ensures forall a, b :: 0 <= a < b < |FirstOccurrences(ms)| ==>
              FirstOccurrences(ms)[a] in Muids(ms) && FirstOccurrences(ms)[b] in Muids(ms) &&
              FirstIndex(ms, FirstOccurrences(ms)[a]) < FirstIndex(ms, FirstOccurrences(ms)[b])
  {
    FirstOccurrencesSpec(ms);
    if ms != [] {
      var n := |ms| - 1;
      var prev := FirstOccurrences(ms[..n]);
      var fo := FirstOccurrences(ms);
      FirstOccurrencesOrdered(ms[..n]);
      FirstOccurrencesSpec(ms[..n]);
      forall a, b | 0 <= a < b < |fo|
        ensures FirstIndex(ms, fo[a]) < FirstIndex(ms, fo[b])
      {
        FirstIndexPrefix(ms, n, fo[a]);
        if b < |prev| {
          FirstIndexPrefix(ms, n, fo[b]);
        } else {
          assert fo[b] == ms[n].muid && fo[b] !in prev;
          assert fo[b] !in Muids(ms[..n]);
          assert FirstIndex(ms, fo[b]) == n;
        }
      }
    }
  }

  /** Some position holds an inherited muid exactly when some point does. */
  lemma InheritedPoint(ms: seq<Measurement>)
    ensures (exists i :: 0 <= i < |ms| && ms[i].muid in InheritedNames) <==> (exists m :: m in ms && m.muid in InheritedNames)
  {
    if exists m :: m in ms && m.muid in InheritedNames {
      var m :| m in ms && m.muid in InheritedNames;
      var i :| 0 <= i < |ms| && ms[i] == m;
    }
  }

  /** What the `reduce` leaves in its accumulator when it does not throw. */
  function GroupedSpec(ms: seq<Measurement>): Grouped
  {
    Grouped(FirstOccurrences(ms), map k | k in Muids(ms) :: OfMuid(ms, k))
  }

  /**
   * The grouping `reduce`: it throws a TypeError as soon as a muid names an
   * inherited member, which happens exactly when some point carries such a
   * muid; otherwise it leaves the reference grouping. The contract restates
   * the throw condition by membership; the lemmas below characterise the
   * reference grouping on its own.
   */
  function Group(ms: seq<Measurement>): (r: Result<Grouped, JsError>)
    ensures r.Failure? <==> exists m :: m in ms && m.muid in InheritedNames
    ensures r.Failure? ==> r.error == TypeError
    ensures r.Success? ==> r.value == GroupedSpec(ms)
  {
    InheritedPoint(ms);
    if exists i :: 0 <= i < |ms| && ms[i].muid in InheritedNames then Failure(TypeError)
    else Success(GroupedSpec(ms))
  }

  /** The array a key holds, or none. */
  function Get(g: Grouped, k: string): seq<Measurement>
  {
    if k in g.entries then g.entries[k] else []
  }

  /** Every key's array is that muid's measurements, in input order (and empty for any other key). */
  lemma GetSpec(ms: seq<Measurement>, k: string)
    ensures Get(GroupedSpec(ms), k) == OfMuid(ms, k)
  {
    if k !in Muids(ms) {
      assert forall i :: 0 <= i < |ms| ==> MuidOf(ms[i]) != k by {
        forall i | 0 <= i < |ms| ensures MuidOf(ms[i]) != k {
          assert ms[i] in ms;
        }
      }
      WithKeyAllOrNone(ms, MuidOf, k);
    }
  }

  /**
   * The reducer callback on a muid it can push onto: creates the key with an
   * empty array when it is not there yet, then pushes the point.
   */
  function Step(acc: Grouped, m: Measurement): (r: Grouped)
    ensures r.keys == if m.muid in acc.entries then acc.keys else acc.keys + [m.muid]
    ensures r.entries.Keys == acc.entries.Keys + {m.muid}
    ensures r.entries[m.muid] == Get(acc, m.muid) + [m]
    ensures forall k :: k in acc.entries && k != m.muid ==> r.entries[k] == acc.entries[k]
  {
    var created := if m.muid in acc.entries then acc else Grouped(acc.keys + [m.muid], acc.entries[m.muid := []]);
    Grouped(created.keys, created.entries[m.muid := created.entries[m.muid] + [m]])
  }

  /** A muid seen for the first time becomes the last key; a known one adds none. */
  lemma KeysStep(ms: seq<Measurement>, i: nat)
    requires i < |ms|
    ensures FirstOccurrences(ms[..i + 1]) ==
              if ms[i].muid in Muids(ms[..i]) then FirstOccurrences(ms[..i])
              else FirstOccurrences(ms[..i]) + [ms[i].muid]
  {
    assert ms[..i + 1][..i] == ms[..i];
    assert ms[..i + 1][i] == ms[i];
    FirstOccurrencesSpec(ms[..i]);
  }

  /** A point joins the selection of its own muid only, at its end. */
  lemma OfMuidStep(ms: seq<Measurement>, i: nat, k: string)
    requires i < |ms|
    ensures OfMuid(ms[..i + 1], k) == OfMuid(ms[..i], k) + (if ms[i].muid == k then [ms[i]] else [])
  {
    var m := ms[i];
    assert ms[..i + 1] == ms[..i] + [m];
    WithKeyConcat(ms[..i], [m], MuidOf, k);
    assert [m][1..] == [];
    assert WithKey([m], MuidOf, k) == (if m.muid == k then [m] else []) + [];
  }

  lemma EntriesStep(ms: seq<Measurement>, i: nat)
    requires i < |ms|
    ensures var g := GroupedSpec(ms[..i]);
            GroupedSpec(ms[..i + 1]).entries == g.entries[ms[i].muid := Get(g, ms[i].muid) + [ms[i]]]
  {
    var g := GroupedSpec(ms[..i]);
    var m := ms[i];
    var e := GroupedSpec(ms[..i + 1]).entries;
    var e' := g.entries[m.muid := Get(g, m.muid) + [m]];
    MuidsSnoc(ms, i);
    assert e.Keys == e'.Keys;
    forall k | k in e.Keys ensures e[k] == e'[k] {
      OfMuidStep(ms, i, k);
      GetSpec(ms[..i], k);
    }
  }

  /** One step of the `reduce`: the callback takes the reference grouping of a prefix to that of the longer prefix. */
  lemma GroupedSpecStep(ms: seq<Measurement>, i: nat)
    requires i < |ms|
    ensures GroupedSpec(ms[..i + 1]) == Step(GroupedSpec(ms[..i]), ms[i])
  {
    var g := GroupedSpec(ms[..i]);
    var m := ms[i];
    KeysStep(ms, i);
    EntriesStep(ms, i);
    if m.muid !in g.entries {
      assert [] + [m] == [m];
      assert g.entries[m.muid := []][m.muid := [m]] == g.entries[m.muid := Get(g, m.muid) + [m]];
    }
  }

  /** The callback applied to every point in turn, from the empty object. */
  function Fold(ms: seq<Measurement>): Grouped
  {
    if ms == [] then Grouped([], map[]) else Step(Fold(ms[..|ms| - 1]), ms[|ms| - 1])
  }

  /** Folding the callback over the points yields the reference grouping. */
  lemma {:induction false} FoldIsGrouping(ms: seq<Measurement>)
    ensures Fold(ms) == GroupedSpec(ms)
  {
    if ms == [] {
      assert Muids(ms) == {};
    } else {
      var n := |ms| - 1;
      FoldIsGrouping(ms[..n]);
      GroupedSpecStep(ms, n);
      assert ms[..n + 1] == ms;
    }
  }

  /**
   * The `reduce` itself: creates a key the first time a muid is seen and
   * pushes every measurement onto its muid's array.
   */
  method GroupByMuid(ms: seq<Measurement>) returns (r: Result<Grouped, JsError>)
    ensures r == Group(ms)
  {
    var acc := Grouped([], map[]);
    var i := 0;
    while i < |ms|
      invariant 0 <= i <= |ms|
      invariant forall j :: 0 <= j < i ==> ms[j].muid !in InheritedNames
      invariant acc == Fold(ms[..i])
    {
      var measurement := ms[i];
      if measurement.muid in InheritedNames {
        assert Group(ms) == Failure(TypeError);
        return Failure(TypeError);
      }
      ghost var before := acc;
      if measurement.muid !in acc.entries {
        acc := Grouped(acc.keys + [measurement.muid], acc.entries[measurement.muid := []]);
      }
      acc := acc.(entries := acc.entries[measurement.muid := acc.entries[measurement.muid] + [measurement]]);
      assert acc == Step(before, measurement);
      assert ms[..i + 1][..i] == ms[..i];
      assert Fold(ms[..i + 1]) == Step(Fold(ms[..i]), measurement);
      i := i + 1;
    }
    assert ms[..i] == ms;
    FoldIsGrouping(ms);
    assert Group(ms) == Success(GroupedSpec(ms));
    return Success(acc);
  }

  // ---------------------------------------------------------------------------
  // Enumerating the accumulator
  // ---------------------------------------------------------------------------

  predicate IsDigit(c: char)
  {
    '0' <= c <= '9'
  }

  /** The number a string of decimal digits denotes. */
  function DecimalValue(s: string): int
  {
    if s == [] then 0 else DecimalValue(s[..|s| - 1]) * 10 + (s[|s| - 1] as int - '0' as int)
  }

  /** A canonical array index: a decimal numeral without leading zeros below 2^32 - 1. */
  predicate IsArrayIndex(s: string)
  {
    && |s| > 0
    && (forall i :: 0 <= i < |s| ==> IsDigit(s[i]))
    && (s[0] != '0' || |s| == 1)
    && DecimalValue(s) < 4294967295
  }

  /**
   * The order in which `Object.entries` lists an object's own keys: every
   * key once, the array indices first and in ascending numeric order, then
   * every other key in creation order.
   */
  function EntriesOrder(keys: seq<string>): (r: seq<string>)
    ensures multiset(r) == multiset(keys)
    ensures forall i, j :: 0 <= i < j < |r| && IsArrayIndex(r[j]) ==>
              IsArrayIndex(r[i]) && DecimalValue(r[i]) <= DecimalValue(r[j])
    ensures WithKey(r, IsArrayIndex, false) == WithKey(keys, IsArrayIndex, false)
  {
    SortedSelectionFirst(keys, IsArrayIndex, DecimalValue);
    SortBy(WithKey(keys, IsArrayIndex, true), DecimalValue) + WithKey(keys, IsArrayIndex, false)
  }

  /** Without array-index keys, `Object.entries` follows creation order. */
  lemma EntriesOrderOfNames(keys: seq<string>)
    requires forall i :: 0 <= i < |keys| ==> !IsArrayIndex(keys[i])
    ensures EntriesOrder(keys) == keys
  {
    WithKeyAllOrNone(keys, IsArrayIndex, true);
    WithKeyAllOrNone(keys, IsArrayIndex, false);
    assert |SortBy(WithKey(keys, IsArrayIndex, true), DecimalValue)| == 0;
  }

  /** The sort key of the time comparator: the instant each point's time string denotes. */
  function ByTime(timeOf: string -> int): Measurement -> int
  {
    (m: Measurement) => timeOf(m.time)
  }

  /** One series per key, in the order given, holding that key's array sorted by time. */
  function Project(order: seq<string>, g: Grouped, timeOf: string -> int): (r: seq<MuidData>)
    ensures |r| == |order|
    ensures forall i :: 0 <= i < |order| ==> r[i].muid == order[i]
  {
    if order == [] then []
    else
      var rest := Project(order[1..], g, timeOf);
      assert forall i :: 1 <= i < |order| ==> order[1..][i - 1] == order[i];
      [MuidData(order[0], SortBy(Get(g, order[0]), ByTime(timeOf)))] + rest
  }

  /** The series the memo yields when the grouping does not throw. */
  function Series(ms: seq<Measurement>, timeOf: string -> int): seq<MuidData>
  {
    var g := GroupedSpec(ms);
    Project(EntriesOrder(g.keys), g, timeOf)
  }

  /**
   * The memoised computation, from the loaded pages to one series per muid.
   * It throws exactly when some loaded muid names an inherited member of a
   * plain object, and otherwise yields the series of the loaded points.
   */
  function ComputeMuidData(data: Option<seq<Page>>, timeOf: string -> int): (r: Result<seq<MuidData>, JsError>)
    ensures r == if exists m :: m in Flattened(data) && m.muid in InheritedNames then Failure(TypeError)
                 else Success(Series(Flattened(data), timeOf))
  {
    match Group(Flattened(data))
    case Failure(e) => Failure(e)
    case Success(g) => Success(Project(EntriesOrder(g.keys), g, timeOf))
  }

  // ---------------------------------------------------------------------------
  // Properties of the series
  // ---------------------------------------------------------------------------

  lemma {:induction false} ProjectAt(order: seq<string>, g: Grouped, timeOf: string -> int, i: nat)
    requires i < |order|
    ensures |Project(order, g, timeOf)| == |order|
    ensures Project(order, g, timeOf)[i] == MuidData(order[i], SortBy(Get(g, order[i]), ByTime(timeOf)))
  {
    if i > 0 {
      ProjectAt(order[1..], g, timeOf, i - 1);
    } else if |order| > 1 {
      ProjectAt(order[1..], g, timeOf, 0);
    }
  }

  /** The keys `Object.entries` visits: each muid of the input exactly once. */
  lemma EntryKeys(ms: seq<Measurement>)
    ensures var order := EntriesOrder(GroupedSpec(ms).keys);
            && Distinct(order)
            && |order| == |FirstOccurrences(ms)|
            && (forall k :: k in order <==> k in Muids(ms))
  {
    var keys := GroupedSpec(ms).keys;
    var order := EntriesOrder(keys);
    FirstOccurrencesSpec(ms);
    DistinctPermutation(keys, order);
    assert |order| == |keys| by {
      assert |multiset(order)| == |multiset(keys)|;
    }
    forall k ensures k in order <==> k in Muids(ms) {
      assert k in order <==> k in multiset(order);
      assert k in keys <==> k in multiset(keys);
    }
  }

  /**
   * One series per distinct muid of the input, and no muid twice.
   */
  lemma SeriesMuids(ms: seq<Measurement>, timeOf: string -> int)
    ensures var gs := Series(ms, timeOf);
            && |gs| == |FirstOccurrences(ms)|
            && (forall a, b :: 0 <= a < b < |gs| ==> gs[a].muid != gs[b].muid)
            && (forall k :: k in Muids(ms) <==> exists i :: 0 <= i < |gs| && gs[i].muid == k)
  {
    var g := GroupedSpec(ms);
    var order := EntriesOrder(g.keys);
    var gs := Project(order, g, timeOf);
    assert gs == Series(ms, timeOf);
    EntryKeys(ms);
    forall k | k in Muids(ms) ensures exists i :: 0 <= i < |gs| && gs[i].muid == k {
      var i :| 0 <= i < |order| && order[i] == k;
      assert gs[i].muid == k;
    }
  }

  /**
   * Each series holds its muid's measurements sorted by time with a stable
   * sort: ordered by time, a permutation of its muid's measurements, and
   * with measurements of equal time in input order.
   */
  lemma SeriesData(ms: seq<Measurement>, timeOf: string -> int, i: nat)
    requires i < |Series(ms, timeOf)|
    ensures var s := Series(ms, timeOf)[i];
            && s.data == SortBy(OfMuid(ms, s.muid), ByTime(timeOf))
            && Sorted(s.data, ByTime(timeOf))
            && multiset(s.data) == multiset(OfMuid(ms, s.muid))
            && (forall t :: WithKey(s.data, ByTime(timeOf), t) == WithKey(OfMuid(ms, s.muid), ByTime(timeOf), t))
  {
    var g := GroupedSpec(ms);
    var order := EntriesOrder(g.keys);
    ProjectAt(order, g, timeOf, i);
    GetSpec(ms, order[i]);
  }

  /** A measurement is in a series exactly when it was loaded and carries that series' muid. */
  lemma SeriesMembers(ms: seq<Measurement>, timeOf: string -> int, i: nat, m: Measurement)
    requires i < |Series(ms, timeOf)|
    ensures var s := Series(ms, timeOf)[i];
            m in s.data <==> m in ms && m.muid == s.muid
  {
    SeriesData(ms, timeOf, i);
    var s := Series(ms, timeOf)[i];
    WithKeyElements(ms, MuidOf, s.muid);
    assert m in s.data <==> m in multiset(s.data);
    assert m in OfMuid(ms, s.muid) <==> m in multiset(OfMuid(ms, s.muid));
  }

  /** Without array-index muids, the series follow the order in which their muid first occurs. */
  lemma SeriesOrder(ms: seq<Measurement>, timeOf: string -> int)
    requires forall m :: m in ms ==> !IsArrayIndex(m.muid)
    ensures var gs := Series(ms, timeOf);
            var fo := FirstOccurrences(ms);
            |gs| == |fo| && forall i :: 0 <= i < |gs| ==> gs[i].muid == fo[i]
  {
    var g := GroupedSpec(ms);
    FirstOccurrencesSpec(ms);
    forall i | 0 <= i < |g.keys| ensures !IsArrayIndex(g.keys[i]) {
      assert g.keys[i] in Muids(ms);
    }
    EntriesOrderOfNames(g.keys);
  }

  // ---------------------------------------------------------------------------
  // Counting
  // ---------------------------------------------------------------------------

  /** The number of points over all series. */
  function TotalSize(gs: seq<MuidData>): nat
  {
    if gs == [] then 0 else |gs[0].data| + TotalSize(gs[1..])
  }

  /** The measurements whose muid is one of `keys`, in input order. */
  function InMuids(ms: seq<Measurement>, keys: seq<string>): seq<Measurement>
  {
    if ms == [] then [] else (if ms[0].muid in keys then [ms[0]] else []) + InMuids(ms[1..], keys)
  }

  lemma {:induction false} InMuidsCons(ms: seq<Measurement>, keys: seq<string>)
    requires keys != [] && keys[0] !in keys[1..]
    ensures |InMuids(ms, keys)| == |InMuids(ms, keys[1..])| + |OfMuid(ms, keys[0])|
  {
    if ms != [] {
      InMuidsCons(ms[1..], keys);
      assert ms[0].muid in keys <==> ms[0].muid == keys[0] || ms[0].muid in keys[1..] by {
        assert keys == [keys[0]] + keys[1..];
      }
    }
  }

  lemma {:induction false} InMuidsAll(ms: seq<Measurement>, keys: seq<string>)
    requires forall i :: 0 <= i < |ms| ==> ms[i].muid in keys
    ensures InMuids(ms, keys) == ms
  {
    if ms != [] {
      assert ms == [ms[0]] + ms[1..];
      assert forall i :: 1 <= i < |ms| ==> ms[1..][i - 1] == ms[i];
      InMuidsAll(ms[1..], keys);
    }
  }

  lemma {:induction false} InMuidsEmpty(ms: seq<Measurement>)
    ensures InMuids(ms, []) == []
  {
    if ms != [] {
      InMuidsEmpty(ms[1..]);
    }
  }

  lemma DistinctTail(order: seq<string>)
    requires Distinct(order) && order != []
    ensures Distinct(order[1..]) && order[0] !in order[1..]
  {
  }

  lemma {:induction false} ProjectSize(order: seq<string>, g: Grouped, ms: seq<Measurement>, timeOf: string -> int)
    requires Distinct(order)
    requires forall k :: Get(g, k) == OfMuid(ms, k)
    ensures TotalSize(Project(order, g, timeOf)) == |InMuids(ms, order)|
  {
    if order == [] {
      InMuidsEmpty(ms);
    } else {
      DistinctTail(order);
      ProjectSize(order[1..], g, ms, timeOf);
      InMuidsCons(ms, order);
      var x := OfMuid(ms, order[0]);
      assert |multiset(SortBy(x, ByTime(timeOf)))| == |multiset(x)|;
    }
  }

  /** The series together hold exactly as many points as were loaded. */
  lemma SeriesCount(ms: seq<Measurement>, timeOf: string -> int)
    ensures TotalSize(Series(ms, timeOf)) == |ms|
  {
    var order := EntriesOrder(GroupedSpec(ms).keys);
    assert Series(ms, timeOf) == Project(order, GroupedSpec(ms), timeOf);
    EntryKeys(ms);
    forall k ensures Get(GroupedSpec(ms), k) == OfMuid(ms, k) {
      GetSpec(ms, k);
    }
    ProjectSize(order, GroupedSpec(ms), ms, timeOf);
    forall i | 0 <= i < |ms| ensures ms[i].muid in order {
      assert ms[i] in ms;
    }
    InMuidsAll(ms, order);
  }

  // ---------------------------------------------------------------------------
  // Loading the next page
  // ---------------------------------------------------------------------------

  /** The next page parameter: the cursor the last loaded page returned, if any. The contract states that rule outright. */
  function NextPageParam(pages: seq<Page>): (r: Option<int>)
    ensures pages == [] ==> r.None?
    ensures pages != [] ==> r == pages[|pages| - 1].nextCursor
  {
    if pages == [] then None else pages[|pages| - 1].nextCursor
  }

  /** The query's `hasNextPage`: the next page parameter is defined. The contract states the rule in terms of the last page. */
  predicate HasNextPage(pages: seq<Page>)
    ensures HasNextPage(pages) <==> pages != [] && pages[|pages| - 1].nextCursor.Some?
  {
    NextPageParam(pages).Some?
  }

  /** What `loadMore` does: nothing, or request the page after a cursor. */
  datatype Request = NoRequest | FetchPage(cursor: int)

  /**
   * `loadMore`: requests a page only when there is a next page, and then
   * with the cursor the last loaded page returned. The guard is itself the
   * behaviour promised, so the contract states that guard as the rule.
   */
  function LoadMore(pages: seq<Page>): (r: Request)
    ensures r.FetchPage? <==> HasNextPage(pages)
    ensures r.FetchPage? ==> pages != [] && pages[|pages| - 1].nextCursor == Some(r.cursor)
  {
    if HasNextPage(pages) then FetchPage(NextPageParam(pages).value) else NoRequest
  }

  /** Once a page arrives without a cursor, `loadMore` requests nothing more. */
  lemma LoadMoreStopsAtLastPage(pages: seq<Page>, last: Page)
    requires last.nextCursor.None?
    ensures LoadMore(pages + [last]) == NoRequest
  {
  }
}

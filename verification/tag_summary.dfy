/** The tag-count aggregation of `src/run_lab2.py`: one pass over the points
    counts each `tag` (absent tags forming their own bucket) in an
    insertion-ordered dictionary, and the report lists one single-entry
    mapping per bucket in first-seen order. */
module TagSummary {
  import opened Wrappers
  import Spatial

  /** A tag value; `None` is the bucket of points without a tag. */
  type Tag = Option<string>

  /** The items of an insertion-ordered dictionary from tag to count, in
      insertion order, as Python's `dict.items()` yields them. */
  type Counts = seq<(Tag, nat)>

  // ---------------------------------------------------------------------
  // The dictionary
  // ---------------------------------------------------------------------

  /** The keys of the dictionary, in insertion order. */
  function Keys(c: Counts): seq<Tag> {
    if |c| == 0 then [] else [c[0].0] + Keys(c[1..])
  }

  /** `counts.get(tag, 0)`: the count stored under `x`, or 0 if `x` is not a key. */
  function Get(c: Counts, x: Tag): (n: nat)
    ensures x !in Keys(c) ==> n == 0
    ensures x in Keys(c) ==> exists i :: 0 <= i < |c| && c[i].0 == x && n == c[i].1
  {
    if |c| == 0 then 0
    else if c[0].0 == x then c[0].1
    else Get(c[1..], x)
  }

  /** The sum of all counts stored in the dictionary. */
  function Total(c: Counts): nat {
    if |c| == 0 then 0 else c[0].1 + Total(c[1..])
  }

  /** `counts[tag] = counts.get(tag, 0) + 1`: an existing key keeps its place
      and gains one; a new key is appended with count 1. */
  function Bump(c: Counts, t: Tag): (r: Counts)
    ensures forall x :: Get(r, x) == if x == t then Get(c, t) + 1 else Get(c, x)
    ensures Keys(r) == if t in Keys(c) then Keys(c) else Keys(c) + [t]
    ensures Total(r) == Total(c) + 1
  {
    if |c| == 0 then [(t, 1)]
    else if c[0].0 == t then [(t, c[0].1 + 1)] + c[1..]
    else [c[0]] + Bump(c[1..], t)
  }

  /** The dictionary after the loop has run over `ts`, one `Bump` per
      element: its counts add up to the number of elements. */
  function Tally(ts: seq<Tag>): (c: Counts)
    ensures Total(c) == |ts|
  {
    if |ts| == 0 then [] else Bump(Tally(ts[..|ts| - 1]), ts[|ts| - 1])
  }

  /** `point.tag` for every point, in order. */
  function TagsOf(points: seq<Spatial.Point>): (ts: seq<Tag>)
    ensures |ts| == |points|
    ensures forall i :: 0 <= i < |points| ==> ts[i] == points[i].tag
  {
    seq(|points|, i requires 0 <= i < |points| => points[i].tag)
  }

  /** `summary["tags"]`: each dictionary item as a mapping with that one entry. */
  function Singletons(c: Counts): (tags: seq<map<Tag, nat>>)
    ensures |tags| == |c|
    ensures forall i :: 0 <= i < |c| ==> tags[i].Keys == {c[i].0} && tags[i][c[i].0] == c[i].1
  {
    seq(|c|, i requires 0 <= i < |c| => map[c[i].0 := c[i].1])
  }

  // ---------------------------------------------------------------------
  // The reference: multiplicity and first appearance
  // ---------------------------------------------------------------------

  /** How many elements of `ts` equal `x`. */
  function Multiplicity(ts: seq<Tag>, x: Tag): nat {
    multiset(ts)[x]
  }

  /** The position of the first occurrence of `x` in `ts`. */
  function FirstIndex(ts: seq<Tag>, x: Tag): (k: nat)
    requires x in ts
    ensures k < |ts| && ts[k] == x && x !in ts[..k]
  {
    if ts[0] == x then 0 else 1 + FirstIndex(ts[1..], x)
  }

  /** No key occurs twice. */
  predicate Distinct(ks: seq<Tag>) {
    forall i, j :: 0 <= i < j < |ks| ==> ks[i] != ks[j]
  }

  /** Every key occurs in `ts`, and the keys are listed in the order in which
      they first occur in `ts`. */
  predicate FirstSeenOrder(ks: seq<Tag>, ts: seq<Tag>) {
    && (forall i :: 0 <= i < |ks| ==> ks[i] in ts)
    && (forall i, j :: 0 <= i < j < |ks| ==> ks[i] in ts && ks[j] in ts && FirstIndex(ts, ks[i]) < FirstIndex(ts, ks[j]))
  }

  // ---------------------------------------------------------------------
  // Properties of the fold
  // ---------------------------------------------------------------------

  /** The keys list has one entry per item, and entry `i` is item `i`'s key. */
  lemma {:induction false} KeysIndex(c: Counts, i: nat)
    requires i < |c|
    ensures |Keys(c)| == |c| && Keys(c)[i] == c[i].0
    decreases |c|
  {
    if i > 0 {
      KeysIndex(c[1..], i - 1);
    } else if |c| > 1 {
      KeysIndex(c[1..], 0);
    }
  }

  /** The keys list is as long as the item list. */
  lemma {:induction false} KeysLength(c: Counts)
    ensures |Keys(c)| == |c|
    decreases |c|
  {
    if |c| > 0 {
      KeysLength(c[1..]);
    }
  }

  /** In a dictionary with distinct keys, each item's count is what `get`
      returns for its key. */
  lemma {:induction false} GetAtDistinctKey(c: Counts, i: nat)
    requires Distinct(Keys(c)) && i < |c|
    ensures Get(c, c[i].0) == c[i].1
    decreases |c|
  {
    KeysLength(c);
    if i > 0 {
      KeysIndex(c, 0);
      KeysIndex(c, i);
      assert Keys(c)[0] != Keys(c)[i];
      assert Keys(c[1..]) == Keys(c)[1..];
      GetAtDistinctKey(c[1..], i - 1);
    }
  }

  /** Splitting off the last element of a non-empty sequence. */
  lemma SplitLast(ts: seq<Tag>)
    requires |ts| > 0
    ensures ts == ts[..|ts| - 1] + [ts[|ts| - 1]]
    ensures multiset(ts) == multiset(ts[..|ts| - 1]) + multiset{ts[|ts| - 1]}
  {
    assert ts == ts[..|ts| - 1] + [ts[|ts| - 1]];
  }

  /** Each count the loop leaves equals the number of occurrences. */
  lemma {:induction false} TallyCountsMultiplicity(ts: seq<Tag>, x: Tag)
    ensures Get(Tally(ts), x) == Multiplicity(ts, x)
    decreases |ts|
  {
    if |ts| > 0 {
      SplitLast(ts);
      TallyCountsMultiplicity(ts[..|ts| - 1], x);
    }
  }

  /** The keys are exactly the values occurring in `ts`, without repetition. */
  lemma {:induction false} TallyKeysDistinctAndComplete(ts: seq<Tag>)
    ensures Distinct(Keys(Tally(ts)))
    ensures forall x :: x in Keys(Tally(ts)) <==> x in ts
    decreases |ts|
  {
    if |ts| > 0 {
      var p, t := ts[..|ts| - 1], ts[|ts| - 1];
      SplitLast(ts);
      TallyKeysDistinctAndComplete(p);
      var ks := Keys(Tally(p));
      if t !in ks {
        var ks' := ks + [t];
        assert Keys(Tally(ts)) == ks';
        forall i, j | 0 <= i < j < |ks'|
          ensures ks'[i] != ks'[j]
        {
          if j == |ks| {
            assert ks'[i] == ks[i] && ks[i] in ks;
          }
        }
      }
    }
  }

  /** Appending an element leaves the first occurrence of an earlier value
      where it was. */
  lemma {:induction false} FirstIndexAppendOld(ts: seq<Tag>, t: Tag, x: Tag)
    requires x in ts
    ensures FirstIndex(ts + [t], x) == FirstIndex(ts, x)
    decreases |ts|
  {
    if ts[0] != x {
      assert (ts + [t])[1..] == ts[1..] + [t];
      FirstIndexAppendOld(ts[1..], t, x);
    }
  }

  /** Appending a value not seen before puts its first occurrence at the end. */
  lemma {:induction false} FirstIndexAppendNew(ts: seq<Tag>, x: Tag)
    requires x !in ts
    ensures FirstIndex(ts + [x], x) == |ts|
    decreases |ts|
  {
    if |ts| > 0 {
      assert (ts + [x])[1..] == ts[1..] + [x];
      FirstIndexAppendNew(ts[1..], x);
    }
  }

  /** The keys come out in the order their values are first seen. */
  lemma {:induction false} TallyKeysFirstSeen(ts: seq<Tag>)
    ensures FirstSeenOrder(Keys(Tally(ts)), ts)
    decreases |ts|
  {
    if |ts| > 0 {
      var p, t := ts[..|ts| - 1], ts[|ts| - 1];
      SplitLast(ts);
      TallyKeysFirstSeen(p);
      TallyKeysDistinctAndComplete(p);
      var ks := Keys(Tally(p));
      forall x | x in p
        ensures FirstIndex(ts, x) == FirstIndex(p, x)
      {
        FirstIndexAppendOld(p, t, x);
      }
      if t !in ks {
        FirstIndexAppendNew(p, t);
        var ks' := ks + [t];
        assert Keys(Tally(ts)) == ks';
        forall i, j | 0 <= i < j < |ks'|
          ensures ks'[i] in ts && ks'[j] in ts && FirstIndex(ts, ks'[i]) < FirstIndex(ts, ks'[j])
        {
          if j == |ks| {
            assert ks'[i] == ks[i] && ks[i] in p;
          } else {
            assert ks'[i] == ks[i] && ks'[j] == ks[j];
          }
        }
      }
    }
  }

  // ---------------------------------------------------------------------
  // The report: a list of single-entry mappings
  // ---------------------------------------------------------------------

  /** The sum of the values of a mapping. */
  ghost function MapTotal(m: map<Tag, nat>): nat
    decreases |m|
  {
    if |m| == 0 then 0
    else
      assert m.Keys != {};
      var k :| k in m;
      m[k] + MapTotal(m - {k})
  }

  /** The sum of all counts listed in a report. */
  ghost function ReportTotal(tags: seq<map<Tag, nat>>): nat {
    if |tags| == 0 then 0 else MapTotal(tags[0]) + ReportTotal(tags[1..])
  }

  /** Every entry of the report is a mapping with exactly one key. */
  ghost predicate SingleEntries(tags: seq<map<Tag, nat>>) {
    forall i :: 0 <= i < |tags| ==> |tags[i]| == 1
  }

  /** Every listed key is a tag of `ts`, listed with its number of occurrences. */
  ghost predicate CountsAreMultiplicities(tags: seq<map<Tag, nat>>, ts: seq<Tag>) {
    forall i, k :: 0 <= i < |tags| && k in tags[i] ==>
      k in ts && tags[i][k] == Multiplicity(ts, k) && tags[i][k] >= 1
  }

  /** Every tag of `ts` is listed. */
  ghost predicate ListsEveryTag(tags: seq<map<Tag, nat>>, ts: seq<Tag>) {
    forall n :: 0 <= n < |ts| ==> exists i :: 0 <= i < |tags| && ts[n] in tags[i]
  }

  /** Entries appear in the order their tags first occur in `ts`; in
      particular no tag is listed twice. */
  ghost predicate EntriesInFirstSeenOrder(tags: seq<map<Tag, nat>>, ts: seq<Tag>) {
    forall i, j :: 0 <= i < j < |tags| ==>
      forall k, k' :: k in tags[i] && k' in tags[j] ==>
        k in ts && k' in ts && FirstIndex(ts, k) < FirstIndex(ts, k')
  }

  /** `tags` is a correct `summary["tags"]` for the tag sequence `ts`. */
  ghost predicate IsTagReport(tags: seq<map<Tag, nat>>, ts: seq<Tag>) {
    && SingleEntries(tags)
    && CountsAreMultiplicities(tags, ts)
    && ListsEveryTag(tags, ts)
    && EntriesInFirstSeenOrder(tags, ts)
  }

  lemma MapTotalOfSingleton(k: Tag, v: nat)
    ensures MapTotal(map[k := v]) == v
  {
    var m := map[k := v];
    assert |m| == 1;
    var k' :| k' in m && MapTotal(m) == m[k'] + MapTotal(m - {k'});
    assert k' == k;
    assert m - {k'} == map[];
  }

  /** The counts listed in the report add up to what the dictionary holds. */
  lemma {:induction false} SingletonsTotal(c: Counts)
    ensures ReportTotal(Singletons(c)) == Total(c)
    decreases |c|
  {
    if |c| > 0 {
      MapTotalOfSingleton(c[0].0, c[0].1);
      assert Singletons(c)[1..] == Singletons(c[1..]);
      SingletonsTotal(c[1..]);
    }
  }

  /** Every mapping the comprehension builds has exactly one key. */
  lemma SingletonsAreSingleEntries(c: Counts)
    ensures SingleEntries(Singletons(c))
  {
    var tags := Singletons(c);
    forall i | 0 <= i < |tags|
      ensures |tags[i]| == 1
    {
      assert tags[i].Keys == {c[i].0};
    }
  }

  /** The item at position `i` of the loop's dictionary holds a tag of `ts`
      with its number of occurrences. */
  lemma TallyItemCount(ts: seq<Tag>, i: nat)
    requires i < |Tally(ts)|
    ensures Tally(ts)[i].0 in ts
    ensures Tally(ts)[i].1 == Multiplicity(ts, Tally(ts)[i].0) >= 1
  {
    var c := Tally(ts);
    TallyKeysDistinctAndComplete(ts);
    KeysIndex(c, i);
    assert c[i].0 in Keys(c);
    GetAtDistinctKey(c, i);
    TallyCountsMultiplicity(ts, c[i].0);
    assert c[i].0 in multiset(ts);
  }

  /** A dictionary holding each tag with its multiplicity gives a report
      whose entries do. */
  lemma SingletonsCounts(c: Counts, ts: seq<Tag>)
    requires forall i :: 0 <= i < |c| ==> c[i].0 in ts && c[i].1 == Multiplicity(ts, c[i].0) >= 1
    ensures CountsAreMultiplicities(Singletons(c), ts)
  {
    var tags := Singletons(c);
    forall i, k | 0 <= i < |tags| && k in tags[i]
      ensures k in ts && tags[i][k] == Multiplicity(ts, k) && tags[i][k] >= 1
    {
      assert k == c[i].0;
    }
  }

  /** Each count in the report is its tag's multiplicity, and at least 1. */
  lemma TallyReportCounts(ts: seq<Tag>)
    ensures CountsAreMultiplicities(Singletons(Tally(ts)), ts)
  {
    var c := Tally(ts);
    forall i | 0 <= i < |c|
      ensures c[i].0 in ts && c[i].1 == Multiplicity(ts, c[i].0) >= 1
    {
      TallyItemCount(ts, i);
    }
    SingletonsCounts(c, ts);
  }

  /** Every tag that occurs is a key of some mapping in the report. */
  lemma TallyReportListsEveryTag(ts: seq<Tag>)
    ensures ListsEveryTag(Singletons(Tally(ts)), ts)
  {
    var c := Tally(ts);
    var tags := Singletons(c);
    TallyKeysDistinctAndComplete(ts);
    KeysLength(c);
    forall n | 0 <= n < |ts|
      ensures exists i :: 0 <= i < |tags| && ts[n] in tags[i]
    {
      var ks := Keys(c);
      assert ts[n] in ts;
      assert ts[n] in ks;
      var i :| 0 <= i < |ks| && ks[i] == ts[n];
      KeysIndex(c, i);
      assert ts[n] in tags[i];
    }
  }

  /** A dictionary whose keys are in first-seen order gives a report whose
      entries are. */
  lemma SingletonsOrder(c: Counts, ts: seq<Tag>)
    requires FirstSeenOrder(Keys(c), ts)
    ensures EntriesInFirstSeenOrder(Singletons(c), ts)
  {
    var tags := Singletons(c);
    var ks := Keys(c);
    KeysLength(c);
    forall i, j | 0 <= i < j < |tags|
      ensures forall k, k' :: k in tags[i] && k' in tags[j] ==>
                k in ts && k' in ts && FirstIndex(ts, k) < FirstIndex(ts, k')
    {
      KeysIndex(c, i);
      KeysIndex(c, j);
      assert ks[i] in ts && ks[j] in ts && FirstIndex(ts, ks[i]) < FirstIndex(ts, ks[j]);
      forall k, k' | k in tags[i] && k' in tags[j]
        ensures k in ts && k' in ts && FirstIndex(ts, k) < FirstIndex(ts, k')
      {
        assert k == ks[i] && k' == ks[j];
      }
    }
  }

  /** The report built from the dictionary the loop leaves meets the
      multiplicity and first-seen specification, and its counts add up to
      the number of tags counted. */
  lemma TallyReportMeetsSpec(ts: seq<Tag>)
    ensures IsTagReport(Singletons(Tally(ts)), ts)
    ensures ReportTotal(Singletons(Tally(ts))) == |ts|
  {
    SingletonsAreSingleEntries(Tally(ts));
    TallyReportCounts(ts);
    TallyReportListsEveryTag(ts);
    TallyKeysFirstSeen(ts);
    SingletonsOrder(Tally(ts), ts);
    SingletonsTotal(Tally(ts));
  }

  // ---------------------------------------------------------------------
  // The specification admits exactly one report
  // ---------------------------------------------------------------------

  /** The key of a mapping with one entry. */
  ghost function EntryKey(m: map<Tag, nat>): Tag {
    if |m| == 0 then None
    else
      assert m.Keys != {};
      var k :| k in m; k
  }

  lemma EntryKeyOfSingle(m: map<Tag, nat>, k: Tag)
    requires |m| == 1 && k in m
    ensures EntryKey(m) == k && m == map[k := m[k]]
  {
    assert |m.Keys - {k}| == 0;
    assert m.Keys == {k};
  }

  /** Where the key of an entry is first seen in `ts` (-1 if it never is). */
  ghost function Position(ts: seq<Tag>, x: Tag): int {
    if x in ts then FirstIndex(ts, x) else -1
  }

  ghost function Positions(tags: seq<map<Tag, nat>>, ts: seq<Tag>): (xs: seq<int>)
    ensures |xs| == |tags|
    ensures forall i :: 0 <= i < |tags| ==> xs[i] == Position(ts, EntryKey(tags[i]))
  {
    seq(|tags|, i requires 0 <= i < |tags| => Position(ts, EntryKey(tags[i])))
  }

  ghost predicate StrictlyIncreasing(xs: seq<int>) {
    forall i, j :: 0 <= i < j < |xs| ==> xs[i] < xs[j]
  }

  /** Two strictly increasing sequences with the same elements are equal. */
  lemma {:induction false} IncreasingSameElements(xs: seq<int>, ys: seq<int>)
    requires StrictlyIncreasing(xs) && StrictlyIncreasing(ys)
    requires forall v :: v in xs <==> v in ys
    ensures xs == ys
    decreases |xs|
  {
    if |xs| > 0 {
      assert xs[0] in xs;
      var j :| 0 <= j < |ys| && ys[j] == xs[0];
      assert ys[0] in ys;
      var i :| 0 <= i < |xs| && xs[i] == ys[0];
      assert xs[0] <= xs[i] && ys[0] <= ys[j];
      forall v
        ensures v in xs[1..] <==> v in ys[1..]
      {
        if v in xs[1..] {
          var k :| 0 <= k < |xs| - 1 && xs[1..][k] == v;
          assert xs[k + 1] == v && xs[0] < v && v in ys;
          var m :| 0 <= m < |ys| && ys[m] == v;
          assert m != 0 && ys[1..][m - 1] == v;
        }
        if v in ys[1..] {
          var k :| 0 <= k < |ys| - 1 && ys[1..][k] == v;
          assert ys[k + 1] == v && ys[0] < v && v in xs;
          var m :| 0 <= m < |xs| && xs[m] == v;
          assert m != 0 && xs[1..][m - 1] == v;
        }
      }
      IncreasingSameElements(xs[1..], ys[1..]);
      assert xs == [xs[0]] + xs[1..];
      assert ys == [ys[0]] + ys[1..];
    }
  }

  /** Each entry of a report maps its key, a tag of `ts`, to that tag's
      multiplicity. */
  lemma ReportEntry(tags: seq<map<Tag, nat>>, ts: seq<Tag>, i: nat)
    requires IsTagReport(tags, ts) && i < |tags|
    ensures EntryKey(tags[i]) in tags[i] && EntryKey(tags[i]) in ts
    ensures tags[i] == map[EntryKey(tags[i]) := Multiplicity(ts, EntryKey(tags[i]))]
  {
    var k := EntryKey(tags[i]);
    assert |tags[i]| == 1;
    assert tags[i].Keys != {};
    assert k in tags[i];
    EntryKeyOfSingle(tags[i], k);
  }

  /** The positions of a report's keys increase strictly. */
  lemma ReportPositionsIncrease(tags: seq<map<Tag, nat>>, ts: seq<Tag>)
    requires IsTagReport(tags, ts)
    ensures StrictlyIncreasing(Positions(tags, ts))
  {
    var xs := Positions(tags, ts);
    forall i, j | 0 <= i < j < |xs|
      ensures xs[i] < xs[j]
    {
      ReportEntry(tags, ts, i);
      ReportEntry(tags, ts, j);
      var k, k' := EntryKey(tags[i]), EntryKey(tags[j]);
      assert k in tags[i] && k' in tags[j];
    }
  }

  /** The positions of a report's keys are exactly the first-occurrence
      positions of the values of `ts`. */
  lemma ReportPositionsElements(tags: seq<map<Tag, nat>>, ts: seq<Tag>)
    requires IsTagReport(tags, ts)
    ensures forall v :: v in Positions(tags, ts) <==> exists n :: 0 <= n < |ts| && v == FirstIndex(ts, ts[n])
  {
    var xs := Positions(tags, ts);
    forall v
      ensures v in xs <==> exists n :: 0 <= n < |ts| && v == FirstIndex(ts, ts[n])
    {
      if v in xs {
        var i :| 0 <= i < |xs| && xs[i] == v;
        ReportEntry(tags, ts, i);
        var n := FirstIndex(ts, EntryKey(tags[i]));
        assert ts[n] == EntryKey(tags[i]);
      }
      if exists n :: 0 <= n < |ts| && v == FirstIndex(ts, ts[n]) {
        var n :| 0 <= n < |ts| && v == FirstIndex(ts, ts[n]);
        assert ListsEveryTag(tags, ts);
        var i :| 0 <= i < |tags| && ts[n] in tags[i];
        assert |tags[i]| == 1;
        EntryKeyOfSingle(tags[i], ts[n]);
        assert xs[i] == v;
      }
    }
  }

  /** Two lists meeting the report specification for the same tags are
      equal: the specification pins down `summary["tags"]` completely. */
  lemma ReportIsUnique(a: seq<map<Tag, nat>>, b: seq<map<Tag, nat>>, ts: seq<Tag>)
    requires IsTagReport(a, ts) && IsTagReport(b, ts)
    ensures a == b
  {
    ReportPositionsIncrease(a, ts);
    ReportPositionsIncrease(b, ts);
    ReportPositionsElements(a, ts);
    ReportPositionsElements(b, ts);
    IncreasingSameElements(Positions(a, ts), Positions(b, ts));
    forall i | 0 <= i < |a|
      ensures a[i] == b[i]
    {
      var ka, kb := EntryKey(a[i]), EntryKey(b[i]);
      ReportEntry(a, ts, i);
      ReportEntry(b, ts, i);
      assert ts[FirstIndex(ts, ka)] == ka && ts[FirstIndex(ts, kb)] == kb;
    }
  }

  /** A list of single-entry mappings is the report the loop produces exactly
      when it meets the specification. */
  lemma ReportSpecCharacterizes(tags: seq<map<Tag, nat>>, ts: seq<Tag>)
    ensures IsTagReport(tags, ts) <==> tags == Singletons(Tally(ts))
  {
    TallyReportMeetsSpec(ts);
    if IsTagReport(tags, ts) {
      ReportIsUnique(tags, Singletons(Tally(ts)), ts);
    }
  }

  /** An empty point sequence yields an empty tag list. */
  lemma EmptyReport()
    ensures Singletons(Tally(TagsOf([]))) == []
  {
  }

  // ---------------------------------------------------------------------
  // The loop of run_lab2.py
  // ---------------------------------------------------------------------

  /** Builds `summary["tags"]` from the points: the counting loop over
      `pointset.points`, then one single-entry mapping per dictionary item. */
  method SummarizeTags(points: seq<Spatial.Point>) returns (tags: seq<map<Tag, nat>>)
    ensures IsTagReport(tags, TagsOf(points))
    ensures ReportTotal(tags) == |points|
    ensures |points| == 0 ==> tags == []
    ensures tags == Singletons(Tally(TagsOf(points)))
  {
    var counts: Counts := [];
    for n := 0 to |points|
      invariant counts == Tally(TagsOf(points[..n]))
    {
      assert TagsOf(points[..n + 1])[..n] == TagsOf(points[..n]);
      counts := Bump(counts, points[n].tag);
    }
    assert points[..|points|] == points;
    tags := Singletons(counts);
    TallyReportMeetsSpec(TagsOf(points));
  }
}

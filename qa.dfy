/**
 * The QA report over the chunks of a document: how many there are, which
 * identifiers repeat, and for every chapter and every section the smallest and
 * largest clause number, how many distinct numbers occur and which numbers in
 * between are absent.
 */
module Qa {
  import opened Wrappers
  import opened Text
  import opened Assoc
  import opened Chunks

  // ================================================================ duplicates

  function Ids(chunks: seq<Chunk>): seq<string> {
    seq(|chunks|, i requires 0 <= i < |chunks| => chunks[i].id)
  }

  /** Every identifier that repeats an earlier one, once per repetition, in order. */
  function Duplicates(ids: seq<string>): seq<string> {
    if ids == [] then []
    else
      var front := ids[..|ids| - 1];
      Duplicates(front) + (if ids[|ids| - 1] in front then [ids[|ids| - 1]] else [])
  }

  /** The first loop of `build_qa_report`: a set of the identifiers seen so far. */
  method FindDuplicates(ids: seq<string>) returns (dups: seq<string>)
    ensures dups == Duplicates(ids)
  {
    var seen: set<string> := {};
    dups := [];
    for i := 0 to |ids|
      invariant forall x :: x in seen <==> x in ids[..i]
      invariant dups == Duplicates(ids[..i])
    {
      assert ids[..i + 1][..i] == ids[..i];
      assert ids[..i + 1] == ids[..i] + [ids[i]];
      if ids[i] in seen {
        dups := dups + [ids[i]];
      } else {
        seen := seen + {ids[i]};
      }
    }
    assert ids[..|ids|] == ids;
  }

  /** An identifier occurring `m > 0` times is reported `m - 1` times; one that
      does not occur is not reported. */
  lemma {:induction false} DuplicatesCount(ids: seq<string>, x: string)
    ensures multiset(Duplicates(ids))[x] == if x in ids then multiset(ids)[x] - 1 else 0
  {
    if ids != [] {
      var front := ids[..|ids| - 1];
      var last := ids[|ids| - 1];
      assert ids == front + [last];
      DuplicatesCount(front, x);
    }
  }

  /** No identifier is reported exactly when all identifiers are distinct. */
  lemma {:induction false} NoDuplicatesIffDistinct(ids: seq<string>)
    ensures Duplicates(ids) == [] <==> Distinct(ids)
  {
    if ids != [] {
      var front := ids[..|ids| - 1];
      var last := ids[|ids| - 1];
      NoDuplicatesIffDistinct(front);
      if Distinct(ids) {
        assert Distinct(front);
        assert last !in front;
      }
      if Duplicates(ids) == [] {
        assert Duplicates(front) == [] && last !in front;
        forall i, j | 0 <= i < j < |ids| ensures ids[i] != ids[j] {
          if j == |ids| - 1 {
            assert ids[i] == front[i];
          } else {
            assert ids[i] == front[i] && ids[j] == front[j];
          }
        }
      }
    }
  }

  // ================================================================ grouping

  /** `groups.setdefault(key, []).append(value)` over the first `n` pairs. */
  function Grouped<K(==)>(keys: seq<K>, vals: seq<int>, n: nat): Table<K, seq<int>>
    requires n <= |keys| == |vals|
  {
    if n == 0 then [] else Append(Grouped(keys, vals, n - 1), keys[n - 1], vals[n - 1])
  }

  /** The values among the first `n` whose key is `k`, in order. */
  function ValuesFor<K(==)>(keys: seq<K>, vals: seq<int>, k: K, n: nat): seq<int>
    requires n <= |keys| == |vals|
  {
    if n == 0 then [] else ValuesFor(keys, vals, k, n - 1) + (if keys[n - 1] == k then [vals[n - 1]] else [])
  }

  /** A key has values exactly when it occurs. */
  lemma {:induction false} ValuesForPresent<K>(keys: seq<K>, vals: seq<int>, k: K, n: nat)
    requires n <= |keys| == |vals|
    ensures ValuesFor(keys, vals, k, n) != [] <==> k in keys[..n]
  {
    if n > 0 {
      ValuesForPresent(keys, vals, k, n - 1);
      assert keys[..n] == keys[..n - 1] + [keys[n - 1]];
    }
  }

  /** Value `i` is among the values of its key. */
  lemma {:induction false} ValuesForHas<K>(keys: seq<K>, vals: seq<int>, i: nat, n: nat)
    requires i < n <= |keys| == |vals|
    ensures vals[i] in ValuesFor(keys, vals, keys[i], n)
  {
    if i < n - 1 {
      ValuesForHas(keys, vals, i, n - 1);
    }
  }

  /** The entry of key `k` in the grouped table holds the values of `k`, in order. */
  lemma {:induction false} GroupedGet<K>(keys: seq<K>, vals: seq<int>, n: nat, k: K)
    requires n <= |keys| == |vals|
    ensures Get(Grouped(keys, vals, n), k)
         == if ValuesFor(keys, vals, k, n) == [] then None else Some(ValuesFor(keys, vals, k, n))
  {
    if n > 0 {
      var t := Grouped(keys, vals, n - 1);
      var key := keys[n - 1];
      GroupedGet(keys, vals, n - 1, k);
      GroupedGet(keys, vals, n - 1, key);
      AppendSpec(t, key, vals[n - 1], k);
      if k == key {
        assert ValuesFor(keys, vals, k, n) == ValuesFor(keys, vals, k, n - 1) + [vals[n - 1]];
      } else {
        assert ValuesFor(keys, vals, k, n) == ValuesFor(keys, vals, k, n - 1);
      }
    }
  }

  /** The grouped table has one entry per distinct key, in order of first appearance. */
  lemma {:induction false} GroupedKeys<K>(keys: seq<K>, vals: seq<int>, n: nat)
    requires n <= |keys| == |vals|
    ensures Keys(Grouped(keys, vals, n)) == FirstOccurrences(keys[..n])
  {
    if n > 0 {
      var t := Grouped(keys, vals, n - 1);
      var key := keys[n - 1];
      GroupedKeys(keys, vals, n - 1);
      GroupedGet(keys, vals, n - 1, key);
      ValuesForPresent(keys, vals, key, n - 1);
      AppendSpec(t, key, vals[n - 1], key);
      assert keys[..n][..n - 1] == keys[..n - 1];
    }
  }

  /** Every entry of a grouped table holds the values of its key, at least one,
      and the keys are distinct. */
  lemma GroupedEntry<K>(keys: seq<K>, vals: seq<int>, n: nat, i: nat)
    requires n <= |keys| == |vals| && i < |Grouped(keys, vals, n)|
    ensures Distinct(Keys(Grouped(keys, vals, n)))
    ensures Grouped(keys, vals, n)[i].1 == ValuesFor(keys, vals, Grouped(keys, vals, n)[i].0, n) != []
  {
    var t := Grouped(keys, vals, n);
    GroupedKeys(keys, vals, n);
    var k := t[i].0;
    assert k == Keys(t)[i];
    GetUnique(t, k, i);
    GroupedGet(keys, vals, n, k);
  }

  // ================================================================ range statistics

  /** One entry of the `chapters` or `sections` map of the report. */
  datatype Stats = Stats(min: int, max: int, count: nat, missing: seq<int>)

  function SeqMin(xs: seq<int>): (r: int)
    requires xs != []
    ensures r in xs && forall k :: 0 <= k < |xs| ==> r <= xs[k]
  {
    if |xs| == 1 then xs[0]
    else
      var m := SeqMin(xs[1..]);
      assert forall k :: 1 <= k < |xs| ==> xs[k] == xs[1..][k - 1];
      if xs[0] <= m then xs[0] else m
  }

  function SeqMax(xs: seq<int>): (r: int)
    requires xs != []
    ensures r in xs && forall k :: 0 <= k < |xs| ==> xs[k] <= r
  {
    if |xs| == 1 then xs[0]
    else
      var m := SeqMax(xs[1..]);
      assert forall k :: 1 <= k < |xs| ==> xs[k] == xs[1..][k - 1];
      if xs[0] >= m then xs[0] else m
  }

  /** The numbers `lo` to `hi` that are not in `present`, ascending. */
  function Missing(lo: int, hi: int, present: set<int>): seq<int>
    decreases hi - lo
  {
    if lo > hi then [] else (if lo in present then [] else [lo]) + Missing(lo + 1, hi, present)
  }

  function Range(lo: int, hi: int): (r: set<int>)
    ensures forall x :: x in r <==> lo <= x <= hi
    decreases hi - lo
  {
    if lo > hi then {} else {lo} + Range(lo + 1, hi)
  }

  /** The missing numbers are exactly the absent ones between the bounds. */
  lemma {:induction false} MissingMembers(lo: int, hi: int, present: set<int>)
    ensures forall x :: x in Missing(lo, hi, present) <==> lo <= x <= hi && x !in present
    decreases hi - lo
  {
    if lo <= hi {
      MissingMembers(lo + 1, hi, present);
    }
  }

  /** The missing numbers are in strictly ascending order. */
  lemma {:induction false} MissingAscending(lo: int, hi: int, present: set<int>)
    ensures forall i, j :: 0 <= i < j < |Missing(lo, hi, present)| ==> Missing(lo, hi, present)[i] < Missing(lo, hi, present)[j]
    decreases hi - lo
  {
    if lo <= hi {
      var rest := Missing(lo + 1, hi, present);
      MissingAscending(lo + 1, hi, present);
      MissingMembers(lo + 1, hi, present);
      var head := if lo in present then [] else [lo];
      assert Missing(lo, hi, present) == head + rest;
      forall i, j | 0 <= i < j < |head + rest| ensures (head + rest)[i] < (head + rest)[j] {
        if i < |head| {
          assert (head + rest)[j] in rest;
        }
      }
    }
  }

  /** With the present numbers in range, the missing ones fill the range. */
  lemma {:induction false} MissingCount(lo: int, hi: int, present: set<int>)
    requires lo <= hi + 1
    ensures |Missing(lo, hi, present)| + |present * Range(lo, hi)| == hi - lo + 1
    decreases hi - lo
  {
    if lo <= hi {
      MissingCount(lo + 1, hi, present);
      var here := present * {lo};
      assert present * Range(lo, hi) == here + present * Range(lo + 1, hi);
      assert here * (present * Range(lo + 1, hi)) == {};
      if lo in present {
        assert here == {lo};
      } else {
        assert here == {};
      }
    }
  }

  /** The distinct numbers of `nums`. */
  function Present(nums: seq<int>): (r: set<int>)
    ensures forall x :: x in r <==> x in nums
  {
    set x | x in nums
  }

  /** `add_range_stats`: nothing for no numbers; otherwise the least and the
      greatest, how many distinct numbers there are, and the absent numbers
      between the two. */
  function RangeStats(nums: seq<int>): (r: Option<Stats>)
    ensures r.None? <==> nums == []
  {
    if nums == [] then None
    else
      var present := Present(nums);
      var lo, hi := SeqMin(nums), SeqMax(nums);
      Some(Stats(lo, hi, |present|, Missing(lo, hi, present)))
  }

  /** The statistics of a non-empty list of numbers: bounds that occur and
      enclose every number, the number of distinct values, and the absent
      values in between, ascending, which with the count fill the range. */
  lemma RangeStatsSpec(nums: seq<int>)
    requires nums != []
    ensures var s := RangeStats(nums).value;
      && s.min in nums && s.max in nums
      && (forall k :: 0 <= k < |nums| ==> s.min <= nums[k] <= s.max)
      && s.count == |Present(nums)|
      && (forall x :: x in s.missing <==> s.min <= x <= s.max && x !in nums)
      && (forall i, j :: 0 <= i < j < |s.missing| ==> s.missing[i] < s.missing[j])
      && s.count + |s.missing| == s.max - s.min + 1
  {
    var present := Present(nums);
    var lo, hi := SeqMin(nums), SeqMax(nums);
    MissingMembers(lo, hi, present);
    MissingAscending(lo, hi, present);
    MissingCount(lo, hi, present);
    assert present * Range(lo, hi) == present;
  }

  lemma ExampleBounds()
    ensures SeqMin([4, 1, 2, 5, 4]) == 1 && SeqMax([4, 1, 2, 5, 4]) == 5
  {
    var nums := [4, 1, 2, 5, 4];
    assert SeqMin(nums) <= nums[1];
    assert SeqMax(nums) >= nums[3];
  }

  lemma ExamplePresent()
    ensures Present([4, 1, 2, 5, 4]) == {1, 2, 4, 5}
  {
  }

  lemma ExampleCount()
    ensures |{1, 2, 4, 5}| == 4
  {
    assert |{1, 2}| == 2;
    assert {1, 2, 4} == {1, 2} + {4};
    assert {1, 2, 4, 5} == {1, 2, 4} + {5};
  }

  lemma ExampleMissing()
    ensures Missing(1, 5, {1, 2, 4, 5}) == [3]
  {
    assert Missing(4, 5, {1, 2, 4, 5}) == [];
  }

  /** Clause numbers 4, 1, 2, 5, 4 run from 1 to 5, four distinct, 3 missing. */
  lemma RangeStatsExample()
    ensures RangeStats([4, 1, 2, 5, 4]) == Some(Stats(1, 5, 4, [3]))
  {
    ExampleBounds();
    ExamplePresent();
    ExampleMissing();
    ExampleCount();
  }

  /** `add_range_stats(name(key), nums, container)` for the first `n` entries
      of a grouped table, in table order; a later entry with the same name
      replaces the value of an earlier one. */
  function Tabulate<K>(t: Table<K, seq<int>>, name: K -> string, n: nat): Table<string, Stats>
    requires n <= |t|
  {
    if n == 0 then []
    else
      var c := Tabulate(t, name, n - 1);
      match RangeStats(t[n - 1].1)
      case None => c
      case Some(s) => Put(c, name(t[n - 1].0), s)
  }

  /** With distinct names and non-empty lists, the report map has one entry per
      table entry, in table order, holding that entry's statistics. */
  lemma {:induction false} TabulateSpec<K>(t: Table<K, seq<int>>, name: K -> string, n: nat)
    requires n <= |t|
    requires forall i, j :: 0 <= i < j < |t| ==> name(t[i].0) != name(t[j].0)
    requires forall i :: 0 <= i < |t| ==> t[i].1 != []
    ensures |Tabulate(t, name, n)| == n
    ensures forall i :: 0 <= i < n ==> Tabulate(t, name, n)[i] == (name(t[i].0), RangeStats(t[i].1).value)
  {
    if n > 0 {
      var c := Tabulate(t, name, n - 1);
      TabulateSpec(t, name, n - 1);
      assert name(t[n - 1].0) !in Keys(c) by {
        forall i | 0 <= i < |c| ensures Keys(c)[i] != name(t[n - 1].0) {
          assert Keys(c)[i] == name(t[i].0);
        }
      }
      PutNew(c, name(t[n - 1].0), RangeStats(t[n - 1].1).value);
    }
  }

  /** Both report maps have distinct keys. */
  lemma TabulateDistinct<K>(t: Table<K, seq<int>>, name: K -> string, n: nat)
    requires n <= |t|
    ensures Distinct(Keys(Tabulate(t, name, n)))
  {
    if n > 0 {
      TabulateDistinct(t, name, n - 1);
      var c := Tabulate(t, name, n - 1);
      if RangeStats(t[n - 1].1).Some? {
        PutDistinct(c, name(t[n - 1].0), RangeStats(t[n - 1].1).value);
      }
    }
  }

  // ================================================================ the report

  datatype QaReport = QaReport(totalChunks: nat, duplicateIds: seq<string>,
                               chapters: Table<string, Stats>, sections: Table<string, Stats>)

  /** Every clause number is a non-empty digit string, as `int` demands. */
  predicate Numbered(chunks: seq<Chunk>) {
    forall i :: 0 <= i < |chunks| ==> |chunks[i].metadata.clauseNumber| >= 1
  }

  function ChapterIds(chunks: seq<Chunk>): seq<string> {
    seq(|chunks|, i requires 0 <= i < |chunks| => chunks[i].metadata.chapterId)
  }

  function SectionPairs(chunks: seq<Chunk>): seq<(string, string)> {
    seq(|chunks|, i requires 0 <= i < |chunks| => (chunks[i].metadata.chapterId, chunks[i].metadata.sectionId))
  }

  function ClauseValues(chunks: seq<Chunk>): seq<int> {
    seq(|chunks|, i requires 0 <= i < |chunks| => DigitsValue(chunks[i].metadata.clauseNumber))
  }

  function ChapterName(chapterId: string): string {
    chapterId
  }

  /** The key `f"{ch}:{sec}"` of a section's entry. */
  function SectionName(pair: (string, string)): string {
    pair.0 + ":" + pair.1
  }

  /** In a section key, the first colon is the one after the chapter id. */
  lemma ColonAfter(ch: string, sec: string)
    requires ':' !in ch
    ensures SectionName((ch, sec))[|ch|] == ':'
    ensures forall j :: 0 <= j < |ch| ==> SectionName((ch, sec))[j] != ':'
  {
    assert forall j :: 0 <= j < |ch| ==> SectionName((ch, sec))[j] == ch[j];
  }

  /** A colon-free chapter id and its section id can be read back from the section's key. */
  lemma SectionNameInjective(p: (string, string), q: (string, string))
    requires ':' !in p.0 && ':' !in q.0 && SectionName(p) == SectionName(q)
    ensures p == q
  {
    var s := SectionName(p);
    ColonAfter(p.0, p.1);
    ColonAfter(q.0, q.1);
    assert |p.0| == |q.0|;
    assert p.0 == s[..|p.0|] == q.0;
    assert p.1 == s[|p.0| + 1..] == q.1;
  }

  function ChapterTable(chunks: seq<Chunk>): Table<string, seq<int>> {
    Grouped(ChapterIds(chunks), ClauseValues(chunks), |chunks|)
  }

  function SectionTable(chunks: seq<Chunk>): Table<(string, string), seq<int>> {
    Grouped(SectionPairs(chunks), ClauseValues(chunks), |chunks|)
  }

  /** What `build_qa_report` returns. */
  function Report(chunks: seq<Chunk>): QaReport
    requires Numbered(chunks)
  {
    QaReport(|chunks|, Duplicates(Ids(chunks)),
             Tabulate(ChapterTable(chunks), ChapterName, |ChapterTable(chunks)|),
             Tabulate(SectionTable(chunks), SectionName, |SectionTable(chunks)|))
  }

  /** `add_range_stats` on a report map. */
  method AddRangeStats(key: string, nums: seq<int>, container: Table<string, Stats>)
    returns (out: Table<string, Stats>)
    ensures nums == [] ==> out == container
    ensures nums != [] ==> out == Put(container, key, RangeStats(nums).value)
  {
    if nums == [] {
      return container;
    }
    var present := Present(nums);
    var lo, hi := SeqMin(nums), SeqMax(nums);
    var missing := Missing(lo, hi, present);
    out := Put(container, key, Stats(lo, hi, |present|, missing));
  }

  /** The grouping loop: clause numbers collected per chapter and per section. */
  method GroupNumbers(chunks: seq<Chunk>)
    returns (chapterNums: Table<string, seq<int>>, sectionNums: Table<(string, string), seq<int>>)
    requires Numbered(chunks)
    ensures chapterNums == ChapterTable(chunks) && sectionNums == SectionTable(chunks)
  {
    chapterNums, sectionNums := [], [];
    for i := 0 to |chunks|
      invariant chapterNums == Grouped(ChapterIds(chunks), ClauseValues(chunks), i)
      invariant sectionNums == Grouped(SectionPairs(chunks), ClauseValues(chunks), i)
    {
      var ch := chunks[i].metadata.chapterId;
      var sec := chunks[i].metadata.sectionId;
      var num := DigitsValue(chunks[i].metadata.clauseNumber);
      chapterNums := Append(chapterNums, ch, num);
      sectionNums := Append(sectionNums, (ch, sec), num);
    }
  }

  /** One `add_range_stats` call per group, in the order of the groups. */
  method AddAllRangeStats<K>(groups: Table<K, seq<int>>, name: K -> string)
    returns (container: Table<string, Stats>)
    ensures container == Tabulate(groups, name, |groups|)
  {
    container := [];
    for k := 0 to |groups|
      invariant container == Tabulate(groups, name, k)
    {
      container := AddRangeStats(name(groups[k].0), groups[k].1, container);
    }
  }

  method BuildQaReport(chunks: seq<Chunk>) returns (report: QaReport)
    requires Numbered(chunks)
    ensures report == Report(chunks)
  {
    var dups := FindDuplicates(Ids(chunks));
    var chapterNums, sectionNums := GroupNumbers(chunks);
    var chapters := AddAllRangeStats(chapterNums, ChapterName);
    var sections := AddAllRangeStats(sectionNums, SectionName);
    report := QaReport(|chunks|, dups, chapters, sections);
  }

  // ================================================================ properties

  /** The report counts the chunks, and lists an identifier `m - 1` times when
      `m` chunks carry it; it lists none exactly when the identifiers are distinct. */
  lemma ReportDuplicates(chunks: seq<Chunk>, x: string)
    requires Numbered(chunks)
    ensures Report(chunks).totalChunks == |chunks|
    ensures multiset(Report(chunks).duplicateIds)[x] == if x in Ids(chunks) then multiset(Ids(chunks))[x] - 1 else 0
    ensures Report(chunks).duplicateIds == [] <==> Distinct(Ids(chunks))
    ensures x in Ids(chunks) ==> multiset(Ids(chunks))[x] == 1 || x in Report(chunks).duplicateIds
  {
    DuplicatesCount(Ids(chunks), x);
    NoDuplicatesIffDistinct(Ids(chunks));
  }

  /** `name` tells apart the keys occurring in `keys`. */
  ghost predicate Separates<K>(keys: seq<K>, name: K -> string) {
    forall a, b :: 0 <= a < |keys| && 0 <= b < |keys| && name(keys[a]) == name(keys[b]) ==> keys[a] == keys[b]
  }

  /** A grouped table meets the conditions of `TabulateSpec` when `name`
      tells its keys apart. */
  lemma GroupedTabulable<K>(keys: seq<K>, vals: seq<int>, name: K -> string)
    requires |keys| == |vals| && Separates(keys, name)
    ensures var t := Grouped(keys, vals, |keys|);
      && (forall a, b :: 0 <= a < b < |t| ==> name(t[a].0) != name(t[b].0))
      && (forall a :: 0 <= a < |t| ==> t[a].1 != [])
  {
    var n := |keys|;
    var t := Grouped(keys, vals, n);
    GroupedKeys(keys, vals, n);
    assert keys[..n] == keys;
    forall a | 0 <= a < |t| ensures t[a].1 != [] {
      GroupedEntry(keys, vals, n, a);
    }
    forall a, b | 0 <= a < b < |t| ensures name(t[a].0) != name(t[b].0) {
      GroupedEntry(keys, vals, n, a);
      assert Keys(t)[a] == t[a].0 && Keys(t)[b] == t[b].0;
      assert t[a].0 in keys && t[b].0 in keys;
      var x :| 0 <= x < n && keys[x] == t[a].0;
      var y :| 0 <= y < n && keys[y] == t[b].0;
    }
  }

  /** Grouping values by key and then tabulating the groups under names that
      tell the keys apart gives one entry per distinct key, in order of first
      appearance. */
  lemma TabulateGroupedKeys<K>(keys: seq<K>, vals: seq<int>, name: K -> string)
    requires |keys| == |vals| && Separates(keys, name)
    ensures var t := Grouped(keys, vals, |keys|);
      && |Tabulate(t, name, |t|)| == |FirstOccurrences(keys)|
      && (forall a :: 0 <= a < |FirstOccurrences(keys)| ==> Keys(Tabulate(t, name, |t|))[a] == name(FirstOccurrences(keys)[a]))
  {
    var n := |keys|;
    var t := Grouped(keys, vals, n);
    GroupedKeys(keys, vals, n);
    assert keys[..n] == keys;
    GroupedTabulable(keys, vals, name);
    TabulateSpec(t, name, |t|);
    forall a | 0 <= a < |FirstOccurrences(keys)| ensures Keys(Tabulate(t, name, |t|))[a] == name(FirstOccurrences(keys)[a]) {
      assert Keys(t)[a] == t[a].0;
    }
  }

  /** ... and each entry holds the statistics of that key's values. */
  lemma TabulateGrouped<K>(keys: seq<K>, vals: seq<int>, name: K -> string, i: nat)
    requires |keys| == |vals| && i < |keys| && Separates(keys, name)
    ensures var t := Grouped(keys, vals, |keys|);
      Get(Tabulate(t, name, |t|), name(keys[i])) == RangeStats(ValuesFor(keys, vals, keys[i], |keys|))
  {
    var n := |keys|;
    var t := Grouped(keys, vals, n);
    GroupedKeys(keys, vals, n);
    assert keys[..n] == keys;
    GroupedTabulable(keys, vals, name);
    TabulateSpec(t, name, |t|);
    var r := Tabulate(t, name, |t|);
    assert keys[i] in FirstOccurrences(keys);
    var a :| 0 <= a < |t| && Keys(t)[a] == keys[i];
    GroupedEntry(keys, vals, n, a);
    TabulateDistinct(t, name, |t|);
    GetUnique(r, name(keys[i]), a);
  }

  /** One chapter entry per chapter id, in order of first appearance. */
  lemma ReportChapterKeys(chunks: seq<Chunk>)
    requires Numbered(chunks)
    ensures Keys(Report(chunks).chapters) == FirstOccurrences(ChapterIds(chunks))
  {
    var ids := ChapterIds(chunks);
    TabulateGroupedKeys(ids, ClauseValues(chunks), ChapterName);
    var r := Report(chunks).chapters;
    forall a | 0 <= a < |Keys(r)| ensures Keys(r)[a] == FirstOccurrences(ids)[a] {
    }
  }

  /** The entry of a chunk's chapter holds the statistics of that chapter's
      clause numbers. */
  lemma ReportChapters(chunks: seq<Chunk>, i: nat)
    requires Numbered(chunks) && i < |chunks|
    ensures Get(Report(chunks).chapters, chunks[i].metadata.chapterId)
         == RangeStats(ValuesFor(ChapterIds(chunks), ClauseValues(chunks), chunks[i].metadata.chapterId, |chunks|))
  {
    var ids := ChapterIds(chunks);
    assert ids[i] == chunks[i].metadata.chapterId;
    TabulateGrouped(ids, ClauseValues(chunks), ChapterName, i);
  }

  /** When no chapter id holds a colon, one section entry per (chapter,
      section) pair, in order of first appearance, holding the statistics of
      that section's clause numbers. */
  lemma ReportSections(chunks: seq<Chunk>, i: nat)
    requires Numbered(chunks) && i < |chunks|
    requires forall j :: 0 <= j < |chunks| ==> ':' !in chunks[j].metadata.chapterId
    ensures |Report(chunks).sections| == |FirstOccurrences(SectionPairs(chunks))|
    ensures Get(Report(chunks).sections, SectionName(SectionPairs(chunks)[i]))
         == RangeStats(ValuesFor(SectionPairs(chunks), ClauseValues(chunks), SectionPairs(chunks)[i], |chunks|))
  {
    var ps := SectionPairs(chunks);
    forall a, b | 0 <= a < |ps| && 0 <= b < |ps| && SectionName(ps[a]) == SectionName(ps[b])
      ensures ps[a] == ps[b]
    {
      SectionNameInjective(ps[a], ps[b]);
    }
    TabulateGroupedKeys(ps, ClauseValues(chunks), SectionName);
    TabulateGrouped(ps, ClauseValues(chunks), SectionName, i);
  }

  /** Every chunk's clause number lies within its chapter's bounds and is not
      reported missing. */
  lemma ChunkCovered(chunks: seq<Chunk>, i: nat)
    requires Numbered(chunks) && i < |chunks|
    ensures var s := Get(Report(chunks).chapters, chunks[i].metadata.chapterId);
      && s.Some?
      && s.value.min <= DigitsValue(chunks[i].metadata.clauseNumber) <= s.value.max
      && DigitsValue(chunks[i].metadata.clauseNumber) !in s.value.missing
  {
    var ids, vals := ChapterIds(chunks), ClauseValues(chunks);
    ReportChapters(chunks, i);
    ValuesForHas(ids, vals, i, |chunks|);
    assert ids[i] == chunks[i].metadata.chapterId;
    var nums := ValuesFor(ids, vals, ids[i], |chunks|);
    RangeStatsSpec(nums);
    var k :| 0 <= k < |nums| && nums[k] == vals[i];
  }
}

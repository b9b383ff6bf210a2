/** Combining the results of the single-sample workers (the `# parse
    results` loop of `convert`). The first result is adopted as it is;
    every later one adds its class counts and read counts, contributes its
    haplotypes, and fills in tids the combined table does not know yet.
    The workers' main targets and tid counts are those of the first
    result. */
module SingleMerge {
  import opened ByteStrings
  import opened OrderedMaps
  import opened SingleSample

  /** `ConvertResults()` before any result was adopted. */
  function EmptyResult(): (r: PieceResult)
    ensures r.ec.Valid() && r.uniqueReads.Valid() && r.uniqueTids.Valid() && r.mainTargets.Valid()
    ensures r.ec.keys == [] && r.ecIdx == map[] && r.haplotypes == [] && r.tidToTarget == map[]
  {
    PieceResult(Empty(), Empty(), map[], [], map[], Empty(), Empty())
  }

  /** A result whose count tables list their own keys, as every worker's
      does. */
  ghost predicate Listed(p: PieceResult)
  {
    p.ec.Valid() && p.uniqueReads.Valid()
  }

  /** `final` after the tids of `other` were added: a tid already known
      keeps its main target. */
  function FirstWins(final: map<Bytes, Bytes>, other: map<Bytes, Bytes>): (r: map<Bytes, Bytes>)
    ensures r.Keys == final.Keys + other.Keys
    ensures forall k :: k in final ==> r[k] == final[k]
    ensures forall k :: k in other && k !in final ==> r[k] == other[k]
  {
    map k | k in final.Keys + other.Keys :: if k in final then final[k] else other[k]
  }

  /** One later result folded into `final`. */
  function MergeResult(final: PieceResult, other: PieceResult): PieceResult
  {
    var ec := AddFirstIndexed(final.ec, final.ecIdx, other.ec, |other.ec.keys|);
    final.(ec := ec.0, ecIdx := ec.1,
           haplotypes := SortedSet(final.haplotypes + other.haplotypes),
           tidToTarget := FirstWins(final.tidToTarget, other.tidToTarget),
           uniqueReads := AddCounts(final.uniqueReads, other.uniqueReads))
  }

  /** The combined result of a list of worker results. */
  function Combined(results: seq<PieceResult>): PieceResult
    decreases |results|
  {
    if |results| == 0 then EmptyResult()
    else if |results| == 1 then results[0]
    else MergeResult(Combined(results[..|results| - 1]), results[|results| - 1])
  }

  // ---------------------------------------------------------------------
  // The merge loops

  /** The body of the class merge loop for key `k` with count `v`:
      `final.ec[k] += v`, or `final.ec[k] = v` and
      `final.ec_idx[k] = len(final.ec_idx)` for a new key. */
  method MergeCount(ec: OMap<Bytes, int>, ecIdx: map<Bytes, int>, k: Bytes, v: int)
    returns (ec': OMap<Bytes, int>, ecIdx': map<Bytes, int>)
    ensures (ec', ecIdx') == BumpIndexed(ec, ecIdx, k, v)
  {
    if k in ec.vals {
      ec', ecIdx' := Put(ec, k, ec.vals[k] + v), ecIdx;
    } else {
      ec', ecIdx' := Put(ec, k, v), ecIdx[k := |ecIdx|];
    }
  }

  /** `for k, v in other.iteritems(): ...` over a worker's classes; `v`
      is the count of the listed key `k`. */
  method MergeCounts(ec: OMap<Bytes, int>, ecIdx: map<Bytes, int>, other: OMap<Bytes, int>)
    returns (ec': OMap<Bytes, int>, ecIdx': map<Bytes, int>)
    ensures (ec', ecIdx') == AddFirstIndexed(ec, ecIdx, other, |other.keys|)
  {
    ec', ecIdx' := ec, ecIdx;
    var i := 0;
    while i < |other.keys|
      invariant 0 <= i <= |other.keys|
      invariant ec' == AddFirstIndexed(ec, ecIdx, other, i).0
      invariant ecIdx' == AddFirstIndexed(ec, ecIdx, other, i).1
    {
      var k := other.keys[i];
      var v := Get(other, k, 0);
      AddFirstIndexedNext(ec, ecIdx, other, i);
      ec', ecIdx' := MergeCount(ec', ecIdx', k, v);
      i := i + 1;
    }
  }

  /** The same loop for a counter without a position index
      (`unique_reads`). */
  method MergeReads(counts: OMap<Bytes, int>, other: OMap<Bytes, int>) returns (counts': OMap<Bytes, int>)
    ensures counts' == AddCounts(counts, other)
  {
    counts' := counts;
    var i := 0;
    while i < |other.keys|
      invariant 0 <= i <= |other.keys|
      invariant counts' == AddFirst(counts, other, i)
    {
      var k := other.keys[i];
      var v := Get(other, k, 0);
      counts' := MergeRead(counts', k, v);
      i := i + 1;
    }
  }

  /** The body of that loop: `final[k] += v`, or `final[k] = v` for a new
      key. */
  method MergeRead(counts: OMap<Bytes, int>, k: Bytes, v: int) returns (counts': OMap<Bytes, int>)
    ensures counts' == Bump(counts, k, v)
  {
    if k in counts.vals {
      counts' := Put(counts, k, counts.vals[k] + v);
    } else {
      counts' := Put(counts, k, v);
    }
  }

  /** `for k, v in other.iteritems(): if k not in final: final[k] = v`,
      visiting the tids in any order. */
  method MergeTargets(final: map<Bytes, Bytes>, other: map<Bytes, Bytes>) returns (r: map<Bytes, Bytes>)
    ensures r == FirstWins(final, other)
  {
    r := final;
    var todo := other.Keys;
    while todo != {}
      invariant todo <= other.Keys
      invariant r.Keys == final.Keys + (other.Keys - todo)
      invariant forall k :: k in final ==> r[k] == final[k]
      invariant forall k :: k in other && k !in final && k !in todo ==> r[k] == other[k]
      decreases todo
    {
      var k :| k in todo;
      if k !in r {
        r := r[k := other[k]];
      }
      todo := todo - {k};
    }
  }

  /** The `# parse results` loop of `convert`. */
  method CombineResults(results: seq<PieceResult>) returns (final: PieceResult)
    requires forall i :: 0 <= i < |results| ==> Listed(results[i])
    ensures final == Combined(results)
  {
    final := EmptyResult();
    var init := false;
    var i := 0;
    while i < |results|
      invariant 0 <= i <= |results|
      invariant init <==> i > 0
      invariant final == Combined(results[..i])
    {
      assert results[..i + 1][..i] == results[..i];
      var result := results[i];
      if !init {
        final := result;
        init := true;
      } else {
        var ec, ecIdx := MergeCounts(final.ec, final.ecIdx, result.ec);
        var haplotypes := SortedSet(final.haplotypes + result.haplotypes);
        var tidToTarget := MergeTargets(final.tidToTarget, result.tidToTarget);
        var uniqueReads := MergeReads(final.uniqueReads, result.uniqueReads);
        final := final.(ec := ec, ecIdx := ecIdx, haplotypes := haplotypes,
                        tidToTarget := tidToTarget, uniqueReads := uniqueReads);
      }
      i := i + 1;
    }
    assert results[..i] == results;
  }

  // ---------------------------------------------------------------------
  // What the combined result holds

  /** `Get(r.ec, k, 0)` summed over a list of results. */
  function EcCount(results: seq<PieceResult>, k: Bytes): int
  {
    if |results| == 0 then 0
    else EcCount(results[..|results| - 1], k) + Get(results[|results| - 1].ec, k, 0)
  }

  /** `Get(r.uniqueReads, k, 0)` summed over a list of results. */
  function ReadCount(results: seq<PieceResult>, k: Bytes): int
  {
    if |results| == 0 then 0
    else ReadCount(results[..|results| - 1], k) + Get(results[|results| - 1].uniqueReads, k, 0)
  }

  /** `sum(r.ec.values())` summed over a list of results. */
  function EcTotal(results: seq<PieceResult>): int
    requires forall i :: 0 <= i < |results| ==> Listed(results[i])
  {
    if |results| == 0 then 0
    else
      assert Listed(results[|results| - 1]);
      EcTotal(results[..|results| - 1]) + Total(results[|results| - 1].ec)
  }

  /** Every class is counted as often as all workers counted it together. */
  lemma {:induction false} CombinedEcCount(results: seq<PieceResult>, k: Bytes)
    requires forall i :: 0 <= i < |results| ==> Listed(results[i])
    ensures Get(Combined(results).ec, k, 0) == EcCount(results, k)
  {
    var n := |results|;
    if n == 1 {
      assert results[..0] == [];
    } else if n > 1 {
      var init := results[..n - 1];
      assert Listed(results[n - 1]);
      assert forall i :: 0 <= i < |init| ==> Listed(init[i]);
      CombinedEcCount(init, k);
      AddCountsGet(Combined(init).ec, results[n - 1].ec, k);
    }
  }

  /** Every read name is counted as often as all workers counted it
      together. */
  lemma {:induction false} CombinedReadCount(results: seq<PieceResult>, k: Bytes)
    requires forall i :: 0 <= i < |results| ==> Listed(results[i])
    ensures Get(Combined(results).uniqueReads, k, 0) == ReadCount(results, k)
  {
    var n := |results|;
    if n == 1 {
      assert results[..0] == [];
    } else if n > 1 {
      var init := results[..n - 1];
      assert Listed(results[n - 1]);
      assert forall i :: 0 <= i < |init| ==> Listed(init[i]);
      CombinedReadCount(init, k);
      AddCountsGet(Combined(init).uniqueReads, results[n - 1].uniqueReads, k);
    }
  }

  /** The number of class counts is the sum of the workers' numbers. */
  lemma {:induction false} CombinedTotal(results: seq<PieceResult>)
    requires forall i :: 0 <= i < |results| ==> Listed(results[i])
    ensures Combined(results).ec.Valid()
    ensures Total(Combined(results).ec) == EcTotal(results)
  {
    var n := |results|;
    if n == 1 {
      assert Listed(results[0]);
      assert results[..0] == [];
    } else if n > 1 {
      var init := results[..n - 1];
      assert Listed(results[n - 1]);
      assert forall i :: 0 <= i < |init| ==> Listed(init[i]);
      CombinedTotal(init);
      AddCountsTotal(Combined(init).ec, results[n - 1].ec);
    }
  }

  /** The first worker's classes keep their positions, later classes
      follow, and the position index stays dense. */
  lemma {:induction false} CombinedIndex(results: seq<PieceResult>)
    requires |results| > 0
    requires results[0].ec.Valid() && IndexesKeys(results[0].ecIdx, results[0].ec.keys)
    ensures Combined(results).ec.Valid()
    ensures IndexesKeys(Combined(results).ecIdx, Combined(results).ec.keys)
    ensures |Combined(results).ec.keys| >= |results[0].ec.keys|
    ensures Combined(results).ec.keys[..|results[0].ec.keys|] == results[0].ec.keys
  {
    var n := |results|;
    if n > 1 {
      var init := results[..n - 1];
      var prev := Combined(init);
      assert init[0] == results[0];
      CombinedIndex(init);
      var merged := Combined(results);
      AddFirstKeys(prev.ec, results[n - 1].ec, |results[n - 1].ec.keys|);
      var m := |results[0].ec.keys|;
      assert merged.ec.keys[..m] == prev.ec.keys[..m] by {
        forall j | 0 <= j < m ensures merged.ec.keys[j] == prev.ec.keys[j] {
          assert merged.ec.keys[..|prev.ec.keys|][j] == prev.ec.keys[j];
        }
      }
    }
  }

  /** The haplotypes of `Combined(results)`, folded on their own. */
  ghost function FoldHaplotypes(results: seq<PieceResult>): seq<Bytes>
    decreases |results|
  {
    if |results| == 0 then []
    else if |results| == 1 then results[0].haplotypes
    else SortedSet(FoldHaplotypes(results[..|results| - 1]) + results[|results| - 1].haplotypes)
  }

  /** The combined haplotypes are the fold of the workers' haplotypes. */
  lemma {:induction false} FoldHaplotypesCombined(results: seq<PieceResult>)
    ensures Combined(results).haplotypes == FoldHaplotypes(results)
    decreases |results|
  {
    if |results| > 1 {
      FoldHaplotypesCombined(results[..|results| - 1]);
    }
  }

  /** A haplotype is in the fold exactly when some worker saw it. */
  lemma {:induction false} FoldHaplotypesHas(results: seq<PieceResult>, h: Bytes)
    ensures h in FoldHaplotypes(results) <==>
      exists i :: 0 <= i < |results| && h in results[i].haplotypes
  {
    var n := |results|;
    if n > 1 {
      var init := results[..n - 1];
      FoldHaplotypesHas(init, h);
      SortedSetSpec(FoldHaplotypes(init) + results[n - 1].haplotypes);
      if h in FoldHaplotypes(init) {
        var i :| 0 <= i < |init| && h in init[i].haplotypes;
        assert results[i] == init[i];
      }
      if exists i :: 0 <= i < n && h in results[i].haplotypes {
        var i :| 0 <= i < n && h in results[i].haplotypes;
        if i < n - 1 {
          assert init[i] == results[i];
        }
      }
    }
  }

  /** A haplotype is combined exactly when some worker saw it. */
  lemma CombinedHaplotype(results: seq<PieceResult>, h: Bytes)
    ensures h in Combined(results).haplotypes <==>
      exists i :: 0 <= i < |results| && h in results[i].haplotypes
  {
    FoldHaplotypesCombined(results);
    FoldHaplotypesHas(results, h);
  }

  /** Once a second result was merged, the haplotypes are sorted without
      repetitions (a single result is adopted as it is). */
  lemma CombinedHaplotypesSorted(results: seq<PieceResult>)
    requires |results| > 1 || (|results| == 1 && StrictlySorted(results[0].haplotypes))
    ensures StrictlySorted(Combined(results).haplotypes)
  {
    FoldHaplotypesCombined(results);
    var n := |results|;
    if n > 1 {
      SortedSetSpec(FoldHaplotypes(results[..n - 1]) + results[n - 1].haplotypes);
    }
  }

  /** The tid table of `Combined(results)`, folded on its own. */
  ghost function FoldTargets(results: seq<PieceResult>): map<Bytes, Bytes>
    decreases |results|
  {
    if |results| == 0 then map[]
    else if |results| == 1 then results[0].tidToTarget
    else FirstWins(FoldTargets(results[..|results| - 1]), results[|results| - 1].tidToTarget)
  }

  /** The combined tid table is the fold of the workers' tables. */
  lemma {:induction false} FoldTargetsCombined(results: seq<PieceResult>)
    ensures Combined(results).tidToTarget == FoldTargets(results)
    decreases |results|
  {
    if |results| > 1 {
      FoldTargetsCombined(results[..|results| - 1]);
    }
  }

  /** A tid is in the folded table exactly when some worker saw it. */
  lemma {:induction false} FoldTargetsKeys(results: seq<PieceResult>, k: Bytes)
    ensures k in FoldTargets(results) <==>
      exists i :: 0 <= i < |results| && k in results[i].tidToTarget
  {
    var n := |results|;
    if n > 1 {
      var init := results[..n - 1];
      FoldTargetsKeys(init, k);
      if exists i :: 0 <= i < n && k in results[i].tidToTarget {
        var i :| 0 <= i < n && k in results[i].tidToTarget;
        if i < n - 1 {
          assert init[i] == results[i];
        }
      }
      if exists i :: 0 <= i < |init| && k in init[i].tidToTarget {
        var i :| 0 <= i < |init| && k in init[i].tidToTarget;
        assert init[i] == results[i];
      }
    }
  }

  /** A tid is in the combined table exactly when some worker saw it. */
  lemma CombinedTargetsKeys(results: seq<PieceResult>, k: Bytes)
    ensures k in Combined(results).tidToTarget <==>
      exists i :: 0 <= i < |results| && k in results[i].tidToTarget
  {
    FoldTargetsCombined(results);
    FoldTargetsKeys(results, k);
  }

  /** Worker `i` is the first to have seen tid `k`, and `table` maps `k`
      to that worker's main target. */
  ghost predicate FirstIn(results: seq<PieceResult>, table: map<Bytes, Bytes>, k: Bytes, i: int)
  {
    && 0 <= i < |results| && k in results[i].tidToTarget
    && k in table && table[k] == results[i].tidToTarget[k]
    && forall j :: 0 <= j < i ==> k !in results[j].tidToTarget
  }

  /** The first worker to see a tid decides its main target. */
  lemma CombinedTargetsFirst(results: seq<PieceResult>, k: Bytes)
    requires k in Combined(results).tidToTarget
    ensures exists i :: FirstIn(results, Combined(results).tidToTarget, k, i)
  {
    FoldTargetsCombined(results);
    FoldTargetsFirst(results, k);
  }

  /** `CombinedTargetsFirst` on the folded table. */
  lemma {:induction false} FoldTargetsFirst(results: seq<PieceResult>, k: Bytes)
    requires k in FoldTargets(results)
    ensures exists i :: FirstIn(results, FoldTargets(results), k, i)
    decreases |results|, 1
  {
    var n := |results|;
    if n == 1 {
      assert FirstIn(results, FoldTargets(results), k, 0);
    } else if k in FoldTargets(results[..n - 1]) {
      TargetsFirstEarlier(results, k);
    } else {
      TargetsFirstLast(results, k);
    }
  }

  /** A tid an earlier worker saw keeps that worker's main target. */
  lemma {:induction false} TargetsFirstEarlier(results: seq<PieceResult>, k: Bytes)
    requires |results| > 1 && k in FoldTargets(results[..|results| - 1])
    ensures exists i :: FirstIn(results, FoldTargets(results), k, i)
    decreases |results|, 0
  {
    var n := |results|;
    var init := results[..n - 1];
    FoldTargetsFirst(init, k);
    var i :| FirstIn(init, FoldTargets(init), k, i);
    assert results[i] == init[i];
    assert forall j :: 0 <= j < i ==> results[j] == init[j];
    assert FirstIn(results, FoldTargets(results), k, i);
  }

  /** A tid only the last worker saw takes that worker's main target. */
  lemma TargetsFirstLast(results: seq<PieceResult>, k: Bytes)
    requires |results| > 1 && k !in FoldTargets(results[..|results| - 1])
    requires k in FoldTargets(results)
    ensures FirstIn(results, FoldTargets(results), k, |results| - 1)
  {
    var n := |results|;
    var init := results[..n - 1];
    FoldTargetsKeys(init, k);
    assert forall j :: 0 <= j < n - 1 ==> results[j] == init[j];
  }

  /** The main targets and tid counts are the first worker's. */
  lemma {:induction false} CombinedFirst(results: seq<PieceResult>)
    requires |results| > 0
    ensures Combined(results).mainTargets == results[0].mainTargets
    ensures Combined(results).uniqueTids == results[0].uniqueTids
    decreases |results|
  {
    if |results| > 1 {
      CombinedFirst(results[..|results| - 1]);
    }
  }
}

/** Reference names and the tables built from them. A reference (a
    transcript) is named `<main target>_<haplotype>`; the main targets get
    dense indices and the haplotypes are collected, deduplicated and
    sorted. The multisample converter and the single-sample converter split
    names differently, and both ways are modelled here. */
module Targets {
  import opened Wrappers
  import opened ByteStrings
  import opened OrderedMaps

  // ---------------------------------------------------------------------
  // Splitting one name

  /** The multisample split: at the last `_` when it is not the first
      character; otherwise the whole name is the target and the haplotype
      is empty. */
  function SplitName(name: Bytes): (r: (Bytes, Bytes))
    ensures |r.0| <= |name|
  {
    var i := RFind(name, UNDERSCORE);
    if i > 0 then (name[..i], name[i + 1..]) else (name, [])
  }

  /** Splitting `<target>_<haplotype>` gives back both parts, and a name
      with no `_` past its first character is all target. */
  lemma SplitNameJoin(target: Bytes, haplotype: Bytes)
    requires |target| > 0 && UNDERSCORE !in haplotype
    ensures SplitName(target + [UNDERSCORE] + haplotype) == (target, haplotype)
  {
    var name := target + [UNDERSCORE] + haplotype;
    assert name[|target|] == UNDERSCORE;
    assert forall j :: |target| < j < |name| ==> name[j] == haplotype[j - |target| - 1];
    assert name[..|target|] == target;
    assert name[|target| + 1..] == haplotype;
  }

  lemma SplitNameNoSeparator(name: Bytes)
    requires forall j :: 0 < j < |name| ==> name[j] != UNDERSCORE
    ensures SplitName(name) == (name, [])
  {
  }

  /** The single-sample split: `name[:name.rfind('_')]` and
      `name[name.rfind('_') + 1:]`. With no `_` at all, `rfind` gives -1,
      so the target is the name without its last character and the
      haplotype is the whole name. */
  function PrefixSuffix(name: Bytes): (r: (Bytes, Bytes))
  {
    var i := RFind(name, UNDERSCORE);
    if i >= 0 then (name[..i], name[i + 1..])
    else if |name| == 0 then ([], [])
    else (name[..|name| - 1], name)
  }

  /** `<target>_<haplotype>` splits back into its parts whatever the
      target holds, and a name without `_` loses its last character. */
  lemma PrefixSuffixJoin(target: Bytes, haplotype: Bytes)
    requires UNDERSCORE !in haplotype
    ensures PrefixSuffix(target + [UNDERSCORE] + haplotype) == (target, haplotype)
  {
    var name := target + [UNDERSCORE] + haplotype;
    assert name[|target|] == UNDERSCORE;
    assert forall j :: |target| < j < |name| ==> name[j] == haplotype[j - |target| - 1];
    assert name[..|target|] == target;
    assert name[|target| + 1..] == haplotype;
  }

  lemma PrefixSuffixNoSeparator(name: Bytes)
    requires |name| > 0 && UNDERSCORE !in name
    ensures PrefixSuffix(name) == (name[..|name| - 1], name)
  {
  }

  // ---------------------------------------------------------------------
  // Looking names up

  /** `AlignmentFile.gettid(name)`: the position of the first reference
      with that name, or -1. */
  function GetTid(references: seq<Bytes>, name: Bytes): (t: int)
    ensures -1 <= t < |references|
    ensures t >= 0 ==> references[t] == name
    ensures forall j :: 0 <= j < |references| && (t < 0 || j < t) ==> references[j] != name
  {
    if |references| == 0 then -1
    else if references[0] == name then 0
    else
      var t := GetTid(references[1..], name);
      if t < 0 then -1 else t + 1
  }

  /** The main target of every reference (multisample split), in order. */
  function TargetsOf(references: seq<Bytes>): (r: seq<Bytes>)
    ensures |r| == |references|
  {
    if |references| == 0 then []
    else TargetsOf(references[..|references| - 1]) + [SplitName(references[|references| - 1]).0]
  }

  /** The haplotype of every reference (multisample split), in order. */
  function HaplotypesOf(references: seq<Bytes>): (r: seq<Bytes>)
    ensures |r| == |references|
  {
    if |references| == 0 then []
    else HaplotypesOf(references[..|references| - 1]) + [SplitName(references[|references| - 1]).1]
  }

  /** Extending the list of references by one extends each per-reference
      list by that reference's part. */
  lemma NamesOfSnoc(references: seq<Bytes>, n: int)
    requires 0 <= n < |references|
    ensures TargetsOf(references[..n + 1]) == TargetsOf(references[..n]) + [SplitName(references[n]).0]
    ensures HaplotypesOf(references[..n + 1]) == HaplotypesOf(references[..n]) + [SplitName(references[n]).1]
    ensures PrefixesOf(references[..n + 1]) == PrefixesOf(references[..n]) + [PrefixSuffix(references[n]).0]
  {
    assert references[..n + 1][..n] == references[..n];
  }

  lemma {:induction false} HaplotypesOfAt(references: seq<Bytes>, i: int)
    requires 0 <= i < |references|
    ensures HaplotypesOf(references)[i] == SplitName(references[i]).1
    decreases |references|
  {
    if i < |references| - 1 {
      HaplotypesOfAt(references[..|references| - 1], i);
    }
  }

  /** The haplotypes listed are those of the references. */
  lemma HaplotypesOfIn(references: seq<Bytes>)
    ensures forall h :: h in HaplotypesOf(references) <==>
      exists i :: 0 <= i < |references| && h == SplitName(references[i]).1
  {
    forall h ensures h in HaplotypesOf(references) ==>
      exists i :: 0 <= i < |references| && h == SplitName(references[i]).1 {
      if h in HaplotypesOf(references) {
        var i :| 0 <= i < |references| && HaplotypesOf(references)[i] == h;
        HaplotypesOfAt(references, i);
      }
    }
    forall i | 0 <= i < |references| ensures SplitName(references[i]).1 in HaplotypesOf(references) {
      HaplotypesOfAt(references, i);
    }
  }

  /** The tables `convert` builds from the header of the first BAM file. */
  datatype TargetTable = TargetTable(
    mainTargets: OMap<Bytes, int>,       // main target -> its index
    mainTargetsList: seq<Bytes>,         // the main targets in index order
    tidToTarget: map<Bytes, Bytes>,      // str(tid) -> main target
    haplotypes: seq<Bytes>)              // sorted distinct haplotypes

  /** `str(get_tid(name))` for the reference at position `i`. */
  function TidKey(references: seq<Bytes>, i: int): Bytes
    requires 0 <= i < |references|
  {
    Decimal(GetTid(references, references[i]))
  }

  /** `if target not in main_targets: main_targets[target] = len(main_targets)`
      keeps the table the distinct targets seen, each at its position. */
  lemma RegisterStep(mainTargets: OMap<Bytes, int>, seen: seq<Bytes>, target: Bytes)
    requires mainTargets.Valid() && mainTargets.keys == Distinct(seen)
    requires IndexesKeys(mainTargets.vals, mainTargets.keys)
    ensures target in mainTargets.vals <==> target in Distinct(seen)
    ensures target !in mainTargets.vals ==>
      var m := Put(mainTargets, target, |mainTargets.keys|);
      && m.Valid() && m.keys == Distinct(seen + [target]) && IndexesKeys(m.vals, m.keys)
    ensures target in mainTargets.vals ==> mainTargets.keys == Distinct(seen + [target])
  {
    DistinctSnoc(seen, target);
    if target !in mainTargets.vals {
      IndexesKeysAppend(mainTargets.vals, mainTargets.keys, target);
    }
  }

  /** `if target not in main_targets: main_targets[target] = len(main_targets)`
      together with the list of main targets kept beside the table. */
  method RegisterTarget(mainTargets: OMap<Bytes, int>, mainTargetsList: seq<Bytes>, ghost seen: seq<Bytes>, target: Bytes)
    returns (mainTargets': OMap<Bytes, int>, mainTargetsList': seq<Bytes>)
    requires mainTargets.Valid() && mainTargets.keys == mainTargetsList == Distinct(seen)
    requires IndexesKeys(mainTargets.vals, mainTargets.keys)
    ensures mainTargets'.Valid() && mainTargets'.keys == mainTargetsList' == Distinct(seen + [target])
    ensures IndexesKeys(mainTargets'.vals, mainTargets'.keys)
  {
    RegisterStep(mainTargets, seen, target);
    mainTargets', mainTargetsList' := mainTargets, mainTargetsList;
    if target !in mainTargets.vals {
      mainTargets' := Put(mainTargets, target, |mainTargets.keys|);
      mainTargetsList' := mainTargetsList + [target];
    }
  }

  /** The first `n` references each have their tid mapped to their main
      target. */
  ghost predicate MapsTids(references: seq<Bytes>, n: int, m: map<Bytes, Bytes>)
    requires 0 <= n <= |references|
  {
    forall i :: 0 <= i < n ==> TidKey(references, i) in m && m[TidKey(references, i)] == SplitName(references[i]).0
  }

  /** Every key of `m` is the tid of one of the first `n` references. */
  ghost predicate OnlyTids(references: seq<Bytes>, n: int, m: map<Bytes, Bytes>)
    requires 0 <= n <= |references|
  {
    forall k :: k in m ==> exists i :: 0 <= i < n && k == TidKey(references, i)
  }

  /** `target_idx_to_main_target[tid] = target` for the next reference. */
  lemma TidStep(references: seq<Bytes>, n: int, m: map<Bytes, Bytes>)
    requires 0 <= n < |references|
    requires MapsTids(references, n, m) && OnlyTids(references, n, m)
    ensures MapsTids(references, n + 1, m[TidKey(references, n) := SplitName(references[n]).0])
    ensures OnlyTids(references, n + 1, m[TidKey(references, n) := SplitName(references[n]).0])
  {
    TidStepMaps(references, n, m);
    TidStepOnly(references, n, m);
  }

  /** The step keeps every earlier reference's tid mapped to its main
      target, because equal tids mean equal names. */
  lemma TidStepMaps(references: seq<Bytes>, n: int, m: map<Bytes, Bytes>)
    requires 0 <= n < |references|
    requires MapsTids(references, n, m)
    ensures MapsTids(references, n + 1, m[TidKey(references, n) := SplitName(references[n]).0])
  {
    var m' := m[TidKey(references, n) := SplitName(references[n]).0];
    forall i | 0 <= i < n + 1
      ensures TidKey(references, i) in m' && m'[TidKey(references, i)] == SplitName(references[i]).0
    {
      if i < n && TidKey(references, i) == TidKey(references, n) {
        TidKeySame(references, i, n);
      }
    }
  }

  /** The step adds only the tid of the next reference. */
  lemma TidStepOnly(references: seq<Bytes>, n: int, m: map<Bytes, Bytes>)
    requires 0 <= n < |references|
    requires OnlyTids(references, n, m)
    ensures OnlyTids(references, n + 1, m[TidKey(references, n) := SplitName(references[n]).0])
  {
    var m' := m[TidKey(references, n) := SplitName(references[n]).0];
    forall k | k in m' ensures exists i :: 0 <= i < n + 1 && k == TidKey(references, i) {
      if k != TidKey(references, n) {
        var i :| 0 <= i < n && k == TidKey(references, i);
        assert 0 <= i < n + 1 && k == TidKey(references, i);
      }
    }
  }

  /** Two references with the same tid have the same name. */
  lemma TidKeySame(references: seq<Bytes>, i: int, j: int)
    requires 0 <= i < |references| && 0 <= j < |references|
    requires TidKey(references, i) == TidKey(references, j)
    ensures references[i] == references[j]
  {
    DecimalInjective(GetTid(references, references[i]), GetTid(references, references[j]));
  }

  /** The loop over the header's references in the multisample `convert`:
      each main target is registered once, with the next index, in the
      order first seen; every reference's tid maps to its main target; the
      haplotypes are sorted and deduplicated. */
  method BuildTargetTable(references: seq<Bytes>) returns (t: TargetTable)
    ensures t.mainTargets.Valid()
    ensures t.mainTargets.keys == t.mainTargetsList == Distinct(TargetsOf(references))
    ensures IndexesKeys(t.mainTargets.vals, t.mainTargets.keys)
    ensures forall i :: 0 <= i < |references| ==>
      TidKey(references, i) in t.tidToTarget &&
      t.tidToTarget[TidKey(references, i)] == SplitName(references[i]).0
    ensures forall k :: k in t.tidToTarget ==>
      exists i :: 0 <= i < |references| && k == TidKey(references, i)
    ensures t.haplotypes == SortedSet(HaplotypesOf(references))
    ensures StrictlySorted(t.haplotypes)
    ensures forall h :: h in t.haplotypes <==> exists i :: 0 <= i < |references| && h == SplitName(references[i]).1
  {
    var mainTargets := Empty<Bytes, int>();
    var mainTargetsList: seq<Bytes> := [];
    var tidToTarget: map<Bytes, Bytes> := map[];
    var haplotypes: seq<Bytes> := [];
    var idx := 0;
    while idx < |references|
      invariant 0 <= idx <= |references|
      invariant mainTargets.Valid()
      invariant mainTargets.keys == mainTargetsList == Distinct(TargetsOf(references[..idx]))
      invariant IndexesKeys(mainTargets.vals, mainTargets.keys)
      invariant MapsTids(references, idx, tidToTarget) && OnlyTids(references, idx, tidToTarget)
      invariant haplotypes == HaplotypesOf(references[..idx])
    {
      var name := references[idx];
      var tid := Decimal(GetTid(references, name));
      var split := SplitName(name);
      TidStep(references, idx, tidToTarget);
      tidToTarget := tidToTarget[tid := split.0];
      haplotypes := haplotypes + [split.1];
      NamesOfSnoc(references, idx);
      mainTargets, mainTargetsList := RegisterTarget(mainTargets, mainTargetsList, TargetsOf(references[..idx]), split.0);
      idx := idx + 1;
    }
    assert references[..idx] == references;
    t := TargetTable(mainTargets, mainTargetsList, tidToTarget, SortedSet(haplotypes));
    SortedSetSpec(haplotypes);
    HaplotypesOfIn(references);
  }

  // ---------------------------------------------------------------------
  // The single-sample table of main targets

  /** The single-sample main target of every reference, in order. */
  function PrefixesOf(references: seq<Bytes>): (r: seq<Bytes>)
    ensures |r| == |references|
  {
    if |references| == 0 then []
    else PrefixesOf(references[..|references| - 1]) + [PrefixSuffix(references[|references| - 1]).0]
  }

  lemma {:induction false} PrefixesOfAt(references: seq<Bytes>, i: int)
    requires 0 <= i < |references|
    ensures PrefixesOf(references)[i] == PrefixSuffix(references[i]).0
    decreases |references|
  {
    if i < |references| - 1 {
      PrefixesOfAt(references[..|references| - 1], i);
    }
  }

  /** The prefixes listed are those of the references. */
  lemma PrefixesOfIn(references: seq<Bytes>)
    ensures forall n :: n in PrefixesOf(references) <==>
      exists i :: 0 <= i < |references| && n == PrefixSuffix(references[i]).0
  {
    forall n ensures n in PrefixesOf(references) ==>
      exists i :: 0 <= i < |references| && n == PrefixSuffix(references[i]).0 {
      if n in PrefixesOf(references) {
        var i :| 0 <= i < |references| && PrefixesOf(references)[i] == n;
        PrefixesOfAt(references, i);
      }
    }
    forall i | 0 <= i < |references| ensures PrefixSuffix(references[i]).0 in PrefixesOf(references) {
      PrefixesOfAt(references, i);
    }
  }

  /** Without a target file, the single-sample converter's main targets
      are the distinct name prefixes in sorted order, numbered 0, 1, ... */
  method BuildMainTargets(references: seq<Bytes>) returns (mainTargets: OMap<Bytes, int>)
    ensures mainTargets.Valid()
    ensures mainTargets.keys == SortedSet(PrefixesOf(references))
    ensures StrictlySorted(mainTargets.keys)
    ensures forall n :: n in mainTargets.vals <==> exists i :: 0 <= i < |references| && n == PrefixSuffix(references[i]).0
    ensures IndexesKeys(mainTargets.vals, mainTargets.keys)
  {
    var tmp: seq<Bytes> := [];
    var i := 0;
    while i < |references|
      invariant 0 <= i <= |references|
      invariant forall n :: n in tmp <==> n in PrefixesOf(references[..i])
    {
      var mainTarget := PrefixSuffix(references[i]).0;
      NamesOfSnoc(references, i);
      if mainTarget !in tmp {
        tmp := tmp + [mainTarget];
      }
      i := i + 1;
    }
    assert references[..i] == references;
    var sorted := SortedSet(tmp);
    SortedSetSpec(tmp);
    SortedSetSpec(PrefixesOf(references));
    SortedSetUnique(sorted, SortedSet(PrefixesOf(references)));
    mainTargets := Empty();
    var j := 0;
    while j < |sorted|
      invariant 0 <= j <= |sorted|
      invariant mainTargets.Valid()
      invariant mainTargets.keys == sorted[..j]
      invariant IndexesKeys(mainTargets.vals, mainTargets.keys)
    {
      StrictlySortedDistinct(sorted);
      assert sorted[j] !in sorted[..j];
      IndexesKeysAppend(mainTargets.vals, mainTargets.keys, sorted[j]);
      mainTargets := Put(mainTargets, sorted[j], |mainTargets.keys|);
      assert sorted[..j + 1] == sorted[..j] + [sorted[j]];
      j := j + 1;
    }
    assert sorted[..j] == sorted;
    PrefixesOfIn(references);
  }

  /** Two strictly sorted lists with the same elements are the same list. */
  lemma {:induction false} SortedSetUnique(a: seq<Bytes>, b: seq<Bytes>)
    requires StrictlySorted(a) && StrictlySorted(b)
    requires forall y :: y in a <==> y in b
    ensures a == b
    decreases |a|
  {
    if |a| > 0 {
      assert a[0] in b;
    }
    if |b| > 0 {
      assert b[0] in a;
    }
    if |a| > 0 && |b| > 0 {
      assert a == [a[0]] + a[1..];
      assert b == [b[0]] + b[1..];
      if a[0] != b[0] {
        assert a[0] in b && b[0] in a;
        var k :| 0 <= k < |b| && b[k] == a[0];
        var m :| 0 <= m < |a| && a[m] == b[0];
        assert Less(b[0], a[0]) && Less(a[0], b[0]);
        LessAsymmetric(a[0], b[0]);
      } else {
        StrictlySortedDistinct(a);
        StrictlySortedDistinct(b);
        forall y ensures y in a[1..] <==> y in b[1..] {
          if y in a[1..] {
            var k :| 0 <= k < |a[1..]| && a[1..][k] == y;
            assert a[k + 1] == y && y != a[0];
            assert y in b;
            var m :| 0 <= m < |b| && b[m] == y;
            assert m > 0 && b[1..][m - 1] == y;
          }
          if y in b[1..] {
            var k :| 0 <= k < |b[1..]| && b[1..][k] == y;
            assert b[k + 1] == y && y != b[0];
            assert y in a;
            var m :| 0 <= m < |a| && a[m] == y;
            assert m > 0 && a[1..][m - 1] == y;
          }
        }
        SortedSetUnique(a[1..], b[1..]);
      }
    }
  }
}

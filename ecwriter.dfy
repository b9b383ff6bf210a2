/** The version-1 branch of `convert` in `bam_utils.py`: it writes the
    combined result of the workers as the binary file of `EcFormat`, one
    `f.write` at a time. The spec functions below follow the writes in
    order and stop at the first exception (a value `struct.pack('<i')`
    rejects, a dictionary lookup that fails); `WriteV1` performs the same
    writes with the source's loops. */
module EcWriter {
  import opened Wrappers
  import opened ByteStrings
  import opened OrderedMaps
  import opened Targets
  import opened SingleSample
  import opened EcFormat

  /** Why the writer stops: `struct.error`, or a `KeyError` on one of the
      three dictionaries it reads. */
  datatype WriteError =
    | PackRange(value: int)
    | MissingTid(tid: Bytes)
    | MissingTarget(target: Bytes)
    | MissingClass(key: Bytes)

  /** `f.write(pack('<i', x))` after the bytes `out`. */
  function WriteInt(out: Bytes, x: int): Result<Bytes, WriteError>
  {
    if InInt32(x) then Success(out + Int32LE(x)) else Failure(PackRange(x))
  }

  // ---------------------------------------------------------------------
  // What the file holds

  /** `len(s)`, `pack('<{}s'.format(len(s)), s)` for every name in turn. */
  function WriteNames(out: Bytes, names: seq<Bytes>): Result<Bytes, WriteError>
  {
    if |names| == 0 then Success(out)
    else
      var o :- WriteNames(out, names[..|names| - 1]);
      var o' :- WriteInt(o, |names[|names| - 1]|);
      Success(o' + names[|names| - 1])
  }

  /** One `pack('<i', ec[k])` per class, in key order. */
  function WriteCounts(out: Bytes, keys: seq<Bytes>, ec: OMap<Bytes, int>): Result<Bytes, WriteError>
  {
    if |keys| == 0 then Success(out)
    else
      var o :- WriteCounts(out, keys[..|keys| - 1], ec);
      WriteInt(o, Get(ec, keys[|keys| - 1], 0))
  }

  /** The set of main targets of the tids of one class
      (`temp_main_targets`), each once, in the order the tids first reach
      it; `KeyError` on the first tid the tid map lacks. */
  function ClassTargets(ids: seq<Bytes>, tidToTarget: map<Bytes, Bytes>): (r: Result<seq<Bytes>, WriteError>)
    ensures r.Success? <==> forall i :: 0 <= i < |ids| ==> ids[i] in tidToTarget
    ensures r.Success? ==> NoDuplicates(r.value)
    ensures r.Success? ==> forall t :: t in r.value <==>
      exists i :: 0 <= i < |ids| && ids[i] in tidToTarget && tidToTarget[ids[i]] == t
  {
    if |ids| == 0 then Success([])
    else
      var init := ids[..|ids| - 1];
      var id := ids[|ids| - 1];
      var mts :- ClassTargets(init, tidToTarget);
      assert forall i :: 0 <= i < |init| ==> init[i] == ids[i];
      if id !in tidToTarget then Failure(MissingTid(id))
      else if tidToTarget[id] in mts then Success(mts)
      else
        NoDuplicatesSnoc(mts, tidToTarget[id]);
        Success(mts + [tidToTarget[id]])
  }

  /** `counter`: the number of mappings, one per main target of each class. */
  function MappingCount(keys: seq<Bytes>, tidToTarget: map<Bytes, Bytes>): Result<int, WriteError>
  {
    if |keys| == 0 then Success(0)
    else
      var counter :- MappingCount(keys[..|keys| - 1], tidToTarget);
      var mts :- ClassTargets(Split(keys[|keys| - 1], [COMMA]), tidToTarget);
      Success(counter + |mts|)
  }

  /** `bits`: for each haplotype, whether the tid of the reference named
      `<main target>_<haplotype>` (as decimal text, `-1` when there is no
      such reference) is one of the tids of the class. */
  function Flags(mainTarget: Bytes, haplotypes: seq<Bytes>, ids: seq<Bytes>, references: seq<Bytes>): seq<bool>
  {
    seq(|haplotypes|, i requires 0 <= i < |haplotypes| =>
      Decimal(GetTid(references, mainTarget + [UNDERSCORE] + haplotypes[i])) in ids)
  }

  /** One mapping: the class index, the main target's index, and
      `list_to_int(bits)`. The three lookups happen (for the log line)
      before the three writes. */
  function WriteTriple(out: Bytes, k: Bytes, mainTarget: Bytes, bits: seq<bool>, final: PieceResult,
                       listToInt: seq<bool> -> int): Result<Bytes, WriteError>
  {
    if k !in final.ecIdx then Failure(MissingClass(k))
    else if mainTarget !in final.mainTargets.vals then Failure(MissingTarget(mainTarget))
    else
      var o1 :- WriteInt(out, final.ecIdx[k]);
      var o2 :- WriteInt(o1, final.mainTargets.vals[mainTarget]);
      WriteInt(o2, listToInt(bits))
  }

  /** The mappings of class `k`, one per main target in `mts`. */
  function WriteClass(out: Bytes, k: Bytes, mts: seq<Bytes>, ids: seq<Bytes>, final: PieceResult,
                      references: seq<Bytes>, listToInt: seq<bool> -> int): Result<Bytes, WriteError>
  {
    if |mts| == 0 then Success(out)
    else
      var o :- WriteClass(out, k, mts[..|mts| - 1], ids, final, references, listToInt);
      var mt := mts[|mts| - 1];
      WriteTriple(o, k, mt, Flags(mt, final.haplotypes, ids, references), final, listToInt)
  }

  /** The mappings of every class, in key order. */
  function WriteMappings(out: Bytes, keys: seq<Bytes>, final: PieceResult, references: seq<Bytes>,
                         listToInt: seq<bool> -> int): Result<Bytes, WriteError>
  {
    if |keys| == 0 then Success(out)
    else
      var o :- WriteMappings(out, keys[..|keys| - 1], final, references, listToInt);
      var k := keys[|keys| - 1];
      var ids := Split(k, [COMMA]);
      var mts :- ClassTargets(ids, final.tidToTarget);
      WriteClass(o, k, mts, ids, final, references, listToInt)
  }

  /** The whole file, or the exception that cut it short. `references`
      stands for the header `gettid` searches; `listToInt` for
      `utils.list_to_int`. */
  function EncodeV1(final: PieceResult, references: seq<Bytes>, listToInt: seq<bool> -> int)
    : Result<Bytes, WriteError>
  {
    var o0 := Int32LE(FORMAT_VERSION);
    var o1 :- WriteInt(o0, |final.mainTargets.keys|);
    var o2 :- WriteNames(o1, final.mainTargets.keys);
    var o3 :- WriteInt(o2, |final.haplotypes|);
    var o4 :- WriteNames(o3, final.haplotypes);
    var o5 :- WriteInt(o4, |final.ec.keys|);
    var o6 :- WriteCounts(o5, final.ec.keys, final.ec);
    var counter :- MappingCount(final.ec.keys, final.tidToTarget);
    var o7 :- WriteInt(o6, counter);
    WriteMappings(o7, final.ec.keys, final, references, listToInt)
  }

  // ---------------------------------------------------------------------
  // The file as a value

  function CountsOf(keys: seq<Bytes>, ec: OMap<Bytes, int>): (r: seq<int>)
    ensures |r| == |keys|
  {
    if |keys| == 0 then [] else CountsOf(keys[..|keys| - 1], ec) + [Get(ec, keys[|keys| - 1], 0)]
  }

  function ClassTriples(k: Bytes, mts: seq<Bytes>, ids: seq<Bytes>, final: PieceResult,
                        references: seq<Bytes>, listToInt: seq<bool> -> int): (r: seq<Mapping>)
    ensures |r| == |mts|
  {
    if |mts| == 0 then []
    else
      var mt := mts[|mts| - 1];
      ClassTriples(k, mts[..|mts| - 1], ids, final, references, listToInt)
      + [Mapping(if k in final.ecIdx then final.ecIdx[k] else 0, Get(final.mainTargets, mt, 0),
                 listToInt(Flags(mt, final.haplotypes, ids, references)))]
  }

  function Triples(keys: seq<Bytes>, final: PieceResult, references: seq<Bytes>,
                   listToInt: seq<bool> -> int): seq<Mapping>
  {
    if |keys| == 0 then []
    else
      var k := keys[|keys| - 1];
      var ids := Split(k, [COMMA]);
      Triples(keys[..|keys| - 1], final, references, listToInt)
      + match ClassTargets(ids, final.tidToTarget)
        case Success(mts) => ClassTriples(k, mts, ids, final, references, listToInt)
        case Failure(_) => []
  }

  /** What the file says: the main targets, the haplotypes, the class
      counts and the mappings. */
  function Layout(final: PieceResult, references: seq<Bytes>, listToInt: seq<bool> -> int): EcFile
  {
    EcFile(final.mainTargets.keys, final.haplotypes, CountsOf(final.ec.keys, final.ec),
           Triples(final.ec.keys, final, references, listToInt))
  }

  // ---------------------------------------------------------------------
  // What the bits mean

  /** With the header's names distinct, and `-1` not among the tids of
      the class, the bit of a haplotype is set exactly when the class holds
      the reference `<main target>_<haplotype>`. */
  lemma FlagsMeaning(mainTarget: Bytes, haplotypes: seq<Bytes>, ids: seq<Bytes>, references: seq<Bytes>, i: int)
    requires NoDuplicates(references) && Decimal(-1) !in ids
    requires 0 <= i < |haplotypes|
    ensures |Flags(mainTarget, haplotypes, ids, references)| == |haplotypes|
    ensures Flags(mainTarget, haplotypes, ids, references)[i] <==>
      exists t :: 0 <= t < |references| && references[t] == mainTarget + [UNDERSCORE] + haplotypes[i]
                  && Decimal(t) in ids
  {
    var name := mainTarget + [UNDERSCORE] + haplotypes[i];
    var tid := GetTid(references, name);
    if tid >= 0 {
      forall t | 0 <= t < |references| && references[t] == name
        ensures t == tid
      {
      }
    }
  }

  // ---------------------------------------------------------------------
  // The bytes written are the image of the layout

  lemma {:induction false} WriteNamesImage(out: Bytes, names: seq<Bytes>)
    ensures WriteNames(out, names).Success? <==> NamesFit(names)
    ensures NamesFit(names) ==> WriteNames(out, names) == Success(out + NamesBytes(names))
  {
    if |names| > 0 {
      var init := names[..|names| - 1];
      var last := names[|names| - 1];
      WriteNamesImage(out, init);
      assert NamesFit(names) <==> NamesFit(init) && |last| <= INT32_MAX by {
        assert forall j :: 0 <= j < |init| ==> init[j] == names[j];
      }
      if NamesFit(names) {
        assert out + NamesBytes(names) == out + NamesBytes(init) + Int32LE(|last|) + last;
      }
    } else {
      assert out + [] == out;
    }
  }

  lemma {:induction false} WriteCountsImage(out: Bytes, keys: seq<Bytes>, ec: OMap<Bytes, int>)
    requires WriteCounts(out, keys, ec).Success?
    ensures IntsFit(CountsOf(keys, ec))
    ensures WriteCounts(out, keys, ec).value == out + IntsBytes(CountsOf(keys, ec))
  {
    if |keys| > 0 {
      var init := keys[..|keys| - 1];
      var x := Get(ec, keys[|keys| - 1], 0);
      WriteCountsImage(out, init, ec);
      var before := CountsOf(init, ec);
      assert CountsOf(keys, ec) == before + [x];
      assert IntsFit(before + [x]);
      assert (before + [x])[..|before|] == before;
      assert IntsBytes(before + [x]) == IntsBytes(before) + Int32LE(x);
    } else {
      assert out + [] == out;
    }
  }

  lemma MappingsBytesSnoc(ms: seq<Mapping>, m: Mapping)
    requires MappingsFit(ms) && MappingFits(m)
    ensures MappingsFit(ms + [m])
    ensures MappingsBytes(ms + [m]) == MappingsBytes(ms) + MappingBytes(m)
  {
    assert (ms + [m])[..|ms|] == ms;
  }

  lemma {:induction false} MappingsBytesAppend(a: seq<Mapping>, b: seq<Mapping>)
    requires MappingsFit(a) && MappingsFit(b)
    ensures MappingsFit(a + b)
    ensures MappingsBytes(a + b) == MappingsBytes(a) + MappingsBytes(b)
  {
    if |b| > 0 {
      var init := b[..|b| - 1];
      assert MappingsFit(init);
      MappingsBytesAppend(a, init);
      assert a + b == (a + init) + [b[|b| - 1]];
      MappingsBytesSnoc(a + init, b[|b| - 1]);
    } else {
      assert a + b == a;
    }
  }

  lemma {:induction false} WriteClassImage(out: Bytes, k: Bytes, mts: seq<Bytes>, ids: seq<Bytes>, final: PieceResult,
                                           references: seq<Bytes>, listToInt: seq<bool> -> int)
    requires WriteClass(out, k, mts, ids, final, references, listToInt).Success?
    ensures MappingsFit(ClassTriples(k, mts, ids, final, references, listToInt))
    ensures WriteClass(out, k, mts, ids, final, references, listToInt).value
         == out + MappingsBytes(ClassTriples(k, mts, ids, final, references, listToInt))
  {
    if |mts| > 0 {
      var init := mts[..|mts| - 1];
      var mt := mts[|mts| - 1];
      WriteClassImage(out, k, init, ids, final, references, listToInt);
      var o := WriteClass(out, k, init, ids, final, references, listToInt).value;
      var m := Mapping(final.ecIdx[k], final.mainTargets.vals[mt], listToInt(Flags(mt, final.haplotypes, ids, references)));
      var before := ClassTriples(k, init, ids, final, references, listToInt);
      assert ClassTriples(k, mts, ids, final, references, listToInt) == before + [m];
      MappingsBytesSnoc(before, m);
      assert WriteClass(out, k, mts, ids, final, references, listToInt).value == o + MappingBytes(m);
    } else {
      assert out + [] == out;
    }
  }

  lemma {:induction false} WriteMappingsImage(out: Bytes, keys: seq<Bytes>, final: PieceResult,
                                              references: seq<Bytes>, listToInt: seq<bool> -> int)
    requires WriteMappings(out, keys, final, references, listToInt).Success?
    ensures MappingsFit(Triples(keys, final, references, listToInt))
    ensures WriteMappings(out, keys, final, references, listToInt).value
         == out + MappingsBytes(Triples(keys, final, references, listToInt))
  {
    if |keys| > 0 {
      var init := keys[..|keys| - 1];
      var k := keys[|keys| - 1];
      var ids := Split(k, [COMMA]);
      WriteMappingsImage(out, init, final, references, listToInt);
      var o := WriteMappings(out, init, final, references, listToInt).value;
      var mts := ClassTargets(ids, final.tidToTarget).value;
      WriteClassImage(o, k, mts, ids, final, references, listToInt);
      MappingsBytesAppend(Triples(init, final, references, listToInt), ClassTriples(k, mts, ids, final, references, listToInt));
    }
  }

  /** The mapping count written before the mappings is the number of
      mappings that follow. */
  lemma {:induction false} MappingCountTriples(keys: seq<Bytes>, final: PieceResult, references: seq<Bytes>,
                                               listToInt: seq<bool> -> int)
    requires MappingCount(keys, final.tidToTarget).Success?
    ensures MappingCount(keys, final.tidToTarget).value == |Triples(keys, final, references, listToInt)|
  {
    if |keys| > 0 {
      MappingCountTriples(keys[..|keys| - 1], final, references, listToInt);
    }
  }

  /** A file written to the end is the image of its layout, with every
      number in 32 bits. */
  lemma EncodeV1Layout(final: PieceResult, references: seq<Bytes>, listToInt: seq<bool> -> int)
    requires EncodeV1(final, references, listToInt).Success?
    ensures Representable(Layout(final, references, listToInt))
    ensures EncodeV1(final, references, listToInt).value == Serialize(Layout(final, references, listToInt))
  {
    var f := Layout(final, references, listToInt);
    var keys := final.ec.keys;
    var v := Int32LE(FORMAT_VERSION);
    var o1 := v + Int32LE(|final.mainTargets.keys|);
    WriteNamesImage(o1, final.mainTargets.keys);
    var o2 := o1 + NamesBytes(final.mainTargets.keys);
    var o3 := o2 + Int32LE(|final.haplotypes|);
    WriteNamesImage(o3, final.haplotypes);
    var o4 := o3 + NamesBytes(final.haplotypes);
    var o5 := o4 + Int32LE(|keys|);
    WriteCountsImage(o5, keys, final.ec);
    var o6 := o5 + IntsBytes(f.counts);
    var counter := MappingCount(keys, final.tidToTarget).value;
    MappingCountTriples(keys, final, references, listToInt);
    var o7 := o6 + Int32LE(counter);
    WriteMappingsImage(o7, keys, final, references, listToInt);
    var t := Int32LE(|f.targets|) + NamesBytes(f.targets);
    var h := Int32LE(|f.haplotypes|) + NamesBytes(f.haplotypes);
    var c := Int32LE(|f.counts|) + IntsBytes(f.counts);
    var m := Int32LE(|f.mappings|) + MappingsBytes(f.mappings);
    Regroup(v, Int32LE(|f.targets|), NamesBytes(f.targets), Int32LE(|f.haplotypes|), NamesBytes(f.haplotypes),
            Int32LE(|f.counts|), IntsBytes(f.counts), Int32LE(|f.mappings|), MappingsBytes(f.mappings));
  }

  /** Appending nine pieces one after the other gives the sections of the
      file. */
  lemma Regroup(v: Bytes, a1: Bytes, a2: Bytes, b1: Bytes, b2: Bytes, c1: Bytes, c2: Bytes, d1: Bytes, d2: Bytes)
    ensures v + a1 + a2 + b1 + b2 + c1 + c2 + d1 + d2 == v + (a1 + a2 + (b1 + b2 + (c1 + c2 + (d1 + d2))))
  {
    assert c1 + c2 + d1 + d2 == c1 + c2 + (d1 + d2);
    assert b1 + b2 + c1 + c2 + d1 + d2 == b1 + b2 + (c1 + c2 + (d1 + d2));
    assert a1 + a2 + b1 + b2 + c1 + c2 + d1 + d2 == a1 + a2 + (b1 + b2 + (c1 + c2 + (d1 + d2)));
  }

  /** Reading the written file back gives the main targets, the
      haplotypes, the class counts and the mappings. */
  lemma ParseEncodeV1(final: PieceResult, references: seq<Bytes>, listToInt: seq<bool> -> int)
    requires EncodeV1(final, references, listToInt).Success?
    ensures Parse(EncodeV1(final, references, listToInt).value) == Some(Layout(final, references, listToInt))
  {
    EncodeV1Layout(final, references, listToInt);
    ParseSerialize(Layout(final, references, listToInt));
  }

  // ---------------------------------------------------------------------
  // An exception ends the writing for good

  lemma {:induction false} WriteNamesStops(out: Bytes, names: seq<Bytes>, n: nat)
    requires n <= |names| && WriteNames(out, names[..n]).Failure?
    ensures WriteNames(out, names) == WriteNames(out, names[..n])
    decreases |names|
  {
    if n < |names| {
      var init := names[..|names| - 1];
      assert init[..n] == names[..n];
      WriteNamesStops(out, init, n);
    } else {
      assert names[..n] == names;
    }
  }

  lemma {:induction false} WriteCountsStops(out: Bytes, keys: seq<Bytes>, ec: OMap<Bytes, int>, n: nat)
    requires n <= |keys| && WriteCounts(out, keys[..n], ec).Failure?
    ensures WriteCounts(out, keys, ec) == WriteCounts(out, keys[..n], ec)
    decreases |keys|
  {
    if n < |keys| {
      var init := keys[..|keys| - 1];
      assert init[..n] == keys[..n];
      WriteCountsStops(out, init, ec, n);
    } else {
      assert keys[..n] == keys;
    }
  }

  lemma {:induction false} ClassTargetsStops(ids: seq<Bytes>, tidToTarget: map<Bytes, Bytes>, n: nat)
    requires n <= |ids| && ClassTargets(ids[..n], tidToTarget).Failure?
    ensures ClassTargets(ids, tidToTarget) == ClassTargets(ids[..n], tidToTarget)
    decreases |ids|
  {
    if n < |ids| {
      var init := ids[..|ids| - 1];
      assert init[..n] == ids[..n];
      ClassTargetsStops(init, tidToTarget, n);
    } else {
      assert ids[..n] == ids;
    }
  }

  lemma {:induction false} MappingCountStops(keys: seq<Bytes>, tidToTarget: map<Bytes, Bytes>, n: nat)
    requires n <= |keys| && MappingCount(keys[..n], tidToTarget).Failure?
    ensures MappingCount(keys, tidToTarget) == MappingCount(keys[..n], tidToTarget)
    decreases |keys|
  {
    if n < |keys| {
      var init := keys[..|keys| - 1];
      assert init[..n] == keys[..n];
      MappingCountStops(init, tidToTarget, n);
    } else {
      assert keys[..n] == keys;
    }
  }

  lemma {:induction false} WriteClassStops(out: Bytes, k: Bytes, mts: seq<Bytes>, ids: seq<Bytes>,
                                           final: PieceResult, references: seq<Bytes>,
                                           listToInt: seq<bool> -> int, n: nat)
    requires n <= |mts| && WriteClass(out, k, mts[..n], ids, final, references, listToInt).Failure?
    ensures WriteClass(out, k, mts, ids, final, references, listToInt)
         == WriteClass(out, k, mts[..n], ids, final, references, listToInt)
    decreases |mts|
  {
    if n < |mts| {
      var init := mts[..|mts| - 1];
      assert init[..n] == mts[..n];
      WriteClassStops(out, k, init, ids, final, references, listToInt, n);
    } else {
      assert mts[..n] == mts;
    }
  }

  lemma {:induction false} WriteMappingsStops(out: Bytes, keys: seq<Bytes>, final: PieceResult,
                                              references: seq<Bytes>, listToInt: seq<bool> -> int, n: nat)
    requires n <= |keys| && WriteMappings(out, keys[..n], final, references, listToInt).Failure?
    ensures WriteMappings(out, keys, final, references, listToInt)
         == WriteMappings(out, keys[..n], final, references, listToInt)
    decreases |keys|
  {
    if n < |keys| {
      var init := keys[..|keys| - 1];
      assert init[..n] == keys[..n];
      WriteMappingsStops(out, init, final, references, listToInt, n);
    } else {
      assert keys[..n] == keys;
    }
  }

  // ---------------------------------------------------------------------
  // The writes, as the source performs them

  method WriteNamesLoop(out: Bytes, names: seq<Bytes>) returns (r: Result<Bytes, WriteError>)
    ensures r == WriteNames(out, names)
  {
    var o := out;
    for i := 0 to |names|
      invariant WriteNames(out, names[..i]) == Success(o)
    {
      assert names[..i + 1][..i] == names[..i];
      var packed := WriteInt(o, |names[i]|);
      if packed.Failure? {
        WriteNamesStops(out, names, i + 1);
        return Failure(packed.error);
      }
      o := packed.value + names[i];
    }
    assert names[..|names|] == names;
    return Success(o);
  }

  method WriteCountsLoop(out: Bytes, ec: OMap<Bytes, int>) returns (r: Result<Bytes, WriteError>)
    ensures r == WriteCounts(out, ec.keys, ec)
  {
    var o := out;
    for i := 0 to |ec.keys|
      invariant WriteCounts(out, ec.keys[..i], ec) == Success(o)
    {
      assert ec.keys[..i + 1][..i] == ec.keys[..i];
      var packed := WriteInt(o, Get(ec, ec.keys[i], 0));
      if packed.Failure? {
        WriteCountsStops(out, ec.keys, ec, i + 1);
        return packed;
      }
      o := packed.value;
    }
    assert ec.keys[..|ec.keys|] == ec.keys;
    return Success(o);
  }

  /** `temp_main_targets.add(final.target_idx_to_main_target[idx])` for
      every tid of the class. */
  method MainTargetsOf(ids: seq<Bytes>, tidToTarget: map<Bytes, Bytes>) returns (r: Result<seq<Bytes>, WriteError>)
    ensures r == ClassTargets(ids, tidToTarget)
  {
    var mts: seq<Bytes> := [];
    for i := 0 to |ids|
      invariant ClassTargets(ids[..i], tidToTarget) == Success(mts)
    {
      assert ids[..i + 1][..i] == ids[..i];
      if ids[i] !in tidToTarget {
        ClassTargetsStops(ids, tidToTarget, i + 1);
        return Failure(MissingTid(ids[i]));
      }
      var t := tidToTarget[ids[i]];
      if t !in mts {
        mts := mts + [t];
      }
    }
    assert ids[..|ids|] == ids;
    return Success(mts);
  }

  /** The first pass over the classes: `counter += len(temp_main_targets)`. */
  method CountMappings(keys: seq<Bytes>, tidToTarget: map<Bytes, Bytes>) returns (r: Result<int, WriteError>)
    ensures r == MappingCount(keys, tidToTarget)
  {
    var counter := 0;
    for i := 0 to |keys|
      invariant MappingCount(keys[..i], tidToTarget) == Success(counter)
    {
      assert keys[..i + 1][..i] == keys[..i];
      var mts := MainTargetsOf(Split(keys[i], [COMMA]), tidToTarget);
      if mts.Failure? {
        MappingCountStops(keys, tidToTarget, i + 1);
        return Failure(mts.error);
      }
      counter := counter + |mts.value|;
    }
    assert keys[..|keys|] == keys;
    return Success(counter);
  }

  /** The `bits` loop over the haplotypes. */
  method HaplotypeBits(mainTarget: Bytes, haplotypes: seq<Bytes>, ids: seq<Bytes>, references: seq<Bytes>)
    returns (bits: seq<bool>)
    ensures bits == Flags(mainTarget, haplotypes, ids, references)
  {
    bits := [];
    for i := 0 to |haplotypes|
      invariant |bits| == i
      invariant forall j :: 0 <= j < i ==> bits[j] == Flags(mainTarget, haplotypes, ids, references)[j]
    {
      var readTranscript := mainTarget + [UNDERSCORE] + haplotypes[i];
      var readTranscriptIdx := Decimal(GetTid(references, readTranscript));
      if readTranscriptIdx in ids {
        bits := bits + [true];
      } else {
        bits := bits + [false];
      }
    }
  }

  method WriteTripleOut(out: Bytes, k: Bytes, mainTarget: Bytes, bits: seq<bool>, final: PieceResult,
                        listToInt: seq<bool> -> int) returns (r: Result<Bytes, WriteError>)
    ensures r == WriteTriple(out, k, mainTarget, bits, final, listToInt)
  {
    if k !in final.ecIdx {
      return Failure(MissingClass(k));
    }
    if mainTarget !in final.mainTargets.vals {
      return Failure(MissingTarget(mainTarget));
    }
    var o1 :- WriteInt(out, final.ecIdx[k]);
    var o2 :- WriteInt(o1, final.mainTargets.vals[mainTarget]);
    r := WriteInt(o2, listToInt(bits));
  }

  /** The mappings of one class, one per main target. */
  method WriteClassLoop(out: Bytes, k: Bytes, mts: seq<Bytes>, ids: seq<Bytes>, final: PieceResult,
                        references: seq<Bytes>, listToInt: seq<bool> -> int)
    returns (r: Result<Bytes, WriteError>)
    ensures r == WriteClass(out, k, mts, ids, final, references, listToInt)
  {
    var o := out;
    for i := 0 to |mts|
      invariant WriteClass(out, k, mts[..i], ids, final, references, listToInt) == Success(o)
    {
      assert mts[..i + 1][..i] == mts[..i];
      var bits := HaplotypeBits(mts[i], final.haplotypes, ids, references);
      var written := WriteTripleOut(o, k, mts[i], bits, final, listToInt);
      if written.Failure? {
        WriteClassStops(out, k, mts, ids, final, references, listToInt, i + 1);
        return written;
      }
      o := written.value;
    }
    assert mts[..|mts|] == mts;
    return Success(o);
  }

  /** The second pass over the classes. */
  method WriteMappingsLoop(out: Bytes, final: PieceResult, references: seq<Bytes>, listToInt: seq<bool> -> int)
    returns (r: Result<Bytes, WriteError>)
    ensures r == WriteMappings(out, final.ec.keys, final, references, listToInt)
  {
    var keys := final.ec.keys;
    var o := out;
    for i := 0 to |keys|
      invariant WriteMappings(out, keys[..i], final, references, listToInt) == Success(o)
    {
      assert keys[..i + 1][..i] == keys[..i];
      var ids := Split(keys[i], [COMMA]);
      var mts := MainTargetsOf(ids, final.tidToTarget);
      if mts.Failure? {
        WriteMappingsStops(out, keys, final, references, listToInt, i + 1);
        return Failure(mts.error);
      }
      var written := WriteClassLoop(o, keys[i], mts.value, ids, final, references, listToInt);
      if written.Failure? {
        WriteMappingsStops(out, keys, final, references, listToInt, i + 1);
        return written;
      }
      o := written.value;
    }
    assert keys[..|keys|] == keys;
    return Success(o);
  }

  /** The version-1 file, written in the source's order; an exception
      leaves the error instead of the bytes. */
  method WriteV1(final: PieceResult, references: seq<Bytes>, listToInt: seq<bool> -> int)
    returns (r: Result<Bytes, WriteError>)
    ensures r == EncodeV1(final, references, listToInt)
  {
    var o0 := Int32LE(FORMAT_VERSION);
    var o1 :- WriteInt(o0, |final.mainTargets.keys|);
    var o2 :- WriteNamesLoop(o1, final.mainTargets.keys);
    var o3 :- WriteInt(o2, |final.haplotypes|);
    var o4 :- WriteNamesLoop(o3, final.haplotypes);
    var o5 :- WriteInt(o4, |final.ec.keys|);
    var o6 :- WriteCountsLoop(o5, final.ec);
    var counter :- CountMappings(final.ec.keys, final.tidToTarget);
    var o7 :- WriteInt(o6, counter);
    r := WriteMappingsLoop(o7, final, references, listToInt);
  }
}

/** The single-sample equivalence-class accumulator (`process_piece`).
    A worker reads the records of its chunks in order. Consecutive records
    with the same query name form a read; the distinct target ids of a
    read, sorted and joined with `,`, name its equivalence class, whose
    count goes up by one when the read ends. A read ends when the query
    name changes and, once per chunk, when the chunk's records run out. */
module SingleSample {
  import opened Wrappers
  import opened ByteStrings
  import opened OrderedMaps
  import opened Alignments
  import opened Targets

  /** The local variables of `process_piece` that survive from one record
      to the next. The haplotype set is kept as a list without repetitions
      in the order first seen. */
  datatype PieceState = PieceState(
    ec: OMap<Bytes, int>,
    ecIdx: map<Bytes, int>,
    haplotypes: seq<Bytes>,
    tidToTarget: map<Bytes, Bytes>,
    uniqueTids: OMap<Bytes, int>,
    uniqueReads: OMap<Bytes, int>,
    readIdSwitches: nat,
    sameReadTarget: nat,
    allAlignments: nat,
    validAlignments: nat,
    flushes: nat,
    readId: Option<Bytes>,
    tid: Option<Bytes>,
    targetIds: seq<Bytes>)

  function Initial(): PieceState
  {
    PieceState(Empty(), map[], [], map[], Empty(), Empty(), 0, 0, 0, 0, 0, None, None, [])
  }

  /** A target table entry `tid -> main target` that agrees with the
      header: the tid names a reference whose name starts with the target. */
  ghost predicate TidEntries(m: map<Bytes, Bytes>, references: seq<Bytes>)
  {
    forall k :: k in m ==> IsTid(k, |references|) && m[k] == PrefixSuffix(references[ParseDecimal(k)]).0
  }

  /** The class table: each key counted, placed at its position, and well
      formed for a header of `n` references. */
  ghost predicate EcOk(ec: OMap<Bytes, int>, ecIdx: map<Bytes, int>, n: int)
  {
    && ec.Valid() && IndexesKeys(ecIdx, ec.keys)
    && forall k :: k in ec.vals ==> WellFormedKey(k, n)
  }

  /** The read in progress: distinct tids, the last one seen among them,
      and a read name only once this chunk gave the read a tid. */
  ghost predicate ReadOk(readId: Option<Bytes>, tid: Option<Bytes>, targetIds: seq<Bytes>, n: int)
  {
    && (tid.None? <==> targetIds == [])
    && (tid.Some? ==> tid.value in targetIds)
    && (readId.Some? ==> tid.Some?)
    && NoDuplicates(targetIds)
    && forall p :: p in targetIds ==> IsTid(p, n)
  }

  /** The tid table agrees with the header and, given a target file, only
      names its targets. */
  ghost predicate TargetsOk(tidToTarget: map<Bytes, Bytes>, references: seq<Bytes>,
                            targetFile: Option<OMap<Bytes, int>>)
  {
    && TidEntries(tidToTarget, references)
    && (targetFile.Some? ==> forall k :: k in tidToTarget ==> tidToTarget[k] in targetFile.value.vals)
  }

  /** Every haplotype seen is the suffix of a reference name, once. */
  ghost predicate HaplotypesOk(haplotypes: seq<Bytes>, references: seq<Bytes>)
  {
    && NoDuplicates(haplotypes)
    && forall h :: h in haplotypes ==> exists t :: 0 <= t < |references| && h == PrefixSuffix(references[t]).1
  }

  /** What holds of the accumulator after every record, aborted or not. */
  ghost predicate Inv(s: PieceState, references: seq<Bytes>, targetFile: Option<OMap<Bytes, int>>)
  {
    && EcOk(s.ec, s.ecIdx, |references|)
    && ReadOk(s.readId, s.tid, s.targetIds, |references|)
    && TargetsOk(s.tidToTarget, references, targetFile)
    && HaplotypesOk(s.haplotypes, references)
    && s.uniqueTids.Valid() && s.uniqueReads.Valid()
    && Total(s.ec) == s.readIdSwitches + s.flushes
    && s.validAlignments <= s.allAlignments
  }

  /** What holds as long as no record was lost to an error: every mapped
      record was counted once under its tid and once under a read name. */
  ghost predicate Counted(s: PieceState)
  {
    && s.uniqueTids.Valid() && s.uniqueReads.Valid()
    && Total(s.uniqueTids) == s.validAlignments
    && Total(s.uniqueReads) == s.validAlignments
    && (s.tid.None? ==> s.validAlignments == 0)
  }

  /** `Counted` reads only the two counters, the number of mapped records
      and the last tid. */
  lemma CountedFrame(s: PieceState, t: PieceState)
    requires t.uniqueTids == s.uniqueTids && t.uniqueReads == s.uniqueReads
    requires t.validAlignments == s.validAlignments && t.tid == s.tid
    ensures Counted(s) ==> Counted(t)
  {
  }

  /** The result of feeding one record (or the end of a chunk) to the
      accumulator: go on, stop because an exception was caught by the
      outer handler (the results so far are still returned), or exit the
      process. */
  datatype StepOutcome = Next(state: PieceState) | Abort(state: PieceState) | Exit(target: Bytes)

  /** Counting the class of a finished read, `ec[','.join(sorted(target_ids))] += 1`:
      the table stays well formed and only that class gains one. */
  function FlushRead(ec: OMap<Bytes, int>, ecIdx: map<Bytes, int>, targetIds: seq<Bytes>, n: int)
    : (r: (OMap<Bytes, int>, map<Bytes, int>))
    requires EcOk(ec, ecIdx, n)
    requires |targetIds| >= 1 && NoDuplicates(targetIds)
    requires forall p :: p in targetIds ==> IsTid(p, n)
    ensures EcOk(r.0, r.1, n)
    ensures Total(r.0) == Total(ec) + 1
  {
    var key := EcKey(targetIds);
    // a new key gets position `len(ec_idx)`
    var r := BumpIndexed(ec, ecIdx, key, 1);
    assert forall k :: k in r.0.vals ==> WellFormedKey(k, n) by {
      EcKeyWellFormed(targetIds, n);
      forall k | k in r.0.vals ensures WellFormedKey(k, n) {
        if k != key {
          assert k in ec.vals;
        }
      }
    }
    BumpTotal(ec, key, 1);
    r
  }

  /** The class of the finished read gains one and every other class
      keeps its count. */
  lemma FlushReadCounts(ec: OMap<Bytes, int>, ecIdx: map<Bytes, int>, targetIds: seq<Bytes>, n: int, k: Bytes)
    requires EcOk(ec, ecIdx, n)
    requires |targetIds| >= 1 && NoDuplicates(targetIds)
    requires forall p :: p in targetIds ==> IsTid(p, n)
    ensures Get(FlushRead(ec, ecIdx, targetIds, n).0, k, 0)
         == Get(ec, k, 0) + if k == EcKey(targetIds) then 1 else 0
  {
    BumpGet(ec, EcKey(targetIds), 1, k);
  }

  /** Recording the reference of a mapped record: its tid now names its
      main target, and its haplotype joins the set. */
  function RecordReference(tidToTarget: map<Bytes, Bytes>, haplotypes: seq<Bytes>,
                           references: seq<Bytes>, targetFile: Option<OMap<Bytes, int>>, t: int)
    : (r: (map<Bytes, Bytes>, seq<Bytes>))
    requires TargetsOk(tidToTarget, references, targetFile) && HaplotypesOk(haplotypes, references)
    requires 0 <= t < |references|
    requires targetFile.Some? ==> PrefixSuffix(references[t]).0 in targetFile.value.vals
    ensures TargetsOk(r.0, references, targetFile) && HaplotypesOk(r.1, references)
    ensures Decimal(t) in r.0 && r.0[Decimal(t)] == PrefixSuffix(references[t]).0
    ensures forall k :: k != Decimal(t) ==> (k in r.0 <==> k in tidToTarget)
    ensures forall h :: h in r.1 <==> h in haplotypes || h == PrefixSuffix(references[t]).1
  {
    DecimalIsTid(t, |references|);
    DecimalRoundTrip(t);
    var haplotype := PrefixSuffix(references[t]).1;
    var haplotypes' := if haplotype in haplotypes then haplotypes else haplotypes + [haplotype];
    assert NoDuplicates(haplotypes') by {
      if haplotype !in haplotypes {
        NoDuplicatesSnoc(haplotypes, haplotype);
      }
    }
    (tidToTarget[Decimal(t) := PrefixSuffix(references[t]).0], haplotypes')
  }

  /** A mapped record with a new query name: the read in progress ends
      and its class is counted, and a read with just this tid begins. */
  function SwitchRead(s: PieceState, queryName: Bytes, tid: Bytes, n: int): (r: PieceState)
    requires EcOk(s.ec, s.ecIdx, n) && ReadOk(s.readId, s.tid, s.targetIds, n) && IsTid(tid, n)
    requires s.readId.Some?
    ensures EcOk(r.ec, r.ecIdx, n) && ReadOk(r.readId, r.tid, r.targetIds, n)
    ensures r.readId == Some(queryName) && r.tid == Some(tid) && r.targetIds == [tid]
    ensures r.readIdSwitches == s.readIdSwitches + 1
    ensures Total(r.ec) == Total(s.ec) + 1
    ensures r == s.(ec := r.ec, ecIdx := r.ecIdx, readId := r.readId, tid := r.tid,
                    targetIds := r.targetIds, readIdSwitches := r.readIdSwitches)
  {
    var counted := FlushRead(s.ec, s.ecIdx, s.targetIds, n);
    s.(ec := counted.0, ecIdx := counted.1, readId := Some(queryName),
       targetIds := [tid], tid := Some(tid), readIdSwitches := s.readIdSwitches + 1)
  }

  /** A mapped record of the read in progress: its tid joins the read
      unless it is there already, which `same_read_target` counts. */
  function ExtendRead(s: PieceState, readId: Bytes, tid: Bytes, n: int): (r: PieceState)
    requires ReadOk(s.readId, s.tid, s.targetIds, n) && IsTid(tid, n)
    ensures ReadOk(r.readId, r.tid, r.targetIds, n)
    ensures r.readId == Some(readId) && r.tid == Some(tid)
    ensures r.targetIds == (if tid in s.targetIds then s.targetIds else s.targetIds + [tid])
    ensures r == s.(readId := r.readId, tid := r.tid, targetIds := r.targetIds,
                    sameReadTarget := r.sameReadTarget)
  {
    if tid !in s.targetIds then
      NoDuplicatesSnoc(s.targetIds, tid);
      s.(readId := Some(readId), targetIds := s.targetIds + [tid], tid := Some(tid))
    else
      s.(readId := Some(readId), tid := Some(tid), sameReadTarget := s.sameReadTarget + 1)
  }

  /** The read-name bookkeeping of a mapped record with tid `tid` once the
      read name is known: a new query name ends the read in progress,
      counts its class and starts a read with just this tid; the same name
      adds the tid to the read unless it is there already. */
  function Advance(s: PieceState, queryName: Bytes, readId: Bytes, tid: Bytes, n: int): (r: PieceState)
    requires EcOk(s.ec, s.ecIdx, n) && ReadOk(s.readId, s.tid, s.targetIds, n) && IsTid(tid, n)
    requires readId == (if s.readId.None? then queryName else s.readId.value)
    ensures EcOk(r.ec, r.ecIdx, n) && ReadOk(r.readId, r.tid, r.targetIds, n)
    ensures r.readId == Some(queryName) && r.tid == Some(tid)
    ensures readId != queryName ==>
      && r.targetIds == [tid]
      && r.readIdSwitches == s.readIdSwitches + 1
      && Total(r.ec) == Total(s.ec) + 1
    ensures readId == queryName ==>
      && r.targetIds == (if tid in s.targetIds then s.targetIds else s.targetIds + [tid])
      && r.readIdSwitches == s.readIdSwitches
      && r.ec == s.ec
    ensures r == s.(ec := r.ec, ecIdx := r.ecIdx, readId := r.readId, tid := r.tid,
                    targetIds := r.targetIds, readIdSwitches := r.readIdSwitches,
                    sameReadTarget := r.sameReadTarget)
  {
    if readId != queryName then SwitchRead(s, queryName, tid, n)
    else ExtendRead(s, readId, tid, n)
  }

  /** A new query name counts the class of the read it ends; otherwise
      no class changes. */
  lemma AdvanceCounts(s: PieceState, queryName: Bytes, readId: Bytes, tid: Bytes, n: int, k: Bytes)
    requires EcOk(s.ec, s.ecIdx, n) && ReadOk(s.readId, s.tid, s.targetIds, n) && IsTid(tid, n)
    requires readId == (if s.readId.None? then queryName else s.readId.value)
    ensures Get(Advance(s, queryName, readId, tid, n).ec, k, 0)
         == Get(s.ec, k, 0) + if readId != queryName && k == EcKey(s.targetIds) then 1 else 0
  {
    if readId != queryName {
      FlushReadCounts(s.ec, s.ecIdx, s.targetIds, n, k);
    }
  }

  /** The work done for a mapped record whose reference is in the header
      and whose main target is accepted: its tid and read name are counted,
      its reference recorded, and the read bookkeeping advanced. */
  function MappedRecord(s: PieceState, a: Alignment, references: seq<Bytes>,
                        targetFile: Option<OMap<Bytes, int>>): (r: PieceState)
    requires Inv(s, references, targetFile)
    requires 0 <= a.referenceId < |references|
    requires targetFile.Some? ==> PrefixSuffix(references[a.referenceId]).0 in targetFile.value.vals
    ensures Inv(r, references, targetFile)
    ensures r.allAlignments == s.allAlignments && r.validAlignments == s.validAlignments
    ensures r.flushes == s.flushes && r.tid == Some(Decimal(a.referenceId))
    ensures Total(r.uniqueTids) == Total(s.uniqueTids) + 1
    ensures Total(r.uniqueReads) == Total(s.uniqueReads) + 1
  {
    var tid := Decimal(a.referenceId);
    DecimalIsTid(a.referenceId, |references|);
    BumpTotal(s.uniqueTids, tid, 1);
    var tables := RecordReference(s.tidToTarget, s.haplotypes, references, targetFile, a.referenceId);
    var readId := if s.readId.None? then a.queryName else s.readId.value;
    BumpTotal(s.uniqueReads, readId, 1);
    var s1 := s.(uniqueTids := Bump(s.uniqueTids, tid, 1), tidToTarget := tables.0,
                 haplotypes := tables.1, uniqueReads := Bump(s.uniqueReads, readId, 1));
    Advance(s1, a.queryName, readId, tid, |references|)
  }

  /** One pass of the inner `while True` loop of `process_piece`. */
  function Step(s: PieceState, a: Alignment, references: seq<Bytes>,
                targetFile: Option<OMap<Bytes, int>>): (o: StepOutcome)
    requires Inv(s, references, targetFile)
    ensures o.Next? || o.Abort? ==> Inv(o.state, references, targetFile)
    ensures o.Next? ==>
      && o.state.allAlignments == s.allAlignments + 1
      && o.state.validAlignments == s.validAlignments + (if a.unmapped then 0 else 1)
      && o.state.flushes == s.flushes
      && (Counted(s) ==> Counted(o.state))
    ensures o.Abort? ==> !a.unmapped && !(0 <= a.referenceId < |references|)
    ensures o.Exit? ==>
      && targetFile.Some? && !a.unmapped && 0 <= a.referenceId < |references|
      && o.target == PrefixSuffix(references[a.referenceId]).0
      && o.target !in targetFile.value.vals
  {
    var s1 := s.(allAlignments := s.allAlignments + 1);
    if a.unmapped then Next(s1)
    else
      var s2 := s1.(validAlignments := s1.validAlignments + 1);
      // `sam_file.getrname(alignment.tid)` raises for an id outside the header
      if !(0 <= a.referenceId < |references|) then Abort(s2)
      else
        var mainTarget := PrefixSuffix(references[a.referenceId]).0;
        // `unique_tids[tid] += 1` comes first, but the process then exits
        if targetFile.Some? && mainTarget !in targetFile.value.vals then Exit(mainTarget)
        else Next(MappedRecord(s2, a, references, targetFile))
  }

  /** The count made after each chunk's records run out: the read in
      progress is counted (once more, if the chunk added nothing to it).
      With no tid seen yet, `','.join` fails on `None`. */
  function EndChunk(s: PieceState, references: seq<Bytes>,
                    targetFile: Option<OMap<Bytes, int>>): (o: StepOutcome)
    requires Inv(s, references, targetFile)
    ensures !o.Exit?
    ensures o.Abort? <==> s.tid.None?
    ensures o.Abort? ==> o.state == s
    ensures o.Next? ==>
      && Inv(o.state, references, targetFile)
      && o.state.flushes == s.flushes + 1
      && o.state.allAlignments == s.allAlignments
      && o.state.validAlignments == s.validAlignments
      && (Counted(s) ==> Counted(o.state))
  {
    if s.tid.None? then Abort(s)
    else
      // `tid not in target_ids` is false here: the last tid seen is one
      // of the read's tids (ReadOk)
      var s1 := s.(sameReadTarget := s.sameReadTarget + 1);
      var counted := FlushRead(s1.ec, s1.ecIdx, s1.targetIds, |references|);
      var s2 := s1.(ec := counted.0, ecIdx := counted.1, flushes := s1.flushes + 1);
      CountedFrame(s, s2);
      Next(s2)
  }

  /** The end of a chunk counts the class of the read in progress and
      no other. */
  lemma EndChunkCounts(s: PieceState, references: seq<Bytes>,
                       targetFile: Option<OMap<Bytes, int>>, k: Bytes)
    requires Inv(s, references, targetFile)
    ensures var o := EndChunk(s, references, targetFile);
      o.Next? ==> Get(o.state.ec, k, 0) == Get(s.ec, k, 0) + if k == EcKey(s.targetIds) then 1 else 0
  {
    if s.tid.Some? {
      FlushReadCounts(s.ec, s.ecIdx, s.targetIds, |references|, k);
    }
  }

  /** Why `process_piece` stops the whole program (`sys.exit`). */
  datatype PieceError = EmptyTargetFile | UnexpectedTarget(target: Bytes)

  /** What `process_piece` returns. */
  datatype PieceResult = PieceResult(
    mainTargets: OMap<Bytes, int>,
    ec: OMap<Bytes, int>,
    ecIdx: map<Bytes, int>,
    haplotypes: seq<Bytes>,
    tidToTarget: map<Bytes, Bytes>,
    uniqueTids: OMap<Bytes, int>,
    uniqueReads: OMap<Bytes, int>)

  /** The counters `process_piece` only logs, and whether an exception cut
      the work short. */
  datatype PieceStats = PieceStats(
    allAlignments: nat,
    validAlignments: nat,
    readIdSwitches: nat,
    flushes: nat,
    aborted: bool)

  /** A mapped record whose reference id is not in the header. */
  predicate BadRecord(a: Alignment, references: seq<Bytes>)
  {
    !a.unmapped && !(0 <= a.referenceId < |references|)
  }

  /** A mapped record whose main target the target file does not list. */
  predicate UnexpectedRecord(a: Alignment, references: seq<Bytes>,
                             targetFile: Option<OMap<Bytes, int>>, target: Bytes)
  {
    && targetFile.Some? && !a.unmapped && 0 <= a.referenceId < |references|
    && PrefixSuffix(references[a.referenceId]).0 == target
    && target !in targetFile.value.vals
  }

  ghost predicate HasBadRecord(chunks: seq<seq<Alignment>>, references: seq<Bytes>)
  {
    exists c, i :: 0 <= c < |chunks| && 0 <= i < |chunks[c]| && BadRecord(chunks[c][i], references)
  }

  ghost predicate HasUnexpectedRecord(chunks: seq<seq<Alignment>>, references: seq<Bytes>,
                                      targetFile: Option<OMap<Bytes, int>>, target: Bytes)
  {
    exists c, i :: 0 <= c < |chunks| && 0 <= i < |chunks[c]| &&
      UnexpectedRecord(chunks[c][i], references, targetFile, target)
  }

  /** A record that ends its chunk: a bad record, or a mapped record of
      the header whose main target the target file does not list. */
  predicate Stops(a: Alignment, references: seq<Bytes>, targetFile: Option<OMap<Bytes, int>>)
  {
    || BadRecord(a, references)
    || (&& targetFile.Some? && !a.unmapped && 0 <= a.referenceId < |references|
        && PrefixSuffix(references[a.referenceId]).0 !in targetFile.value.vals)
  }

  /** The position of the first record that ends the chunk, or the number
      of records when none does. */
  function FirstStop(records: seq<Alignment>, references: seq<Bytes>,
                     targetFile: Option<OMap<Bytes, int>>): (k: nat)
    ensures k <= |records|
  {
    if |records| == 0 || Stops(records[0], references, targetFile) then 0
    else 1 + FirstStop(records[1..], references, targetFile)
  }

  /** No record before `FirstStop` ends the chunk, and the one at it does. */
  lemma {:induction false} FirstStopSpec(records: seq<Alignment>, references: seq<Bytes>,
                                         targetFile: Option<OMap<Bytes, int>>)
    ensures forall j :: 0 <= j < FirstStop(records, references, targetFile) ==>
      !Stops(records[j], references, targetFile)
    ensures FirstStop(records, references, targetFile) < |records| ==>
      Stops(records[FirstStop(records, references, targetFile)], references, targetFile)
  {
    if |records| > 0 && !Stops(records[0], references, targetFile) {
      FirstStopSpec(records[1..], references, targetFile);
      assert forall j :: 1 <= j < |records| ==> records[j] == records[1..][j - 1];
    }
  }

  /** Reading on from a record at or before the first stop: the record
      ends the chunk exactly when it is the first stop. */
  lemma FirstStopNext(records: seq<Alignment>, references: seq<Bytes>,
                      targetFile: Option<OMap<Bytes, int>>, i: int)
    requires 0 <= i < |records| && i <= FirstStop(records, references, targetFile)
    ensures Stops(records[i], references, targetFile) ==> FirstStop(records, references, targetFile) == i
    ensures !Stops(records[i], references, targetFile) ==> i < FirstStop(records, references, targetFile)
  {
    FirstStopSpec(records, references, targetFile);
  }

  /** The body of the record loop of `process_piece`: the record is
      counted, or it ends the chunk; a bad record always aborts, and a
      record with an unexpected main target exits. */
  method StepRecord(s: PieceState, a: Alignment, references: seq<Bytes>,
                    targetFile: Option<OMap<Bytes, int>>)
    returns (o: StepOutcome)
    requires Inv(s, references, targetFile) && Counted(s)
    ensures o.Next? || o.Abort? ==> Inv(o.state, references, targetFile)
    ensures o.Next? ==>
      && Counted(o.state)
      && o.state.flushes == s.flushes
      && o.state.allAlignments == s.allAlignments + 1
      && o.state.validAlignments == s.validAlignments + (if a.unmapped then 0 else 1)
    ensures o.Next? <==> !Stops(a, references, targetFile)
    ensures o.Abort? <==> BadRecord(a, references)
    ensures o.Exit? ==> UnexpectedRecord(a, references, targetFile, o.target)
  {
    o := Step(s, a, references, targetFile);
  }

  /** The record loop of one chunk: each record is fed to the accumulator
      until the records run out or the first record that ends the chunk:
      an abort when it is a bad record, an exit otherwise. */
  method ReadRecords(s: PieceState, records: seq<Alignment>, references: seq<Bytes>,
                     targetFile: Option<OMap<Bytes, int>>)
    returns (out: StepOutcome)
    requires Inv(s, references, targetFile) && Counted(s)
    ensures out.Next? || out.Abort? ==> Inv(out.state, references, targetFile)
    ensures out.Next? ==>
      && Counted(out.state)
      && out.state.flushes == s.flushes
      && out.state.allAlignments == s.allAlignments + |records|
      && out.state.validAlignments == s.validAlignments + CountMapped(records)
    ensures var k := FirstStop(records, references, targetFile);
      && (out.Next? <==> k == |records|)
      && (out.Abort? <==> k < |records| && BadRecord(records[k], references))
      && (out.Exit? ==> k < |records| && UnexpectedRecord(records[k], references, targetFile, out.target))
  {
    var state := s;
    var i := 0;
    while i < |records|
      invariant 0 <= i <= |records|
      invariant Inv(state, references, targetFile) && Counted(state)
      invariant state.flushes == s.flushes
      invariant state.allAlignments == s.allAlignments + i
      invariant state.validAlignments == s.validAlignments + CountMapped(records[..i])
      invariant i <= FirstStop(records, references, targetFile)
    {
      CountMappedSnoc(records, i);
      FirstStopNext(records, references, targetFile, i);
      out := StepRecord(state, records[i], references, targetFile);
      if !out.Next? {
        return;
      }
      state := out.state;
      i := i + 1;
    }
    assert records[..i] == records;
    out := Next(state);
  }

  /** One iteration of the `for file_info_data in mp.data` loop: the
      records of one chunk, then the count made when they run out. The
      first record that ends the chunk decides: a bad record aborts, any
      other exits; a chunk with no such record aborts only when no tid was
      seen yet. */
  method ProcessChunk(s: PieceState, records: seq<Alignment>, references: seq<Bytes>,
                      targetFile: Option<OMap<Bytes, int>>)
    returns (o: StepOutcome)
    requires Inv(s, references, targetFile) && Counted(s)
    ensures o.Next? || o.Abort? ==> Inv(o.state, references, targetFile)
    ensures o.Next? ==>
      && Counted(o.state)
      && o.state.flushes == s.flushes + 1
      && o.state.allAlignments == s.allAlignments + |records|
      && o.state.validAlignments == s.validAlignments + CountMapped(records)
    ensures var k := FirstStop(records, references, targetFile);
      && (k < |records| && BadRecord(records[k], references) ==> o.Abort?)
      && (k < |records| && !BadRecord(records[k], references) ==>
            o.Exit? && UnexpectedRecord(records[k], references, targetFile, o.target))
      && (k == |records| ==> !o.Exit? && (o.Abort? ==> o.state.validAlignments == 0))
  {
    var start := s.(readId := None);
    CountedFrame(s, start);
    var out := ReadRecords(start, records, references, targetFile);
    if out.Next? {
      o := EndChunk(out.state, references, targetFile);
    } else {
      o := out;
    }
  }

  /** No record of the chunk is a bad record. */
  ghost predicate NoBadRecord(records: seq<Alignment>, references: seq<Bytes>)
  {
    forall i :: 0 <= i < |records| ==> !BadRecord(records[i], references)
  }

  /** No record of the first `c` chunks is a bad record. */
  ghost predicate CleanChunks(chunks: seq<seq<Alignment>>, c: nat, references: seq<Bytes>)
    requires c <= |chunks|
  {
    c == 0 || (CleanChunks(chunks, c - 1, references) && NoBadRecord(chunks[c - 1], references))
  }

  /** Chunks without bad records hold no bad record. */
  lemma {:induction false} CleanChunksNoBad(chunks: seq<seq<Alignment>>, c: nat, references: seq<Bytes>)
    requires c <= |chunks| && CleanChunks(chunks, c, references)
    ensures forall k, i :: 0 <= k < c && 0 <= i < |chunks[k]| ==> !BadRecord(chunks[k][i], references)
  {
    if c > 0 {
      CleanChunksNoBad(chunks, c - 1, references);
    }
  }

  /** The state after the first `c` chunks were read without an exception
      or an exit: every chunk flushed, every record counted, no bad record. */
  ghost predicate Progress(s: PieceState, chunks: seq<seq<Alignment>>, c: nat, references: seq<Bytes>,
                           targetFile: Option<OMap<Bytes, int>>)
    requires c <= |chunks|
  {
    && Inv(s, references, targetFile) && Counted(s)
    && s.flushes == c
    && s.allAlignments == CountAll(chunks[..c])
    && s.validAlignments == CountMappedAll(chunks[..c])
    && CleanChunks(chunks, c, references)
  }

  /** After all chunks: every record was counted and none was bad. */
  lemma ProgressDone(s: PieceState, chunks: seq<seq<Alignment>>, references: seq<Bytes>,
                     targetFile: Option<OMap<Bytes, int>>)
    requires Progress(s, chunks, |chunks|, references, targetFile)
    ensures Inv(s, references, targetFile) && Counted(s)
    ensures s.flushes == |chunks|
    ensures s.allAlignments == CountAll(chunks) && s.validAlignments == CountMappedAll(chunks)
    ensures !HasBadRecord(chunks, references)
  {
    assert chunks[..|chunks|] == chunks;
    CleanChunksNoBad(chunks, |chunks|, references);
  }

  /** `ProcessChunk` on chunk `c`, with its outcome stated in terms of all
      the worker's chunks. */
  method ProcessChunkAt(s: PieceState, chunks: seq<seq<Alignment>>, c: nat, references: seq<Bytes>,
                        targetFile: Option<OMap<Bytes, int>>)
    returns (o: StepOutcome, ghost at: int)
    requires c < |chunks| && Progress(s, chunks, c, references, targetFile)
    ensures o.Next? || o.Abort? ==> Inv(o.state, references, targetFile)
    ensures o.Next? ==> Progress(o.state, chunks, c + 1, references, targetFile)
    ensures o.Abort? ==>
      o.state.validAlignments == 0 || (0 <= at < |chunks[c]| && BadRecord(chunks[c][at], references))
    ensures o.Exit? ==>
      0 <= at < |chunks[c]| && UnexpectedRecord(chunks[c][at], references, targetFile, o.target)
  {
    o := ProcessChunk(s, chunks[c], references, targetFile);
    CountAllSnoc(chunks, c);
    at := FirstStop(chunks[c], references, targetFile);
    if o.Next? {
      FirstStopSpec(chunks[c], references, targetFile);
      assert NoBadRecord(chunks[c], references);
    }
  }

  /** The `for file_info_data in mp.data` loop over all of the worker's
      chunks, from the initial state. It stops at the first exception (the
      state so far is kept) or `sys.exit` (`exit` names the target). */
  method RunChunks(references: seq<Bytes>, targetFile: Option<OMap<Bytes, int>>,
                   chunks: seq<seq<Alignment>>)
    returns (s: PieceState, aborted: bool, exit: Option<Bytes>, ghost wc: int, ghost wi: int)
    ensures exit.Some? ==>
      && 0 <= wc < |chunks| && 0 <= wi < |chunks[wc]|
      && UnexpectedRecord(chunks[wc][wi], references, targetFile, exit.value)
    ensures exit.None? ==> Inv(s, references, targetFile)
    ensures exit.None? && !aborted ==> Progress(s, chunks, |chunks|, references, targetFile)
    ensures exit.None? && aborted && s.validAlignments != 0 ==>
      0 <= wc < |chunks| && 0 <= wi < |chunks[wc]| && BadRecord(chunks[wc][wi], references)
  {
    s, aborted, exit, wc, wi := Initial(), false, None, 0, 0;
    var c := 0;
    while c < |chunks|
      invariant c <= |chunks| && Progress(s, chunks, c, references, targetFile)
    {
      var o, at := ProcessChunkAt(s, chunks, c, references, targetFile);
      if o.Exit? {
        return s, false, Some(o.target), c, at;
      }
      if o.Abort? {
        return o.state, true, None, c, at;
      }
      s := o.state;
      c := c + 1;
    }
  }

  /** `process_piece` over the records of the worker's chunks, given the
      header's reference names and, when a target file was given, the
      targets parsed from it. */
  method ProcessPiece(references: seq<Bytes>, targetFile: Option<OMap<Bytes, int>>,
                      chunks: seq<seq<Alignment>>)
    returns (r: Result<PieceResult, PieceError>, stats: PieceStats)
    ensures r == Failure(EmptyTargetFile) <==> targetFile.Some? && |targetFile.value.vals| == 0
    ensures r.Failure? && r.error.UnexpectedTarget? ==>
      HasUnexpectedRecord(chunks, references, targetFile, r.error.target)
    ensures r.Success? ==>
      var p := r.value;
      && (targetFile.Some? ==> p.mainTargets == targetFile.value)
      && (targetFile.None? ==> p.mainTargets.keys == SortedSet(PrefixesOf(references))
                               && IndexesKeys(p.mainTargets.vals, p.mainTargets.keys))
      && EcOk(p.ec, p.ecIdx, |references|)
      && Total(p.ec) == stats.readIdSwitches + stats.flushes
      && StrictlySorted(p.haplotypes)
      && (forall h :: h in p.haplotypes ==> exists t :: 0 <= t < |references| && h == PrefixSuffix(references[t]).1)
      && TargetsOk(p.tidToTarget, references, targetFile)
      && stats.validAlignments <= stats.allAlignments
      && (!stats.aborted ==>
            && stats.flushes == |chunks|
            && stats.allAlignments == CountAll(chunks)
            && stats.validAlignments == CountMappedAll(chunks)
            && p.uniqueTids.Valid() && p.uniqueReads.Valid()
            && Total(p.uniqueTids) == stats.validAlignments
            && Total(p.uniqueReads) == stats.validAlignments
            && !HasBadRecord(chunks, references))
      && (stats.aborted ==> stats.validAlignments == 0 || HasBadRecord(chunks, references))
  {
    var mainTargets: OMap<Bytes, int>;
    if targetFile.Some? {
      if |targetFile.value.vals| == 0 {
        return Failure(EmptyTargetFile), PieceStats(0, 0, 0, 0, false);
      }
      mainTargets := targetFile.value;
    } else {
      mainTargets := BuildMainTargets(references);
    }
    var s, aborted, exit, wc, wi := RunChunks(references, targetFile, chunks);
    if exit.Some? {
      assert UnexpectedRecord(chunks[wc][wi], references, targetFile, exit.value);
      return Failure(UnexpectedTarget(exit.value)), PieceStats(0, 0, 0, 0, false);
    }
    SortedSetSpec(s.haplotypes);
    if !aborted {
      ProgressDone(s, chunks, references, targetFile);
    } else if s.validAlignments != 0 {
      assert BadRecord(chunks[wc][wi], references);
    }
    stats := PieceStats(s.allAlignments, s.validAlignments, s.readIdSwitches, s.flushes, aborted);
    r := Success(PieceResult(mainTargets, s.ec, s.ecIdx, SortedSet(s.haplotypes), s.tidToTarget,
                             s.uniqueTids, s.uniqueReads));
  }
}

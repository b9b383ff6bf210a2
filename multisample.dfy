/** The multisample equivalence-class accumulator (`process_convert_bam`).
    One worker reads the records of one BAM file. Every read name carries
    the cell barcode (CR) of its read as the third `|||`-separated field.
    Consecutive valid records with the same read name form a read; when the
    name changes, the class of the read that ended (its distinct target
    ids, sorted and joined with `,`) gains one count under the read's cell
    barcode. The read in progress when the records run out is not
    counted. */
module MultiSample {
  import opened Wrappers
  import opened ByteStrings
  import opened OrderedMaps
  import opened Alignments
  import opened Bgzf

  /** The value `ranges.get(tid, ...)` starts from: no start seen yet. */
  const NO_RANGE: (int, int) := (100000000000, -1)

  /** Cell barcode -> count. */
  type CellCounts = OMap<Bytes, int>

  /** Equivalence-class key -> its counts per cell barcode (`ec[key][CR]`). */
  type Classes = OMap<Bytes, CellCounts>

  // ---------------------------------------------------------------------
  // Per-cell class counts

  /** The class table and every one of its rows are well-formed ordered
      maps. */
  ghost predicate ClassesOk(ec: Classes)
  {
    ec.Valid() && forall k :: k in ec.vals ==> ec.vals[k].Valid()
  }

  /** `ec.get(key, {}).get(cell, 0)`. */
  function Cell(ec: Classes, key: Bytes, cell: Bytes): int
  {
    Get(Get(ec, key, Empty()), cell, 0)
  }

  /** The count of every class summed over its cells, in class order. */
  ghost function RowTotals(ec: Classes): (r: OMap<Bytes, int>)
    requires ClassesOk(ec)
    ensures r.keys == ec.keys
  {
    OMap(ec.keys, map k | k in ec.vals :: Total(ec.vals[k]))
  }

  lemma RowTotalsValid(ec: Classes)
    requires ClassesOk(ec)
    ensures RowTotals(ec).Valid()
  {
  }

  /** The sum of all counts of all classes. */
  ghost function GrandTotal(ec: Classes): int
    requires ClassesOk(ec)
  {
    RowTotalsValid(ec);
    Total(RowTotals(ec))
  }

  /** `ec[key][cell] += delta`, creating the class or the cell when absent
      (a `defaultdict(lambda: defaultdict(int))`). */
  function AddCell(ec: Classes, key: Bytes, cell: Bytes, delta: int): (r: Classes)
    ensures ClassesOk(ec) ==> ClassesOk(r)
  {
    Put(ec, key, Bump(Get(ec, key, Empty()), cell, delta))
  }

  /** Replacing one row replaces its row total. */
  lemma RowTotalsPut(ec: Classes, key: Bytes, row: CellCounts)
    requires ClassesOk(ec) && row.Valid()
    ensures RowTotals(Put(ec, key, row)) == Put(RowTotals(ec), key, Total(row))
  {
    var ec' := Put(ec, key, row);
    var totals := RowTotals(ec);
    var lhs := RowTotals(ec');
    var rhs := Put(totals, key, Total(row));
    RowTotalsPutKeys(ec, key, row);
    RowTotalsPutVals(ec, key, row);
    assert lhs == OMap(lhs.keys, lhs.vals);
    assert rhs == OMap(rhs.keys, rhs.vals);
  }

  lemma RowTotalsPutKeys(ec: Classes, key: Bytes, row: CellCounts)
    requires ClassesOk(ec) && row.Valid()
    ensures RowTotals(Put(ec, key, row)).keys == Put(RowTotals(ec), key, Total(row)).keys
  {
    assert RowTotals(ec).vals.Keys == ec.vals.Keys;
  }

  lemma RowTotalsPutVals(ec: Classes, key: Bytes, row: CellCounts)
    requires ClassesOk(ec) && row.Valid()
    ensures RowTotals(Put(ec, key, row)).vals == RowTotals(ec).vals[key := Total(row)]
  {
    var ec' := Put(ec, key, row);
    forall k | k in ec'.vals
      ensures RowTotals(ec').vals[k] == RowTotals(ec).vals[key := Total(row)][k]
    {
      if k != key {
        assert ec'.vals[k] == ec.vals[k];
      }
    }
  }

  /** Adding to one cell adds to its class's row total and to the grand
      total. */
  lemma AddCellTotals(ec: Classes, key: Bytes, cell: Bytes, delta: int)
    requires ClassesOk(ec)
    ensures RowTotals(AddCell(ec, key, cell, delta)) == Bump(RowTotals(ec), key, delta)
    ensures GrandTotal(AddCell(ec, key, cell, delta)) == GrandTotal(ec) + delta
  {
    var row := Get(ec, key, Empty());
    var totals := RowTotals(ec);
    var row' := Bump(row, cell, delta);
    RowTotalOfBump(ec, key, cell, delta);
    assert AddCell(ec, key, cell, delta) == Put(ec, key, row');
    RowTotalsPut(ec, key, row');
    BumpIsPut(totals, key, delta, Total(row'));
    RowTotalsValid(ec);
    BumpTotal(totals, key, delta);
  }

  /** The new row's total is the old row total plus `delta`. */
  lemma RowTotalOfBump(ec: Classes, key: Bytes, cell: Bytes, delta: int)
    requires ClassesOk(ec)
    ensures Get(RowTotals(ec), key, 0) + delta == Total(Bump(Get(ec, key, Empty()), cell, delta))
  {
    var row := Get(ec, key, Empty());
    BumpTotal(row, cell, delta);
    if key !in ec.vals {
      assert key !in RowTotals(ec).vals;
    }
  }

  /** Adding to one cell adds to that cell and to no other. */
  lemma AddCellCells(ec: Classes, key: Bytes, cell: Bytes, delta: int)
    requires ClassesOk(ec)
    ensures Cell(AddCell(ec, key, cell, delta), key, cell) == Cell(ec, key, cell) + delta
    ensures forall k, c :: (k, c) != (key, cell) ==>
      Cell(AddCell(ec, key, cell, delta), k, c) == Cell(ec, k, c)
  {
    AddCellSame(ec, key, cell, delta);
    forall k, c | (k, c) != (key, cell)
      ensures Cell(AddCell(ec, key, cell, delta), k, c) == Cell(ec, k, c)
    {
      AddCellOther(ec, key, cell, delta, k, c);
    }
  }

  lemma AddCellSame(ec: Classes, key: Bytes, cell: Bytes, delta: int)
    ensures Cell(AddCell(ec, key, cell, delta), key, cell) == Cell(ec, key, cell) + delta
  {
    var row := Get(ec, key, Empty());
    var r := AddCell(ec, key, cell, delta);
    assert r.vals == ec.vals[key := Bump(row, cell, delta)];
    BumpGet(row, cell, delta, cell);
  }

  lemma AddCellOther(ec: Classes, key: Bytes, cell: Bytes, delta: int, k: Bytes, c: Bytes)
    requires (k, c) != (key, cell)
    ensures Cell(AddCell(ec, key, cell, delta), k, c) == Cell(ec, k, c)
  {
    var row := Get(ec, key, Empty());
    var r := AddCell(ec, key, cell, delta);
    assert r.vals == ec.vals[key := Bump(row, cell, delta)];
    if k == key {
      BumpGet(row, cell, delta, c);
    } else {
      assert Get(r, k, Empty()) == Get(ec, k, Empty());
    }
  }

  // ---------------------------------------------------------------------
  // Reading one record

  /** The records the accumulator counts: mapped and, for paired reads,
      the first read of a proper pair whose mate lies on the same
      reference at a non-negative position. */
  predicate Kept(a: Alignment)
  {
    && !a.unmapped
    && !(a.paired && (a.read2 || !a.properPair || a.referenceId != a.nextReferenceId
                      || a.nextReferenceStart < 0))
  }

  /** The number of kept records. */
  function CountKept(records: seq<Alignment>): nat
  {
    if |records| == 0 then 0
    else CountKept(records[..|records| - 1]) + (if Kept(records[|records| - 1]) then 1 else 0)
  }

  /** A read name cut at its first space, when that space is not the first
      byte. */
  function ReadName(name: Bytes): (r: Bytes)
    ensures r <= name
    ensures r != name ==> |r| > 0 && name[|r|] == SPACE && SPACE !in r
  {
    var i := Find(name, SPACE);
    if i > 0 then name[..i] else name
  }

  /** Cutting a read name twice is cutting it once. */
  lemma ReadNameIdempotent(name: Bytes)
    ensures ReadName(ReadName(name)) == ReadName(name)
  {
    var r := ReadName(name);
    if r != name {
      assert Find(r, SPACE) == -1;
    }
  }

  /** `name.split('|||')[2]`, the cell barcode field of a read name, or
      `None` when the name has fewer than three fields (an `IndexError`). */
  function CellBarcode(name: Bytes): Option<Bytes>
  {
    var fields := Split(name, TAG_SEPARATOR);
    if |fields| < 3 then None else Some(fields[2])
  }

  /** A name built from fields that contain no `|` yields its third field,
      and fails exactly when there are fewer than three. */
  lemma CellBarcodeOfFields(fields: seq<Bytes>)
    requires |fields| >= 1
    requires forall k :: 0 <= k < |fields| ==> BAR !in fields[k]
    ensures CellBarcode(Join(fields, TAG_SEPARATOR)) ==
      (if |fields| >= 3 then Some(fields[2]) else None)
  {
    SplitJoinSep(fields, TAG_SEPARATOR);
  }

  /** `(min(lo, start), max(hi, start))`: the smallest range holding both
      the old range's ends and `start`. */
  function Widen(range: (int, int), start: int): (r: (int, int))
    ensures r.0 <= start <= r.1
    ensures r.0 <= range.0 && range.1 <= r.1
    ensures (r.0 == range.0 || r.0 == start) && (r.1 == range.1 || r.1 == start)
  {
    (if start < range.0 then start else range.0, if start > range.1 then start else range.1)
  }

  /** `ranges.get(tid, (100000000000, -1))`. */
  function RangeOf(ranges: map<Bytes, (int, int)>, tid: Bytes): (int, int)
  {
    if tid in ranges then ranges[tid] else NO_RANGE
  }

  // ---------------------------------------------------------------------
  // The accumulator

  /** The local variables of `process_convert_bam` that survive from one
      record to the next. */
  datatype ConvertState = ConvertState(
    ec: Classes,
    uniqueReads: OMap<Bytes, int>,
    ranges: map<Bytes, (int, int)>,
    readIdSwitches: nat,
    sameReadTarget: nat,
    allAlignments: nat,
    validAlignments: nat,
    queryName: Option<Bytes>,
    referenceIds: seq<Bytes>)

  function Initial(): ConvertState
  {
    ConvertState(Empty(), Empty(), map[], 0, 0, 0, 0, None, [])
  }

  /** Every recorded range has its low end at or below its high end. */
  ghost predicate RangesOk(ranges: map<Bytes, (int, int)>)
  {
    forall k :: k in ranges ==> ranges[k].0 <= ranges[k].1
  }

  /** What holds of the accumulator after every record. */
  ghost predicate Inv(s: ConvertState)
  {
    && ClassesOk(s.ec) && s.uniqueReads.Valid()
    && GrandTotal(s.ec) == s.readIdSwitches
    && Total(s.uniqueReads) == s.validAlignments
    && s.validAlignments <= s.allAlignments
    && NoDuplicates(s.referenceIds)
    && (s.queryName.Some? <==> s.referenceIds != [])
    && (s.queryName.None? <==> s.validAlignments == 0)
    && RangesOk(s.ranges)
  }

  /** The read name a kept record is compared with: the read in progress,
      or the record's own (cut) name for the first kept record. */
  function CurrentName(s: ConvertState, a: Alignment): Bytes
  {
    if s.queryName.None? then ReadName(a.queryName) else s.queryName.value
  }

  /** The read-name bookkeeping of a kept record with target id `tid`: a
      different name ends the read in progress, counts its class under the
      cell barcode `cell` and starts a read with just this id (remembering
      the record's name uncut); the same name adds the id to the read
      unless it is there already. */
  function Advance(s: ConvertState, a: Alignment, name: Bytes, tid: Bytes, cell: Bytes): (r: ConvertState)
    requires ClassesOk(s.ec) && NoDuplicates(s.referenceIds)
    ensures ClassesOk(r.ec) && NoDuplicates(r.referenceIds) && r.referenceIds != []
    ensures name != ReadName(a.queryName) ==>
      && r.queryName == Some(a.queryName)
      && r.referenceIds == [tid]
      && r.readIdSwitches == s.readIdSwitches + 1
      && GrandTotal(r.ec) == GrandTotal(s.ec) + 1
      && Cell(r.ec, EcKey(s.referenceIds), cell) == Cell(s.ec, EcKey(s.referenceIds), cell) + 1
    ensures name == ReadName(a.queryName) ==>
      && r.queryName == Some(name)
      && r.referenceIds == (if tid in s.referenceIds then s.referenceIds else s.referenceIds + [tid])
      && r.readIdSwitches == s.readIdSwitches
      && r.ec == s.ec
    ensures r.uniqueReads == s.uniqueReads && r.ranges == s.ranges
    ensures r.allAlignments == s.allAlignments && r.validAlignments == s.validAlignments
  {
    if name != ReadName(a.queryName) then
      AddCellTotals(s.ec, EcKey(s.referenceIds), cell, 1);
      AddCellCells(s.ec, EcKey(s.referenceIds), cell, 1);
      s.(ec := AddCell(s.ec, EcKey(s.referenceIds), cell, 1), queryName := Some(a.queryName),
         referenceIds := [tid], readIdSwitches := s.readIdSwitches + 1)
    else if tid !in s.referenceIds then
      NoDuplicatesSnoc(s.referenceIds, tid);
      s.(queryName := Some(name), referenceIds := s.referenceIds + [tid])
    else
      s.(queryName := Some(name), sameReadTarget := s.sameReadTarget + 1)
  }

  /** Why `process_convert_bam` fails: the file is refused by
      `validate_bam`, or a kept record's read name has no cell barcode
      field. */
  datatype ConvertError = BadBam(error: BamError) | MissingCellBarcode(name: Bytes)

  /** The counting done for every kept record before its cell barcode is
      read: `all_alignments` and `valid_alignments` go up, the range of its
      target id is widened when ranges are tracked, and its read name is
      counted in `unique_reads`. */
  function CountRecord(s: ConvertState, a: Alignment, trackRanges: bool): (r: ConvertState)
    requires Inv(s)
    ensures ClassesOk(r.ec) && r.uniqueReads.Valid() && NoDuplicates(r.referenceIds)
    ensures GrandTotal(r.ec) == r.readIdSwitches
    ensures Total(r.uniqueReads) == r.validAlignments
    ensures 1 <= r.validAlignments <= r.allAlignments
    ensures RangesOk(r.ranges)
    ensures r.allAlignments == s.allAlignments + 1 && r.validAlignments == s.validAlignments + 1
    ensures r.ec == s.ec && r.referenceIds == s.referenceIds && r.queryName == s.queryName
    ensures r.readIdSwitches == s.readIdSwitches
    ensures trackRanges ==>
      r.ranges == s.ranges[Decimal(a.referenceId) := Widen(RangeOf(s.ranges, Decimal(a.referenceId)), a.referenceStart)]
    ensures !trackRanges ==> r.ranges == s.ranges
  {
    var tid := Decimal(a.referenceId);
    var ranges := if trackRanges then s.ranges[tid := Widen(RangeOf(s.ranges, tid), a.referenceStart)]
                  else s.ranges;
    var name := CurrentName(s, a);
    BumpTotal(s.uniqueReads, name, 1);
    s.(allAlignments := s.allAlignments + 1, validAlignments := s.validAlignments + 1,
       ranges := ranges, uniqueReads := Bump(s.uniqueReads, name, 1))
  }

  /** The work done for a kept record: it is counted, its cell barcode is
      read, and the read bookkeeping advanced. */
  function KeptStep(s: ConvertState, a: Alignment, trackRanges: bool): (r: Result<ConvertState, ConvertError>)
    requires Inv(s) && Kept(a)
    ensures r.Failure? <==> CellBarcode(CurrentName(s, a)).None?
    ensures r.Failure? ==> r.error == MissingCellBarcode(CurrentName(s, a))
    ensures r.Success? ==>
      && Inv(r.value)
      && r.value.allAlignments == s.allAlignments + 1
      && r.value.validAlignments == s.validAlignments + 1
      && Decimal(a.referenceId) in r.value.referenceIds
      && r.value.ranges == CountRecord(s, a, trackRanges).ranges
  {
    var name := CurrentName(s, a);
    var cell := CellBarcode(name);
    if cell.None? then Failure(MissingCellBarcode(name))
    else
      var s2 := CountRecord(s, a, trackRanges);
      AdvanceInv(s2, a, name, Decimal(a.referenceId), cell.value);
      Success(Advance(s2, a, name, Decimal(a.referenceId), cell.value))
  }

  /** Advancing a counted state keeps the invariant. */
  lemma AdvanceInv(s: ConvertState, a: Alignment, name: Bytes, tid: Bytes, cell: Bytes)
    requires ClassesOk(s.ec) && s.uniqueReads.Valid() && NoDuplicates(s.referenceIds)
    requires GrandTotal(s.ec) == s.readIdSwitches
    requires Total(s.uniqueReads) == s.validAlignments
    requires 1 <= s.validAlignments <= s.allAlignments
    requires RangesOk(s.ranges)
    ensures Inv(Advance(s, a, name, tid, cell))
  {
    var r := Advance(s, a, name, tid, cell);
    assert GrandTotal(r.ec) == r.readIdSwitches;
    assert Total(r.uniqueReads) == r.validAlignments;
  }

  /** One pass of the `while True` loop of `process_convert_bam`. */
  function Step(s: ConvertState, a: Alignment, trackRanges: bool): (r: Result<ConvertState, ConvertError>)
    requires Inv(s)
    ensures r.Failure? <==> Kept(a) && CellBarcode(CurrentName(s, a)).None?
    ensures r.Failure? ==> r.error == MissingCellBarcode(CurrentName(s, a))
    ensures !Kept(a) ==> r == Success(s.(allAlignments := s.allAlignments + 1))
    ensures r.Success? ==>
      && Inv(r.value)
      && r.value.allAlignments == s.allAlignments + 1
      && r.value.validAlignments == s.validAlignments + (if Kept(a) then 1 else 0)
    ensures r.Success? && Kept(a) ==>
      && Decimal(a.referenceId) in r.value.referenceIds
      && (trackRanges ==>
            r.value.ranges == s.ranges[Decimal(a.referenceId) := Widen(RangeOf(s.ranges, Decimal(a.referenceId)), a.referenceStart)])
      && (!trackRanges ==> r.value.ranges == s.ranges)
  {
    if !Kept(a) then Success(s.(allAlignments := s.allAlignments + 1))
    else KeptStep(s, a, trackRanges)
  }

  /** The accumulator after the given records, or the first failure. */
  function Run(records: seq<Alignment>, trackRanges: bool): (r: Result<ConvertState, ConvertError>)
    ensures r.Failure? ==> r.error.MissingCellBarcode?
    ensures r.Success? ==>
      && Inv(r.value)
      && r.value.allAlignments == |records|
      && r.value.validAlignments == CountKept(records)
  {
    if |records| == 0 then Success(Initial())
    else
      var prev :- Run(records[..|records| - 1], trackRanges);
      Step(prev, records[|records| - 1], trackRanges)
  }

  /** One more record is one more `Step` of a run that has not failed. */
  lemma RunNext(records: seq<Alignment>, i: int, trackRanges: bool)
    requires 0 <= i < |records|
    requires Run(records[..i], trackRanges).Success?
    ensures Run(records[..i + 1], trackRanges) == Step(Run(records[..i], trackRanges).value, records[i], trackRanges)
  {
    var longer := records[..i + 1];
    assert longer[..|longer| - 1] == records[..i];
    assert longer[|longer| - 1] == records[i];
  }

  /** Once the accumulator fails, later records change nothing. */
  lemma {:induction false} RunStops(records: seq<Alignment>, i: int, trackRanges: bool)
    requires 0 <= i <= |records|
    requires Run(records[..i], trackRanges).Failure?
    ensures Run(records, trackRanges) == Run(records[..i], trackRanges)
    decreases |records| - i
  {
    if i < |records| {
      assert records[..i + 1][..i] == records[..i];
      RunStops(records, i + 1, trackRanges);
    } else {
      assert records[..i] == records;
    }
  }

  /** Whether kept record `a` changes the read name held before it. */
  predicate Changes(held: Option<Bytes>, a: Alignment)
  {
    Kept(a) && held.Some? && held.value != ReadName(a.queryName)
  }

  /** The read name held after record `a`: the first kept record's cut
      name, the uncut name of a kept record that changes it, and otherwise
      the name held before. */
  function NextHeld(held: Option<Bytes>, a: Alignment): Option<Bytes>
  {
    if !Kept(a) then held
    else if held.None? then Some(ReadName(a.queryName))
    else if Changes(held, a) then Some(a.queryName)
    else held
  }

  /** The read name held after the given records, on its own. */
  function HeldName(records: seq<Alignment>): Option<Bytes>
  {
    if |records| == 0 then None
    else NextHeld(HeldName(records[..|records| - 1]), records[|records| - 1])
  }

  /** The number of kept records that change the read name held before
      them. */
  function Switches(records: seq<Alignment>): nat
  {
    if |records| == 0 then 0
    else
      Switches(records[..|records| - 1]) +
        (if Changes(HeldName(records[..|records| - 1]), records[|records| - 1]) then 1 else 0)
  }

  /** One step holds `NextHeld` and counts a change. */
  lemma StepSwitches(s: ConvertState, a: Alignment, trackRanges: bool)
    requires Inv(s) && Step(s, a, trackRanges).Success?
    ensures Step(s, a, trackRanges).value.queryName == NextHeld(s.queryName, a)
    ensures Step(s, a, trackRanges).value.readIdSwitches == s.readIdSwitches + if Changes(s.queryName, a) then 1 else 0
  {
    if Kept(a) {
      var s2 := CountRecord(s, a, trackRanges);
      var name := CurrentName(s, a);
      assert Step(s, a, trackRanges).value == Advance(s2, a, name, Decimal(a.referenceId), CellBarcode(name).value);
    }
  }

  /** The accumulator holds `HeldName` and counts `Switches`. */
  lemma {:induction false} RunSwitches(records: seq<Alignment>, trackRanges: bool)
    requires Run(records, trackRanges).Success?
    ensures Run(records, trackRanges).value.queryName == HeldName(records)
    ensures Run(records, trackRanges).value.readIdSwitches == Switches(records)
    decreases |records|
  {
    if |records| > 0 {
      var init := records[..|records| - 1];
      var prev := Run(init, trackRanges);
      assert prev.Success? && Run(records, trackRanges) == Step(prev.value, records[|records| - 1], trackRanges);
      RunSwitches(init, trackRanges);
      StepSwitches(prev.value, records[|records| - 1], trackRanges);
    }
  }

  /** A name is held exactly once a record was kept, and there are fewer
      read-name changes than kept records: the read in progress at the end
      is never counted. */
  lemma {:induction false} SwitchesBound(records: seq<Alignment>)
    ensures HeldName(records).Some? <==> CountKept(records) > 0
    ensures Switches(records) + (if CountKept(records) > 0 then 1 else 0) <= CountKept(records)
    decreases |records|
  {
    if |records| > 0 {
      SwitchesBound(records[..|records| - 1]);
    }
  }

  /** A kept record's start lies in the range recorded for its target id. */
  ghost predicate RangesCover(records: seq<Alignment>, ranges: map<Bytes, (int, int)>)
  {
    forall i :: 0 <= i < |records| && Kept(records[i]) ==>
      Decimal(records[i].referenceId) in ranges &&
      ranges[Decimal(records[i].referenceId)].0 <= records[i].referenceStart <= ranges[Decimal(records[i].referenceId)].1
  }

  /** Some kept record starts at `start` on target id `tid`. */
  ghost predicate StartSeen(records: seq<Alignment>, tid: Bytes, start: int)
  {
    exists i :: 0 <= i < |records| && Kept(records[i]) &&
      Decimal(records[i].referenceId) == tid && records[i].referenceStart == start
  }

  /** Every recorded range belongs to a target id of a kept record, and
      each end is a start of such a record unless it is still the
      sentinel's. */
  ghost predicate RangesTight(records: seq<Alignment>, ranges: map<Bytes, (int, int)>)
  {
    forall k :: k in ranges ==>
      && (ranges[k].0 == NO_RANGE.0 || StartSeen(records, k, ranges[k].0))
      && (ranges[k].1 == NO_RANGE.1 || StartSeen(records, k, ranges[k].1))
      && exists i :: 0 <= i < |records| && Kept(records[i]) && Decimal(records[i].referenceId) == k
  }

  /** The ranges recorded after the given records, on their own. */
  function RangesAfter(records: seq<Alignment>, trackRanges: bool): map<Bytes, (int, int)>
  {
    if |records| == 0 then map[]
    else
      var prev := RangesAfter(records[..|records| - 1], trackRanges);
      var a := records[|records| - 1];
      if trackRanges && Kept(a) then
        prev[Decimal(a.referenceId) := Widen(RangeOf(prev, Decimal(a.referenceId)), a.referenceStart)]
      else prev
  }

  /** The accumulator's ranges are those of `RangesAfter`. */
  lemma {:induction false} RunRangesAfter(records: seq<Alignment>, trackRanges: bool)
    requires Run(records, trackRanges).Success?
    ensures Run(records, trackRanges).value.ranges == RangesAfter(records, trackRanges)
    decreases |records|
  {
    if |records| > 0 {
      RunRangesAfter(records[..|records| - 1], trackRanges);
    }
  }

  /** Tracking ranges, every kept record's start lies in its target id's
      range; without tracking nothing is recorded. */
  lemma {:induction false} RangesAfterCover(records: seq<Alignment>, trackRanges: bool)
    ensures trackRanges ==> RangesCover(records, RangesAfter(records, trackRanges))
    ensures !trackRanges ==> RangesAfter(records, trackRanges) == map[]
    decreases |records|
  {
    if |records| > 0 {
      var n := |records| - 1;
      var init := records[..n];
      RangesAfterCover(init, trackRanges);
      var ranges := RangesAfter(records, trackRanges);
      if trackRanges {
        forall i | 0 <= i < n && Kept(records[i])
          ensures Decimal(records[i].referenceId) in ranges
          ensures ranges[Decimal(records[i].referenceId)].0 <= records[i].referenceStart <= ranges[Decimal(records[i].referenceId)].1
        {
          assert init[i] == records[i];
        }
      }
    }
  }

  /** Tracking ranges, each recorded range belongs to a target id of a kept
      record and each of its ends is a start of such a record, unless it is
      still the sentinel's. */
  lemma {:induction false} RangesAfterTight(records: seq<Alignment>, trackRanges: bool)
    ensures RangesTight(records, RangesAfter(records, trackRanges))
    decreases |records|
  {
    if |records| > 0 {
      var n := |records| - 1;
      var init := records[..n];
      var a := records[n];
      RangesAfterTight(init, trackRanges);
      var ranges := RangesAfter(records, trackRanges);
      forall k | k in ranges
        ensures ranges[k].0 == NO_RANGE.0 || StartSeen(records, k, ranges[k].0)
        ensures ranges[k].1 == NO_RANGE.1 || StartSeen(records, k, ranges[k].1)
        ensures exists i :: 0 <= i < |records| && Kept(records[i]) && Decimal(records[i].referenceId) == k
      {
        SeenGrows(init, records, k);
      }
    }
  }

  /** Tracking ranges records, for each target id, the smallest and the
      largest start of its kept records; without tracking nothing is
      recorded. */
  lemma RunRanges(records: seq<Alignment>, trackRanges: bool)
    requires Run(records, trackRanges).Success?
    ensures trackRanges ==>
      RangesCover(records, Run(records, trackRanges).value.ranges) &&
      RangesTight(records, Run(records, trackRanges).value.ranges)
    ensures !trackRanges ==> Run(records, trackRanges).value.ranges == map[]
  {
    RunRangesAfter(records, trackRanges);
    RangesAfterCover(records, trackRanges);
    RangesAfterTight(records, trackRanges);
  }

  /** What was seen among a prefix of the records was seen among them all. */
  lemma SeenGrows(init: seq<Alignment>, records: seq<Alignment>, k: Bytes)
    requires init <= records
    ensures forall start :: StartSeen(init, k, start) ==> StartSeen(records, k, start)
    ensures (exists i :: 0 <= i < |init| && Kept(init[i]) && Decimal(init[i].referenceId) == k) ==>
            (exists i :: 0 <= i < |records| && Kept(records[i]) && Decimal(records[i].referenceId) == k)
  {
    forall start | StartSeen(init, k, start) ensures StartSeen(records, k, start) {
      var i :| 0 <= i < |init| && Kept(init[i]) && Decimal(init[i].referenceId) == k && init[i].referenceStart == start;
      assert records[i] == init[i];
    }
    if exists i :: 0 <= i < |init| && Kept(init[i]) && Decimal(init[i].referenceId) == k {
      var i :| 0 <= i < |init| && Kept(init[i]) && Decimal(init[i].referenceId) == k;
      assert records[i] == init[i];
    }
  }

  /** What `process_convert_bam` returns. */
  datatype ConvertResults = ConvertResults(
    validAlignments: nat,
    allAlignments: nat,
    ec: Classes,
    uniqueReads: OMap<Bytes, int>,
    tidRanges: map<Bytes, (int, int)>)

  /** `process_convert_bam` on a file with the given content and records:
      `validate_bam` first, then the accumulator over every record. */
  function Convert(file: Option<Bytes>, records: seq<Alignment>, trackRanges: bool)
    : Result<ConvertResults, ConvertError>
  {
    match ValidateBam(file)
    case Failure(e) => Failure(BadBam(e))
    case Success(_) =>
      var s :- Run(records, trackRanges);
      Success(ConvertResults(s.validAlignments, s.allAlignments, s.ec, s.uniqueReads, s.ranges))
  }

  /** The `while True` loop of `process_convert_bam`: every record in
      turn, stopping at the first error. */
  method RunLoop(records: seq<Alignment>, trackRanges: bool) returns (r: Result<ConvertState, ConvertError>)
    ensures r == Run(records, trackRanges)
  {
    r := Success(Initial());
    var i := 0;
    while i < |records| && r.Success?
      invariant 0 <= i <= |records|
      invariant r == Run(records[..i], trackRanges)
    {
      RunNext(records, i, trackRanges);
      r := Step(r.value, records[i], trackRanges);
      i := i + 1;
    }
    if r.Failure? {
      RunStops(records, i, trackRanges);
    } else {
      assert records[..i] == records;
    }
  }

  /** `process_convert_bam`: `validate_bam`, then the loop over the file's
      records. The counts of the classes add up to the number of read-name
      changes; the read in progress at the end is not counted. */
  method ProcessConvertBam(file: Option<Bytes>, records: seq<Alignment>, trackRanges: bool)
    returns (r: Result<ConvertResults, ConvertError>, readIdSwitches: nat)
    ensures r == Convert(file, records, trackRanges)
    ensures r.Failure? && r.error.BadBam? <==> ValidateBam(file).Failure?
    ensures r.Success? ==>
      && ClassesOk(r.value.ec) && r.value.uniqueReads.Valid()
      && GrandTotal(r.value.ec) == readIdSwitches == Switches(records)
      && r.value.allAlignments == |records|
      && r.value.validAlignments == CountKept(records) <= r.value.allAlignments
      && Total(r.value.uniqueReads) == r.value.validAlignments
      && RangesOk(r.value.tidRanges)
  {
    var valid := ValidateBam(file);
    if valid.Failure? {
      return Failure(BadBam(valid.error)), 0;
    }
    var run := RunLoop(records, trackRanges);
    if run.Failure? {
      return Failure(run.error), 0;
    }
    var s := run.value;
    RunSwitches(records, trackRanges);
    r := Success(ConvertResults(s.validAlignments, s.allAlignments, s.ec, s.uniqueReads, s.ranges));
    readIdSwitches := s.readIdSwitches;
  }

  /** `merge_two_dicts(x, y)`: a copy of `x` updated with `y`. */
  function MergeTwoDicts<V>(x: OMap<Bytes, V>, y: OMap<Bytes, V>): (z: OMap<Bytes, V>)
    requires x.Valid() && y.Valid()
    ensures z.Valid()
    ensures z.vals == x.vals + y.vals
    ensures z.keys == x.keys + NewKeys(y.keys, x.vals)
  {
    UpdateSpec(x, y);
    Update(x, y)
  }
}

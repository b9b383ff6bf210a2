/** Combining the results of the multisample workers (`convert`, the loop
    over `pool.imap`). The first result is taken whole: its class table
    becomes the combined one, its classes are numbered in order in
    `ec_idx`, its cell barcodes are numbered in order of first appearance
    in `CRS`, and the running totals per cell barcode (`cr_totals`) and per
    class (`ec_totals`) start from its counts. Every later result adds its
    counts cell by cell into the combined table and the totals, numbers in
    `CRS` every cell barcode it holds that is not numbered yet, and adds its
    alignment counts; when a range file is wanted its target ranges are
    merged in by minimum start and maximum start. The code as written sets
    `CRS[crkey] = 1` before that numbering, so later barcodes all share
    column 1: `MarkedCrsAfter` keeps that reading, `CrsAfter` the intended
    one, which the combined state uses. */
module MultiCombine {
  import opened Wrappers
  import opened ByteStrings
  import opened OrderedMaps
  import opened Targets
  import opened Alignments
  import opened MultiSample

  // ---------------------------------------------------------------------
  // Counts in iteration order

  /** One count of a class table: `ec[key][cell] == count`. */
  datatype Entry = Entry(key: Bytes, cell: Bytes, count: int)

  /** `crdict.iteritems()` for the class `key`: its cells in order. */
  function RowEntries(key: Bytes, row: CellCounts): (r: seq<Entry>)
    ensures |r| == |row.keys|
  {
    seq(|row.keys|, j requires 0 <= j < |row.keys| => Entry(key, row.keys[j], Get(row, row.keys[j], 0)))
  }

  /** The entries of the classes listed in `keys`, class after class. */
  function EntriesOf(ec: Classes, keys: seq<Bytes>): seq<Entry>
  {
    if |keys| == 0 then []
    else EntriesOf(ec, keys[..|keys| - 1]) + RowEntries(keys[|keys| - 1], Get(ec, keys[|keys| - 1], Empty()))
  }

  /** What the nested loops `for eckey, crdict in ec.iteritems(): for
      crkey, count in crdict.iteritems()` visit. */
  function Entries(ec: Classes): seq<Entry>
  {
    EntriesOf(ec, ec.keys)
  }

  /** The cell barcodes of the entries, in order. */
  function Cells(es: seq<Entry>): (r: seq<Bytes>)
    ensures |r| == |es|
  {
    if |es| == 0 then [] else Cells(es[..|es| - 1]) + [es[|es| - 1].cell]
  }

  /** Whether an entry belongs to the class `key` (to any class when
      `None`) and to the cell `cell` (to any cell when `None`). */
  predicate Matches(x: Entry, key: Option<Bytes>, cell: Option<Bytes>)
  {
    (key.None? || x.key == key.value) && (cell.None? || x.cell == cell.value)
  }

  /** The sum of the counts of the matching entries. */
  function Tally(es: seq<Entry>, key: Option<Bytes>, cell: Option<Bytes>): int
  {
    if |es| == 0 then 0
    else Tally(es[..|es| - 1], key, cell) + (if Matches(es[|es| - 1], key, cell) then es[|es| - 1].count else 0)
  }

  lemma {:induction false} TallyAppend(a: seq<Entry>, b: seq<Entry>, key: Option<Bytes>, cell: Option<Bytes>)
    ensures Tally(a + b, key, cell) == Tally(a, key, cell) + Tally(b, key, cell)
    decreases |b|
  {
    if |b| == 0 {
      assert a + b == a;
    } else {
      TallyAppend(a, b[..|b| - 1], key, cell);
      InitOfAppend(a, b);
    }
  }

  /** What the first `m` cells of one class add up to. */
  ghost function RowPart(row: CellCounts, m: nat, cell: Option<Bytes>): int
    requires row.Valid() && m <= |row.keys|
  {
    if cell.None? then SumOf(row.keys[..m], row.vals)
    else if cell.value in row.keys[..m] then row.vals[cell.value]
    else 0
  }

  /** Within one class, the tally of a cell is its count and the tally of
      the class is the class total; the entries count for no other
      class. */
  lemma {:induction false} RowTally(k: Bytes, row: CellCounts, m: nat, key: Option<Bytes>, cell: Option<Bytes>)
    requires row.Valid() && m <= |row.keys|
    ensures Tally(RowEntries(k, row)[..m], key, cell) ==
      if key.Some? && key.value != k then 0 else RowPart(row, m, cell)
  {
    if m > 0 {
      var es := RowEntries(k, row);
      RowTally(k, row, m - 1, key, cell);
      assert es[..m][..m - 1] == es[..m - 1];
      assert row.keys[..m] == row.keys[..m - 1] + [row.keys[m - 1]];
      assert row.keys[m - 1] !in row.keys[..m - 1];
    }
  }

  /** The entries of the first `n` classes tally, for one class and cell,
      that cell's count. */
  lemma {:induction false} EntriesOfCell(ec: Classes, n: nat, e: Bytes, c: Bytes)
    requires ClassesOk(ec) && n <= |ec.keys|
    ensures Tally(EntriesOf(ec, ec.keys[..n]), Some(e), Some(c)) ==
      if e in ec.keys[..n] then Get(ec.vals[e], c, 0) else 0
  {
    if n > 0 {
      EntriesOfCell(ec, n - 1, e, c);
      var k := ec.keys[n - 1];
      var rows := EntriesOfLast(ec, n);
      TallyAppend(EntriesOf(ec, ec.keys[..n - 1]), rows, Some(e), Some(c));
      RowTally(k, ec.vals[k], |ec.vals[k].keys|, Some(e), Some(c));
    }
  }

  /** ... for one class, that class's total. */
  lemma {:induction false} EntriesOfRow(ec: Classes, n: nat, e: Bytes)
    requires ClassesOk(ec) && n <= |ec.keys|
    ensures Tally(EntriesOf(ec, ec.keys[..n]), Some(e), None) ==
      if e in ec.keys[..n] then Total(ec.vals[e]) else 0
  {
    if n > 0 {
      EntriesOfRow(ec, n - 1, e);
      var k := ec.keys[n - 1];
      var rows := EntriesOfLast(ec, n);
      TallyAppend(EntriesOf(ec, ec.keys[..n - 1]), rows, Some(e), None);
      RowTally(k, ec.vals[k], |ec.vals[k].keys|, Some(e), None);
    }
  }

  /** ... for everything, the sum of the class totals. */
  lemma {:induction false} EntriesOfAll(ec: Classes, n: nat)
    requires ClassesOk(ec) && n <= |ec.keys|
    ensures Tally(EntriesOf(ec, ec.keys[..n]), None, None) == SumOf(ec.keys[..n], RowTotals(ec).vals)
  {
    if n > 0 {
      EntriesOfAll(ec, n - 1);
      var k := ec.keys[n - 1];
      var rows := EntriesOfLast(ec, n);
      TallyAppend(EntriesOf(ec, ec.keys[..n - 1]), rows, None, None);
      RowTally(k, ec.vals[k], |ec.vals[k].keys|, None, None);
    }
  }

  /** The entries of the first `n` classes are those of the first `n - 1`
      followed by the cells of class `n - 1`. */
  lemma EntriesOfLast(ec: Classes, n: nat) returns (rows: seq<Entry>)
    requires ClassesOk(ec) && 0 < n <= |ec.keys|
    ensures var k := ec.keys[n - 1];
      && rows == RowEntries(k, ec.vals[k])
      && EntriesOf(ec, ec.keys[..n]) == EntriesOf(ec, ec.keys[..n - 1]) + rows
      && rows[..|ec.vals[k].keys|] == rows
      && ec.vals[k].keys[..|ec.vals[k].keys|] == ec.vals[k].keys
      && ec.keys[..n] == ec.keys[..n - 1] + [k]
      && k !in ec.keys[..n - 1]
  {
    var k := ec.keys[n - 1];
    rows := RowEntries(k, ec.vals[k]);
    assert ec.keys[..n][..n - 1] == ec.keys[..n - 1];
    assert rows[..|ec.vals[k].keys|] == rows;
    assert ec.vals[k].keys[..|ec.vals[k].keys|] == ec.vals[k].keys;
  }

  /** The entries of a class table say everything about it: the tally of
      a class and cell is that cell's count, of a class its row total and
      of all entries the table's grand total. */
  lemma EntriesTally(ec: Classes, e: Bytes, c: Bytes)
    requires ClassesOk(ec)
    ensures Tally(Entries(ec), Some(e), Some(c)) == Cell(ec, e, c)
    ensures Tally(Entries(ec), Some(e), None) == RowTotal(ec, e)
    ensures Tally(Entries(ec), None, None) == GrandTotal(ec)
  {
    EntriesOfCell(ec, |ec.keys|, e, c);
    EntriesOfRow(ec, |ec.keys|, e);
    EntriesOfAll(ec, |ec.keys|);
    assert ec.keys[..|ec.keys|] == ec.keys;
  }

  /** `sum(ec[e].values())`: the reads of one class over all cells. */
  ghost function RowTotal(ec: Classes, e: Bytes): int
    requires ClassesOk(ec)
  {
    Total(Get(ec, e, Empty()))
  }

  /** Adding to one cell adds to its class's total and to no other. */
  lemma AddCellRow(ec: Classes, key: Bytes, cell: Bytes, delta: int, e: Bytes)
    requires ClassesOk(ec)
    ensures RowTotal(AddCell(ec, key, cell, delta), e) == RowTotal(ec, e) + if e == key then delta else 0
  {
    if e == key {
      AddCellRowSame(ec, key, cell, delta);
    } else {
      AddCellRowOther(ec, key, cell, delta, e);
    }
  }

  lemma AddCellRowSame(ec: Classes, key: Bytes, cell: Bytes, delta: int)
    requires ClassesOk(ec)
    ensures RowTotal(AddCell(ec, key, cell, delta), key) == RowTotal(ec, key) + delta
  {
    var row := Get(ec, key, Empty());
    var r := AddCell(ec, key, cell, delta);
    assert r.vals == ec.vals[key := Bump(row, cell, delta)];
    assert Get(r, key, Empty()) == Bump(row, cell, delta);
    BumpTotal(row, cell, delta);
  }

  lemma AddCellRowOther(ec: Classes, key: Bytes, cell: Bytes, delta: int, e: Bytes)
    requires ClassesOk(ec) && e != key
    ensures RowTotal(AddCell(ec, key, cell, delta), e) == RowTotal(ec, e)
  {
    var r := AddCell(ec, key, cell, delta);
    assert r.vals == ec.vals[key := Bump(Get(ec, key, Empty()), cell, delta)];
    assert Get(r, e, Empty()) == Get(ec, e, Empty());
  }

  /** The reads of one cell barcode over all classes. */
  ghost function ColumnTotal(ec: Classes, c: Bytes): int
  {
    Tally(Entries(ec), None, Some(c))
  }

  // ---------------------------------------------------------------------
  // The running totals `cr_totals` and `ec_totals`

  datatype Totals = Totals(crTotals: OMap<Bytes, int>, ecTotals: OMap<Bytes, int>)

  /** `cr_totals[crkey] += count` and `ec_totals[eckey] += count`. */
  function AddTotals(t: Totals, x: Entry): Totals
  {
    Totals(Bump(t.crTotals, x.cell, x.count), Bump(t.ecTotals, x.key, x.count))
  }

  function FoldTotals(t: Totals, es: seq<Entry>): (r: Totals)
    ensures TotalsOk(t) ==> TotalsOk(r)
  {
    if |es| == 0 then t else AddTotals(FoldTotals(t, es[..|es| - 1]), es[|es| - 1])
  }

  ghost predicate TotalsOk(t: Totals)
  {
    t.crTotals.Valid() && t.ecTotals.Valid()
  }

  /** A cell barcode's total grows by the tally of that barcode. */
  lemma {:induction false} FoldTotalsCell(t: Totals, es: seq<Entry>, c: Bytes)
    requires TotalsOk(t)
    ensures Get(FoldTotals(t, es).crTotals, c, 0) == Get(t.crTotals, c, 0) + Tally(es, None, Some(c))
  {
    if |es| > 0 {
      var x := es[|es| - 1];
      FoldTotalsCell(t, es[..|es| - 1], c);
      BumpGet(FoldTotals(t, es[..|es| - 1]).crTotals, x.cell, x.count, c);
    }
  }

  /** A class's total grows by the tally of that class. */
  lemma {:induction false} FoldTotalsClass(t: Totals, es: seq<Entry>, e: Bytes)
    requires TotalsOk(t)
    ensures Get(FoldTotals(t, es).ecTotals, e, 0) == Get(t.ecTotals, e, 0) + Tally(es, Some(e), None)
  {
    if |es| > 0 {
      var x := es[|es| - 1];
      FoldTotalsClass(t, es[..|es| - 1], e);
      BumpGet(FoldTotals(t, es[..|es| - 1]).ecTotals, x.key, x.count, e);
    }
  }

  /** Both grand totals grow by the tally of all entries. */
  lemma {:induction false} FoldTotalsSums(t: Totals, es: seq<Entry>)
    requires TotalsOk(t)
    ensures TotalsOk(FoldTotals(t, es))
    ensures Total(FoldTotals(t, es).crTotals) == Total(t.crTotals) + Tally(es, None, None)
    ensures Total(FoldTotals(t, es).ecTotals) == Total(t.ecTotals) + Tally(es, None, None)
  {
    FoldTotalsCr(t, es);
    FoldTotalsEc(t, es);
  }

  lemma {:induction false} FoldTotalsCr(t: Totals, es: seq<Entry>)
    requires TotalsOk(t)
    ensures TotalsOk(FoldTotals(t, es))
    ensures Total(FoldTotals(t, es).crTotals) == Total(t.crTotals) + Tally(es, None, None)
  {
    if |es| > 0 {
      var prev := FoldTotals(t, es[..|es| - 1]);
      var x := es[|es| - 1];
      FoldTotalsCr(t, es[..|es| - 1]);
      assert FoldTotals(t, es).crTotals == Bump(prev.crTotals, x.cell, x.count);
      assert Tally(es, None, None) == Tally(es[..|es| - 1], None, None) + x.count;
      BumpSum(prev.crTotals, x.cell, x.count);
    }
  }

  lemma {:induction false} FoldTotalsEc(t: Totals, es: seq<Entry>)
    requires TotalsOk(t)
    ensures TotalsOk(FoldTotals(t, es))
    ensures Total(FoldTotals(t, es).ecTotals) == Total(t.ecTotals) + Tally(es, None, None)
  {
    if |es| > 0 {
      var prev := FoldTotals(t, es[..|es| - 1]);
      var x := es[|es| - 1];
      FoldTotalsEc(t, es[..|es| - 1]);
      assert FoldTotals(t, es).ecTotals == Bump(prev.ecTotals, x.key, x.count);
      assert Tally(es, None, None) == Tally(es[..|es| - 1], None, None) + x.count;
      BumpSum(prev.ecTotals, x.key, x.count);
    }
  }

  // ---------------------------------------------------------------------
  // The cell barcode numbering `CRS`

  /** The first result: `if crkey not in CRS: CRS[crkey] = len(CRS)`. */
  function RegisterCells(crs: OMap<Bytes, int>, es: seq<Entry>): OMap<Bytes, int>
  {
    if |es| == 0 then crs
    else
      var prev := RegisterCells(crs, es[..|es| - 1]);
      var cell := es[|es| - 1].cell;
      if cell in prev.vals then prev else Put(prev, cell, |prev.keys|)
  }

  /** Registering numbers the distinct cell barcodes in order of first
      appearance, 0, 1, 2, ... */
  lemma {:induction false} RegisterCellsSpec(crs: OMap<Bytes, int>, seen: seq<Bytes>, es: seq<Entry>)
    requires crs.Valid() && crs.keys == Distinct(seen) && IndexesKeys(crs.vals, crs.keys)
    ensures var r := RegisterCells(crs, es);
      r.Valid() && r.keys == Distinct(seen + Cells(es)) && IndexesKeys(r.vals, r.keys)
  {
    if |es| == 0 {
      assert seen + Cells(es) == seen;
    } else {
      RegisterCellsSpec(crs, seen, es[..|es| - 1]);
      RegisterCellsStep(crs, seen, es);
    }
  }

  lemma RegisterCellsStep(crs: OMap<Bytes, int>, seen: seq<Bytes>, es: seq<Entry>)
    requires |es| > 0
    requires var prev := RegisterCells(crs, es[..|es| - 1]);
      prev.Valid() && prev.keys == Distinct(seen + Cells(es[..|es| - 1])) && IndexesKeys(prev.vals, prev.keys)
    ensures var r := RegisterCells(crs, es);
      r.Valid() && r.keys == Distinct(seen + Cells(es)) && IndexesKeys(r.vals, r.keys)
  {
    var init := es[..|es| - 1];
    var s0 := seen + Cells(init);
    assert seen + Cells(es) == s0 + [es[|es| - 1].cell];
    RegisterStep(RegisterCells(crs, init), s0, es[|es| - 1].cell);
  }

  /** A later result: `CRS[crkey] = 1` (the guarded numbering that follows
      it never fires, the key being present by then). */
  function MarkCells(crs: OMap<Bytes, int>, es: seq<Entry>): OMap<Bytes, int>
  {
    if |es| == 0 then crs else Put(MarkCells(crs, es[..|es| - 1]), es[|es| - 1].cell, 1)
  }

  /** Marking keeps `CRS` the distinct cell barcodes in order of first
      appearance. */
  lemma {:induction false} MarkCellsKeys(crs: OMap<Bytes, int>, seen: seq<Bytes>, es: seq<Entry>)
    requires crs.Valid() && crs.keys == Distinct(seen)
    ensures MarkCells(crs, es).Valid() && MarkCells(crs, es).keys == Distinct(seen + Cells(es))
  {
    if |es| == 0 {
      assert seen + Cells(es) == seen;
    } else {
      MarkCellsKeys(crs, seen, es[..|es| - 1]);
      MarkCellsStep(crs, seen, es);
    }
  }

  lemma MarkCellsStep(crs: OMap<Bytes, int>, seen: seq<Bytes>, es: seq<Entry>)
    requires |es| > 0
    requires var prev := MarkCells(crs, es[..|es| - 1]);
      prev.Valid() && prev.keys == Distinct(seen + Cells(es[..|es| - 1]))
    ensures MarkCells(crs, es).Valid() && MarkCells(crs, es).keys == Distinct(seen + Cells(es))
  {
    var cell := es[|es| - 1].cell;
    var prev := MarkCells(crs, es[..|es| - 1]);
    var s0 := seen + Cells(es[..|es| - 1]);
    var r := MarkCells(crs, es);
    assert r == Put(prev, cell, 1);
    AppendAssoc(seen, Cells(es[..|es| - 1]), [cell]);
    assert seen + Cells(es) == s0 + [cell];
    DistinctSnoc(s0, cell);
    ValidHas(prev, cell);
    assert r.keys == if cell in prev.vals then prev.keys else prev.keys + [cell];
  }

  /** Every marked cell barcode has the value 1; the others keep theirs. */
  lemma {:induction false} MarkCellsVals(crs: OMap<Bytes, int>, es: seq<Entry>)
    ensures forall c :: c in MarkCells(crs, es).vals <==> c in crs.vals || c in Cells(es)
    ensures forall c :: c in Cells(es) ==> MarkCells(crs, es).vals[c] == 1
    ensures forall c :: c in crs.vals && c !in Cells(es) ==> MarkCells(crs, es).vals[c] == crs.vals[c]
  {
    if |es| > 0 {
      MarkCellsVals(crs, es[..|es| - 1]);
    }
  }

  // ---------------------------------------------------------------------
  // Adding a result's counts into the combined table

  /** `final.ec[eckey][crkey] += count`; a new class gets the next index
      `len(ec_idx)`. */
  function AddEntry(ec: Classes, idx: map<Bytes, int>, x: Entry): (Classes, map<Bytes, int>)
  {
    (AddCell(ec, x.key, x.cell, x.count), if x.key in ec.vals then idx else idx[x.key := |idx|])
  }

  function FoldClasses(ec: Classes, idx: map<Bytes, int>, es: seq<Entry>): (r: (Classes, map<Bytes, int>))
    ensures ClassesOk(ec) ==> ClassesOk(r.0)
  {
    if |es| == 0 then (ec, idx)
    else
      var prev := FoldClasses(ec, idx, es[..|es| - 1]);
      AddEntry(prev.0, prev.1, es[|es| - 1])
  }

  /** One entry keeps `ec_idx` the dense index of the classes. */
  lemma AddEntryIndex(ec: Classes, idx: map<Bytes, int>, x: Entry)
    requires ClassesOk(ec) && IndexesKeys(idx, ec.keys)
    ensures IndexesKeys(AddEntry(ec, idx, x).1, AddEntry(ec, idx, x).0.keys)
  {
    if x.key !in ec.vals {
      IndexesKeysSize(idx, ec.keys);
      IndexesKeysAppend(idx, ec.keys, x.key);
      assert AddEntry(ec, idx, x).0.keys == ec.keys + [x.key];
    }
  }

  /** Adding entries keeps `ec_idx` the dense index of the classes. */
  lemma {:induction false} FoldClassesIndex(ec: Classes, idx: map<Bytes, int>, es: seq<Entry>)
    requires ClassesOk(ec) && IndexesKeys(idx, ec.keys)
    ensures IndexesKeys(FoldClasses(ec, idx, es).1, FoldClasses(ec, idx, es).0.keys)
  {
    if |es| > 0 {
      var prev := FoldClasses(ec, idx, es[..|es| - 1]);
      FoldClassesIndex(ec, idx, es[..|es| - 1]);
      AddEntryIndex(prev.0, prev.1, es[|es| - 1]);
    }
  }

  /** Adding entries adds to each cell the tally of that class and cell. */
  lemma {:induction false} FoldClassesCell(ec: Classes, idx: map<Bytes, int>, es: seq<Entry>, e: Bytes, c: Bytes)
    requires ClassesOk(ec)
    ensures Cell(FoldClasses(ec, idx, es).0, e, c) == Cell(ec, e, c) + Tally(es, Some(e), Some(c))
  {
    if |es| > 0 {
      var x := es[|es| - 1];
      var prev := FoldClasses(ec, idx, es[..|es| - 1]).0;
      FoldClassesCell(ec, idx, es[..|es| - 1], e, c);
      assert Tally(es, Some(e), Some(c)) == Tally(es[..|es| - 1], Some(e), Some(c)) + if x.key == e && x.cell == c then x.count else 0;
      if e == x.key && c == x.cell {
        AddCellSame(prev, x.key, x.cell, x.count);
      } else {
        AddCellOther(prev, x.key, x.cell, x.count, e, c);
      }
    }
  }

  /** ... to each class's total the tally of that class. */
  lemma {:induction false} FoldClassesRow(ec: Classes, idx: map<Bytes, int>, es: seq<Entry>, e: Bytes)
    requires ClassesOk(ec)
    ensures RowTotal(FoldClasses(ec, idx, es).0, e) == RowTotal(ec, e) + Tally(es, Some(e), None)
  {
    if |es| > 0 {
      var x := es[|es| - 1];
      var prev := FoldClasses(ec, idx, es[..|es| - 1]).0;
      FoldClassesRow(ec, idx, es[..|es| - 1], e);
      assert Tally(es, Some(e), None) == Tally(es[..|es| - 1], Some(e), None) + if x.key == e then x.count else 0;
      if e == x.key {
        AddCellRowSame(prev, x.key, x.cell, x.count);
      } else {
        AddCellRowOther(prev, x.key, x.cell, x.count, e);
      }
    }
  }

  /** ... and to the grand total the tally of all entries. */
  lemma {:induction false} FoldClassesGrand(ec: Classes, idx: map<Bytes, int>, es: seq<Entry>)
    requires ClassesOk(ec)
    ensures GrandTotal(FoldClasses(ec, idx, es).0) == GrandTotal(ec) + Tally(es, None, None)
  {
    if |es| > 0 {
      var x := es[|es| - 1];
      FoldClassesGrand(ec, idx, es[..|es| - 1]);
      AddCellTotals(FoldClasses(ec, idx, es[..|es| - 1]).0, x.key, x.cell, x.count);
    }
  }

  /** `ec_idx[eckey] = len(ec_idx)` for the classes of the first result. */
  function IndexFrom(idx: map<Bytes, int>, keys: seq<Bytes>): map<Bytes, int>
  {
    if |keys| == 0 then idx
    else
      var prev := IndexFrom(idx, keys[..|keys| - 1]);
      prev[keys[|keys| - 1] := |prev|]
  }

  /** Numbering distinct keys from an empty index gives each its
      position. */
  lemma {:induction false} IndexFromSpec(keys: seq<Bytes>)
    requires forall i, j :: 0 <= i < j < |keys| ==> keys[i] != keys[j]
    ensures IndexesKeys(IndexFrom(map[], keys), keys)
  {
    if |keys| > 0 {
      var n := |keys| - 1;
      IndexFromSpec(keys[..n]);
      IndexesKeysSize(IndexFrom(map[], keys[..n]), keys[..n]);
      assert keys[n] !in keys[..n];
      IndexesKeysAppend(IndexFrom(map[], keys[..n]), keys[..n], keys[n]);
      assert keys[..n] + [keys[n]] == keys;
    }
  }

  // ---------------------------------------------------------------------
  // Target ranges

  /** `(min(v[0], n), max(v[1], x))`: the range of a result `v` merged into
      the combined range `(n, x)`. */
  function MergeRange(combined: (int, int), v: (int, int)): (r: (int, int))
    ensures r.0 <= combined.0 && r.0 <= v.0 && (r.0 == combined.0 || r.0 == v.0)
    ensures r.1 >= combined.1 && r.1 >= v.1 && (r.1 == combined.1 || r.1 == v.1)
  {
    (if v.0 < combined.0 then v.0 else combined.0, if v.1 > combined.1 then v.1 else combined.1)
  }

  /** The loop over `result.tid_ranges.iteritems()`: a target id known to
      both gets the merged range, one known to the result alone its
      range. The result does not depend on the order of the loop. */
  function MergeRanges(acc: map<Bytes, (int, int)>, more: map<Bytes, (int, int)>): (r: map<Bytes, (int, int)>)
    ensures r.Keys == acc.Keys + more.Keys
  {
    map k | k in acc.Keys + more.Keys ::
      if k in more && k in acc then MergeRange(acc[k], more[k])
      else if k in more then more[k]
      else acc[k]
  }

  /** Merging keeps every range well-ordered. */
  lemma MergeRangesOk(acc: map<Bytes, (int, int)>, more: map<Bytes, (int, int)>)
    requires RangesOk(acc) && RangesOk(more)
    ensures RangesOk(MergeRanges(acc, more))
  {
  }

  /** The order in which results are merged does not matter. */
  lemma MergeRangesCommutes(a: map<Bytes, (int, int)>, b: map<Bytes, (int, int)>)
    ensures MergeRanges(a, b) == MergeRanges(b, a)
  {
    forall k | k in a && k in b ensures MergeRange(a[k], b[k]) == MergeRange(b[k], a[k]) {
    }
  }

  /** No range reaches past the sentinel: its start is at most the
      sentinel's and its end at least the sentinel's. */
  ghost predicate WithinSentinel(ranges: map<Bytes, (int, int)>)
  {
    forall k :: k in ranges ==> ranges[k].0 <= NO_RANGE.0 && ranges[k].1 >= NO_RANGE.1
  }

  lemma {:induction false} RangesAfterWithin(records: seq<Alignment>, trackRanges: bool)
    ensures WithinSentinel(RangesAfter(records, trackRanges))
  {
    if |records| > 0 {
      RangesAfterWithin(records[..|records| - 1], trackRanges);
    }
  }

  /** Merging commutes with widening a range by one more start. */
  lemma MergeWiden(a: map<Bytes, (int, int)>, b: map<Bytes, (int, int)>, tid: Bytes, start: int)
    requires WithinSentinel(a)
    ensures MergeRanges(a, b[tid := Widen(RangeOf(b, tid), start)]) ==
      MergeRanges(a, b)[tid := Widen(RangeOf(MergeRanges(a, b), tid), start)]
  {
    var lhs := MergeRanges(a, b[tid := Widen(RangeOf(b, tid), start)]);
    var rhs := MergeRanges(a, b)[tid := Widen(RangeOf(MergeRanges(a, b), tid), start)];
    assert lhs.Keys == rhs.Keys;
    forall k | k in lhs ensures lhs[k] == rhs[k] {
    }
  }

  /** Merging the ranges each worker recorded over its records gives the
      ranges recorded over all the records one after the other. */
  lemma {:induction false} MergeRangesAfter(x: seq<Alignment>, y: seq<Alignment>)
    ensures MergeRanges(RangesAfter(x, true), RangesAfter(y, true)) == RangesAfter(x + y, true)
    decreases |y|
  {
    var a := RangesAfter(x, true);
    if |y| == 0 {
      assert x + y == x;
      assert MergeRanges(a, map[]) == a;
    } else {
      var n := |y| - 1;
      MergeRangesAfter(x, y[..n]);
      assert (x + y)[..|x + y| - 1] == x + y[..n];
      assert (x + y)[|x + y| - 1] == y[n];
      if Kept(y[n]) {
        RangesAfterWithin(x, true);
        MergeWiden(a, RangesAfter(y[..n], true), Decimal(y[n].referenceId), y[n].referenceStart);
      }
    }
  }

  // ---------------------------------------------------------------------
  // Combining the results

  /** What `convert` keeps while it combines: `final` (whether it holds a
      result yet, its alignment counts, class table, unique reads and
      target ranges), `ec_idx`, `CRS` and the running totals. */
  datatype Combined = Combined(
    init: bool,
    validAlignments: nat,
    allAlignments: nat,
    ec: Classes,
    ecIdx: map<Bytes, int>,
    uniqueReads: OMap<Bytes, int>,
    tidRanges: map<Bytes, (int, int)>,
    crs: OMap<Bytes, int>,
    totals: Totals)

  /** Every result's class table is well-formed. */
  ghost predicate AllOk(results: seq<ConvertResults>)
  {
    forall i :: 0 <= i < |results| ==> ClassesOk(results[i].ec)
  }

  // Each part of the combined state after the given results. The parts do
  // not depend on each other, so each is its own fold over the results;
  // `CombineAll` puts them together.

  /** The entries of all results, one result after the other. */
  function AllEntries(results: seq<ConvertResults>): seq<Entry>
  {
    if |results| == 0 then [] else Entries(results[0].ec) + AllEntries(results[1..])
  }

  lemma {:induction false} AllEntriesSnoc(results: seq<ConvertResults>, i: nat)
    requires i < |results|
    ensures AllEntries(results[..i + 1]) == AllEntries(results[..i]) + Entries(results[i].ec)
  {
    if i == 0 {
      assert results[..1][1..] == [];
    } else {
      AllEntriesSnoc(results[1..], i - 1);
      assert results[..i + 1][1..] == results[1..][..i];
      assert results[..i][1..] == results[1..][..i - 1];
    }
  }

  /** `final.ec` and `ec_idx`: the first result's table with its classes
      numbered in order, then the entries of every later result added. */
  function ClassesAfter(results: seq<ConvertResults>): (r: (Classes, map<Bytes, int>))
    ensures AllOk(results) ==> ClassesOk(r.0) && IndexesKeys(r.1, r.0.keys)
  {
    if |results| == 0 then (Empty(), map[])
    else
      var first := results[0].ec;
      var idx := IndexFrom(map[], first.keys);
      assert AllOk(results) ==> IndexesKeys(FoldClasses(first, idx, AllEntries(results[1..])).1,
                                            FoldClasses(first, idx, AllEntries(results[1..])).0.keys) by {
        if AllOk(results) {
          IndexFromSpec(first.keys);
          FoldClassesIndex(first, idx, AllEntries(results[1..]));
        }
      }
      FoldClasses(first, idx, AllEntries(results[1..]))
  }

  /** `CRS` as the code is written: the first result's cell barcodes
      numbered in order of first appearance, then every later result's set
      to 1 by `CRS[crkey] = 1` (the guarded numbering that follows never
      fires, the barcode being present by then). */
  function MarkedCrsAfter(results: seq<ConvertResults>): OMap<Bytes, int>
  {
    if |results| == 0 then Empty()
    else if |results| == 1 then RegisterCells(Empty(), Entries(results[0].ec))
    else MarkCells(MarkedCrsAfter(results[..|results| - 1]), Entries(results[|results| - 1].ec))
  }

  /** `CRS` as intended: every result's cell barcodes numbered in order of
      first appearance, `if crkey not in CRS: CRS[crkey] = len(CRS)` for
      later results too. */
  function CrsAfter(results: seq<ConvertResults>): OMap<Bytes, int>
  {
    RegisterCells(Empty(), AllEntries(results))
  }

  /** `cr_totals` and `ec_totals`: the entries of every result added. */
  function TotalsAfter(results: seq<ConvertResults>): (t: Totals)
    ensures TotalsOk(t)
  {
    FoldTotals(Totals(Empty(), Empty()), AllEntries(results))
  }

  /** `final.tid_ranges`: the first result's, then with a range file every
      later result's merged in. */
  function RangesAfterAll(results: seq<ConvertResults>, trackRanges: bool): map<Bytes, (int, int)>
  {
    if |results| == 0 then map[]
    else if |results| == 1 then results[0].tidRanges
    else
      var prev := RangesAfterAll(results[..|results| - 1], trackRanges);
      if trackRanges then MergeRanges(prev, results[|results| - 1].tidRanges) else prev
  }

  function ValidAcross(results: seq<ConvertResults>): nat
  {
    if |results| == 0 then 0 else ValidAcross(results[..|results| - 1]) + results[|results| - 1].validAlignments
  }

  function AllAcross(results: seq<ConvertResults>): nat
  {
    if |results| == 0 then 0 else AllAcross(results[..|results| - 1]) + results[|results| - 1].allAlignments
  }

  /** The state after combining the results in the order the workers were
      started. The first result is taken whole (`final = result`: its
      alignment counts and unique reads too); later ones add their
      alignment counts, and their unique reads are dropped. */
  function CombineAll(results: seq<ConvertResults>, trackRanges: bool): Combined
  {
    var classes := ClassesAfter(results);
    Combined(|results| > 0, ValidAcross(results), AllAcross(results), classes.0, classes.1,
             if |results| == 0 then Empty() else results[0].uniqueReads,
             RangesAfterAll(results, trackRanges), CrsAfter(results), TotalsAfter(results))
  }

  // ---------------------------------------------------------------------
  // What the combined state holds

  /** The sum over the results of their counts of one class and cell. */
  function CellAcross(results: seq<ConvertResults>, e: Bytes, c: Bytes): int
  {
    if |results| == 0 then 0 else Cell(results[0].ec, e, c) + CellAcross(results[1..], e, c)
  }

  /** The sum over the results of their totals of one class. */
  ghost function RowAcross(results: seq<ConvertResults>, e: Bytes): int
    requires AllOk(results)
  {
    if |results| == 0 then 0 else RowTotal(results[0].ec, e) + RowAcross(results[1..], e)
  }

  /** The sum over the results of their totals of one cell barcode. */
  ghost function ColumnAcross(results: seq<ConvertResults>, c: Bytes): int
  {
    if |results| == 0 then 0 else ColumnTotal(results[0].ec, c) + ColumnAcross(results[1..], c)
  }

  /** The sum over the results of their grand totals. */
  ghost function GrandAcross(results: seq<ConvertResults>): int
    requires AllOk(results)
  {
    if |results| == 0 then 0 else GrandTotal(results[0].ec) + GrandAcross(results[1..])
  }

  /** The entries of all results tally, for one class and cell, the sum
      of the results' counts. */
  lemma {:induction false} AllEntriesCell(results: seq<ConvertResults>, e: Bytes, c: Bytes)
    requires AllOk(results)
    ensures Tally(AllEntries(results), Some(e), Some(c)) == CellAcross(results, e, c)
  {
    if |results| > 0 {
      assert AllOk(results[1..]);
      AllEntriesCell(results[1..], e, c);
      TallyAppend(Entries(results[0].ec), AllEntries(results[1..]), Some(e), Some(c));
      EntriesTally(results[0].ec, e, c);
    }
  }

  /** ... for one class, the sum of the results' totals of it. */
  lemma {:induction false} AllEntriesRow(results: seq<ConvertResults>, e: Bytes)
    requires AllOk(results)
    ensures Tally(AllEntries(results), Some(e), None) == RowAcross(results, e)
  {
    if |results| > 0 {
      assert AllOk(results[1..]);
      AllEntriesRow(results[1..], e);
      TallyAppend(Entries(results[0].ec), AllEntries(results[1..]), Some(e), None);
      EntriesTally(results[0].ec, e, e);
    }
  }

  /** ... for one cell barcode, the sum of the results' totals of it. */
  lemma {:induction false} AllEntriesColumn(results: seq<ConvertResults>, c: Bytes)
    ensures Tally(AllEntries(results), None, Some(c)) == ColumnAcross(results, c)
  {
    if |results| > 0 {
      AllEntriesColumn(results[1..], c);
      TallyAppend(Entries(results[0].ec), AllEntries(results[1..]), None, Some(c));
    }
  }

  /** ... for everything, the sum of the results' grand totals. */
  lemma {:induction false} AllEntriesGrand(results: seq<ConvertResults>)
    requires AllOk(results)
    ensures Tally(AllEntries(results), None, None) == GrandAcross(results)
  {
    if |results| > 0 {
      assert AllOk(results[1..]);
      AllEntriesGrand(results[1..]);
      TallyAppend(Entries(results[0].ec), AllEntries(results[1..]), None, None);
      EntriesTally(results[0].ec, [], []);
    }
  }

  /** The cell barcodes of all results, in the order they are visited. */
  function CellsAcross(results: seq<ConvertResults>): seq<Bytes>
  {
    if |results| == 0 then [] else CellsAcross(results[..|results| - 1]) + Cells(Entries(results[|results| - 1].ec))
  }

  /** Every cell of the combined table holds the sum of the results'
      counts for it. */
  lemma ClassesCell(results: seq<ConvertResults>, e: Bytes, c: Bytes)
    requires AllOk(results)
    ensures Cell(ClassesAfter(results).0, e, c) == CellAcross(results, e, c)
  {
    if |results| > 0 {
      assert AllOk(results[1..]);
      FoldClassesCell(results[0].ec, IndexFrom(map[], results[0].ec.keys), AllEntries(results[1..]), e, c);
      AllEntriesCell(results[1..], e, c);
    }
  }

  /** Every class's combined total is the sum of the results' totals of
      that class. */
  lemma ClassesRow(results: seq<ConvertResults>, e: Bytes)
    requires AllOk(results)
    ensures RowTotal(ClassesAfter(results).0, e) == RowAcross(results, e)
  {
    if |results| > 0 {
      assert AllOk(results[1..]);
      FoldClassesRow(results[0].ec, IndexFrom(map[], results[0].ec.keys), AllEntries(results[1..]), e);
      AllEntriesRow(results[1..], e);
    }
  }

  /** The combined table's grand total is the sum of the results'. */
  lemma ClassesGrand(results: seq<ConvertResults>)
    requires AllOk(results)
    ensures GrandTotal(ClassesAfter(results).0) == GrandAcross(results)
  {
    if |results| > 0 {
      assert AllOk(results[1..]);
      FoldClassesGrand(results[0].ec, IndexFrom(map[], results[0].ec.keys), AllEntries(results[1..]));
      AllEntriesGrand(results[1..]);
    }
  }

  /** A class's `ec_totals` entry is the sum of the results' totals of that
      class. */
  lemma TotalsClass(results: seq<ConvertResults>, e: Bytes)
    requires AllOk(results)
    ensures Get(TotalsAfter(results).ecTotals, e, 0) == RowAcross(results, e)
  {
    FoldTotalsClass(Totals(Empty(), Empty()), AllEntries(results), e);
    AllEntriesRow(results, e);
  }

  /** A cell barcode's `cr_totals` entry is the sum of the results' totals
      of that barcode. */
  lemma TotalsCell(results: seq<ConvertResults>, c: Bytes)
    ensures Get(TotalsAfter(results).crTotals, c, 0) == ColumnAcross(results, c)
  {
    FoldTotalsCell(Totals(Empty(), Empty()), AllEntries(results), c);
    AllEntriesColumn(results, c);
  }

  /** `cr_totals` and `ec_totals` both add up to the sum of the results'
      grand totals. */
  lemma TotalsGrand(results: seq<ConvertResults>)
    requires AllOk(results)
    ensures Total(TotalsAfter(results).crTotals) == GrandAcross(results)
    ensures Total(TotalsAfter(results).ecTotals) == GrandAcross(results)
  {
    FoldTotalsSums(Totals(Empty(), Empty()), AllEntries(results));
    AllEntriesGrand(results);
  }

  lemma {:induction false} CellsAppend(a: seq<Entry>, b: seq<Entry>)
    ensures Cells(a + b) == Cells(a) + Cells(b)
    decreases |b|
  {
    if |b| == 0 {
      assert a + b == a;
    } else {
      CellsAppend(a, b[..|b| - 1]);
      InitOfAppend(a, b);
    }
  }

  lemma {:induction false} CellsAcrossAll(results: seq<ConvertResults>)
    ensures CellsAcross(results) == Cells(AllEntries(results))
  {
    if |results| > 0 {
      var n := |results| - 1;
      CellsAcrossAll(results[..n]);
      AllEntriesSnoc(results, n);
      assert results[..n + 1] == results;
      CellsAppend(AllEntries(results[..n]), Entries(results[n].ec));
    }
  }

  /** `CRS` numbers the distinct cell barcodes of all results 0, 1, 2, ...
      in order of first appearance: the column of each barcode in the
      count matrix. */
  lemma CrsKeys(results: seq<ConvertResults>)
    ensures var crs := CrsAfter(results);
      crs.Valid() && crs.keys == Distinct(CellsAcross(results)) && IndexesKeys(crs.vals, crs.keys)
  {
    RegisterCellsSpec(Empty(), [], AllEntries(results));
    CellsAcrossAll(results);
    assert [] + Cells(AllEntries(results)) == Cells(AllEntries(results));
  }

  /** As written, `CRS` still lists the distinct cell barcodes of all
      results in order of first appearance, and with one result they are
      numbered 0, 1, 2, ... */
  lemma {:induction false} MarkedCrsKeys(results: seq<ConvertResults>)
    ensures MarkedCrsAfter(results).Valid() && MarkedCrsAfter(results).keys == Distinct(CellsAcross(results))
    ensures |results| == 1 ==> IndexesKeys(MarkedCrsAfter(results).vals, MarkedCrsAfter(results).keys)
  {
    var n := |results| - 1;
    if n == 0 {
      var es := Entries(results[0].ec);
      RegisterCellsSpec(Empty(), [], es);
      assert results[..0] == [];
      assert CellsAcross(results) == [] + Cells(es);
    } else if n > 0 {
      MarkedCrsKeys(results[..n]);
      MarkCellsKeys(MarkedCrsAfter(results[..n]), CellsAcross(results[..n]), Entries(results[n].ec));
    }
  }

  /** Every cell barcode that a result after the first holds has the value
      1 in `CRS`. */
  lemma {:induction false} CrsMarked(results: seq<ConvertResults>)
    ensures forall i, cell :: 1 <= i < |results| && cell in Cells(Entries(results[i].ec)) ==>
      cell in MarkedCrsAfter(results).vals && MarkedCrsAfter(results).vals[cell] == 1
  {
    if |results| > 1 {
      var n := |results| - 1;
      CrsMarked(results[..n]);
      MarkCellsVals(MarkedCrsAfter(results[..n]), Entries(results[n].ec));
      forall i, cell | 1 <= i < n && cell in Cells(Entries(results[i].ec))
        ensures cell in MarkedCrsAfter(results).vals && MarkedCrsAfter(results).vals[cell] == 1
      {
        assert results[..n][i] == results[i];
      }
    }
  }

  // As written, two results (the first with cell barcodes `A` and `B` in
  // one class `0`, the second with `A` alone) leave `A` and `B` both in
  // column 1 of the count matrix.

  const CellA: Bytes := [65]
  const CellB: Bytes := [66]
  const Class0: Bytes := [48]
  const FirstOfTwo := ConvertResults(0, 0, OMap([Class0], map[Class0 := OMap([CellA, CellB], map[CellA := 1, CellB := 1])]), Empty(), map[])
  const SecondOfTwo := ConvertResults(0, 0, OMap([Class0], map[Class0 := OMap([CellA], map[CellA := 1])]), Empty(), map[])

  lemma TwoEntries()
    ensures Entries(FirstOfTwo.ec) == [] + [Entry(Class0, CellA, 1)] + [Entry(Class0, CellB, 1)]
    ensures Entries(SecondOfTwo.ec) == [Entry(Class0, CellA, 1)]
  {
    EntriesSingle(Class0, OMap([CellA, CellB], map[CellA := 1, CellB := 1]));
    EntriesSingle(Class0, OMap([CellA], map[CellA := 1]));
  }

  lemma TwoRegistered()
    ensures RegisterCells(Empty(), [] + [Entry(Class0, CellA, 1)] + [Entry(Class0, CellB, 1)]) ==
      OMap([CellA, CellB], map[CellA := 0, CellB := 1])
  {
    RegisterCellsSnoc(Empty(), [], Entry(Class0, CellA, 1));
    RegisterCellsSnoc(Empty(), [] + [Entry(Class0, CellA, 1)], Entry(Class0, CellB, 1));
  }

  lemma MarkedCrsCollides()
    ensures var crs := MarkedCrsAfter([FirstOfTwo, SecondOfTwo]);
      CellA in crs.vals && CellB in crs.vals && crs.vals[CellA] == crs.vals[CellB] == 1 && !IndexesKeys(crs.vals, crs.keys)
  {
    var rs := [FirstOfTwo, SecondOfTwo];
    var x := Entry(Class0, CellA, 1);
    var crs0 := OMap([CellA, CellB], map[CellA := 0, CellB := 1]);
    TwoEntries();
    TwoRegistered();
    assert MarkedCrsAfter(rs[..1]) == crs0 by {
      assert rs[..1] == [FirstOfTwo];
    }
    assert MarkCells(crs0, [x]) == OMap([CellA, CellB], map[CellA := 1, CellB := 1]) by {
      assert [x][..0] == [];
    }
  }

  /** The entries of a table of one class are that class's entries. */
  lemma EntriesSingle(k: Bytes, row: CellCounts)
    ensures Entries(OMap([k], map[k := row])) == RowEntries(k, row)
  {
    var ec := OMap([k], map[k := row]);
    assert [k][..0] == [];
    assert EntriesOf(ec, [k]) == [] + RowEntries(k, row);
  }

  /** Flattening the workers' record lists. */
  function Flatten(records: seq<seq<Alignment>>): seq<Alignment>
  {
    if |records| == 0 then [] else Flatten(records[..|records| - 1]) + records[|records| - 1]
  }

  /** When every worker's ranges are those recorded over its own records,
      the combined ranges are those recorded over all records one worker
      after the other (nothing at all without a range file). */
  lemma {:induction false} CombineRanges(results: seq<ConvertResults>, records: seq<seq<Alignment>>, trackRanges: bool)
    requires |results| == |records|
    requires forall i :: 0 <= i < |results| ==> results[i].tidRanges == RangesAfter(records[i], trackRanges)
    ensures RangesAfterAll(results, trackRanges) == RangesAfter(Flatten(records), trackRanges)
  {
    var n := |results| - 1;
    if n == 0 {
      assert Flatten(records) == Flatten(records[..0]) + records[0];
      assert Flatten(records[..0]) == [];
      assert [] + records[0] == records[0];
    } else if n > 0 {
      CombineRanges(results[..n], records[..n], trackRanges);
      if trackRanges {
        MergeRangesAfter(Flatten(records[..n]), records[n]);
      } else {
        RangesAfterCover(Flatten(records[..n]), false);
        RangesAfterCover(Flatten(records), false);
      }
    }
  }

  /** The combined state: the table holds in every cell the sum of the
      results' counts and is numbered densely by `ec_idx`; `ec_totals`
      holds every class's total and `cr_totals` every cell barcode's total
      over all results; all three add up to the same grand total; `CRS`
      lists the distinct cell barcodes in order of first appearance; the
      alignment counts are the sums of the results'. */
  lemma CombineSpec(results: seq<ConvertResults>, trackRanges: bool)
    requires AllOk(results)
    ensures var c := CombineAll(results, trackRanges);
      && c.init == (|results| > 0)
      && ClassesOk(c.ec) && IndexesKeys(c.ecIdx, c.ec.keys) && TotalsOk(c.totals)
      && c.validAlignments == ValidAcross(results) && c.allAlignments == AllAcross(results)
      && (forall e, cell :: Cell(c.ec, e, cell) == CellAcross(results, e, cell))
      && (forall e :: RowTotal(c.ec, e) == RowAcross(results, e) == Get(c.totals.ecTotals, e, 0))
      && (forall cell :: Get(c.totals.crTotals, cell, 0) == ColumnAcross(results, cell))
      && GrandTotal(c.ec) == Total(c.totals.crTotals) == Total(c.totals.ecTotals) == GrandAcross(results)
      && c.crs.Valid() && c.crs.keys == Distinct(CellsAcross(results)) && IndexesKeys(c.crs.vals, c.crs.keys)
  {
    var c := CombineAll(results, trackRanges);
    forall e, cell ensures Cell(c.ec, e, cell) == CellAcross(results, e, cell) {
      ClassesCell(results, e, cell);
    }
    forall e ensures RowTotal(c.ec, e) == RowAcross(results, e) == Get(c.totals.ecTotals, e, 0) {
      ClassesRow(results, e);
      TotalsClass(results, e);
    }
    forall cell ensures Get(c.totals.crTotals, cell, 0) == ColumnAcross(results, cell) {
      TotalsCell(results, cell);
    }
    ClassesGrand(results);
    TotalsGrand(results);
    CrsKeys(results);
  }

  // ---------------------------------------------------------------------
  // One result at a time

  lemma {:induction false} FoldClassesAppend(ec: Classes, idx: map<Bytes, int>, a: seq<Entry>, b: seq<Entry>)
    ensures FoldClasses(ec, idx, a + b) == FoldClasses(FoldClasses(ec, idx, a).0, FoldClasses(ec, idx, a).1, b)
    decreases |b|
  {
    if |b| == 0 {
      assert a + b == a;
    } else {
      FoldClassesAppend(ec, idx, a, b[..|b| - 1]);
      InitOfAppend(a, b);
    }
  }

  lemma {:induction false} FoldTotalsAppend(t: Totals, a: seq<Entry>, b: seq<Entry>)
    ensures FoldTotals(t, a + b) == FoldTotals(FoldTotals(t, a), b)
    decreases |b|
  {
    if |b| == 0 {
      assert a + b == a;
    } else {
      FoldTotalsAppend(t, a, b[..|b| - 1]);
      InitOfAppend(a, b);
    }
  }

  lemma {:induction false} RegisterCellsAppend(crs: OMap<Bytes, int>, a: seq<Entry>, b: seq<Entry>)
    ensures RegisterCells(crs, a + b) == RegisterCells(RegisterCells(crs, a), b)
    decreases |b|
  {
    if |b| == 0 {
      assert a + b == a;
    } else {
      RegisterCellsAppend(crs, a, b[..|b| - 1]);
      InitOfAppend(a, b);
    }
  }

  /** The state after the first result (`if not final.init`). */
  function AbsorbFirst(r: ConvertResults): Combined
  {
    Combined(true, r.validAlignments, r.allAlignments, r.ec, IndexFrom(map[], r.ec.keys), r.uniqueReads,
             r.tidRanges, RegisterCells(Empty(), Entries(r.ec)), FoldTotals(Totals(Empty(), Empty()), Entries(r.ec)))
  }

  /** The state after a later result (the `else` branch). */
  function AbsorbLater(c: Combined, r: ConvertResults, trackRanges: bool): Combined
  {
    var es := Entries(r.ec);
    var classes := FoldClasses(c.ec, c.ecIdx, es);
    Combined(true, c.validAlignments + r.validAlignments, c.allAlignments + r.allAlignments,
             classes.0, classes.1, c.uniqueReads,
             if trackRanges then MergeRanges(c.tidRanges, r.tidRanges) else c.tidRanges,
             RegisterCells(c.crs, es), FoldTotals(c.totals, es))
  }

  /** Combining one result is taking it whole. */
  lemma CombineFirst(results: seq<ConvertResults>, trackRanges: bool)
    requires |results| > 0
    ensures CombineAll(results[..1], trackRanges) == AbsorbFirst(results[0])
  {
    var one := results[..1];
    var r := results[0];
    assert one[0] == r && one[1..] == [] && one[..0] == [];
    assert ValidAcross(one) == r.validAlignments;
    assert AllAcross(one) == r.allAlignments;
    assert AllEntries(one) == Entries(r.ec) + [];
    assert Entries(r.ec) + [] == Entries(r.ec);
    assert ClassesAfter(one) == (r.ec, IndexFrom(map[], r.ec.keys));
    assert CrsAfter(one) == RegisterCells(Empty(), Entries(r.ec));
    assert TotalsAfter(one) == FoldTotals(Totals(Empty(), Empty()), Entries(r.ec));
  }

  lemma NextClasses(results: seq<ConvertResults>, i: nat)
    requires 1 <= i < |results|
    ensures var prev := ClassesAfter(results[..i]);
      ClassesAfter(results[..i + 1]) == FoldClasses(prev.0, prev.1, Entries(results[i].ec))
  {
    var first := results[0].ec;
    var idx := IndexFrom(map[], first.keys);
    assert results[..i + 1][0] == results[..i][0] == results[0];
    AllEntriesSnoc(results[1..], i - 1);
    assert results[..i + 1][1..] == results[1..][..i];
    assert results[..i][1..] == results[1..][..i - 1];
    FoldClassesAppend(first, idx, AllEntries(results[..i][1..]), Entries(results[i].ec));
  }

  lemma NextTotals(results: seq<ConvertResults>, i: nat)
    requires i < |results|
    ensures TotalsAfter(results[..i + 1]) == FoldTotals(TotalsAfter(results[..i]), Entries(results[i].ec))
  {
    AllEntriesSnoc(results, i);
    FoldTotalsAppend(Totals(Empty(), Empty()), AllEntries(results[..i]), Entries(results[i].ec));
  }

  /** Combining one result more is the `else` branch applied to the state
      before it. */
  lemma CombineNext(results: seq<ConvertResults>, i: nat, trackRanges: bool)
    requires 1 <= i < |results|
    ensures CombineAll(results[..i + 1], trackRanges) == AbsorbLater(CombineAll(results[..i], trackRanges), results[i], trackRanges)
  {
    var xs, ys, r := results[..i], results[..i + 1], results[i];
    var es := Entries(r.ec);
    var classes := ClassesAfter(ys);
    assert classes == FoldClasses(ClassesAfter(xs).0, ClassesAfter(xs).1, es) by { NextClasses(results, i); }
    assert TotalsAfter(ys) == FoldTotals(TotalsAfter(xs), es) by { NextTotals(results, i); }
    assert CrsAfter(ys) == RegisterCells(CrsAfter(xs), es) by { NextCrs(results, i); }
    NextOthers(results, i, trackRanges);
  }

  lemma NextCrs(results: seq<ConvertResults>, i: nat)
    requires i < |results|
    ensures CrsAfter(results[..i + 1]) == RegisterCells(CrsAfter(results[..i]), Entries(results[i].ec))
  {
    AllEntriesSnoc(results, i);
    RegisterCellsAppend(Empty(), AllEntries(results[..i]), Entries(results[i].ec));
  }

  lemma NextOthers(results: seq<ConvertResults>, i: nat, trackRanges: bool)
    requires 1 <= i < |results|
    ensures var xs, ys, r := results[..i], results[..i + 1], results[i];
      && ValidAcross(ys) == ValidAcross(xs) + r.validAlignments
      && AllAcross(ys) == AllAcross(xs) + r.allAlignments
      && ys[0] == xs[0]
      && RangesAfterAll(ys, trackRanges) ==
           if trackRanges then MergeRanges(RangesAfterAll(xs, trackRanges), r.tidRanges) else RangesAfterAll(xs, trackRanges)
  {
    assert results[..i + 1][..i] == results[..i];
  }

  lemma RowEntriesPrefix(key: Bytes, row: CellCounts, j: nat)
    requires j < |row.keys|
    ensures RowEntries(key, row)[..j + 1] == RowEntries(key, row)[..j] + [Entry(key, row.keys[j], Get(row, row.keys[j], 0))]
  {
  }

  lemma FoldClassesSnoc(ec: Classes, idx: map<Bytes, int>, es: seq<Entry>, x: Entry)
    ensures FoldClasses(ec, idx, es + [x]) == AddEntry(FoldClasses(ec, idx, es).0, FoldClasses(ec, idx, es).1, x)
  {
    assert (es + [x])[..|es|] == es;
  }

  lemma FoldTotalsSnoc(t: Totals, es: seq<Entry>, x: Entry)
    ensures FoldTotals(t, es + [x]) == AddTotals(FoldTotals(t, es), x)
  {
    assert (es + [x])[..|es|] == es;
  }

  lemma RegisterCellsSnoc(crs: OMap<Bytes, int>, es: seq<Entry>, x: Entry)
    ensures var prev := RegisterCells(crs, es);
      RegisterCells(crs, es + [x]) == if x.cell in prev.vals then prev else Put(prev, x.cell, |prev.keys|)
  {
    assert (es + [x])[..|es|] == es;
  }

  /** The three branches of `final.ec[eckey][crkey] += count`. */
  lemma AddEntryCases(ec: Classes, idx: map<Bytes, int>, x: Entry)
    ensures x.key in ec.vals && x.cell in ec.vals[x.key].vals ==>
      AddEntry(ec, idx, x) == (Put(ec, x.key, Put(ec.vals[x.key], x.cell, ec.vals[x.key].vals[x.cell] + x.count)), idx)
    ensures x.key in ec.vals && x.cell !in ec.vals[x.key].vals ==>
      AddEntry(ec, idx, x) == (Put(ec, x.key, Put(ec.vals[x.key], x.cell, x.count)), idx)
    ensures x.key !in ec.vals ==>
      AddEntry(ec, idx, x) == (Put(ec, x.key, Put(Empty(), x.cell, x.count)), idx[x.key := |idx|])
  {
  }

  /** `final.ec[eckey][crkey] += count` for a later result; a new class
      gets `{crkey: count}` and the next index in `ec_idx`. */
  method AddCount(ec: Classes, ecIdx: map<Bytes, int>, eckey: Bytes, crkey: Bytes, count: int)
    returns (ec': Classes, ecIdx': map<Bytes, int>)
    ensures (ec', ecIdx') == AddEntry(ec, ecIdx, Entry(eckey, crkey, count))
  {
    AddEntryCases(ec, ecIdx, Entry(eckey, crkey, count));
    ecIdx' := ecIdx;
    if eckey in ec.vals {
      var row := ec.vals[eckey];
      if crkey in row.vals {
        ec' := Put(ec, eckey, Put(row, crkey, row.vals[crkey] + count));
      } else {
        ec' := Put(ec, eckey, Put(row, crkey, count));
      }
    } else {
      ecIdx' := ecIdx[eckey := |ecIdx|];
      ec' := Put(ec, eckey, Put(Empty(), crkey, count));
    }
  }

  /** The cells of one class of a later result: the numbering in `CRS`
      (see the findings: as intended, not `CRS[crkey] = 1`), the
      totals and `final.ec[eckey][crkey] += count` (a new class getting
      `{crkey: count}` and the next index in `ec_idx`). */
  method AddRow(ec: Classes, ecIdx: map<Bytes, int>, crs: OMap<Bytes, int>, totals: Totals,
                eckey: Bytes, crdict: CellCounts)
    returns (ec': Classes, ecIdx': map<Bytes, int>, crs': OMap<Bytes, int>, totals': Totals)
    ensures (ec', ecIdx') == FoldClasses(ec, ecIdx, RowEntries(eckey, crdict))
    ensures crs' == RegisterCells(crs, RowEntries(eckey, crdict))
    ensures totals' == FoldTotals(totals, RowEntries(eckey, crdict))
  {
    ec', ecIdx', crs', totals' := ec, ecIdx, crs, totals;
    ghost var done: seq<Entry> := [];
    var j := 0;
    while j < |crdict.keys|
      invariant 0 <= j <= |crdict.keys|
      invariant done == RowEntries(eckey, crdict)[..j]
      invariant (ec', ecIdx') == FoldClasses(ec, ecIdx, done)
      invariant crs' == RegisterCells(crs, done)
      invariant totals' == FoldTotals(totals, done)
    {
      var crkey := crdict.keys[j];
      var count := Get(crdict, crkey, 0);
      ghost var x := Entry(eckey, crkey, count);
      RowEntriesPrefix(eckey, crdict, j);
      FoldClassesSnoc(ec, ecIdx, done, x);
      RegisterCellsSnoc(crs, done, x);
      FoldTotalsSnoc(totals, done, x);
      if crkey !in crs'.vals {
        crs' := Put(crs', crkey, |crs'.keys|);
      }
      totals' := Totals(Bump(totals'.crTotals, crkey, count), Bump(totals'.ecTotals, eckey, count));
      ec', ecIdx' := AddCount(ec', ecIdx', eckey, crkey, count);
      done := done + [x];
      j := j + 1;
    }
    assert RowEntries(eckey, crdict)[..j] == RowEntries(eckey, crdict);
  }

  /** The classes listed up to `k + 1` are those up to `k` and the row
      of class `k`. */
  lemma EntriesOfNext(ec: Classes, keys: seq<Bytes>, k: nat)
    requires k < |keys|
    ensures EntriesOf(ec, keys[..k + 1]) == EntriesOf(ec, keys[..k]) + RowEntries(keys[k], Get(ec, keys[k], Empty()))
  {
    assert keys[..k + 1][..k] == keys[..k];
  }

  /** The nested loops over the classes of a later result. */
  method AddClasses(ec0: Classes, ecIdx0: map<Bytes, int>, crs0: OMap<Bytes, int>, totals0: Totals, more: Classes)
    returns (ec: Classes, ecIdx: map<Bytes, int>, crs: OMap<Bytes, int>, totals: Totals)
    ensures (ec, ecIdx) == FoldClasses(ec0, ecIdx0, Entries(more))
    ensures crs == RegisterCells(crs0, Entries(more))
    ensures totals == FoldTotals(totals0, Entries(more))
  {
    ec, ecIdx, crs, totals := ec0, ecIdx0, crs0, totals0;
    ghost var done: seq<Entry> := [];
    var k := 0;
    while k < |more.keys|
      invariant 0 <= k <= |more.keys|
      invariant done == EntriesOf(more, more.keys[..k])
      invariant (ec, ecIdx) == FoldClasses(ec0, ecIdx0, done)
      invariant crs == RegisterCells(crs0, done)
      invariant totals == FoldTotals(totals0, done)
    {
      var eckey := more.keys[k];
      var crdict := Get(more, eckey, Empty());
      ghost var row := RowEntries(eckey, crdict);
      ec, ecIdx, crs, totals := AddRow(ec, ecIdx, crs, totals, eckey, crdict);
      EntriesOfNext(more, more.keys, k);
      FoldClassesAppend(ec0, ecIdx0, done, row);
      RegisterCellsAppend(crs0, done, row);
      FoldTotalsAppend(totals0, done, row);
      done := done + row;
      k := k + 1;
    }
    assert more.keys[..k] == more.keys;
  }

  /** The `else` branch for one later result. */
  method AddResult(c: Combined, r: ConvertResults, trackRanges: bool) returns (c': Combined)
    ensures c' == AbsorbLater(c, r, trackRanges)
  {
    var ec, ecIdx, crs, totals := AddClasses(c.ec, c.ecIdx, c.crs, c.totals, r.ec);
    var ranges := c.tidRanges;
    if trackRanges {
      ranges := MergeRangesLoop(c.tidRanges, r.tidRanges);
    }
    c' := Combined(true, c.validAlignments + r.validAlignments, c.allAlignments + r.allAlignments,
                   ec, ecIdx, c.uniqueReads, ranges, crs, totals);
    AbsorbLaterParts(c, r, trackRanges, c');
  }

  /** A combined state whose fields are those of `AbsorbLater` is it. */
  lemma AbsorbLaterParts(c: Combined, r: ConvertResults, trackRanges: bool, c': Combined)
    requires c'.init && c'.validAlignments == c.validAlignments + r.validAlignments
    requires c'.allAlignments == c.allAlignments + r.allAlignments
    requires (c'.ec, c'.ecIdx) == FoldClasses(c.ec, c.ecIdx, Entries(r.ec))
    requires c'.uniqueReads == c.uniqueReads
    requires c'.tidRanges == if trackRanges then MergeRanges(c.tidRanges, r.tidRanges) else c.tidRanges
    requires c'.crs == RegisterCells(c.crs, Entries(r.ec))
    requires c'.totals == FoldTotals(c.totals, Entries(r.ec))
    ensures c' == AbsorbLater(c, r, trackRanges)
  {
  }

  /** Taking in one more of the result's ranges. */
  lemma MergeRangesAdd(acc: map<Bytes, (int, int)>, part: map<Bytes, (int, int)>, k: Bytes, v: (int, int))
    requires k !in part
    ensures k in MergeRanges(acc, part) <==> k in acc
    ensures k in acc ==> MergeRanges(acc, part)[k] == acc[k]
    ensures MergeRanges(acc, part[k := v]) ==
      MergeRanges(acc, part)[k := if k in acc then MergeRange(acc[k], v) else v]
  {
    var lhs := MergeRanges(acc, part[k := v]);
    var rhs := MergeRanges(acc, part)[k := if k in acc then MergeRange(acc[k], v) else v];
    assert lhs.Keys == rhs.Keys;
  }

  /** `for k, v in result.tid_ranges.iteritems()`, in whatever order the
      dictionary yields its keys. */
  method MergeRangesLoop(acc: map<Bytes, (int, int)>, more: map<Bytes, (int, int)>) returns (r: map<Bytes, (int, int)>)
    ensures r == MergeRanges(acc, more)
  {
    r := acc;
    var todo := more.Keys;
    ghost var seen: map<Bytes, (int, int)> := map[];
    assert MergeRanges(acc, map[]) == acc;
    while todo != {}
      invariant todo <= more.Keys
      invariant seen.Keys == more.Keys - todo
      invariant forall k :: k in seen ==> seen[k] == more[k]
      invariant r == MergeRanges(acc, seen)
      decreases |todo|
    {
      var k :| k in todo;
      var v := more[k];
      MergeRangesAdd(acc, seen, k, v);
      if k in r {
        var n := r[k].0;
        var x := r[k].1;
        r := r[k := (if v.0 < n then v.0 else n, if v.1 > x then v.1 else x)];
      } else {
        r := r[k := v];
      }
      seen := seen[k := v];
      todo := todo - {k};
    }
    assert seen == more;
  }

  /** The `if not final.init` branch: the first result taken whole, its
      classes numbered in `ec_idx`, its cell barcodes in `CRS` and its
      counts added to the totals. (`final.ec` becomes a copy of its table
      with the same contents.) */
  method TakeFirst(r: ConvertResults) returns (c: Combined)
    ensures c == AbsorbFirst(r)
  {
    var ecIdx, crs, totals := NumberClasses(r.ec);
    c := Combined(true, r.validAlignments, r.allAlignments, r.ec, ecIdx, r.uniqueReads, r.tidRanges, crs, totals);
  }

  /** Numbering the first `k + 1` keys numbers the first `k`, then key `k`. */
  lemma IndexFromNext(keys: seq<Bytes>, k: nat)
    requires k < |keys|
    ensures IndexFrom(map[], keys[..k + 1]) == IndexFrom(map[], keys[..k])[keys[k] := |IndexFrom(map[], keys[..k])|]
  {
    assert keys[..k + 1][..k] == keys[..k];
  }

  /** The loop over the classes of the first result: each class gets the
      next index, its cells are numbered and its counts added to the
      totals. */
  method NumberClasses(ec: Classes) returns (ecIdx: map<Bytes, int>, crs: OMap<Bytes, int>, totals: Totals)
    ensures ecIdx == IndexFrom(map[], ec.keys)
    ensures crs == RegisterCells(Empty(), Entries(ec))
    ensures totals == FoldTotals(Totals(Empty(), Empty()), Entries(ec))
  {
    ecIdx := map[];
    crs := Empty();
    totals := Totals(Empty(), Empty());
    ghost var done: seq<Entry> := [];
    var k := 0;
    while k < |ec.keys|
      invariant 0 <= k <= |ec.keys|
      invariant done == EntriesOf(ec, ec.keys[..k])
      invariant ecIdx == IndexFrom(map[], ec.keys[..k])
      invariant crs == RegisterCells(Empty(), done)
      invariant totals == FoldTotals(Totals(Empty(), Empty()), done)
    {
      var eckey := ec.keys[k];
      var crdict := Get(ec, eckey, Empty());
      ghost var row := RowEntries(eckey, crdict);
      IndexFromNext(ec.keys, k);
      ecIdx := ecIdx[eckey := |ecIdx|];
      crs, totals := RegisterRow(crs, totals, eckey, crdict);
      EntriesOfNext(ec, ec.keys, k);
      RegisterCellsAppend(Empty(), done, row);
      FoldTotalsAppend(Totals(Empty(), Empty()), done, row);
      done := done + row;
      k := k + 1;
    }
    assert ec.keys[..k] == ec.keys;
  }

  /** The cells of one class of the first result: `if crkey not in CRS:
      CRS[crkey] = len(CRS)` and the totals. */
  method RegisterRow(crs: OMap<Bytes, int>, totals: Totals, eckey: Bytes, crdict: CellCounts)
    returns (crs': OMap<Bytes, int>, totals': Totals)
    ensures crs' == RegisterCells(crs, RowEntries(eckey, crdict))
    ensures totals' == FoldTotals(totals, RowEntries(eckey, crdict))
  {
    crs', totals' := crs, totals;
    ghost var done: seq<Entry> := [];
    var j := 0;
    while j < |crdict.keys|
      invariant 0 <= j <= |crdict.keys|
      invariant done == RowEntries(eckey, crdict)[..j]
      invariant crs' == RegisterCells(crs, done)
      invariant totals' == FoldTotals(totals, done)
    {
      var crkey := crdict.keys[j];
      var count := Get(crdict, crkey, 0);
      ghost var x := Entry(eckey, crkey, count);
      RowEntriesPrefix(eckey, crdict, j);
      RegisterCellsSnoc(crs, done, x);
      FoldTotalsSnoc(totals, done, x);
      if crkey !in crs'.vals {
        crs' := Put(crs', crkey, |crs'.keys|);
      }
      totals' := Totals(Bump(totals'.crTotals, crkey, count), Bump(totals'.ecTotals, eckey, count));
      done := done + [x];
      j := j + 1;
    }
    assert RowEntries(eckey, crdict)[..j] == RowEntries(eckey, crdict);
  }

  /** Before any result: `final` as initialised. */
  lemma CombineNone(results: seq<ConvertResults>, trackRanges: bool)
    ensures CombineAll(results[..0], trackRanges) ==
      Combined(false, 0, 0, Empty(), map[], Empty(), map[], Empty(), Totals(Empty(), Empty()))
  {
    assert results[..0] == [];
  }

  /** One turn of the combining loop: the first result taken whole, a
      later one added in. */
  method Absorb(c: Combined, results: seq<ConvertResults>, i: nat, trackRanges: bool) returns (c': Combined)
    requires i < |results|
    requires c == CombineAll(results[..i], trackRanges) && c.init == (i > 0)
    ensures c' == CombineAll(results[..i + 1], trackRanges) && c'.init
  {
    if !c.init {
      CombineFirst(results, trackRanges);
      c' := TakeFirst(results[i]);
    } else {
      CombineNext(results, i, trackRanges);
      c' := AddResult(c, results[i], trackRanges);
    }
  }

  /** The combining loop of `convert`: every worker's result in the order
      the workers were started. */
  method CombineResults(results: seq<ConvertResults>, trackRanges: bool) returns (c: Combined)
    ensures c == CombineAll(results, trackRanges)
  {
    c := Combined(false, 0, 0, Empty(), map[], Empty(), map[], Empty(), Totals(Empty(), Empty()));
    CombineNone(results, trackRanges);
    var i := 0;
    while i < |results|
      invariant 0 <= i <= |results|
      invariant c == CombineAll(results[..i], trackRanges)
      invariant c.init == (i > 0)
    {
      c := Absorb(c, results, i, trackRanges);
      i := i + 1;
    }
    assert results[..i] == results;
  }
}

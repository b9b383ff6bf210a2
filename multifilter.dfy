/** What `convert` does with the combined table before writing it: the
    largest class index it logs (which fails on an empty index), and, with
    a positive minimum count, the filter that keeps only the cell barcodes
    whose total reaches it. */
module MultiFilter {
  import opened Wrappers
  import opened ByteStrings
  import opened OrderedMaps
  import opened MultiSample

  datatype FinishError =
    | NoClasses              // `max()` of the values of an empty `ec_idx`
    | UnknownCell(cell: Bytes)  // a cell barcode of the table missing from `CRS`

  // ---------------------------------------------------------------------
  // max(ec_idx.values())

  /** `max(ec_idx.values())`: the largest value, or the error `max()`
      raises on an empty index. */
  method MaxIndex(idx: map<Bytes, int>) returns (r: Result<int, FinishError>)
    ensures r.Failure? <==> idx == map[]
    ensures r.Failure? ==> r.error == NoClasses
    ensures r.Success? ==> r.value in idx.Values && forall k :: k in idx ==> idx[k] <= r.value
  {
    if idx == map[] {
      return Failure(NoClasses);
    }
    var first :| first in idx;
    var best := idx[first];
    var todo := idx.Keys - {first};
    while todo != {}
      invariant todo <= idx.Keys
      invariant best in idx.Values
      invariant forall k :: k in idx && k !in todo ==> idx[k] <= best
      decreases |todo|
    {
      var k :| k in todo;
      if idx[k] > best {
        best := idx[k];
      }
      todo := todo - {k};
    }
    r := Success(best);
  }

  /** For a dense index of `n` classes the largest value is `n - 1`. */
  lemma DenseMax(idx: map<Bytes, int>, keys: seq<Bytes>, m: int)
    requires IndexesKeys(idx, keys)
    requires m in idx.Values && forall k :: k in idx ==> idx[k] <= m
    ensures m == |keys| - 1
  {
    IndexesKeysDense(idx, keys);
    assert keys[|keys| - 1] in idx;
    assert idx[keys[|keys| - 1]] == |keys| - 1;
  }

  // ---------------------------------------------------------------------
  // The new CRS

  /** The cell barcodes among `keys` whose total reaches `minimumCount`,
      in order. */
  function Reaching(crTotals: OMap<Bytes, int>, keys: seq<Bytes>, minimumCount: int): (r: seq<Bytes>)
    ensures forall c :: c in r <==> c in keys && Get(crTotals, c, 0) >= minimumCount
  {
    if |keys| == 0 then []
    else
      var last := keys[|keys| - 1];
      assert forall c :: c in keys <==> c in keys[..|keys| - 1] || c == last by {
        assert keys == keys[..|keys| - 1] + [last];
      }
      Reaching(crTotals, keys[..|keys| - 1], minimumCount) + if Get(crTotals, last, 0) >= minimumCount then [last] else []
  }

  /** `for CR, CR_total in cr_totals.iteritems(): if CR_total >=
      minimum_count: if CR not in CRS: CRS[CR] = len(CRS)`: the cell
      barcodes whose total reaches the minimum, numbered 0, 1, 2, ... in
      the order of `cr_totals`. */
  method KeepCells(crTotals: OMap<Bytes, int>, minimumCount: int) returns (crs: OMap<Bytes, int>)
    requires crTotals.Valid()
    ensures crs.Valid() && crs.keys == Reaching(crTotals, crTotals.keys, minimumCount)
    ensures IndexesKeys(crs.vals, crs.keys)
    ensures forall c :: c in crs.vals <==> c in crTotals.vals && crTotals.vals[c] >= minimumCount
  {
    crs := Empty();
    var i := 0;
    while i < |crTotals.keys|
      invariant 0 <= i <= |crTotals.keys|
      invariant crs.Valid() && crs.keys == Reaching(crTotals, crTotals.keys[..i], minimumCount)
      invariant IndexesKeys(crs.vals, crs.keys)
    {
      var cr := crTotals.keys[i];
      var total := crTotals.vals[cr];
      assert crTotals.keys[..i + 1][..i] == crTotals.keys[..i];
      assert cr !in crTotals.keys[..i];
      if total >= minimumCount && cr !in crs.vals {
        IndexesKeysAppend(crs.vals, crs.keys, cr);
        crs := Put(crs, cr, |crs.keys|);
      }
      i := i + 1;
    }
    assert crTotals.keys[..i] == crTotals.keys;
  }

  // ---------------------------------------------------------------------
  // The classes restricted to the kept cell barcodes

  /** `ec = {}; for crkey, crcount in crs.iteritems(): if crkey in CRS:
      ec[crkey] = crs[crkey]` over the listed cells of a row. */
  function Restrict(row: CellCounts, keys: seq<Bytes>, crs: OMap<Bytes, int>): CellCounts
  {
    if |keys| == 0 then Empty()
    else
      var prev := Restrict(row, keys[..|keys| - 1], crs);
      var c := keys[|keys| - 1];
      if c in crs.vals then Put(prev, c, Get(row, c, 0)) else prev
  }

  /** A restricted row keeps exactly the kept cells of the row, with their
      counts. */
  lemma {:induction false} RestrictSpec(row: CellCounts, keys: seq<Bytes>, crs: OMap<Bytes, int>)
    ensures Restrict(row, keys, crs).Valid()
    ensures forall c :: c in Restrict(row, keys, crs).vals <==> c in keys && c in crs.vals
    ensures forall c :: c in Restrict(row, keys, crs).vals ==> Restrict(row, keys, crs).vals[c] == Get(row, c, 0)
  {
    if |keys| > 0 {
      var init := keys[..|keys| - 1];
      RestrictSpec(row, init, crs);
      assert keys == init + [keys[|keys| - 1]];
    }
  }

  /** Whether a row holds a count of a kept cell barcode. */
  predicate HasKept(row: CellCounts, crs: OMap<Bytes, int>)
  {
    exists c :: c in row.keys && c in crs.vals
  }

  /** The filtered classes and their new index: a class whose restricted
      row is empty is dropped, the others are numbered again in order. */
  function FilterClasses(ec: Classes, keys: seq<Bytes>, crs: OMap<Bytes, int>): (Classes, map<Bytes, int>)
  {
    if |keys| == 0 then (Empty(), map[])
    else
      var prev := FilterClasses(ec, keys[..|keys| - 1], crs);
      var e := keys[|keys| - 1];
      var row := Get(ec, e, Empty());
      var kept := Restrict(row, row.keys, crs);
      if |kept.keys| > 0 then (Put(prev.0, e, kept), prev.1[e := |prev.1|]) else prev
  }

  /** One more class is kept, renumbered after the earlier ones, exactly
      when its restricted row is not empty. */
  lemma FilterClassesNext(ec: Classes, keys: seq<Bytes>, k: int, crs: OMap<Bytes, int>)
    requires 0 <= k < |keys|
    ensures var prev := FilterClasses(ec, keys[..k], crs);
      var row := Get(ec, keys[k], Empty());
      var kept := Restrict(row, row.keys, crs);
      FilterClasses(ec, keys[..k + 1], crs)
        == if |kept.keys| > 0 then (Put(prev.0, keys[k], kept), prev.1[keys[k] := |prev.1|]) else prev
  {
    assert keys[..k + 1][..k] == keys[..k];
  }

  /** A restricted row is empty exactly when the row holds no kept cell. */
  lemma RestrictEmpty(row: CellCounts, crs: OMap<Bytes, int>)
    ensures |Restrict(row, row.keys, crs).keys| > 0 <==> HasKept(row, crs)
  {
    var kept := Restrict(row, row.keys, crs);
    RestrictSpec(row, row.keys, crs);
    if HasKept(row, crs) {
      var c :| c in row.keys && c in crs.vals;
      assert c in kept.vals;
      assert c in kept.keys;
    }
    if |kept.keys| > 0 {
      assert kept.keys[0] in kept.vals;
      assert kept.keys[0] in row.keys;
    }
  }

  /** The classes among `keys` that hold a kept cell barcode, in order. */
  function ClassesKept(ec: Classes, keys: seq<Bytes>, crs: OMap<Bytes, int>): seq<Bytes>
  {
    if |keys| == 0 then []
    else
      var e := keys[|keys| - 1];
      ClassesKept(ec, keys[..|keys| - 1], crs) + if HasKept(Get(ec, e, Empty()), crs) then [e] else []
  }

  /** The filter keeps the classes holding a kept cell barcode, in their
      order, numbered densely. */
  lemma {:induction false} FilterShape(ec: Classes, keys: seq<Bytes>, crs: OMap<Bytes, int>)
    requires ClassesOk(ec)
    requires forall i, j :: 0 <= i < j < |keys| ==> keys[i] != keys[j]
    ensures var r := FilterClasses(ec, keys, crs);
      && ClassesOk(r.0) && IndexesKeys(r.1, r.0.keys)
      && (forall e :: e in r.0.vals <==> e in keys && HasKept(Get(ec, e, Empty()), crs))
  {
    if |keys| > 0 {
      var init := keys[..|keys| - 1];
      var e := keys[|keys| - 1];
      FilterShape(ec, init, crs);
      assert keys == init + [e];
      var prev := FilterClasses(ec, init, crs);
      var row := Get(ec, e, Empty());
      var kept := Restrict(row, row.keys, crs);
      RestrictSpec(row, row.keys, crs);
      RestrictEmpty(row, crs);
      assert e !in prev.0.vals;
      if |kept.keys| > 0 {
        IndexesKeysSize(prev.1, prev.0.keys);
        IndexesKeysAppend(prev.1, prev.0.keys, e);
        assert Put(prev.0, e, kept).keys == prev.0.keys + [e];
      }
    }
  }

  /** The kept classes stay in their order. */
  lemma {:induction false} FilterKeys(ec: Classes, keys: seq<Bytes>, crs: OMap<Bytes, int>)
    requires ClassesOk(ec)
    requires forall i, j :: 0 <= i < j < |keys| ==> keys[i] != keys[j]
    ensures FilterClasses(ec, keys, crs).0.keys == ClassesKept(ec, keys, crs)
  {
    if |keys| > 0 {
      var init := keys[..|keys| - 1];
      var e := keys[|keys| - 1];
      FilterKeys(ec, init, crs);
      FilterShape(ec, init, crs);
      assert keys == init + [e];
      var prev := FilterClasses(ec, init, crs);
      var row := Get(ec, e, Empty());
      RestrictEmpty(row, crs);
      assert e !in prev.0.vals;
    }
  }

  /** Every count of a kept cell barcode stays, every other is gone. */
  lemma {:induction false} FilterCell(ec: Classes, keys: seq<Bytes>, crs: OMap<Bytes, int>, e: Bytes, c: Bytes)
    requires ClassesOk(ec)
    requires forall i, j :: 0 <= i < j < |keys| ==> keys[i] != keys[j]
    ensures Cell(FilterClasses(ec, keys, crs).0, e, c) == if e in keys && c in crs.vals then Cell(ec, e, c) else 0
  {
    if |keys| > 0 {
      var init := keys[..|keys| - 1];
      var last := keys[|keys| - 1];
      FilterCell(ec, init, crs, e, c);
      assert keys == init + [last];
      if e == last {
        var row := Get(ec, e, Empty());
        RestrictSpec(row, row.keys, crs);
        assert row.Valid();
        assert last !in init;
      }
    }
  }

  /** Each kept class holds its row restricted to the kept barcodes. */
  lemma {:induction false} FilterRows(ec: Classes, keys: seq<Bytes>, crs: OMap<Bytes, int>)
    ensures var r := FilterClasses(ec, keys, crs).0;
      forall e :: e in r.vals ==> r.vals[e] == Restrict(Get(ec, e, Empty()), Get(ec, e, Empty()).keys, crs)
  {
    if |keys| > 0 {
      FilterRows(ec, keys[..|keys| - 1], crs);
    }
  }

  /** Both halves of the filter's contract together. */
  lemma FilterSpec(ec: Classes, crs: OMap<Bytes, int>)
    requires ClassesOk(ec)
    ensures var r := FilterClasses(ec, ec.keys, crs);
      && ClassesOk(r.0) && IndexesKeys(r.1, r.0.keys)
      && r.0.keys == ClassesKept(ec, ec.keys, crs)
      && (forall e :: e in r.0.vals <==> e in ec.vals && HasKept(ec.vals[e], crs))
      && (forall e, c :: Cell(r.0, e, c) == if c in crs.vals then Cell(ec, e, c) else 0)
  {
    FilterShape(ec, ec.keys, crs);
    FilterKeys(ec, ec.keys, crs);
    forall e, c ensures Cell(FilterClasses(ec, ec.keys, crs).0, e, c) == if c in crs.vals then Cell(ec, e, c) else 0 {
      FilterCell(ec, ec.keys, crs, e, c);
    }
  }

  /** The inner loop: one class's counts of the kept cell barcodes. */
  method RestrictRow(row: CellCounts, crs: OMap<Bytes, int>) returns (kept: CellCounts)
    ensures kept == Restrict(row, row.keys, crs)
  {
    kept := Empty();
    var j := 0;
    while j < |row.keys|
      invariant 0 <= j <= |row.keys|
      invariant kept == Restrict(row, row.keys[..j], crs)
    {
      var crkey := row.keys[j];
      assert row.keys[..j + 1][..j] == row.keys[..j];
      if crkey in crs.vals {
        kept := Put(kept, crkey, Get(row, crkey, 0));
      }
      j := j + 1;
    }
    assert row.keys[..j] == row.keys;
  }

  /** The filter with `minimum_count > 0`: the new `CRS`, the classes
      restricted to it with empty ones dropped, and the new `ec_idx`. */
  method FilterCells(ec: Classes, crTotals: OMap<Bytes, int>, minimumCount: int)
    returns (crs: OMap<Bytes, int>, ec': Classes, ecIdx': map<Bytes, int>)
    requires crTotals.Valid()
    ensures crs.Valid() && crs.keys == Reaching(crTotals, crTotals.keys, minimumCount)
    ensures IndexesKeys(crs.vals, crs.keys)
    ensures (ec', ecIdx') == FilterClasses(ec, ec.keys, crs)
  {
    crs := KeepCells(crTotals, minimumCount);
    ec', ecIdx' := FilterLoop(ec, crs);
  }

  /** The loop over `ec` of the filter: each class restricted to the kept
      cells, dropped when nothing is left. */
  method FilterLoop(ec: Classes, crs: OMap<Bytes, int>) returns (ec': Classes, ecIdx': map<Bytes, int>)
    ensures (ec', ecIdx') == FilterClasses(ec, ec.keys, crs)
  {
    ec' := Empty();
    ecIdx' := map[];
    var k := 0;
    while k < |ec.keys|
      invariant 0 <= k <= |ec.keys|
      invariant (ec', ecIdx') == FilterClasses(ec, ec.keys[..k], crs)
    {
      var eckey := ec.keys[k];
      FilterClassesNext(ec, ec.keys, k, crs);
      var kept := RestrictRow(Get(ec, eckey, Empty()), crs);
      if |kept.keys| > 0 {
        ec' := Put(ec', eckey, kept);
        ecIdx' := ecIdx'[eckey := |ecIdx'|];
      }
      k := k + 1;
    }
    assert ec.keys[..k] == ec.keys;
  }
}

/** The per-cell count matrix `convert` stores beside the alignment
    matrix: one row per equivalence class in class order, one column per
    cell barcode numbered by `CRS`, in compressed sparse row form
    (`indptr`, `indices`, `data`). */
module CountMatrix {
  import opened Wrappers
  import opened ByteStrings
  import opened OrderedMaps
  import opened MultiSample
  import opened MultiFilter

  /** The three arrays of `csr_matrix((data, indices, indptr))`; the
      matrix's shape is `(len(final.ec), len(CRS))`. */
  datatype Csr = Csr(indptr: seq<int>, indices: seq<int>, data: seq<int>)

  // ---------------------------------------------------------------------
  // One row: its cells sorted by column

  /** Every listed cell barcode has a column. */
  predicate AllIn(ks: seq<Bytes>, col: map<Bytes, int>)
  {
    forall i :: 0 <= i < |ks| ==> ks[i] in col
  }

  /** The first listed cell barcode without a column: the one on which
      computing the sort keys `CRS[i]` raises `KeyError`. */
  function Missing(ks: seq<Bytes>, col: map<Bytes, int>): (r: Option<Bytes>)
    ensures r.None? <==> AllIn(ks, col)
    ensures r.Some? ==> r.value in ks && r.value !in col
  {
    if |ks| == 0 then None
    else if ks[0] !in col then Some(ks[0])
    else
      var r := Missing(ks[1..], col);
      assert r.None? <==> AllIn(ks, col) by {
        if AllIn(ks[1..], col) {
          forall i | 0 <= i < |ks| ensures ks[i] in col {
            if i > 0 { assert ks[i] == ks[1..][i - 1]; }
          }
        }
        if AllIn(ks, col) {
          forall i | 0 <= i < |ks| - 1 ensures ks[1..][i] in col {
            assert ks[1..][i] == ks[i + 1];
          }
        }
      }
      r
  }

  /** The barcode `Missing` names is the first without a column. */
  lemma {:induction false} MissingFirst(ks: seq<Bytes>, col: map<Bytes, int>)
    requires Missing(ks, col).Some?
    ensures exists i :: 0 <= i < |ks| && ks[i] == Missing(ks, col).value && AllIn(ks[..i], col)
  {
    if ks[0] !in col {
      assert AllIn(ks[..0], col);
    } else {
      MissingFirst(ks[1..], col);
      var i :| 0 <= i < |ks| - 1 && ks[1..][i] == Missing(ks, col).value && AllIn(ks[1..][..i], col);
      var front := ks[..i + 1];
      forall j | 0 <= j < i + 1 ensures front[j] in col {
        if j > 0 { assert front[j] == ks[1..][..i][j - 1]; }
      }
    }
  }

  /** The cells are in nondecreasing column order. */
  ghost predicate Ascending(ks: seq<Bytes>, col: map<Bytes, int>)
  {
    forall i, j :: 0 <= i < j < |ks| && ks[i] in col && ks[j] in col ==> col[ks[i]] <= col[ks[j]]
  }

  /** Inserting one cell into a sorted run, after every cell with a column
      no greater than its own (so equal columns keep their order). */
  function InsertCell(k: Bytes, run: seq<Bytes>, col: map<Bytes, int>): (r: seq<Bytes>)
    requires k in col && AllIn(run, col)
    ensures |r| == |run| + 1 && AllIn(r, col)
  {
    if |run| == 0 then [k]
    else
      var n := |run| - 1;
      assert AllIn(run[..n], col);
      if col[run[n]] <= col[k] then run + [k]
      else InsertCell(k, run[..n], col) + [run[n]]
  }

  /** `sorted(ks, key=lambda i: CRS[i])`: a stable sort by column. */
  function SortCells(ks: seq<Bytes>, col: map<Bytes, int>): (r: seq<Bytes>)
    requires AllIn(ks, col)
    ensures |r| == |ks| && AllIn(r, col)
  {
    if |ks| == 0 then []
    else
      var n := |ks| - 1;
      assert AllIn(ks[..n], col);
      InsertCell(ks[n], SortCells(ks[..n], col), col)
  }

  /** Inserting adds exactly the one cell. */
  lemma {:induction false} InsertCellPerm(k: Bytes, run: seq<Bytes>, col: map<Bytes, int>)
    requires k in col && AllIn(run, col)
    ensures multiset(InsertCell(k, run, col)) == multiset(run) + multiset{k}
  {
    if |run| > 0 {
      var n := |run| - 1;
      assert run[..n] + [run[n]] == run;
      if col[run[n]] > col[k] {
        InsertCellPerm(k, run[..n], col);
      }
    }
  }

  /** Sorting neither adds nor drops a cell. */
  lemma {:induction false} SortCellsPerm(ks: seq<Bytes>, col: map<Bytes, int>)
    requires AllIn(ks, col)
    ensures multiset(SortCells(ks, col)) == multiset(ks)
  {
    if |ks| > 0 {
      var n := |ks| - 1;
      assert AllIn(ks[..n], col);
      SortCellsPerm(ks[..n], col);
      InsertCellPerm(ks[n], SortCells(ks[..n], col), col);
      assert ks[..n] + [ks[n]] == ks;
    }
  }

  lemma {:induction false} InsertCellAscending(k: Bytes, run: seq<Bytes>, col: map<Bytes, int>)
    requires k in col && AllIn(run, col) && Ascending(run, col)
    ensures Ascending(InsertCell(k, run, col), col)
  {
    if |run| > 0 {
      var n := |run| - 1;
      if col[run[n]] > col[k] {
        var front := InsertCell(k, run[..n], col);
        InsertCellAscending(k, run[..n], col);
        InsertCellPerm(k, run[..n], col);
        forall i | 0 <= i < |front| ensures col[front[i]] <= col[run[n]] {
          assert front[i] in multiset(run[..n]) + multiset{k};
          if front[i] != k {
            var j :| 0 <= j < n && run[..n][j] == front[i];
          }
        }
      }
    }
  }

  lemma {:induction false} SortCellsAscending(ks: seq<Bytes>, col: map<Bytes, int>)
    requires AllIn(ks, col)
    ensures Ascending(SortCells(ks, col), col)
  {
    if |ks| > 0 {
      var n := |ks| - 1;
      assert AllIn(ks[..n], col);
      var run := SortCells(ks[..n], col);
      SortCellsAscending(ks[..n], col);
      InsertCellAscending(ks[n], run, col);
    }
  }

  /** A row's cells in column order: a permutation of the row's cells
      whose columns ascend. */
  lemma SortCellsSpec(ks: seq<Bytes>, col: map<Bytes, int>)
    requires AllIn(ks, col)
    ensures var r := SortCells(ks, col);
      && multiset(r) == multiset(ks) && |r| == |ks|
      && (forall i :: 0 <= i < |r| ==> r[i] in ks && r[i] in col)
      && Ascending(r, col)
  {
    var r := SortCells(ks, col);
    SortCellsAscending(ks, col);
    SortCellsPerm(ks, col);
    forall i | 0 <= i < |r| ensures r[i] in ks && r[i] in col {
      assert r[i] in multiset(ks);
    }
  }

  /** When the row lists each cell once and distinct cells have distinct
      columns, the sorted columns ascend strictly. */
  lemma SortCellsStrict(ks: seq<Bytes>, col: map<Bytes, int>)
    requires AllIn(ks, col)
    requires forall i, j :: 0 <= i < j < |ks| ==> ks[i] != ks[j]
    requires forall a, b :: a in col && b in col && a != b ==> col[a] != col[b]
    ensures var r := SortCells(ks, col);
      forall i, j :: 0 <= i < j < |r| ==> col[r[i]] < col[r[j]]
  {
    var r := SortCells(ks, col);
    SortCellsAscending(ks, col);
    SortCellsPerm(ks, col);
    PermutationDistinct(ks, r);
  }

  /** A permutation of a list without repeats has none either. */
  lemma PermutationDistinct(ks: seq<Bytes>, r: seq<Bytes>)
    requires multiset(r) == multiset(ks)
    requires forall i, j :: 0 <= i < j < |ks| ==> ks[i] != ks[j]
    ensures forall i, j :: 0 <= i < j < |r| ==> r[i] != r[j]
  {
    forall i, j | 0 <= i < j < |r| ensures r[i] != r[j] {
      var x := r[i];
      DistinctCount(ks, x);
      assert r == r[..j] + r[j..];
      assert r[..j][i] == x;
      assert multiset(r[..j])[x] >= 1;
      assert r[j] == r[j..][0];
      assert multiset(r) == multiset(r[..j]) + multiset(r[j..]);
    }
  }

  /** In a list without repeats every element occurs once. */
  lemma {:induction false} DistinctCount(ks: seq<Bytes>, x: Bytes)
    requires forall i, j :: 0 <= i < j < |ks| ==> ks[i] != ks[j]
    ensures multiset(ks)[x] <= 1
  {
    if |ks| > 0 {
      var n := |ks| - 1;
      DistinctCount(ks[..n], x);
      assert ks[..n] + [ks[n]] == ks;
      if x == ks[n] {
        assert x !in ks[..n];
      }
    }
  }

  /** `[CRS[crskey] for crskey in ti]`. */
  function Columns(ti: seq<Bytes>, col: map<Bytes, int>): (r: seq<int>)
    requires AllIn(ti, col)
    ensures |r| == |ti| && forall j :: 0 <= j < |ti| ==> r[j] == col[ti[j]]
  {
    if |ti| == 0 then []
    else
      var n := |ti| - 1;
      assert AllIn(ti[..n], col);
      Columns(ti[..n], col) + [col[ti[n]]]
  }

  /** `[v[crskey] for crskey in ti]`. */
  function Counts(ti: seq<Bytes>, row: CellCounts): (r: seq<int>)
    ensures |r| == |ti| && forall j :: 0 <= j < |ti| ==> r[j] == Get(row, ti[j], 0)
  {
    if |ti| == 0 then [] else Counts(ti[..|ti| - 1], row) + [Get(row, ti[|ti| - 1], 0)]
  }

  // ---------------------------------------------------------------------
  // The whole matrix

  /** The row of class `e`: `final.ec[e]`. */
  function RowOf(ec: Classes, e: Bytes): CellCounts
  {
    Get(ec, e, Empty())
  }

  /** One more row: the class's cells sorted by column, their columns and
      counts appended and the row closed in `indptr`; a cell barcode `CRS`
      lacks raises `KeyError` instead. */
  function NextRow(m: Csr, row: CellCounts, crs: OMap<Bytes, int>): (r: Result<Csr, FinishError>)
    requires |m.indptr| > 0
    ensures r.Failure? <==> !AllIn(row.keys, crs.vals)
    ensures r.Failure? ==> r.error.UnknownCell? && r.error.cell in row.keys && r.error.cell !in crs.vals
  {
    match Missing(row.keys, crs.vals)
    case Some(c) => Failure(UnknownCell(c))
    case None =>
      var ti := SortCells(row.keys, crs.vals);
      Success(Csr(m.indptr + [m.indptr[|m.indptr| - 1] + |ti|], m.indices + Columns(ti, crs.vals), m.data + Counts(ti, row)))
  }

  lemma NextRowValue(m: Csr, row: CellCounts, crs: OMap<Bytes, int>)
    requires |m.indptr| > 0 && AllIn(row.keys, crs.vals)
    ensures var ti := SortCells(row.keys, crs.vals);
      NextRow(m, row, crs) == Success(Csr(m.indptr + [m.indptr[|m.indptr| - 1] + |ti|],
                                          m.indices + Columns(ti, crs.vals), m.data + Counts(ti, row)))
  {
    assert Missing(row.keys, crs.vals) == None;
  }

  /** The matrix over the classes listed in `keys`, row after row. */
  function CsrOf(ec: Classes, keys: seq<Bytes>, crs: OMap<Bytes, int>): (r: Result<Csr, FinishError>)
    ensures r.Success? ==> |r.value.indptr| == |keys| + 1
  {
    if |keys| == 0 then Success(Csr([0], [], []))
    else
      var prev :- CsrOf(ec, keys[..|keys| - 1], crs);
      NextRow(prev, RowOf(ec, keys[|keys| - 1]), crs)
  }

  /** A successful build over `keys` is the build over all but the last
      class with the last class's sorted row appended. */
  lemma CsrOfLast(ec: Classes, keys: seq<Bytes>, crs: OMap<Bytes, int>)
    requires |keys| > 0 && CsrOf(ec, keys, crs).Success?
    ensures var n := |keys| - 1;
      var p := CsrOf(ec, keys[..n], crs);
      var row := RowOf(ec, keys[n]);
      && p.Success? && AllIn(row.keys, crs.vals)
      && var ti := SortCells(row.keys, crs.vals);
         CsrOf(ec, keys, crs).value
           == Csr(p.value.indptr + [p.value.indptr[n] + |ti|], p.value.indices + Columns(ti, crs.vals), p.value.data + Counts(ti, row))
  {
    var n := |keys| - 1;
    var p := CsrOf(ec, keys[..n], crs);
    assert p.Success?;
    assert NextRow(p.value, RowOf(ec, keys[n]), crs).Success?;
    NextRowValue(p.value, RowOf(ec, keys[n]), crs);
  }

  /** The count matrix of the final class table. */
  function CountMatrixOf(ec: Classes, crs: OMap<Bytes, int>): Result<Csr, FinishError>
  {
    CsrOf(ec, ec.keys, crs)
  }

  /** Every barcode of every listed class has a column in `CRS`. */
  ghost predicate RowsIn(ec: Classes, keys: seq<Bytes>, crs: OMap<Bytes, int>)
  {
    forall i :: 0 <= i < |keys| ==> AllIn(RowOf(ec, keys[i]).keys, crs.vals)
  }

  /** Building the matrix fails exactly when some class holds a cell
      barcode `CRS` lacks, and the error names a barcode of a listed
      class that `CRS` lacks. */
  lemma {:induction false} CsrFails(ec: Classes, keys: seq<Bytes>, crs: OMap<Bytes, int>)
    ensures CsrOf(ec, keys, crs).Failure? <==> !RowsIn(ec, keys, crs)
    ensures CsrOf(ec, keys, crs).Failure? ==>
      var err := CsrOf(ec, keys, crs).error;
      err.UnknownCell? && err.cell !in crs.vals && exists i :: 0 <= i < |keys| && err.cell in RowOf(ec, keys[i]).keys
  {
    if |keys| > 0 {
      var n := |keys| - 1;
      CsrFails(ec, keys[..n], crs);
      RowsInSnoc(ec, keys, crs);
      if CsrOf(ec, keys[..n], crs).Failure? {
        var err := CsrOf(ec, keys[..n], crs).error;
        var i :| 0 <= i < n && err.cell in RowOf(ec, keys[..n][i]).keys;
        assert keys[i] == keys[..n][i];
      }
    }
  }

  lemma RowsInSnoc(ec: Classes, keys: seq<Bytes>, crs: OMap<Bytes, int>)
    requires |keys| > 0
    ensures RowsIn(ec, keys, crs) <==>
      RowsIn(ec, keys[..|keys| - 1], crs) && AllIn(RowOf(ec, keys[|keys| - 1]).keys, crs.vals)
  {
    var n := |keys| - 1;
    if RowsIn(ec, keys[..n], crs) && AllIn(RowOf(ec, keys[n]).keys, crs.vals) {
      forall i | 0 <= i < |keys| ensures AllIn(RowOf(ec, keys[i]).keys, crs.vals) {
        if i < n { assert keys[i] == keys[..n][i]; }
      }
    }
    if RowsIn(ec, keys, crs) {
      forall i | 0 <= i < n ensures AllIn(RowOf(ec, keys[..n][i]).keys, crs.vals) {
        assert keys[..n][i] == keys[i];
      }
    }
  }

  /** The ends of a built matrix: `indptr` has one entry more than there
      are classes, starts at 0 and ends at the length of `indices` and of
      `data`. */
  lemma {:induction false} CsrEnds(ec: Classes, keys: seq<Bytes>, crs: OMap<Bytes, int>)
    requires CsrOf(ec, keys, crs).Success?
    ensures var m := CsrOf(ec, keys, crs).value;
      && |m.indptr| == |keys| + 1 && m.indptr[0] == 0
      && m.indptr[|keys|] == |m.indices| == |m.data|
  {
    if |keys| > 0 {
      var n := |keys| - 1;
      CsrOfLast(ec, keys, crs);
      CsrEnds(ec, keys[..n], crs);
    }
  }

  /** Each row of a built matrix takes up as many entries as its class
      has cells: `indptr` grows by that number. */
  lemma {:induction false} CsrSteps(ec: Classes, keys: seq<Bytes>, crs: OMap<Bytes, int>)
    requires CsrOf(ec, keys, crs).Success?
    ensures var m := CsrOf(ec, keys, crs).value;
      forall i {:trigger keys[i]} :: 0 <= i < |keys| ==> m.indptr[i + 1] == m.indptr[i] + |RowOf(ec, keys[i]).keys|
  {
    if |keys| > 0 {
      var n := |keys| - 1;
      CsrOfLast(ec, keys, crs);
      CsrSteps(ec, keys[..n], crs);
      var m := CsrOf(ec, keys, crs).value;
      forall i | 0 <= i < |keys| ensures m.indptr[i + 1] == m.indptr[i] + |RowOf(ec, keys[i]).keys| {
        if i < n {
          assert keys[i] == keys[..n][i];
        }
      }
    }
  }

  /** A slice of `a + b`, taken within `a` or exactly over `b`. */
  lemma SliceAppend(a: seq<int>, b: seq<int>, lo: int, hi: int)
    requires 0 <= lo <= hi <= |a| || (lo == |a| && hi == |a| + |b|)
    ensures 0 <= lo <= hi <= |a| ==> (a + b)[lo..hi] == a[lo..hi]
    ensures lo == |a| && hi == |a| + |b| ==> (a + b)[lo..hi] == b
  {
  }

  lemma SliceAt(s: seq<int>, lo: int, hi: int, j: int)
    requires 0 <= lo <= j < hi <= |s|
    ensures s[j] == s[lo..hi][j - lo]
  {
  }

  lemma InSlice(s: seq<int>, lo: int, hi: int, v: int)
    requires 0 <= lo <= hi <= |s| && v in s[lo..hi]
    ensures exists j :: lo <= j < hi && s[j] == v
  {
    var t :| 0 <= t < hi - lo && s[lo..hi][t] == v;
    assert s[lo + t] == v;
  }

  /** Row `i` of a built matrix holds the cells of class `keys[i]` sorted
      by column, with their counts. */
  lemma {:induction false} RowSlice(ec: Classes, keys: seq<Bytes>, crs: OMap<Bytes, int>, i: nat)
    requires i < |keys| && CsrOf(ec, keys, crs).Success?
    ensures var row := RowOf(ec, keys[i]);
      && AllIn(row.keys, crs.vals)
      && RowIs(CsrOf(ec, keys, crs).value, i, Columns(SortCells(row.keys, crs.vals), crs.vals), Counts(SortCells(row.keys, crs.vals), row))
  {
    var n := |keys| - 1;
    CsrOfLast(ec, keys, crs);
    var prev := CsrOf(ec, keys[..n], crs).value;
    CsrEnds(ec, keys[..n], crs);
    var last := RowOf(ec, keys[n]);
    var ti := SortCells(last.keys, crs.vals);
    if i == n {
      AppendNew(prev, prev.indptr[n] + |ti|, Columns(ti, crs.vals), Counts(ti, last));
    } else {
      var row := RowOf(ec, keys[i]);
      RowSlice(ec, keys[..n], crs, i);
      assert keys[..n][i] == keys[i];
      AppendKeeps(prev, prev.indptr[n] + |ti|, Columns(ti, crs.vals), Counts(ti, last), i,
        Columns(SortCells(row.keys, crs.vals), crs.vals), Counts(SortCells(row.keys, crs.vals), row));
    }
  }

  /** Row `i` of `m` stores the columns `cols` with the counts `counts`. */
  ghost predicate RowIs(m: Csr, i: nat, cols: seq<int>, counts: seq<int>)
  {
    && i + 1 < |m.indptr| && 0 <= m.indptr[i] <= m.indptr[i + 1] <= |m.indices| == |m.data|
    && m.indices[m.indptr[i]..m.indptr[i + 1]] == cols
    && m.data[m.indptr[i]..m.indptr[i + 1]] == counts
  }

  /** Appending a row leaves the earlier rows as they were. */
  lemma AppendKeeps(m: Csr, x: int, c: seq<int>, d: seq<int>, i: nat, cols: seq<int>, counts: seq<int>)
    requires RowIs(m, i, cols, counts) && |c| == |d|
    ensures RowIs(Csr(m.indptr + [x], m.indices + c, m.data + d), i, cols, counts)
  {
    SliceAppend(m.indices, c, m.indptr[i], m.indptr[i + 1]);
    SliceAppend(m.data, d, m.indptr[i], m.indptr[i + 1]);
  }

  /** The appended row stores the columns and counts appended. */
  lemma AppendNew(m: Csr, x: int, c: seq<int>, d: seq<int>)
    requires |m.indptr| > 0 && m.indptr[|m.indptr| - 1] == |m.indices| == |m.data|
    requires |c| == |d| && x == |m.indices| + |c|
    ensures RowIs(Csr(m.indptr + [x], m.indices + c, m.data + d), |m.indptr| - 1, c, d)
  {
    SliceAppend(m.indices, c, |m.indices|, |m.indices| + |c|);
    SliceAppend(m.data, d, |m.data|, |m.data| + |d|);
  }

  /** A class's row of the table lists each barcode once and lists every
      barcode it has a count of. */
  lemma RowOfOk(ec: Classes, e: Bytes)
    requires ClassesOk(ec)
    ensures var row := RowOf(ec, e);
      && (forall i, j :: 0 <= i < j < |row.keys| ==> row.keys[i] != row.keys[j])
      && (forall c :: c in row.vals ==> c in row.keys)
  {
  }

  /** The stored columns of row `i` ascend strictly. */
  lemma RowAscends(ec: Classes, keys: seq<Bytes>, crs: OMap<Bytes, int>, i: nat)
    requires ClassesOk(ec) && IndexesKeys(crs.vals, crs.keys)
    requires i < |keys| && CsrOf(ec, keys, crs).Success?
    ensures var m := CsrOf(ec, keys, crs).value;
      && i + 1 < |m.indptr| && 0 <= m.indptr[i] <= m.indptr[i + 1] <= |m.indices| == |m.data|
      && forall j, j' :: m.indptr[i] <= j < j' < m.indptr[i + 1] ==> m.indices[j] < m.indices[j']
  {
    var row := RowOf(ec, keys[i]);
    RowSlice(ec, keys, crs, i);
    var ti := SortCells(row.keys, crs.vals);
    RowOfOk(ec, keys[i]);
    SortedRowAscends(row, crs);
    SliceAscends(CsrOf(ec, keys, crs).value, i, Columns(ti, crs.vals), Counts(ti, row));
  }

  lemma SliceAscends(m: Csr, i: nat, cols: seq<int>, counts: seq<int>)
    requires RowIs(m, i, cols, counts)
    requires forall t, t' :: 0 <= t < t' < |cols| ==> cols[t] < cols[t']
    ensures forall j, j' :: m.indptr[i] <= j < j' < m.indptr[i + 1] ==> m.indices[j] < m.indices[j']
  {
    var lo, hi := m.indptr[i], m.indptr[i + 1];
    forall j, j' | lo <= j < j' < hi ensures m.indices[j] < m.indices[j'] {
      SliceAt(m.indices, lo, hi, j);
      SliceAt(m.indices, lo, hi, j');
    }
  }

  /** Every stored entry of row `i` names a column of `CRS` and holds the
      class's count of that column's barcode. */
  lemma RowCounts(ec: Classes, keys: seq<Bytes>, crs: OMap<Bytes, int>, i: nat)
    requires IndexesKeys(crs.vals, crs.keys)
    requires i < |keys| && CsrOf(ec, keys, crs).Success?
    ensures var m := CsrOf(ec, keys, crs).value;
      && i + 1 < |m.indptr| && 0 <= m.indptr[i] <= m.indptr[i + 1] <= |m.indices| == |m.data|
      && forall j :: m.indptr[i] <= j < m.indptr[i + 1] ==>
           0 <= m.indices[j] < |crs.keys| && m.data[j] == Cell(ec, keys[i], crs.keys[m.indices[j]])
  {
    var row := RowOf(ec, keys[i]);
    RowSlice(ec, keys, crs, i);
    var ti := SortCells(row.keys, crs.vals);
    SortedRowCounts(row, crs);
    SliceCounts(CsrOf(ec, keys, crs).value, i, Columns(ti, crs.vals), Counts(ti, row), row, crs.keys);
  }

  lemma SliceCounts(m: Csr, i: nat, cols: seq<int>, counts: seq<int>, row: CellCounts, names: seq<Bytes>)
    requires RowIs(m, i, cols, counts)
    requires forall t :: 0 <= t < |cols| ==> 0 <= cols[t] < |names| && counts[t] == Get(row, names[cols[t]], 0)
    ensures forall j :: m.indptr[i] <= j < m.indptr[i + 1] ==>
      0 <= m.indices[j] < |names| && m.data[j] == Get(row, names[m.indices[j]], 0)
  {
    var lo, hi := m.indptr[i], m.indptr[i + 1];
    forall j | lo <= j < hi ensures 0 <= m.indices[j] < |names| && m.data[j] == Get(row, names[m.indices[j]], 0) {
      SliceAt(m.indices, lo, hi, j);
      SliceAt(m.data, lo, hi, j);
    }
  }

  /** Every barcode the class's row lists is stored in row `i`. */
  lemma RowComplete(ec: Classes, keys: seq<Bytes>, crs: OMap<Bytes, int>, i: nat)
    requires i < |keys| && CsrOf(ec, keys, crs).Success?
    ensures var m := CsrOf(ec, keys, crs).value;
      && i + 1 < |m.indptr| && 0 <= m.indptr[i] <= m.indptr[i + 1] <= |m.indices| == |m.data|
      && forall x :: 0 <= x < |RowOf(ec, keys[i]).keys| ==>
           var c := RowOf(ec, keys[i]).keys[x];
           c in crs.vals && exists j :: m.indptr[i] <= j < m.indptr[i + 1] && m.indices[j] == crs.vals[c]
  {
    var m := CsrOf(ec, keys, crs).value;
    var row := RowOf(ec, keys[i]);
    RowSlice(ec, keys, crs, i);
    var ti := SortCells(row.keys, crs.vals);
    SortedRowComplete(row, crs);
    assert RowIs(m, i, Columns(ti, crs.vals), Counts(ti, row));
    var lo, hi := m.indptr[i], m.indptr[i + 1];
    forall x | 0 <= x < |row.keys| ensures row.keys[x] in crs.vals && exists j :: lo <= j < hi && m.indices[j] == crs.vals[row.keys[x]] {
      InSlice(m.indices, lo, hi, crs.vals[row.keys[x]]);
    }
  }

  /** One class's row sorted by `CRS` has strictly ascending columns. */
  lemma SortedRowAscends(row: CellCounts, crs: OMap<Bytes, int>)
    requires forall i, j :: 0 <= i < j < |row.keys| ==> row.keys[i] != row.keys[j]
    requires AllIn(row.keys, crs.vals) && IndexesKeys(crs.vals, crs.keys)
    ensures forall t, t' :: 0 <= t < t' < |Columns(SortCells(row.keys, crs.vals), crs.vals)| ==>
      Columns(SortCells(row.keys, crs.vals), crs.vals)[t] < Columns(SortCells(row.keys, crs.vals), crs.vals)[t']
  {
    ColumnsOfCrs(crs);
    SortCellsStrict(row.keys, crs.vals);
  }

  /** Each column of one class's sorted row names a column of `CRS` and
      comes with the row's count of that column's barcode. */
  lemma SortedRowCounts(row: CellCounts, crs: OMap<Bytes, int>)
    requires AllIn(row.keys, crs.vals) && IndexesKeys(crs.vals, crs.keys)
    ensures var ti := SortCells(row.keys, crs.vals);
      var cols, counts := Columns(ti, crs.vals), Counts(ti, row);
      forall t :: 0 <= t < |cols| ==> 0 <= cols[t] < |crs.keys| && counts[t] == Get(row, crs.keys[cols[t]], 0)
  {
    ColumnsOfCrs(crs);
  }

  /** Every barcode of one class's row has its column in the sorted row. */
  lemma SortedRowComplete(row: CellCounts, crs: OMap<Bytes, int>)
    requires AllIn(row.keys, crs.vals)
    ensures var cols := Columns(SortCells(row.keys, crs.vals), crs.vals);
      forall j :: 0 <= j < |row.keys| ==> crs.vals[row.keys[j]] in cols
  {
    var ti := SortCells(row.keys, crs.vals);
    var cols := Columns(ti, crs.vals);
    SortCellsSpec(row.keys, crs.vals);
    forall j | 0 <= j < |row.keys| ensures crs.vals[row.keys[j]] in cols {
      assert row.keys[j] in multiset(ti);
      var t :| 0 <= t < |ti| && ti[t] == row.keys[j];
      assert cols[t] == crs.vals[row.keys[j]];
    }
  }

  /** A dense `CRS` gives each barcode a column holding that barcode, so
      distinct barcodes have distinct columns. */
  lemma ColumnsOfCrs(crs: OMap<Bytes, int>)
    requires IndexesKeys(crs.vals, crs.keys)
    ensures forall c :: c in crs.vals ==> 0 <= crs.vals[c] < |crs.keys| && crs.keys[crs.vals[c]] == c
    ensures forall a, b :: a in crs.vals && b in crs.vals && a != b ==> crs.vals[a] != crs.vals[b]
  {
    forall c | c in crs.vals ensures 0 <= crs.vals[c] < |crs.keys| && crs.keys[crs.vals[c]] == c {
      var x :| 0 <= x < |crs.keys| && crs.keys[x] == c;
    }
  }

  // ---------------------------------------------------------------------
  // The loop that builds the matrix

  /** The inner loop over one row's sorted cells. */
  method AppendRow(m: Csr, row: CellCounts, ti: seq<Bytes>, crs: OMap<Bytes, int>) returns (m': Csr)
    requires |m.indptr| > 0 && AllIn(ti, crs.vals)
    ensures m' == Csr(m.indptr + [m.indptr[|m.indptr| - 1] + |ti|], m.indices + Columns(ti, crs.vals), m.data + Counts(ti, row))
  {
    var indices, data := m.indices, m.data;
    var a := 0;
    while a < |ti|
      invariant 0 <= a <= |ti|
      invariant indices == m.indices + Columns(ti[..a], crs.vals)
      invariant data == m.data + Counts(ti[..a], row)
    {
      var crskey := ti[a];
      var col := crs.vals[crskey];
      assert ti[..a + 1] == ti[..a] + [crskey];
      indices := indices + [col];
      data := data + [Get(row, crskey, 0)];
      a := a + 1;
    }
    assert ti[..a] == ti;
    m' := Csr(m.indptr + [m.indptr[|m.indptr| - 1] + a], indices, data);
  }

  /** One class: `ti = sorted(v.keys(), key=lambda i: CRS[i])`, raising
      on a barcode `CRS` lacks, then the inner loop. */
  method BuildRow(m: Csr, v: CellCounts, crs: OMap<Bytes, int>) returns (r: Result<Csr, FinishError>)
    requires |m.indptr| > 0
    ensures r == NextRow(m, v, crs)
  {
    var missing := Missing(v.keys, crs.vals);
    if missing.Some? {
      return Failure(UnknownCell(missing.value));
    }
    var ti := SortCells(v.keys, crs.vals);
    NextRowValue(m, v, crs);
    var m' := AppendRow(m, v, ti, crs);
    r := Success(m');
  }

  /** The build over one more class. */
  lemma CsrOfStep(ec: Classes, keys: seq<Bytes>, crs: OMap<Bytes, int>, k: nat)
    requires k < |keys|
    ensures var p := CsrOf(ec, keys[..k], crs);
      CsrOf(ec, keys[..k + 1], crs) == if p.Failure? then Failure(p.error) else NextRow(p.value, RowOf(ec, keys[k]), crs)
  {
    assert keys[..k + 1][..k] == keys[..k];
  }

  /** Once a prefix of the classes fails, the whole build fails the same
      way. */
  lemma {:induction false} CsrAbort(ec: Classes, keys: seq<Bytes>, crs: OMap<Bytes, int>, k: nat)
    requires k <= |keys| && CsrOf(ec, keys[..k], crs).Failure?
    ensures CsrOf(ec, keys, crs) == CsrOf(ec, keys[..k], crs)
    decreases |keys|
  {
    if k == |keys| {
      assert keys[..k] == keys;
    } else {
      var n := |keys| - 1;
      assert keys[..n][..k] == keys[..k];
      CsrAbort(ec, keys[..n], crs, k);
    }
  }

  /** The row loop: for each class in order, sort its cells by `CRS`
      (raising on a barcode `CRS` lacks), append their columns and
      counts, and close the row in `indptr`. */
  method BuildCountMatrix(ec: Classes, crs: OMap<Bytes, int>) returns (r: Result<Csr, FinishError>)
    ensures r == CountMatrixOf(ec, crs)
  {
    var m := Csr([0], [], []);
    var k := 0;
    while k < |ec.keys|
      invariant 0 <= k <= |ec.keys|
      invariant CsrOf(ec, ec.keys[..k], crs) == Success(m)
    {
      var next := BuildRow(m, RowOf(ec, ec.keys[k]), crs);
      CsrOfStep(ec, ec.keys, crs, k);
      if next.Failure? {
        CsrAbort(ec, ec.keys, crs, k + 1);
        return next;
      }
      m := next.value;
      k := k + 1;
    }
    assert ec.keys[..k] == ec.keys;
    r := Success(m);
  }

  // ---------------------------------------------------------------------
  // When the build succeeds

  /** After the cell filter every class holds only barcodes of the new
      `CRS`, so building the matrix cannot raise. */
  lemma FilteredBuilds(ec: Classes, crs: OMap<Bytes, int>)
    requires ClassesOk(ec)
    ensures CountMatrixOf(FilterClasses(ec, ec.keys, crs).0, crs).Success?
  {
    var f := FilterClasses(ec, ec.keys, crs).0;
    FilterRows(ec, ec.keys, crs);
    CsrFails(f, f.keys, crs);
    FilterShape(ec, ec.keys, crs);
    forall i | 0 <= i < |f.keys| ensures AllIn(RowOf(f, f.keys[i]).keys, crs.vals) {
      var e := f.keys[i];
      RestrictSpec(ec.vals[e], ec.vals[e].keys, crs);
      assert RowOf(f, e).Valid();
    }
  }
}

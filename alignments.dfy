/** Alignment records as both converters read them, and the equivalence
    class keys they build: the distinct target ids a read aligned to,
    sorted as strings and joined with `,`. */
module Alignments {
  import opened ByteStrings

  /** The fields of a BAM alignment record the converters look at. A
      reference id is a position in the header's list of references. */
  datatype Alignment = Alignment(
    unmapped: bool,
    paired: bool,
    read2: bool,
    properPair: bool,
    referenceId: int,
    nextReferenceId: int,
    nextReferenceStart: int,
    queryName: Bytes,
    referenceStart: int)

  /** `','.join(sorted(ids))`. */
  function EcKey(ids: seq<Bytes>): Bytes
  {
    Join(Sort(ids), [COMMA])
  }

  /** `p` is `str(t)` for a target id `t` of a header with `n` references. */
  predicate IsTid(p: Bytes, n: int)
  {
    0 <= ParseDecimal(p) < n && Decimal(ParseDecimal(p)) == p
  }

  lemma DecimalIsTid(t: int, n: int)
    requires 0 <= t < n
    ensures IsTid(Decimal(t), n)
  {
    DecimalRoundTrip(t);
  }

  /** A well-formed key: splitting it at `,` gives strictly increasing
      target ids that join back to the key. */
  predicate WellFormedKey(k: Bytes, n: int)
  {
    var ids := Split(k, [COMMA]);
    && Join(ids, [COMMA]) == k
    && StrictlySorted(ids)
    && forall p :: p in ids ==> IsTid(p, n)
  }

  /** The key of a non-empty list of distinct target ids is well formed,
      and `k.split(",")` recovers the sorted ids. */
  lemma EcKeyWellFormed(ids: seq<Bytes>, n: int)
    requires |ids| >= 1 && NoDuplicates(ids)
    requires forall p :: p in ids ==> IsTid(p, n)
    ensures Split(EcKey(ids), [COMMA]) == Sort(ids)
    ensures WellFormedKey(EcKey(ids), n)
  {
    var sorted := Sort(ids);
    SortElements(ids);
    SortNoDuplicates(ids);
    forall k | 0 <= k < |sorted| ensures COMMA !in sorted[k] {
      assert sorted[k] in ids;
      assert sorted[k] == Decimal(ParseDecimal(sorted[k]));
    }
    SplitJoin(sorted, COMMA);
  }

  /** Two lists of target ids with the same elements give the same key:
      the key does not depend on the order in which a read's alignments
      arrived. */
  lemma EcKeyOrderFree(a: seq<Bytes>, b: seq<Bytes>)
    requires multiset(a) == multiset(b)
    ensures EcKey(a) == EcKey(b)
  {
    SortSorted(a);
    SortSorted(b);
    SortedUnique(Sort(a), Sort(b));
  }

  /** Two sorted lists with the same elements, counted with multiplicity,
      are the same list. */
  lemma {:induction false} SortedUnique(a: seq<Bytes>, b: seq<Bytes>)
    requires Sorted(a) && Sorted(b)
    requires multiset(a) == multiset(b)
    ensures a == b
    decreases |a|
  {
    if |a| > 0 {
      assert |b| == |a| by {
        assert |multiset(a)| == |multiset(b)|;
      }
      assert a == [a[0]] + a[1..];
      assert b == [b[0]] + b[1..];
      assert a[0] in multiset(b) && b[0] in multiset(a);
      if a[0] != b[0] {
        var k :| 0 <= k < |b| && b[k] == a[0];
        var m :| 0 <= m < |a| && a[m] == b[0];
        assert LessEq(b[0], a[0]) && LessEq(a[0], b[0]);
        LessAsymmetric(a[0], b[0]);
        assert false;
      }
      assert multiset(a) == multiset{a[0]} + multiset(a[1..]);
      assert multiset(b) == multiset{b[0]} + multiset(b[1..]);
      forall x ensures multiset(a[1..])[x] == multiset(b[1..])[x] {
        assert multiset(a)[x] == multiset(b)[x];
      }
      assert multiset(a[1..]) == multiset(b[1..]);
      SortedUnique(a[1..], b[1..]);
    } else {
      assert |multiset(b)| == 0;
    }
  }

  // ---------------------------------------------------------------------
  // Counting records

  /** The number of records of all chunks. */
  function CountAll(chunks: seq<seq<Alignment>>): nat
  {
    if |chunks| == 0 then 0 else CountAll(chunks[..|chunks| - 1]) + |chunks[|chunks| - 1]|
  }

  /** The number of mapped records of a list of records. */
  function CountMapped(records: seq<Alignment>): nat
  {
    if |records| == 0 then 0
    else CountMapped(records[..|records| - 1]) + (if records[|records| - 1].unmapped then 0 else 1)
  }

  /** The number of mapped records of all chunks. */
  function CountMappedAll(chunks: seq<seq<Alignment>>): nat
  {
    if |chunks| == 0 then 0 else CountMappedAll(chunks[..|chunks| - 1]) + CountMapped(chunks[|chunks| - 1])
  }

  lemma CountMappedSnoc(records: seq<Alignment>, i: int)
    requires 0 <= i < |records|
    ensures CountMapped(records[..i + 1]) == CountMapped(records[..i]) + (if records[i].unmapped then 0 else 1)
  {
    assert records[..i + 1][..i] == records[..i];
  }

  lemma CountAllSnoc(chunks: seq<seq<Alignment>>, c: int)
    requires 0 <= c < |chunks|
    ensures CountAll(chunks[..c + 1]) == CountAll(chunks[..c]) + |chunks[c]|
    ensures CountMappedAll(chunks[..c + 1]) == CountMappedAll(chunks[..c]) + CountMapped(chunks[c])
  {
    assert chunks[..c + 1][..c] == chunks[..c];
  }

  /** A chunk never has more mapped records than records. */
  lemma {:induction false} CountMappedBound(records: seq<Alignment>)
    ensures CountMapped(records) <= |records|
    decreases |records|
  {
    if |records| > 0 {
      CountMappedBound(records[..|records| - 1]);
    }
  }

  /** All chunks together never have more mapped records than records. */
  lemma {:induction false} CountMappedAllBound(chunks: seq<seq<Alignment>>)
    ensures CountMappedAll(chunks) <= CountAll(chunks)
    decreases |chunks|
  {
    if |chunks| > 0 {
      CountMappedAllBound(chunks[..|chunks| - 1]);
      CountMappedBound(chunks[|chunks| - 1]);
    }
  }
}

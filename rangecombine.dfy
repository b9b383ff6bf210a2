/** The range file written after the multisample workers were combined:
    a cell is `'0'` exactly when no worker kept a record on its target id. */
module RangeCombine {
  import opened ByteStrings
  import opened Alignments
  import opened MultiSample
  import opened MultiCombine
  import opened RangeFile

  /** When every worker tracked ranges over its own records, a target id's
      cell in the range file is `'0'` exactly when no kept record of any
      worker lies on it. */
  lemma CombinedWidth(results: seq<ConvertResults>, records: seq<seq<Alignment>>, key: Bytes)
    requires |results| == |records|
    requires forall i :: 0 <= i < |results| ==> results[i].tidRanges == RangesAfter(records[i], true)
    ensures WidthAt(RangesAfterAll(results, true), key) == [DIGIT_ZERO] <==> !Seen(Flatten(records), key)
  {
    CombineRanges(results, records, true);
    WidthAtZero(Flatten(records), key);
  }
}

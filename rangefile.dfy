/** The range file `convert` writes when asked for one: a header of the
    haplotypes, then for every main target the width of the span of
    alignment starts seen on each of its transcripts. */
module RangeFile {
  import opened ByteStrings
  import opened Targets
  import opened Alignments
  import opened MultiSample

  const TAB: byte := 0x09      // '\t'
  const NEWLINE: byte := 0x0A  // '\n'
  const HASH: byte := 0x23     // '#'

  /** The reference name of a main target's transcript for a haplotype:
      the main target itself for the empty haplotype, else
      `'{}_{}'.format(main_target, haplotype)`. */
  function TranscriptName(mainTarget: Bytes, haplotype: Bytes): Bytes
  {
    if |haplotype| == 0 then mainTarget else mainTarget + [UNDERSCORE] + haplotype
  }

  /** Splitting a transcript name at its last `_` gives back the main
      target and the haplotype it was made from, whenever the haplotype is
      non-empty and has no `_` of its own. */
  lemma TranscriptNameSplits(mainTarget: Bytes, haplotype: Bytes)
    requires |mainTarget| > 0 && |haplotype| > 0 && UNDERSCORE !in haplotype
    ensures SplitName(TranscriptName(mainTarget, haplotype)) == (mainTarget, haplotype)
  {
    SplitNameJoin(mainTarget, haplotype);
  }

  /** The text of one target id's range: `'0'` when it has no range or
      the sentinel range, else `str(max - min + 1)`. */
  function WidthAt(ranges: map<Bytes, (int, int)>, key: Bytes): Bytes
  {
    if key !in ranges then [DIGIT_ZERO]
    else if ranges[key].0 == NO_RANGE.0 && ranges[key].1 == NO_RANGE.1 then [DIGIT_ZERO]
    else Decimal(ranges[key].1 - ranges[key].0 + 1)
  }

  /** The cell of one transcript: the range text of
      `str(alignment_file.gettid(read_transcript))`. */
  function RangeWidth(ranges: map<Bytes, (int, int)>, references: seq<Bytes>, mainTarget: Bytes, haplotype: Bytes): Bytes
  {
    WidthAt(ranges, Decimal(GetTid(references, TranscriptName(mainTarget, haplotype))))
  }

  /** The cells of one main target's line, one per haplotype. */
  function Widths(ranges: map<Bytes, (int, int)>, references: seq<Bytes>, mainTarget: Bytes, haplotypes: seq<Bytes>): (r: seq<Bytes>)
    ensures |r| == |haplotypes|
  {
    if |haplotypes| == 0 then []
    else Widths(ranges, references, mainTarget, haplotypes[..|haplotypes| - 1])
         + [RangeWidth(ranges, references, mainTarget, haplotypes[|haplotypes| - 1])]
  }

  /** One line: the main target, a tab, the widths joined by tabs. */
  function RangeLine(ranges: map<Bytes, (int, int)>, references: seq<Bytes>, mainTarget: Bytes, haplotypes: seq<Bytes>): Bytes
  {
    mainTarget + [TAB] + Join(Widths(ranges, references, mainTarget, haplotypes), [TAB]) + [NEWLINE]
  }

  function RangeLines(ranges: map<Bytes, (int, int)>, references: seq<Bytes>, mainTargets: seq<Bytes>, haplotypes: seq<Bytes>): Bytes
  {
    if |mainTargets| == 0 then []
    else RangeLines(ranges, references, mainTargets[..|mainTargets| - 1], haplotypes)
         + RangeLine(ranges, references, mainTargets[|mainTargets| - 1], haplotypes)
  }

  /** The whole file: `#`, a tab, the haplotypes joined by tabs, then one
      line per main target in the order of `main_targets`. */
  function RangeFileText(ranges: map<Bytes, (int, int)>, references: seq<Bytes>, mainTargets: seq<Bytes>, haplotypes: seq<Bytes>): Bytes
  {
    [HASH, TAB] + Join(haplotypes, [TAB]) + [NEWLINE] + RangeLines(ranges, references, mainTargets, haplotypes)
  }

  /** Writing the range file, line by line. */
  method WriteRangeFile(ranges: map<Bytes, (int, int)>, references: seq<Bytes>, mainTargets: seq<Bytes>, haplotypes: seq<Bytes>)
    returns (out: Bytes)
    ensures out == RangeFileText(ranges, references, mainTargets, haplotypes)
  {
    out := [HASH, TAB] + Join(haplotypes, [TAB]) + [NEWLINE];
    ghost var header := out;
    var m := 0;
    while m < |mainTargets|
      invariant 0 <= m <= |mainTargets|
      invariant out == header + RangeLines(ranges, references, mainTargets[..m], haplotypes)
    {
      var mainTarget := mainTargets[m];
      var vals := CollectWidths(ranges, references, mainTarget, haplotypes);
      assert mainTargets[..m + 1][..m] == mainTargets[..m];
      out := out + (mainTarget + [TAB] + Join(vals, [TAB]) + [NEWLINE]);
      m := m + 1;
    }
    assert mainTargets[..m] == mainTargets;
  }

  /** The cells of one main target's line, one per haplotype. */
  method CollectWidths(ranges: map<Bytes, (int, int)>, references: seq<Bytes>, mainTarget: Bytes, haplotypes: seq<Bytes>)
    returns (vals: seq<Bytes>)
    ensures vals == Widths(ranges, references, mainTarget, haplotypes)
  {
    vals := [];
    var h := 0;
    while h < |haplotypes|
      invariant 0 <= h <= |haplotypes|
      invariant vals == Widths(ranges, references, mainTarget, haplotypes[..h])
    {
      var w := CellWidth(ranges, references, mainTarget, haplotypes[h]);
      WidthsNext(ranges, references, mainTarget, haplotypes, h);
      vals := vals + [w];
      h := h + 1;
    }
    assert haplotypes[..h] == haplotypes;
  }

  /** The cell of one transcript, as the loop body computes it. */
  method CellWidth(ranges: map<Bytes, (int, int)>, references: seq<Bytes>, mainTarget: Bytes, haplotype: Bytes)
    returns (w: Bytes)
    ensures w == RangeWidth(ranges, references, mainTarget, haplotype)
  {
    var readTranscript;
    if |haplotype| == 0 {
      readTranscript := mainTarget;
    } else {
      readTranscript := mainTarget + [UNDERSCORE] + haplotype;
    }
    var key := Decimal(GetTid(references, readTranscript));
    if key in ranges && !(ranges[key].0 == NO_RANGE.0 && ranges[key].1 == NO_RANGE.1) {
      w := Decimal(ranges[key].1 - ranges[key].0 + 1);
    } else {
      w := [DIGIT_ZERO];
    }
  }

  lemma WidthsNext(ranges: map<Bytes, (int, int)>, references: seq<Bytes>, mainTarget: Bytes, haplotypes: seq<Bytes>, h: int)
    requires 0 <= h < |haplotypes|
    ensures Widths(ranges, references, mainTarget, haplotypes[..h + 1])
      == Widths(ranges, references, mainTarget, haplotypes[..h]) + [RangeWidth(ranges, references, mainTarget, haplotypes[h])]
  {
    assert haplotypes[..h + 1][..h] == haplotypes[..h];
  }

  /** `str(n)` is `'0'` only for zero. */
  lemma DecimalZero(n: int)
    ensures Decimal(n) == [DIGIT_ZERO] <==> n == 0
  {
    assert Decimal(0) == [DIGIT_ZERO];
    if Decimal(n) == [DIGIT_ZERO] {
      DecimalInjective(n, 0);
    }
  }

  /** Whether a kept record lies on the reference with the given target id
      text. */
  ghost predicate Seen(records: seq<Alignment>, key: Bytes)
  {
    exists i :: 0 <= i < |records| && Kept(records[i]) && Decimal(records[i].referenceId) == key
  }

  /** Tracking ranges, a target id has a range exactly when a kept record
      lies on it, and that range is not empty. */
  lemma RangesSeen(records: seq<Alignment>, key: Bytes)
    ensures var ranges := RangesAfter(records, true);
      && (key in ranges <==> Seen(records, key))
      && (key in ranges ==> ranges[key].0 <= ranges[key].1)
  {
    var ranges := RangesAfter(records, true);
    RangesAfterCover(records, true);
    if key in ranges {
      RangesAfterTight(records, true);
      assert Seen(records, key);
      var i :| 0 <= i < |records| && Kept(records[i]) && Decimal(records[i].referenceId) == key;
      assert ranges[key].0 <= records[i].referenceStart <= ranges[key].1;
    }
  }

  /** Over the ranges recorded for a list of records, a target id's cell
      is `'0'` exactly when no kept record lies on it. */
  lemma WidthAtZero(records: seq<Alignment>, key: Bytes)
    ensures WidthAt(RangesAfter(records, true), key) == [DIGIT_ZERO] <==> !Seen(records, key)
  {
    var ranges := RangesAfter(records, true);
    RangesSeen(records, key);
    if key in ranges {
      DecimalZero(ranges[key].1 - ranges[key].0 + 1);
    }
  }

  /** A cell that is not `'0'` is the width of its target id's range. */
  lemma WidthAtWidth(records: seq<Alignment>, key: Bytes)
    ensures var ranges := RangesAfter(records, true);
      WidthAt(ranges, key) != [DIGIT_ZERO] ==>
        && key in ranges && ranges[key].0 <= ranges[key].1
        && WidthAt(ranges, key) == Decimal(ranges[key].1 - ranges[key].0 + 1)
  {
    RangesSeen(records, key);
  }

  /** A cell that is not `'0'` belongs to a range that holds every kept
      start on its target id. */
  lemma WidthAtCovers(records: seq<Alignment>, key: Bytes)
    ensures var ranges := RangesAfter(records, true);
      WidthAt(ranges, key) != [DIGIT_ZERO] ==>
        && key in ranges
        && forall i :: 0 <= i < |records| && Kept(records[i]) && Decimal(records[i].referenceId) == key ==>
             ranges[key].0 <= records[i].referenceStart <= ranges[key].1
  {
    RangesAfterCover(records, true);
  }

  /** A cell is `'0'` exactly when its target id has no range or a range
      whose width is zero; otherwise it is that width. */
  lemma WidthAtNonZero(ranges: map<Bytes, (int, int)>, key: Bytes)
    ensures key in ranges && ranges[key].0 <= ranges[key].1 ==>
      WidthAt(ranges, key) != [DIGIT_ZERO] && WidthAt(ranges, key) == Decimal(ranges[key].1 - ranges[key].0 + 1)
    ensures key !in ranges ==> WidthAt(ranges, key) == [DIGIT_ZERO]
  {
    if key in ranges && ranges[key].0 <= ranges[key].1 {
      DecimalZero(ranges[key].1 - ranges[key].0 + 1);
    }
  }

}

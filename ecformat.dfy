/** The version-1 binary equivalence-class file. Every number in it is a
    little-endian two's-complement 32-bit integer (`struct.pack('<i', x)`)
    and every string is its length as such an integer followed by its
    bytes. The layout is: the format version, the main targets, the
    haplotypes, one read count per equivalence class, and the
    (class index, target index, haplotype flags) mappings, each list
    preceded by its length. This module states the layout as a value, its
    byte image, and a reader that recovers the value from the image. */
module EcFormat {
  import opened Wrappers
  import opened ByteStrings

  const INT32_MIN: int := -0x8000_0000
  const INT32_MAX: int := 0x7FFF_FFFF
  const TWO_TO_32: int := 0x1_0000_0000
  const FORMAT_VERSION: int := 1

  /** The values `struct.pack('<i', x)` accepts. */
  predicate InInt32(x: int)
  {
    INT32_MIN <= x <= INT32_MAX
  }

  // 32-bit little-endian integers

  /** `struct.pack('<i', x)`: least significant byte first, negative
      numbers in two's complement. */
  function Int32LE(x: int): (r: Bytes)
    requires InInt32(x)
    ensures |r| == 4
  {
    var u := if x < 0 then x + TWO_TO_32 else x;
    var q1 := u / 0x100;
    var q2 := q1 / 0x100;
    [u % 0x100, q1 % 0x100, q2 % 0x100, q2 / 0x100]
  }

  /** `struct.unpack_from('<i', b, pos)[0]`. */
  function ReadInt32(b: Bytes, pos: nat): (x: int)
    requires pos + 4 <= |b|
    ensures InInt32(x)
  {
    var u := b[pos] as int + 0x100 * (b[pos + 1] as int) + 0x1_0000 * (b[pos + 2] as int)
      + 0x100_0000 * (b[pos + 3] as int);
    if u <= INT32_MAX then u else u - TWO_TO_32
  }

  /** Reading back the four bytes written for `x` gives `x`. */
  lemma ReadInt32At(b: Bytes, pos: nat, x: int)
    requires InInt32(x) && pos + 4 <= |b| && b[pos..pos + 4] == Int32LE(x)
    ensures ReadInt32(b, pos) == x
  {
    var w := Int32LE(x);
    assert b[pos] == w[0] && b[pos + 1] == w[1] && b[pos + 2] == w[2] && b[pos + 3] == w[3] by {
      assert b[pos..pos + 4][0] == b[pos] && b[pos..pos + 4][1] == b[pos + 1];
      assert b[pos..pos + 4][2] == b[pos + 2] && b[pos..pos + 4][3] == b[pos + 3];
    }
    var u := if x < 0 then x + TWO_TO_32 else x;
    var q1 := u / 0x100;
    var q2 := q1 / 0x100;
    assert q2 == q2 % 0x100 + 0x100 * (q2 / 0x100);
    assert q1 == q1 % 0x100 + 0x100 * q2;
    assert u == u % 0x100 + 0x100 * q1;
  }

  /** Distinct 32-bit values have distinct images. */
  lemma Int32Injective(x: int, y: int)
    requires InInt32(x) && InInt32(y) && Int32LE(x) == Int32LE(y)
    ensures x == y
  {
    ReadInt32At(Int32LE(x), 0, x);
    ReadInt32At(Int32LE(y), 0, y);
  }

  // The file as a value

  datatype Mapping = Mapping(ecIndex: int, targetIndex: int, flags: int)

  datatype EcFile = EcFile(
    targets: seq<Bytes>,
    haplotypes: seq<Bytes>,
    counts: seq<int>,
    mappings: seq<Mapping>)

  predicate NamesFit(names: seq<Bytes>)
  {
    forall i :: 0 <= i < |names| ==> |names[i]| <= INT32_MAX
  }

  predicate IntsFit(xs: seq<int>)
  {
    forall i :: 0 <= i < |xs| ==> InInt32(xs[i])
  }

  predicate MappingFits(m: Mapping)
  {
    InInt32(m.ecIndex) && InInt32(m.targetIndex) && InInt32(m.flags)
  }

  predicate MappingsFit(ms: seq<Mapping>)
  {
    forall i :: 0 <= i < |ms| ==> MappingFits(ms[i])
  }

  /** Every number the file holds, list lengths included, fits 32 bits. */
  predicate Representable(f: EcFile)
  {
    |f.targets| <= INT32_MAX && NamesFit(f.targets)
    && |f.haplotypes| <= INT32_MAX && NamesFit(f.haplotypes)
    && |f.counts| <= INT32_MAX && IntsFit(f.counts)
    && |f.mappings| <= INT32_MAX && MappingsFit(f.mappings)
  }

  // The byte image

  /** Each name as its length followed by its bytes. */
  function NamesBytes(names: seq<Bytes>): Bytes
    requires NamesFit(names)
  {
    if |names| == 0 then []
    else
      var last := names[|names| - 1];
      NamesBytes(names[..|names| - 1]) + Int32LE(|last|) + last
  }

  function IntsBytes(xs: seq<int>): (r: Bytes)
    requires IntsFit(xs)
    ensures |r| == 4 * |xs|
  {
    if |xs| == 0 then [] else IntsBytes(xs[..|xs| - 1]) + Int32LE(xs[|xs| - 1])
  }

  function MappingBytes(m: Mapping): (r: Bytes)
    requires MappingFits(m)
    ensures |r| == 12
  {
    Int32LE(m.ecIndex) + Int32LE(m.targetIndex) + Int32LE(m.flags)
  }

  function MappingsBytes(ms: seq<Mapping>): (r: Bytes)
    requires MappingsFit(ms)
    ensures |r| == 12 * |ms|
  {
    if |ms| == 0 then [] else MappingsBytes(ms[..|ms| - 1]) + MappingBytes(ms[|ms| - 1])
  }

  /** The whole file. */
  function Serialize(f: EcFile): Bytes
    requires Representable(f)
  {
    Int32LE(FORMAT_VERSION)
    + (Int32LE(|f.targets|) + NamesBytes(f.targets)
    + (Int32LE(|f.haplotypes|) + NamesBytes(f.haplotypes)
    + (Int32LE(|f.counts|) + IntsBytes(f.counts)
    + (Int32LE(|f.mappings|) + MappingsBytes(f.mappings)))))
  }

  // Reading the file back

  /** A non-negative list length at `pos`, and the position after it. */
  function ReadLength(b: Bytes, pos: nat): (r: Option<(nat, nat)>)
    ensures r.Some? ==> r.value.1 == pos + 4 <= |b|
  {
    if pos + 4 <= |b| && ReadInt32(b, pos) >= 0 then Some((ReadInt32(b, pos), pos + 4)) else None
  }

  /** `n` length-prefixed names starting at `pos`, and the position after them. */
  function ParseNames(b: Bytes, pos: nat, n: nat): (r: Option<(seq<Bytes>, nat)>)
    ensures r.Some? ==> |r.value.0| == n && r.value.1 <= |b|
  {
    if n == 0 then (if pos <= |b| then Some(([], pos)) else None)
    else
      var init :- ParseNames(b, pos, n - 1);
      var len :- ReadLength(b, init.1);
      if len.1 + len.0 <= |b| then Some((init.0 + [b[len.1..len.1 + len.0]], len.1 + len.0)) else None
  }

  function ParseInts(b: Bytes, pos: nat, n: nat): (r: Option<(seq<int>, nat)>)
    ensures r.Some? ==> |r.value.0| == n && r.value.1 <= |b|
  {
    if n == 0 then (if pos <= |b| then Some(([], pos)) else None)
    else
      var init :- ParseInts(b, pos, n - 1);
      if init.1 + 4 <= |b| then Some((init.0 + [ReadInt32(b, init.1)], init.1 + 4)) else None
  }

  function ParseMappings(b: Bytes, pos: nat, n: nat): (r: Option<(seq<Mapping>, nat)>)
    ensures r.Some? ==> |r.value.0| == n && r.value.1 <= |b|
  {
    if n == 0 then (if pos <= |b| then Some(([], pos)) else None)
    else
      var init :- ParseMappings(b, pos, n - 1);
      var p := init.1;
      if p + 12 <= |b|
      then Some((init.0 + [Mapping(ReadInt32(b, p), ReadInt32(b, p + 4), ReadInt32(b, p + 8))], p + 12))
      else None
  }

  /** `r` is a successful read of `x` that ends at `p`. */
  predicate Parsed<T(==)>(r: Option<(T, nat)>, x: T, p: int)
  {
    r.Some? && r.value.0 == x && r.value.1 == p
  }

  /** A list length followed by that many names. */
  function ParseCountedNames(b: Bytes, pos: nat): Option<(seq<Bytes>, nat)>
  {
    var n :- ReadLength(b, pos);
    ParseNames(b, n.1, n.0)
  }

  function ParseCountedInts(b: Bytes, pos: nat): Option<(seq<int>, nat)>
  {
    var n :- ReadLength(b, pos);
    ParseInts(b, n.1, n.0)
  }

  function ParseCountedMappings(b: Bytes, pos: nat): Option<(seq<Mapping>, nat)>
  {
    var n :- ReadLength(b, pos);
    ParseMappings(b, n.1, n.0)
  }

  /** The reader: a version-1 file with nothing after its last mapping. */
  function Parse(b: Bytes): Option<EcFile>
  {
    if |b| < 4 || ReadInt32(b, 0) != FORMAT_VERSION then None
    else
      var targets :- ParseCountedNames(b, 4);
      var haplotypes :- ParseCountedNames(b, targets.1);
      var counts :- ParseCountedInts(b, haplotypes.1);
      var mappings :- ParseCountedMappings(b, counts.1);
      if mappings.1 == |b| then Some(EcFile(targets.0, haplotypes.0, counts.0, mappings.0)) else None
  }

  // The round trip

  /** Where the rest of `b` starts with `s`, the next `|s|` bytes are `s`. */
  lemma SegmentAt(b: Bytes, pos: nat, s: Bytes, rest: Bytes)
    requires pos <= |b| && b[pos..] == s + rest
    ensures pos + |s| <= |b| && b[pos..pos + |s|] == s && b[pos + |s|..] == rest
  {
    assert b[pos..pos + |s|] == b[pos..][..|s|];
    assert b[pos + |s|..] == b[pos..][|s|..];
  }

  /** A slice of a slice. */
  lemma SliceOfSlice(b: Bytes, pos: nat, s: Bytes, t: Bytes)
    requires pos + |s| + |t| <= |b| && b[pos..pos + |s| + |t|] == s + t
    ensures b[pos..pos + |s|] == s
    ensures b[pos + |s|..pos + |s| + |t|] == t
  {
    assert b[pos..pos + |s|] == (s + t)[..|s|];
    assert b[pos + |s|..pos + |s| + |t|] == (s + t)[|s|..];
  }

  /** A list length written at `pos` reads back. */
  lemma ReadLengthAt(b: Bytes, pos: nat, n: nat)
    requires n <= INT32_MAX && pos + 4 <= |b| && b[pos..pos + 4] == Int32LE(n)
    ensures ReadLength(b, pos) == Some((n, pos + 4))
  {
    ReadInt32At(b, pos, n);
  }

  /** One more name after the ones already read. */
  lemma ParseNamesStep(b: Bytes, pos: nat, init: seq<Bytes>, p: nat, last: Bytes)
    requires ParseNames(b, pos, |init|) == Some((init, p))
    requires ReadLength(b, p) == Some((|last|, p + 4))
    requires p + 4 + |last| <= |b| && b[p + 4..p + 4 + |last|] == last
    ensures ParseNames(b, pos, |init| + 1) == Some((init + [last], p + 4 + |last|))
  {
  }

  lemma ParseNamesSnoc(b: Bytes, pos: nat, names: seq<Bytes>, init: seq<Bytes>, last: Bytes, q: nat)
    requires names == init + [last]
    requires ParseNames(b, pos, |init| + 1) == Some((init + [last], q))
    ensures ParseNames(b, pos, |names|) == Some((names, q))
  {
    assert |names| == |init| + 1;
  }

  /** Where the earlier names, the last name's length and the last name
      lie in the bytes of a list of names. */
  lemma NamesLayout(b: Bytes, pos: nat, names: seq<Bytes>)
    requires |names| > 0 && NamesFit(names)
    requires pos + |NamesBytes(names)| <= |b| && b[pos..pos + |NamesBytes(names)|] == NamesBytes(names)
    ensures var init := names[..|names| - 1];
      var last := names[|names| - 1];
      var p := pos + |NamesBytes(init)|;
      && NamesFit(init)
      && p + 4 + |last| == pos + |NamesBytes(names)|
      && b[pos..p] == NamesBytes(init)
      && b[p..p + 4] == Int32LE(|last|)
      && b[p + 4..p + 4 + |last|] == last
  {
    var init := names[..|names| - 1];
    var last := names[|names| - 1];
    assert NamesFit(init);
    var head := NamesBytes(init) + Int32LE(|last|);
    assert NamesBytes(names) == head + last;
    SliceOfSlice(b, pos, head, last);
    SliceOfSlice(b, pos, NamesBytes(init), Int32LE(|last|));
  }

  /** Each name's length and bytes lie where the bytes of a list of
      names put them, the list ending at `end`. */
  ghost predicate NamesAt(b: Bytes, pos: nat, names: seq<Bytes>, end: nat)
    decreases |names|
  {
    if |names| == 0 then end == pos <= |b|
    else
      var last := names[|names| - 1];
      && end >= 4 + |last|
      && NamesAt(b, pos, names[..|names| - 1], end - 4 - |last|)
      && ReadLength(b, end - 4 - |last|) == Some((|last|, end - |last|))
      && end <= |b| && b[end - |last|..end] == last
  }

  /** The bytes of a list of names place each name as `NamesAt` says. */
  lemma {:induction false} NamesAtBytes(b: Bytes, pos: nat, names: seq<Bytes>)
    requires NamesFit(names)
    requires pos + |NamesBytes(names)| <= |b| && b[pos..pos + |NamesBytes(names)|] == NamesBytes(names)
    ensures NamesAt(b, pos, names, pos + |NamesBytes(names)|)
    decreases |names|
  {
    if |names| > 0 {
      InitNamesAt(b, pos, names);
      NamesAtBytes(b, pos, names[..|names| - 1]);
      LastNameAt(b, pos, names);
    } else {
      assert NamesBytes(names) == [];
    }
  }

  /** Names placed as `NamesAt` says read back, ending at `end`. */
  lemma {:induction false} ParseNamesAtEnd(b: Bytes, pos: nat, names: seq<Bytes>, end: nat)
    requires NamesAt(b, pos, names, end)
    ensures ParseNames(b, pos, |names|) == Some((names, end))
    decreases |names|
  {
    if |names| > 0 {
      var init := names[..|names| - 1];
      var last := names[|names| - 1];
      var p := end - 4 - |last|;
      ParseNamesAtEnd(b, pos, init, p);
      ParseNamesStep(b, pos, init, p, last);
      assert names == init + [last];
      ParseNamesSnoc(b, pos, names, init, last, end);
    } else {
      assert names == [];
    }
  }

  /** The bytes of all names but the last come first. */
  lemma InitNamesAt(b: Bytes, pos: nat, names: seq<Bytes>)
    requires |names| > 0 && NamesFit(names)
    requires pos + |NamesBytes(names)| <= |b| && b[pos..pos + |NamesBytes(names)|] == NamesBytes(names)
    ensures var init := names[..|names| - 1];
      && NamesFit(init)
      && pos + |NamesBytes(init)| <= |b| && b[pos..pos + |NamesBytes(init)|] == NamesBytes(init)
  {
    NamesLayout(b, pos, names);
  }

  /** The last name's length and bytes follow the earlier names, and end
      where the list's bytes end. */
  lemma LastNameAt(b: Bytes, pos: nat, names: seq<Bytes>)
    requires |names| > 0 && NamesFit(names)
    requires pos + |NamesBytes(names)| <= |b| && b[pos..pos + |NamesBytes(names)|] == NamesBytes(names)
    ensures var last := names[|names| - 1];
      var end := pos + |NamesBytes(names)|;
      && end >= 4 + |last|
      && end - 4 - |last| == pos + |NamesBytes(names[..|names| - 1])|
      && ReadLength(b, end - 4 - |last|) == Some((|last|, end - |last|))
      && b[end - |last|..end] == last
  {
    NamesLayout(b, pos, names);
    var init := names[..|names| - 1];
    ReadLengthAt(b, pos + |NamesBytes(init)|, |names[|names| - 1]|);
  }

  lemma {:induction false} ParseIntsAt(b: Bytes, pos: nat, xs: seq<int>)
    requires IntsFit(xs)
    requires pos + |IntsBytes(xs)| <= |b| && b[pos..pos + |IntsBytes(xs)|] == IntsBytes(xs)
    ensures ParseInts(b, pos, |xs|) == Some((xs, pos + |IntsBytes(xs)|))
  {
    if |xs| > 0 {
      var init := xs[..|xs| - 1];
      var last := xs[|xs| - 1];
      SliceOfSlice(b, pos, IntsBytes(init), Int32LE(last));
      ParseIntsAt(b, pos, init);
      ReadInt32At(b, pos + |IntsBytes(init)|, last);
      assert xs == init + [last];
    }
  }

  lemma ReadMappingAt(b: Bytes, pos: nat, m: Mapping)
    requires MappingFits(m) && pos + 12 <= |b| && b[pos..pos + 12] == MappingBytes(m)
    ensures ReadInt32(b, pos) == m.ecIndex
    ensures ReadInt32(b, pos + 4) == m.targetIndex
    ensures ReadInt32(b, pos + 8) == m.flags
  {
    SliceOfSlice(b, pos, Int32LE(m.ecIndex) + Int32LE(m.targetIndex), Int32LE(m.flags));
    SliceOfSlice(b, pos, Int32LE(m.ecIndex), Int32LE(m.targetIndex));
    ReadInt32At(b, pos, m.ecIndex);
    ReadInt32At(b, pos + 4, m.targetIndex);
    ReadInt32At(b, pos + 8, m.flags);
  }

  lemma {:induction false} ParseMappingsAt(b: Bytes, pos: nat, ms: seq<Mapping>)
    requires MappingsFit(ms)
    requires pos + |MappingsBytes(ms)| <= |b| && b[pos..pos + |MappingsBytes(ms)|] == MappingsBytes(ms)
    ensures ParseMappings(b, pos, |ms|) == Some((ms, pos + |MappingsBytes(ms)|))
  {
    if |ms| > 0 {
      var init := ms[..|ms| - 1];
      var last := ms[|ms| - 1];
      assert MappingsFit(init);
      SliceOfSlice(b, pos, MappingsBytes(init), MappingBytes(last));
      ParseMappingsAt(b, pos, init);
      var p := pos + |MappingsBytes(init)|;
      ReadMappingAt(b, p, last);
      ParseMappingsNext(b, pos, |init|);
      assert ms == init + [last];
    }
  }

  /** A successful read of `n` mappings followed by twelve more bytes
      reads `n + 1` mappings. */
  lemma ParseMappingsNext(b: Bytes, pos: nat, n: nat)
    requires ParseMappings(b, pos, n).Some? && ParseMappings(b, pos, n).value.1 + 12 <= |b|
    ensures var prev := ParseMappings(b, pos, n).value;
      var p := prev.1;
      ParseMappings(b, pos, n + 1)
        == Some((prev.0 + [Mapping(ReadInt32(b, p), ReadInt32(b, p + 4), ReadInt32(b, p + 8))], p + 12))
  {
  }

  lemma CountedNamesAt(b: Bytes, pos: nat, names: seq<Bytes>, rest: Bytes, next: nat)
    requires |names| <= INT32_MAX && NamesFit(names)
    requires pos <= |b| && b[pos..] == Int32LE(|names|) + NamesBytes(names) + rest
    requires next == pos + 4 + |NamesBytes(names)|
    ensures Parsed(ParseCountedNames(b, pos), names, next)
    ensures b[next..] == rest
  {
    SegmentAt(b, pos, Int32LE(|names|) + NamesBytes(names), rest);
    SliceOfSlice(b, pos, Int32LE(|names|), NamesBytes(names));
    ReadLengthAt(b, pos, |names|);
    NamesAtBytes(b, pos + 4, names);
    ParseNamesAtEnd(b, pos + 4, names, pos + 4 + |NamesBytes(names)|);
  }

  lemma CountedIntsAt(b: Bytes, pos: nat, xs: seq<int>, rest: Bytes, next: nat)
    requires |xs| <= INT32_MAX && IntsFit(xs)
    requires pos <= |b| && b[pos..] == Int32LE(|xs|) + IntsBytes(xs) + rest
    requires next == pos + 4 + |IntsBytes(xs)|
    ensures Parsed(ParseCountedInts(b, pos), xs, next)
    ensures b[next..] == rest
  {
    SegmentAt(b, pos, Int32LE(|xs|) + IntsBytes(xs), rest);
    SliceOfSlice(b, pos, Int32LE(|xs|), IntsBytes(xs));
    ReadLengthAt(b, pos, |xs|);
    ParseIntsAt(b, pos + 4, xs);
  }

  lemma CountedMappingsAt(b: Bytes, pos: nat, ms: seq<Mapping>, rest: Bytes, next: nat)
    requires |ms| <= INT32_MAX && MappingsFit(ms)
    requires pos <= |b| && b[pos..] == Int32LE(|ms|) + MappingsBytes(ms) + rest
    requires next == pos + 4 + |MappingsBytes(ms)|
    ensures Parsed(ParseCountedMappings(b, pos), ms, next)
    ensures b[next..] == rest
  {
    SegmentAt(b, pos, Int32LE(|ms|) + MappingsBytes(ms), rest);
    SliceOfSlice(b, pos, Int32LE(|ms|), MappingsBytes(ms));
    ReadLengthAt(b, pos, |ms|);
    ParseMappingsAt(b, pos + 4, ms);
  }

  /** The reader's steps, each already known to succeed. */
  lemma ParseSteps(b: Bytes, f: EcFile, p1: nat, p2: nat, p3: nat)
    requires |b| >= 4 && ReadInt32(b, 0) == FORMAT_VERSION
    requires Parsed(ParseCountedNames(b, 4), f.targets, p1)
    requires Parsed(ParseCountedNames(b, p1), f.haplotypes, p2)
    requires Parsed(ParseCountedInts(b, p2), f.counts, p3)
    requires Parsed(ParseCountedMappings(b, p3), f.mappings, |b|)
    ensures Parse(b) == Some(f)
  {
  }

  /** Where the targets, haplotypes and counts sections of the image end. */
  function Ends(f: EcFile): (r: (nat, nat, nat))
    requires Representable(f)
  {
    var p1 := 4 + 4 + |NamesBytes(f.targets)|;
    var p2 := p1 + 4 + |NamesBytes(f.haplotypes)|;
    (p1, p2, p2 + 4 + |IntsBytes(f.counts)|)
  }

  /** Each section of a file laid out as written reads back. */
  lemma ParseImage(b: Bytes, f: EcFile)
    requires Representable(f)
    requires |b| >= 4 && b[..4] == Int32LE(FORMAT_VERSION)
    requires b[4..] == Int32LE(|f.targets|) + NamesBytes(f.targets)
      + (Int32LE(|f.haplotypes|) + NamesBytes(f.haplotypes)
      + (Int32LE(|f.counts|) + IntsBytes(f.counts) + (Int32LE(|f.mappings|) + MappingsBytes(f.mappings))))
    ensures ReadInt32(b, 0) == FORMAT_VERSION
    ensures Parsed(ParseCountedNames(b, 4), f.targets, Ends(f).0)
    ensures Parsed(ParseCountedNames(b, Ends(f).0), f.haplotypes, Ends(f).1)
    ensures Parsed(ParseCountedInts(b, Ends(f).1), f.counts, Ends(f).2)
    ensures Parsed(ParseCountedMappings(b, Ends(f).2), f.mappings, |b|)
  {
    ReadInt32At(b, 0, FORMAT_VERSION);
    var e := Ends(f);
    var c := Int32LE(|f.counts|) + IntsBytes(f.counts);
    var m := Int32LE(|f.mappings|) + MappingsBytes(f.mappings);
    CountedNamesAt(b, 4, f.targets, Int32LE(|f.haplotypes|) + NamesBytes(f.haplotypes) + (c + m), e.0);
    CountedNamesAt(b, e.0, f.haplotypes, c + m, e.1);
    CountedIntsAt(b, e.1, f.counts, m, e.2);
    CountedMappingsAt(b, e.2, f.mappings, [], |b|);
  }

  /** Every representable file reads back as itself. */
  lemma ParseSerialize(f: EcFile)
    requires Representable(f)
    ensures Parse(Serialize(f)) == Some(f)
  {
    var b := Serialize(f);
    var rest := Int32LE(|f.targets|) + NamesBytes(f.targets)
      + (Int32LE(|f.haplotypes|) + NamesBytes(f.haplotypes)
      + (Int32LE(|f.counts|) + IntsBytes(f.counts) + (Int32LE(|f.mappings|) + MappingsBytes(f.mappings))));
    assert b == Int32LE(FORMAT_VERSION) + rest;
    assert b[..4] == Int32LE(FORMAT_VERSION);
    assert b[4..] == rest;
    ParseImage(b, f);
    ParseSteps(b, f, Ends(f).0, Ends(f).1, Ends(f).2);
  }

  /** Files with different contents have different images. */
  lemma SerializeInjective(f: EcFile, g: EcFile)
    requires Representable(f) && Representable(g) && Serialize(f) == Serialize(g)
    ensures f == g
  {
    ParseSerialize(f);
    ParseSerialize(g);
  }
}

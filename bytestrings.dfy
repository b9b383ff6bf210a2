/** Python 2 `str` values are byte strings. This module models them as
    sequences of bytes, together with the handful of `str` operations the
    converter uses: `find`, `rfind`, `split`, `join`, `str(int)` and the
    ordering that `sorted` applies. */
module ByteStrings {

  type byte = x: int | 0 <= x < 256
  type Bytes = seq<byte>

  const UNDERSCORE: byte := 0x5F  // '_'
  const SPACE: byte := 0x20       // ' '
  const COMMA: byte := 0x2C       // ','
  const BAR: byte := 0x7C         // '|'
  const MINUS: byte := 0x2D       // '-'
  const DIGIT_ZERO: byte := 0x30  // '0'

  /** The separator `'|||'` between the fields of a multisample read name. */
  const TAG_SEPARATOR: Bytes := [BAR, BAR, BAR]

  // ---------------------------------------------------------------------
  // find / rfind

  /** `s.find(c)`: the first index of `c` in `s`, or -1 when there is none. */
  function Find(s: Bytes, c: byte): (i: int)
    ensures -1 <= i < |s|
    ensures i >= 0 ==> s[i] == c
    ensures forall j :: 0 <= j < |s| && (i < 0 || j < i) ==> s[j] != c
  {
    if |s| == 0 then -1
    else if s[0] == c then 0
    else
      var k := Find(s[1..], c);
      if k < 0 then -1 else k + 1
  }

  /** `s.rfind(c)`: the last index of `c` in `s`, or -1 when there is none. */
  function RFind(s: Bytes, c: byte): (i: int)
    ensures -1 <= i < |s|
    ensures i >= 0 ==> s[i] == c
    ensures forall j :: i < j < |s| ==> s[j] != c
  {
    if |s| == 0 then -1
    else if s[|s| - 1] == c then |s| - 1
    else RFind(s[..|s| - 1], c)
  }

  /** `sep` occurs in `s` starting at index `j`. */
  predicate OccursAt(s: Bytes, sep: Bytes, j: int)
  {
    0 <= j && j + |sep| <= |s| && s[j..j + |sep|] == sep
  }

  /** `s.find(sep)` for a non-empty separator: the first index at which
      `sep` occurs in `s`, or -1 when it does not occur. */
  function FindSub(s: Bytes, sep: Bytes): (i: int)
    requires |sep| > 0
    ensures -1 <= i <= |s| - |sep| || i == -1
    ensures i >= 0 ==> OccursAt(s, sep, i)
    ensures forall j :: (i < 0 || j < i) ==> !OccursAt(s, sep, j)
    decreases |s|
  {
    if |s| < |sep| then -1
    else if s[..|sep|] == sep then 0
    else
      var k := FindSub(s[1..], sep);
      assert forall j :: 1 <= j ==> (OccursAt(s, sep, j) <==> OccursAt(s[1..], sep, j - 1)) by {
        forall j | 1 <= j
          ensures OccursAt(s, sep, j) <==> OccursAt(s[1..], sep, j - 1)
        {
          if j + |sep| <= |s| {
            assert s[1..][j - 1..j - 1 + |sep|] == s[j..j + |sep|];
          }
        }
      }
      if k < 0 then -1 else k + 1
  }

  // ---------------------------------------------------------------------
  // split / join

  /** `s.split(sep)` for a non-empty separator: the pieces between the
      left-to-right, non-overlapping occurrences of `sep`. */
  function Split(s: Bytes, sep: Bytes): (parts: seq<Bytes>)
    requires |sep| > 0
    ensures |parts| >= 1
    decreases |s|
  {
    var i := FindSub(s, sep);
    if i < 0 then [s] else [s[..i]] + Split(s[i + |sep|..], sep)
  }

  /** `sep.join(parts)`. */
  function Join(parts: seq<Bytes>, sep: Bytes): Bytes
  {
    if |parts| == 0 then []
    else if |parts| == 1 then parts[0]
    else parts[0] + sep + Join(parts[1..], sep)
  }

  lemma FindSubSingleAbsent(s: Bytes, c: byte)
    requires c !in s
    ensures FindSub(s, [c]) == -1
  {
    forall j ensures !OccursAt(s, [c], j) {
      if 0 <= j < |s| {
        assert s[j..j + 1] == [s[j]];
      }
    }
  }

  lemma FindSubSingleFirst(x: Bytes, c: byte, y: Bytes)
    requires c !in x
    ensures FindSub(x + [c] + y, [c]) == |x|
  {
    var s := x + [c] + y;
    assert s[|x|..|x| + 1] == [c];
    assert OccursAt(s, [c], |x|);
    forall j | 0 <= j < |x| ensures !OccursAt(s, [c], j) {
      assert s[j..j + 1] == [x[j]];
    }
  }

  /** Splitting at a one-byte separator undoes joining with it, as long as
      no part contains the separator (`','.join` then `.split(',')`). */
  lemma {:induction false} SplitJoin(parts: seq<Bytes>, c: byte)
    requires |parts| >= 1
    requires forall k :: 0 <= k < |parts| ==> c !in parts[k]
    ensures Split(Join(parts, [c]), [c]) == parts
    decreases |parts|
  {
    if |parts| == 1 {
      FindSubSingleAbsent(parts[0], c);
    } else {
      var rest := Join(parts[1..], [c]);
      assert Join(parts, [c]) == parts[0] + [c] + rest;
      FindSubSingleFirst(parts[0], c, rest);
      var s := parts[0] + [c] + rest;
      assert s[..|parts[0]|] == parts[0];
      assert s[|parts[0]| + 1..] == rest;
      SplitJoin(parts[1..], c);
    }
  }

  /** A separator whose first byte does not occur in `s` does not occur
      in `s`. */
  lemma FindSubAbsent(s: Bytes, sep: Bytes)
    requires |sep| > 0 && sep[0] !in s
    ensures FindSub(s, sep) == -1
  {
    forall j | 0 <= j < |s| ensures !OccursAt(s, sep, j) {
      assert j + |sep| <= |s| ==> s[j..j + |sep|][0] == s[j];
    }
  }

  lemma FindSubFirst(x: Bytes, sep: Bytes, y: Bytes)
    requires |sep| > 0 && sep[0] !in x
    ensures FindSub(x + sep + y, sep) == |x|
  {
    var s := x + sep + y;
    assert s[|x|..|x| + |sep|] == sep;
    assert OccursAt(s, sep, |x|);
    forall j | 0 <= j < |x| ensures !OccursAt(s, sep, j) {
      assert j + |sep| <= |s| ==> s[j..j + |sep|][0] == x[j];
    }
  }

  /** Splitting undoes joining with a separator whose first byte occurs in
      no part (`'|||'.join` then `.split('|||')` on fields without `|`). */
  lemma {:induction false} SplitJoinSep(parts: seq<Bytes>, sep: Bytes)
    requires |parts| >= 1 && |sep| > 0
    requires forall k :: 0 <= k < |parts| ==> sep[0] !in parts[k]
    ensures Split(Join(parts, sep), sep) == parts
    decreases |parts|
  {
    if |parts| == 1 {
      FindSubAbsent(parts[0], sep);
    } else {
      var rest := Join(parts[1..], sep);
      assert Join(parts, sep) == parts[0] + sep + rest;
      FindSubFirst(parts[0], sep, rest);
      var s := parts[0] + sep + rest;
      assert s[..|parts[0]|] == parts[0];
      assert s[|parts[0]| + |sep|..] == rest;
      SplitJoinSep(parts[1..], sep);
    }
  }

  // ---------------------------------------------------------------------
  // Ordering of byte strings, as Python 2 compares `str` values

  /** `a < b` on Python 2 strings: lexicographic by byte, a proper prefix
      being smaller. */
  predicate Less(a: Bytes, b: Bytes)
  {
    if |a| == 0 then |b| > 0
    else if |b| == 0 then false
    else if a[0] != b[0] then a[0] < b[0]
    else Less(a[1..], b[1..])
  }

  predicate LessEq(a: Bytes, b: Bytes)
  {
    a == b || Less(a, b)
  }

  lemma {:induction false} LessIrreflexive(a: Bytes)
    ensures !Less(a, a)
  {
    if |a| > 0 {
      LessIrreflexive(a[1..]);
    }
  }

  lemma {:induction false} LessTransitive(a: Bytes, b: Bytes, c: Bytes)
    requires Less(a, b) && Less(b, c)
    ensures Less(a, c)
  {
    if |a| > 0 && |b| > 0 && |c| > 0 && a[0] == b[0] && b[0] == c[0] {
      LessTransitive(a[1..], b[1..], c[1..]);
    }
  }

  lemma {:induction false} LessTotal(a: Bytes, b: Bytes)
    ensures a == b || Less(a, b) || Less(b, a)
  {
    if |a| > 0 && |b| > 0 && a[0] == b[0] {
      LessTotal(a[1..], b[1..]);
      if a[1..] == b[1..] {
        assert a == [a[0]] + a[1..] && b == [b[0]] + b[1..];
      }
    }
  }

  lemma LessAsymmetric(a: Bytes, b: Bytes)
    requires Less(a, b)
    ensures !Less(b, a)
  {
    if Less(b, a) {
      LessTransitive(a, b, a);
      LessIrreflexive(a);
    }
  }

  lemma LessEqTransitive(a: Bytes, b: Bytes, c: Bytes)
    requires LessEq(a, b) && LessEq(b, c)
    ensures LessEq(a, c)
  {
    if a != b && b != c {
      LessTransitive(a, b, c);
    }
  }

  // ---------------------------------------------------------------------
  // sorted(...)

  predicate Sorted(s: seq<Bytes>)
  {
    forall i, j :: 0 <= i < j < |s| ==> LessEq(s[i], s[j])
  }

  predicate StrictlySorted(s: seq<Bytes>)
  {
    forall i, j :: 0 <= i < j < |s| ==> Less(s[i], s[j])
  }

  /** Places `x` in front of the first element of `s` that is not smaller. */
  function Insert(x: Bytes, s: seq<Bytes>): seq<Bytes>
  {
    if |s| == 0 then [x]
    else if LessEq(x, s[0]) then [x] + s
    else [s[0]] + Insert(x, s[1..])
  }

  /** `sorted(xs)` on a list of strings (insertion sort). */
  function Sort(xs: seq<Bytes>): seq<Bytes>
  {
    if |xs| == 0 then [] else Insert(xs[0], Sort(xs[1..]))
  }

  /** Inserting keeps a sorted list sorted. */
  lemma {:induction false} InsertSorted(x: Bytes, s: seq<Bytes>)
    requires Sorted(s)
    ensures Sorted(Insert(x, s))
    decreases |s|
  {
    if |s| == 0 {
    } else if LessEq(x, s[0]) {
      var r := [x] + s;
      forall i, j | 0 <= i < j < |r| ensures LessEq(r[i], r[j]) {
        if i == 0 && j > 1 {
          LessEqTransitive(x, s[0], s[j - 1]);
        }
      }
    } else {
      InsertSorted(x, s[1..]);
      InsertPerm(x, s[1..]);
      var t := Insert(x, s[1..]);
      var r := [s[0]] + t;
      LessTotal(x, s[0]);
      assert LessEq(s[0], x);
      forall i, j | 0 <= i < j < |r| ensures LessEq(r[i], r[j]) {
        if i == 0 {
          assert r[j] in multiset(t);
          if r[j] != x {
            assert r[j] in multiset(s[1..]);
            var k :| 0 <= k < |s[1..]| && s[1..][k] == r[j];
            assert s[k + 1] == r[j];
          }
        }
      }
    }
  }

  /** Inserting adds `x` and keeps every element. */
  lemma {:induction false} InsertPerm(x: Bytes, s: seq<Bytes>)
    ensures multiset(Insert(x, s)) == multiset(s) + multiset{x}
    decreases |s|
  {
    if |s| > 0 {
      assert s == [s[0]] + s[1..];
      if !LessEq(x, s[0]) {
        InsertPerm(x, s[1..]);
      }
    }
  }

  /** `sorted` returns its argument's elements in non-decreasing order. */
  lemma {:induction false} SortSorted(xs: seq<Bytes>)
    ensures Sorted(Sort(xs))
    ensures multiset(Sort(xs)) == multiset(xs)
    decreases |xs|
  {
    if |xs| > 0 {
      SortSorted(xs[1..]);
      InsertSorted(xs[0], Sort(xs[1..]));
      InsertPerm(xs[0], Sort(xs[1..]));
      assert xs == [xs[0]] + xs[1..];
    }
  }

  lemma SortElements(xs: seq<Bytes>)
    ensures |Sort(xs)| == |xs|
    ensures forall y :: y in Sort(xs) <==> y in xs
  {
    SortSorted(xs);
    assert |multiset(Sort(xs))| == |multiset(xs)|;
    forall y ensures y in Sort(xs) <==> y in xs {
      assert y in Sort(xs) <==> y in multiset(Sort(xs));
      assert y in xs <==> y in multiset(xs);
    }
  }

  /** Inserts `x` into a strictly sorted list unless it is already there. */
  function InsertUnique(x: Bytes, s: seq<Bytes>): seq<Bytes>
  {
    if |s| == 0 then [x]
    else if x == s[0] then s
    else if Less(x, s[0]) then [x] + s
    else [s[0]] + InsertUnique(x, s[1..])
  }

  /** `sorted(set(xs))`: the distinct elements of `xs`, in increasing order. */
  function SortedSet(xs: seq<Bytes>): seq<Bytes>
  {
    if |xs| == 0 then [] else InsertUnique(xs[0], SortedSet(xs[1..]))
  }

  lemma {:induction false} InsertUniqueSorted(x: Bytes, s: seq<Bytes>)
    requires StrictlySorted(s)
    ensures StrictlySorted(InsertUnique(x, s))
    ensures forall y :: y in InsertUnique(x, s) <==> y == x || y in s
    decreases |s|
  {
    if |s| == 0 {
    } else if x == s[0] {
    } else if Less(x, s[0]) {
      var r := [x] + s;
      forall i, j | 0 <= i < j < |r| ensures Less(r[i], r[j]) {
        if i == 0 && j > 1 {
          LessTransitive(x, s[0], s[j - 1]);
        }
      }
    } else {
      InsertUniqueSorted(x, s[1..]);
      var t := InsertUnique(x, s[1..]);
      var r := [s[0]] + t;
      LessTotal(x, s[0]);
      forall i, j | 0 <= i < j < |r| ensures Less(r[i], r[j]) {
        if i == 0 {
          assert r[j] in t;
          if r[j] != x {
            var k :| 0 <= k < |s[1..]| && s[1..][k] == r[j];
            assert s[k + 1] == r[j];
          }
        }
      }
      assert s == [s[0]] + s[1..];
    }
  }

  /** `sorted(set(xs))` lists every element of `xs` exactly once, in
      strictly increasing order, and nothing else. */
  lemma {:induction false} SortedSetSpec(xs: seq<Bytes>)
    ensures StrictlySorted(SortedSet(xs))
    ensures forall y :: y in SortedSet(xs) <==> y in xs
    decreases |xs|
  {
    if |xs| > 0 {
      SortedSetSpec(xs[1..]);
      InsertUniqueSorted(xs[0], SortedSet(xs[1..]));
      assert xs == [xs[0]] + xs[1..];
    }
  }

  /** The elements of `xs` without repetitions, each where it first
      appears (what filling an `OrderedDict` or a list guarded by
      `if x not in seen` yields). */
  function Distinct(xs: seq<Bytes>): (r: seq<Bytes>)
    ensures forall y :: y in r <==> y in xs
    ensures forall i, j :: 0 <= i < j < |r| ==> r[i] != r[j]
    ensures |r| <= |xs|
  {
    if |xs| == 0 then []
    else
      var init := Distinct(xs[..|xs| - 1]);
      assert forall y :: y in xs <==> y in xs[..|xs| - 1] || y == xs[|xs| - 1] by {
        assert xs == xs[..|xs| - 1] + [xs[|xs| - 1]];
      }
      if xs[|xs| - 1] in init then init else init + [xs[|xs| - 1]]
  }

  lemma DistinctSnoc(xs: seq<Bytes>, x: Bytes)
    ensures Distinct(xs + [x]) == if x in Distinct(xs) then Distinct(xs) else Distinct(xs) + [x]
  {
    assert (xs + [x])[..|xs|] == xs;
  }

  predicate NoDuplicates(s: seq<Bytes>)
  {
    forall i, j :: 0 <= i < j < |s| ==> s[i] != s[j]
  }

  /** Appending an element the list lacks keeps it free of repetitions. */
  lemma NoDuplicatesSnoc(s: seq<Bytes>, x: Bytes)
    requires NoDuplicates(s) && x !in s
    ensures NoDuplicates(s + [x])
  {
  }

  /** A list repeats no element exactly when no element occurs in it more
      than once. */
  lemma {:induction false} NoDuplicatesMultiset(s: seq<Bytes>)
    ensures NoDuplicates(s) <==> forall x :: multiset(s)[x] <= 1
    decreases |s|
  {
    if |s| > 0 {
      var rest := s[1..];
      assert s == [s[0]] + rest;
      NoDuplicatesMultiset(rest);
      if NoDuplicates(s) {
        assert NoDuplicates(rest) by {
          forall i, j | 0 <= i < j < |rest| ensures rest[i] != rest[j] {
            assert rest[i] == s[i + 1] && rest[j] == s[j + 1];
          }
        }
        assert s[0] !in rest by {
          forall j | 0 <= j < |rest| ensures rest[j] != s[0] {
            assert rest[j] == s[j + 1];
          }
        }
      } else {
        var i, j :| 0 <= i < j < |s| && s[i] == s[j];
        if i == 0 {
          assert rest[j - 1] == s[0];
          assert multiset(s)[s[0]] >= 2;
        } else {
          assert rest[i - 1] == rest[j - 1];
          assert !NoDuplicates(rest);
          var x :| multiset(rest)[x] > 1;
          assert multiset(s)[x] > 1;
        }
      }
    }
  }

  /** Sorting a list that repeats nothing gives a strictly sorted list. */
  lemma SortNoDuplicates(xs: seq<Bytes>)
    requires NoDuplicates(xs)
    ensures StrictlySorted(Sort(xs))
  {
    SortSorted(xs);
    NoDuplicatesMultiset(xs);
    NoDuplicatesMultiset(Sort(xs));
    var s := Sort(xs);
    forall i, j | 0 <= i < j < |s| ensures Less(s[i], s[j]) {
      assert LessEq(s[i], s[j]);
    }
  }

  /** A strictly sorted list never repeats an element. */
  lemma StrictlySortedDistinct(s: seq<Bytes>)
    requires StrictlySorted(s)
    ensures forall i, j :: 0 <= i < j < |s| ==> s[i] != s[j]
  {
    forall i, j | 0 <= i < j < |s| ensures s[i] != s[j] {
      LessIrreflexive(s[i]);
    }
  }

  // ---------------------------------------------------------------------
  // str(n)

  /** The decimal digits of a non-negative integer, most significant first. */
  function Digits(n: nat): (r: Bytes)
    ensures |r| >= 1
    ensures forall i :: 0 <= i < |r| ==> DIGIT_ZERO <= r[i] <= DIGIT_ZERO + 9
  {
    if n < 10 then [DIGIT_ZERO + n] else Digits(n / 10) + [DIGIT_ZERO + n % 10]
  }

  /** `str(n)` for an integer. */
  function Decimal(n: int): (r: Bytes)
    ensures |r| >= 1 && COMMA !in r
  {
    if n < 0 then [MINUS] + Digits(-n) else Digits(n)
  }

  /** The value of a string of decimal digits. */
  function DigitsValue(s: Bytes): int
  {
    if |s| == 0 then 0 else DigitsValue(s[..|s| - 1]) * 10 + (s[|s| - 1] - DIGIT_ZERO)
  }

  /** `int(str(n))`: the decimal text of `n` reads back as `n`. */
  function ParseDecimal(s: Bytes): int
  {
    if |s| > 0 && s[0] == MINUS then -DigitsValue(s[1..]) else DigitsValue(s)
  }

  lemma {:induction false} DigitsValueDigits(n: nat)
    ensures DigitsValue(Digits(n)) == n
    decreases n
  {
    if n >= 10 {
      DigitsValueDigits(n / 10);
      var s := Digits(n);
      assert s[..|s| - 1] == Digits(n / 10);
    }
  }

  /** `int(str(n)) == n`, so distinct integers have distinct decimal texts. */
  lemma DecimalRoundTrip(n: int)
    ensures ParseDecimal(Decimal(n)) == n
  {
    if n < 0 {
      DigitsValueDigits(-n);
      assert Decimal(n)[1..] == Digits(-n);
    } else {
      DigitsValueDigits(n);
    }
  }

  lemma DecimalInjective(a: int, b: int)
    requires Decimal(a) == Decimal(b)
    ensures a == b
  {
    DecimalRoundTrip(a);
    DecimalRoundTrip(b);
  }
}

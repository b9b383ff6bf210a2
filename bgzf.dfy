/** The BGZF end-of-file check and repair (`fix_bam`, `validate_bam`).
    A BAM file is BGZF-compressed: it starts with a 16-byte block header and
    ends with the 28-byte empty block that marks the end of the file
    (section 4.1.2 of the SAM/BAM format specification). A file on disk is
    `Some(content)`, a path with no file behind it is `None`. */
module Bgzf {
  import opened Wrappers
  import opened ByteStrings

  /** The first 16 bytes of every BGZF block: gzip magic, deflate, FEXTRA,
      and the "BC" extra subfield of length 2. */
  const BAM_HEADER: Bytes :=
    [0x1f, 0x8b, 0x08, 0x04, 0x00, 0x00, 0x00, 0x00,
     0x00, 0xff, 0x06, 0x00, 0x42, 0x43, 0x02, 0x00]

  /** The empty BGZF block that terminates a BAM file. */
  const BAM_EOF: Bytes := BAM_HEADER +
    [0x1b, 0x00, 0x03, 0x00, 0x00, 0x00, 0x00, 0x00,
     0x00, 0x00, 0x00, 0x00]

  /** Why a file was refused: the path names no file (`sys.exit`), the
      first bytes are not a BGZF header, the file is too short to seek 28
      bytes back from its end (an `IOError`), or the end-of-file block is
      missing (`validate_bam` only). */
  datatype BamError = MissingFile | NotBam | ShortFile | BadEof

  /** `h.read(n)`: at most `n` bytes from position `pos`. */
  function ReadAt(content: Bytes, pos: nat, n: nat): (r: Bytes)
    ensures |r| <= n && (|r| == 0 || pos + |r| <= |content|)
    ensures pos + n <= |content| ==> |r| == n
    ensures forall i :: 0 <= i < |r| ==> r[i] == content[pos + i]
  {
    if pos >= |content| then []
    else if pos + n <= |content| then content[pos..pos + n]
    else content[pos..]
  }

  predicate HasHeader(content: Bytes)
  {
    ReadAt(content, 0, |BAM_HEADER|) == BAM_HEADER
  }

  /** The last 28 bytes are the end-of-file block. */
  predicate HasEof(content: Bytes)
  {
    |content| >= |BAM_EOF| && content[|content| - |BAM_EOF|..] == BAM_EOF
  }

  /** The checks common to both operations: the file exists, starts like
      BGZF and is long enough to seek 28 bytes back from its end. The value
      says whether the end-of-file block is already there. */
  function CheckBam(file: Option<Bytes>): Result<bool, BamError>
  {
    if file.None? then Failure(MissingFile)
    else if !HasHeader(file.value) then Failure(NotBam)
    else if |file.value| < |BAM_EOF| then Failure(ShortFile)
    else Success(HasEof(file.value))
  }

  /** `fix_bam`: the new content of the file, or why it was refused. */
  function FixBam(file: Option<Bytes>): Result<Bytes, BamError>
  {
    match CheckBam(file)
    case Failure(e) => Failure(e)
    case Success(eof) => Success(if eof then file.value else file.value + BAM_EOF)
  }

  /** `validate_bam`: succeeds or names the first check that failed. */
  function ValidateBam(file: Option<Bytes>): Result<(), BamError>
  {
    match CheckBam(file)
    case Failure(e) => Failure(e)
    case Success(eof) => if eof then Success(()) else Failure(BadEof)
  }

  /** A successful repair keeps every byte of the file, adds nothing when
      the end-of-file block is present and exactly that block otherwise;
      it fails exactly when the file is missing, is not BGZF or is shorter
      than 28 bytes. */
  lemma FixBamSpec(file: Option<Bytes>)
    ensures FixBam(file).Success? <==>
      file.Some? && |file.value| >= |BAM_EOF| && file.value[..|BAM_HEADER|] == BAM_HEADER
    ensures file.None? ==> FixBam(file) == Failure(MissingFile)
    ensures FixBam(file).Success? ==>
      var out := FixBam(file).value;
      && out[..|file.value|] == file.value
      && HasEof(out)
      && (out == file.value <==> HasEof(file.value))
      && (out != file.value ==> out == file.value + BAM_EOF)
  {
    if file.Some? && |file.value| >= |BAM_EOF| {
      assert ReadAt(file.value, 0, |BAM_HEADER|) == file.value[..|BAM_HEADER|];
      if FixBam(file).Success? && !HasEof(file.value) {
        var out := file.value + BAM_EOF;
        assert out[|out| - |BAM_EOF|..] == BAM_EOF;
        assert out[..|file.value|] == file.value;
      }
    }
  }

  /** Repairing twice is repairing once. */
  lemma FixBamIdempotent(file: Option<Bytes>)
    requires FixBam(file).Success?
    ensures FixBam(Some(FixBam(file).value)) == FixBam(file)
  {
    FixBamSpec(file);
    var out := FixBam(file).value;
    assert out[..|BAM_HEADER|] == file.value[..|BAM_HEADER|];
    assert ReadAt(out, 0, |BAM_HEADER|) == out[..|BAM_HEADER|];
  }

  /** `validate_bam` accepts exactly the files `fix_bam` leaves unchanged,
      refuses the others with `fix_bam`'s own error or with `BadEof` when
      `fix_bam` would append the block, and accepts every repaired file. */
  lemma ValidateMatchesFix(file: Option<Bytes>)
    ensures ValidateBam(file).Success? <==> file.Some? && FixBam(file) == Success(file.value)
    ensures FixBam(file).Failure? ==> ValidateBam(file) == Failure(FixBam(file).error)
    ensures ValidateBam(file) == Failure(BadEof) <==>
      FixBam(file).Success? && FixBam(file).value != file.value
    ensures FixBam(file).Success? ==> ValidateBam(Some(FixBam(file).value)) == Success(())
  {
    FixBamSpec(file);
    if FixBam(file).Success? {
      FixBamIdempotent(file);
    }
  }

  /** The file `fix_bam` opens and, when needed, appends to. */
  class BamFile {
    var content: Option<Bytes>

    constructor (file: Option<Bytes>)
      ensures content == file
    {
      content := file;
    }

    /** `fix_bam(filename)`: on success the file holds its repaired
        content; on failure nothing was written. */
    method Fix() returns (r: Result<(), BamError>)
      modifies this
      ensures r.Success? <==> FixBam(old(content)).Success?
      ensures r.Failure? ==> r.error == FixBam(old(content)).error && content == old(content)
      ensures r.Success? ==> content == Some(FixBam(old(content)).value)
    {
      if content.None? {
        return Failure(MissingFile);
      }
      var data := content.value;
      var head := ReadAt(data, 0, |BAM_HEADER|);
      if head != BAM_HEADER {
        return Failure(NotBam);
      }
      if |data| < |BAM_EOF| {
        return Failure(ShortFile);
      }
      var tail := ReadAt(data, |data| - |BAM_EOF|, |BAM_EOF|);
      assert tail == data[|data| - |BAM_EOF|..];
      if tail != BAM_EOF {
        content := Some(data + BAM_EOF);
      }
      return Success(());
    }
  }
}

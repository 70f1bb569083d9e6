/**
 Splicing the archive identity into the comment of a ZIP end-of-central-directory record
 (section 4.3.16 of PKWARE APPNOTE): signature at 0, comment length (little endian) at 20,
 comment from 22.
 */
module ArchiveComment {
  import opened Common

  const SIGNATURE: Bytes := [0x50, 0x4b, 0x05, 0x06]

  predicate SignatureAt(contents: Bytes, i: int) {
    0 <= i && i + 4 <= |contents| && contents[i..i + 4] == SIGNATURE
  }

  /** i is the last place the signature occurs. */
  ghost predicate IsLastSignature(contents: Bytes, i: int) {
    SignatureAt(contents, i) && forall k :: i < k ==> !SignatureAt(contents, k)
  }

  method LastSignature(contents: Bytes) returns (i: int)
    ensures i >= 0 ==> IsLastSignature(contents, i)
    ensures i < 0 ==> forall k :: !SignatureAt(contents, k)
  {
    i := |contents| - 4;
    while i >= 0 && !SignatureAt(contents, i)
      invariant forall k :: i < k ==> !SignatureAt(contents, k)
      decreases i
    {
      i := i - 1;
    }
  }

  /** The two length bytes read as a number. */
  function CommentLength(contents: Bytes, end: nat): (n: nat)
    requires end + 22 <= |contents|
    ensures n < 0x1_0000
  {
    contents[end + 20] as int + 256 * contents[end + 21] as int
  }

  function LengthBytes(n: nat): (b: Bytes)
    requires n < 0x1_0000
    ensures |b| == 2 && b[0] as int + 256 * b[1] as int == n
  {
    [(n % 256) as Byte, (n / 256) as Byte]
  }

  /** contents with the record at `end` cut off after its length field and given a new comment. */
  function Spliced(contents: Bytes, end: nat, comment: Bytes): (r: Bytes)
    requires end + 22 <= |contents| && |comment| < 0x1_0000
    ensures |r| == end + 22 + |comment|
  {
    contents[..end + 20] + LengthBytes(|comment|) + comment
  }

  ghost predicate CanSplice(contents: Bytes, end: int, comment: Bytes) {
    && IsLastSignature(contents, end)
    && end + 22 <= |contents|
    && |comment| <= 65535
    && end + 22 + CommentLength(contents, end) <= |contents|
  }

  /** The bytes after the splice, None where it is refused. */
  ghost function WithComment(contents: Bytes, comment: Bytes): Option<Bytes> {
    if exists end: nat :: CanSplice(contents, end, comment) then
      var end: nat :| CanSplice(contents, end, comment);
      Some(Spliced(contents, end, comment))
    else None
  }

  lemma SpliceIsWithComment(contents: Bytes, end: nat, comment: Bytes)
    requires CanSplice(contents, end, comment)
    ensures WithComment(contents, comment) == Some(Spliced(contents, end, comment))
  {
    forall other: nat | CanSplice(contents, other, comment) ensures other == end {
      assert !(other < end) && !(end < other);
    }
  }

  method SetComment(contents: Bytes, comment: Bytes) returns (r: Result<Bytes>, ghost end: int)
    ensures r.Success? <==> CanSplice(contents, end, comment)
    ensures r.Failure? ==> forall k :: !CanSplice(contents, k, comment)
    ensures r.Success? ==> r.value == Spliced(contents, end, comment)
    ensures WithComment(contents, comment) == if r.Success? then Some(r.value) else None
  {
    var endOffset := LastSignature(contents);
    end := endOffset;
    forall k | SignatureAt(contents, k) && k != endOffset ensures !IsLastSignature(contents, k) {
      assert k < endOffset && SignatureAt(contents, endOffset);
    }
    if endOffset < 0 || endOffset + 22 > |contents| {
      return Failure("backup archive end record is missing"), end;
    }
    if |comment| > 65535 {
      return Failure("backup archive identity is too large"), end;
    }
    var oldCommentLength := contents[endOffset + 20] as int + 256 * contents[endOffset + 21] as int;
    var oldEnd := endOffset + 22 + oldCommentLength;
    if oldEnd > |contents| {
      return Failure("backup archive comment is invalid"), end;
    }
    var rewritten := contents[..endOffset + 22];
    rewritten := rewritten[endOffset + 20 := (|comment| % 256) as Byte];
    rewritten := rewritten[endOffset + 21 := (|comment| / 256) as Byte];
    assert rewritten == contents[..endOffset + 20] + LengthBytes(|comment|);
    rewritten := rewritten + comment;
    SpliceIsWithComment(contents, endOffset, comment);
    return Success(rewritten), end;
  }

  /**
   The new length bytes do not complete a second signature with the directory-offset field
   before them: bytes 17..20 are not "PK 05" under a length whose low byte is 06, and
   bytes 18..20 are not "PK" under the length 0605.
   */
  predicate LengthCompletesNoSignature(contents: Bytes, end: nat, length: nat)
    requires end + 22 <= |contents|
  {
    && !(contents[end + 17..end + 20] == [0x50, 0x4b, 0x05] && length % 256 == 6)
    && !(contents[end + 18..end + 20] == [0x50, 0x4b] && length == 0x0605)
  }

  /** Text as the identity is written in: no control bytes. */
  predicate NoControlBytes(comment: Bytes) {
    forall k :: 0 <= k < |comment| ==> comment[k] >= 0x20
  }

  lemma SignatureBytes(contents: Bytes, i: int)
    ensures SignatureAt(contents, i) <==>
            0 <= i && i + 4 <= |contents| && contents[i] == 0x50 && contents[i + 1] == 0x4b
            && contents[i + 2] == 0x05 && contents[i + 3] == 0x06
  {
  }

  /** Where a signature can be after the splice. */
  lemma SplicedSignature(contents: Bytes, end: nat, comment: Bytes, i: int)
    requires CanSplice(contents, end, comment) && NoControlBytes(comment)
    ensures i < end ==> (SignatureAt(Spliced(contents, end, comment), i) <==> SignatureAt(contents, i))
    ensures SignatureAt(Spliced(contents, end, comment), end)
    ensures end < i && SignatureAt(Spliced(contents, end, comment), i) ==>
            !LengthCompletesNoSignature(contents, end, |comment|) && end + 17 <= i <= end + 18
  {
    var r := Spliced(contents, end, comment);
    SignatureBytes(contents, end);
    SignatureBytes(r, end);
    SignatureBytes(r, i);
    SignatureBytes(contents, i);
    forall k | 0 <= k < end + 20 ensures r[k] == contents[k] {}
    if end < i && SignatureAt(r, i) {
      assert !SignatureAt(contents, i);
      CommentHasNoSix(contents, end, comment, i + 3);
      var three, two := contents[end + 17..end + 20], contents[end + 18..end + 20];
      assert three == [contents[end + 17], contents[end + 18], contents[end + 19]];
      assert two == [contents[end + 18], contents[end + 19]];
      assert r[end + 20] as int == |comment| % 256 && r[end + 21] as int == |comment| / 256;
    }
  }

  lemma CommentHasNoSix(contents: Bytes, end: nat, comment: Bytes, k: nat)
    requires end + 22 <= |contents| && |comment| < 0x1_0000 && NoControlBytes(comment)
    requires k < end + 22 + |comment| && Spliced(contents, end, comment)[k] == 0x06
    ensures k < end + 22
  {
  }

  /**
   A backward scan of the spliced archive finds the same record exactly when the new length
   completes no second signature.
   */
  lemma SpliceFoundIff(contents: Bytes, end: nat, comment: Bytes)
    requires CanSplice(contents, end, comment) && NoControlBytes(comment)
    ensures IsLastSignature(Spliced(contents, end, comment), end) <==>
            LengthCompletesNoSignature(contents, end, |comment|)
  {
    var r := Spliced(contents, end, comment);
    SplicedSignature(contents, end, comment, end);
    if LengthCompletesNoSignature(contents, end, |comment|) {
      forall k | end < k ensures !SignatureAt(r, k) {
        SplicedSignature(contents, end, comment, k);
      }
    } else {
      SignatureBytes(r, end + 17);
      SignatureBytes(r, end + 18);
      forall k | 0 <= k < end + 20 ensures r[k] == contents[k] {}
      assert r[end + 20] as int == |comment| % 256 && r[end + 21] as int == |comment| / 256;
      if contents[end + 17..end + 20] == [0x50, 0x4b, 0x05] && |comment| % 256 == 6 {
        assert contents[end + 17..end + 20][0] == contents[end + 17];
        assert contents[end + 17..end + 20][1] == contents[end + 18];
        assert contents[end + 17..end + 20][2] == contents[end + 19];
        assert SignatureAt(r, end + 17);
      } else {
        assert contents[end + 18..end + 20][0] == contents[end + 18];
        assert contents[end + 18..end + 20][1] == contents[end + 19];
        assert SignatureAt(r, end + 18);
      }
    }
  }

  // ----- reading the comment back -----

  /** i is the last signature with a whole record behind it. */
  ghost predicate IsLastRecord(contents: Bytes, i: int) {
    && SignatureAt(contents, i) && i + 22 <= |contents|
    && forall k :: i < k && k + 22 <= |contents| ==> !SignatureAt(contents, k)
  }

  /** What a backward scan for an end record finds as the archive's comment. */
  ghost function CommentOf(contents: Bytes): Option<Bytes> {
    if exists i: nat :: IsLastRecord(contents, i) then
      var i: nat :| IsLastRecord(contents, i);
      if i + 22 + CommentLength(contents, i) <= |contents|
      then Some(contents[i + 22..i + 22 + CommentLength(contents, i)]) else None
    else None
  }

  /** The scan itself. */
  method ReadComment(contents: Bytes) returns (r: Option<Bytes>)
    ensures r == CommentOf(contents)
  {
    var i := |contents| - 22;
    while i >= 0 && !SignatureAt(contents, i)
      invariant i <= |contents| - 22
      invariant forall k :: i < k && k + 22 <= |contents| ==> !SignatureAt(contents, k)
      decreases i
    {
      i := i - 1;
    }
    if i < 0 { return None; }
    assert IsLastRecord(contents, i);
    var length := contents[i + 20] as int + 256 * contents[i + 21] as int;
    if i + 22 + length > |contents| { return None; }
    return Some(contents[i + 22..i + 22 + length]);
  }

  /**
   The comment reads back exactly when the new length completes no second signature, or one
   so near the end of the file that no record fits behind it.
   */
  lemma ReadBackIff(contents: Bytes, end: nat, comment: Bytes)
    requires CanSplice(contents, end, comment) && NoControlBytes(comment)
    ensures CommentOf(Spliced(contents, end, comment)) == Some(comment) <==>
            |comment| == 6 || LengthCompletesNoSignature(contents, end, |comment|)
  {
    var r := Spliced(contents, end, comment);
    SplicedSignature(contents, end, comment, end);
    forall k | end < k && SignatureAt(r, k)
      ensures end + 17 <= k <= end + 18 && !LengthCompletesNoSignature(contents, end, |comment|)
    {
      SplicedSignature(contents, end, comment, k);
    }
    if |comment| == 6 || LengthCompletesNoSignature(contents, end, |comment|) {
      assert IsLastRecord(r, end);
      assert CommentLength(r, end) == |comment| && r[end + 22..end + 22 + |comment|] == comment;
    } else {
      SpliceFoundIff(contents, end, comment);
      var k :| end < k && SignatureAt(r, k);
      assert k + 22 <= |r|;
      assert forall i :: IsLastRecord(r, i) ==> k <= i;
    }
  }

  /** What a reader of the spliced archive gets, and what a second splice does. */
  lemma SpliceRoundTrip(contents: Bytes, end: nat, comment: Bytes, other: Bytes)
    requires CanSplice(contents, end, comment) && NoControlBytes(comment)
    requires LengthCompletesNoSignature(contents, end, |comment|) && |other| <= 65535
    ensures var r := Spliced(contents, end, comment);
            && IsLastSignature(r, end)
            && CommentLength(r, end) == |comment|
            && r[end + 22..] == comment
            && r[..end + 20] == contents[..end + 20]
            && CanSplice(r, end, other)
            && Spliced(r, end, other) == Spliced(contents, end, other)
  {
    SpliceFoundIff(contents, end, comment);
    var r := Spliced(contents, end, comment);
    assert r[..end + 20] == contents[..end + 20];
  }

  // ----- archives as they are written -----

  function LittleEndian(n: nat, width: nat): (b: Bytes)
    ensures |b| == width
  {
    if width == 0 then [] else [(n % 256) as Byte] + LittleEndian(n / 256, width - 1)
  }

  /** What an end record says of the central directory: its entries, its size and where it begins. */
  datatype Fields = Fields(count: nat, size: nat, offset: nat)

  predicate FieldsFit(f: Fields) {
    f.count < 0x1_0000 && f.size < 0x1_0000_0000 && f.offset < 0x1_0000_0000
  }

  /** What a writer says: values too large for the fields are moved to a ZIP64 record, and all fields filled up. */
  function WrittenFields(count: nat, size: nat, offset: nat): (f: Fields)
    ensures FieldsFit(f)
    ensures count < 65535 && size < 4294967295 && offset < 4294967295 ==> f == Fields(count, size, offset)
    ensures f == Fields(count, size, offset) || f == Fields(65535, 4294967295, 4294967295)
    ensures f.count < 65535 ==> f.size < 4294967295 && f.offset < 4294967295
  {
    if count >= 0xffff || size >= 0xffff_ffff || offset >= 0xffff_ffff then Fields(0xffff, 0xffff_ffff, 0xffff_ffff)
    else Fields(count, size, offset)
  }

  /** The end record of a single-disk archive, without a comment. */
  function EndRecord(f: Fields): (r: Bytes)
    ensures |r| == 22
  {
    SIGNATURE + [0, 0, 0, 0] + LittleEndian(f.count, 2) + LittleEndian(f.count, 2)
    + LittleEndian(f.size, 4) + LittleEndian(f.offset, 4) + [0, 0]
  }

  /** An archive: members, central directory and perhaps a ZIP64 record, then the end record. */
  function Archive(before: Bytes, f: Fields): Bytes {
    before + EndRecord(f)
  }

  /** The signature occurs a second time among the record's own fields. */
  predicate FieldsSpellSignature(f: Fields) {
    || (f.count == 0x4b50 && f.size % 0x1_0000 == 0x0605)
    || (f.count / 0x100 == 0x50 && f.size % 0x100_0000 == 0x06_054b)
    || f.size == 0x0605_4b50
    || (f.size / 0x100 == 0x05_4b50 && f.offset % 0x100 == 0x06)
    || (f.size / 0x1_0000 == 0x4b50 && f.offset % 0x1_0000 == 0x0605)
    || (f.size / 0x100_0000 == 0x50 && f.offset % 0x100_0000 == 0x06_054b)
    || f.offset == 0x0605_4b50
  }

  /** The directory's position, with the new comment length behind it, spells the signature. */
  predicate PositionSpellsSignature(position: nat, length: nat) {
    (position / 0x100 == 0x05_4b50 && length % 0x100 == 6) || (position / 0x1_0000 == 0x4b50 && length == 0x0605)
  }

  // the bytes of a field, lowest first

  function Digit(n: nat, i: nat): Byte
    requires i < 4
  {
    var d := if i == 0 then n else if i == 1 then n / 0x100 else if i == 2 then n / 0x1_0000 else n / 0x100_0000;
    (d % 0x100) as Byte
  }

  lemma FourBytes(n: nat)
    ensures forall i :: 0 <= i < 4 ==> LittleEndian(n, 4)[i] == Digit(n, i)
  {
    var b1, b2, b3 := LittleEndian(n / 0x100, 3), LittleEndian(n / 0x1_0000, 2), LittleEndian(n / 0x100_0000, 1);
    assert n / 0x100 / 0x100 == n / 0x1_0000 && n / 0x1_0000 / 0x100 == n / 0x100_0000;
    assert LittleEndian(n, 4)[1..] == b1;
    assert b1[1..] == b2;
    assert b2[1..] == b3;
  }

  lemma TwoBytes(n: nat)
    ensures forall i :: 0 <= i < 2 ==> LittleEndian(n, 2)[i] == Digit(n, i)
  {
    assert LittleEndian(n, 2)[1..] == LittleEndian(n / 0x100, 1);
  }

  lemma EndRecordBytes(f: Fields)
    ensures var r := EndRecord(f);
            && r[0] == 0x50 && r[1] == 0x4b && r[2] == 0x05 && r[3] == 0x06
            && r[4] == 0 && r[5] == 0 && r[6] == 0 && r[7] == 0
            && r[8] == Digit(f.count, 0) && r[9] == Digit(f.count, 1)
            && r[10] == Digit(f.count, 0) && r[11] == Digit(f.count, 1)
            && (forall i :: 0 <= i < 4 ==> r[12 + i] == Digit(f.size, i))
            && (forall i :: 0 <= i < 4 ==> r[16 + i] == Digit(f.offset, i))
            && r[20] == 0 && r[21] == 0
  {
    TwoBytes(f.count);
    FourBytes(f.size);
    FourBytes(f.offset);
  }

  /** Digits against numbers, from the lowest digit up and from the highest down. */
  lemma LowDigits(n: nat)
    ensures n % 0x100 == Digit(n, 0) as int
    ensures n % 0x1_0000 == Digit(n, 0) as int + 0x100 * Digit(n, 1) as int
    ensures n % 0x100_0000 == Digit(n, 0) as int + 0x100 * Digit(n, 1) as int + 0x1_0000 * Digit(n, 2) as int
  {
    assert n / 0x100 / 0x100 == n / 0x1_0000;
  }

  lemma HighDigits(n: nat)
    requires n < 0x1_0000_0000
    ensures n / 0x100_0000 == Digit(n, 3) as int
    ensures n / 0x1_0000 == Digit(n, 2) as int + 0x100 * Digit(n, 3) as int
    ensures n / 0x100 == Digit(n, 1) as int + 0x100 * Digit(n, 2) as int + 0x1_0000 * Digit(n, 3) as int
    ensures n ==
      Digit(n, 0) as int + 0x100 * Digit(n, 1) as int + 0x1_0000 * Digit(n, 2) as int + 0x100_0000 * Digit(n, 3) as int
  {
    assert n / 0x100 / 0x100 == n / 0x1_0000 && n / 0x1_0000 / 0x100 == n / 0x100_0000;
  }

  predicate Spells(a: Byte, b: Byte, c: Byte, d: Byte) {
    a == 0x50 && b == 0x4b && c == 0x05 && d == 0x06
  }

  lemma SpelledFields(f: Fields)
    requires FieldsFit(f)
    ensures FieldsSpellSignature(f) <==>
            || Spells(Digit(f.count, 0), Digit(f.count, 1), Digit(f.size, 0), Digit(f.size, 1))
            || Spells(Digit(f.count, 1), Digit(f.size, 0), Digit(f.size, 1), Digit(f.size, 2))
            || Spells(Digit(f.size, 0), Digit(f.size, 1), Digit(f.size, 2), Digit(f.size, 3))
            || Spells(Digit(f.size, 1), Digit(f.size, 2), Digit(f.size, 3), Digit(f.offset, 0))
            || Spells(Digit(f.size, 2), Digit(f.size, 3), Digit(f.offset, 0), Digit(f.offset, 1))
            || Spells(Digit(f.size, 3), Digit(f.offset, 0), Digit(f.offset, 1), Digit(f.offset, 2))
            || Spells(Digit(f.offset, 0), Digit(f.offset, 1), Digit(f.offset, 2), Digit(f.offset, 3))
  {
    SpelledInOne(f.size);
    SpelledInOne(f.offset);
    SpelledFromCount(f.count, f.size);
    SpelledAcross(f.size, f.offset);
  }

  lemma SpelledInOne(n: nat)
    requires n < 0x1_0000_0000
    ensures n == 0x0605_4b50 <==> Spells(Digit(n, 0), Digit(n, 1), Digit(n, 2), Digit(n, 3))
  {
    HighDigits(n);
  }

  lemma SpelledFromCount(count: nat, size: nat)
    requires count < 0x1_0000
    ensures count == 0x4b50 && size % 0x1_0000 == 0x0605 <==>
            Spells(Digit(count, 0), Digit(count, 1), Digit(size, 0), Digit(size, 1))
    ensures count / 0x100 == 0x50 && size % 0x100_0000 == 0x06_054b <==>
            Spells(Digit(count, 1), Digit(size, 0), Digit(size, 1), Digit(size, 2))
  {
    assert count == Digit(count, 0) as int + 0x100 * Digit(count, 1) as int;
    LowDigits(size);
  }

  lemma SpelledAcross(size: nat, offset: nat)
    requires size < 0x1_0000_0000
    ensures size / 0x100 == 0x05_4b50 && offset % 0x100 == 0x06 <==>
            Spells(Digit(size, 1), Digit(size, 2), Digit(size, 3), Digit(offset, 0))
    ensures size / 0x1_0000 == 0x4b50 && offset % 0x1_0000 == 0x0605 <==>
            Spells(Digit(size, 2), Digit(size, 3), Digit(offset, 0), Digit(offset, 1))
    ensures size / 0x100_0000 == 0x50 && offset % 0x100_0000 == 0x06_054b <==>
            Spells(Digit(size, 3), Digit(offset, 0), Digit(offset, 1), Digit(offset, 2))
  {
    HighDigits(size);
    LowDigits(offset);
  }

  lemma SpelledPosition(n: nat, length: nat)
    requires n < 0x1_0000_0000
    ensures PositionSpellsSignature(n, length) <==>
            || (Digit(n, 1) == 0x50 && Digit(n, 2) == 0x4b && Digit(n, 3) == 0x05 && length % 0x100 == 6)
            || (Digit(n, 2) == 0x50 && Digit(n, 3) == 0x4b && length == 0x0605)
  {
    HighDigits(n);
  }

  predicate SpellsAt(r: Bytes, j: int) {
    0 <= j && j + 4 <= |r| && Spells(r[j], r[j + 1], r[j + 2], r[j + 3])
  }

  lemma SignatureInRecord(before: Bytes, f: Fields, j: int)
    requires 0 <= j
    ensures SignatureAt(Archive(before, f), |before| + j) <==> SpellsAt(EndRecord(f), j)
  {
    var contents, end, r := Archive(before, f), |before|, EndRecord(f);
    SignatureBytes(contents, end + j);
    if j + 4 <= 22 {
      assert contents[end + j] == r[j] && contents[end + j + 1] == r[j + 1];
      assert contents[end + j + 2] == r[j + 2] && contents[end + j + 3] == r[j + 3];
    }
  }

  lemma RecordSpells(f: Fields)
    requires FieldsFit(f)
    ensures FieldsSpellSignature(f) <==> exists j :: 0 < j && SpellsAt(EndRecord(f), j)
    ensures SpellsAt(EndRecord(f), 0)
  {
    var r := EndRecord(f);
    EndRecordBytes(f);
    SpelledFields(f);
    forall j | 0 < j && SpellsAt(r, j) ensures 10 <= j <= 16 {
      assert r[j] == 0x50;
    }
    if FieldsSpellSignature(f) {
      assert SpellsAt(r, 10) || SpellsAt(r, 11) || SpellsAt(r, 12) || SpellsAt(r, 13)
             || SpellsAt(r, 14) || SpellsAt(r, 15) || SpellsAt(r, 16);
    }
  }

  /** The end record of an archive is found exactly if its own fields do not spell the signature. */
  lemma LastSignatureIff(before: Bytes, f: Fields)
    requires FieldsFit(f)
    ensures IsLastSignature(Archive(before, f), |before|) <==> !FieldsSpellSignature(f)
    ensures FieldsSpellSignature(f) ==> exists k :: |before| < k && SignatureAt(Archive(before, f), k)
  {
    var contents, end := Archive(before, f), |before|;
    RecordSpells(f);
    forall j | 0 <= j ensures SignatureAt(contents, end + j) <==> SpellsAt(EndRecord(f), j) {
      SignatureInRecord(before, f, j);
    }
    if j :| 0 < j && SpellsAt(EndRecord(f), j) {
      assert SignatureAt(contents, end + j);
    } else {
      assert SignatureAt(contents, end + 0);
      forall k | end < k ensures !SignatureAt(contents, k) {
        assert !SpellsAt(EndRecord(f), k - end);
        assert !SignatureAt(contents, end + (k - end));
      }
    }
  }

  /** Splicing into an archive as it is written is refused exactly for these fields, or too long a comment. */
  lemma SpliceRefusedIff(before: Bytes, f: Fields, comment: Bytes)
    requires FieldsFit(f)
    ensures WithComment(Archive(before, f), comment).None? <==> FieldsSpellSignature(f) || |comment| > 65535
    ensures WithComment(Archive(before, f), comment).Some? ==>
            CanSplice(Archive(before, f), |before|, comment)
            && WithComment(Archive(before, f), comment) == Some(Spliced(Archive(before, f), |before|, comment))
  {
    var contents, end := Archive(before, f), |before|;
    LastSignatureIff(before, f);
    NoCommentYet(before, f);
    if FieldsSpellSignature(f) {
      var k :| end < k && SignatureAt(contents, k);
      forall i: nat ensures !CanSplice(contents, i, comment) {
        assert IsLastSignature(contents, i) ==> !(i < k);
      }
    } else if |comment| <= 65535 {
      assert CanSplice(contents, end, comment);
      SpliceIsWithComment(contents, end, comment);
    }
  }

  lemma NoCommentYet(before: Bytes, f: Fields)
    ensures CommentLength(Archive(before, f), |before|) == 0
  {
    EndRecordBytes(f);
    ArchiveBytesAt(before, f, 20);
    ArchiveBytesAt(before, f, 21);
  }

  lemma ArchiveBytesAt(before: Bytes, f: Fields, j: nat)
    requires j < 22
    ensures Archive(before, f)[|before| + j] == EndRecord(f)[j]
  {
  }

  lemma PositionInRecord(before: Bytes, f: Fields, length: nat)
    requires FieldsFit(f)
    ensures LengthCompletesNoSignature(Archive(before, f), |before|, length) <==>
            !PositionSpellsSignature(f.offset, length)
  {
    var contents, end := Archive(before, f), |before|;
    EndRecordBytes(f);
    SpelledPosition(f.offset, length);
    ArchiveBytesAt(before, f, 17);
    ArchiveBytesAt(before, f, 18);
    ArchiveBytesAt(before, f, 19);
    assert EndRecord(f)[16 + 1] == Digit(f.offset, 1) && EndRecord(f)[16 + 2] == Digit(f.offset, 2)
           && EndRecord(f)[16 + 3] == Digit(f.offset, 3);
    assert contents[end + 17..end + 20] == [contents[end + 17], contents[end + 18], contents[end + 19]];
    assert contents[end + 18..end + 20] == [contents[end + 18], contents[end + 19]];
  }

  /**
   An archive as it is written takes a comment and gives it back to a reader exactly if the
   comment fits, its record's fields do not spell the signature, and neither does the
   directory's position with the new length behind it.
   */
  lemma WrittenArchiveReadBack(before: Bytes, f: Fields, comment: Bytes)
    requires FieldsFit(f) && NoControlBytes(comment)
    ensures var spliced := WithComment(Archive(before, f), comment);
            spliced.Some? && CommentOf(spliced.value) == Some(comment) <==>
            |comment| <= 65535 && !FieldsSpellSignature(f)
            && (|comment| == 6 || !PositionSpellsSignature(f.offset, |comment|))
  {
    SpliceRefusedIff(before, f, comment);
    if WithComment(Archive(before, f), comment).Some? {
      PositionInRecord(before, f, |comment|);
      ReadBackIff(Archive(before, f), |before|, comment);
    }
  }

  /** A central directory at 0x06054b50: no comment whatever can be spliced in. */
  lemma SpliceCanBeRefused(body: Bytes, directory: Bytes, count: nat, comment: Bytes)
    requires |body| == 0x0605_4b50 && |directory| < 0xffff_ffff && count < 0xffff
    ensures WithComment(Archive(body + directory, WrittenFields(count, |directory|, |body|)), comment) == None
  {
    SpliceRefusedIff(body + directory, WrittenFields(count, |directory|, |body|), comment);
  }

  /** A few members, a directory at 0x054b50xx, and an identity of 6 modulo 256 bytes: spliced, but not read back. */
  lemma SpliceCanBeLost(body: Bytes, directory: Bytes, count: nat, comment: Bytes)
    requires 0x054b_5000 <= |body| < 0x054b_5100 && |directory| < 0x1_0000 && count < 0x100
    requires 6 < |comment| <= 65535 && |comment| % 256 == 6 && NoControlBytes(comment)
    ensures var contents := Archive(body + directory, WrittenFields(count, |directory|, |body|));
            && WithComment(contents, comment).Some?
            && !IsLastSignature(WithComment(contents, comment).value, |body| + |directory|)
            && CommentOf(WithComment(contents, comment).value) != Some(comment)
  {
    var before, f := body + directory, WrittenFields(count, |directory|, |body|);
    SpliceRefusedIff(before, f, comment);
    WrittenArchiveReadBack(before, f, comment);
    PositionInRecord(before, f, |comment|);
    SpliceFoundIff(Archive(before, f), |before|, comment);
  }
}

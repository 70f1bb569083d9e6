/**
 Remote paths: validity, repeated percent-decoding (section 2.1 of RFC 3986), and joining a
 relative path to the selected root.
 */
module RemotePaths {
  import opened Common

  const SLASH: Byte := 0x2f
  const BACKSLASH: Byte := 0x5c
  const PERCENT: Byte := 0x25
  const DOT: Byte := 0x2e

  // ----- text -----

  predicate Continuation(b: Byte) { 0x80 <= b <= 0xbf }

  /** Length of the UTF-8 character at the start of a text, 0 if there is none. */
  function CharacterLength(text: Bytes): (n: nat)
    ensures n <= |text|
  {
    if text == [] then 0
    else if text[0] < 0x80 then 1
    else if |text| >= 2 && 0xc2 <= text[0] <= 0xdf && Continuation(text[1]) then 2
    else if |text| >= 3 && Continuation(text[2]) &&
            ((text[0] == 0xe0 && 0xa0 <= text[1] <= 0xbf) || (text[0] == 0xed && 0x80 <= text[1] <= 0x9f) ||
             (0xe1 <= text[0] <= 0xef && text[0] != 0xed && Continuation(text[1]))) then 3
    else if |text| >= 4 && Continuation(text[2]) && Continuation(text[3]) &&
            ((text[0] == 0xf0 && 0x90 <= text[1] <= 0xbf) || (text[0] == 0xf4 && 0x80 <= text[1] <= 0x8f) ||
             (0xf1 <= text[0] <= 0xf3 && Continuation(text[1]))) then 4
    else 0
  }

  predicate ValidUtf8(text: Bytes) {
    text == [] || (CharacterLength(text) > 0 && ValidUtf8(text[CharacterLength(text)..]))
  }

  /** C0, DEL and C1 controls, the last encoded as C2 80 to C2 9F. */
  predicate HasControl(text: Bytes) {
    exists i :: 0 <= i < |text| && ControlAt(text, i)
  }

  predicate ControlAt(text: Bytes, i: int) {
    0 <= i < |text| &&
    (text[i] < 0x20 || text[i] == 0x7f || (text[i] == 0xc2 && i + 1 < |text| && 0x80 <= text[i + 1] <= 0x9f))
  }

  // ----- segments -----

  function Split(text: Bytes): (parts: seq<Bytes>)
    ensures parts != []
    ensures forall part :: part in parts ==> SLASH !in part
  {
    if text == [] then [[]]
    else
      var rest := Split(text[1..]);
      if text[0] == SLASH then [[]] + rest else [[text[0]] + rest[0]] + rest[1..]
  }

  function Join(parts: seq<Bytes>): Bytes {
    if parts == [] then [] else if |parts| == 1 then parts[0] else parts[0] + [SLASH] + Join(parts[1..])
  }

  predicate OrdinarySegment(part: Bytes) {
    part != [] && part != [DOT] && part != [DOT, DOT]
  }

  /** An absolute path below the server root, of ordinary segments, in clean text. */
  ghost predicate ValidDirectoryPath(path: Bytes) {
    && path != [] && path[0] == SLASH
    && BACKSLASH !in path && ValidUtf8(path) && !HasControl(path)
    && forall part :: part in Split(path[1..]) ==> OrdinarySegment(part)
  }

  method ValidateDirectoryPath(path: Bytes) returns (ok: bool)
    ensures ok <==> ValidDirectoryPath(path)
  {
    if path == [] || path[0] != SLASH { return false; }
    if |path| == 1 {
      assert Split(path[1..]) == [[]] && Split(path[1..])[0] in Split(path[1..]);
      return false;
    }
    if path[1] == SLASH {
      assert Split(path[1..])[0] == [] && Split(path[1..])[0] in Split(path[1..]);
      return false;
    }
    if BACKSLASH in path || !ValidUtf8(path) || HasControl(path) { return false; }
    if path[|path| - 1] == SLASH {
      TrailingSlash(path[1..]);
      return false;
    }
    var parts := Split(path[1..]);
    for i := 0 to |parts|
      invariant forall j :: 0 <= j < i ==> OrdinarySegment(parts[j])
    {
      if !OrdinarySegment(parts[i]) { return false; }
    }
    return true;
  }

  lemma {:induction false} TrailingSlash(text: Bytes)
    requires text != [] && text[|text| - 1] == SLASH
    ensures [] in Split(text)
  {
    if |text| == 1 {
      assert Split(text) == [[]] + Split(text[1..]);
    } else {
      TrailingSlash(text[1..]);
      var rest := Split(text[1..]);
      LastSegmentEmpty(text);
    }
  }

  lemma {:induction false} LastSegmentEmpty(text: Bytes)
    requires text != [] && text[|text| - 1] == SLASH
    ensures |Split(text)| >= 2 && Split(text)[|Split(text)| - 1] == []
  {
    if |text| == 1 {
      assert text[1..] == [];
    } else {
      LastSegmentEmpty(text[1..]);
    }
  }

  // ----- percent-decoding -----

  function HexValue(b: Byte): Option<nat> {
    if 0x30 <= b <= 0x39 then Some(b as nat - 0x30)
    else if 0x61 <= b <= 0x66 then Some(b as nat - 0x61 + 10)
    else if 0x41 <= b <= 0x46 then Some(b as nat - 0x41 + 10)
    else None
  }

  predicate EscapeAt(text: Bytes) {
    |text| >= 3 && text[0] == PERCENT && HexValue(text[1]).Some? && HexValue(text[2]).Some?
  }

  lemma HexBound(b: Byte)
    ensures HexValue(b).Some? ==> HexValue(b).value < 16
  {
  }

  function EscapedByte(text: Bytes): Byte
    requires EscapeAt(text)
  {
    HexBound(text[1]);
    HexBound(text[2]);
    (16 * HexValue(text[1]).value + HexValue(text[2]).value) as Byte
  }

  /** Every escape replaced by its byte; a stray percent sign is an error. */
  function Unescape(text: Bytes): (r: Option<Bytes>) {
    if text == [] then Some([])
    else if text[0] == PERCENT then
      if !EscapeAt(text) then None
      else
        var rest := Unescape(text[3..]);
        if rest.None? then None else Some([EscapedByte(text)] + rest.value)
    else
      var rest := Unescape(text[1..]);
      if rest.None? then None else Some([text[0]] + rest.value)
  }

  /** "%2f" or "%5c", in either case, somewhere in the text. */
  ghost predicate HasEncodedSeparator(text: Bytes) {
    exists i :: 0 <= i && SeparatorEscapeAt(text, i)
  }

  predicate SeparatorEscapeAt(text: Bytes, i: int) {
    0 <= i && i + 2 < |text| && text[i] == PERCENT &&
    ((text[i + 1] == 0x32 && text[i + 2] in {0x66, 0x46}) || (text[i + 1] == 0x35 && text[i + 2] in {0x63, 0x43}))
  }

  method FindEncodedSeparator(text: Bytes) returns (found: bool)
    ensures found <==> HasEncodedSeparator(text)
  {
    for i := 0 to |text|
      invariant forall j :: 0 <= j < i ==> !SeparatorEscapeAt(text, j)
    {
      if SeparatorEscapeAt(text, i) { return true; }
    }
    return false;
  }

  /** A decoding that changes the text shortens it. */
  lemma {:induction false} DecodingShortens(text: Bytes)
    requires Unescape(text).Some?
    ensures |Unescape(text).value| <= |text|
    ensures Unescape(text).value != text ==> |Unescape(text).value| < |text|
  {
    if text == [] {
    } else {
      if text[0] == PERCENT {
        DecodingShortens(text[3..]);
      } else {
        DecodingShortens(text[1..]);
        assert text == [text[0]] + text[1..];
      }
    }
  }

  function Slashes(text: Bytes): nat {
    if text == [] then 0 else (if text[0] == SLASH then 1 else 0) + Slashes(text[1..])
  }

  /** Without encoded separators decoding neither makes nor removes a slash. */
  lemma {:induction false} DecodingKeepsSlashes(text: Bytes)
    requires Unescape(text).Some? && !HasEncodedSeparator(text)
    ensures Slashes(Unescape(text).value) == Slashes(text)
  {
    if text == [] {
    } else {
      if text[0] == PERCENT {
        assert !SeparatorEscapeAt(text, 0);
        assert text[1] != SLASH && text[2] != SLASH;
        assert Slashes(text) == Slashes(text[3..]) by {
          assert text[1..][1..] == text[2..] && text[2..][1..] == text[3..];
        }
        TailHasNoEncodedSeparator(text, 3);
        DecodingKeepsSlashes(text[3..]);
        assert EscapedByte(text) != SLASH by { SlashEscape(text); }
        assert ([EscapedByte(text)] + Unescape(text[3..]).value)[1..] == Unescape(text[3..]).value;
      } else {
        TailHasNoEncodedSeparator(text, 1);
        DecodingKeepsSlashes(text[1..]);
        assert ([text[0]] + Unescape(text[1..]).value)[1..] == Unescape(text[1..]).value;
      }
    }
  }

  /** Only "%2f" and "%2F" decode to a slash. */
  lemma SlashEscape(text: Bytes)
    requires EscapeAt(text)
    ensures EscapedByte(text) == SLASH ==> SeparatorEscapeAt(text, 0)
  {
  }

  lemma TailHasNoEncodedSeparator(text: Bytes, n: nat)
    requires !HasEncodedSeparator(text) && n <= |text|
    ensures !HasEncodedSeparator(text[n..])
  {
    forall i | 0 <= i ensures !SeparatorEscapeAt(text[n..], i) {
      assert !SeparatorEscapeAt(text, i + n);
    }
  }

  lemma {:induction false} SegmentsAreSlashesPlusOne(text: Bytes)
    ensures |Split(text)| == Slashes(text) + 1
  {
    if text == [] {
    } else {
      SegmentsAreSlashesPlusOne(text[1..]);
    }
  }

  /**
   The decodings of a text are examined until one fails to decode further or decodes to
   itself; each has no encoded separator and decodes to a valid path.
   */
  ghost predicate Accepted(text: Bytes)
    decreases |text|
  {
    && !HasEncodedSeparator(text)
    && var decoded := Unescape(text);
       decoded.None? ||
       (ValidDirectoryPath(decoded.value) &&
        (decoded.value == text || (DecodingShortens(text); Accepted(decoded.value))))
  }

  method ValidatePathEscaping(escapedPath: Bytes) returns (ok: bool)
    ensures ok <==> Accepted(escapedPath)
  {
    var candidate := escapedPath;
    while true
      invariant Accepted(escapedPath) <==> Accepted(candidate)
      decreases |candidate|
    {
      var found := FindEncodedSeparator(candidate);
      if found { return false; }
      var decoded := Unescape(candidate);
      if decoded.None? { return true; }
      var valid := ValidateDirectoryPath(decoded.value);
      if !valid { return false; }
      if decoded.value == candidate { return true; }
      DecodingShortens(candidate);
      candidate := decoded.value;
    }
  }

  /** The text after n decodings, as far as they go. */
  function Decodings(text: Bytes, n: nat): Option<Bytes> {
    if n == 0 then Some(text)
    else
      var before := Decodings(text, n - 1);
      if before.None? then None else Unescape(before.value)
  }

  lemma {:induction false} DecodingsShift(text: Bytes, n: nat)
    requires Unescape(text).Some?
    ensures Decodings(text, n + 1) == Decodings(Unescape(text).value, n)
  {
    if n == 0 {
      assert Decodings(text, 1) == Unescape(Decodings(text, 0).value);
    } else {
      DecodingsShift(text, n - 1);
    }
  }

  lemma {:induction false} DecodingsOfFixpoint(text: Bytes, n: nat)
    requires Unescape(text) == Some(text)
    ensures Decodings(text, n) == Some(text)
  {
    if n == 0 {
    } else {
      DecodingsOfFixpoint(text, n - 1);
    }
  }

  /**
   However often an accepted path is decoded again, the result is a valid path with as many
   segments as the original has.
   */
  lemma {:induction false} AcceptedNeverSplits(text: Bytes, n: nat)
    requires Accepted(text) && n >= 1 && Decodings(text, n).Some?
    ensures ValidDirectoryPath(Decodings(text, n).value)
    ensures |Split(Decodings(text, n).value)| == |Split(text)|
    decreases |text|
  {
    if Unescape(text).None? {
      NothingAfterFailure(text, n);
    } else {
      var decoded := Unescape(text).value;
      DecodingKeepsSlashes(text);
      SegmentsAreSlashesPlusOne(text);
      SegmentsAreSlashesPlusOne(decoded);
      DecodingsShift(text, n - 1);
      if decoded == text {
        DecodingsOfFixpoint(text, n);
      } else if n > 1 {
        DecodingShortens(text);
        AcceptedNeverSplits(decoded, n - 1);
      }
    }
  }

  lemma {:induction false} NothingAfterFailure(text: Bytes, n: nat)
    requires Unescape(text).None? && n >= 1
    ensures Decodings(text, n).None?
  {
    if n == 1 {
      assert Decodings(text, 0) == Some(text);
    } else {
      NothingAfterFailure(text, n - 1);
    }
  }

  // ----- below the selected root -----

  /** path.Clean keeps a stack of segments: empty ones and dots are skipped, a double dot pops. */
  function CleanSegments(parts: seq<Bytes>, stack: seq<Bytes>): seq<Bytes>
    decreases |parts|
  {
    if parts == [] then stack
    else if parts[0] == [] || parts[0] == [DOT] then CleanSegments(parts[1..], stack)
    else if parts[0] == [DOT, DOT] then
      CleanSegments(parts[1..], if stack == [] then [] else stack[..|stack| - 1])
    else CleanSegments(parts[1..], stack + [parts[0]])
  }

  /** path.Clean of a path that starts with a slash. */
  function CleanRooted(path: Bytes): Bytes {
    [SLASH] + Join(CleanSegments(Split(path), []))
  }

  lemma {:induction false} OrdinaryIsClean(parts: seq<Bytes>, stack: seq<Bytes>)
    requires forall part :: part in parts ==> OrdinarySegment(part)
    ensures CleanSegments(parts, stack) == stack + parts
    decreases |parts|
  {
    if parts == [] {
      assert stack + parts == stack;
    } else {
      assert parts[0] in parts;
      OrdinaryIsClean(parts[1..], stack + [parts[0]]);
      assert parts == [parts[0]] + parts[1..];
      assert stack + [parts[0]] + parts[1..] == stack + parts;
    }
  }

  lemma {:induction false} JoinSplit(text: Bytes)
    ensures Join(Split(text)) == text
  {
    if text == [] {
    } else {
      JoinSplit(text[1..]);
      var rest, parts := Split(text[1..]), Split(text);
      assert text == [text[0]] + text[1..];
      if text[0] == SLASH {
        assert parts[0] == [] && parts[1..] == rest;
        assert [] + [SLASH] + Join(rest) == text;
      } else if |rest| == 1 {
        assert parts == [[text[0]] + rest[0]];
      } else {
        assert parts[0] == [text[0]] + rest[0] && parts[1..] == rest[1..];
        assert ([text[0]] + rest[0]) + [SLASH] + Join(rest[1..]) == [text[0]] + (rest[0] + [SLASH] + Join(rest[1..]));
      }
    }
  }

  lemma {:induction false} SplitAround(a: Bytes, b: Bytes)
    ensures Split(a + [SLASH] + b) == Split(a) + Split(b)
  {
    var whole := a + [SLASH] + b;
    if a == [] {
      assert whole == [SLASH] + b;
      assert whole[1..] == b;
    } else {
      var tail := a[1..] + [SLASH] + b;
      assert whole == [a[0]] + tail && a == [a[0]] + a[1..];
      SplitAround(a[1..], b);
      SplitFirst(a[0], a[1..]);
      SplitFirst(a[0], tail);
      FirstOfBoth(a[0], Split(a[1..]), Split(b));
    }
  }

  /** What a byte before a text does to its segments. */
  function WithFirst(c: Byte, parts: seq<Bytes>): seq<Bytes>
    requires parts != []
  {
    if c == SLASH then [[]] + parts else [[c] + parts[0]] + parts[1..]
  }

  lemma SplitFirst(c: Byte, text: Bytes)
    ensures Split([c] + text) == WithFirst(c, Split(text))
  {
    assert ([c] + text)[1..] == text;
  }

  lemma FirstOfBoth(c: Byte, parts: seq<Bytes>, more: seq<Bytes>)
    requires parts != []
    ensures WithFirst(c, parts + more) == WithFirst(c, parts) + more
  {
  }

  ghost predicate ValidRelativePath(value: Bytes) {
    value != [] && ValidDirectoryPath([SLASH] + value) && Accepted([SLASH] + value)
  }

  method NewRelativePath(value: Bytes) returns (ok: bool)
    ensures ok <==> ValidRelativePath(value)
  {
    var rooted := [SLASH] + value;
    assert rooted[1..] == value;
    if value == [] { return false; }
    if value[0] == SLASH || BACKSLASH in value || !ValidUtf8(value) {
      RelativeTextFaults(value);
      return false;
    }
    ok := ValidateDirectoryPath(rooted);
    if !ok { return; }
    ok := ValidatePathEscaping(rooted);
    if !ok { return; }
    ControlShifts(value);
    ok := !HasControl(value);
  }

  /** What is checked on the value itself is checked again on the rooted path. */
  lemma RelativeTextFaults(value: Bytes)
    requires value != []
    ensures value[0] == SLASH || BACKSLASH in value || !ValidUtf8(value) ==> !ValidDirectoryPath([SLASH] + value)
  {
    var rooted := [SLASH] + value;
    assert rooted[1..] == value;
    if value[0] == SLASH {
      assert Split(value)[0] == [] && Split(value)[0] in Split(value);
    }
    if BACKSLASH in value {
      var i :| 0 <= i < |value| && value[i] == BACKSLASH;
      assert rooted[i + 1] == BACKSLASH;
    }
    assert CharacterLength(rooted) == 1;
  }

  lemma ControlShifts(value: Bytes)
    ensures HasControl(value) ==> HasControl([SLASH] + value)
  {
    var rooted := [SLASH] + value;
    if HasControl(value) {
      var i :| 0 <= i < |value| && ControlAt(value, i);
      assert ControlAt(rooted, i + 1);
    }
  }

  /** The cleaned join of a valid root and a valid relative path is just the two with a slash between. */
  lemma CleanJoin(root: Bytes, value: Bytes)
    requires ValidDirectoryPath(root) && ValidRelativePath(value)
    ensures CleanRooted(root + [SLASH] + value) == root + [SLASH] + value
  {
    var below, rooted := root[1..], [SLASH] + value;
    assert rooted[1..] == value;
    var joined := below + [SLASH] + value;
    assert root + [SLASH] + value == [] + [SLASH] + joined;
    SplitAround([], joined);
    SplitAround(below, value);
    var parts := Split(below) + Split(value);
    assert Split([]) == [[]];
    assert Split(root + [SLASH] + value) == [[]] + parts;
    assert CleanSegments([[]] + parts, []) == CleanSegments(parts, []) by {
      assert ([[]] + parts)[1..] == parts;
    }
    OrdinaryIsClean(parts, []);
    assert [] + parts == parts;
    JoinSplit(joined);
  }

  /** The path an operation is sent to: the root itself where allowed, else exactly root/value. */
  method ResolvePath(root: Bytes, value: Bytes, allowRoot: bool) returns (r: Result<Bytes>)
    requires ValidDirectoryPath(root)
    ensures r.Success? <==> if value == [] then allowRoot else ValidRelativePath(value)
    ensures r.Success? ==> r.value == if value == [] then root else root + [SLASH] + value
  {
    if value == [] {
      return if allowRoot then Success(root)
             else Failure("remote operation cannot replace or delete the selected root");
    }
    var ok := NewRelativePath(value);
    if !ok { return Failure("invalid remote relative path"); }
    var selectedPath := CleanRooted(root + [SLASH] + value);
    CleanJoin(root, value);
    var trimmed := if root[|root| - 1] == SLASH then root[..|root| - 1] else root;
    var selectedPrefix := trimmed + [SLASH];
    RootHasNoTrailingSlash(root);
    assert selectedPath[..|selectedPrefix|] == selectedPrefix;
    if !(selectedPrefix <= selectedPath) {
      return Failure("remote operation escapes the selected directory");
    }
    return Success(selectedPath);
  }

  lemma RootHasNoTrailingSlash(root: Bytes)
    requires ValidDirectoryPath(root)
    ensures root[|root| - 1] != SLASH
  {
    assert Split([]) == [[]] && Split([])[0] in Split([]);
    if |root| > 1 && root[|root| - 1] == SLASH {
      TrailingSlash(root[1..]);
    }
  }
}

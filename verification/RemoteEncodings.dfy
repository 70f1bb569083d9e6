/**
 What percent-decoding, UTF-8 checking and path cleaning mean, stated against encoders: the
 escapes of section 2.1 of RFC 3986, and the characters of section 3 of RFC 3629.
 */
module RemoteEncodings {
  import opened Common
  import opened RemotePaths

  // ----- percent-encoding -----

  /** How one byte is written: as itself or escaped, each digit in either case. */
  datatype Form = Form(escaped: bool, upperHigh: bool, upperLow: bool)

  function Digit(value: nat, upper: bool): Byte
    requires value < 16
  {
    (if upper then "0123456789ABCDEF" else "0123456789abcdef")[value] as int as Byte
  }

  /** A percent sign is always escaped. */
  function Written(b: Byte, form: Form): Bytes {
    if form.escaped || b as char == '%'
    then ['%' as int as Byte, Digit(b as nat / 16, form.upperHigh), Digit(b as nat % 16, form.upperLow)]
    else [b]
  }

  function Encoded(text: Bytes, forms: seq<Form>): Bytes
    requires |forms| == |text|
  {
    if text == [] then [] else Written(text[0], forms[0]) + Encoded(text[1..], forms[1..])
  }

  ghost predicate IsEncodingOf(outer: Bytes, inner: Bytes) {
    exists forms :: |forms| == |inner| && outer == Encoded(inner, forms)
  }

  /** A digit of either case has its value. */
  lemma DigitValue(value: nat, upper: bool)
    requires value < 16
    ensures HexValue(Digit(value, upper)) == Some(value)
  {
  }

  /** And nothing else has one. */
  lemma ValueDigit(b: Byte) returns (upper: bool)
    requires HexValue(b).Some?
    ensures HexValue(b).value < 16 && b == Digit(HexValue(b).value, upper)
  {
    upper := 0x41 <= b <= 0x46;
  }

  /** Whatever forms are chosen, the text is decoded from its encoding. */
  lemma {:induction false} UnescapeEncoded(text: Bytes, forms: seq<Form>)
    requires |forms| == |text|
    ensures Unescape(Encoded(text, forms)) == Some(text)
  {
    if text == [] {
    } else {
      UnescapeEncoded(text[1..], forms[1..]);
      UnescapeWritten(text[0], forms[0], Encoded(text[1..], forms[1..]));
      assert text == [text[0]] + text[1..];
    }
  }

  lemma UnescapeWritten(b: Byte, form: Form, rest: Bytes)
    requires Unescape(rest).Some?
    ensures Unescape(Written(b, form) + rest) == Some([b] + Unescape(rest).value)
  {
    var written := Written(b, form);
    var all := written + rest;
    if |written| == 1 {
      assert all[1..] == rest;
    } else {
      DigitValue(b as nat / 16, form.upperHigh);
      DigitValue(b as nat % 16, form.upperLow);
      assert all[3..] == rest;
      assert EscapeAt(all);
    }
  }

  lemma EncodedNext(b: Byte, form: Form, value: Bytes, forms: seq<Form>)
    requires |forms| == |value|
    ensures Encoded([b] + value, [form] + forms) == Written(b, form) + Encoded(value, forms)
  {
    assert ([b] + value)[1..] == value && ([form] + forms)[1..] == forms;
  }

  /** An escape is the written form of the byte it is decoded to. */
  lemma EscapeIsWritten(text: Bytes) returns (form: Form)
    requires EscapeAt(text)
    ensures text == Written(EscapedByte(text), form) + text[3..]
  {
    var high := ValueDigit(text[1]);
    var low := ValueDigit(text[2]);
    form := Form(true, high, low);
    TwoDigits(EscapedByte(text), HexValue(text[1]).value, HexValue(text[2]).value, form);
    assert text == [PERCENT, text[1], text[2]] + text[3..];
  }

  lemma TwoDigits(b: Byte, high: nat, low: nat, form: Form)
    requires high < 16 && low < 16 && b as nat == 16 * high + low && form.escaped
    ensures Written(b, form) == [PERCENT, Digit(high, form.upperHigh), Digit(low, form.upperLow)]
  {
    assert b as nat / 16 == high && b as nat % 16 == low;
  }

  /** Only encodings of a text are decoded to it. */
  lemma {:induction false} DecodedIsEncoded(text: Bytes) returns (forms: seq<Form>)
    requires Unescape(text).Some?
    ensures |forms| == |Unescape(text).value| && text == Encoded(Unescape(text).value, forms)
  {
    if text == [] {
      forms := [];
    } else if text[0] == PERCENT {
      var form := EscapeIsWritten(text);
      var rest := DecodedIsEncoded(text[3..]);
      EncodedNext(EscapedByte(text), form, Unescape(text[3..]).value, rest);
      forms := [form] + rest;
    } else {
      var rest := DecodedIsEncoded(text[1..]);
      var form := Form(false, false, false);
      EncodedNext(text[0], form, Unescape(text[1..]).value, rest);
      assert text == [text[0]] + text[1..];
      forms := [form] + rest;
    }
  }

  /** A text is decoded to exactly the texts it encodes, so one that encodes nothing is an error. */
  lemma UnescapeIff(text: Bytes, value: Bytes)
    ensures Unescape(text) == Some(value) <==> IsEncodingOf(text, value)
  {
    if Unescape(text) == Some(value) { var forms := DecodedIsEncoded(text); }
    if forms :| |forms| == |value| && text == Encoded(value, forms) { UnescapeEncoded(value, forms); }
  }

  predicate IsSeparatorAt(text: Bytes, i: nat, form: Form) {
    form.escaped && i + 3 <= |text| && (text[i..i + 3] == Written(0x2f, form) || text[i..i + 3] == Written(0x5c, form))
  }

  /** The separators looked for are the escapes of a slash and a backslash. */
  lemma SeparatorIff(text: Bytes, i: nat)
    ensures SeparatorEscapeAt(text, i) <==> exists form :: IsSeparatorAt(text, i, form)
  {
    if SeparatorEscapeAt(text, i) {
      var form := Form(true, text[i + 1] < 0x60, text[i + 2] < 0x60);
      var value: Byte := if text[i + 1] == 0x32 then 0x2f else 0x5c;
      assert text[i..i + 3] == [text[i], text[i + 1], text[i + 2]];
      assert text[i..i + 3] == Written(value, form);
      assert IsSeparatorAt(text, i, form);
    } else if form :| IsSeparatorAt(text, i, form) {
      var three := text[i..i + 3];
      assert text[i] == three[0] && text[i + 1] == three[1] && text[i + 2] == three[2];
    }
  }

  // ----- dots, however deep they are encoded -----

  /** The outer text is the inner one encoded n times over, in any forms. */
  ghost predicate EncodesIn(outer: Bytes, inner: Bytes, n: nat)
    decreases n
  {
    if n == 0 then outer == inner
    else exists between :: IsEncodingOf(outer, between) && EncodesIn(between, inner, n - 1)
  }

  lemma {:induction false} DecodedInLayers(outer: Bytes, inner: Bytes, n: nat)
    requires EncodesIn(outer, inner, n)
    ensures Decodings(outer, n) == Some(inner)
    decreases n
  {
    if n == 0 {
    } else {
      var between :| IsEncodingOf(outer, between) && EncodesIn(between, inner, n - 1);
      UnescapeIff(outer, between);
      DecodedInLayers(between, inner, n - 1);
      DecodingsShift(outer, n - 1);
    }
  }

  lemma {:induction false} OneSegment(part: Bytes)
    requires 0x2f !in part
    ensures Split(part) == [part]
  {
    if part == [] {
    } else {
      OneSegment(part[1..]);
      assert part == [part[0]] + part[1..];
    }
  }

  lemma DotSegment(a: Bytes, dots: Bytes, b: Bytes)
    requires dots == [0x2e] || dots == [0x2e, 0x2e]
    requires b == [] || b[0] == 0x2f
    ensures !ValidDirectoryPath(a + [0x2f] + dots + b)
  {
    var path := a + [0x2f] + dots + b;
    if path[0] == 0x2f {
      OneSegment(dots);
      SplitAround(a, dots + b);
      assert a + [SLASH] + (dots + b) == path;
      if b != [] {
        SplitAround(dots, b[1..]);
        assert dots + [SLASH] + b[1..] == dots + b;
      } else {
        assert dots + b == dots;
      }
      assert Split(path)[|Split(a)|] == dots;
      assert path == [SLASH] + path[1..];
      SplitFirst(SLASH, path[1..]);
      assert Split(path)[1..] == Split(path[1..]);
      assert dots in Split(path[1..]) by { assert Split(path[1..])[|Split(a)| - 1] == dots; }
    }
  }

  /** A value in which a dot segment comes to light after any number of decodings is refused. */
  lemma EncodedDotsRefused(value: Bytes, a: Bytes, dots: Bytes, b: Bytes, n: nat)
    requires dots == [0x2e] || dots == [0x2e, 0x2e]
    requires b == [] || b[0] == 0x2f
    requires EncodesIn([0x2f] + value, a + [0x2f] + dots + b, n)
    ensures !ValidRelativePath(value)
  {
    DotSegment(a, dots, b);
    DecodedInLayers([0x2f] + value, a + [0x2f] + dots + b, n);
    if n > 0 && Accepted([SLASH] + value) { AcceptedNeverSplits([SLASH] + value, n); }
  }

  /** Accepted is every text whose decodings hide no separator and are valid paths, however many there are. */
  lemma {:induction false} AcceptedIff(text: Bytes)
    ensures Accepted(text) <==> forall n: nat :: Decodings(text, n).Some? ==> LayerAccepted(text, n)
    decreases |text|
  {
    assert Decodings(text, 0) == Some(text);
    assert Decodings(text, 1) == Unescape(text);
    if Unescape(text).None? {
      forall n: nat | n >= 1 ensures Decodings(text, n).None? { NothingAfterFailure(text, n); }
      assert LayerAccepted(text, 0) <==> !HasEncodedSeparator(text);
    } else if Unescape(text).value == text {
      forall n: nat ensures Decodings(text, n) == Some(text) { DecodingsOfFixpoint(text, n); }
      assert LayerAccepted(text, 0) && LayerAccepted(text, 1) <==> Accepted(text);
    } else {
      DecodingShortens(text);
      AcceptedBelow(text);
    }
  }

  /** The text after n decodings hides no separator, and is a valid path once anything was decoded. */
  ghost predicate LayerAccepted(text: Bytes, n: nat)
    requires Decodings(text, n).Some?
  {
    !HasEncodedSeparator(Decodings(text, n).value) && (n >= 1 ==> ValidDirectoryPath(Decodings(text, n).value))
  }

  lemma {:induction false} AcceptedBelow(text: Bytes)
    requires Unescape(text).Some? && |Unescape(text).value| < |text|
    ensures Accepted(text) <==> forall n: nat :: Decodings(text, n).Some? ==> LayerAccepted(text, n)
    decreases |text|, 0
  {
    var decoded := Unescape(text).value;
    AcceptedIff(decoded);
    assert Decodings(text, 0) == Some(text);
    forall n: nat ensures Decodings(text, n + 1) == Decodings(decoded, n) { DecodingsShift(text, n); }
    assert Decodings(decoded, 0) == Some(decoded);
    if Accepted(text) {
      forall n: nat | Decodings(text, n).Some? ensures LayerAccepted(text, n) {
        if n > 0 { assert LayerAccepted(decoded, n - 1); }
      }
    } else if ValidDirectoryPath(decoded) && !HasEncodedSeparator(text) {
      var n: nat :| Decodings(decoded, n).Some? && !LayerAccepted(decoded, n);
      assert !LayerAccepted(text, n + 1);
    } else if HasEncodedSeparator(text) {
      assert !LayerAccepted(text, 0);
    } else {
      assert !LayerAccepted(text, 1);
    }
  }

  /** A value without a percent sign needs to be valid below the root, and nothing more. */
  lemma PlainIsAccepted(value: Bytes)
    requires 0x25 !in value
    ensures ValidRelativePath(value) <==> value != [] && ValidDirectoryPath([0x2f] + value)
  {
    var rooted := [0x2f] + value;
    NothingEscaped(rooted);
    forall i | 0 <= i ensures !SeparatorEscapeAt(rooted, i) {
    }
  }

  lemma {:induction false} NothingEscaped(text: Bytes)
    requires 0x25 !in text
    ensures Unescape(text) == Some(text)
  {
    if text == [] {
    } else {
      NothingEscaped(text[1..]);
      assert text == [text[0]] + text[1..];
    }
  }

  // ----- paths from segments -----

  /** A path is split where its segments were joined. */
  lemma {:induction false} SplitJoined(parts: seq<Bytes>)
    requires parts != [] && forall part: Bytes :: part in parts ==> 0x2f !in part
    ensures Split(Join(parts)) == parts
  {
    assert parts[0] in parts;
    OneSegment(parts[0]);
    if |parts| == 1 {
    } else {
      SplitJoined(parts[1..]);
      SplitAround(parts[0], Join(parts[1..]));
      assert parts == [parts[0]] + parts[1..];
    }
  }

  /** Which paths are valid, segment by segment. */
  lemma DirectoryPathIff(parts: seq<Bytes>)
    requires parts != [] && forall part: Bytes :: part in parts ==> 0x2f !in part
    ensures var path := [0x2f] + Join(parts);
            ValidDirectoryPath(path) <==>
            && ValidUtf8(path) && !HasControl(path) && 0x5c !in path
            && forall part: Bytes :: part in parts ==> part != [] && part != [0x2e] && part != [0x2e, 0x2e]
  {
    var path := [0x2f] + Join(parts);
    SplitJoined(parts);
    assert path[1..] == Join(parts);
  }

  // ----- characters -----

  /** A Unicode scalar value. */
  type Scalar = c: int | 0 <= c < 0xD800 || 0xE000 <= c <= 0x10FFFF

  function Utf8Of(c: Scalar): Bytes {
    if c < 0x80 then [c as Byte]
    else if c < 0x800 then [(0xC0 + c / 64) as Byte, (0x80 + c % 64) as Byte]
    else if c < 0x1_0000 then [(0xE0 + c / 4096) as Byte, (0x80 + c / 64 % 64) as Byte, (0x80 + c % 64) as Byte]
    else [(0xF0 + c / 26_2144) as Byte, (0x80 + c / 4096 % 64) as Byte, (0x80 + c / 64 % 64) as Byte,
          (0x80 + c % 64) as Byte]
  }

  function Utf8(characters: seq<Scalar>): Bytes {
    if characters == [] then [] else Utf8Of(characters[0]) + Utf8(characters[1..])
  }

  lemma CharacterFound(c: Scalar, rest: Bytes)
    ensures CharacterLength(Utf8Of(c) + rest) == |Utf8Of(c)|
    ensures (Utf8Of(c) + rest)[|Utf8Of(c)|..] == rest
  {
    var text := Utf8Of(c) + rest;
    assert forall i :: 0 <= i < |Utf8Of(c)| ==> text[i] == Utf8Of(c)[i];
  }

  lemma TwoBytes(a: int, b: int) returns (c: Scalar)
    requires 0xc2 <= a <= 0xdf && 0x80 <= b <= 0xbf
    ensures c == (a - 0xC0) * 64 + (b - 0x80) && Utf8Of(c) == [a as Byte, b as Byte]
  {
    c := (a - 0xC0) * 64 + (b - 0x80);
  }

  lemma ThreeBytes(a: int, b: int, d: int) returns (c: Scalar)
    requires 0xe0 <= a <= 0xef && 0x80 <= b <= 0xbf && 0x80 <= d <= 0xbf
    requires (a == 0xe0 ==> b >= 0xa0) && (a == 0xed ==> b <= 0x9f)
    ensures Utf8Of(c) == [a as Byte, b as Byte, d as Byte]
  {
    var high := (a - 0xE0) * 64 + (b - 0x80);
    c := high * 64 + (d - 0x80);
    assert c / 64 == high && c % 64 == d - 0x80;
    assert c / 4096 == a - 0xE0;
  }

  lemma FourBytes(a: int, b: int, d: int, e: int) returns (c: Scalar)
    requires 0xf0 <= a <= 0xf4 && 0x80 <= b <= 0xbf && 0x80 <= d <= 0xbf && 0x80 <= e <= 0xbf
    requires (a == 0xf0 ==> b >= 0x90) && (a == 0xf4 ==> b <= 0x8f)
    ensures Utf8Of(c) == [a as Byte, b as Byte, d as Byte, e as Byte]
  {
    var high := (a - 0xF0) * 64 + (b - 0x80);
    var middle := high * 64 + (d - 0x80);
    c := middle * 64 + (e - 0x80);
    assert c / 64 == middle && c % 64 == e - 0x80;
    assert c / 4096 == high && c / 26_2144 == a - 0xF0;
  }

  lemma FoundCharacter(text: Bytes) returns (c: Scalar)
    requires CharacterLength(text) > 0
    ensures Utf8Of(c) == text[..CharacterLength(text)]
  {
    var n := CharacterLength(text);
    if n == 1 {
      c := text[0] as int;
    } else if n == 2 {
      c := TwoBytes(text[0] as int, text[1] as int);
    } else if n == 3 {
      c := ThreeBytes(text[0] as int, text[1] as int, text[2] as int);
    } else {
      c := FourBytes(text[0] as int, text[1] as int, text[2] as int, text[3] as int);
    }
  }

  lemma {:induction false} Utf8IsValid(characters: seq<Scalar>)
    ensures ValidUtf8(Utf8(characters))
  {
    if characters == [] {
    } else {
      Utf8IsValid(characters[1..]);
      CharacterFound(characters[0], Utf8(characters[1..]));
    }
  }

  lemma {:induction false} ValidIsUtf8(text: Bytes) returns (characters: seq<Scalar>)
    requires ValidUtf8(text)
    ensures text == Utf8(characters)
  {
    if text == [] {
      characters := [];
    } else {
      var c := FoundCharacter(text);
      var rest := ValidIsUtf8(text[CharacterLength(text)..]);
      characters := [c] + rest;
      assert characters[1..] == rest;
      assert text == text[..CharacterLength(text)] + text[CharacterLength(text)..];
    }
  }

  /** Valid texts are exactly the encodings of characters. */
  lemma ValidUtf8Iff(text: Bytes)
    ensures ValidUtf8(text) <==> exists characters :: text == Utf8(characters)
  {
    if ValidUtf8(text) { var characters := ValidIsUtf8(text); }
    if characters :| text == Utf8(characters) { Utf8IsValid(characters); }
  }

  /** A C0 control, DEL or a C1 control. */
  predicate IsControl(c: Scalar) { c < 0x20 || 0x7f <= c <= 0x9f }

  lemma ControlOf(c: Scalar)
    ensures HasControl(Utf8Of(c)) <==> IsControl(c)
    ensures Utf8Of(c)[|Utf8Of(c)| - 1] != 0xc2
  {
    assert IsControl(c) <==> ControlAt(Utf8Of(c), 0);
  }

  lemma ControlOfBoth(a: Bytes, b: Bytes)
    requires a != [] && a[|a| - 1] != 0xc2
    ensures HasControl(a + b) <==> HasControl(a) || HasControl(b)
  {
    var both := a + b;
    forall i: int ensures ControlAt(a, i) ==> ControlAt(both, i) {
    }
    forall i: int ensures i >= 0 ==> (ControlAt(b, i) <==> ControlAt(both, i + |a|)) {
    }
    forall i: int ensures i < |a| && ControlAt(both, i) ==> ControlAt(a, i) {
    }
    if i :| ControlAt(both, i) && i >= |a| {
      assert ControlAt(b, i - |a|);
    }
  }

  /** A text has a control character exactly if one of its characters is one. */
  lemma {:induction false} HasControlIff(characters: seq<Scalar>)
    ensures HasControl(Utf8(characters)) <==> exists c :: c in characters && IsControl(c)
  {
    if characters == [] {
    } else {
      HasControlIff(characters[1..]);
      ControlOf(characters[0]);
      ControlOfBoth(Utf8Of(characters[0]), Utf8(characters[1..]));
      assert characters == [characters[0]] + characters[1..];
    }
  }

  // ----- cleaning -----

  lemma {:induction false} CleanedInTurn(a: seq<Bytes>, b: seq<Bytes>, stack: seq<Bytes>)
    ensures CleanSegments(a + b, stack) == CleanSegments(b, CleanSegments(a, stack))
    decreases |a|
  {
    if a == [] {
      assert a + b == b;
    } else {
      assert (a + b)[1..] == a[1..] + b;
      var next := if a[0] == [] || a[0] == [DOT] then stack
                  else if a[0] == [DOT, DOT] then if stack == [] then [] else stack[..|stack| - 1]
                  else stack + [a[0]];
      CleanedInTurn(a[1..], b, next);
    }
  }

  /**
   The rules of cleaning a rooted path: empty segments and single dots go, a double dot goes
   together with the segment before it, and at the root alone.
   */
  lemma CleaningRules(a: seq<Bytes>, part: Bytes, b: seq<Bytes>)
    ensures CleanSegments(a + [[]] + b, []) == CleanSegments(a + b, [])
    ensures CleanSegments(a + [[0x2e]] + b, []) == CleanSegments(a + b, [])
    ensures CleanSegments([[0x2e, 0x2e]] + b, []) == CleanSegments(b, [])
    ensures part != [] && part != [0x2e] && part != [0x2e, 0x2e] ==>
      CleanSegments(a + [part, [0x2e, 0x2e]] + b, []) == CleanSegments(a + b, [])
  {
    var stack := CleanSegments(a, []);
    CleanedInTurn(a, b, []);
    CleanedInTurn(a + [[]], b, []);
    CleanedInTurn(a, [[]], []);
    CleanedInTurn(a + [[0x2e]], b, []);
    CleanedInTurn(a, [[0x2e]], []);
    assert ([[0x2e, 0x2e]] + b)[1..] == b;
    if part != [] && part != [0x2e] && part != [0x2e, 0x2e] {
      var two := [part, [0x2e, 0x2e]];
      CleanedInTurn(a + two, b, []);
      CleanedInTurn(a, two, []);
      assert two[1..] == [[0x2e, 0x2e]] && two[1..][1..] == [];
      assert (stack + [part])[..|stack|] == stack;
    }
  }
}

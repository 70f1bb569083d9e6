/** The identity stamped on every backup archive, and the scalar checks it shares with the state. */
module BackupIdentity {
  import opened Common

  const MAXIMUM_UINT64: nat := 0xFFFF_FFFF_FFFF_FFFF

  /** A confirmation order: an unsigned 64-bit counter value. */
  type Uint64 = n: nat | n <= MAXIMUM_UINT64

  /** The counter's increment wraps around. */
  function Increment(n: Uint64): Uint64 {
    if n == MAXIMUM_UINT64 then 0 else n + 1
  }

  /** Every 64-bit value is an order, and incrementing it is addition modulo 2 to the 64. */
  lemma IncrementWraps(n: nat)
    requires n < 0x1_0000_0000_0000_0000
    ensures n <= MAXIMUM_UINT64 && Increment(n) as int == (n + 1) % 0x1_0000_0000_0000_0000
  {
  }

  /** Unicode white space, as strings.TrimSpace strips it. */
  predicate IsSpace(c: char) {
    || c in "\t\n\U{B}\U{C}\r \U{85}\U{A0}\U{1680}\U{2028}\U{2029}\U{202F}\U{205F}\U{3000}"
    || '\U{2000}' <= c <= '\U{200A}'
  }

  /** Nothing is left of the text after trimming. */
  predicate Blank(text: string) {
    forall c :: c in text ==> IsSpace(c)
  }

  /** A SHA-256 digest in lower-case hexadecimal. */
  predicate IsDigestText(text: string) {
    |text| == 64 && forall c :: c in text ==> '0' <= c <= '9' || 'a' <= c <= 'f'
  }

  datatype Identity = Identity(
    schemaVersion: int,
    archiveID: string,
    sourcePath: string,
    destinationPath: string,
    createdAt: int,
    confirmationOrder: Uint64,
    inventoryDigest: string)

  const IDENTITY_SCHEMA_VERSION := 1

  /** An empty or zero expectation accepts any value; a zero creation time is "not set". */
  predicate ValidIdentity(identity: Identity, source: string, destination: string, order: Uint64, digest: string) {
    && identity.schemaVersion == IDENTITY_SCHEMA_VERSION
    && !Blank(identity.archiveID) && !Blank(identity.sourcePath) && !Blank(identity.destinationPath)
    && identity.createdAt != 0 && identity.confirmationOrder != 0 && IsDigestText(identity.inventoryDigest)
    && (source != "" ==> identity.sourcePath == source)
    && (destination != "" ==> identity.destinationPath == destination)
    && (order != 0 ==> identity.confirmationOrder == order)
    && (digest != "" ==> identity.inventoryDigest == digest)
  }

  // ----- what the scalar checks accept -----

  /** A text is blank exactly if it is made of Unicode's 25 white space characters. */
  lemma BlankIff(text: string)
    ensures Blank(text) <==>
            forall i :: 0 <= i < |text| ==> WhiteSpace(text[i] as int)
  {
    if Blank(text) {
      forall i | 0 <= i < |text| ensures WhiteSpace(text[i] as int) {
        assert IsSpace(text[i]);
      }
    } else {
      var c :| c in text && !IsSpace(c);
      var i :| 0 <= i < |text| && text[i] == c;
      assert !WhiteSpace(text[i] as int);
    }
  }

  /** The code points of property White_Space. */
  predicate WhiteSpace(c: int) {
    9 <= c <= 13 || c in {32, 133, 160, 5760, 8232, 8233, 8239, 8287, 12288} || 8192 <= c <= 8202
  }

  /** The lower-case hexadecimal text of bytes. */
  function HexText(bytes: Bytes): (text: string)
    ensures |text| == 2 * |bytes|
  {
    if bytes == [] then ""
    else ["0123456789abcdef"[bytes[0] / 16], "0123456789abcdef"[bytes[0] % 16]] + HexText(bytes[1..])
  }

  lemma HexDigit(value: nat)
    requires value < 16
    ensures var c := "0123456789abcdef"[value]; '0' <= c <= '9' || 'a' <= c <= 'f'
  {
  }

  lemma {:induction false} HexTextDigits(bytes: Bytes)
    ensures forall c :: c in HexText(bytes) ==> '0' <= c <= '9' || 'a' <= c <= 'f'
  {
    if bytes == [] {
    } else {
      HexDigit(bytes[0] as nat / 16);
      HexDigit(bytes[0] as nat % 16);
      HexTextDigits(bytes[1..]);
    }
  }

  lemma DigitOfText(c: char) returns (value: nat)
    requires '0' <= c <= '9' || 'a' <= c <= 'f'
    ensures value < 16 && "0123456789abcdef"[value] == c
  {
    value := if c <= '9' then c as int - '0' as int else c as int - 'a' as int + 10;
  }

  lemma {:induction false} BytesOfText(text: string, n: nat) returns (bytes: Bytes)
    requires |text| == 2 * n
    requires forall i :: 0 <= i < |text| ==> '0' <= text[i] <= '9' || 'a' <= text[i] <= 'f'
    ensures |bytes| == n && HexText(bytes) == text
  {
    if n == 0 {
      bytes := [];
    } else {
      var high := DigitOfText(text[0]);
      var low := DigitOfText(text[1]);
      var rest := BytesOfText(text[2..], n - 1);
      var first := 16 * high + low;
      assert first / 16 == high && first % 16 == low;
      bytes := [first as Byte] + rest;
      assert bytes[1..] == rest && text == [text[0], text[1]] + text[2..];
    }
  }

  /** A digest's text is the lower-case hexadecimal text of 32 bytes, and nothing else is. */
  lemma DigestTextIff(text: string)
    ensures IsDigestText(text) <==> exists bytes :: |bytes| == 32 && text == HexText(bytes)
  {
    if IsDigestText(text) {
      assert forall i :: 0 <= i < |text| ==> text[i] in text;
      var bytes := BytesOfText(text, 32);
    }
    if bytes :| |bytes| == 32 && text == HexText(bytes) { HexTextDigits(bytes); }
  }

  /** What is wrong with an identity, whatever is expected of it. */
  ghost predicate Malformed(identity: Identity) {
    || identity.schemaVersion != 1 || identity.createdAt == 0 || identity.confirmationOrder == 0
    || Blank(identity.archiveID) || Blank(identity.sourcePath) || Blank(identity.destinationPath)
    || !IsDigestText(identity.inventoryDigest)
  }

  /** An identity is valid exactly if nothing is wrong with it and nothing differs that was asked for. */
  lemma ValidIdentityIff(identity: Identity, source: string, destination: string, order: Uint64, digest: string)
    ensures ValidIdentity(identity, source, destination, order, digest) <==>
            && !Malformed(identity)
            && source in {"", identity.sourcePath} && destination in {"", identity.destinationPath}
            && order in {0, identity.confirmationOrder} && digest in {"", identity.inventoryDigest}
  {
  }
}

/** Replacing registered protected values in log messages, on bytes. */
module LogSanitizing {
  import opened Common
  import opened Sorting

  /** The marker, "[REDACTED]". */
  const MARKER: Bytes := [0x5b, 0x52, 0x45, 0x44, 0x41, 0x43, 0x54, 0x45, 0x44, 0x5d]

  /** A protected value; the empty one is never registered. */
  type Value = v: Bytes | v != [] witness [0]

  predicate OccursAt(value: Bytes, text: Bytes, i: int) {
    0 <= i && i + |value| <= |text| && text[i..i + |value|] == value
  }

  predicate Occurs(value: Bytes, text: Bytes) {
    exists i :: 0 <= i <= |text| && OccursAt(value, text, i)
  }

  /** strings.ReplaceAll of the value by the marker. */
  function Replaced(text: Bytes, value: Value): Bytes {
    if text == [] then []
    else if value <= text then MARKER + Replaced(text[|value|..], value)
    else [text[0]] + Replaced(text[1..], value)
  }

  /** One value after the other. */
  function AllReplaced(text: Bytes, values: seq<Value>): Bytes
    decreases values
  {
    if values == [] then text else AllReplaced(Replaced(text, values[0]), values[1..])
  }

  predicate NotShorter(a: Value, b: Value) { |a| >= |b| }

  /** Longest values first. */
  function Sanitized(values: seq<Value>, message: Bytes): Bytes {
    AllReplaced(message, Sort(values, NotShorter))
  }

  class LogSanitizer {
    var protectedValues: seq<Value>

    constructor ()
      ensures protectedValues == []
    {
      protectedValues := [];
    }

    method RegisterProtectedValue(value: Bytes)
      modifies this
      ensures protectedValues == if value == [] then old(protectedValues) else old(protectedValues) + [value]
    {
      if value == [] { return; }
      protectedValues := protectedValues + [value];
    }

    method SanitizeMessage(message: Bytes) returns (sanitized: Bytes)
      ensures sanitized == Sanitized(protectedValues, message)
    {
      if protectedValues == [] { return message; }
      var values := Sort(protectedValues, NotShorter);
      sanitized := message;
      for i := 0 to |values|
        invariant AllReplaced(message, values) == AllReplaced(sanitized, values[i..])
      {
        assert values[i..][1..] == values[i + 1..];
        sanitized := Replaced(sanitized, values[i]);
      }
    }
  }

  // ----- when a value can be seen again -----

  /**
   Laid over the marker so that its first byte is at position d, the value shares some byte
   positions with the marker and agrees on all of them.
   */
  predicate OverlapsAt(value: Bytes, d: int) {
    -|value| < d < |MARKER| && forall p :: 0 <= p < |value| && 0 <= p + d < |MARKER| ==> value[p] == MARKER[p + d]
  }

  predicate Overlaps(value: Bytes) {
    exists d :: -|value| < d < |MARKER| && OverlapsAt(value, d)
  }

  /** A prefix of a text after replacement was one before, or reaches into a marker. */
  lemma {:induction false} PrefixStays(value: Bytes, text: Bytes, other: Value) returns (e: int)
    requires value <= Replaced(text, other)
    ensures value <= text || (0 <= e < |value| && OverlapsAt(value, 0 - e))
    decreases |text|
  {
    e := 0;
    if value == [] || text == [] {
    } else if other <= text {
      assert forall p :: 0 <= p < |value| && p < |MARKER| ==> value[p] == MARKER[p];
    } else {
      assert Replaced(text, other)[1..] == Replaced(text[1..], other);
      assert value[0] == text[0] && value[1..] <= Replaced(text[1..], other);
      var below := PrefixStays(value[1..], text[1..], other);
      e := below + 1;
      if value[1..] <= text[1..] {
        PrefixJoined(value, text);
      } else {
        OverlapShifts(value, below);
      }
    }
  }

  lemma PrefixJoined(value: Bytes, text: Bytes)
    requires value != [] && text != [] && value[0] == text[0] && value[1..] <= text[1..]
    ensures value <= text
  {
    assert value == [value[0]] + value[1..] && text == [text[0]] + text[1..];
  }

  lemma OverlapShifts(value: Bytes, e: int)
    requires value != [] && 0 <= e < |value| - 1 && OverlapsAt(value[1..], 0 - e)
    ensures OverlapsAt(value, 0 - (e + 1))
  {
    forall p | 0 <= p < |value| && 0 <= p - (e + 1) < |MARKER| ensures value[p] == MARKER[p - (e + 1)] {
      assert value[p] == value[1..][p - 1];
    }
  }

  lemma OccursByte(value: Bytes, text: Bytes, i: int, k: int)
    requires OccursAt(value, text, i) && i <= k < i + |value|
    ensures value[k - i] == text[k]
  {
    assert text[i..i + |value|][k - i] == text[k];
  }

  lemma OccursInRest(value: Bytes, head: Bytes, rest: Bytes, i: int)
    requires OccursAt(value, head + rest, i) && i >= |head|
    ensures OccursAt(value, rest, i - |head|)
  {
    assert (head + rest)[i..i + |value|] == rest[i - |head|..i - |head| + |value|];
  }

  lemma OverlapsHere(value: Value, rest: Bytes, i: int)
    requires OccursAt(value, MARKER + rest, i) && i < |MARKER|
    ensures Overlaps(value)
  {
    forall p | 0 <= p < |value| && 0 <= p + i < |MARKER| ensures value[p] == MARKER[p + i] {
      OccursByte(value, MARKER + rest, i, p + i);
    }
    assert OverlapsAt(value, i);
  }

  /** Replacing anything brings a value to light only where it overlaps a marker. */
  lemma {:induction false} OccursBefore(value: Value, text: Bytes, other: Value, i: int)
    requires OccursAt(value, Replaced(text, other), i) && !Overlaps(value)
    ensures Occurs(value, text) && value != other
    decreases |text|
  {
    if text == [] {
    } else if other <= text {
      var rest := Replaced(text[|other|..], other);
      if i < |MARKER| { OverlapsHere(value, rest, i); }
      OccursInRest(value, MARKER, rest, i);
      OccursBefore(value, text[|other|..], other, i - |MARKER|);
      OccursLater(value, text, |other|);
    } else if i == 0 {
      var e := PrefixStays(value, text, other);
      assert 0 <= e < |value| ==> !OverlapsAt(value, 0 - e);
      assert OccursAt(value, text, 0);
    } else {
      OccursInRest(value, [text[0]], Replaced(text[1..], other), i);
      OccursBefore(value, text[1..], other, i - 1);
      OccursLater(value, text, 1);
    }
  }

  lemma OccursLater(value: Bytes, text: Bytes, n: nat)
    requires n <= |text| && Occurs(value, text[n..])
    ensures Occurs(value, text)
  {
    var i :| 0 <= i <= |text[n..]| && OccursAt(value, text[n..], i);
    assert text[n..][i..i + |value|] == text[n + i..n + i + |value|];
    assert OccursAt(value, text, n + i);
  }

  lemma {:induction false} StaysGone(value: Value, values: seq<Value>, text: Bytes)
    requires !Overlaps(value) && !Occurs(value, text)
    ensures !Occurs(value, AllReplaced(text, values))
    decreases values
  {
    if values == [] {
    } else {
      NotAfterReplacing(value, text, values[0]);
      StaysGone(value, values[1..], Replaced(text, values[0]));
    }
  }

  lemma NotAfterReplacing(value: Value, text: Bytes, other: Value)
    requires !Overlaps(value) && (!Occurs(value, text) || other == value)
    ensures !Occurs(value, Replaced(text, other))
  {
    if i :| 0 <= i <= |Replaced(text, other)| && OccursAt(value, Replaced(text, other), i) {
      OccursBefore(value, text, other, i);
    }
  }

  lemma {:induction false} ValueRemoved(value: Value, values: seq<Value>, text: Bytes)
    requires !Overlaps(value) && value in values
    ensures !Occurs(value, AllReplaced(text, values))
    decreases values
  {
    if values[0] == value {
      NotAfterReplacing(value, text, value);
      StaysGone(value, values[1..], Replaced(text, value));
    } else {
      ValueRemoved(value, values[1..], Replaced(text, values[0]));
    }
  }

  lemma SortedMembers(values: seq<Value>)
    ensures forall value :: value in Sort(values, NotShorter) <==> value in values
  {
    assert forall value :: value in values <==> value in multiset(values);
    assert forall value :: value in Sort(values, NotShorter) <==> value in multiset(Sort(values, NotShorter));
  }

  // ----- a second pass -----

  /** A text without the value is left as it is. */
  lemma {:induction false} NothingToReplace(text: Bytes, value: Value)
    requires !Occurs(value, text)
    ensures Replaced(text, value) == text
  {
    if text == [] {
    } else {
      assert !OccursAt(value, text, 0);
      if Occurs(value, text[1..]) { OccursLater(value, text, 1); }
      NothingToReplace(text[1..], value);
    }
  }

  lemma {:induction false} NoneToReplace(text: Bytes, values: seq<Value>)
    requires forall value :: value in values ==> !Occurs(value, text)
    ensures AllReplaced(text, values) == text
  {
    if values == [] {
    } else {
      NothingToReplace(text, values[0]);
      NoneToReplace(text, values[1..]);
    }
  }

  /** Where no value overlaps the marker, none is left, and a second pass changes nothing. */
  lemma SanitizedTwice(values: seq<Value>, message: Bytes)
    requires forall value :: value in values ==> !Overlaps(value)
    ensures forall value :: value in values ==> !Occurs(value, Sanitized(values, message))
    ensures Sanitized(values, Sanitized(values, message)) == Sanitized(values, message)
  {
    var sorted := Sort(values, NotShorter);
    SortedMembers(values);
    forall value | value in values ensures !Occurs(value, Sanitized(values, message)) {
      ValueRemoved(value, sorted, message);
    }
    NoneToReplace(Sanitized(values, message), sorted);
  }

  // ----- values that do come back -----

  lemma OccursInTail(value: Bytes, text: Bytes, i: int)
    requires text != [] && i >= 0
    ensures OccursAt(value, text[1..], i) <==> OccursAt(value, text, i + 1)
  {
    if i + 1 + |value| <= |text| {
      assert text[1..][i..i + |value|] == text[i + 1..i + 1 + |value|];
    }
  }

  /** The first occurrence becomes the marker, what stands before it is left alone, and so on behind it. */
  lemma {:induction false} FirstReplaced(left: Bytes, other: Value, right: Bytes)
    requires NotWithin(left, other, left + other + right)
    ensures Replaced(left + other + right, other) == left + MARKER + Replaced(right, other)
  {
    var text := left + other + right;
    if left == [] {
      assert text == other + right && text[|other|..] == right;
      assert left + MARKER == MARKER;
    } else {
      NextText(left, other, right);
      NotReplacedHere(text, other);
      LaterInTail(left, other, text);
      FirstReplaced(left[1..], other, right);
      NextText(left, MARKER, Replaced(right, other));
    }
  }

  /** The marker is the text "[REDACTED]". */
  lemma MarkerText()
    ensures |MARKER| == |"[REDACTED]"| && forall i :: 0 <= i < |MARKER| ==> MARKER[i] as char == "[REDACTED]"[i]
  {
  }

  /** The values are taken longest first. */
  lemma LongestFirst(values: seq<Value>, message: Bytes) returns (sorted: seq<Value>)
    ensures Sanitized(values, message) == AllReplaced(message, sorted)
    ensures multiset(sorted) == multiset(values)
    ensures forall i, j :: 0 <= i < j < |sorted| ==> |sorted[i]| >= |sorted[j]|
  {
    sorted := Sort(values, NotShorter);
    forall i, j | 0 <= i < j < |sorted| ensures |sorted[i]| >= |sorted[j]| {
      assert NotShorter(sorted[i], sorted[j]);
    }
  }

  /** Values are replaced one after the other, each in what the ones before it have left. */
  lemma {:induction false} ReplacedInTurn(text: Bytes, values: seq<Value>, last: Value)
    ensures AllReplaced(text, []) == text
    ensures AllReplaced(text, values + [last]) == Replaced(AllReplaced(text, values), last)
    decreases |values|
  {
    if values == [] {
      assert AllReplaced(text, [last]) == AllReplaced(Replaced(text, last), [last][1..]);
    } else {
      ReplacedInTurn(Replaced(text, values[0]), values[1..], last);
      assert (values + [last])[1..] == values[1..] + [last];
    }
  }

  predicate NotWithin(left: Bytes, value: Bytes, text: Bytes) {
    forall i :: 0 <= i < |left| ==> !OccursAt(value, text, i)
  }

  lemma NotReplacedHere(text: Bytes, other: Value)
    requires text != [] && !OccursAt(other, text, 0)
    ensures Replaced(text, other) == [text[0]] + Replaced(text[1..], other)
  {
  }

  lemma NextText(left: Bytes, middle: Bytes, right: Bytes)
    requires left != []
    ensures left + middle + right == [left[0]] + (left[1..] + middle + right)
    ensures (left + middle + right)[0] == left[0] && (left + middle + right)[1..] == left[1..] + middle + right
  {
  }

  lemma LaterInTail(left: Bytes, value: Bytes, text: Bytes)
    requires left != [] && text != [] && NotWithin(left, value, text)
    ensures NotWithin(left[1..], value, text[1..]) && !OccursAt(value, text, 0)
  {
    forall i | 0 <= i < |left| ensures OccursAt(value, text[1..], i) <==> OccursAt(value, text, i + 1) {
      OccursInTail(value, text, i);
    }
  }

  function LeftPart(value: Value, d: int): Bytes
    requires -|value| < d
  {
    if d < 0 then value[..0 - d] else []
  }

  function RightPart(value: Value, d: int): Bytes
    requires -|value| < d < |MARKER|
  {
    if d + |value| > |MARKER| then value[|MARKER| - d..] else []
  }

  /** The value around a marker, by way of another value that is replaced in its place. */
  lemma OverlapIsSeen(value: Value, d: int)
    requires -|value| < d < |MARKER| && OverlapsAt(value, d)
    ensures Occurs(value, LeftPart(value, d) + MARKER + RightPart(value, d))
  {
    var text := LeftPart(value, d) + MARKER + RightPart(value, d);
    var i := if d < 0 then 0 else d;
    forall k | 0 <= k < |value| ensures text[i + k] == value[k] {
      if 0 <= k + d < |MARKER| { assert text[i + k] == MARKER[k + d]; }
    }
    assert text[i..i + |value|] == value;
    assert OccursAt(value, text, i);
  }

  /** The byte x, once less often than the value is long. */
  function Run(value: Value, x: Byte): Bytes {
    seq(|value| - 1, _ => x)
  }

  /** x neither begins nor ends the value, and joins onto neither part. */
  predicate Separates(value: Value, left: Bytes, x: Byte, right: Bytes) {
    && value[0] != x && value[|value| - 1] != x
    && (left != [] ==> left[|left| - 1] != x) && (right != [] ==> right[0] != x)
  }

  lemma SomeSeparator(value: Value, left: Bytes, right: Bytes) returns (x: Byte)
    ensures Separates(value, left, x, right)
  {
    var taken := [value[0], value[|value| - 1], if left == [] then 0 else left[|left| - 1],
                  if right == [] then 0 else right[0]];
    x := if 0 !in taken then 0 else if 1 !in taken then 1 else if 2 !in taken then 2 else if 3 !in taken then 3 else 4;
    assert forall i :: 0 <= i < 4 ==> taken[i] in taken;
    assert forall b :: b in taken ==> b == taken[0] || b == taken[1] || b == taken[2] || b == taken[3];
  }

  lemma ValueNotAcross(value: Value, left: Bytes, x: Byte, right: Bytes)
    requires Separates(value, left, x, right) && |left| < |value| && |right| < |value|
    ensures !Occurs(value, left + Run(value, x) + right)
  {
    var text := left + Run(value, x) + right;
    if i :| 0 <= i <= |text| && OccursAt(value, text, i) {
      OccursByte(value, text, i, i);
      OccursByte(value, text, i, i + |value| - 1);
    }
  }

  lemma RunOnlyThere(value: Value, left: Bytes, x: Byte, right: Bytes)
    requires Separates(value, left, x, right) && 0 < |value| - 1 && |left| < |value| && |right| < |value|
    ensures forall i :: 0 <= i < |left| ==> !OccursAt(Run(value, x), left + Run(value, x) + right, i)
    ensures !Occurs(Run(value, x), right)
  {
    var text := left + Run(value, x) + right;
    forall i | 0 <= i < |left| ensures !OccursAt(Run(value, x), text, i) {
      if OccursAt(Run(value, x), text, i) {
        OccursByte(Run(value, x), text, i, |left| - 1);
      }
    }
    if i :| 0 <= i <= |right| && OccursAt(Run(value, x), right, i) {
      OccursByte(Run(value, x), right, i, 0);
    }
  }

  lemma SanitizedAlone(value: Value, message: Bytes)
    ensures Sanitized([value], message) == Replaced(message, value)
  {
    assert Sort([value], NotShorter) == [value];
    assert AllReplaced(message, [value]) == AllReplaced(Replaced(message, value), [value][1..]);
  }

  lemma SanitizedPair(longer: Value, shorter: Value, message: Bytes)
    requires |longer| > |shorter|
    ensures Sanitized([longer, shorter], message) == Replaced(Replaced(message, longer), shorter)
  {
    var values := [longer, shorter];
    assert values[..1] == [longer] && values[1..] == [shorter];
    assert Sort([longer], NotShorter) == [longer];
    assert Sort(values, NotShorter) == values;
    var once := Replaced(message, longer);
    assert AllReplaced(message, values) == AllReplaced(once, values[1..]);
    assert AllReplaced(once, [shorter]) == AllReplaced(Replaced(once, shorter), [shorter][1..]);
  }

  lemma WholeReplaced(value: Value)
    ensures Replaced(value, value) == MARKER
  {
    assert value[|value|..] == [];
    assert Replaced(value, value) == MARKER + Replaced([], value) == MARKER + [];
  }

  /** A value that overlaps the marker is left in some message, with at most one other value registered. */
  lemma OverlapRemains(value: Value) returns (values: seq<Value>, message: Bytes)
    requires Overlaps(value)
    ensures value in values && Occurs(value, Sanitized(values, message))
  {
    var d :| -|value| < d < |MARKER| && OverlapsAt(value, d);
    if |value| == 1 {
      values, message := [value], value;
      SanitizedAlone(value, message);
      WholeReplaced(value);
      assert value == [value[0]];
      assert MARKER[d..d + 1] == value;
      assert OccursAt(value, MARKER, d);
    } else {
      var left, right := LeftPart(value, d), RightPart(value, d);
      var x := SomeSeparator(value, left, right);
      var other: Value := Run(value, x);
      values, message := [value, other], left + other + right;
      SanitizedPair(value, other, message);
      ValueNotAcross(value, left, x, right);
      NothingToReplace(message, value);
      RunOnlyThere(value, left, x, right);
      FirstReplaced(left, other, right);
      NothingToReplace(right, other);
      OverlapIsSeen(value, d);
    }
  }

  /**
   A value never shows in a sanitized message, whatever else is registered, exactly if it
   does not overlap the marker.
   */
  lemma RemovedIff(value: Value)
    ensures (forall values, message :: value in values ==> !Occurs(value, Sanitized(values, message))) <==>
      !Overlaps(value)
  {
    if Overlaps(value) {
      var values, message := OverlapRemains(value);
    } else {
      forall values, message | value in values ensures !Occurs(value, Sanitized(values, message)) {
        SortedMembers(values);
        ValueRemoved(value, Sort(values, NotShorter), message);
      }
    }
  }

  /** The single letter "E" is left wherever anything was replaced. */
  lemma LetterRemains()
    ensures var value: Value := [0x45]; Occurs(value, Sanitized([value], value))
  {
    var value: Value := [0x45];
    SanitizedAlone(value, value);
    WholeReplaced(value);
    assert MARKER[2..3] == value;
    assert OccursAt(value, MARKER, 2);
  }
}

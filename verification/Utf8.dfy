/** UTF-8 as Go's unicode/utf8 decodes it. */
module Utf8 {
  type Byte = b: int | 0 <= b < 256

  const RUNE_ERROR := 0xFFFD

  datatype Rune = Rune(value: nat, size: nat)

  predicate IsScalar(value: int) {
    0 <= value < 0xD800 || 0xE000 <= value < 0x11_0000
  }

  predicate IsContinuation(b: Byte) {
    0x80 <= b < 0xC0
  }

  /** The bytes a first byte can be followed by. */
  predicate FollowsFirst(first: Byte, second: Byte) {
    if first == 0xE0 then 0xA0 <= second < 0xC0
    else if first == 0xED then 0x80 <= second < 0xA0
    else if first == 0xF0 then 0x90 <= second < 0xC0
    else if first == 0xF4 then 0x80 <= second < 0x90
    else IsContinuation(second)
  }

  function Less(b: Byte, offset: int): int {
    b - offset
  }

  /** utf8.DecodeRune of a text that is not empty. */
  function DecodeRune(p: seq<Byte>): (r: Rune)
    requires p != []
    ensures 1 <= r.size <= |p|
  {
    var invalid := Rune(RUNE_ERROR, 1);
    var first := p[0];
    if first < 0x80 then Rune(first, 1)
    else if first < 0xC2 || first > 0xF4 then invalid
    else if first < 0xE0 then
      if |p| < 2 || !FollowsFirst(first, p[1]) then invalid
      else Rune(Less(first, 0xC0) * 0x40 + Less(p[1], 0x80), 2)
    else if first < 0xF0 then
      if |p| < 3 || !FollowsFirst(first, p[1]) || !IsContinuation(p[2]) then invalid
      else Rune(Less(first, 0xE0) * 0x1000 + Less(p[1], 0x80) * 0x40 + Less(p[2], 0x80), 3)
    else
      if |p| < 4 || !FollowsFirst(first, p[1]) || !IsContinuation(p[2]) || !IsContinuation(p[3]) then invalid
      else Rune(Less(first, 0xF0) * 0x4_0000 + Less(p[1], 0x80) * 0x1000 + Less(p[2], 0x80) * 0x40 + Less(p[3], 0x80), 4)
  }

  /** A byte that starts no rune. The encoded error rune itself has three bytes. */
  predicate IsInvalid(p: seq<Byte>)
    requires p != []
  {
    DecodeRune(p) == Rune(RUNE_ERROR, 1)
  }

  function EncodeRune(value: nat): (bytes: seq<Byte>)
    requires IsScalar(value)
    ensures 1 <= |bytes| <= 4
  {
    if value < 0x80 then [value]
    else if value < 0x800 then [0xC0 + value / 0x40, 0x80 + value % 0x40]
    else if value < 0x1_0000 then [0xE0 + value / 0x1000, 0x80 + value / 0x40 % 0x40, 0x80 + value % 0x40]
    else
      [0xF0 + value / 0x4_0000, 0x80 + value / 0x1000 % 0x40, 0x80 + value / 0x40 % 0x40, 0x80 + value % 0x40]
  }

  lemma TwoDigits(high: nat, low: nat)
    requires low < 0x40
    ensures (high * 0x40 + low) / 0x40 == high && (high * 0x40 + low) % 0x40 == low
  {}

  // The parts of a value, six bits each, and the bytes they are written as.

  lemma EncodeOne(value: nat)
    requires value < 0x80
    ensures EncodeRune(value) == [value]
  {}

  lemma EncodeTwo(a: nat, b: nat)
    requires b < 0x40 && 0x80 <= a * 0x40 + b < 0x800
    ensures EncodeRune(a * 0x40 + b) == [0xC0 + a, 0x80 + b]
  {
    TwoDigits(a, b);
  }

  lemma EncodeThree(a: nat, b: nat, c: nat)
    requires b < 0x40 && c < 0x40
    requires var value := a * 0x1000 + b * 0x40 + c; 0x800 <= value < 0x1_0000 && IsScalar(value)
    ensures EncodeRune(a * 0x1000 + b * 0x40 + c) == [0xE0 + a, 0x80 + b, 0x80 + c]
  {
    TwoDigits(a, b);
    TwoDigits(a * 0x40 + b, c);
  }

  lemma EncodeFour(a: nat, b: nat, c: nat, d: nat)
    requires b < 0x40 && c < 0x40 && d < 0x40
    requires var value := a * 0x4_0000 + b * 0x1000 + c * 0x40 + d; 0x1_0000 <= value < 0x11_0000
    ensures EncodeRune(a * 0x4_0000 + b * 0x1000 + c * 0x40 + d) == [0xF0 + a, 0x80 + b, 0x80 + c, 0x80 + d]
  {
    TwoDigits(a, b);
    TwoDigits(a * 0x40 + b, c);
    TwoDigits((a * 0x40 + b) * 0x40 + c, d);
  }

  lemma Parts(value: nat)
    ensures value == value / 0x40 * 0x40 + value % 0x40
    ensures value == value / 0x1000 * 0x1000 + value / 0x40 % 0x40 * 0x40 + value % 0x40
    ensures value == value / 0x4_0000 * 0x4_0000 + value / 0x1000 % 0x40 * 0x1000 + value / 0x40 % 0x40 * 0x40 + value % 0x40
  {
    var a, b, c := value / 0x40, value / 0x1000, value / 0x4_0000;
    assert b == a / 0x40 && c == b / 0x40;
  }

  /** Decoding what a rune was encoded as gives the rune, whatever follows. */
  lemma DecodeOfEncode(value: nat, rest: seq<Byte>)
    requires IsScalar(value)
    ensures DecodeRune(EncodeRune(value) + rest) == Rune(value, |EncodeRune(value)|)
  {
    var bytes := EncodeRune(value);
    var p := bytes + rest;
    assert forall i :: 0 <= i < |bytes| ==> p[i] == bytes[i];
    Parts(value);
  }

  /** Encoding what was decoded gives the bytes that were read. */
  lemma EncodeOfDecode(p: seq<Byte>)
    requires p != [] && !IsInvalid(p)
    ensures IsScalar(DecodeRune(p).value) && EncodeRune(DecodeRune(p).value) == p[..DecodeRune(p).size]
  {
    hide EncodeRune;
    var r := DecodeRune(p);
    if r.size == 1 {
      EncodeOne(r.value);
    } else if r.size == 2 {
      EncodeTwo(Less(p[0], 0xC0), Less(p[1], 0x80));
    } else if r.size == 3 {
      EncodeThree(Less(p[0], 0xE0), Less(p[1], 0x80), Less(p[2], 0x80));
    } else {
      EncodeFour(Less(p[0], 0xF0), Less(p[1], 0x80), Less(p[2], 0x80), Less(p[3], 0x80));
    }
  }

  // ---------------------------------------------------------------------------
  // Texts

  function EncodeAll(runes: seq<nat>): seq<Byte>
    requires forall i :: 0 <= i < |runes| ==> IsScalar(runes[i])
  {
    if runes == [] then [] else EncodeRune(runes[0]) + EncodeAll(runes[1..])
  }

  predicate IsValid(p: seq<Byte>)
    decreases |p|
  {
    p == [] || (!IsInvalid(p) && IsValid(p[DecodeRune(p).size..]))
  }

  lemma {:induction false} EncodedIsValid(runes: seq<nat>)
    requires forall i :: 0 <= i < |runes| ==> IsScalar(runes[i])
    ensures IsValid(EncodeAll(runes))
  {
    hide EncodeRune, DecodeRune;
    if runes != [] {
      var first, rest := EncodeRune(runes[0]), EncodeAll(runes[1..]);
      DecodeOfEncode(runes[0], rest);
      EncodedIsValid(runes[1..]);
      assert (first + rest)[|first|..] == rest;
      NoScalarIsInvalid(runes[0]);
    }
  }

  lemma NoScalarIsInvalid(value: nat)
    requires IsScalar(value)
    ensures Rune(value, |EncodeRune(value)|) != Rune(RUNE_ERROR, 1)
  {}

  lemma {:induction false} ValidIsEncoded(p: seq<Byte>) returns (runes: seq<nat>)
    requires IsValid(p)
    ensures (forall i :: 0 <= i < |runes| ==> IsScalar(runes[i])) && EncodeAll(runes) == p
    decreases |p|
  {
    hide EncodeRune, DecodeRune;
    if p == [] {
      runes := [];
    } else {
      var r := DecodeRune(p);
      EncodeOfDecode(p);
      var rest := ValidIsEncoded(p[r.size..]);
      runes := [r.value] + rest;
      assert runes[1..] == rest && p == p[..r.size] + p[r.size..];
    }
  }

  /** A text is valid exactly when it is some runes, each encoded. */
  lemma ValidIffEncoded(p: seq<Byte>)
    ensures IsValid(p) <==> exists runes: seq<nat> ::
      (forall i :: 0 <= i < |runes| ==> IsScalar(runes[i])) && EncodeAll(runes) == p
  {
    hide IsValid, EncodeAll;
    if IsValid(p) { var runes := ValidIsEncoded(p); }
    if runes: seq<nat> :| (forall i :: 0 <= i < |runes| ==> IsScalar(runes[i])) && EncodeAll(runes) == p {
      EncodedIsValid(runes);
    }
  }
}

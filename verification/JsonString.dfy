/** JSON strings: the hand-written writer, and a reader after section 7 of RFC 8259. */
module JsonString {
  import opened Common
  import opened Utf8

  const QUOTE: Byte := 0x22
  const BACKSLASH: Byte := 0x5C

  // ---------------------------------------------------------------------------
  // The writer

  function HexDigit(n: nat): Byte
    requires n < 16
  {
    if n < 10 then 0x30 + n else 0x57 + n
  }

  /** What one rune is written as. */
  function EscapeRune(p: seq<Byte>): (escaped: seq<Byte>)
    requires p != []
  {
    var r := DecodeRune(p);
    if IsInvalid(p) then [BACKSLASH, 0x75, 0x66, 0x66, 0x66, 0x64]
    else if r.value == 0x22 then [BACKSLASH, QUOTE]
    else if r.value == 0x5C then [BACKSLASH, BACKSLASH]
    else if r.value == 0x08 then [BACKSLASH, 0x62]
    else if r.value == 0x0C then [BACKSLASH, 0x66]
    else if r.value == 0x0A then [BACKSLASH, 0x6E]
    else if r.value == 0x0D then [BACKSLASH, 0x72]
    else if r.value == 0x09 then [BACKSLASH, 0x74]
    else if r.value < 0x20 then [BACKSLASH, 0x75, 0x30, 0x30, HexDigit(r.value / 16), HexDigit(r.value % 16)]
    else p[..r.size]
  }

  function Escape(value: seq<Byte>): seq<Byte>
    decreases |value|
  {
    if value == [] then [] else EscapeRune(value) + Escape(value[DecodeRune(value).size..])
  }

  function Quoted(value: seq<Byte>): seq<Byte> {
    [QUOTE] + Escape(value) + [QUOTE]
  }

  /** The bytes appended for one rune. */
  method PieceOf(rest: seq<Byte>) returns (piece: seq<Byte>)
    requires rest != []
    ensures piece == EscapeRune(rest)
  {
    hide DecodeRune, HexDigit;
    var r := DecodeRune(rest);
    if r.value == RUNE_ERROR && r.size == 1 {
      return [BACKSLASH, 0x75, 0x66, 0x66, 0x66, 0x64];
    }
    match r.value
    case 0x22 => piece := [BACKSLASH, QUOTE];
    case 0x5C => piece := [BACKSLASH, BACKSLASH];
    case 0x08 => piece := [BACKSLASH, 0x62];
    case 0x0C => piece := [BACKSLASH, 0x66];
    case 0x0A => piece := [BACKSLASH, 0x6E];
    case 0x0D => piece := [BACKSLASH, 0x72];
    case 0x09 => piece := [BACKSLASH, 0x74];
    case _ =>
      if r.value < 0x20 {
        piece := [BACKSLASH, 0x75, 0x30, 0x30, HexDigit(r.value / 16), HexDigit(r.value % 16)];
      } else {
        piece := rest[..r.size];
      }
  }

  method AppendJSONString(dst: seq<Byte>, value: seq<Byte>) returns (out: seq<Byte>)
    ensures out == dst + Quoted(value)
  {
    hide DecodeRune, EscapeRune;
    out := dst + [QUOTE];
    var rest := value;
    while rest != []
      invariant out + Escape(rest) == dst + [QUOTE] + Escape(value)
      decreases |rest|
    {
      var piece := PieceOf(rest);
      var more := rest[DecodeRune(rest).size..];
      assert (out + piece) + Escape(more) == out + Escape(rest);
      out := out + piece;
      rest := more;
    }
    assert out + Escape(rest) == out;
    out := out + [QUOTE];
    assert dst + Quoted(value) == dst + [QUOTE] + Escape(value) + [QUOTE];
  }

  // ---------------------------------------------------------------------------
  // The reader

  function HexValue(b: Byte): Option<nat> {
    if 0x30 <= b <= 0x39 then Some(b - 0x30)
    else if 0x41 <= b <= 0x46 then Some(b - 0x37)
    else if 0x61 <= b <= 0x66 then Some(b - 0x57)
    else None
  }

  /** Four hexadecimal digits. */
  function CodeUnit(s: seq<Byte>): (unit: Option<nat>)
    ensures unit.Some? ==> |s| >= 4 && unit.value < 0x1_0000
  {
    if |s| < 4 || HexValue(s[0]).None? || HexValue(s[1]).None? || HexValue(s[2]).None? || HexValue(s[3]).None? then None
    else
      HexAtMost(s[0]);
      HexAtMost(s[1]);
      HexAtMost(s[2]);
      HexAtMost(s[3]);
      Some(HexValue(s[0]).value * 0x1000 + HexValue(s[1]).value * 0x100 + HexValue(s[2]).value * 0x10 + HexValue(s[3]).value)
  }

  lemma HexAtMost(b: Byte)
    ensures HexValue(b).Some? ==> HexValue(b).value < 16
  {}

  datatype Escaped = Escaped(bytes: seq<Byte>, size: nat)

  /** An escape sequence at the start of the text; surrogates come in pairs. */
  function ReadEscape(s: seq<Byte>): (e: Option<Escaped>)
    ensures e.Some? ==> 2 <= e.value.size <= |s|
  {
    if |s| < 2 || s[0] != BACKSLASH then None
    else if s[1] == QUOTE || s[1] == BACKSLASH || s[1] == 0x2F then Some(Escaped([s[1]], 2))
    else if s[1] == 0x62 then Some(Escaped([0x08], 2))
    else if s[1] == 0x66 then Some(Escaped([0x0C], 2))
    else if s[1] == 0x6E then Some(Escaped([0x0A], 2))
    else if s[1] == 0x72 then Some(Escaped([0x0D], 2))
    else if s[1] == 0x74 then Some(Escaped([0x09], 2))
    else if s[1] != 0x75 then None
    else ReadUnits(s)
  }

  function ReadUnits(s: seq<Byte>): (e: Option<Escaped>)
    requires |s| >= 2
    ensures e.Some? ==> 2 <= e.value.size <= |s|
  {
    var first := CodeUnit(s[2..]);
    if first.None? then None
    else if IsScalar(first.value) then Some(Escaped(EncodeRune(first.value), 6))
    else if first.value >= 0xDC00 || |s| < 8 || s[6] != BACKSLASH || s[7] != 0x75 then None
    else
      var second := CodeUnit(s[8..]);
      if second.None? || !(0xDC00 <= second.value < 0xE000) then None
      else Some(Escaped(EncodeRune(0x1_0000 + (first.value - 0xD800) * 0x400 + (second.value - 0xDC00)), 12))
  }

  datatype ReadResult = Read(value: seq<Byte>, rest: seq<Byte>) | Malformed

  /** The characters up to the closing quote. */
  function ReadChars(s: seq<Byte>): (r: ReadResult)
    ensures r.Read? ==> |r.rest| < |s|
    decreases |s|
  {
    if s == [] then Malformed
    else if s[0] == QUOTE then Read([], s[1..])
    else if s[0] == BACKSLASH then
      var e := ReadEscape(s);
      if e.None? then Malformed else Prefixed(e.value.bytes, ReadChars(s[e.value.size..]))
    else if s[0] < 0x20 || IsInvalid(s) then Malformed
    else Prefixed(s[..DecodeRune(s).size], ReadChars(s[DecodeRune(s).size..]))
  }

  function Prefixed(bytes: seq<Byte>, result: ReadResult): ReadResult {
    if result.Malformed? then Malformed else result.(value := bytes + result.value)
  }

  function ReadString(s: seq<Byte>): ReadResult {
    if s == [] || s[0] != QUOTE then Malformed else ReadChars(s[1..])
  }

  // ---------------------------------------------------------------------------
  // Reading back

  /** The text with every byte that starts no rune replaced by the encoded error rune. */
  function Repair(value: seq<Byte>): seq<Byte>
    decreases |value|
  {
    if value == [] then [] else RepairRune(value) + Repair(value[DecodeRune(value).size..])
  }

  function RepairRune(p: seq<Byte>): seq<Byte>
    requires p != []
  {
    if IsInvalid(p) then EncodeRune(RUNE_ERROR) else p[..DecodeRune(p).size]
  }

  lemma {:induction false} RepairOfValid(value: seq<Byte>)
    requires IsValid(value)
    ensures Repair(value) == value
    decreases |value|
  {
    hide DecodeRune;
    if value != [] {
      var k := DecodeRune(value).size;
      RepairOfValid(value[k..]);
      assert value == value[..k] + value[k..];
    }
  }

  lemma {:induction false} RepairIsValid(value: seq<Byte>)
    ensures IsValid(Repair(value))
    decreases |value|
  {
    hide DecodeRune, EncodeRune;
    if value != [] {
      var r := DecodeRune(value);
      var rest := Repair(value[r.size..]);
      RepairIsValid(value[r.size..]);
      var scalar := if IsInvalid(value) then RUNE_ERROR else r.value;
      if !IsInvalid(value) { EncodeOfDecode(value); }
      assert RepairRune(value) == EncodeRune(scalar);
      DecodeOfEncode(scalar, rest);
      NoScalarIsInvalid(scalar);
      assert (EncodeRune(scalar) + rest)[|EncodeRune(scalar)|..] == rest;
    }
  }

  // A short rune has its value as its only byte; a long one starts above ASCII.
  lemma RuneBytes(p: seq<Byte>)
    requires p != []
    ensures p[0] < 0x80 ==> DecodeRune(p) == Rune(p[0], 1) && !IsInvalid(p) && p[..1] == [p[0]]
    ensures p[0] >= 0x80 && !IsInvalid(p) ==> DecodeRune(p).value >= 0x80
  {}

  lemma LongRune(p: seq<Byte>, tail: seq<Byte>)
    requires p != [] && !IsInvalid(p)
    ensures DecodeRune(p[..DecodeRune(p).size] + tail) == DecodeRune(p)
  {
    EncodeOfDecode(p);
    DecodeOfEncode(DecodeRune(p).value, tail);
  }

  lemma ControlEscape(control: Byte, tail: seq<Byte>)
    requires control < 0x20
    ensures var s := [BACKSLASH, 0x75, 0x30, 0x30, HexDigit(control / 16), HexDigit(control % 16)] + tail;
      ReadEscape(s) == Some(Escaped([control], 6))
  {
    var s := [BACKSLASH, 0x75, 0x30, 0x30, HexDigit(control / 16), HexDigit(control % 16)] + tail;
    var high, low: nat := control / 16, control % 16;
    HexRoundTrip(high);
    HexRoundTrip(low);
    var digits := s[2..];
    assert digits[0] == 0x30 && digits[1] == 0x30 && digits[2] == HexDigit(high) && digits[3] == HexDigit(low);
    assert CodeUnit(digits) == Some(high * 16 + low);
  }

  lemma HexRoundTrip(n: nat)
    requires n < 16
    ensures HexValue(HexDigit(n)) == Some(n)
  {}

  lemma ErrorEscape(tail: seq<Byte>)
    ensures var s := [BACKSLASH, 0x75, 0x66, 0x66, 0x66, 0x64] + tail;
      ReadEscape(s) == Some(Escaped(EncodeRune(RUNE_ERROR), 6))
  {
    var s := [BACKSLASH, 0x75, 0x66, 0x66, 0x66, 0x64] + tail;
    var digits := s[2..];
    assert digits[0] == 0x66 && digits[1] == 0x66 && digits[2] == 0x66 && digits[3] == 0x64;
  }

  lemma ShortEscape(letter: Byte, tail: seq<Byte>)
    ensures var s := [BACKSLASH, letter] + tail;
      && (letter == QUOTE || letter == BACKSLASH ==> ReadEscape(s) == Some(Escaped([letter], 2)))
      && (letter == 0x62 ==> ReadEscape(s) == Some(Escaped([0x08], 2)))
      && (letter == 0x66 ==> ReadEscape(s) == Some(Escaped([0x0C], 2)))
      && (letter == 0x6E ==> ReadEscape(s) == Some(Escaped([0x0A], 2)))
      && (letter == 0x72 ==> ReadEscape(s) == Some(Escaped([0x0D], 2)))
      && (letter == 0x74 ==> ReadEscape(s) == Some(Escaped([0x09], 2)))
  {}

  /** The reader takes one written rune back, and goes on after it. */
  lemma ReadOneRune(p: seq<Byte>, tail: seq<Byte>)
    requires p != []
    ensures ReadChars(EscapeRune(p) + tail) == Prefixed(RepairRune(p), ReadChars(tail))
  {
    RuneBytes(p);
    var r, written := DecodeRune(p), EscapeRune(p);
    var s := written + tail;
    hide DecodeRune, ReadEscape, EncodeRune, Prefixed;
    assert s[|written|..] == tail;
    if IsInvalid(p) {
      ErrorEscape(tail);
    } else if r.value < 0x80 {
      assert p[0] == r.value;
      if |written| == 2 {
        ShortEscape(written[1], tail);
        assert written == [BACKSLASH, written[1]];
      } else if r.value < 0x20 {
        ControlEscape(p[0], tail);
      } else {
        RuneBytes(s);
      }
    } else {
      LongRune(p, tail);
      assert s[0] == p[0];
    }
  }

  lemma {:induction false} ReadEscaped(value: seq<Byte>, rest: seq<Byte>)
    ensures ReadChars(Escape(value) + [QUOTE] + rest) == Read(Repair(value), rest)
    decreases |value|
  {
    hide DecodeRune, EscapeRune, RepairRune;
    if value == [] {
      assert Escape(value) + [QUOTE] + rest == [QUOTE] + rest;
      assert ([QUOTE] + rest)[1..] == rest;
    } else {
      var more := value[DecodeRune(value).size..];
      ReadEscaped(more, rest);
      assert Escape(value) + [QUOTE] + rest == EscapeRune(value) + (Escape(more) + [QUOTE] + rest);
      ReadOneRune(value, Escape(more) + [QUOTE] + rest);
    }
  }

  /** What was written reads back, whatever follows: as it was when it is valid UTF-8, and
      with the error rune for each bad byte when it is not. */
  lemma ReadQuoted(value: seq<Byte>, rest: seq<Byte>)
    ensures ReadString(Quoted(value) + rest) == Read(Repair(value), rest)
  {
    hide ReadChars;
    assert Quoted(value) + rest == [QUOTE] + (Escape(value) + [QUOTE] + rest);
    assert (Quoted(value) + rest)[1..] == Escape(value) + [QUOTE] + rest;
    ReadEscaped(value, rest);
  }

  /** The round trip is exact for valid UTF-8, and only for it. */
  lemma RoundTripIffValid(value: seq<Byte>, rest: seq<Byte>)
    ensures ReadString(Quoted(value) + rest) == Read(value, rest) <==> IsValid(value)
  {
    hide ReadString, Quoted, IsValid, Repair;
    ReadQuoted(value, rest);
    RepairIsValid(value);
    if IsValid(value) { RepairOfValid(value); }
  }

  // ---------------------------------------------------------------------------
  // Nothing active between the quotes

  /** No control byte, and no quote or backslash except in an escape sequence. */
  predicate Inert(s: seq<Byte>)
    decreases |s|
  {
    if s == [] then true
    else if s[0] == BACKSLASH then
      |s| >= 2 && s[1] in {QUOTE, BACKSLASH, 0x62, 0x66, 0x6E, 0x72, 0x74, 0x75} && Inert(s[2..])
    else s[0] >= 0x20 && s[0] != QUOTE && Inert(s[1..])
  }

  lemma {:induction false} InertConcat(a: seq<Byte>, b: seq<Byte>)
    requires Inert(a) && Inert(b)
    ensures Inert(a + b)
    decreases |a|
  {
    if a == [] {
      assert a + b == b;
    } else {
      var k := if a[0] == BACKSLASH then 2 else 1;
      InertConcat(a[k..], b);
      assert (a + b)[k..] == a[k..] + b;
    }
  }

  lemma {:induction false} PlainIsInert(s: seq<Byte>)
    requires forall i :: 0 <= i < |s| ==> s[i] >= 0x20 && s[i] != QUOTE && s[i] != BACKSLASH
    ensures Inert(s)
  {
    if s != [] { PlainIsInert(s[1..]); }
  }

  lemma LongBytes(p: seq<Byte>)
    requires p != [] && p[0] >= 0x80 && !IsInvalid(p)
    ensures forall i :: 0 <= i < DecodeRune(p).size ==> p[i] >= 0x80
  {}

  lemma RuneIsInert(p: seq<Byte>)
    requires p != []
    ensures Inert(EscapeRune(p))
  {
    RuneBytes(p);
    var written := EscapeRune(p);
    if p[0] >= 0x80 && !IsInvalid(p) { LongBytes(p); }
    hide DecodeRune;
    if written[0] == BACKSLASH {
      PlainIsInert(written[2..]);
    } else {
      PlainIsInert(written);
    }
  }

  /** Between its quotes the output cannot end the string or start a line. */
  lemma {:induction false} EscapeIsInert(value: seq<Byte>)
    ensures Inert(Escape(value))
    decreases |value|
  {
    hide DecodeRune, EscapeRune;
    if value != [] {
      RuneIsInert(value);
      var more := value[DecodeRune(value).size..];
      EscapeIsInert(more);
      InertConcat(EscapeRune(value), Escape(more));
    }
  }

  // ---------------------------------------------------------------------------
  // The body of a sensitive type action

  function Ascii(s: string): seq<Byte> {
    seq(|s|, i requires 0 <= i < |s| => if s[i] < 128 as char then s[i] as int else 0x3F)
  }

  const TEXT_KEY := "{\"action\":\"type\",\"text\":"
  // Written in pieces: the verifier does not look into a literal this long.
  const COMPUTER_KEY := ",\"sensitive\":true," + "\"native_handoff\":true," + "\"computer_id\":"
  const TARGET_KEY := ",\"target_id\":"

  function Body(value: seq<Byte>, computer: seq<Byte>, target: seq<Byte>): seq<Byte> {
    Ascii(TEXT_KEY) + Quoted(value) + Ascii(COMPUTER_KEY) + Quoted(computer) + Ascii(TARGET_KEY) + Quoted(target) + Ascii("}")
  }

  method SensitiveTypeBody(value: seq<Byte>, computer: seq<Byte>, target: seq<Byte>) returns (body: seq<Byte>)
    ensures body == Body(value, computer, target)
  {
    hide Ascii, Quoted;
    body := Ascii(TEXT_KEY);
    body := AppendJSONString(body, value);
    body := body + Ascii(COMPUTER_KEY);
    body := AppendJSONString(body, computer);
    body := body + Ascii(TARGET_KEY);
    body := AppendJSONString(body, target);
    body := body + Ascii("}");
  }

  datatype BodyResult = Fields(value: seq<Byte>, computer: seq<Byte>, target: seq<Byte>) | NoBody

  function ReadField(key: seq<Byte>, s: seq<Byte>): ReadResult {
    if key <= s then ReadString(s[|key|..]) else Malformed
  }

  /** Reading the three strings out of a body of this shape. */
  function ReadBody(s: seq<Byte>): BodyResult {
    var value := ReadField(Ascii(TEXT_KEY), s);
    if value.Malformed? then NoBody
    else
      var computer := ReadField(Ascii(COMPUTER_KEY), value.rest);
      if computer.Malformed? then NoBody
      else
        var target := ReadField(Ascii(TARGET_KEY), computer.rest);
        if target.Malformed? || target.rest != Ascii("}") then NoBody else Fields(value.value, computer.value, target.value)
  }

  lemma FieldReadsBack(key: seq<Byte>, value: seq<Byte>, rest: seq<Byte>)
    ensures ReadField(key, key + Quoted(value) + rest) == Read(Repair(value), rest)
  {
    hide Quoted, ReadString, Repair;
    var s := key + Quoted(value) + rest;
    assert s[|key|..] == Quoted(value) + rest;
    assert s[..|key|] == key;
    ReadQuoted(value, rest);
  }

  /** The body gives back all three strings: no text can pass itself off as another field. */
  lemma BodyReadsBack(value: seq<Byte>, computer: seq<Byte>, target: seq<Byte>)
    ensures ReadBody(Body(value, computer, target)) == Fields(Repair(value), Repair(computer), Repair(target))
  {
    hide Ascii, Quoted, ReadField, Repair;
    var close := Ascii("}");
    var last := Ascii(TARGET_KEY) + Quoted(target) + close;
    var middle := Ascii(COMPUTER_KEY) + Quoted(computer) + last;
    assert Body(value, computer, target) == Ascii(TEXT_KEY) + Quoted(value) + middle;
    FieldReadsBack(Ascii(TEXT_KEY), value, middle);
    FieldReadsBack(Ascii(COMPUTER_KEY), computer, last);
    FieldReadsBack(Ascii(TARGET_KEY), target, close);
  }
}

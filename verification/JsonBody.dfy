/** The body of a sensitive type action as a JSON object, after section 4 of RFC 8259. */
module JsonBody {
  import opened Common
  import opened Utf8
  import opened JsonString

  // ---------------------------------------------------------------------------
  // A reader of objects whose values are strings or true

  datatype Value = Text(bytes: seq<Byte>) | Yes
  datatype Member = Member(key: seq<Byte>, value: Value)

  datatype ValueResult = Value(value: Value, rest: seq<Byte>) | NoValue

  function ReadValue(s: seq<Byte>): (r: ValueResult)
    ensures r.Value? ==> |r.rest| < |s|
  {
    if [0x74, 0x72, 0x75, 0x65] <= s then Value(Yes, s[4..])
    else
      var text := ReadString(s);
      if text.Malformed? then NoValue else Value(Text(text.value), text.rest)
  }

  /** The members up to the closing brace, which ends the text. */
  function ReadMembers(s: seq<Byte>): Option<seq<Member>>
    decreases |s|, 0
  {
    var key := ReadString(s);
    if key.Malformed? || key.rest == [] || key.rest[0] != 0x3A then None
    else
      var value := ReadValue(key.rest[1..]);
      if value.NoValue? then None else ReadMore(Member(key.value, value.value), value.rest)
  }

  function ReadMore(first: Member, rest: seq<Byte>): Option<seq<Member>>
    decreases |rest|, 1
  {
    if rest == [0x7D] then Some([first])
    else if rest == [] || rest[0] != 0x2C then None
    else
      var more := ReadMembers(rest[1..]);
      if more.None? then None else Some([first] + more.value)
  }

  function ReadObject(s: seq<Byte>): Option<seq<Member>> {
    if s == [] || s[0] != 0x7B then None else ReadMembers(s[1..])
  }

  // ---------------------------------------------------------------------------
  // Plain texts

  predicate IsPlain(s: string) {
    forall i :: 0 <= i < |s| ==> ' ' <= s[i] <= '~' && s[i] != '"' && s[i] != '\\'
  }

  lemma AsciiConcat(a: string, b: string)
    ensures Ascii(a + b) == Ascii(a) + Ascii(b)
  {}

  lemma PlainRune(p: seq<Byte>)
    requires p != [] && 0x20 <= p[0] < 0x7F && p[0] != QUOTE && p[0] != BACKSLASH
    ensures DecodeRune(p) == Rune(p[0] as nat, 1) && EscapeRune(p) == [p[0]] && RepairRune(p) == [p[0]]
  {
    RuneBytes(p);
    hide DecodeRune;
  }

  lemma {:induction false} PlainStays(s: string)
    requires IsPlain(s)
    ensures Escape(Ascii(s)) == Ascii(s) && Repair(Ascii(s)) == Ascii(s)
    decreases |s|
  {
    hide EscapeRune, RepairRune, DecodeRune;
    var bytes := Ascii(s);
    if s != "" {
      PlainRune(bytes);
      assert bytes[1..] == Ascii(s[1..]);
      PlainStays(s[1..]);
      assert bytes == [bytes[0]] + bytes[1..];
    }
  }

  /** Only quotes, backslashes, control characters and bytes that start no rune are written
      otherwise than they are. */
  lemma OnlyTheseAreEscaped(p: seq<Byte>)
    requires p != [] && !IsInvalid(p) && p[0] >= 0x20 && p[0] != QUOTE && p[0] != BACKSLASH
    ensures EscapeRune(p) == p[..DecodeRune(p).size]
  {
    RuneBytes(p);
    hide DecodeRune;
  }

  lemma ShortEscapes(rest: seq<Byte>)
    ensures EscapeRune([0x22] + rest) == [0x5C, 0x22] && EscapeRune([0x5C] + rest) == [0x5C, 0x5C]
    ensures EscapeRune([0x08] + rest) == Ascii("\\b") && EscapeRune([0x0C] + rest) == Ascii("\\f")
    ensures EscapeRune([0x0A] + rest) == Ascii("\\n") && EscapeRune([0x0D] + rest) == Ascii("\\r")
    ensures EscapeRune([0x09] + rest) == Ascii("\\t")
  {
    RuneBytes([0x22] + rest);
    RuneBytes([0x5C] + rest);
    RuneBytes([0x08] + rest);
    RuneBytes([0x0C] + rest);
    RuneBytes([0x0A] + rest);
    RuneBytes([0x0D] + rest);
    RuneBytes([0x09] + rest);
    hide DecodeRune;
  }

  lemma LongEscapes(rest: seq<Byte>)
    ensures EscapeRune([0x00] + rest) == Ascii("\\u0000") && EscapeRune([0x0B] + rest) == Ascii("\\u000b")
    ensures EscapeRune([0x1F] + rest) == Ascii("\\u001f") && EscapeRune([0xFF] + rest) == Ascii("\\ufffd")
  {
    RuneBytes([0x00] + rest);
    RuneBytes([0x0B] + rest);
    RuneBytes([0x1F] + rest);
    assert DecodeRune([0xFF] + rest) == Rune(RUNE_ERROR, 1);
    hide DecodeRune;
  }

  // ---------------------------------------------------------------------------
  // Reading the body

  lemma ReadText(key: seq<Byte>, value: seq<Byte>, tail: seq<Byte>)
    ensures ReadMembers(Quoted(key) + [0x3A] + Quoted(value) + tail) == ReadMore(Member(Repair(key), Text(Repair(value))), tail)
  {
    hide Repair, ReadString, ReadMore;
    var s := Quoted(key) + [0x3A] + Quoted(value) + tail;
    assert s == Quoted(key) + ([0x3A] + (Quoted(value) + tail));
    ReadQuoted(key, [0x3A] + (Quoted(value) + tail));
    assert ([0x3A] + (Quoted(value) + tail))[1..] == Quoted(value) + tail;
    assert (Quoted(value) + tail)[0] == QUOTE;
    ReadQuoted(value, tail);
  }

  lemma ReadYes(key: seq<Byte>, tail: seq<Byte>)
    ensures ReadMembers(Quoted(key) + [0x3A, 0x74, 0x72, 0x75, 0x65] + tail) == ReadMore(Member(Repair(key), Yes), tail)
  {
    hide Repair, ReadString, ReadMore, Quoted;
    var after := [0x3A, 0x74, 0x72, 0x75, 0x65] + tail;
    assert Quoted(key) + [0x3A, 0x74, 0x72, 0x75, 0x65] + tail == Quoted(key) + after;
    ReadQuoted(key, after);
    assert after[1..] == [0x74, 0x72, 0x75, 0x65] + tail && after[1..][4..] == tail;
  }

  lemma QuotedName(name: string)
    requires IsPlain(name)
    ensures Quoted(Ascii(name)) == Ascii("\"" + name + "\"") && Repair(Ascii(name)) == Ascii(name)
  {
    hide Escape, Repair;
    PlainStays(name);
    assert Ascii("\"") == [QUOTE];
    AsciiConcat("\"", name);
    AsciiConcat("\"" + name, "\"");
  }

  lemma Marks()
    ensures Ascii("{") == [0x7B] && Ascii(":") == [0x3A] && Ascii(",") == [0x2C] && Ascii("}") == [0x7D]
    ensures Ascii(":true,") == [0x3A, 0x74, 0x72, 0x75, 0x65] + [0x2C]
  {}

  lemma TextKeyText()
    ensures TEXT_KEY == "{" + (("\"" + "action" + "\"") + (":" + (("\"" + "type" + "\"") + ("," + (("\"" + "text" + "\"") + ":")))))
  {}

  lemma TextKeyParts()
    ensures Ascii(TEXT_KEY)
         == [0x7B] + (Quoted(Ascii("action")) + ([0x3A] + (Quoted(Ascii("type")) + ([0x2C] + (Quoted(Ascii("text")) + [0x3A])))))
  {
    hide Quoted, Ascii, IsPlain;
    NamesArePlain();
    Marks();
    TextKeyText();
    QuotedName("action");
    QuotedName("type");
    QuotedName("text");
    var action, kind, text := "\"" + "action" + "\"", "\"" + "type" + "\"", "\"" + "text" + "\"";
    AsciiConcat("{", action + (":" + (kind + ("," + (text + ":")))));
    AsciiConcat(action, ":" + (kind + ("," + (text + ":"))));
    AsciiConcat(":", kind + ("," + (text + ":")));
    AsciiConcat(kind, "," + (text + ":"));
    AsciiConcat(",", text + ":");
    AsciiConcat(text, ":");
  }

  // One true member and the comma after it.
  lemma YesParts(name: string)
    requires IsPlain(name)
    ensures Ascii("\"" + name + "\"" + ":true,") == Quoted(Ascii(name)) + [0x3A, 0x74, 0x72, 0x75, 0x65] + [0x2C]
  {
    hide Quoted, Ascii;
    Marks();
    QuotedName(name);
    AsciiConcat("\"" + name + "\"", ":true,");
    assert Quoted(Ascii(name)) + ([0x3A, 0x74, 0x72, 0x75, 0x65] + [0x2C]) == Quoted(Ascii(name)) + [0x3A, 0x74, 0x72, 0x75, 0x65] + [0x2C];
  }

  // A key and its colon after a comma.
  lemma KeyParts(name: string)
    requires IsPlain(name)
    ensures Ascii("\"" + name + "\"" + ":") == Quoted(Ascii(name)) + [0x3A]
  {
    hide Quoted, Ascii;
    Marks();
    QuotedName(name);
    AsciiConcat("\"" + name + "\"", ":");
  }

  lemma OtherKeyTexts()
    ensures ",\"sensitive\":true," == "," + ("\"" + "sensitive" + "\"" + ":true,")
    ensures "\"native_handoff\":true," == "\"" + "native_handoff" + "\"" + ":true,"
  {}

  lemma IdTexts()
    ensures "\"computer_id\":" == "\"" + "computer_id" + "\"" + ":"
    ensures TARGET_KEY == "," + ("\"" + "target_id" + "\"" + ":")
  {}

  lemma ComputerKeyParts()
    ensures Ascii(COMPUTER_KEY)
         == [0x2C] + (Quoted(Ascii("sensitive")) + [0x3A, 0x74, 0x72, 0x75, 0x65] + [0x2C])
            + (Quoted(Ascii("native_handoff")) + [0x3A, 0x74, 0x72, 0x75, 0x65] + [0x2C])
            + (Quoted(Ascii("computer_id")) + [0x3A])
  {
    hide Quoted, Ascii, IsPlain;
    NamesArePlain();
    Marks();
    OtherKeyTexts();
    IdTexts();
    YesParts("sensitive");
    YesParts("native_handoff");
    KeyParts("computer_id");
    var a, b, c := "\"" + "sensitive" + "\"" + ":true,", "\"" + "native_handoff" + "\"" + ":true,", "\"" + "computer_id" + "\"" + ":";
    AsciiConcat(",", a);
    AsciiConcat("," + a, b);
    AsciiConcat("," + a + b, c);
  }

  lemma TargetKeyParts()
    ensures Ascii(TARGET_KEY) == [0x2C] + (Quoted(Ascii("target_id")) + [0x3A])
  {
    hide Quoted, Ascii, IsPlain;
    NamesArePlain();
    Marks();
    IdTexts();
    KeyParts("target_id");
    AsciiConcat(",", "\"" + "target_id" + "\"" + ":");
  }

  lemma NamesArePlain()
    ensures IsPlain("action") && IsPlain("type") && IsPlain("text") && IsPlain("sensitive") && IsPlain("native_handoff")
    ensures IsPlain("computer_id") && IsPlain("target_id")
  {}

  // ----- the members, from the last to the first

  function TextMember(name: string, value: seq<Byte>, tail: seq<Byte>): seq<Byte> {
    Quoted(Ascii(name)) + [0x3A] + Quoted(value) + tail
  }

  function YesMember(name: string, tail: seq<Byte>): seq<Byte> {
    Quoted(Ascii(name)) + [0x3A, 0x74, 0x72, 0x75, 0x65] + tail
  }

  lemma ReadTextThen(name: string, value: seq<Byte>, rest: seq<Byte>, members: seq<Member>)
    requires IsPlain(name) && ReadMembers(rest) == Some(members)
    ensures ReadMembers(TextMember(name, value, [0x2C] + rest)) == Some([Member(Ascii(name), Text(Repair(value)))] + members)
  {
    hide ReadMembers, Repair, Quoted, Ascii;
    QuotedName(name);
    ReadText(Ascii(name), value, [0x2C] + rest);
    MoreMembers(rest);
  }

  lemma ReadYesThen(name: string, rest: seq<Byte>, members: seq<Member>)
    requires IsPlain(name) && ReadMembers(rest) == Some(members)
    ensures ReadMembers(YesMember(name, [0x2C] + rest)) == Some([Member(Ascii(name), Yes)] + members)
  {
    hide ReadMembers, Repair, Quoted, Ascii;
    QuotedName(name);
    ReadYes(Ascii(name), [0x2C] + rest);
    MoreMembers(rest);
  }

  lemma ReadTextLast(name: string, value: seq<Byte>)
    requires IsPlain(name)
    ensures ReadMembers(TextMember(name, value, [0x7D])) == Some([Member(Ascii(name), Text(Repair(value)))])
  {
    hide ReadMembers, Repair, Quoted, Ascii;
    QuotedName(name);
    ReadText(Ascii(name), value, [0x7D]);
  }

  lemma MoreMembers(s: seq<Byte>)
    ensures ([0x2C] + s)[1..] == s
  {}

  function Tail(computer: seq<Byte>, target: seq<Byte>): seq<Byte> {
    TextMember("computer_id", computer, [0x2C] + TextMember("target_id", target, [0x7D]))
  }

  function Middle(computer: seq<Byte>, target: seq<Byte>): seq<Byte> {
    YesMember("sensitive", [0x2C] + YesMember("native_handoff", [0x2C] + Tail(computer, target)))
  }

  function Whole(value: seq<Byte>, computer: seq<Byte>, target: seq<Byte>): seq<Byte> {
    TextMember("action", Ascii("type"), [0x2C] + TextMember("text", value, [0x2C] + Middle(computer, target)))
  }

  lemma BodyIsWhole(value: seq<Byte>, computer: seq<Byte>, target: seq<Byte>)
    ensures Body(value, computer, target) == [0x7B] + Whole(value, computer, target)
  {
    TextKeyParts();
    MiddleParts(computer, target);
    hide Quoted, Ascii, Middle;
    var middle := Middle(computer, target);
    assert Body(value, computer, target) == Ascii(TEXT_KEY) + Quoted(value) + ([0x2C] + middle);
    Flat([0x7B], Quoted(Ascii("action")), [0x3A], Quoted(Ascii("type")), [0x2C], Quoted(Ascii("text")), [0x3A], Quoted(value), [0x2C] + middle);
  }

  lemma Flat(a: seq<Byte>, b: seq<Byte>, c: seq<Byte>, d: seq<Byte>, e: seq<Byte>, f: seq<Byte>, g: seq<Byte>, h: seq<Byte>, i: seq<Byte>)
    ensures (a + (b + (c + (d + (e + (f + g)))))) + h + i == a + (b + c + d + (e + (f + g + h + i)))
  {}

  lemma MiddleParts(computer: seq<Byte>, target: seq<Byte>)
    ensures Ascii(COMPUTER_KEY) + Quoted(computer) + Ascii(TARGET_KEY) + Quoted(target) + Ascii("}") == [0x2C] + Middle(computer, target)
  {
    ComputerKeyParts();
    TargetKeyParts();
    Marks();
    hide Quoted, Ascii;
    var yes: seq<Byte> := [0x3A, 0x74, 0x72, 0x75, 0x65];
    FlatTail(Quoted(Ascii("computer_id")), Quoted(computer), Quoted(Ascii("target_id")), Quoted(target));
    FlatMiddle(Quoted(Ascii("sensitive")) + yes, Quoted(Ascii("native_handoff")) + yes,
               Quoted(Ascii("computer_id")) + [0x3A], Quoted(computer), [0x2C] + (Quoted(Ascii("target_id")) + [0x3A]), Quoted(target));
  }

  lemma FlatTail(a: seq<Byte>, b: seq<Byte>, c: seq<Byte>, d: seq<Byte>)
    ensures (a + [0x3A]) + b + ([0x2C] + (c + [0x3A])) + d + [0x7D] == a + [0x3A] + b + ([0x2C] + (c + [0x3A] + d + [0x7D]))
  {}

  lemma FlatMiddle(a: seq<Byte>, b: seq<Byte>, c: seq<Byte>, d: seq<Byte>, e: seq<Byte>, f: seq<Byte>)
    ensures ([0x2C] + (a + [0x2C]) + (b + [0x2C]) + c) + d + e + f + [0x7D]
         == [0x2C] + (a + ([0x2C] + (b + ([0x2C] + (c + d + e + f + [0x7D])))))
  {}

  lemma TailReads(computer: seq<Byte>, target: seq<Byte>)
    ensures ReadMembers(Tail(computer, target))
         == Some([Member(Ascii("computer_id"), Text(Repair(computer))), Member(Ascii("target_id"), Text(Repair(target)))])
  {
    hide Ascii, Repair, ReadMembers, TextMember, IsPlain;
    NamesArePlain();
    var last := [Member(Ascii("target_id"), Text(Repair(target)))];
    ReadTextLast("target_id", target);
    ReadTextThen("computer_id", computer, TextMember("target_id", target, [0x7D]), last);
    var first := Member(Ascii("computer_id"), Text(Repair(computer)));
    assert [first] + last == [first, last[0]];
  }

  lemma MiddleReads(computer: seq<Byte>, target: seq<Byte>, tail: seq<Member>)
    requires ReadMembers(Tail(computer, target)) == Some(tail)
    ensures ReadMembers(Middle(computer, target)) == Some([Member(Ascii("sensitive"), Yes), Member(Ascii("native_handoff"), Yes)] + tail)
  {
    hide Ascii, Repair, ReadMembers, YesMember, IsPlain, Tail;
    NamesArePlain();
    var handoff := [Member(Ascii("native_handoff"), Yes)];
    ReadYesThen("native_handoff", Tail(computer, target), tail);
    ReadYesThen("sensitive", YesMember("native_handoff", [0x2C] + Tail(computer, target)), handoff + tail);
    assert [Member(Ascii("sensitive"), Yes)] + (handoff + tail) == [Member(Ascii("sensitive"), Yes), Member(Ascii("native_handoff"), Yes)] + tail;
  }

  lemma WholeReads(value: seq<Byte>, computer: seq<Byte>, target: seq<Byte>, middle: seq<Member>)
    requires ReadMembers(Middle(computer, target)) == Some(middle)
    ensures ReadMembers(Whole(value, computer, target))
         == Some([Member(Ascii("action"), Text(Ascii("type"))), Member(Ascii("text"), Text(Repair(value)))] + middle)
  {
    hide Ascii, Repair, ReadMembers, TextMember, IsPlain, Middle, Quoted;
    NamesArePlain();
    QuotedName("type");
    var first, second := Member(Ascii("action"), Text(Ascii("type"))), Member(Ascii("text"), Text(Repair(value)));
    ReadTextThen("text", value, Middle(computer, target), middle);
    ReadTextThen("action", Ascii("type"), TextMember("text", value, [0x2C] + Middle(computer, target)), [second] + middle);
    assert [first] + ([second] + middle) == [first, second] + middle;
  }

  /** The body is one JSON object with these six members in this order, whatever the texts. */
  lemma BodyIsObject(value: seq<Byte>, computer: seq<Byte>, target: seq<Byte>)
    ensures ReadObject(Body(value, computer, target)) == Some(
      [Member(Ascii("action"), Text(Ascii("type"))), Member(Ascii("text"), Text(Repair(value)))]
      + ([Member(Ascii("sensitive"), Yes), Member(Ascii("native_handoff"), Yes)]
         + [Member(Ascii("computer_id"), Text(Repair(computer))), Member(Ascii("target_id"), Text(Repair(target)))]))
  {
    hide Ascii, Repair, ReadMembers, Body, Whole, Middle, Tail;
    BodyIsWhole(value, computer, target);
    TailReads(computer, target);
    MiddleReads(computer, target, ReadMembers(Tail(computer, target)).value);
    WholeReads(value, computer, target, ReadMembers(Middle(computer, target)).value);
    assert ([0x7B] + Whole(value, computer, target))[1..] == Whole(value, computer, target);
  }
}

/** The JSON strings of the control protocol: escaping, reading back, and the response line. */
module Json {
  import Tokens

  function HexDigit(d: nat): char
    requires d < 16
  {
    if d < 10 then '0' + d as char else 'a' + (d - 10) as char
  }

  /** The escape of one character, as section 7 of RFC 8259 allows. */
  function EscapedChar(c: char): string {
    match c
    case '"' => "\\\""
    case '\\' => "\\\\"
    case '\n' => "\\n"
    case '\r' => "\\r"
    case '\t' => "\\t"
    case _ =>
      if c < ' ' then "\\u00" + [HexDigit(c as int / 16), HexDigit(c as int % 16)] else [c]
  }

  function Escaped(s: string): string {
    if s == "" then "" else EscapedChar(s[0]) + Escaped(s[1..])
  }

  function Quoted(s: string): string {
    "\"" + Escaped(s) + "\""
  }

  lemma {:induction false} EscapedAppend(s: string, c: char)
    ensures Escaped(s + [c]) == Escaped(s) + EscapedChar(c)
  {
    hide EscapedChar;
    if s == "" {
      assert s + [c] == [c] && [c][1..] == "";
    } else {
      EscapedAppend(s[1..], c);
      assert (s + [c])[1..] == s[1..] + [c];
    }
  }

  /** One step of the escaping loop. */
  method AppendChar(out0: string, c: char) returns (out: string)
    ensures out == out0 + EscapedChar(c)
  {
    var piece: string;
    match c {
      case '"' => piece := "\\\"";
      case '\\' => piece := "\\\\";
      case '\n' => piece := "\\n";
      case '\r' => piece := "\\r";
      case '\t' => piece := "\\t";
      case _ =>
        if c < ' ' {
          piece := "\\u00" + [HexDigit(c as int / 16), HexDigit(c as int % 16)];
        } else {
          piece := [c];
        }
    }
    out := out0 + piece;
  }

  method AppendString(out0: string, s: string) returns (out: string)
    ensures out == out0 + Quoted(s)
  {
    hide EscapedChar;
    out := out0 + "\"";
    ghost var open := out;
    for i := 0 to |s|
      invariant out == open + Escaped(s[..i])
    {
      EscapedAppend(s[..i], s[i]);
      assert s[..i + 1] == s[..i] + [s[i]];
      ghost var done, piece := Escaped(s[..i]), EscapedChar(s[i]);
      out := AppendChar(out, s[i]);
      assert open + done + piece == open + (done + piece);
    }
    assert s[..|s|] == s;
    out := out + "\"";
  }

  // ---- hexadecimal, as the C library reads it ----

  datatype Number = NoNumber | Number(value: int)

  function HexValue(c: char): int {
    if '0' <= c <= '9' then c as int - '0' as int
    else if 'a' <= c <= 'f' then c as int - 'a' as int + 10
    else if 'A' <= c <= 'F' then c as int - 'A' as int + 10
    else -1
  }

  /** The value of the longest run of hex digits, after `value` has been read. */
  function HexDigits(s: string, value: int): int {
    if s == "" || HexValue(s[0]) < 0 then value else HexDigits(s[1..], value * 16 + HexValue(s[0]))
  }

  function HexUnsigned(s: string): Number {
    var t := if |s| > 2 && s[0] == '0' && (s[1] == 'x' || s[1] == 'X') && HexValue(s[2]) >= 0 then s[2..] else s;
    if t == "" || HexValue(t[0]) < 0 then NoNumber else Number(HexDigits(t, 0))
  }

  /** stoi with base 16: white space, a sign, "0x", digits; no digits is an exception. */
  function StoiHex(s: string): Number {
    if s != "" && Tokens.IsSpace(s[0]) then StoiHex(s[1..])
    else if s != "" && s[0] == '+' then HexUnsigned(s[1..])
    else if s != "" && s[0] == '-' then
      match HexUnsigned(s[1..])
      case NoNumber => NoNumber
      case Number(v) => Number(-v)
    else HexUnsigned(s)
  }

  // ---- reading a string back ----

  datatype Lookup = Missing | Found(value: string) | Throws

  /** What a backslash and this character stand for, unless it is u. */
  function Unescaped(e: char): char {
    match e
    case 'n' => '\n'
    case 'r' => '\r'
    case 't' => '\t'
    case _ => e
  }

  /** The string whose opening quote is just before doc, given what has been read of it. */
  function ReadString(doc: string, out: string): Lookup
    decreases |doc|
  {
    if doc == "" then Missing
    else
      var c, rest := doc[0], doc[1..];
      if c == '"' then Found(out)
      else if c != '\\' || rest == "" then ReadString(rest, out + [c])
      else
        var e, tail := rest[0], rest[1..];
        if e != 'u' then ReadString(tail, out + [Unescaped(e)])
        else if |tail| < 4 then ReadString(tail, out)
        else
          match StoiHex(tail[..4])
          case NoNumber => Throws
          case Number(v) => ReadString(tail[4..], out + [(v % 256) as char])
  }

  predicate OccursAt(doc: string, needle: string, i: nat) {
    i + |needle| <= |doc| && doc[i..i + |needle|] == needle
  }

  /** The first place where needle occurs, or -1. */
  function FirstOccurrence(doc: string, needle: string, from: nat): (i: int)
    requires from <= |doc|
    ensures -1 <= i
    ensures i >= 0 ==> from <= i <= |doc| - |needle| && OccursAt(doc, needle, i)
    ensures forall j: nat | from <= j < (if i < 0 then |doc| + 1 else i) :: !OccursAt(doc, needle, j)
    decreases |doc| - from
  {
    if OccursAt(doc, needle, from) then from
    else if from == |doc| then -1
    else FirstOccurrence(doc, needle, from + 1)
  }

  function Needle(key: string): string {
    Quoted(key) + ":\""
  }

  function Lookups(doc: string, key: string): Lookup {
    var i := FirstOccurrence(doc, Needle(key), 0);
    if i < 0 then Missing else ReadString(doc[i + |Needle(key)|..], "")
  }

  /** What reading does at position pos, for each kind of character there. */
  lemma ReadingAt(doc: string, pos: nat, out: string)
    requires pos < |doc|
    ensures var r, c, last := ReadString(doc[pos..], out), doc[pos], pos + 1 == |doc|;
            (c == '"' ==> r == Found(out))
            && (c != '"' && (c != '\\' || last) ==> r == ReadString(doc[pos + 1..], out + [c]))
            && (c == '\\' && !last && doc[pos + 1] != 'u' ==>
                  r == ReadString(doc[pos + 2..], out + [Unescaped(doc[pos + 1])]))
  {
    var rest := doc[pos..];
    assert rest[1..] == doc[pos + 1..];
    if pos + 1 < |doc| {
      assert rest[1..][1..] == doc[pos + 2..];
    }
  }

  lemma ReadingCode(doc: string, pos: nat, out: string)
    requires pos + 1 < |doc| && doc[pos] == '\\' && doc[pos + 1] == 'u'
    ensures ReadString(doc[pos..], out) ==
            if pos + 6 > |doc| then ReadString(doc[pos + 2..], out)
            else if StoiHex(doc[pos + 2..pos + 6]) == NoNumber then Throws
            else ReadString(doc[pos + 6..], out + [(StoiHex(doc[pos + 2..pos + 6]).value % 256) as char])
  {
    hide StoiHex;
    var tail := doc[pos + 2..];
    assert doc[pos..][1..][1..] == tail;
    if pos + 6 <= |doc| {
      assert tail[..4] == doc[pos + 2..pos + 6] && tail[4..] == doc[pos + 6..];
    }
  }

  /** The value of the first "key":"..." in doc. */
  method FindString(doc: string, key: string) returns (r: Lookup)
    ensures r == Lookups(doc, key)
  {
    hide OccursAt, FirstOccurrence, Needle, StoiHex, ReadString, Unescaped;
    ghost var answer := Lookups(doc, key);
    var needle := Needle(key);
    var first := FirstOccurrence(doc, needle, 0);
    if first < 0 {
      return Missing;
    }
    var pos: nat := first + |needle|;
    var out := "";
    assert answer == ReadString(doc[pos..], out);
    hide Lookups;
    while pos < |doc|
      invariant pos <= |doc|
      invariant answer == ReadString(doc[pos..], out)
      decreases |doc| - pos
    {
      ReadingAt(doc, pos, out);
      var c := doc[pos];
      pos := pos + 1;
      if c == '"' {
        return Found(out);
      }
      if c != '\\' || pos >= |doc| {
        out := out + [c];
        continue;
      }
      var e := doc[pos];
      pos := pos + 1;
      if e != 'u' {
        out := out + [Unescaped(e)];
        continue;
      }
      ReadingCode(doc, pos - 2, out);
      if pos + 4 <= |doc| {
        match StoiHex(doc[pos..pos + 4]) {
          case NoNumber => return Throws;
          case Number(v) =>
            out := out + [(v % 256) as char];
            pos := pos + 4;
        }
      }
    }
    NothingLeft(doc, out);
    r := Missing;
  }

  lemma NothingLeft(doc: string, out: string)
    ensures ReadString(doc[|doc|..], out) == Missing
  {
  }

  // ---- round trip ----

  lemma HexPair(h: char, l: char)
    requires HexValue(h) >= 0 && HexValue(l) >= 0
    ensures HexDigits(['0', '0', h, l], 0) == HexValue(h) * 16 + HexValue(l)
  {
    var v := HexValue(h) * 16 + HexValue(l);
    assert HexDigits([], v) == v;
    assert [l][1..] == [] && HexDigits([l], HexValue(h)) == v;
    assert [h, l][1..] == [l] && HexDigits([h, l], 0) == v;
    assert ['0', h, l][1..] == [h, l] && HexDigits(['0', h, l], 0) == v;
    assert ['0', '0', h, l][1..] == ['0', h, l];
  }

  lemma HexOfControl(c: char)
    requires c < ' '
    ensures StoiHex(['0', '0', HexDigit(c as int / 16), HexDigit(c as int % 16)]) == Number(c as int)
  {
    var h, l := HexDigit(c as int / 16), HexDigit(c as int % 16);
    HexPair(h, l);
    var s := ['0', '0', h, l];
    assert s != "" && !Tokens.IsSpace(s[0]) && s[0] == '0' && s[1] == '0';
    assert HexUnsigned(s) == Number(HexDigits(s, 0));
  }

  lemma ReadsControlEscape(c: char, rest: string, out: string)
    requires c < ' ' && c !in "\n\r\t"
    ensures ReadString(EscapedChar(c) + rest, out) == ReadString(rest, out + [c])
  {
    HexOfControl(c);
    hide StoiHex;
    var hex := ['0', '0', HexDigit(c as int / 16), HexDigit(c as int % 16)];
    var doc := EscapedChar(c) + rest;
    assert doc[1..] == "u" + hex + rest;
    assert doc[1..][1..][..4] == hex && doc[1..][1..][4..] == rest;
  }

  /** Reading the escape of a character gives the character. */
  lemma ReadsEscapedChar(c: char, rest: string, out: string)
    ensures ReadString(EscapedChar(c) + rest, out) == ReadString(rest, out + [c])
  {
    hide StoiHex;
    var doc := EscapedChar(c) + rest;
    if c in "\"\\\n\r\t" {
      assert doc[1..][1..] == rest;
    } else if c < ' ' {
      ReadsControlEscape(c, rest, out);
    } else {
      assert doc[1..] == rest;
    }
  }

  lemma {:induction false} ReadsEscaped(s: string, rest: string, out: string)
    ensures ReadString(Escaped(s) + "\"" + rest, out) == Found(out + s)
    decreases s
  {
    hide EscapedChar;
    if s == "" {
      assert Escaped(s) + "\"" + rest == "\"" + rest;
      assert out + s == out;
    } else {
      var tail := Escaped(s[1..]) + "\"" + rest;
      assert Escaped(s) + "\"" + rest == EscapedChar(s[0]) + tail;
      ReadsEscapedChar(s[0], tail, out);
      ReadsEscaped(s[1..], rest, out + [s[0]]);
      assert out + [s[0]] + s[1..] == out + s;
    }
  }

  lemma {:induction false} EscapedIsPrintable(s: string, i: nat)
    requires i < |Escaped(s)|
    ensures Escaped(s)[i] >= ' '
  {
    var n := |EscapedChar(s[0])|;
    if i >= n {
      EscapedIsPrintable(s[1..], i - n);
    }
  }

  /** The char* of section 7 of RFC 8259: plain characters and escape sequences. */
  predicate IsJsonChars(s: string) {
    s == ""
    || (s[0] >= ' ' && s[0] != '"' && s[0] != '\\' && IsJsonChars(s[1..]))
    || (|s| >= 2 && s[0] == '\\' && s[1] in "\"\\/bfnrt" && IsJsonChars(s[2..]))
    || (|s| >= 6 && s[0] == '\\' && s[1] == 'u' && (forall i | 2 <= i < 6 :: HexValue(s[i]) >= 0) && IsJsonChars(s[6..]))
  }

  lemma EscapedCharIsJson(c: char, rest: string)
    requires IsJsonChars(rest)
    ensures IsJsonChars(EscapedChar(c) + rest)
  {
    var s := EscapedChar(c) + rest;
    if c in "\"\\\n\r\t" {
      assert s[2..] == rest;
    } else if c < ' ' {
      assert s[6..] == rest;
      assert s[2] == '0' && s[3] == '0';
      assert s[4] == HexDigit(c as int / 16) && s[5] == HexDigit(c as int % 16);
    } else {
      assert s[1..] == rest;
    }
  }

  lemma {:induction false} EscapedIsJson(s: string)
    ensures IsJsonChars(Escaped(s))
  {
    if s != "" {
      EscapedIsJson(s[1..]);
      EscapedCharIsJson(s[0], Escaped(s[1..]));
    }
  }

  /** What a two-character escape stands for, by section 7 of RFC 8259. */
  function ShortEscape(c: char): int {
    match c
    case '"' => 0x22
    case '\\' => 0x5C
    case '/' => 0x2F
    case 'b' => 0x08
    case 'f' => 0x0C
    case 'n' => 0x0A
    case 'r' => 0x0D
    case 't' => 0x09
    case _ => -1
  }

  /** The character codes that JSON text stands for, by the same section: an escape \uXXXX is the
      code with those four digits, all of it. */
  function Meaning(s: string): seq<int> {
    if s == "" then []
    else if s[0] != '\\' || |s| == 1 then [s[0] as int] + Meaning(s[1..])
    else if s[1] != 'u' || |s| < 6 then [ShortEscape(s[1])] + Meaning(s[2..])
    else [((HexValue(s[2]) * 16 + HexValue(s[3])) * 16 + HexValue(s[4])) * 16 + HexValue(s[5])] + Meaning(s[6..])
  }

  lemma EscapedCharMeans(c: char, rest: string)
    ensures Meaning(EscapedChar(c) + rest) == [c as int] + Meaning(rest)
  {
    var s := EscapedChar(c) + rest;
    if c in "\"\\\n\r\t" {
      assert s[2..] == rest && s[1] == EscapedChar(c)[1];
    } else if c < ' ' {
      var h, l := HexDigit(c as int / 16), HexDigit(c as int % 16);
      assert s[6..] == rest && s[2] == '0' && s[3] == '0' && s[4] == h && s[5] == l;
      assert HexValue(h) == c as int / 16 && HexValue(l) == c as int % 16;
    } else {
      assert s[1..] == rest;
    }
  }

  function Codes(s: string): (r: seq<int>)
    ensures |r| == |s| && forall i | 0 <= i < |s| :: r[i] == s[i] as int
  {
    if s == "" then [] else [s[0] as int] + Codes(s[1..])
  }

  /** The escaped text stands for exactly the characters of the string, to any reader of JSON. */
  lemma {:induction false} EscapedMeans(s: string)
    ensures Meaning(Escaped(s)) == Codes(s)
  {
    if s != "" {
      hide EscapedChar;
      EscapedCharMeans(s[0], Escaped(s[1..]));
      EscapedMeans(s[1..]);
    }
  }

  // ---- responses ----

  datatype CommandResult = CommandResult(ok: bool, message: string, data: string)

  function Head(ok: bool): string {
    if ok then "{\"ok\":true,\"message\":" else "{\"ok\":false,\"message\":"
  }

  function Back(r: CommandResult): string {
    (if r.data == "" then "" else ",\"data\":" + r.data) + "}"
  }

  function ToJson(r: CommandResult): string {
    Head(r.ok) + Quoted(r.message) + Back(r)
  }

  /** What the client takes for success. */
  predicate LooksOk(response: string) {
    OccursAt(response, "{\"ok\":true", 0)
  }

  lemma OkIsVisible(ok: bool, tail: string)
    ensures LooksOk(Head(ok) + tail) <==> ok
  {
    var doc := Head(ok) + tail;
    if ok {
      assert doc[0..10] == Head(true)[..10];
    } else {
      assert doc[0..10][6] == doc[6] == Head(false)[6] == 'f';
    }
  }

  const MESSAGE := "message"
  const MESSAGE_KEY := "\"message\":"

  function KeyAt(ok: bool): nat {
    if ok then 11 else 12
  }

  lemma KeyInHead(ok: bool, j: nat)
    requires j < KeyAt(ok)
    ensures KeyAt(ok) + |MESSAGE_KEY| == |Head(ok)| && Head(ok)[KeyAt(ok)..] == MESSAGE_KEY
    ensures Head(ok)[j] != '"' || Head(ok)[j + 1] != 'm'
  {
  }

  lemma KeyIsFirst(ok: bool, tail: string)
    ensures var doc := Head(ok) + "\"" + tail;
            FirstOccurrence(doc, Needle(MESSAGE), 0) == KeyAt(ok)
  {
    var doc, at, needle := Head(ok) + "\"" + tail, KeyAt(ok), Needle(MESSAGE);
    NeedleOfMessage();
    KeyInHead(ok, 0);
    assert OccursAt(doc, needle, at) by {
      assert doc[at..at + |needle|] == Head(ok)[at..] + "\"";
    }
    forall j: nat | j < at ensures !OccursAt(doc, needle, j) {
      KeyInHead(ok, j);
      assert doc[j..j + |needle|][0] == Head(ok)[j] && doc[j..j + |needle|][1] == Head(ok)[j + 1];
    }
  }

  lemma NeedleOfMessage()
    ensures Needle(MESSAGE) == MESSAGE_KEY + "\""
    ensures |MESSAGE_KEY| == 10 && MESSAGE_KEY[0] == '"' && MESSAGE_KEY[1] == 'm'
  {
    hide Escaped;
    PlainEscaped(MESSAGE);
    assert Quoted(MESSAGE) + ":" == MESSAGE_KEY;
  }

  lemma {:induction false} PlainEscaped(s: string)
    requires forall i | 0 <= i < |s| :: s[i] >= ' ' && s[i] != '"' && s[i] != '\\'
    ensures Escaped(s) == s
  {
    if s != "" {
      PlainEscaped(s[1..]);
      assert s == [s[0]] + s[1..];
    }
  }

  lemma ReadingStartsAfterKey(ok: bool, tail: string)
    ensures Lookups(Head(ok) + "\"" + tail, MESSAGE) == ReadString(tail, "")
  {
    KeyIsFirst(ok, tail);
    NeedleOfMessage();
    KeyInHead(ok, 0);
    var doc := Head(ok) + "\"" + tail;
    assert doc[KeyAt(ok) + |Needle(MESSAGE)|..] == tail;
  }

  /** Whatever the message is and whatever comes after it, the client reads it back unchanged. */
  lemma MessageIsRead(ok: bool, message: string, rest: string)
    ensures Lookups(Head(ok) + Quoted(message) + rest, MESSAGE) == Found(message)
  {
    var tail := Escaped(message) + "\"" + rest;
    assert Head(ok) + Quoted(message) + rest == Head(ok) + "\"" + tail;
    ReadingStartsAfterKey(ok, tail);
    ReadsEscaped(message, rest, "");
    assert "" + message == message;
  }

  /** The first part of a response, up to the end of its message, has no raw newline. */
  lemma FrontIsOneLine(ok: bool, message: string)
    ensures '\n' !in Head(ok) + Quoted(message)
  {
    forall i: nat | i < |Escaped(message)| ensures Escaped(message)[i] != '\n' {
      EscapedIsPrintable(message, i);
    }
    assert '\n' !in Head(ok) && '\n' !in Quoted(message);
  }

  /** A response has a raw newline only if its data field has one. */
  lemma NewlineOnlyFromData(r: CommandResult)
    ensures '\n' in ToJson(r) <==> '\n' in r.data
  {
    FrontIsOneLine(r.ok, r.message);
    var front := Head(r.ok) + Quoted(r.message);
    assert ToJson(r) == front + Back(r);
  }

  lemma {:induction false} EscapedLength(s: string)
    ensures |s| <= |Escaped(s)| <= 6 * |s|
  {
    if s != "" {
      EscapedLength(s[1..]);
    }
  }
}

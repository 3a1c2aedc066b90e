/**
 The JSON text that encoding/json emits for flat objects of strings, string
 arrays and integers, and a reader for it (section 7 of RFC 8259 for strings).
 Strings are sequences of Unicode scalar values.
 */
module Json {
  import opened Common
  import opened Decimals

  datatype JsonValue = Str(text: string) | Arr(items: seq<string>) | Num(n: int)

  datatype Field = Field(key: string, value: JsonValue)

  // ----- writing -----

  function HexDigit(n: nat): char
    requires n < 16
  {
    if n < 10 then ('0' as int + n) as char else ('a' as int + n - 10) as char
  }

  function UnicodeEscape(c: char): string
    requires c as int < 0x10000
  {
    var n := c as int;
    ['\\', 'u', HexDigit(n / 4096), HexDigit(n / 256 % 16), HexDigit(n / 16 % 16), HexDigit(n % 16)]
  }

  /** One character of a string, with the HTML-safe escapes of json.Marshal. */
  function EscapeChar(c: char): string {
    if c == '\"' then ['\\', '\"']
    else if c == '\\' then ['\\', '\\']
    else if c == '\U{8}' then ['\\', 'b']
    else if c == '\U{C}' then ['\\', 'f']
    else if c == '\n' then ['\\', 'n']
    else if c == '\r' then ['\\', 'r']
    else if c == '\t' then ['\\', 't']
    else if c < ' ' || c == '<' || c == '>' || c == '&' || c == '\U{2028}' || c == '\U{2029}' then UnicodeEscape(c)
    else [c]
  }

  /** A string after its opening quote. */
  function StringTail(s: string): string {
    if s == "" then "\"" else EscapeChar(s[0]) + StringTail(s[1..])
  }

  function EncodeString(s: string): string {
    "\"" + StringTail(s)
  }

  function ItemsTail(items: seq<string>): string {
    if items == [] then "]" else "," + EncodeString(items[0]) + ItemsTail(items[1..])
  }

  function EncodeItems(items: seq<string>): string {
    if items == [] then "[]" else "[" + EncodeString(items[0]) + ItemsTail(items[1..])
  }

  function EncodeInt(n: int): string {
    if n < 0 then "-" + Decimal(-n) else Decimal(n)
  }

  function EncodeValue(v: JsonValue): string {
    match v
    case Str(text) => EncodeString(text)
    case Arr(items) => EncodeItems(items)
    case Num(n) => EncodeInt(n)
  }

  function EncodeField(f: Field): string {
    EncodeString(f.key) + ":" + EncodeValue(f.value)
  }

  function FieldsTail(fs: seq<Field>): string {
    if fs == [] then "}" else "," + EncodeField(fs[0]) + FieldsTail(fs[1..])
  }

  function EncodeObject(fs: seq<Field>): string {
    if fs == [] then "{}" else "{" + EncodeField(fs[0]) + FieldsTail(fs[1..])
  }

  // ----- reading -----

  /** What was read, and the text after it. */
  datatype Read<T> = Got(value: T, rest: string) | Bad

  function HexValue(c: char): Option<nat> {
    if '0' <= c <= '9' then Some(c as int - '0' as int)
    else if 'a' <= c <= 'f' then Some(c as int - 'a' as int + 10)
    else if 'A' <= c <= 'F' then Some(c as int - 'A' as int + 10)
    else None
  }

  /** Four hex digits that name a scalar value of the basic plane. */
  function ReadHex(s: string): Option<char> {
    if |s| < 4 then None
    else
      var a, b, c, d := HexValue(s[0]), HexValue(s[1]), HexValue(s[2]), HexValue(s[3]);
      if a.None? || b.None? || c.None? || d.None? then None
      else
        var n := 4096 * a.value + 256 * b.value + 16 * c.value + d.value;
        if n < 0xD800 || 0xE000 <= n < 0x10000 then Some(n as char) else None
  }

  function SimpleEscape(c: char): Option<char> {
    if c == '\"' || c == '\\' || c == '/' then Some(c)
    else if c == 'b' then Some('\U{8}')
    else if c == 'f' then Some('\U{C}')
    else if c == 'n' then Some('\n')
    else if c == 'r' then Some('\r')
    else if c == 't' then Some('\t')
    else None
  }

  /** The first character of a string's content and how much text it takes. */
  function ReadChar(s: string): (r: Read<char>)
    ensures r.Got? ==> |r.rest| < |s|
  {
    if s == "" || s[0] < ' ' || s[0] == '\"' then Bad
    else if s[0] != '\\' then Got(s[0], s[1..])
    else if |s| == 1 then Bad
    else if s[1] == 'u' then
      if ReadHex(s[2..]).Some? then Got(ReadHex(s[2..]).value, s[6..]) else Bad
    else if SimpleEscape(s[1]).Some? then Got(SimpleEscape(s[1]).value, s[2..])
    else Bad
  }

  function ReadStringTail(s: string): (r: Read<string>)
    ensures r.Got? ==> |r.rest| < |s|
    decreases |s|
  {
    if s != "" && s[0] == '\"' then Got("", s[1..])
    else
      match ReadChar(s)
      case Bad => Bad
      case Got(c, rest) =>
        match ReadStringTail(rest)
        case Bad => Bad
        case Got(text, rest') => Got([c] + text, rest')
  }

  function ReadString(s: string): (r: Read<string>)
    ensures r.Got? ==> |r.rest| < |s|
  {
    if s != "" && s[0] == '\"' then ReadStringTail(s[1..]) else Bad
  }

  function ReadItemsTail(s: string): (r: Read<seq<string>>)
    decreases |s|
  {
    if s != "" && s[0] == ']' then Got([], s[1..])
    else if s != "" && s[0] == ',' then
      match ReadString(s[1..])
      case Bad => Bad
      case Got(item, rest) =>
        match ReadItemsTail(rest)
        case Bad => Bad
        case Got(items, rest') => Got([item] + items, rest')
    else Bad
  }

  /** An array after its opening bracket. */
  function ReadItems(s: string): Read<seq<string>> {
    if s != "" && s[0] == ']' then Got([], s[1..])
    else
      match ReadString(s)
      case Bad => Bad
      case Got(item, rest) =>
        match ReadItemsTail(rest)
        case Bad => Bad
        case Got(items, rest') => Got([item] + items, rest')
  }

  /** The length of the run of digits a text starts with. */
  function DigitRun(s: string): (n: nat)
    ensures n <= |s| && forall i | 0 <= i < n :: IsDigit(s[i])
  {
    if s == "" || !IsDigit(s[0]) then 0 else 1 + DigitRun(s[1..])
  }

  function ReadNat(s: string): Read<int> {
    var n := DigitRun(s);
    if n == 0 then Bad else Got(Value(s[..n]), s[n..])
  }

  function ReadInt(s: string): Read<int> {
    if s != "" && s[0] == '-' then
      match ReadNat(s[1..])
      case Bad => Bad
      case Got(n, rest) => Got(-n, rest)
    else ReadNat(s)
  }

  function ReadValue(s: string): Read<JsonValue> {
    if s == "" then Bad
    else if s[0] == '\"' then
      match ReadString(s)
      case Bad => Bad
      case Got(text, rest) => Got(Str(text), rest)
    else if s[0] == '[' then
      match ReadItems(s[1..])
      case Bad => Bad
      case Got(items, rest) => Got(Arr(items), rest)
    else
      match ReadInt(s)
      case Bad => Bad
      case Got(n, rest) => Got(Num(n), rest)
  }

  function ReadField(s: string): Read<Field> {
    match ReadString(s)
    case Bad => Bad
    case Got(key, rest) =>
      if rest == "" || rest[0] != ':' then Bad
      else
        match ReadValue(rest[1..])
        case Bad => Bad
        case Got(value, rest') => Got(Field(key, value), rest')
  }

  function ReadFieldsTail(s: string): Read<seq<Field>>
    decreases |s|
  {
    if s != "" && s[0] == '}' then Got([], s[1..])
    else if s != "" && s[0] == ',' then
      match ReadField(s[1..])
      case Bad => Bad
      case Got(f, rest) =>
        if |rest| >= |s| then Bad
        else
          match ReadFieldsTail(rest)
          case Bad => Bad
          case Got(fs, rest') => Got([f] + fs, rest')
    else Bad
  }

  function ReadObject(s: string): Read<seq<Field>> {
    if s == "" || s[0] != '{' then Bad
    else if |s| > 1 && s[1] == '}' then Got([], s[2..])
    else
      match ReadField(s[1..])
      case Bad => Bad
      case Got(f, rest) =>
        match ReadFieldsTail(rest)
        case Bad => Bad
        case Got(fs, rest') => Got([f] + fs, rest')
  }

  // ----- reading back what was written -----

  lemma HexDigits(n: nat)
    requires n < 0x10000
    ensures n / 4096 < 16 && n == 4096 * (n / 4096) + 256 * (n / 256 % 16) + 16 * (n / 16 % 16) + n % 16
  {
    assert n == 16 * (n / 16) + n % 16;
    assert n / 16 == 16 * (n / 16 / 16) + n / 16 % 16;
    assert n / 16 / 16 == n / 256;
    assert n / 256 == 16 * (n / 256 / 16) + n / 256 % 16;
    assert n / 256 / 16 == n / 4096;
  }

  lemma HexDigitReads(n: nat)
    requires n < 16
    ensures HexValue(HexDigit(n)) == Some(n)
  { }

  lemma HexReadsBack(c: char, s: string)
    requires c as int < 0x10000 && |s| >= 6 && s[..6] == UnicodeEscape(c)
    ensures ReadHex(s[2..]) == Some(c)
  {
    var n := c as int;
    HexDigits(n);
    HexDigitReads(n / 4096);
    HexDigitReads(n / 256 % 16);
    HexDigitReads(n / 16 % 16);
    HexDigitReads(n % 16);
    var e := UnicodeEscape(c);
    assert s[2..][0] == s[..6][2] == e[2];
    assert s[2..][1] == s[..6][3] == e[3];
    assert s[2..][2] == s[..6][4] == e[4];
    assert s[2..][3] == s[..6][5] == e[5];
  }

  lemma CharReadsBack(c: char, rest: string)
    ensures ReadChar(EscapeChar(c) + rest) == Got(c, rest)
  {
    var s := EscapeChar(c) + rest;
    if |EscapeChar(c)| == 6 {
      HexReadsBack(c, s);
      assert s[6..] == rest;
    } else if |EscapeChar(c)| == 2 {
      assert s[2..] == rest;
    } else {
      assert s[1..] == rest;
    }
  }

  lemma StringTailStep(s: string, c: char, tail: string, text: string, rest: string)
    requires ReadChar(s) == Got(c, tail) && ReadStringTail(tail) == Got(text, rest)
    ensures ReadStringTail(s) == Got([c] + text, rest)
  { }

  lemma {:induction false} StringTailReadsBack(s: string, rest: string)
    ensures ReadStringTail(StringTail(s) + rest) == Got(s, rest)
  {
    if s == "" {
      assert (StringTail(s) + rest)[1..] == rest;
    } else {
      var tail := StringTail(s[1..]) + rest;
      StringTailReadsBack(s[1..], rest);
      CharReadsBack(s[0], tail);
      StringTailStep(EscapeChar(s[0]) + tail, s[0], tail, s[1..], rest);
      assert StringTail(s) + rest == EscapeChar(s[0]) + tail;
      assert [s[0]] + s[1..] == s;
    }
  }

  lemma StringReadsBack(s: string, rest: string)
    ensures ReadString(EncodeString(s) + rest) == Got(s, rest)
  {
    StringTailReadsBack(s, rest);
    assert (EncodeString(s) + rest)[1..] == StringTail(s) + rest;
  }

  lemma Regroup(a: string, b: string, c: string, d: string)
    ensures a + b + c + d == a + (b + (c + d))
  { }

  /** Reading one more array item. */
  lemma ItemReads(s: string, item: string, tail: string, items: seq<string>, rest: string)
    requires s != "" && s[0] == ',' && ReadString(s[1..]) == Got(item, tail) && ReadItemsTail(tail) == Got(items, rest)
    ensures ReadItemsTail(s) == Got([item] + items, rest)
  { }

  lemma {:induction false} ItemsTailReadsBack(items: seq<string>, rest: string)
    ensures ReadItemsTail(ItemsTail(items) + rest) == Got(items, rest)
  {
    if items == [] {
      assert (ItemsTail(items) + rest)[1..] == rest;
    } else {
      var head, tail := EncodeString(items[0]), ItemsTail(items[1..]) + rest;
      ItemsTailReadsBack(items[1..], rest);
      StringReadsBack(items[0], tail);
      var s := "," + (head + tail);
      assert s[1..] == head + tail;
      ItemReads(s, items[0], tail, items[1..], rest);
      Regroup(",", head, ItemsTail(items[1..]), rest);
      assert [items[0]] + items[1..] == items;
    }
  }

  lemma FirstItemReads(head: string, item: string, tail: string, items: seq<string>, rest: string)
    requires head != "" && head[0] == '\"'
    requires ReadString(head + tail) == Got(item, tail) && ReadItemsTail(tail) == Got(items, rest)
    ensures ReadItems(head + tail) == Got([item] + items, rest)
  { }

  lemma ItemsReadBack(items: seq<string>, rest: string)
    ensures EncodeItems(items)[0] == '[' && ReadItems((EncodeItems(items) + rest)[1..]) == Got(items, rest)
  {
    if items == [] {
      assert (EncodeItems(items) + rest)[1..] == "]" + rest;
      assert ("]" + rest)[1..] == rest;
    } else {
      var head, tail := EncodeString(items[0]), ItemsTail(items[1..]) + rest;
      ItemsTailReadsBack(items[1..], rest);
      StringReadsBack(items[0], tail);
      FirstItemReads(head, items[0], tail, items[1..], rest);
      Regroup("[", head, ItemsTail(items[1..]), rest);
      assert EncodeItems(items) + rest == "[" + (head + tail);
      assert ("[" + (head + tail))[1..] == head + tail;
      assert [items[0]] + items[1..] == items;
    }
  }

  lemma {:induction false} DigitRunStops(s: string, rest: string)
    requires AllDigits(s)
    requires rest == "" || !IsDigit(rest[0])
    ensures DigitRun(s + rest) == |s|
  {
    if s == "" {
      assert s + rest == rest;
    } else {
      DigitRunStops(s[1..], rest);
      assert (s + rest)[1..] == s[1..] + rest;
    }
  }

  lemma NatReadsBack(n: nat, rest: string)
    requires rest == "" || !IsDigit(rest[0])
    ensures ReadNat(Decimal(n) + rest) == Got(n, rest)
  {
    DecimalReadsBack(n);
    DigitRunStops(Decimal(n), rest);
    assert (Decimal(n) + rest)[..|Decimal(n)|] == Decimal(n);
    assert (Decimal(n) + rest)[|Decimal(n)|..] == rest;
  }

  lemma SignedReads(digits: string, n: int, rest: string)
    requires digits != "" && IsDigit(digits[0]) && ReadNat(digits + rest) == Got(n, rest)
    ensures ReadInt(digits + rest) == Got(n, rest) && ReadInt("-" + digits + rest) == Got(-n, rest)
  {
    assert ("-" + digits + rest)[1..] == digits + rest;
    assert (digits + rest)[0] == digits[0];
  }

  lemma IntReadsBack(n: int, rest: string)
    requires rest == "" || !IsDigit(rest[0])
    ensures EncodeInt(n) != "" && (EncodeInt(n)[0] == '-' || IsDigit(EncodeInt(n)[0]))
    ensures ReadInt(EncodeInt(n) + rest) == Got(n, rest)
  {
    var m: nat := if n < 0 then -n else n;
    DecimalReadsBack(m);
    NatReadsBack(m, rest);
    SignedReads(Decimal(m), m, rest);
  }

  lemma StringStarts(s: string)
    ensures EncodeString(s) != "" && EncodeString(s)[0] == '\"'
  { }

  lemma ValueReadsBack(v: JsonValue, rest: string)
    requires rest == "" || !IsDigit(rest[0])
    ensures ReadValue(EncodeValue(v) + rest) == Got(v, rest)
  {
    match v {
      case Str(text) =>
        StringReadsBack(text, rest);
        StringStarts(text);
      case Arr(items) => ItemsReadBack(items, rest);
      case Num(n) => IntReadsBack(n, rest);
    }
  }

  /** Reading a field whose key and value have been encoded as `head` and `body`. */
  lemma FieldReads(head: string, body: string, f: Field, rest: string)
    requires ReadString(head + (":" + (body + rest))) == Got(f.key, ":" + (body + rest))
    requires ReadValue(body + rest) == Got(f.value, rest)
    ensures ReadField(head + (":" + (body + rest))) == Got(f, rest)
  {
    assert (":" + (body + rest))[1..] == body + rest;
  }

  lemma FieldReadsBack(f: Field, rest: string)
    requires rest == "" || !IsDigit(rest[0])
    ensures ReadField(EncodeField(f) + rest) == Got(f, rest)
  {
    var head, body := EncodeString(f.key), EncodeValue(f.value);
    StringReadsBack(f.key, ":" + (body + rest));
    ValueReadsBack(f.value, rest);
    FieldReads(head, body, f, rest);
    Regroup(head, ":", body, rest);
  }

  lemma NextFieldReads(s: string, f: Field, tail: string, fs: seq<Field>, rest: string)
    requires s != "" && s[0] == ',' && |tail| < |s|
    requires ReadField(s[1..]) == Got(f, tail) && ReadFieldsTail(tail) == Got(fs, rest)
    ensures ReadFieldsTail(s) == Got([f] + fs, rest)
  { }

  lemma {:induction false} FieldsTailReadsBack(fs: seq<Field>, rest: string)
    ensures FieldsTail(fs) != "" && !IsDigit(FieldsTail(fs)[0])
    ensures ReadFieldsTail(FieldsTail(fs) + rest) == Got(fs, rest)
  {
    if fs == [] {
      assert (FieldsTail(fs) + rest)[1..] == rest;
    } else {
      var head, tail := EncodeField(fs[0]), FieldsTail(fs[1..]) + rest;
      FieldsTailReadsBack(fs[1..], rest);
      FieldReadsBack(fs[0], tail);
      var s := "," + (head + tail);
      assert s[1..] == head + tail;
      NextFieldReads(s, fs[0], tail, fs[1..], rest);
      Regroup(",", head, FieldsTail(fs[1..]), rest);
      assert [fs[0]] + fs[1..] == fs;
    }
  }

  lemma FieldStarts(f: Field)
    ensures EncodeField(f) != "" && EncodeField(f)[0] == '\"'
  {
    StringStarts(f.key);
  }

  lemma FirstFieldReads(head: string, f: Field, tail: string, fs: seq<Field>, rest: string)
    requires head != "" && head[0] == '\"'
    requires ReadField(head + tail) == Got(f, tail) && ReadFieldsTail(tail) == Got(fs, rest)
    ensures ReadObject("{" + (head + tail)) == Got([f] + fs, rest)
  {
    assert ("{" + (head + tail))[1..] == head + tail;
  }

  /** Every object that is written reads back as its own fields. */
  lemma ObjectReadsBack(fs: seq<Field>, rest: string)
    ensures ReadObject(EncodeObject(fs) + rest) == Got(fs, rest)
  {
    if fs == [] {
      assert (EncodeObject(fs) + rest)[2..] == rest;
    } else {
      var head, tail := EncodeField(fs[0]), FieldsTail(fs[1..]) + rest;
      FieldsTailReadsBack(fs[1..], rest);
      FieldReadsBack(fs[0], tail);
      FieldStarts(fs[0]);
      FirstFieldReads(head, fs[0], tail, fs[1..], rest);
      Regroup("{", head, FieldsTail(fs[1..]), rest);
      assert [fs[0]] + fs[1..] == fs;
    }
  }

  /** Different field lists never share a text. */
  lemma ObjectTextInjective(fs: seq<Field>, gs: seq<Field>)
    requires EncodeObject(fs) == EncodeObject(gs)
    ensures fs == gs
  {
    ObjectReadsBack(fs, "");
    ObjectReadsBack(gs, "");
  }

  // ----- what the text is made of -----

  /** A character that can stand in a line of text and in HTML as it is. */
  predicate SafeChar(c: char) {
    ' ' <= c && c != '<' && c != '>' && c != '&' && c != '\U{2028}' && c != '\U{2029}'
  }

  predicate Safe(s: string) {
    forall i | 0 <= i < |s| :: SafeChar(s[i])
  }

  lemma SafeConcat(a: string, b: string)
    requires Safe(a) && Safe(b)
    ensures Safe(a + b)
  { }

  lemma HexSafe(n: nat)
    requires n < 16
    ensures SafeChar(HexDigit(n))
  { }

  lemma EscapeSafe(c: char)
    ensures Safe(EscapeChar(c))
  {
    var n := c as int;
    if n < 0x10000 {
      HexDigits(n);
      HexSafe(n / 4096);
      HexSafe(n / 256 % 16);
      HexSafe(n / 16 % 16);
      HexSafe(n % 16);
    }
  }

  lemma {:induction false} StringTailSafe(s: string)
    ensures Safe(StringTail(s))
  {
    if s != "" {
      EscapeSafe(s[0]);
      StringTailSafe(s[1..]);
      SafeConcat(EscapeChar(s[0]), StringTail(s[1..]));
    }
  }

  lemma StringSafe(s: string)
    ensures Safe(EncodeString(s))
  {
    StringTailSafe(s);
  }

  lemma {:induction false} ItemsTailSafe(items: seq<string>)
    ensures Safe(ItemsTail(items))
  {
    if items != [] {
      StringSafe(items[0]);
      ItemsTailSafe(items[1..]);
      SafeConcat("," + EncodeString(items[0]), ItemsTail(items[1..]));
    }
  }

  lemma ValueSafe(v: JsonValue)
    ensures Safe(EncodeValue(v))
  {
    match v {
      case Str(text) => StringSafe(text);
      case Arr(items) => ItemsSafe(items);
      case Num(n) => IntSafe(n);
    }
  }

  lemma ItemsSafe(items: seq<string>)
    ensures Safe(EncodeItems(items))
  {
    if items != [] {
      StringSafe(items[0]);
      ItemsTailSafe(items[1..]);
      SafeConcat("[" + EncodeString(items[0]), ItemsTail(items[1..]));
    }
  }

  lemma DigitsSafe(s: string)
    requires AllDigits(s)
    ensures Safe(s)
  { }

  lemma IntSafe(n: int)
    ensures Safe(EncodeInt(n))
  {
    var digits := Decimal(if n < 0 then -n else n);
    DecimalReadsBack(if n < 0 then -n else n);
    DigitsSafe(digits);
    SafeConcat("-", digits);
  }

  lemma FieldSafe(f: Field)
    ensures Safe(EncodeField(f))
  {
    StringSafe(f.key);
    ValueSafe(f.value);
    SafeConcat(EncodeString(f.key) + ":", EncodeValue(f.value));
  }

  lemma {:induction false} FieldsTailSafe(fs: seq<Field>)
    ensures Safe(FieldsTail(fs))
  {
    if fs != [] {
      FieldSafe(fs[0]);
      FieldsTailSafe(fs[1..]);
      SafeConcat("," + EncodeField(fs[0]), FieldsTail(fs[1..]));
    }
  }

  /** The text of an object is one line without the characters that json.Marshal escapes for HTML. */
  lemma ObjectTextSafe(fs: seq<Field>)
    ensures Safe(EncodeObject(fs))
  {
    if fs != [] {
      FieldSafe(fs[0]);
      FieldsTailSafe(fs[1..]);
      SafeConcat("{" + EncodeField(fs[0]), FieldsTail(fs[1..]));
    }
  }
}

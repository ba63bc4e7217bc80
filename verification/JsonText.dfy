/** Values, the text the JSON builder of debug/debug-adapter.c writes for them, and what its parser makes of a text. */
module JsonText {
  // ---------------------------------------------------------------- values

  /** A number the parser hands to strtod is kept as its text. Fields are in list order: the parser's newest first. */
  datatype Value =
    | Null
    | Bool(b: bool)
    | Int(n: int)
    | Double(token: string)
    | Str(s: string)
    | Arr(items: seq<Value>)
    | Obj(fields: seq<Field>)

  datatype Field = Field(name: string, value: Value)

  // ---------------------------------------------------------------- writing

  const INDENT_STEP := 2
  const BACKSPACE := '\U{0008}'
  const FORM_FEED := '\U{000C}'
  const INT64_MAX := 0x7FFF_FFFF_FFFF_FFFF
  const INT64_MIN := -0x8000_0000_0000_0000

  function Digit(d: nat): (c: char)
    requires d < 10
    ensures '0' <= c <= '9' && c as int - '0' as int == d
  {
    '0' + d as char
  }

  /** "%" PRIu64. */
  function Decimal(n: nat): (s: string)
    ensures |s| > 0 && forall i :: 0 <= i < |s| ==> '0' <= s[i] <= '9'
  {
    if n < 10 then [Digit(n)] else Decimal(n / 10) + [Digit(n % 10)]
  }

  function HexNybble(n: nat): char { "0123456789ABCDEF"[n % 16] }

  function EscapeChar(c: char): string {
    if c >= ' ' && c != '\"' && c != '\\' then [c]
    else if c == '\"' then "\\\""
    else if c == '\\' then "\\\\"
    else if c == BACKSPACE then "\\b"
    else if c == FORM_FEED then "\\f"
    else if c == '\t' then "\\t"
    else if c == '\n' then "\\n"
    else if c == '\r' then "\\r"
    else "\\u" + [HexNybble(c as int / 4096), HexNybble(c as int / 256), HexNybble(c as int / 16), HexNybble(c as int)]
  }

  function Escape(s: string): string {
    if |s| == 0 then [] else EscapeChar(s[0]) + Escape(s[1..])
  }

  function Quoted(s: string): string { "\"" + Escape(s) + "\"" }

  function Newline(indent: nat): (s: string)
    ensures |s| == indent + 1
  {
    "\n" + seq(indent, _ => ' ')
  }

  function Comma(first: bool): string { if first then "" else "," }

  function Text(v: Value, indent: nat): string
    decreases v, 1
  {
    match v
    case Null => "null"
    case Bool(b) => if b then "true" else "false"
    case Int(n) => if n < 0 then "" else Decimal(n)
    case Double(token) => token
    case Str(s) => Quoted(s)
    case Arr(items) => "[" + (ItemsText(items, indent + INDENT_STEP, true) + (Newline(indent) + "]"))
    case Obj(fields) => "{" + (FieldsText(fields, indent + INDENT_STEP, true) + (Newline(indent) + "}"))
  }

  function ItemsText(items: seq<Value>, indent: nat, first: bool): string
    decreases items, 0
  {
    if |items| == 0 then ""
    else Comma(first) + (Newline(indent) + (Text(items[0], indent) + ItemsText(items[1..], indent, false)))
  }

  function FieldStart(name: string): string { "\"" + (name + "\": ") }

  function FieldsText(fields: seq<Field>, indent: nat, first: bool): string
    decreases fields, 0
  {
    if |fields| == 0 then ""
    else
      Comma(first) + (Newline(indent) + (FieldStart(fields[0].name) +
      (Text(fields[0].value, indent) + FieldsText(fields[1..], indent, false))))
  }

  // ---------------------------------------------------------------- reading

  /** What a parsing function makes of the unread text: a failure, or a result and the text still unread. */
  datatype Parse<T> = Fail | Ok(value: T, rest: string)

  predicate IsSpace(c: char) { c == ' ' || '\t' <= c <= '\r' }
  predicate IsDigit(c: char) { '0' <= c <= '9' }
  predicate IsNumeric(c: char) { IsDigit(c) || c == '-' || c == '+' || c == '.' || c == 'e' || c == 'E' }

  /** The character at the parser's pointer; the text is followed by a zero. */
  function Peek(text: string): char { if |text| == 0 then '\0' else text[0] }

  function SkipSpaces(text: string): (rest: string)
    ensures |rest| <= |text|
  {
    if |text| > 0 && IsSpace(text[0]) then SkipSpaces(text[1..]) else text
  }

  function Expect(text: string, word: string, v: Value): Parse<Value> {
    if word <= text then Ok(v, text[|word|..]) else Fail
  }

  /** The character an escape letter stands for; zero for those not supported. */
  function Unescape(c: char): (r: char)
    ensures c == '\0' ==> r == '\0'
  {
    match c
    case '\"' => '\"'
    case '\\' => '\\'
    case '/' => '/'
    case 'b' => BACKSPACE
    case 'f' => FORM_FEED
    case 'n' => '\n'
    case 'r' => '\r'
    case 't' => '\t'
    case _ => '\0'
  }

  function ParseString(text: string, done: string): (r: Parse<string>)
    ensures r.Ok? ==> |r.rest| < |text|
    decreases |text|
  {
    if Peek(text) < ' ' then Fail
    else if text[0] == '\"' then Ok(done, text[1..])
    else if text[0] != '\\' then ParseString(text[1..], done + [text[0]])
    else
      var c := Unescape(Peek(text[1..]));
      if c == '\0' then Fail else ParseString(text[2..], done + [c])
  }

  function ParseName(text: string, done: string): (r: Parse<string>)
    ensures r.Ok? ==> |r.rest| < |text|
    decreases |text|
  {
    if Peek(text) == '\0' then Fail
    else if text[0] == '\"' then Ok(done, text[1..])
    else ParseName(text[1..], done + [text[0]])
  }

  function NumericPrefix(text: string): (n: nat)
    ensures n <= |text| && (forall i :: 0 <= i < n ==> IsNumeric(text[i])) && (n < |text| ==> !IsNumeric(text[n]))
  {
    if |text| == 0 || !IsNumeric(text[0]) then 0 else 1 + NumericPrefix(text[1..])
  }

  function DigitsValue(s: string): int
  {
    if |s| == 0 then 0 else 10 * DigitsValue(s[..|s| - 1]) + (s[|s| - 1] as int - '0' as int)
  }

  predicate AllDigits(s: string) { |s| > 0 && forall i :: 0 <= i < |s| ==> IsDigit(s[i]) }

  function Unsigned(s: string): string { if |s| > 0 && (s[0] == '-' || s[0] == '+') then s[1..] else s }

  /** strtoll in base 10 consumes the whole token exactly when it is digits after an optional sign. */
  function IntegerOf(token: string): int {
    if |token| > 0 && token[0] == '-' then -DigitsValue(token[1..]) else DigitsValue(Unsigned(token))
  }

  /** strtod consumes the whole token exactly when it has the shape of a decimal number. */
  predicate IsDecimalShape(token: string) {
    exists e :: 0 <= e <= |token| && IsMantissa(Unsigned(token[..e])) && (e == |token| || IsExponent(token[e..]))
  }

  predicate IsMantissa(s: string) {
    AllDigits(s) || exists d :: 0 <= d < |s| && s[d] == '.' && |s| > 1 && AllDigits(s[..d] + s[d + 1..])
  }

  predicate IsExponent(s: string) { |s| > 0 && (s[0] == 'e' || s[0] == 'E') && AllDigits(Unsigned(s[1..])) }

  function ParseNumber(text: string): (r: Parse<Value>)
    requires |text| > 0 && IsNumeric(text[0])
    ensures r.Ok? ==> |r.rest| < |text|
  {
    var n := NumericPrefix(text);
    var token := text[..n];
    if AllDigits(Unsigned(token)) && INT64_MIN < IntegerOf(token) < INT64_MAX then Ok(Int(IntegerOf(token)), text[n..])
    else if IsDecimalShape(token) then Ok(Double(token), text[n..])
    else Fail
  }

  function IndexOf(fields: seq<Field>, name: string): (i: nat)
    ensures i <= |fields| && (i < |fields| ==> fields[i].name == name)
    ensures forall j :: 0 <= j < i ==> fields[j].name != name
  {
    if |fields| == 0 || fields[0].name == name then 0 else 1 + IndexOf(fields[1..], name)
  }

  /** JSField_create: an existing field keeps its place, a new one goes to the front. */
  function Put(fields: seq<Field>, name: string, value: Value): (r: seq<Field>)
    ensures |r| > 0
  {
    var i := IndexOf(fields, name);
    if i < |fields| then fields[i := Field(name, value)] else [Field(name, value)] + fields
  }

  function ParseValue(text: string): (r: Parse<Value>)
    ensures r.Ok? ==> |r.rest| < |text|
    decreases |text|, 0
  {
    var t := SkipSpaces(text);
    if |t| == 0 then Fail
    else
      match t[0]
      case 'n' => Expect(t[1..], "ull", Null)
      case 't' => Expect(t[1..], "rue", Bool(true))
      case 'f' => Expect(t[1..], "alse", Bool(false))
      case '\"' =>
        (match ParseString(t[1..], "")
         case Fail => Fail
         case Ok(s, rest) => Ok(Str(s), rest))
      case '{' => ParseFields(t[1..], [])
      case '[' => ParseItems(t[1..], [])
      case c => if IsNumeric(c) then ParseNumber(t) else Fail
  }

  function ParseItems(text: string, items: seq<Value>): (r: Parse<Value>)
    ensures r.Ok? ==> |r.rest| < |text|
    decreases |text|, 1
  {
    var t := SkipSpaces(text);
    if Peek(t) == ']' then Ok(Arr(items), t[1..])
    else if |items| > 0 && Peek(t) != ',' then Fail
    else
      match ParseValue(if |items| > 0 then t[1..] else t)
      case Fail => Fail
      case Ok(v, rest) => ParseItems(rest, items + [v])
  }

  function ParseFields(text: string, fields: seq<Field>): (r: Parse<Value>)
    ensures r.Ok? ==> |r.rest| < |text|
    decreases |text|, 1
  {
    var t := SkipSpaces(text);
    if Peek(t) == '}' then Ok(Obj(fields), t[1..])
    else if |fields| > 0 && Peek(t) != ',' then Fail
    else
      match ParseField(if |fields| > 0 then t[1..] else t)
      case Fail => Fail
      case Ok(Field(name, value), rest) => ParseFields(rest, Put(fields, name, value))
  }

  function ParseField(text: string): (r: Parse<Field>)
    ensures r.Ok? ==> |r.rest| < |text|
    decreases |text|, 0
  {
    var t := SkipSpaces(text);
    if Peek(t) != '\"' then Fail
    else
      match ParseName(t[1..], "")
      case Fail => Fail
      case Ok(name, afterName) =>
        var u := SkipSpaces(afterName);
        if Peek(u) != ':' then Fail
        else
          match ParseValue(u[1..])
          case Fail => Fail
          case Ok(value, rest) => Ok(Field(name, value), rest)
  }
}

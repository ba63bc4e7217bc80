/** Parsing what the builder wrote gives the tree back. */
module JsonRoundTrip {
  import opened Options
  import opened JsonText
  import Layout = JsonLayout

  // ---------------------------------------------------------------- which trees, and what comes back

  /** The parser knows five control characters; the others are written as escapes that it rejects. */
  predicate CleanChar(c: char) { c >= ' ' || c in {BACKSPACE, FORM_FEED, '\t', '\n', '\r'} }
  predicate CleanString(s: string) { forall c :: c in s ==> CleanChar(c) }

  /** Names are written raw, so they must hold neither a quote nor the terminator. */
  predicate PlainName(name: string) { '\"' !in name && '\0' !in name }

  predicate Writable(v: Value)
    decreases v, 1
  {
    match v
    case Null => true
    case Bool(_) => true
    case Int(n) => 0 <= n
    case Double(_) => false
    case Str(s) => CleanString(s)
    case Arr(items) => WritableItems(items)
    case Obj(fields) => WritableFields(fields)
  }

  predicate WritableItems(items: seq<Value>)
    decreases items, 0
  {
    |items| > 0 ==> Writable(items[0]) && WritableItems(items[1..])
  }

  predicate WritableFields(fields: seq<Field>)
    decreases fields, 0
  {
    |fields| > 0 ==> PlainName(fields[0].name) && Writable(fields[0].value) && WritableFields(fields[1..])
  }

  /** The tree as the parser stores it: large numbers as doubles, fields pushed one by one onto the object's list. */
  function Stored(v: Value): Value
    decreases v, 1
  {
    match v
    case Int(n) => if n < INT64_MAX then v else Double(Decimal(n))
    case Arr(items) => Arr(StoredItems(items))
    case Obj(fields) => Obj(StoredFields(fields, []))
    case _ => v
  }

  function StoredItems(items: seq<Value>): seq<Value>
    decreases items, 0
  {
    if |items| == 0 then [] else [Stored(items[0])] + StoredItems(items[1..])
  }

  function StoredFields(fields: seq<Field>, list: seq<Field>): seq<Field>
    decreases fields, 0
  {
    if |fields| == 0 then list
    else StoredFields(fields[1..], Put(list, fields[0].name, Stored(fields[0].value)))
  }

  // ---------------------------------------------------------------- escapes, as any reader understands them

  function HexValue(c: char): int {
    if '0' <= c <= '9' then c as int - '0' as int
    else if 'A' <= c <= 'F' then c as int - 'A' as int + 10
    else if 'a' <= c <= 'f' then c as int - 'a' as int + 10
    else -1
  }

  /** The four digits behind \u, as a number; negative when they are no digits. */
  function HexNumber(text: string): int
    requires |text| >= 4
  {
    var a, b, c, d := HexValue(text[0]), HexValue(text[1]), HexValue(text[2]), HexValue(text[3]);
    if a < 0 || b < 0 || c < 0 || d < 0 then -1 else 4096 * a + 256 * b + 16 * c + d
  }

  /** The contents of a string by section 7 of RFC 8259, \u included, outside the surrogates. */
  function Denoted(text: string): Option<string> {
    if |text| == 0 then Some("")
    else if text[0] < ' ' || text[0] == '\"' then None
    else if text[0] != '\\' then Behind(text[0], Denoted(text[1..]))
    else if |text| >= 2 && text[1] in Layout.ESCAPES then Behind(Layout.ESCAPES[text[1]], Denoted(text[2..]))
    else if |text| >= 6 && text[1] == 'u' && 0 <= HexNumber(text[2..]) < 0xD800 then
      Behind(HexNumber(text[2..]) as char, Denoted(text[6..]))
    else None
  }

  function Behind(c: char, rest: Option<string>): Option<string> {
    if rest.Some? then Some([c] + rest.value) else None
  }

  lemma NybbleValue(n: nat)
    ensures HexValue(HexNybble(n)) == n % 16
  {
  }

  /** The four digits of a control character have its value. */
  lemma ControlDigits(c: char, rest: string)
    requires c < ' '
    ensures HexNumber([HexNybble(c as int / 4096), HexNybble(c as int / 256), HexNybble(c as int / 16),
                       HexNybble(c as int)] + rest) == c as int
  {
    hide HexValue;
    hide HexNybble;
    NybbleValue(c as int / 4096);
    NybbleValue(c as int / 256);
    NybbleValue(c as int / 16);
    NybbleValue(c as int);
  }

  lemma EscapeDenotesChar(c: char, rest: string)
    ensures Denoted(EscapeChar(c) + rest) == Behind(c, Denoted(rest))
  {
    hide HexNybble;
    hide HexNumber;
    var e := EscapeChar(c);
    var t := e + rest;
    assert t[|e|..] == rest;
    if |e| == 6 {
      assert c < ' ';
      assert t[2..] == e[2..] + rest;
      ControlDigits(c, rest);
    } else {
      assert |e| == 1 || t[1] == e[1];
    }
  }

  /** What the builder writes for any string stands for that string, control characters included. */
  lemma {:induction false} EscapeDenotes(s: string)
    ensures Denoted(Escape(s)) == Some(s)
  {
    hide EscapeChar;
    if |s| > 0 {
      EscapeDenotesChar(s[0], Escape(s[1..]));
      EscapeDenotes(s[1..]);
      hide Denoted;
      assert s == [s[0]] + s[1..];
    }
  }

  // ---------------------------------------------------------------- tokens

  lemma ReadsOneEscape(c: char, more: string, done: string)
    ensures ParseString(EscapeChar(c) + more, done) == if CleanChar(c) then ParseString(more, done + [c]) else Fail
  {
    var e := EscapeChar(c);
    assert (e + more)[|e|..] == more;
    assert |e| > 1 ==> Peek((e + more)[1..]) == e[1];
  }

  /** A string of the right characters comes back; any other makes the parser refuse. */
  lemma {:induction false} ReadsEscape(s: string, done: string, rest: string)
    ensures ParseString(Escape(s) + ("\"" + rest), done) == if CleanString(s) then Ok(done + s, rest) else Fail
    decreases |s|
  {
    var tail := "\"" + rest;
    if |s| == 0 {
      assert Escape(s) + tail == tail && done + s == done && tail[1..] == rest;
    } else {
      hide EscapeChar;
      hide ParseString;
      hide CleanChar;
      assert Escape(s) + tail == EscapeChar(s[0]) + (Escape(s[1..]) + tail);
      assert s == [s[0]] + s[1..];
      ReadsOneEscape(s[0], Escape(s[1..]) + tail, done);
      ReadsEscape(s[1..], done + [s[0]], rest);
      assert done + [s[0]] + s[1..] == done + s;
    }
  }

  lemma {:induction false} DecimalValue(n: nat)
    ensures DigitsValue(Decimal(n)) == n && AllDigits(Decimal(n))
    decreases n
  {
    if n < 10 {
      assert DigitsValue([]) == 0;
    } else {
      DecimalValue(n / 10);
      var s := Decimal(n);
      assert s[..|s| - 1] == Decimal(n / 10);
    }
  }

  /** The spelling that the builder chooses for a number. */
  function SpelledNumber(n: nat): Layout.Number { Layout.Number("", Decimal(n), None, None) }

  lemma DecimalIsSpelling(n: nat)
    ensures Layout.GoodNumber(SpelledNumber(n)) && Layout.NumberText(SpelledNumber(n)) == Decimal(n)
    ensures Layout.NumberValue(SpelledNumber(n)) == Stored(Int(n))
  {
    hide Decimal;
    hide DigitsValue;
    DecimalValue(n);
  }

  lemma ReadsDecimal(n: nat, rest: string)
    requires Layout.Delimited(rest)
    ensures |Decimal(n)| > 0 && IsNumeric((Decimal(n) + rest)[0])
    ensures ParseNumber(Decimal(n) + rest) == Ok(Stored(Int(n)), rest)
  {
    hide ParseNumber;
    hide Decimal;
    DecimalIsSpelling(n);
    Layout.ReadsNumber(SpelledNumber(n), rest);
  }

  // ---------------------------------------------------------------- trees

  /** How the builder writes a character of a string. */
  function SpelledChar(c: char): (p: Layout.Piece)
    requires CleanChar(c)
    ensures Layout.GoodPiece(p) && Layout.PieceText(p) == EscapeChar(c) && Layout.PieceValue(p) == c
  {
    if c >= ' ' && c != '\"' && c != '\\' then Layout.Raw(c) else Layout.Escaped(EscapeChar(c)[1])
  }

  function SpelledString(s: string): (pieces: seq<Layout.Piece>)
    requires CleanString(s)
    ensures forall p :: p in pieces ==> Layout.GoodPiece(p)
    ensures Layout.PiecesText(pieces) == Escape(s) && Layout.PiecesValue(pieces) == s
  {
    hide CleanChar;
    hide EscapeChar;
    hide Layout.GoodPiece;
    hide Layout.PieceText;
    hide Layout.PieceValue;
    if |s| == 0 then [] else [SpelledChar(s[0])] + SpelledString(s[1..])
  }

  /** The layout that the builder chooses: each element on its own line, and a space behind a colon. */
  function Spelled(v: Value, indent: nat): Layout.Doc
    requires Writable(v)
    decreases v, 1
  {
    match v
    case Null => Layout.DNull
    case Bool(b) => Layout.DBool(b)
    case Int(n) => Layout.DNum(SpelledNumber(n))
    case Str(s) => Layout.DStr(SpelledString(s))
    case Arr(items) => Layout.DArr(SpelledItems(items, indent + INDENT_STEP), Newline(indent))
    case Obj(fields) => Layout.DObj(SpelledFields(fields, indent + INDENT_STEP), Newline(indent))
  }

  function SpelledItems(items: seq<Value>, indent: nat): seq<Layout.Item>
    requires WritableItems(items)
    decreases items, 0
  {
    if |items| == 0 then []
    else [Layout.Item("", Newline(indent), Spelled(items[0], indent))] + SpelledItems(items[1..], indent)
  }

  function SpelledField(f: Field, indent: nat): Layout.Member
    requires Writable(f.value)
    decreases f, 2
  {
    Layout.Member("", Newline(indent), f.name, "", " ", Spelled(f.value, indent))
  }

  function SpelledFields(fields: seq<Field>, indent: nat): seq<Layout.Member>
    requires WritableFields(fields)
    decreases fields, 0
  {
    if |fields| == 0 then [] else [SpelledField(fields[0], indent)] + SpelledFields(fields[1..], indent)
  }

  lemma NewlineIsGap(indent: nat)
    ensures Layout.IsGap(Newline(indent)) && Layout.IsGap("") && Layout.IsGap(" ")
  {
  }

  lemma LeafIsLayout(v: Value, indent: nat)
    requires Writable(v) && !v.Arr? && !v.Obj?
    ensures var d := Spelled(v, indent);
      Layout.Good(d) && Layout.TextOf(d) == Text(v, indent) && Layout.ValueOf(d) == Stored(v)
  {
    hide Layout.NumberText;
    hide Layout.NumberValue;
    hide Layout.GoodNumber;
    hide Decimal;
    if v.Int? {
      DecimalIsSpelling(v.n);
    }
  }

  /** What the builder writes is one of the layouts of the tree. */
  lemma {:induction false} TextIsLayout(v: Value, indent: nat)
    requires Writable(v)
    ensures var d := Spelled(v, indent);
      Layout.Good(d) && Layout.TextOf(d) == Text(v, indent) && Layout.ValueOf(d) == Stored(v)
    decreases v, 1
  {
    hide ItemsText;
    hide FieldsText;
    hide Layout.ItemsText;
    hide Layout.MembersText;
    hide Layout.GoodItems;
    hide Layout.GoodMembers;
    hide Layout.IsGap;
    hide StoredItems;
    hide StoredFields;
    NewlineIsGap(indent);
    match v
    case Arr(items) => ItemsAreLayout(items, indent + INDENT_STEP, true);
    case Obj(fields) => FieldsAreLayout(fields, indent + INDENT_STEP, true, []);
    case _ => LeafIsLayout(v, indent);
  }

  lemma {:induction false} ItemsAreLayout(items: seq<Value>, indent: nat, first: bool)
    requires WritableItems(items)
    ensures var ds := SpelledItems(items, indent);
      && Layout.GoodItems(ds, first) && Layout.ItemsText(ds, first) == ItemsText(items, indent, first)
      && Layout.ItemValues(ds, first) == StoredItems(items)
    decreases items, 0
  {
    hide Text;
    hide Layout.TextOf;
    hide Layout.Good;
    hide Layout.ValueOf;
    hide Spelled;
    hide Stored;
    hide Layout.IsGap;
    if |items| > 0 {
      NewlineIsGap(indent);
      TextIsLayout(items[0], indent);
      ItemsAreLayout(items[1..], indent, false);
      var rest := Text(items[0], indent) + ItemsText(items[1..], indent, false);
      SameSeparator(indent, first, rest);
      assert SpelledItems(items, indent)[1..] == SpelledItems(items[1..], indent);
    }
  }

  lemma SameSeparator(indent: nat, first: bool, rest: string)
    ensures Layout.Separator("", Newline(indent), first) + rest == Comma(first) + (Newline(indent) + rest)
  {
    hide Newline;
  }

  lemma {:induction false} FieldsAreLayout(fields: seq<Field>, indent: nat, first: bool, list: seq<Field>)
    requires WritableFields(fields)
    ensures var ms := SpelledFields(fields, indent);
      && Layout.GoodMembers(ms, first) && Layout.MembersText(ms, first) == FieldsText(fields, indent, first)
      && Layout.MemberFields(ms, first, list) == StoredFields(fields, list)
    decreases fields, 0
  {
    hide Text;
    hide Layout.TextOf;
    hide Layout.Good;
    hide Layout.ValueOf;
    hide Layout.NameText;
    hide FieldStart;
    hide Spelled;
    hide Stored;
    hide Put;
    hide Layout.IsGap;
    if |fields| > 0 {
      var f := fields[0];
      NewlineIsGap(indent);
      TextIsLayout(f.value, indent);
      FieldsAreLayout(fields[1..], indent, false, Put(list, f.name, Stored(f.value)));
      SameStart(f, indent);
      var rest := FieldStart(f.name) + (Text(f.value, indent) + FieldsText(fields[1..], indent, false));
      SameSeparator(indent, first, rest);
      assert SpelledFields(fields, indent)[1..] == SpelledFields(fields[1..], indent);
    }
  }

  lemma SameStart(f: Field, indent: nat)
    requires Writable(f.value)
    ensures Layout.NameText(SpelledField(f, indent)) == FieldStart(f.name)
  {
    assert "" + (":" + " ") == ": " && "\"" + ": " == "\": ";
  }

  /** Writing a tree and reading it back, at any indentation and before any text that does not continue a number. */
  lemma ReadsText(v: Value, indent: nat, rest: string)
    requires Writable(v) && Layout.Delimited(rest)
    ensures ParseValue(Text(v, indent) + rest) == Ok(Stored(v), rest)
  {
    hide ParseValue;
    TextIsLayout(v, indent);
    Layout.ReadsLayout("", Spelled(v, indent), rest);
    assert "" + (Text(v, indent) + rest) == Text(v, indent) + rest;
  }

  lemma LayoutOfItems()
    ensures ItemsText([Null, Obj([])], 4, true) == "\n    null" + ",\n    {\n    }"
  {
    var list, last := [Null, Obj([])], Obj([]);
    assert Newline(4) == "\n    ";
    hide Newline;
    assert list[1..] == [last];
    assert Text(last, 4) == "{\n    }";
    assert ItemsText([last], 4, false) == ",\n    {\n    }";
  }

  lemma LayoutOfField(list: seq<Value>)
    ensures FieldsText([Field("a", Arr(list))], 2, true)
         == "\n  \"a\": [" + (ItemsText(list, 4, true) + "\n  ]")
  {
    assert Newline(2) == "\n  ";
    hide Newline;
    assert FieldStart("a") == "\"a\": ";
    assert FieldsText([], 2, false) == "";
  }

  /** The layout of nested structures, an empty one among them: two spaces a level, an entry a line. */
  lemma LayoutExample()
    ensures Text(Obj([Field("a", Arr([Null, Obj([])]))]), 0)
         == "{" + ("\n  \"a\": [" + ("\n    null" + ",\n    {\n    }" + "\n  ]") + ("\n" + "}"))
  {
    LayoutOfItems();
    LayoutOfField([Null, Obj([])]);
    assert Newline(0) == "\n";
    hide Newline;
    hide ItemsText;
    hide FieldsText;
  }

  // ---------------------------------------------------------------- when the tree comes back unchanged

  /** The same tree with the fields of every object in reverse: the order of the parser's lists. */
  function Mirror(v: Value): Value
    decreases v, 1
  {
    match v
    case Arr(items) => Arr(MirrorItems(items))
    case Obj(fields) => Obj(MirrorFields(fields))
    case _ => v
  }

  function MirrorItems(items: seq<Value>): (r: seq<Value>)
    ensures |r| == |items|
    decreases items, 0
  {
    if |items| == 0 then [] else [Mirror(items[0])] + MirrorItems(items[1..])
  }

  function MirrorFields(fields: seq<Field>): (r: seq<Field>)
    ensures |r| == |fields|
    decreases fields, 0
  {
    if |fields| == 0 then [] else MirrorFields(fields[1..]) + [Field(fields[0].name, Mirror(fields[0].value))]
  }

  /** Numbers fit the parser's integers, and no object names a field twice. */
  predicate Exact(v: Value)
    decreases v, 1
  {
    match v
    case Int(n) => n < INT64_MAX
    case Arr(items) => ExactItems(items)
    case Obj(fields) => ExactFields(fields)
    case _ => true
  }

  predicate ExactItems(items: seq<Value>)
    decreases items, 0
  {
    |items| > 0 ==> Exact(items[0]) && ExactItems(items[1..])
  }

  predicate ExactFields(fields: seq<Field>)
    decreases fields, 0
  {
    |fields| > 0 ==>
      !Named(fields[1..], fields[0].name) && Exact(fields[0].value) && ExactFields(fields[1..])
  }

  predicate Named(fields: seq<Field>, name: string) { exists i :: 0 <= i < |fields| && fields[i].name == name }

  lemma {:induction false} MirrorTwice(v: Value)
    ensures Mirror(Mirror(v)) == v
    decreases v, 1
  {
    match v
    case Arr(items) => MirrorItemsTwice(items);
    case Obj(fields) => MirrorFieldsTwice(fields);
    case _ =>
  }

  lemma {:induction false} MirrorItemsTwice(items: seq<Value>)
    ensures MirrorItems(MirrorItems(items)) == items
    decreases items, 0
  {
    if |items| > 0 {
      MirrorTwice(items[0]);
      MirrorItemsTwice(items[1..]);
      assert MirrorItems(items)[1..] == MirrorItems(items[1..]);
    }
  }

  lemma {:induction false} MirrorFieldsTwice(fields: seq<Field>)
    ensures MirrorFields(MirrorFields(fields)) == fields
    decreases fields, 0
  {
    if |fields| > 0 {
      MirrorTwice(fields[0].value);
      MirrorFieldsTwice(fields[1..]);
      MirrorSnoc(MirrorFields(fields[1..]), Field(fields[0].name, Mirror(fields[0].value)));
    }
  }

  lemma {:induction false} MirrorSnoc(fields: seq<Field>, f: Field)
    ensures MirrorFields(fields + [f]) == [Field(f.name, Mirror(f.value))] + MirrorFields(fields)
    decreases |fields|
  {
    hide Mirror;
    if |fields| == 0 {
      assert fields + [f] == [f] && [f][1..] == [];
    } else {
      MirrorSnoc(fields[1..], f);
      assert (fields + [f])[1..] == fields[1..] + [f];
    }
  }

  /** A tree comes back as its mirror image exactly when it is `Exact`. */
  lemma {:induction false} StoredIsMirror(v: Value)
    ensures Stored(v) == Mirror(v) <==> Exact(v)
    decreases v, 1
  {
    match v
    case Arr(items) => StoredItemsAreMirror(items);
    case Obj(fields) => StoredFieldsAreMirror(fields, []);
    case _ =>
  }

  lemma {:induction false} StoredItemsAreMirror(items: seq<Value>)
    ensures StoredItems(items) == MirrorItems(items) <==> ExactItems(items)
    decreases items, 0
  {
    if |items| > 0 {
      StoredIsMirror(items[0]);
      StoredItemsAreMirror(items[1..]);
      assert StoredItems(items)[1..] == StoredItems(items[1..]) && MirrorItems(items)[1..] == MirrorItems(items[1..]);
      assert StoredItems(items)[0] == Stored(items[0]) && MirrorItems(items)[0] == Mirror(items[0]);
    }
  }

  /** None of the fields is on the list yet. */
  predicate Fresh(fields: seq<Field>, list: seq<Field>) {
    forall i :: 0 <= i < |fields| ==> !Named(list, fields[i].name)
  }

  lemma {:induction false} FullLength(fields: seq<Field>, list: seq<Field>)
    ensures |StoredFields(fields, list)| <= |fields| + |list|
    ensures |StoredFields(fields, list)| == |fields| + |list| ==> StoredFields(fields, list)[|fields|..] == list
    decreases |fields|
  {
    hide Stored;
    if |fields| > 0 {
      var longer := Put(list, fields[0].name, Stored(fields[0].value));
      FullLength(fields[1..], longer);
      if |StoredFields(fields, list)| == |fields| + |list| {
        assert longer[1..] == list;
        assert StoredFields(fields, list)[|fields| - 1..][1..] == StoredFields(fields, list)[|fields|..];
      }
    }
  }

  lemma FreshStep(fields: seq<Field>, list: seq<Field>, f: Field)
    requires |fields| > 0 && f.name == fields[0].name && !Named(list, f.name)
    ensures Fresh(fields[1..], [f] + list) <==> Fresh(fields, list) && !Named(fields[1..], f.name)
  {
    var rest, longer := fields[1..], [f] + list;
    assert longer[0] == f && forall j :: 0 <= j < |list| ==> longer[j + 1] == list[j];
    if Fresh(rest, longer) {
      forall i | 0 <= i < |fields| ensures !Named(list, fields[i].name) {
        if i > 0 {
          assert fields[i] == rest[i - 1];
        }
      }
    }
  }

  lemma NamedOrNot(fields: seq<Field>, list: seq<Field>, name: string)
    ensures Named(list, name) <==> IndexOf(list, name) < |list|
    ensures Fresh(fields, list) && |fields| > 0 ==> !Named(list, fields[0].name)
    ensures Fresh([], list)
  {
  }

  lemma PutCases(list: seq<Field>, f: Field)
    ensures Named(list, f.name) ==> |Put(list, f.name, f.value)| == |list|
    ensures !Named(list, f.name) ==> Put(list, f.name, f.value) == [f] + list
  {
  }

  lemma TailDecides(s: seq<Field>, m: seq<Field>, a: Field, b: Field, list: seq<Field>)
    requires |s| == |m| + 1 + |list| ==> s[|m|..] == [a] + list
    ensures s == m + [b] + list <==> s == m + ([a] + list) && a == b
  {
    if s == m + [b] + list {
      assert s[|m|..] == [b] + list;
      assert ([b] + list)[0] == ([a] + list)[0];
    }
  }

  lemma MirrorLength(fields: seq<Field>)
    ensures |MirrorFields(fields)| == |fields|
  {
    hide Mirror;
  }

  lemma {:induction false} StoredFieldsAreMirror(fields: seq<Field>, list: seq<Field>)
    ensures StoredFields(fields, list) == MirrorFields(fields) + list <==> ExactFields(fields) && Fresh(fields, list)
    decreases fields, 0
  {
    hide Stored;
    hide Mirror;
    hide Named;
    hide Fresh;
    if |fields| == 0 {
      NamedOrNot(fields, list, "");
    } else {
      var f, rest := fields[0], fields[1..];
      var stored, mirrored := Field(f.name, Stored(f.value)), Field(f.name, Mirror(f.value));
      var longer := Put(list, f.name, stored.value);
      var s, m := StoredFields(rest, longer), MirrorFields(rest);
      assert StoredFields(fields, list) == s && MirrorFields(fields) == m + [mirrored];
      NamedOrNot(fields, list, f.name);
      PutCases(list, stored);
      FullLength(rest, longer);
      MirrorLength(rest);
      StoredIsMirror(f.value);
      StoredFieldsAreMirror(rest, longer);
      assert ExactFields(fields) <==> !Named(rest, f.name) && Exact(f.value) && ExactFields(rest);
      hide Put;
      hide StoredFields;
      hide MirrorFields;
      hide ExactFields;
      hide Exact;
      if !Named(list, f.name) {
        FreshStep(fields, list, stored);
        TailDecides(s, m, stored, mirrored, list);
      } else {
        assert |s| < |m + [mirrored] + list|;
      }
    }
  }

  /** A writable tree comes back, up to the order of fields, exactly when it is exact. */
  lemma ComesBack(v: Value, indent: nat)
    requires Writable(v)
    ensures var parsed := ParseValue(Text(v, indent));
      parsed.Ok? && parsed.rest == "" && (Mirror(parsed.value) == v <==> Exact(v))
  {
    assert Text(v, indent) + "" == Text(v, indent);
    ReadsText(v, indent, "");
    StoredIsMirror(v);
    MirrorTwice(v);
    MirrorTwice(Stored(v));
  }

  // ---------------------------------------------------------------- looking fields up

  datatype Lookup = Missing | Found(value: Value)

  /** JSField_find. */
  function Find(list: seq<Field>, name: string): Lookup {
    var i := IndexOf(list, name);
    if i < |list| then Found(list[i].value) else Missing
  }

  /** The value last written under the name, or else what was found before. */
  function LastWritten(fields: seq<Field>, name: string, before: Lookup): Lookup {
    if |fields| == 0 then before
    else LastWritten(fields[1..], name, if fields[0].name == name then Found(Stored(fields[0].value)) else before)
  }

  lemma FindAfterPut(list: seq<Field>, put: string, value: Value, name: string)
    ensures Find(Put(list, put, value), name) == if put == name then Found(value) else Find(list, name)
  {
    var longer := Put(list, put, value);
    if IndexOf(list, put) == |list| {
      assert longer[1..] == list;
    } else {
      SameNames(list, longer, name);
    }
  }

  lemma {:induction false} SameNames(a: seq<Field>, b: seq<Field>, name: string)
    requires |a| == |b| && forall i :: 0 <= i < |a| ==> a[i].name == b[i].name
    ensures IndexOf(a, name) == IndexOf(b, name)
    decreases |a|
  {
    if |a| > 0 {
      SameNames(a[1..], b[1..], name);
    }
  }

  /** Looking a field up in the parsed object finds the value last written under that name. */
  lemma {:induction false} FindsLastWritten(fields: seq<Field>, list: seq<Field>, name: string)
    ensures Find(StoredFields(fields, list), name) == LastWritten(fields, name, Find(list, name))
    decreases |fields|
  {
    hide Stored;
    hide Put;
    hide Find;
    if |fields| > 0 {
      FindAfterPut(list, fields[0].name, Stored(fields[0].value), name);
      FindsLastWritten(fields[1..], Put(list, fields[0].name, Stored(fields[0].value)), name);
    }
  }
}

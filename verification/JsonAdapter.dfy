/** The two halves together: what the builder wrote, read back in place by the parser; and the requests it accepts. */
module JsonAdapter {
  import opened Options
  import opened JsonText
  import Layout = JsonLayout
  import opened JsonRoundTrip
  import opened JsonBuilder
  import opened JsonParser

  lemma {:induction false} WritableIsPrintable(v: Value)
    requires Writable(v)
    ensures Printable(v)
    decreases v, 1
  {
    match v
    case Arr(items) => WritableItemsArePrintable(items);
    case Obj(fields) => WritableFieldsArePrintable(fields);
    case _ =>
  }

  lemma {:induction false} WritableItemsArePrintable(items: seq<Value>)
    requires WritableItems(items)
    ensures PrintableItems(items)
    decreases items, 0
  {
    if |items| > 0 {
      WritableIsPrintable(items[0]);
      WritableItemsArePrintable(items[1..]);
    }
  }

  lemma {:induction false} WritableFieldsArePrintable(fields: seq<Field>)
    requires WritableFields(fields)
    ensures PrintableFields(fields)
    decreases fields, 0
  {
    if |fields| > 0 {
      WritableIsPrintable(fields[0].value);
      WritableFieldsArePrintable(fields[1..]);
    }
  }

  /**
   * A tree printed by a fresh builder and parsed in place comes back; `Exact` says when it comes back unchanged up to
   * the order of fields, and the tree nests as deep as the builder's assertion allows.
   */
  method PrintThenParse(v: Value) returns (ok: bool, raw: Raw, buffer: array<char>)
    requires Writable(v) && Depth(v) <= 64
    ensures ok && View(buffer[..], raw) == Stored(v)
    ensures Mirror(View(buffer[..], raw)) == v <==> Exact(v)
  {
    hide Word;
    hide ParseValue;
    WritableIsPrintable(v);
    FitsExactly(v);
    var builder := new JSBuilder();
    builder.WriteValue(v);
    var text := builder.data[..builder.length];
    assert text == Text(v, 0);
    buffer := new char[|text| + 1];
    forall i | 0 <= i < |text| {
      buffer[i] := text[i];
    }
    buffer[|text|] := '\0';
    assert buffer[..|text|] == text;
    var parser := new JSParser(buffer);
    ok, raw := parser.ParseValue();
    assert text + "" == text;
    ReadsText(v, 0, "");
    StoredIsMirror(v);
    MirrorTwice(v);
    MirrorTwice(Stored(v));
  }

  // ---------------------------------------------------------------- requests

  /** What the handler of a request gets: its command and the object. */
  datatype Request = Request(command: string, fields: seq<Field>)

  /** The command of a request with these fields, if they make one. */
  function CommandIn(fields: seq<Field>): Option<string> {
    match (Find(fields, "type"), Find(fields, "command"))
    case (Found(Str(kind)), Found(Str(command))) => if kind == "request" then Some(command) else None
    case _ => None
  }

  /** parse_request: one object and nothing behind it, whose type is "request" and whose command is a string. */
  function RequestOf(text: string): Option<Request> {
    match ParseValue(text)
    case Ok(Obj(fields), rest) =>
      if SkipSpaces(rest) == "" && CommandIn(fields).Some? then Some(Request(CommandIn(fields).value, fields)) else None
    case _ => None
  }

  /** The value of the last of the members with the name. */
  function LastMember(members: seq<Layout.Member>, first: bool, name: string, before: Lookup): Lookup
    requires Layout.GoodMembers(members, first)
    decreases |members|
  {
    if |members| == 0 then before
    else
      LastMember(members[1..], false, name,
                 if members[0].name == name then Found(Layout.ValueOf(members[0].doc)) else before)
  }

  lemma {:induction false} FindsLastMember(members: seq<Layout.Member>, first: bool, list: seq<Field>, name: string)
    requires Layout.GoodMembers(members, first)
    ensures Find(Layout.MemberFields(members, first, list), name)
         == LastMember(members, first, name, Find(list, name))
    decreases |members|
  {
    hide Layout.ValueOf;
    hide Layout.Good;
    hide Put;
    hide Find;
    if |members| > 0 {
      var m, v := members[0], Layout.ValueOf(members[0].doc);
      FindAfterPut(list, m.name, v, name);
      FindsLastMember(members[1..], false, Put(list, m.name, v), name);
    }
  }

  /** An object in any layout, alone but for gaps, that says so of itself in the last of its members of that name. */
  ghost predicate IsRequest(text: string, before: string, members: seq<Layout.Member>, inner: string, after: string,
                            command: string)
  {
    && Layout.IsGap(before) && Layout.GoodMembers(members, true) && Layout.IsGap(inner) && Layout.IsGap(after)
    && text == before + (Layout.TextOf(Layout.DObj(members, inner)) + after)
    && LastMember(members, true, "type", Missing) == Found(Str("request"))
    && LastMember(members, true, "command", Missing) == Found(Str(command))
  }

  /** A text is taken for a request with the command exactly when it is such an object. */
  lemma RequestsExactly(text: string, command: string)
    ensures RequestOf(text).Some? && RequestOf(text).value.command == command
       <==> exists before, members, inner, after :: IsRequest(text, before, members, inner, after, command)
  {
    hide ParseValue;
    hide IsRequest;
    hide RequestOf;
    if RequestOf(text).Some? && RequestOf(text).value.command == command {
      var before, members, inner, after := RequestIsSpelled(text, command);
    }
    if before, members, inner, after :| IsRequest(text, before, members, inner, after, command) {
      SpelledIsRequest(text, before, members, inner, after, command);
    }
  }

  lemma RequestIsSpelled(text: string, command: string)
    returns (before: string, members: seq<Layout.Member>, inner: string, after: string)
    requires RequestOf(text).Some? && RequestOf(text).value.command == command
    ensures IsRequest(text, before, members, inner, after, command)
  {
    hide ParseValue;
    hide Find;
    hide SkipSpaces;
    hide Layout.TextOf;
    hide Layout.IsGap;
    var rest := ParseValue(text).rest;
    var d;
    before, d := Layout.ParsedIsSpelled(text);
    after := Layout.SkippedIsGap(rest);
    assert after + "" == after;
    ObjectDoc(d, ParseValue(text).value);
    members, inner := d.members, d.gap;
    FindsLastMember(members, true, [], "type");
    FindsLastMember(members, true, [], "command");
    NothingListed("type");
    NothingListed("command");
  }

  lemma ObjectDoc(d: Layout.Doc, v: Value)
    requires Layout.Good(d) && Layout.ValueOf(d) == v && v.Obj?
    ensures d.DObj? && Layout.GoodMembers(d.members, true) && Layout.IsGap(d.gap)
    ensures v.fields == Layout.MemberFields(d.members, true, [])
  {
  }

  lemma NothingListed(name: string)
    ensures Find([], name) == Missing
  {
  }

  lemma SpelledIsRequest(text: string, before: string, members: seq<Layout.Member>, inner: string, after: string,
                         command: string)
    requires IsRequest(text, before, members, inner, after, command)
    ensures RequestOf(text).Some? && RequestOf(text).value.command == command
  {
    hide ParseValue;
    hide Find;
    hide Layout.TextOf;
    hide Layout.MemberFields;
    var d := Layout.DObj(members, inner);
    Layout.ReadsLayout(before, d, after);
    Layout.SkipsGap(after, "");
    assert after + "" == after;
    FindsLastMember(members, true, [], "type");
    FindsLastMember(members, true, [], "command");
    NothingListed("type");
    NothingListed("command");
  }

  // ---------------------------------------------------------------- in place

  /** JSObject_get_string_field, on values that live in the buffer. */
  method GetStringField(buffer: array<char>, fields: seq<RawField>, name: string) returns (at: Option<nat>)
    ensures var found := Find(ViewFields(buffer[..], fields), name);
      if found.Found? && found.value.Str? then at.Some? && CString(buffer[..], at.value) == found.value.s else at.None?
  {
    ghost var buf := buffer[..];
    IndexOfView(buf, fields, name);
    var i := RawIndexOf(buffer[..], fields, name);
    if i < |fields| {
      FieldAt(buf, fields, i);
      if fields[i].value.RStr? {
        return Some(fields[i].value.at);
      }
    }
    at := None;
  }

  method CommandOf(buffer: array<char>, fields: seq<RawField>) returns (command: Option<nat>)
    ensures var found := CommandIn(ViewFields(buffer[..], fields));
      if found.Some? then command.Some? && CString(buffer[..], command.value) == found.value else command.None?
  {
    hide Find;
    var kind := GetStringField(buffer, fields, "type");
    if kind.None? || CString(buffer[..], kind.value) != "request" { return None; }
    command := GetStringField(buffer, fields, "command");
  }

  /** The request in the buffer: where its command is, and its fields. */
  method ParseRequest(buffer: array<char>) returns (command: Option<nat>, fields: seq<RawField>)
    requires buffer.Length > 0 && buffer[buffer.Length - 1] == '\0'
    modifies buffer
    ensures var request := RequestOf(old(buffer[..buffer.Length - 1]));
      && (command.Some? <==> request.Some?)
      && (command.Some? ==>
            request.value == Request(CString(buffer[..], command.value), ViewFields(buffer[..], fields)))
  {
    hide ParseValue;
    hide CommandIn;
    hide CString;
    hide ViewFields;
    hide IsSpace;
    fields := [];
    ghost var text := buffer[..];
    var parser := new JSParser(buffer);
    var ok, raw := parser.ParseValue();
    if !ok { return None, fields; }
    UnreadKept(text, buffer[..], 0, parser.p, parser.limit);
    var c := parser.SkipSpaces();
    assert |parser.Unread()| == parser.limit - parser.p;
    if parser.p != parser.limit || !raw.RObj? { return None, fields; }
    fields := raw.fields;
    command := CommandOf(buffer, fields);
  }
}

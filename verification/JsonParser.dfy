/**
 * JSParser of debug/debug-adapter.c. Strings are decoded in place: a parsed value holds offsets into the buffer it was
 * read from, where each string ends at a zero byte.
 */
module JsonParser {
  import opened JsonText

  // ---------------------------------------------------------------- values that live in the buffer

  datatype Raw =
    | RNull
    | RBool(b: bool)
    | RInt(n: int)
    | RDouble(token: string)
    | RStr(at: nat)
    | RArr(items: seq<Raw>)
    | RObj(fields: seq<RawField>)

  datatype RawField = RawField(name: nat, value: Raw)

  /** The zero-terminated string at an offset. */
  function CString(buf: string, at: nat): (s: string)
    ensures at <= |buf| ==> at + |s| <= |buf|
    decreases |buf| - at
  {
    if at >= |buf| || buf[at] == '\0' then "" else [buf[at]] + CString(buf, at + 1)
  }

  function View(buf: string, raw: Raw): Value
    decreases raw, 1
  {
    match raw
    case RNull => Null
    case RBool(b) => Bool(b)
    case RInt(n) => Int(n)
    case RDouble(token) => Double(token)
    case RStr(at) => Str(CString(buf, at))
    case RArr(items) => Arr(ViewItems(buf, items))
    case RObj(fields) => Obj(ViewFields(buf, fields))
  }

  function ViewItems(buf: string, items: seq<Raw>): (r: seq<Value>)
    ensures |r| == |items|
    decreases items, 0
  {
    if |items| == 0 then [] else [View(buf, items[0])] + ViewItems(buf, items[1..])
  }

  function ViewField(buf: string, f: RawField): Field
    decreases f, 2
  {
    Field(CString(buf, f.name), View(buf, f.value))
  }

  function ViewFields(buf: string, fields: seq<RawField>): (r: seq<Field>)
    ensures |r| == |fields|
    decreases fields, 0
  {
    if |fields| == 0 then [] else [ViewField(buf, fields[0])] + ViewFields(buf, fields[1..])
  }

  /** A string that starts and ends, terminator included, inside buf[lo..hi]. */
  predicate Holds(buf: string, at: nat, lo: nat, hi: nat) {
    lo <= at && hi <= |buf| && at + |CString(buf, at)| < hi
  }

  predicate Within(buf: string, raw: Raw, lo: nat, hi: nat)
    decreases raw, 1
  {
    match raw
    case RStr(at) => Holds(buf, at, lo, hi)
    case RArr(items) => AllWithin(buf, items, lo, hi)
    case RObj(fields) => FieldsWithin(buf, fields, lo, hi)
    case _ => true
  }

  predicate AllWithin(buf: string, items: seq<Raw>, lo: nat, hi: nat)
    decreases items, 0
  {
    |items| > 0 ==> Within(buf, items[0], lo, hi) && AllWithin(buf, items[1..], lo, hi)
  }

  predicate FieldsWithin(buf: string, fields: seq<RawField>, lo: nat, hi: nat)
    decreases fields, 0
  {
    |fields| > 0 ==> FieldWithin(buf, fields[0], lo, hi) && FieldsWithin(buf, fields[1..], lo, hi)
  }

  predicate FieldWithin(buf: string, f: RawField, lo: nat, hi: nat)
    decreases f, 2
  {
    Holds(buf, f.name, lo, hi) && Within(buf, f.value, lo, hi)
  }

  /** Two buffers that agree on buf[lo..hi]. */
  predicate Agree(a: string, b: string, lo: nat, hi: nat) {
    |a| == |b| && lo <= hi <= |a| && a[lo..hi] == b[lo..hi]
  }

  lemma {:induction false} SameString(a: string, b: string, at: nat, lo: nat, hi: nat, lo': nat, hi': nat)
    requires Agree(a, b, lo, hi) && Holds(a, at, lo, hi) && lo' <= lo && hi <= hi' <= |a|
    ensures CString(a, at) == CString(b, at) && Holds(b, at, lo', hi')
    decreases hi - at
  {
    assert a[at] == a[lo..hi][at - lo] == b[lo..hi][at - lo] == b[at];
    if a[at] != '\0' {
      SameString(a, b, at + 1, lo, hi, lo', hi');
    }
  }

  /** What was parsed keeps its meaning while the parser writes elsewhere. */
  lemma {:induction false} SameView(a: string, b: string, raw: Raw, lo: nat, hi: nat, lo': nat, hi': nat)
    requires Agree(a, b, lo, hi) && Within(a, raw, lo, hi) && lo' <= lo && hi <= hi' <= |a|
    ensures View(a, raw) == View(b, raw) && Within(b, raw, lo', hi')
    decreases raw, 1
  {
    match raw
    case RStr(at) => SameString(a, b, at, lo, hi, lo', hi');
    case RArr(items) => SameItems(a, b, items, lo, hi, lo', hi');
    case RObj(fields) => SameFields(a, b, fields, lo, hi, lo', hi');
    case _ =>
  }

  lemma {:induction false} SameItems(a: string, b: string, items: seq<Raw>, lo: nat, hi: nat, lo': nat, hi': nat)
    requires Agree(a, b, lo, hi) && AllWithin(a, items, lo, hi) && lo' <= lo && hi <= hi' <= |a|
    ensures ViewItems(a, items) == ViewItems(b, items) && AllWithin(b, items, lo', hi')
    decreases items, 0
  {
    if |items| > 0 {
      SameView(a, b, items[0], lo, hi, lo', hi');
      SameItems(a, b, items[1..], lo, hi, lo', hi');
    }
  }

  lemma {:induction false} SameFields(a: string, b: string, fields: seq<RawField>, lo: nat, hi: nat, lo': nat, hi': nat)
    requires Agree(a, b, lo, hi) && FieldsWithin(a, fields, lo, hi) && lo' <= lo && hi <= hi' <= |a|
    ensures ViewFields(a, fields) == ViewFields(b, fields) && FieldsWithin(b, fields, lo', hi')
    decreases fields, 0
  {
    if |fields| > 0 {
      SameField(a, b, fields[0], lo, hi, lo', hi');
      SameFields(a, b, fields[1..], lo, hi, lo', hi');
    }
  }

  lemma {:induction false} SameField(a: string, b: string, f: RawField, lo: nat, hi: nat, lo': nat, hi': nat)
    requires Agree(a, b, lo, hi) && FieldWithin(a, f, lo, hi) && lo' <= lo && hi <= hi' <= |a|
    ensures ViewField(a, f) == ViewField(b, f) && FieldWithin(b, f, lo', hi')
    decreases f, 2
  {
    SameString(a, b, f.name, lo, hi, lo', hi');
    SameView(a, b, f.value, lo, hi, lo', hi');
  }

  /** Text without zeros, followed by one, is the string at its offset. */
  lemma {:induction false} TerminatedString(buf: string, at: nat, end: nat)
    requires at <= end < |buf| && buf[end] == '\0' && '\0' !in buf[at..end]
    ensures CString(buf, at) == buf[at..end]
    decreases end - at
  {
    if at < end {
      assert buf[at] == buf[at..end][0] && buf[at + 1..end] == buf[at..end][1..];
      TerminatedString(buf, at + 1, end);
    }
  }

  // ---------------------------------------------------------------- lists of values

  lemma {:induction false} ItemsSnoc(buf: string, items: seq<Raw>, x: Raw, lo: nat, hi: nat)
    requires AllWithin(buf, items, lo, hi) && Within(buf, x, lo, hi)
    ensures ViewItems(buf, items + [x]) == ViewItems(buf, items) + [View(buf, x)] && AllWithin(buf, items + [x], lo, hi)
    decreases |items|
  {
    if |items| == 0 {
      assert items + [x] == [x] && [x][1..] == [];
    } else {
      ItemsSnoc(buf, items[1..], x, lo, hi);
      assert (items + [x])[1..] == items[1..] + [x];
    }
  }

  /** JSField_find, as an index. */
  function RawIndexOf(buf: string, fields: seq<RawField>, name: string): (i: nat)
    ensures i <= |fields|
  {
    if |fields| == 0 || CString(buf, fields[0].name) == name then 0 else 1 + RawIndexOf(buf, fields[1..], name)
  }

  lemma {:induction false} IndexOfView(buf: string, fields: seq<RawField>, name: string)
    ensures RawIndexOf(buf, fields, name) == IndexOf(ViewFields(buf, fields), name)
    decreases |fields|
  {
    if |fields| > 0 {
      IndexOfView(buf, fields[1..], name);
      assert ViewFields(buf, fields)[1..] == ViewFields(buf, fields[1..]);
    }
  }

  lemma {:induction false} UpdateView(buf: string, fields: seq<RawField>, i: nat, value: Raw, lo: nat, hi: nat)
    requires i < |fields| && FieldsWithin(buf, fields, lo, hi) && Within(buf, value, lo, hi)
    ensures var f := fields[i].(value := value);
      && ViewFields(buf, fields[i := f])
         == ViewFields(buf, fields)[i := Field(CString(buf, fields[i].name), View(buf, value))]
      && FieldsWithin(buf, fields[i := f], lo, hi)
    decreases |fields|
  {
    var f := fields[i].(value := value);
    if i == 0 {
      assert fields[0 := f][1..] == fields[1..];
    } else {
      UpdateView(buf, fields[1..], i - 1, value, lo, hi);
      assert fields[i := f][1..] == fields[1..][i - 1 := f] && fields[i := f][0] == fields[0];
    }
  }

  /** JSField_create followed by storing the value: in place under an existing name, else at the front. */
  function RawPut(buf: string, fields: seq<RawField>, name: nat, value: Raw): seq<RawField> {
    var i := RawIndexOf(buf, fields, CString(buf, name));
    if i < |fields| then fields[i := fields[i].(value := value)] else [RawField(name, value)] + fields
  }

  lemma PutView(buf: string, fields: seq<RawField>, name: nat, value: Raw, lo: nat, hi: nat)
    requires FieldsWithin(buf, fields, lo, hi) && FieldWithin(buf, RawField(name, value), lo, hi)
    ensures var r := RawPut(buf, fields, name, value);
      && ViewFields(buf, r) == Put(ViewFields(buf, fields), CString(buf, name), View(buf, value))
      && FieldsWithin(buf, r, lo, hi)
  {
    var i := RawIndexOf(buf, fields, CString(buf, name));
    IndexOfView(buf, fields, CString(buf, name));
    if i < |fields| {
      UpdateView(buf, fields, i, value, lo, hi);
      assert ViewFields(buf, fields)[i].name == CString(buf, fields[i].name) by {
        FieldAt(buf, fields, i);
      }
    } else {
      assert ([RawField(name, value)] + fields)[1..] == fields;
    }
  }

  lemma {:induction false} FieldAt(buf: string, fields: seq<RawField>, i: nat)
    requires i < |fields|
    ensures ViewFields(buf, fields)[i] == ViewField(buf, fields[i])
    decreases i
  {
    if i > 0 {
      FieldAt(buf, fields[1..], i - 1);
    }
  }

  // ---------------------------------------------------------------- contracts

  /** Only buf[from..to] was written; in particular everything not yet read is untouched. */
  ghost predicate Kept(before: string, after: string, from: nat, to: nat) {
    |before| == |after| && from <= to <= |before| && after[..from] == before[..from] && after[to..] == before[to..]
  }

  lemma KeptTwice(a: string, b: string, c: string, from: nat, mid: nat, to: nat)
    requires Kept(a, b, from, mid) && Kept(b, c, mid, to)
    ensures Kept(a, c, from, to) && Agree(b, c, from, mid) && a[mid..] == b[mid..]
  {
    assert c[..from] == c[..mid][..from] && b[..from] == b[..mid][..from];
    assert a[to..] == a[mid..][to - mid..] && b[to..] == b[mid..][to - mid..];
    assert b[from..mid] == b[..mid][from..] && c[from..mid] == c[..mid][from..];
  }

  lemma UnreadKept(a: string, b: string, from: nat, to: nat, limit: nat)
    requires Kept(a, b, from, to) && to <= limit < |a|
    ensures a[to..limit] == b[to..limit] && a[limit] == b[limit]
  {
    assert a[to..limit] == a[to..][..limit - to] && b[to..limit] == b[to..][..limit - to];
    assert a[limit] == a[to..][limit - to] && b[limit] == b[to..][limit - to];
  }

  lemma KeptMore(a: string, b: string, from: nat, to: nat, more: nat)
    requires Kept(a, b, from, to) && to <= more <= |a|
    ensures Kept(a, b, from, more)
  {
    assert a[more..] == a[to..][more - to..] && b[more..] == b[to..][more - to..];
  }

  lemma KeptWrite(a: string, b: string, from: nat, to: nat, at: nat, c: char)
    requires Kept(a, b, from, to) && from <= at < to
    ensures Kept(a, b[at := c], from, to)
  {
  }

  /** The elements parsed so far lie behind the pointer. */
  ghost predicate ItemsBehind(before: string, from: nat, now: string, p: nat, items: seq<Raw>) {
    Kept(before, now, from, p) && AllWithin(now, items, from, p)
  }

  ghost predicate FieldsBehind(before: string, from: nat, now: string, p: nat, fields: seq<RawField>) {
    Kept(before, now, from, p) && FieldsWithin(now, fields, from, p)
  }

  lemma ItemBehind(before: string, from: nat, now: string, p: nat, now': string, p': nat, items: seq<Raw>, x: Raw)
    requires ItemsBehind(before, from, now, p, items) && Kept(now, now', p, p') && Within(now', x, p, p')
    ensures ItemsBehind(before, from, now', p', items + [x])
    ensures ViewItems(now', items + [x]) == ViewItems(now, items) + [View(now', x)]
  {
    KeptTwice(before, now, now', from, p, p');
    SameItems(now, now', items, from, p, from, p');
    SameView(now', now', x, p, p', from, p');
    ItemsSnoc(now', items, x, from, p');
  }

  lemma FieldBehind(before: string, from: nat, now: string, p: nat, now': string, p': nat,
                    fields: seq<RawField>, f: RawField)
    requires FieldsBehind(before, from, now, p, fields) && Kept(now, now', p, p') && FieldWithin(now', f, p, p')
    ensures var r := RawPut(now', fields, f.name, f.value);
      && FieldsBehind(before, from, now', p', r)
      && ViewFields(now', r) == Put(ViewFields(now, fields), ViewField(now', f).name, ViewField(now', f).value)
  {
    KeptTwice(before, now, now', from, p, p');
    SameFields(now, now', fields, from, p, from, p');
    SameField(now', now', f, p, p', from, p');
    PutView(now', fields, f.name, f.value, from, p');
  }

  lemma BehindMore(before: string, from: nat, now: string, p: nat, p': nat, items: seq<Raw>, fields: seq<RawField>)
    requires p <= p' <= |now|
    ensures ItemsBehind(before, from, now, p, items) ==> ItemsBehind(before, from, now, p', items)
    ensures FieldsBehind(before, from, now, p, fields) ==> FieldsBehind(before, from, now, p', fields)
  {
    if Kept(before, now, from, p) {
      KeptMore(before, now, from, p, p');
      if AllWithin(now, items, from, p) {
        SameItems(now, now, items, from, p, from, p');
      }
      if FieldsWithin(now, fields, from, p) {
        SameFields(now, now, fields, from, p, from, p');
      }
    }
  }

  /** A parsing method left what `expected` says of the unread text, its value being stored inside buf[from..to]. */
  ghost predicate ValueParsed(expected: Parse<Value>, before: string, from: nat, limit: nat,
                              after: string, to: nat, ok: bool, raw: Raw)
  {
    && Kept(before, after, from, to) && to <= limit < |before|
    && match expected
       case Fail => !ok
       case Ok(v, rest) => ok && rest == before[to..limit] && View(after, raw) == v && Within(after, raw, from, to)
  }

  ghost predicate FieldParsed(expected: Parse<Field>, before: string, from: nat, limit: nat,
                              after: string, to: nat, ok: bool, f: RawField)
  {
    && Kept(before, after, from, to) && to <= limit < |before|
    && match expected
       case Fail => !ok
       case Ok(v, rest) =>
          ok && rest == before[to..limit] && ViewField(after, f) == v && FieldWithin(after, f, from, to)
  }

  /** The same for a string decoded at `from`. */
  ghost predicate StringParsed(expected: Parse<string>, before: string, from: nat, limit: nat,
                               after: string, to: nat, ok: bool)
  {
    && Kept(before, after, from, to) && to <= limit < |before|
    && match expected
       case Fail => !ok
       case Ok(s, rest) => ok && rest == before[to..limit] && CString(after, from) == s && Holds(after, from, from, to)
  }

  lemma NothingBehind(before: string, from: nat)
    requires from <= |before|
    ensures ItemsBehind(before, from, before, from, []) && FieldsBehind(before, from, before, from, [])
  {
  }

  lemma NothingKept(buf: string, at: nat)
    requires at <= |buf|
    ensures Kept(buf, buf, at, at)
  {
  }

  lemma ItemParsed(before: string, from: nat, now: string, mid: nat, limit: nat, after: string, to: nat,
                   ok: bool, items: seq<Raw>, x: Raw, expected: Parse<Value>)
    requires ItemsBehind(before, from, now, mid, items) && ValueParsed(expected, now, mid, limit, after, to, ok, x)
    ensures ok <==> expected.Ok?
    ensures if ok then
        && ItemsBehind(before, from, after, to, items + [x]) && expected.rest == after[to..limit]
        && ViewItems(after, items + [x]) == ViewItems(now, items) + [expected.value]
      else ValueParsed(Fail, before, from, limit, after, to, false, RArr(items))
  {
    KeptTwice(before, now, after, from, mid, to);
    UnreadKept(now, after, mid, to, limit);
    if ok {
      ItemBehind(before, from, now, mid, after, to, items, x);
    }
  }

  lemma ItemsDone(before: string, from: nat, limit: nat, now: string, to: nat, items: seq<Raw>)
    requires ItemsBehind(before, from, now, to, items) && to <= limit < |before|
    ensures ValueParsed(Ok(Arr(ViewItems(now, items)), now[to..limit]), before, from, limit, now, to, true, RArr(items))
    ensures ValueParsed(Fail, before, from, limit, now, to, false, RArr(items))
  {
    UnreadKept(before, now, from, to, limit);
  }

  lemma FieldsParsed(before: string, from: nat, now: string, mid: nat, limit: nat, after: string, to: nat,
                     ok: bool, fields: seq<RawField>, f: RawField, expected: Parse<Field>)
    requires FieldsBehind(before, from, now, mid, fields) && FieldParsed(expected, now, mid, limit, after, to, ok, f)
    ensures ok <==> expected.Ok?
    ensures if ok then
        var r := RawPut(after, fields, f.name, f.value);
        && FieldsBehind(before, from, after, to, r) && expected.rest == after[to..limit]
        && ViewFields(after, r) == Put(ViewFields(now, fields), expected.value.name, expected.value.value)
      else ValueParsed(Fail, before, from, limit, after, to, false, RObj(fields))
  {
    KeptTwice(before, now, after, from, mid, to);
    UnreadKept(now, after, mid, to, limit);
    if ok {
      FieldBehind(before, from, now, mid, after, to, fields, f);
    }
  }

  lemma FieldsDone(before: string, from: nat, limit: nat, now: string, to: nat, fields: seq<RawField>)
    requires FieldsBehind(before, from, now, to, fields) && to <= limit < |before|
    ensures ValueParsed(Ok(Obj(ViewFields(now, fields)), now[to..limit]),
                        before, from, limit, now, to, true, RObj(fields))
    ensures ValueParsed(Fail, before, from, limit, now, to, false, RObj(fields))
  {
    UnreadKept(before, now, from, to, limit);
  }

  /** A result found from a later pointer on, seen from an earlier one. */
  lemma FromEarlier(before: string, from: nat, mid: nat, limit: nat, after: string, to: nat, ok: bool, raw: Raw,
                    expected: Parse<Value>)
    requires from <= mid && ValueParsed(expected, before, mid, limit, after, to, ok, raw)
    ensures ValueParsed(expected, before, from, limit, after, to, ok, raw)
  {
    assert after[..from] == after[..mid][..from] && before[..from] == before[..mid][..from];
    if ok {
      SameView(after, after, raw, mid, to, from, to);
    }
  }

  /** Nothing was written: a failure, or a value that lives outside the buffer. */
  lemma Unwritten(buf: string, from: nat, to: nat, limit: nat, ok: bool, raw: Raw, expected: Parse<Value>)
    requires from <= to <= limit < |buf|
    requires if ok then expected == Ok(View(buf, raw), buf[to..limit]) && !raw.RStr? && !raw.RArr? && !raw.RObj?
             else expected == Fail
    ensures ValueParsed(expected, buf, from, limit, buf, to, ok, raw)
  {
  }

  /** A decoded string is a value. */
  lemma StringIsValue(before: string, from: nat, limit: nat, after: string, to: nat, ok: bool, expected: Parse<string>)
    requires StringParsed(expected, before, from, limit, after, to, ok)
    ensures ValueParsed(match expected case Fail => Fail case Ok(s, rest) => Ok(Str(s), rest),
                        before, from, limit, after, to, ok, RStr(from))
  {
  }

  lemma NameKept(before: string, from: nat, limit: nat, after: string, to: nat, ok: bool, expected: Parse<string>)
    requires StringParsed(expected, before, from, limit, after, to, ok)
    ensures Kept(before, after, from, to) && before[to..limit] == after[to..limit]
    ensures ok <==> expected.Ok?
    ensures ok ==> expected.rest == after[to..limit]
  {
    UnreadKept(before, after, from, to, limit);
  }

  lemma StringFails(before: string, from: nat, limit: nat, after: string, to: nat)
    requires Kept(before, after, from, to) && to <= limit < |before|
    ensures StringParsed(Fail, before, from, limit, after, to, false)
  {
  }

  /** The text decoded up to `at` becomes a string once its terminator is written. */
  lemma StringEnds(before: string, from: nat, limit: nat, now: string, at: nat, to: nat)
    requires Kept(before, now, from, to) && from <= at < to <= limit < |before| && '\0' !in now[from..at]
    ensures StringParsed(Ok(now[from..at], now[to..limit]), before, from, limit, now[at := '\0'], to, true)
  {
    var after := now[at := '\0'];
    KeptWrite(before, now, from, to, at, '\0');
    UnreadKept(before, now, from, to, limit);
    assert after[from..at] == now[from..at];
    TerminatedString(after, from, at);
  }

  lemma FieldFails(before: string, from: nat, limit: nat, after: string, mid: nat, to: nat, f: RawField)
    requires from <= mid && Kept(before, after, mid, to) && to <= limit < |before|
    ensures FieldParsed(Fail, before, from, limit, after, to, false, f)
  {
    assert after[..from] == after[..mid][..from] && before[..from] == before[..mid][..from];
  }

  /** A name and then a value make a field. */
  lemma FieldFrom(before: string, from: nat, name: nat, named: string, mid: nat, later: nat, after: string, to: nat,
                  limit: nat, ok: bool, value: Raw, parsedName: Parse<string>, parsedValue: Parse<Value>)
    requires from <= name && mid <= later && parsedName.Ok?
    requires StringParsed(parsedName, before, name, limit, named, mid, true)
    requires ValueParsed(parsedValue, named, later, limit, after, to, ok, value)
    ensures FieldParsed(match parsedValue case Fail => Fail case Ok(v, rest) => Ok(Field(parsedName.value, v), rest),
                        before, from, limit, after, to, ok, RawField(name, value))
  {
    hide Within;
    KeptMore(before, named, name, mid, later);
    KeptTwice(before, named, after, name, later, to);
    FieldFails(before, from, limit, after, name, to, RawField(name, value));
    UnreadKept(before, named, name, later, limit);
    KeptMore(before, named, name, later, to);
    UnreadKept(before, named, name, to, limit);
    if ok {
      SameString(named, after, name, name, mid, from, to);
      SameView(after, after, value, later, to, from, to);
    }
  }

  // ---------------------------------------------------------------- the parser

  lemma {:induction false} SkipsTwice(t: string)
    ensures JsonText.SkipSpaces(JsonText.SkipSpaces(t)) == JsonText.SkipSpaces(t)
    ensures JsonText.ParseValue(JsonText.SkipSpaces(t)) == JsonText.ParseValue(t)
    decreases |t|
  {
    hide JsonText.ParseItems;
    hide JsonText.ParseFields;
    hide JsonText.ParseString;
    hide JsonText.ParseNumber;
    if |t| > 0 {
      SkipsTwice(t[1..]);
    }
  }

  class JSParser {
    const buffer: array<char>
    const limit: nat
    var p: nat

    ghost predicate Valid()
      reads this, buffer
    {
      p <= limit && buffer.Length == limit + 1 && buffer[limit] == '\0'
    }

    ghost function Unread(): string
      requires Valid()
      reads this, buffer
    {
      buffer[p..limit]
    }

    constructor (buffer: array<char>)
      requires buffer.Length > 0 && buffer[buffer.Length - 1] == '\0'
      ensures Valid() && this.buffer == buffer && p == 0 && Unread() == buffer[..buffer.Length - 1]
    {
      this.buffer := buffer;
      limit := buffer.Length - 1;
      p := 0;
    }

    method SkipSpaces() returns (c: char)
      requires Valid()
      modifies this`p
      ensures Valid() && p >= old(p)
      ensures Unread() == JsonText.SkipSpaces(old(Unread())) && c == Peek(Unread()) == buffer[p]
    {
      while IsSpace(buffer[p])
        invariant Valid() && p >= old(p)
        invariant JsonText.SkipSpaces(Unread()) == JsonText.SkipSpaces(old(Unread()))
        decreases limit - p
      {
        assert Unread()[1..] == buffer[p + 1..limit];
        p := p + 1;
      }
      c := buffer[p];
    }

    method Next() returns (c: char)
      requires Valid()
      modifies this`p
      ensures Valid() && c == Peek(old(Unread()))
      ensures old(p) < limit ==> p == old(p) + 1 && Unread() == old(Unread())[1..]
      ensures old(p) == limit ==> p == old(p)
    {
      if p < limit {
        c := buffer[p];
        p := p + 1;
      } else {
        c := '\0';
      }
    }

    /** Overwrites what was read. */
    method Store(ghost before: string, ghost from: nat, ghost p0: nat, to: nat, c: char)
      requires Valid() && from <= to < p && p0 <= p && Kept(before, buffer[..], from, p0)
      modifies buffer
      ensures Valid() && Unread() == old(Unread()) && Kept(before, buffer[..], from, p)
      ensures buffer[from..to + 1] == old(buffer[from..to]) + [c]
    {
      ghost var now := buffer[..];
      KeptMore(before, now, from, p0, p);
      KeptWrite(before, now, from, p, to, c);
      hide Kept;
      buffer[to] := c;
      assert buffer[..] == now[to := c];
    }

    /** The string case of JSParser_parse_value: `to` follows the pointer `p` and never overtakes it. */
    method ParseString() returns (ok: bool)
      requires Valid()
      modifies this`p, buffer
      ensures Valid() && p >= old(p)
      ensures StringParsed(JsonText.ParseString(old(Unread()), ""), old(buffer[..]), old(p), limit, buffer[..], p, ok)
    {
      hide Kept;
      hide StringParsed;
      hide Unescape;
      ghost var before, from, whole := buffer[..], p, JsonText.ParseString(Unread(), "");
      var to := p;
      ghost var done := "";
      NothingKept(before, from);
      while true
        invariant Valid() && from <= to <= p && Kept(before, buffer[..], from, p)
        invariant done == buffer[from..to] && '\0' !in done
        invariant whole == JsonText.ParseString(Unread(), done)
        decreases limit - p
      {
        ghost var now, p0, text := buffer[..], p, Unread();
        assert |text| >= 2 ==> text[2..] == text[1..][1..];
        var c := Next();
        if c == '\"' {
          KeptMore(before, now, from, p0, p);
          break;
        }
        if c < ' ' {
          KeptMore(before, now, from, p0, p);
          StringFails(before, from, limit, now, p);
          return false;
        }
        if c == '\\' {
          c := Next();
          c := Unescape(c);
          if c == '\0' {
            KeptMore(before, now, from, p0, p);
            StringFails(before, from, limit, now, p);
            return false;
          }
        }
        Store(before, from, p0, to, c);
        to, done := to + 1, done + [c];
      }
      ghost var now := buffer[..];
      assert now[from..to] == done && now[p..limit] == Unread();
      StringEnds(before, from, limit, now, to, p);
      buffer[to] := '\0';
      assert buffer[..] == now[to := '\0'];
      ok := true;
    }

    /** An object key: its closing quote becomes the terminator. */
    method ParseName() returns (ok: bool)
      requires Valid()
      modifies this`p, buffer
      ensures Valid() && p >= old(p)
      ensures StringParsed(JsonText.ParseName(old(Unread()), ""), old(buffer[..]), old(p), limit, buffer[..], p, ok)
    {
      ghost var before, from, whole := buffer[..], p, JsonText.ParseName(Unread(), "");
      assert buffer[from..p] == "";
      while true
        invariant Valid() && from <= p && buffer[..] == before
        invariant whole == JsonText.ParseName(Unread(), buffer[from..p])
        invariant '\0' !in buffer[from..p]
        decreases limit - p
      {
        ghost var done := buffer[from..p];
        var c := Next();
        if c == '\"' {
          break;
        }
        if c == '\0' {
          return false;
        }
        assert buffer[from..p] == done + [c];
      }
      buffer[p - 1] := '\0';
      TerminatedString(buffer[..], from, p - 1);
      ok := true;
    }

    /** JSParser_expect, its first character having matched already. */
    method Expect(word: string) returns (ok: bool)
      requires Valid()
      modifies this`p
      ensures Valid() && ok == (word <= old(Unread()))
      ensures p == if ok then old(p) + |word| else old(p)
    {
      ok := p + |word| <= limit && buffer[p..p + |word|] == word;
      if ok {
        assert Unread()[..|word|] == buffer[p..p + |word|];
        p := p + |word|;
      } else if p + |word| <= limit {
        assert Unread()[..|word|] == buffer[p..p + |word|];
      }
    }

    method SkipNumeric()
      requires Valid()
      modifies this`p
      ensures Valid() && p == old(p) + NumericPrefix(old(Unread()))
    {
      while IsNumeric(buffer[p])
        invariant Valid() && old(p) <= p
        invariant NumericPrefix(old(Unread())) == p - old(p) + NumericPrefix(Unread())
        decreases limit - p
      {
        assert Unread()[1..] == buffer[p + 1..limit];
        p := p + 1;
      }
    }

    /** The default case, the pointer being just past the first character. */
    method ParseNumber() returns (ok: bool, raw: Raw)
      requires Valid() && 0 < p && IsNumeric(buffer[p - 1])
      modifies this`p
      ensures Valid() && p >= old(p)
      ensures ValueParsed(JsonText.ParseNumber(old(buffer[p - 1..limit])),
                          buffer[..], old(p), limit, buffer[..], p, ok, raw)
    {
      hide ValueParsed;
      hide AllDigits;
      hide IntegerOf;
      hide IsDecimalShape;
      ghost var text, from := buffer[p - 1..limit], p;
      assert text[1..] == Unread();
      var start := p - 1;
      SkipNumeric();
      var token := buffer[start..p];
      assert token == text[..NumericPrefix(text)] && text[NumericPrefix(text)..] == Unread();
      hide NumericPrefix;
      raw := RNull;
      if AllDigits(Unsigned(token)) && INT64_MIN < IntegerOf(token) < INT64_MAX {
        ok, raw := true, RInt(IntegerOf(token));
      } else {
        ok := IsDecimalShape(token);
        if ok {
          raw := RDouble(token);
        }
      }
      Unwritten(buffer[..], from, p, limit, ok, raw, JsonText.ParseNumber(text));
    }

    /** The cases null, true and false, the pointer being just past the first character. */
    method ParseWord() returns (ok: bool, raw: Raw)
      requires Valid() && 0 < p && (buffer[p - 1] == 'n' || buffer[p - 1] == 't' || buffer[p - 1] == 'f')
      modifies this`p
      ensures Valid() && p >= old(p)
      ensures ValueParsed(JsonText.ParseValue(old(buffer[p - 1..limit])),
                          buffer[..], old(p), limit, buffer[..], p, ok, raw)
    {
      hide ValueParsed;
      ghost var text, from := buffer[p - 1..limit], p;
      assert text[1..] == Unread();
      var c := buffer[p - 1];
      if c == 'n' {
        ok := Expect("ull");
        raw := RNull;
      } else {
        raw := RBool(c == 't');
        ok := Expect(if c == 't' then "rue" else "alse");
      }
      Unwritten(buffer[..], from, p, limit, ok, raw, JsonText.ParseValue(text));
    }

    method ParseValue() returns (ok: bool, raw: Raw)
      requires Valid()
      modifies this`p, buffer
      ensures Valid() && p >= old(p) && (ok ==> p > old(p))
      ensures ValueParsed(JsonText.ParseValue(old(Unread())), old(buffer[..]), old(p), limit, buffer[..], p, ok, raw)
      decreases limit - p, 0
    {
      hide ValueParsed;
      hide StringParsed;
      hide JsonText.ParseItems;
      hide JsonText.ParseFields;
      hide JsonText.ParseString;
      hide JsonText.ParseNumber;
      hide Kept;
      ghost var before, from, whole := buffer[..], p, JsonText.ParseValue(Unread());
      raw := RNull;
      var c := SkipSpaces();
      if p == limit {
        Unwritten(before, from, p, limit, false, raw, whole);
        return false, raw;
      }
      ghost var t := Unread();
      c := Next();
      ghost var mid := p;
      assert buffer[p - 1..limit] == t;
      SkipsTwice(old(Unread()));
      if c == 'n' || c == 't' || c == 'f' {
        ok, raw := ParseWord();
      } else if c == '\"' {
        raw := RStr(p);
        ok := ParseString();
        StringIsValue(before, mid, limit, buffer[..], p, ok, JsonText.ParseString(t[1..], ""));
      } else if c == '{' {
        ok, raw := ParseFields();
      } else if c == '[' {
        ok, raw := ParseItems();
      } else if IsNumeric(c) {
        ok, raw := ParseNumber();
      } else {
        ok := false;
        Unwritten(before, mid, p, limit, ok, raw, whole);
      }
      FromEarlier(before, from, mid, limit, buffer[..], p, ok, raw, whole);
    }

    /** The array case; the pointer is just past the bracket. */
    method ParseItems() returns (ok: bool, raw: Raw)
      requires Valid()
      modifies this`p, buffer
      ensures Valid() && p >= old(p)
      ensures ValueParsed(JsonText.ParseItems(old(Unread()), []),
                          old(buffer[..]), old(p), limit, buffer[..], p, ok, raw)
      decreases limit - p, 1
    {
      hide Kept;
      hide ItemsBehind;
      hide ValueParsed;
      hide JsonText.ParseValue;
      ghost var before, from, whole := buffer[..], p, JsonText.ParseItems(Unread(), []);
      var items: seq<Raw> := [];
      NothingBehind(before, from);
      while true
        invariant Valid() && from <= p
        invariant ItemsBehind(before, from, buffer[..], p, items)
        invariant whole == JsonText.ParseItems(Unread(), ViewItems(buffer[..], items))
        decreases limit - p
      {
        ghost var now, p0 := buffer[..], p;
        var c := SkipSpaces();
        BehindMore(before, from, now, p0, p, items, []);
        if c == ']' {
          break;
        }
        if |items| > 0 {
          if c != ',' {
            ItemsDone(before, from, limit, now, p, items);
            return false, RArr(items);
          }
          p := p + 1;
          BehindMore(before, from, now, p0, p, items, []);
        }
        ghost var mid, expected := p, JsonText.ParseValue(Unread());
        var parsed, item := ParseValue();
        ItemParsed(before, from, now, mid, limit, buffer[..], p, parsed, items, item, expected);
        if !parsed {
          return false, RArr(items);
        }
        items := items + [item];
      }
      BehindMore(before, from, buffer[..], p, p + 1, items, []);
      assert Unread()[1..] == buffer[..][p + 1..limit];
      p := p + 1;
      ItemsDone(before, from, limit, buffer[..], p, items);
      ok, raw := true, RArr(items);
    }

    /** The object case; the pointer is just past the brace. */
    method ParseFields() returns (ok: bool, raw: Raw)
      requires Valid()
      modifies this`p, buffer
      ensures Valid() && p >= old(p)
      ensures ValueParsed(JsonText.ParseFields(old(Unread()), []),
                          old(buffer[..]), old(p), limit, buffer[..], p, ok, raw)
      decreases limit - p, 1
    {
      hide Kept;
      hide FieldsBehind;
      hide FieldParsed;
      hide ValueParsed;
      hide JsonText.ParseField;
      hide Put;
      ghost var before, from, whole := buffer[..], p, JsonText.ParseFields(Unread(), []);
      var fields: seq<RawField> := [];
      NothingBehind(before, from);
      while true
        invariant Valid() && from <= p
        invariant FieldsBehind(before, from, buffer[..], p, fields)
        invariant whole == JsonText.ParseFields(Unread(), ViewFields(buffer[..], fields))
        decreases limit - p
      {
        ghost var now, p0 := buffer[..], p;
        var c := SkipSpaces();
        BehindMore(before, from, now, p0, p, [], fields);
        if c == '}' {
          break;
        }
        if |fields| > 0 {
          if c != ',' {
            FieldsDone(before, from, limit, now, p, fields);
            return false, RObj(fields);
          }
          p := p + 1;
          BehindMore(before, from, now, p0, p, [], fields);
        }
        ghost var mid, expected := p, JsonText.ParseField(Unread());
        var parsed, field := ParseField();
        FieldsParsed(before, from, now, mid, limit, buffer[..], p, parsed, fields, field, expected);
        if !parsed {
          return false, RObj(fields);
        }
        fields := RawPut(buffer[..], fields, field.name, field.value);
      }
      BehindMore(before, from, buffer[..], p, p + 1, [], fields);
      assert Unread()[1..] == buffer[..][p + 1..limit];
      p := p + 1;
      FieldsDone(before, from, limit, buffer[..], p, fields);
      ok, raw := true, RObj(fields);
    }

    /** One key, colon and value. */
    method ParseField() returns (ok: bool, field: RawField)
      requires Valid()
      modifies this`p, buffer
      ensures Valid() && p >= old(p) && (ok ==> p > old(p))
      ensures FieldParsed(JsonText.ParseField(old(Unread())), old(buffer[..]), old(p), limit, buffer[..], p, ok, field)
      decreases limit - p, 0
    {
      hide FieldParsed;
      hide StringParsed;
      hide ValueParsed;
      hide Kept;
      hide JsonText.ParseValue;
      hide JsonText.ParseName;
      ghost var before, from := buffer[..], p;
      field := RawField(p, RNull);
      NothingKept(before, from);
      var c := SkipSpaces();
      ghost var t := Unread();
      NothingKept(before, p);
      if c != '\"' {
        FieldFails(before, from, limit, before, p, p, field);
        return false, field;
      }
      assert p < limit;
      p := p + 1;
      var name := p;
      ghost var parsedName := JsonText.ParseName(Unread(), "");
      ok := ParseName();
      ghost var named, afterName := buffer[..], p;
      NameKept(before, name, limit, named, afterName, ok, parsedName);
      if !ok {
        FieldFails(before, from, limit, named, name, p, field);
        return;
      }
      c := SkipSpaces();
      if c != ':' {
        KeptMore(before, named, name, afterName, p);
        FieldFails(before, from, limit, named, name, p, field);
        return false, field;
      }
      assert p < limit;
      p := p + 1;
      ghost var later, parsedValue := p, JsonText.ParseValue(Unread());
      var value;
      ok, value := ParseValue();
      FieldFrom(before, from, name, named, afterName, later, buffer[..], p, limit, ok, value, parsedName, parsedValue);
      field := RawField(name, value);
    }
  }
}

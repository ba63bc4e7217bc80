/** JSBuilder of debug/debug-adapter.c: a growing buffer, an indentation and a 64-bit word used as a stack of bits. */
module JsonBuilder {
  import opened JsonText

  const TWO_63: nat := 0x8000_0000_0000_0000
  const TWO_64: nat := 0x1_0000_0000_0000_0000

  // ---------------------------------------------------------------- the bit stack

  function Bit(b: bool): nat { if b then 1 else 0 }

  /** The number whose bits, lowest first, are the stack from its top down; it has no bound. */
  function Word(levels: seq<bool>): nat {
    if |levels| == 0 then 0 else 2 * Word(levels[..|levels| - 1]) + Bit(levels[|levels| - 1])
  }

  /** Pushing through a 64-bit shift keeps the stack exactly when the assertion in JSBuilder_push_nexts holds. */
  lemma PushKeepsTheStack(levels: seq<bool>)
    requires Word(levels) < TWO_64
    ensures (2 * Word(levels)) % TWO_64 == Word(levels + [false]) <==> Word(levels) < TWO_63
  {
    assert (levels + [false])[..|levels|] == levels;
  }

  lemma TopOf(levels: seq<bool>, top: bool)
    ensures Word(levels + [top]) == 2 * Word(levels) + Bit(top)
  {
    assert (levels + [top])[..|levels|] == levels;
  }

  // ---------------------------------------------------------------- which trees pass the assertion

  /** No assertion fails while the tree is written with `word` on the bit stack. */
  predicate Fits(word: nat, v: Value)
    decreases v, 1
  {
    match v
    case Arr(items) => word < TWO_63 && FitsItems(2 * word + 1, items)
    case Obj(fields) => word < TWO_63 && FitsFields(2 * word + 1, fields)
    case _ => true
  }

  predicate FitsItems(word: nat, items: seq<Value>)
    decreases items, 0
  {
    |items| > 0 ==> Fits(word, items[0]) && FitsItems(word, items[1..])
  }

  predicate FitsFields(word: nat, fields: seq<Field>)
    decreases fields, 0
  {
    |fields| > 0 ==> Fits(word, fields[0].value) && FitsFields(word, fields[1..])
  }

  /** The trees the builder has operations for. */
  predicate Printable(v: Value)
    decreases v, 1
  {
    match v
    case Int(n) => 0 <= n
    case Double(_) => false
    case Arr(items) => PrintableItems(items)
    case Obj(fields) => PrintableFields(fields)
    case _ => true
  }

  predicate PrintableItems(items: seq<Value>)
    decreases items, 0
  {
    |items| > 0 ==> Printable(items[0]) && PrintableItems(items[1..])
  }

  predicate PrintableFields(fields: seq<Field>)
    decreases fields, 0
  {
    |fields| > 0 ==> Printable(fields[0].value) && PrintableFields(fields[1..])
  }

  function Max(a: nat, b: nat): nat { if a < b then b else a }

  /** How deep arrays and objects nest. */
  function Depth(v: Value): nat
    decreases v, 1
  {
    match v
    case Arr(items) => 1 + DepthItems(items)
    case Obj(fields) => 1 + DepthFields(fields)
    case _ => 0
  }

  function DepthItems(items: seq<Value>): nat
    decreases items, 0
  {
    if |items| == 0 then 0 else Max(Depth(items[0]), DepthItems(items[1..]))
  }

  function DepthFields(fields: seq<Field>): nat
    decreases fields, 0
  {
    if |fields| == 0 then 0 else Max(Depth(fields[0].value), DepthFields(fields[1..]))
  }

  /** The stack after `n` levels, all but the root with an element already written. */
  function Ones(n: nat): nat { if n == 0 then 0 else 2 * Ones(n - 1) + 1 }

  lemma {:induction false} OnesBelow(n: nat)
    ensures Ones(n) < TWO_63 <==> n <= 63
    decreases n
  {
    if n <= 64 {
      SmallOnes();
      OnesGrow(n, if n <= 63 then 63 else 64);
    } else {
      OnesGrow(64, n);
      SmallOnes();
    }
  }

  lemma OneByteMore(n: nat)
    ensures Ones(n + 8) == 256 * Ones(n) + 255 && Ones(n + 8) == 2 * Ones(n + 7) + 1 && Ones(0) == 0
  {
    assert Ones(n + 2) == 4 * Ones(n) + 3;
    assert Ones(n + 4) == 16 * Ones(n) + 15;
    assert Ones(n + 6) == 64 * Ones(n) + 63;
  }

  lemma SmallOnes()
    ensures Ones(63) == 0x7FFF_FFFF_FFFF_FFFF && Ones(64) == 0xFFFF_FFFF_FFFF_FFFF
  {
    hide Ones;
    OneByteMore(0);
    OneByteMore(8);
    OneByteMore(16);
    OneByteMore(24);
    OneByteMore(32);
    OneByteMore(40);
    OneByteMore(48);
    OneByteMore(56);
  }

  lemma {:induction false} OnesGrow(m: nat, n: nat)
    requires m <= n
    ensures Ones(m) <= Ones(n)
    decreases n
  {
    if m < n {
      OnesGrow(m, n - 1);
    }
  }

  lemma {:induction false} FitsByDepth(level: nat, v: Value)
    ensures Fits(Ones(level), v) <==> level + Depth(v) <= 64 || Depth(v) == 0
    decreases v, 1
  {
    OnesBelow(level);
    match v
    case Arr(items) => FitsItemsByDepth(level + 1, items);
    case Obj(fields) => FitsFieldsByDepth(level + 1, fields);
    case _ =>
  }

  lemma {:induction false} FitsItemsByDepth(level: nat, items: seq<Value>)
    ensures FitsItems(Ones(level), items) <==> level + DepthItems(items) <= 64 || DepthItems(items) == 0
    decreases items, 0
  {
    if |items| > 0 {
      FitsByDepth(level, items[0]);
      FitsItemsByDepth(level, items[1..]);
    }
  }

  lemma {:induction false} FitsFieldsByDepth(level: nat, fields: seq<Field>)
    ensures FitsFields(Ones(level), fields) <==> level + DepthFields(fields) <= 64 || DepthFields(fields) == 0
    decreases fields, 0
  {
    if |fields| > 0 {
      FitsByDepth(level, fields[0].value);
      FitsFieldsByDepth(level, fields[1..]);
    }
  }

  /** A fresh builder writes a tree without a failing assertion exactly when it nests at most 64 deep. */
  lemma FitsExactly(v: Value)
    ensures Fits(0, v) <==> Depth(v) <= 64
  {
    FitsByDepth(0, v);
  }

  // ---------------------------------------------------------------- the builder

  class JSBuilder {
    var data: array<char>
    var length: nat
    var indent: int
    var nexts: nat
    ghost var levels: seq<bool>

    ghost predicate Valid()
      reads this
    {
      && length <= data.Length && 0 < data.Length
      && |levels| > 0 && indent == INDENT_STEP * (|levels| - 1)
      && nexts == Word(levels) < TWO_64
    }

    ghost function Written(): string
      requires Valid()
      reads this, data
    {
      data[..length]
    }

    constructor ()
      ensures Valid() && fresh(data) && Written() == "" && levels == [false] && nexts == 0 && indent == 0
    {
      indent, nexts, length := 0, 0, 0;
      data := new char[16 * 1024];
      levels := [false];
    }

    // Bit stack manipulations, with the indentation that goes along.

    method SetNext() returns (next: bool)
      requires Valid()
      modifies this`nexts, this`levels
      ensures Valid() && next == old(levels[|levels| - 1])
      ensures levels == old(levels[..|levels| - 1]) + [true]
    {
      next := nexts % 2 == 1;
      nexts := nexts / 2 * 2 + 1;
      levels := levels[..|levels| - 1] + [true];
      TopOf(levels[..|levels| - 1], true);
    }

    method Indent()
      requires Valid() && nexts < TWO_63
      modifies this`nexts, this`levels, this`indent
      ensures Valid() && levels == old(levels) + [false] && indent == old(indent) + INDENT_STEP
    {
      indent := indent + INDENT_STEP;
      nexts := (nexts * 2) % TWO_64;
      TopOf(levels, false);
      levels := levels + [false];
    }

    method Unindent()
      requires Valid() && |levels| > 1
      modifies this`nexts, this`levels, this`indent
      ensures Valid() && levels == old(levels[..|levels| - 1]) && indent == old(indent) - INDENT_STEP
    {
      indent := indent - INDENT_STEP;
      assert indent >= 0;
      nexts := nexts / 2;
      levels := levels[..|levels| - 1];
    }

    // Appending.

    method EnsureCapacity(size: nat)
      requires Valid()
      modifies this`data
      ensures Valid() && length + size <= data.Length && (data == old(data) || fresh(data))
      ensures Written() == old(Written())
    {
      var capacity := data.Length;
      var requiredCapacity := length + size;
      if requiredCapacity <= capacity {
        return;
      }
      while capacity < requiredCapacity
        invariant data.Length <= capacity
      {
        capacity := 2 * capacity;
      }
      var copy := new char[capacity];
      forall i | 0 <= i < length {
        copy[i] := data[i];
      }
      data := copy;
    }

    method Append(text: string)
      requires Valid()
      modifies this`data, this`length, data
      ensures Valid() && (data == old(data) || fresh(data)) && Written() == old(Written()) + text
    {
      EnsureCapacity(|text|);
      forall i | 0 <= i < |text| {
        data[length + i] := text[i];
      }
      length := length + |text|;
    }

    /** The loop of JSBuilder_write_quoted_text: runs of plain characters are copied whole. */
    method AppendEscaped(text: string)
      requires Valid()
      modifies this`data, this`length, data
      ensures Valid() && (data == old(data) || fresh(data)) && Written() == old(Written()) + Escape(text)
    {
      hide Escape;
      hide EscapeChar;
      hide Word;
      ghost var whole := Written() + Escape(text);
      var from := 0;
      while true
        invariant from <= |text| && Valid() && (data == old(data) || fresh(data))
        invariant whole == Written() + Escape(text[from..])
        decreases |text| - from
      {
        var p := PlainRun(text, from);
        Append(text[from..p]);
        assert whole == Written() + Escape(text[p..]);
        from := p;
        EscapeStep(text, from);
        if from == |text| {
          break;
        }
        Append(EscapeChar(text[from]));
        from := from + 1;
      }
      assert whole == Written();
    }

    method WriteQuotedText(text: string)
      requires Valid()
      modifies this`data, this`length, data
      ensures Valid() && (data == old(data) || fresh(data)) && Written() == old(Written()) + Quoted(text)
    {
      hide Escape;
      Append("\"");
      AppendEscaped(text);
      Append("\"");
      assert old(Written()) + Quoted(text) == old(Written()) + "\"" + Escape(text) + "\"";
    }

    // Structure.

    method NewLine()
      requires Valid()
      modifies this`data, this`length, data
      ensures Valid() && (data == old(data) || fresh(data)) && Written() == old(Written()) + Newline(indent)
    {
      Append(Newline(indent));
    }

    method Next()
      requires Valid()
      modifies this`data, this`length, this`nexts, this`levels, data
      ensures Valid() && (data == old(data) || fresh(data))
      ensures Written() == old(Written()) + Comma(!old(levels[|levels| - 1])) + Newline(indent)
      ensures levels == old(levels[..|levels| - 1]) + [true]
    {
      var next := SetNext();
      if next {
        Append(",");
      }
      NewLine();
    }

    method WriteField(name: string)
      requires Valid()
      modifies this`data, this`length, this`nexts, this`levels, data
      ensures Valid() && (data == old(data) || fresh(data))
      ensures Written() == old(Written()) + Comma(!old(levels[|levels| - 1])) + Newline(indent) + FieldStart(name)
      ensures levels == old(levels[..|levels| - 1]) + [true]
    {
      Next();
      AppendFieldStart(name);
    }

    method AppendFieldStart(name: string)
      requires Valid()
      modifies this`data, this`length, data
      ensures Valid() && (data == old(data) || fresh(data)) && Written() == old(Written()) + FieldStart(name)
    {
      hide Word;
      Append("\"");
      Append(name);
      Append("\"");
      Append(": ");
      assert "\"" + ": " == "\": ";
      Spread(old(Written()), "\"", name, "\"", ": ");
    }

    method StructureBegin(brace: char)
      requires Valid() && nexts < TWO_63
      modifies this, data
      ensures Valid() && (data == old(data) || fresh(data))
      ensures Written() == old(Written()) + [brace] && levels == old(levels) + [false]
    {
      Append([brace]);
      Indent();
    }

    method StructureEnd(brace: char)
      requires Valid() && |levels| > 1
      modifies this, data
      ensures Valid() && (data == old(data) || fresh(data)) && indent == old(indent) - INDENT_STEP
      ensures Written() == old(Written()) + (Newline(indent) + [brace]) && levels == old(levels[..|levels| - 1])
    {
      Unindent();
      NewLine();
      Append([brace]);
    }

    // Trees, written the way the request handlers drive the builder.

    method WriteValue(v: Value)
      requires Valid() && Printable(v) && Fits(nexts, v)
      modifies this, data
      ensures Valid() && (data == old(data) || fresh(data))
      ensures Written() == old(Written()) + Text(v, old(indent)) && levels == old(levels)
      decreases v, 1
    {
      hide Word;
      hide ItemsText;
      hide FieldsText;
      if v.Arr? {
        WriteArray(v.items);
      } else if v.Obj? {
        WriteObject(v.fields);
      } else {
        WriteLeaf(v);
      }
    }

    method WriteArray(items: seq<Value>)
      requires Valid() && PrintableItems(items) && Fits(nexts, Arr(items))
      modifies this, data
      ensures Valid() && (data == old(data) || fresh(data))
      ensures Written() == old(Written()) + Text(Arr(items), old(indent)) && levels == old(levels)
      decreases items, 1
    {
      hide Word;
      hide ItemsText;
      StructureBegin('[');
      TopOf(old(levels), true);
      WriteItems(items);
      StructureEnd(']');
      Bracketed(old(Written()), "[", ItemsText(items, old(indent) + INDENT_STEP, true), Newline(indent) + "]");
    }

    method WriteObject(fields: seq<Field>)
      requires Valid() && PrintableFields(fields) && Fits(nexts, Obj(fields))
      modifies this, data
      ensures Valid() && (data == old(data) || fresh(data))
      ensures Written() == old(Written()) + Text(Obj(fields), old(indent)) && levels == old(levels)
      decreases fields, 1
    {
      hide Word;
      hide FieldsText;
      StructureBegin('{');
      TopOf(old(levels), true);
      WriteFields(fields);
      StructureEnd('}');
      Bracketed(old(Written()), "{", FieldsText(fields, old(indent) + INDENT_STEP, true), Newline(indent) + "}");
    }

    method WriteLeaf(v: Value)
      requires Valid() && Printable(v) && !v.Arr? && !v.Obj?
      modifies this`data, this`length, data
      ensures Valid() && (data == old(data) || fresh(data)) && Written() == old(Written()) + Text(v, indent)
    {
      hide Word;
      match v
      case Null => Append("null");
      case Bool(b) => Append(if b then "true" else "false");
      case Int(n) => Append(Decimal(n));
      case Str(s) => WriteQuotedText(s);
    }

    method WriteItems(items: seq<Value>)
      requires Valid() && |levels| > 1 && !levels[|levels| - 1] && PrintableItems(items)
      requires FitsItems(Word(levels[..|levels| - 1] + [true]), items)
      modifies this, data
      ensures Valid() && (data == old(data) || fresh(data)) && |levels| == old(|levels|)
      ensures Written() == old(Written()) + ItemsText(items, old(indent), true)
      ensures levels[..|levels| - 1] == old(levels[..|levels| - 1])
      decreases items, 0
    {
      hide Word;
      hide Text;
      ghost var outer, whole := levels[..|levels| - 1], Written() + ItemsText(items, indent, true);
      for i := 0 to |items|
        invariant Valid() && (data == old(data) || fresh(data))
        invariant levels == outer + [i > 0]
        invariant whole == Written() + ItemsText(items[i..], indent, i == 0)
        invariant PrintableItems(items[i..]) && FitsItems(Word(outer + [true]), items[i..])
      {
        ghost var before, rest := Written(), ItemsText(items[i + 1..], indent, false);
        assert items[i..][0] == items[i] && items[i..][1..] == items[i + 1..];
        Next();
        WriteValue(items[i]);
        Spread(before, Comma(i == 0), Newline(indent), Text(items[i], indent), rest);
      }
      assert whole == Written();
    }

    method WriteFields(fields: seq<Field>)
      requires Valid() && |levels| > 1 && !levels[|levels| - 1] && PrintableFields(fields)
      requires FitsFields(Word(levels[..|levels| - 1] + [true]), fields)
      modifies this, data
      ensures Valid() && (data == old(data) || fresh(data)) && |levels| == old(|levels|)
      ensures Written() == old(Written()) + FieldsText(fields, old(indent), true)
      ensures levels[..|levels| - 1] == old(levels[..|levels| - 1])
      decreases fields, 0
    {
      hide Word;
      hide Text;
      hide FieldStart;
      ghost var outer, whole := levels[..|levels| - 1], Written() + FieldsText(fields, indent, true);
      for i := 0 to |fields|
        invariant Valid() && (data == old(data) || fresh(data))
        invariant levels == outer + [i > 0]
        invariant whole == Written() + FieldsText(fields[i..], indent, i == 0)
        invariant PrintableFields(fields[i..]) && FitsFields(Word(outer + [true]), fields[i..])
      {
        ghost var before, rest := Written(), FieldsText(fields[i + 1..], indent, false);
        var Field(name, value) := fields[i];
        assert fields[i..][0] == fields[i] && fields[i..][1..] == fields[i + 1..];
        WriteField(name);
        WriteValue(value);
        SpreadField(before, Comma(i == 0), Newline(indent), FieldStart(name), Text(value, indent), rest);
      }
      assert whole == Written();
    }
  }

  lemma Bracketed(before: string, open: string, inner: string, close: string)
    ensures before + open + inner + close == before + (open + (inner + close))
  {
  }

  lemma Spread(a: string, b: string, c: string, d: string, e: string)
    ensures a + b + c + d + e == a + (b + (c + (d + e)))
  {
  }

  lemma SpreadField(a: string, b: string, c: string, d: string, e: string, f: string)
    ensures a + b + c + d + e + f == a + (b + (c + (d + (e + f))))
  {
  }

  lemma EscapeStep(text: string, from: nat)
    requires from <= |text|
    ensures text[0..] == text
    ensures Escape(text[from..]) == if from == |text| then "" else EscapeChar(text[from]) + Escape(text[from + 1..])
  {
  }

  /** The end of the longest run of characters that need no escape. */
  method PlainRun(text: string, from: nat) returns (p: nat)
    requires from <= |text|
    ensures from <= p <= |text| && Escape(text[from..]) == text[from..p] + Escape(text[p..])
    ensures p < |text| ==> text[p] < ' ' || text[p] == '\"' || text[p] == '\\'
  {
    hide Escape;
    p := from;
    while p < |text| && text[p] >= ' ' && text[p] != '\"' && text[p] != '\\'
      invariant from <= p <= |text|
      invariant Escape(text[from..]) == text[from..p] + Escape(text[p..])
    {
      EscapeStep(text, p);
      assert text[from..p + 1] == text[from..p] + EscapeChar(text[p]);
      p := p + 1;
    }
  }
}

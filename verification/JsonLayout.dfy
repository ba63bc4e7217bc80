/** The texts that the parser of debug/debug-adapter.c accepts, in every layout, and what each of them stands for. */
module JsonLayout {
  import opened Options
  import opened JsonText

  // ---------------------------------------------------------------- spellings

  /** A character of a string as it stands, or a backslash and a letter. */
  datatype Piece = Raw(c: char) | Escaped(letter: char)

  datatype Exponent = Exponent(letter: char, sign: string, digits: string)
  datatype Number = Number(sign: string, whole: string, fraction: Option<string>, exponent: Option<Exponent>)

  /**
   * A value as somebody may write it: a tree with the white space of every gap. `comma` is the gap in front of a comma
   * (nothing for the first element), `before` the one behind it; the last gap of an array or object is before its end.
   */
  datatype Doc =
    | DNull
    | DBool(b: bool)
    | DNum(n: Number)
    | DStr(pieces: seq<Piece>)
    | DArr(items: seq<Item>, gap: string)
    | DObj(members: seq<Member>, gap: string)

  datatype Item = Item(comma: string, before: string, doc: Doc)
  datatype Member = Member(comma: string, before: string, name: string, colon: string, after: string, doc: Doc)

  const GAP_CHARS := {' ', '\t', '\n', '\U{000B}', '\U{000C}', '\r'}

  predicate IsGap(s: string) { forall c :: c in s ==> c in GAP_CHARS }

  const ESCAPES: map<char, char> :=
    map['\"' := '\"', '\\' := '\\', '/' := '/', 'b' := '\U{0008}', 'f' := '\U{000C}', 'n' := '\U{000A}',
        'r' := '\U{000D}', 't' := '\U{0009}']

  predicate GoodPiece(p: Piece) {
    match p
    case Raw(c) => c >= ' ' && c != '\"' && c != '\\'
    case Escaped(letter) => letter in ESCAPES
  }

  predicate Digits(s: string) { forall i :: 0 <= i < |s| ==> '0' <= s[i] <= '9' }
  predicate IsSign(s: string) { s == "" || s == "-" || s == "+" }

  predicate GoodNumber(n: Number) {
    && IsSign(n.sign) && Digits(n.whole)
    && (n.fraction.Some? ==> Digits(n.fraction.value))
    && |n.whole| + (if n.fraction.Some? then |n.fraction.value| else 0) > 0
    && (n.exponent.Some? ==>
          var e := n.exponent.value;
          (e.letter == 'e' || e.letter == 'E') && IsSign(e.sign) && |e.digits| > 0 && Digits(e.digits))
  }

  predicate Good(d: Doc)
    decreases d, 1
  {
    match d
    case DNum(n) => GoodNumber(n)
    case DStr(pieces) => forall p :: p in pieces ==> GoodPiece(p)
    case DArr(items, gap) => GoodItems(items, true) && IsGap(gap)
    case DObj(members, gap) => GoodMembers(members, true) && IsGap(gap)
    case _ => true
  }

  predicate GoodItems(items: seq<Item>, first: bool)
    decreases items, 0
  {
    |items| > 0 ==>
      && IsGap(items[0].comma) && IsGap(items[0].before) && (first ==> items[0].comma == "") && Good(items[0].doc)
      && GoodItems(items[1..], false)
  }

  predicate GoodMembers(members: seq<Member>, first: bool)
    decreases members, 0
  {
    |members| > 0 ==>
      && IsGap(members[0].comma) && IsGap(members[0].before) && (first ==> members[0].comma == "")
      && '\"' !in members[0].name && '\0' !in members[0].name
      && IsGap(members[0].colon) && IsGap(members[0].after) && Good(members[0].doc)
      && GoodMembers(members[1..], false)
  }

  // ---------------------------------------------------------------- their texts

  function PieceText(p: Piece): string { match p case Raw(c) => [c] case Escaped(letter) => ['\\', letter] }

  function PiecesText(pieces: seq<Piece>): string {
    if |pieces| == 0 then "" else PieceText(pieces[0]) + PiecesText(pieces[1..])
  }

  function MantissaText(n: Number): string {
    n.whole + if n.fraction.Some? then "." + n.fraction.value else ""
  }

  function ExponentText(n: Number): string {
    if n.exponent.Some? then [n.exponent.value.letter] + (n.exponent.value.sign + n.exponent.value.digits) else ""
  }

  function NumberText(n: Number): string { n.sign + MantissaText(n) + ExponentText(n) }

  function TextOf(d: Doc): string
    decreases d, 1
  {
    match d
    case DNull => "null"
    case DBool(b) => if b then "true" else "false"
    case DNum(n) => NumberText(n)
    case DStr(pieces) => "\"" + (PiecesText(pieces) + "\"")
    case DArr(items, gap) => "[" + (ItemsText(items, true) + (gap + "]"))
    case DObj(members, gap) => "{" + (MembersText(members, true) + (gap + "}"))
  }

  function Separator(comma: string, before: string, first: bool): string {
    if first then before else comma + ("," + before)
  }

  function ItemsText(items: seq<Item>, first: bool): string
    decreases items, 0
  {
    if |items| == 0 then ""
    else Separator(items[0].comma, items[0].before, first) + (TextOf(items[0].doc) + ItemsText(items[1..], false))
  }

  function NameText(m: Member): string { "\"" + (m.name + ("\"" + (m.colon + (":" + m.after)))) }

  function MembersText(members: seq<Member>, first: bool): string
    decreases members, 0
  {
    if |members| == 0 then ""
    else
      Separator(members[0].comma, members[0].before, first) +
      (NameText(members[0]) + (TextOf(members[0].doc) + MembersText(members[1..], false)))
  }

  // ---------------------------------------------------------------- what they stand for

  function PiecesValue(pieces: seq<Piece>): string
    requires forall p :: p in pieces ==> GoodPiece(p)
  {
    if |pieces| == 0 then "" else assert pieces[0] in pieces; [PieceValue(pieces[0])] + PiecesValue(pieces[1..])
  }

  function PieceValue(p: Piece): char
    requires GoodPiece(p)
  {
    match p case Raw(c) => c case Escaped(letter) => ESCAPES[letter]
  }

  /** An integer strictly between the bounds of strtoll; any other number is a double, kept as it is written. */
  function NumberValue(n: Number): Value {
    var i := if n.sign == "-" then -DigitsValue(n.whole) else DigitsValue(n.whole);
    if n.fraction.None? && n.exponent.None? && INT64_MIN < i < INT64_MAX then Int(i) else Double(NumberText(n))
  }

  function ValueOf(d: Doc): Value
    requires Good(d)
    decreases d, 1
  {
    match d
    case DNull => Null
    case DBool(b) => Bool(b)
    case DNum(n) => NumberValue(n)
    case DStr(pieces) => Str(PiecesValue(pieces))
    case DArr(items, _) => Arr(ItemValues(items, true))
    case DObj(members, _) => Obj(MemberFields(members, true, []))
  }

  function ItemValues(items: seq<Item>, first: bool): seq<Value>
    requires GoodItems(items, first)
    decreases items, 0
  {
    if |items| == 0 then [] else [ValueOf(items[0].doc)] + ItemValues(items[1..], false)
  }

  /** Each member in turn is put onto the object's list of fields. */
  function MemberFields(members: seq<Member>, first: bool, list: seq<Field>): seq<Field>
    requires GoodMembers(members, first)
    decreases members, 0
  {
    if |members| == 0 then list
    else MemberFields(members[1..], false, Put(list, members[0].name, ValueOf(members[0].doc)))
  }

  /** The text starts with the spelling of the value, behind a gap; a number must end there. */
  ghost predicate Spells(text: string, gap: string, d: Doc, v: Value, rest: string) {
    && IsGap(gap) && Good(d) && text == gap + (TextOf(d) + rest) && v == ValueOf(d)
    && (d.DNum? ==> Delimited(rest))
  }

  /** Nothing that could continue a number. */
  predicate Delimited(rest: string) { |rest| > 0 ==> !IsNumeric(rest[0]) }

  // ---------------------------------------------------------------- gaps and tokens

  lemma {:induction false} SkipsGap(gap: string, t: string)
    requires IsGap(gap) && (|t| > 0 ==> !IsSpace(t[0]))
    ensures SkipSpaces(gap + t) == t
    decreases |gap|
  {
    if |gap| == 0 {
      assert gap + t == t;
    } else {
      assert (gap + t)[1..] == gap[1..] + t && gap[0] in gap;
      SkipsGap(gap[1..], t);
    }
  }

  lemma Assoc<T>(a: seq<T>, b: seq<T>, c: seq<T>)
    ensures a + b + c == a + (b + c)
  {
  }

  lemma NoGap(t: string)
    requires |t| > 0 ==> !IsSpace(t[0])
    ensures SkipSpaces(t) == t
  {
  }

  lemma ReadsPiece(p: Piece, more: string, done: string)
    requires GoodPiece(p)
    ensures ParseString(PieceText(p) + more, done) == ParseString(more, done + [PieceValue(p)])
  {
    var t := PieceText(p) + more;
    assert t[|PieceText(p)|..] == more;
    if p.Escaped? {
      assert Peek(t[1..]) == p.letter;
    }
  }

  lemma {:induction false} ReadsPieces(pieces: seq<Piece>, done: string, rest: string)
    requires forall p :: p in pieces ==> GoodPiece(p)
    ensures ParseString(PiecesText(pieces) + ("\"" + rest), done) == Ok(done + PiecesValue(pieces), rest)
    decreases |pieces|
  {
    hide GoodPiece;
    hide PieceValue;
    hide PieceText;
    var tail := "\"" + rest;
    if |pieces| == 0 {
      assert PiecesText(pieces) + tail == tail && tail[1..] == rest && done + "" == done;
    } else {
      assert pieces[0] in pieces;
      hide ParseString;
      var c, more := PieceValue(pieces[0]), PiecesText(pieces[1..]) + tail;
      ReadsPiece(pieces[0], more, done);
      ReadsPieces(pieces[1..], done + [c], rest);
      Assoc(PieceText(pieces[0]), PiecesText(pieces[1..]), tail);
      Assoc(done, [c], PiecesValue(pieces[1..]));
    }
  }

  lemma {:induction false} ReadsName(name: string, done: string, rest: string)
    requires '\"' !in name && '\0' !in name
    ensures ParseName(name + ("\"" + rest), done) == Ok(done + name, rest)
    decreases |name|
  {
    var text := name + ("\"" + rest);
    if |name| == 0 {
      assert text[1..] == rest && done + name == done;
    } else {
      assert text[1..] == name[1..] + ("\"" + rest);
      ReadsName(name[1..], done + [name[0]], rest);
      assert done + [name[0]] + name[1..] == done + name;
    }
  }

  // ---------------------------------------------------------------- numbers

  lemma {:induction false} TakesNumeric(s: string, rest: string)
    requires (forall i :: 0 <= i < |s| ==> IsNumeric(s[i])) && Delimited(rest)
    ensures NumericPrefix(s + rest) == |s|
  {
    if |s| == 0 {
      assert s + rest == rest;
    } else {
      assert (s + rest)[1..] == s[1..] + rest;
      TakesNumeric(s[1..], rest);
    }
  }

  lemma NumberIsNumeric(n: Number)
    requires GoodNumber(n)
    ensures |NumberText(n)| > 0 && forall i :: 0 <= i < |NumberText(n)| ==> IsNumeric(NumberText(n)[i])
  {
    assert forall i :: 0 <= i < |MantissaText(n)| ==> IsNumeric(MantissaText(n)[i]);
    assert forall i :: 0 <= i < |ExponentText(n)| ==> IsNumeric(ExponentText(n)[i]);
  }

  lemma UnsignedMantissa(sign: string, digits: string)
    requires IsSign(sign) && |digits| > 0 && digits[0] != '-' && digits[0] != '+'
    ensures Unsigned(sign + digits) == digits
  {
  }

  lemma MantissaShape(n: Number)
    requires GoodNumber(n)
    ensures var m := MantissaText(n);
      |m| > 0 && m[0] != '-' && m[0] != '+' && IsMantissa(m) && (AllDigits(m) <==> n.fraction.None?)
  {
    var m := MantissaText(n);
    if n.fraction.Some? {
      var d := |n.whole|;
      assert m[d] == '.' && m[..d] == n.whole && m[d + 1..] == n.fraction.value;
      assert AllDigits(m[..d] + m[d + 1..]);
    } else {
      assert m == n.whole;
    }
  }

  lemma ExponentShape(n: Number)
    requires GoodNumber(n)
    ensures n.exponent.Some? ==> IsExponent(ExponentText(n))
  {
    if n.exponent.Some? {
      var x := n.exponent.value;
      assert ExponentText(n)[1..] == x.sign + x.digits;
      UnsignedMantissa(x.sign, x.digits);
    }
  }

  lemma ShapeFrom(token: string, e: nat)
    requires e <= |token| && IsMantissa(Unsigned(token[..e])) && (e == |token| || IsExponent(token[e..]))
    ensures IsDecimalShape(token)
  {
    hide IsMantissa;
    hide IsExponent;
    hide Unsigned;
  }

  lemma DecimalShape(n: Number)
    requires GoodNumber(n)
    ensures IsDecimalShape(NumberText(n))
  {
    hide IsMantissa;
    hide IsExponent;
    hide IsDecimalShape;
    hide MantissaText;
    var token, e := NumberText(n), |n.sign| + |MantissaText(n)|;
    MantissaShape(n);
    ExponentShape(n);
    UnsignedMantissa(n.sign, MantissaText(n));
    assert token[..e] == n.sign + MantissaText(n) && token[e..] == ExponentText(n);
    ShapeFrom(token, e);
  }

  lemma IntegerShape(n: Number)
    requires GoodNumber(n)
    ensures var token := NumberText(n);
      && (AllDigits(Unsigned(token)) <==> n.fraction.None? && n.exponent.None?)
      && (AllDigits(Unsigned(token)) ==>
            IntegerOf(token) == if n.sign == "-" then -DigitsValue(n.whole) else DigitsValue(n.whole))
  {
    hide DigitsValue;
    var token, m, x := NumberText(n), MantissaText(n), ExponentText(n);
    MantissaShape(n);
    assert token == n.sign + (m + x);
    UnsignedMantissa(n.sign, m + x);
    if n.exponent.Some? {
      assert (m + x)[|m|] == n.exponent.value.letter;
    } else {
      assert m + x == m;
      if n.fraction.None? {
        assert m == n.whole && token == n.sign + m;
        if n.sign == "-" {
          assert token[1..] == m;
        }
      }
    }
  }

  lemma TokenParsed(token: string, rest: string)
    requires |token| > 0 && (forall i :: 0 <= i < |token| ==> IsNumeric(token[i])) && Delimited(rest)
    requires IsDecimalShape(token)
    ensures ParseNumber(token + rest)
         == Ok(if AllDigits(Unsigned(token)) && INT64_MIN < IntegerOf(token) < INT64_MAX then Int(IntegerOf(token))
               else Double(token), rest)
  {
    hide IsDecimalShape;
    hide AllDigits;
    hide IntegerOf;
    hide Unsigned;
    hide NumericPrefix;
    TakesNumeric(token, rest);
    assert (token + rest)[..|token|] == token && (token + rest)[|token|..] == rest;
  }

  lemma ReadsNumber(n: Number, rest: string)
    requires GoodNumber(n) && Delimited(rest)
    ensures |NumberText(n)| > 0 && IsNumeric(NumberText(n)[0])
    ensures ParseNumber(NumberText(n) + rest) == Ok(NumberValue(n), rest)
  {
    hide IsDecimalShape;
    hide AllDigits;
    hide IntegerOf;
    hide Unsigned;
    hide DigitsValue;
    hide GoodNumber;
    hide NumberText;
    hide ParseNumber;
    NumberIsNumeric(n);
    DecimalShape(n);
    IntegerShape(n);
    TokenParsed(NumberText(n), rest);
  }

  // ---------------------------------------------------------------- every layout is read

  lemma TextStarts(d: Doc)
    requires Good(d)
    ensures var t := TextOf(d); |t| > 0 && !IsSpace(t[0]) && t[0] != ']' && t[0] != '}'
  {
    hide ItemsText;
    hide MembersText;
    hide NumberText;
    if d.DNum? {
      NumberIsNumeric(d.n);
    }
  }

  lemma GapBefore(gap: string, t: string)
    requires IsGap(gap) && |t| > 0 && !IsSpace(t[0])
    ensures ParseValue(gap + t) == ParseValue(t) && ParseField(gap + t) == ParseField(t)
  {
    hide ParseItems;
    hide ParseFields;
    hide ParseNumber;
    hide ParseString;
    hide ParseName;
    hide Expect;
    SkipsGap(gap, t);
    NoGap(t);
  }

  lemma ReadsLeaf(d: Doc, rest: string)
    requires Good(d) && (d.DNum? ==> Delimited(rest)) && !d.DArr? && !d.DObj?
    ensures ParseValue(TextOf(d) + rest) == Ok(ValueOf(d), rest)
  {
    hide ParseItems;
    hide ParseFields;
    hide ParseNumber;
    hide ParseString;
    hide PiecesText;
    hide NumberText;
    hide NumberValue;
    hide GoodPiece;
    hide GoodNumber;
    hide SkipSpaces;
    hide Expect;
    var t := TextOf(d) + rest;
    TextStarts(d);
    NoGap(t);
    match d
    case DNull =>
      ExpectsWord('n', "ull", rest, Null);
      assert "n" + "ull" == "null";
    case DBool(true) =>
      ExpectsWord('t', "rue", rest, Bool(true));
      assert "t" + "rue" == "true";
    case DBool(false) =>
      ExpectsWord('f', "alse", rest, Bool(false));
      assert "f" + "alse" == "false";
    case DNum(n) => ReadsNumber(n, rest);
    case DStr(pieces) =>
      ReadsPieces(pieces, "", rest);
      Assoc("\"", PiecesText(pieces) + "\"", rest);
      Assoc(PiecesText(pieces), "\"", rest);
      DropFirst('\"', PiecesText(pieces) + ("\"" + rest));
      assert "" + PiecesValue(pieces) == PiecesValue(pieces);
  }

  lemma DropFirst(c: char, t: string)
    ensures ([c] + t)[1..] == t
  {
  }

  lemma ExpectsWord(first: char, word: string, rest: string, v: Value)
    ensures ([first] + word + rest)[0] == first && ([first] + word + rest)[1..] == word + rest
    ensures Expect(word + rest, word, v) == Ok(v, rest)
  {
    assert (word + rest)[|word|..] == rest;
  }

  lemma OpensContainer(t: string)
    ensures ParseValue("[" + t) == ParseItems(t, []) && ParseValue("{" + t) == ParseFields(t, [])
  {
    hide ParseItems;
    hide ParseFields;
    NoGap("[" + t);
    NoGap("{" + t);
    assert ("[" + t)[1..] == t && ("{" + t)[1..] == t;
  }

  /** Every spelling of a value, behind any gap and before any text that does not continue a number, is read as it. */
  lemma {:induction false} ReadsLayout(gap: string, d: Doc, rest: string)
    requires IsGap(gap) && Good(d) && (d.DNum? ==> Delimited(rest))
    ensures ParseValue(gap + (TextOf(d) + rest)) == Ok(ValueOf(d), rest)
    decreases d, 1
  {
    hide ParseValue;
    hide ParseItems;
    hide ParseFields;
    hide ItemsText;
    hide MembersText;
    hide ItemValues;
    hide MemberFields;
    TextStarts(d);
    GapBefore(gap, TextOf(d) + rest);
    match d
    case DArr(items, inner) =>
      var body := ItemsText(items, true) + (inner + ("]" + rest));
      Around("[", ItemsText(items, true), inner, "]", rest);
      OpensContainer(body);
      ReadsItems(items, [], inner, rest);
      assert [] + ItemValues(items, true) == ItemValues(items, true);
    case DObj(members, inner) =>
      var body := MembersText(members, true) + (inner + ("}" + rest));
      Around("{", MembersText(members, true), inner, "}", rest);
      OpensContainer(body);
      ReadsMembers(members, [], inner, true, rest);
    case _ => ReadsLeaf(d, rest);
  }

  lemma ItemStep(comma: string, before: string, first: string, others: string, done: seq<Value>, v: Value)
    requires IsGap(comma) && IsGap(before) && |first| > 0 && !IsSpace(first[0]) && first[0] != ']'
    requires ParseValue(before + (first + others)) == Ok(v, others)
    ensures ParseItems(Separator(comma, before, |done| == 0) + (first + others), done)
         == ParseItems(others, done + [v])
  {
    hide ParseValue;
    var t := first + others;
    if |done| == 0 {
      SkipsGap(before, t);
      GapBefore(before, t);
    } else {
      assert Separator(comma, before, false) + t == comma + ("," + (before + t));
      SkipsGap(comma, "," + (before + t));
      assert ("," + (before + t))[1..] == before + t;
    }
  }

  lemma ClosedIsDelimited(first: string, gap: string, close: char, rest: string)
    requires IsGap(gap) && (close == ']' || close == '}')
    requires |first| > 0 ==> !IsNumeric(first[0])
    ensures Delimited(first + (gap + ([close] + rest)))
  {
    if |first| == 0 && |gap| > 0 {
      assert gap[0] in gap;
    }
  }

  lemma LaterStarts(items: seq<Item>, members: seq<Member>)
    requires GoodItems(items, false) && GoodMembers(members, false)
    ensures |ItemsText(items, false)| > 0 ==> !IsNumeric(ItemsText(items, false)[0])
    ensures |MembersText(members, false)| > 0 ==> !IsNumeric(MembersText(members, false)[0])
  {
    hide TextOf;
    hide Good;
    hide NameText;
    if |items| > 0 && |items[0].comma| > 0 {
      assert items[0].comma[0] in items[0].comma;
    }
    if |members| > 0 && |members[0].comma| > 0 {
      assert members[0].comma[0] in members[0].comma;
    }
  }

  lemma {:induction false} ReadsItems(items: seq<Item>, done: seq<Value>, gap: string, rest: string)
    requires GoodItems(items, |done| == 0) && IsGap(gap)
    ensures ParseItems(ItemsText(items, |done| == 0) + (gap + ("]" + rest)), done)
         == Ok(Arr(done + ItemValues(items, |done| == 0)), rest)
    decreases items, 0
  {
    hide ParseValue;
    hide TextOf;
    hide ValueOf;
    hide Good;
    hide Separator;
    var close := gap + ("]" + rest);
    var text := ItemsText(items, |done| == 0) + close;
    if |items| == 0 {
      assert text == close;
      SkipsGap(gap, "]" + rest);
      assert done + [] == done;
    } else {
      hide ParseItems;
      var i, v := items[0], ValueOf(items[0].doc);
      var first, others := TextOf(i.doc), ItemsText(items[1..], false) + close;
      Regroup(Separator(i.comma, i.before, |done| == 0), "", first, ItemsText(items[1..], false), close);
      assert "" + first == first && "" + (first + ItemsText(items[1..], false)) == first + ItemsText(items[1..], false);
      TextStarts(i.doc);
      LaterStarts(items[1..], []);
      ClosedIsDelimited(ItemsText(items[1..], false), gap, ']', rest);
      ReadsLayout(i.before, i.doc, others);
      ItemStep(i.comma, i.before, first, others, done, v);
      ReadsItems(items[1..], done + [v], gap, rest);
      Assoc(done, [v], ItemValues(items[1..], false));
    }
  }

  lemma ReadsMember(m: Member, others: string, v: Value)
    requires IsGap(m.before) && IsGap(m.colon) && IsGap(m.after) && '\"' !in m.name && '\0' !in m.name
    requires ParseValue(m.after + (TextOf(m.doc) + others)) == Ok(v, others)
    ensures ParseField(m.before + (NameText(m) + (TextOf(m.doc) + others))) == Ok(Field(m.name, v), others)
  {
    hide ParseName;
    hide ParseValue;
    hide TextOf;
    var value := m.after + (TextOf(m.doc) + others);
    var afterName := m.colon + (":" + value);
    var t := "\"" + (m.name + ("\"" + afterName));
    assert NameText(m) + (TextOf(m.doc) + others) == t;
    GapBefore(m.before, t);
    NoGap(t);
    assert t[1..] == m.name + ("\"" + afterName);
    ReadsName(m.name, "", afterName);
    assert "" + m.name == m.name;
    SkipsGap(m.colon, ":" + value);
    assert (":" + value)[1..] == value;
  }

  lemma MemberStep(comma: string, before: string, first: string, others: string, done: seq<Field>, n: bool, f: Field)
    requires IsGap(comma) && IsGap(before) && |first| > 0 && first[0] == '\"' && (n <==> |done| == 0)
    requires ParseField(before + (first + others)) == Ok(f, others)
    ensures ParseFields(Separator(comma, before, n) + (first + others), done)
         == ParseFields(others, Put(done, f.name, f.value))
  {
    hide ParseField;
    hide Put;
    var t := first + others;
    if n {
      SkipsGap(before, t);
      GapBefore(before, t);
    } else {
      assert Separator(comma, before, false) + t == comma + ("," + (before + t));
      SkipsGap(comma, "," + (before + t));
      assert ("," + (before + t))[1..] == before + t;
    }
  }

  lemma {:induction false} ReadsMembers(members: seq<Member>, done: seq<Field>, gap: string, n: bool, rest: string)
    requires GoodMembers(members, n) && IsGap(gap) && (n <==> |done| == 0)
    ensures ParseFields(MembersText(members, n) + (gap + ("}" + rest)), done)
         == Ok(Obj(MemberFields(members, n, done)), rest)
    decreases members, 0
  {
    hide ParseField;
    hide TextOf;
    hide ValueOf;
    hide Good;
    hide Separator;
    hide NameText;
    hide Put;
    var close := gap + ("}" + rest);
    var text := MembersText(members, n) + close;
    if |members| == 0 {
      assert text == close;
      SkipsGap(gap, "}" + rest);
    } else {
      hide ParseFields;
      var m, v := members[0], ValueOf(members[0].doc);
      var value, others := TextOf(m.doc), MembersText(members[1..], false) + close;
      var first := NameText(m) + value;
      Regroup(Separator(m.comma, m.before, n), NameText(m), value, MembersText(members[1..], false), close);
      LaterStarts([], members[1..]);
      ClosedIsDelimited(MembersText(members[1..], false), gap, '}', rest);
      ReadsLayout(m.after, m.doc, others);
      ReadsMember(m, others, v);
      NameStarts(m);
      Regroup(m.before, NameText(m), value, others, "");
      MemberStep(m.comma, m.before, first, others, done, n, Field(m.name, v));
      ReadsMembers(members[1..], Put(done, m.name, v), gap, false, rest);
    }
  }

  lemma Regroup(a: string, b: string, c: string, d: string, e: string)
    ensures a + (b + (c + d)) + e == a + (b + c + (d + e)) && d + "" == d
    ensures a + (b + (c + d)) == a + (b + c + d)
  {
    assert a + (b + (c + d)) == a + (b + c + d);
  }

  lemma NameStarts(m: Member)
    ensures |NameText(m)| > 0 && NameText(m)[0] == '\"'
  {
  }

  // ---------------------------------------------------------------- nothing else is read

  lemma {:induction false} SkippedIsGap(text: string) returns (gap: string)
    ensures IsGap(gap) && text == gap + SkipSpaces(text)
    ensures |SkipSpaces(text)| > 0 ==> !IsSpace(SkipSpaces(text)[0])
    decreases |text|
  {
    gap := "";
    if |text| > 0 && IsSpace(text[0]) {
      gap := SkippedIsGap(text[1..]);
      assert text == [text[0]] + text[1..];
      gap := [text[0]] + gap;
    }
  }

  /** The first piece of a string that the parser takes. */
  lemma FirstPiece(text: string, done: string) returns (p: Piece, more: string)
    requires ParseString(text, done).Ok? && !StartsQuoted(text)
    ensures GoodPiece(p) && text == PieceText(p) + more && |more| < |text|
    ensures ParseString(text, done) == ParseString(more, done + [PieceValue(p)])
  {
    if text[0] == '\\' {
      p, more := Escaped(text[1]), text[2..];
    } else {
      p, more := Raw(text[0]), text[1..];
    }
    assert text == PieceText(p) + more;
  }

  lemma {:induction false} StringIsSpelled(text: string, done: string) returns (pieces: seq<Piece>)
    requires ParseString(text, done).Ok?
    ensures forall p :: p in pieces ==> GoodPiece(p)
    ensures text == PiecesText(pieces) + ("\"" + ParseString(text, done).rest)
    ensures ParseString(text, done).value == done + PiecesValue(pieces)
    decreases |text|
  {
    hide ParseString;
    hide GoodPiece;
    hide PieceText;
    hide PieceValue;
    if StartsQuoted(text) {
      QuoteEnds(text, done);
      pieces := [];
    } else {
      var p, more := FirstPiece(text, done);
      var others := StringIsSpelled(more, done + [PieceValue(p)]);
      pieces := [p] + others;
      assert pieces[1..] == others;
      Assoc(done, [PieceValue(p)], PiecesValue(others));
      Assoc(PieceText(p), PiecesText(others), "\"" + ParseString(text, done).rest);
    }
  }

  predicate StartsQuoted(text: string) { |text| > 0 && text[0] == '\"' }

  lemma QuoteEnds(text: string, done: string)
    requires StartsQuoted(text)
    ensures ParseString(text, done) == Ok(done, text[1..]) && text == "" + ("\"" + text[1..]) && done + "" == done
  {
  }

  lemma {:induction false} NameIsSpelled(text: string, done: string) returns (name: string)
    requires ParseName(text, done).Ok?
    ensures '\"' !in name && '\0' !in name && text == name + ("\"" + ParseName(text, done).rest)
    ensures ParseName(text, done).value == done + name
    decreases |text|
  {
    name := "";
    if text[0] == '\"' {
      assert text == "\"" + text[1..];
    } else {
      var others := NameIsSpelled(text[1..], done + [text[0]]);
      name := [text[0]] + others;
      assert text == [text[0]] + text[1..];
      assert done + [text[0]] + others == done + name;
    }
  }

  lemma SplitSign(s: string) returns (sign: string)
    ensures IsSign(sign) && s == sign + Unsigned(s)
  {
    sign := s[..|s| - |Unsigned(s)|];
  }

  lemma {:induction false} SplitDigits(a: string, b: string)
    requires Digits(a + b)
    ensures Digits(a) && Digits(b)
  {
    assert forall i :: 0 <= i < |a| ==> a[i] == (a + b)[i];
    assert forall i :: 0 <= i < |b| ==> b[i] == (a + b)[|a| + i];
  }

  lemma PointIsSpelled(m: string, d: nat)
    requires d < |m| && m[d] == '.'
    ensures m == m[..d] + ("." + m[d + 1..])
  {
  }

  lemma MantissaIsSpelled(m: string) returns (whole: string, fraction: Option<string>)
    requires IsMantissa(m)
    ensures m == whole + if fraction.Some? then "." + fraction.value else ""
    ensures Digits(whole) && (fraction.Some? ==> Digits(fraction.value))
    ensures |whole| + (if fraction.Some? then |fraction.value| else 0) > 0
  {
    hide Digits;
    if AllDigits(m) {
      whole, fraction := m, None;
      assert Digits(m) by { AreDigits(m); }
    } else {
      var d :| 0 <= d < |m| && m[d] == '.' && |m| > 1 && AllDigits(m[..d] + m[d + 1..]);
      hide AllDigits;
      PointIsSpelled(m, d);
      AreDigits(m[..d] + m[d + 1..]);
      SplitDigits(m[..d], m[d + 1..]);
      whole, fraction := m[..d], Some(m[d + 1..]);
    }
  }

  lemma AreDigits(s: string)
    requires AllDigits(s)
    ensures Digits(s) && |s| > 0
  {
  }

  lemma ExponentIsSpelled(s: string) returns (x: Exponent)
    requires IsExponent(s)
    ensures s == [x.letter] + (x.sign + x.digits)
    ensures (x.letter == 'e' || x.letter == 'E') && IsSign(x.sign) && |x.digits| > 0 && Digits(x.digits)
  {
    var sign := SplitSign(s[1..]);
    AreDigits(Unsigned(s[1..]));
    x := Exponent(s[0], sign, Unsigned(s[1..]));
    hide Digits;
    hide AllDigits;
  }

  lemma TokenIsSpelled(token: string) returns (n: Number)
    requires IsDecimalShape(token)
    ensures GoodNumber(n) && NumberText(n) == token
  {
    hide IsMantissa;
    hide IsExponent;
    hide Unsigned;
    hide Digits;
    var e :| 0 <= e <= |token| && IsMantissa(Unsigned(token[..e])) && (e == |token| || IsExponent(token[e..]));
    var sign := SplitSign(token[..e]);
    var whole, fraction := MantissaIsSpelled(Unsigned(token[..e]));
    if e < |token| {
      var x := ExponentIsSpelled(token[e..]);
      n := Number(sign, whole, fraction, Some(x));
    } else {
      n := Number(sign, whole, fraction, None);
    }
    hide IsSign;
    assert token == token[..e] + token[e..];
  }

  lemma IntegerIsDecimal(token: string)
    requires AllDigits(Unsigned(token))
    ensures IsDecimalShape(token)
  {
    hide AllDigits;
    hide Unsigned;
    assert token[..|token|] == token;
    ShapeFrom(token, |token|);
  }

  lemma NumberParts(t: string) returns (token: string)
    requires |t| > 0 && IsNumeric(t[0]) && ParseNumber(t).Ok?
    ensures t == token + ParseNumber(t).rest && Delimited(ParseNumber(t).rest) && IsDecimalShape(token)
  {
    token := t[..NumericPrefix(t)];
    if AllDigits(Unsigned(token)) {
      IntegerIsDecimal(token);
    }
    hide AllDigits;
    hide Unsigned;
    hide IsDecimalShape;
    hide IntegerOf;
  }

  lemma NumberIsSpelled(t: string) returns (n: Number)
    requires |t| > 0 && IsNumeric(t[0]) && ParseNumber(t).Ok?
    ensures GoodNumber(n) && t == NumberText(n) + ParseNumber(t).rest && Delimited(ParseNumber(t).rest)
    ensures ParseNumber(t).value == NumberValue(n)
  {
    hide ParseNumber;
    hide NumberText;
    hide NumberValue;
    hide GoodNumber;
    hide IsDecimalShape;
    var token := NumberParts(t);
    n := TokenIsSpelled(token);
    ReadsNumber(n, ParseNumber(t).rest);
  }

  /** What starts with one of the words, a quote, or a numeric character. */
  lemma LeafIsSpelled(text: string, t: string) returns (d: Doc)
    requires t == SkipSpaces(text) && |t| > 0 && t[0] != '[' && t[0] != '{' && ParseValue(text).Ok?
    ensures Good(d) && t == TextOf(d) + ParseValue(text).rest && ParseValue(text).value == ValueOf(d)
    ensures d.DNum? ==> Delimited(ParseValue(text).rest)
  {
    hide GoodPiece;
    hide GoodNumber;
    hide ParseString;
    hide ParseNumber;
    hide ParseItems;
    hide ParseFields;
    hide NumberText;
    hide NumberValue;
    hide PiecesText;
    hide PiecesValue;
    hide SkipSpaces;
    match t[0]
    case 'n' =>
      d := DNull;
      assert t == "null" + t[1..][3..];
    case 't' =>
      d := DBool(true);
      assert t == "true" + t[1..][3..];
    case 'f' =>
      d := DBool(false);
      assert t == "false" + t[1..][4..];
    case '\"' =>
      var pieces := StringIsSpelled(t[1..], "");
      d := DStr(pieces);
      assert t == "\"" + t[1..];
      assert "" + PiecesValue(pieces) == PiecesValue(pieces);
    case c =>
      var n := NumberIsSpelled(t);
      d := DNum(n);
  }

  lemma OpensIt(text: string, t: string)
    requires t == SkipSpaces(text) && |t| > 0 && (t[0] == '[' || t[0] == '{')
    ensures ParseValue(text) == if t[0] == '[' then ParseItems(t[1..], []) else ParseFields(t[1..], [])
    ensures t == [t[0]] + t[1..] && |t| <= |text|
  {
    hide ParseItems;
    hide ParseFields;
    hide ParseNumber;
    hide ParseString;
    hide Expect;
    hide SkipSpaces;
  }

  lemma ValueNeedsText(text: string)
    requires ParseValue(text).Ok?
    ensures |SkipSpaces(text)| > 0
  {
    hide ParseItems;
    hide ParseFields;
    hide ParseNumber;
    hide ParseString;
  }

  /** What the parser takes is the spelling of its result, behind a gap. */
  lemma {:induction false} ParsedIsSpelled(text: string) returns (gap: string, d: Doc)
    requires ParseValue(text).Ok?
    ensures Spells(text, gap, d, ParseValue(text).value, ParseValue(text).rest)
    decreases |text|, 0
  {
    hide ParseValue;
    hide ParseItems;
    hide ParseFields;
    hide SkipSpaces;
    hide IsGap;
    hide ItemsText;
    hide MembersText;
    hide ItemValues;
    hide MemberFields;
    hide GoodItems;
    hide GoodMembers;
    hide Delimited;
    var t := SkipSpaces(text);
    gap := SkippedIsGap(text);
    ValueNeedsText(text);
    var rest := ParseValue(text).rest;
    if t[0] == '{' {
      OpensIt(text, t);
      var members, inner := FieldsAreSpelled(t[1..], [], true);
      d := DObj(members, inner);
      Around("{", MembersText(members, true), inner, "}", rest);
    } else if t[0] == '[' {
      OpensIt(text, t);
      var items, inner := ItemsAreSpelled(t[1..], []);
      d := DArr(items, inner);
      Around("[", ItemsText(items, true), inner, "]", rest);
      assert [] + ItemValues(items, true) == ItemValues(items, true);
    } else {
      d := LeafIsSpelled(text, t);
    }
  }

  lemma Around(open: string, body: string, gap: string, close: string, rest: string)
    ensures open + (body + (gap + (close + rest))) == open + (body + (gap + close)) + rest
  {
  }

  /** The loop of the array takes a value, behind a comma unless it is the first. */
  lemma ItemTaken(text: string, done: seq<Value>, t: string)
    requires t == SkipSpaces(text) && Peek(t) != ']' && ParseItems(text, done).Ok?
    ensures |done| > 0 ==> |t| > 0 && t == "," + t[1..]
    ensures var u := if |done| > 0 then t[1..] else t;
      && |u| <= |text| && (|done| > 0 ==> |u| < |text|) && ParseValue(u).Ok?
      && ParseItems(text, done) == ParseItems(ParseValue(u).rest, done + [ParseValue(u).value])
  {
    hide ParseValue;
  }

  lemma ItemsEnd(text: string, done: seq<Value>, t: string)
    requires t == SkipSpaces(text) && Peek(t) == ']'
    ensures |t| > 0 && t == "]" + t[1..] && ParseItems(text, done) == Ok(Arr(done), t[1..])
  {
    hide ParseValue;
  }

  lemma GapsJoin(a: string, b: string)
    requires IsGap(a) && IsGap(b)
    ensures IsGap(a + b) && IsGap("")
  {
  }

  lemma {:induction false} ItemsAreSpelled(text: string, done: seq<Value>) returns (items: seq<Item>, gap: string)
    requires ParseItems(text, done).Ok?
    ensures GoodItems(items, |done| == 0) && IsGap(gap)
    ensures text == ItemsText(items, |done| == 0) + (gap + ("]" + ParseItems(text, done).rest))
    ensures ParseItems(text, done).value == Arr(done + ItemValues(items, |done| == 0))
    decreases |text|, 1
  {
    hide ParseValue;
    hide ParseItems;
    hide SkipSpaces;
    hide IsGap;
    hide TextOf;
    hide ValueOf;
    hide Good;
    hide Delimited;
    var t := SkipSpaces(text);
    var space := SkippedIsGap(text);
    if Peek(t) == ']' {
      ItemsEnd(text, done, t);
      items, gap := [], space;
      assert done + [] == done;
    } else {
      ItemTaken(text, done, t);
      var u := if |done| > 0 then t[1..] else t;
      var r := ParseValue(u);
      var before, d := ParsedIsSpelled(u);
      GapsJoin(space, before);
      var others;
      others, gap := ItemsAreSpelled(r.rest, done + [r.value]);
      var i := if |done| > 0 then Item(space, before, d) else Item("", space + before, d);
      items := [i] + others;
      assert items[1..] == others;
      Assoc(done, [r.value], ItemValues(others, false));
      if |done| > 0 {
        LaterText(space, before, TextOf(d), ItemsText(others, false), gap + ("]" + ParseItems(text, done).rest));
      } else {
        FirstText(space, before, TextOf(d), ItemsText(others, false), gap + ("]" + ParseItems(text, done).rest));
      }
    }
  }

  lemma LaterText(comma: string, before: string, first: string, others: string, close: string)
    ensures comma + ("," + (before + (first + (others + close))))
         == Separator(comma, before, false) + (first + others) + close
  {
  }

  lemma FirstText(space: string, before: string, first: string, others: string, close: string)
    ensures space + (before + (first + (others + close)))
         == Separator("", space + before, true) + (first + others) + close
  {
  }

  lemma AtFront(t: string, c: char)
    requires Peek(t) == c && c != '\0'
    ensures |t| > 0 && t == [c] + t[1..]
  {
  }

  lemma FieldParts(text: string, t: string)
    requires t == SkipSpaces(text) && ParseField(text).Ok?
    ensures |t| > 0 && t == "\"" + t[1..] && |t| <= |text| && ParseName(t[1..], "").Ok?
    ensures var parsedName := ParseName(t[1..], "");
      var u := SkipSpaces(parsedName.rest);
      && |u| > 0 && u == ":" + u[1..] && |u[1..]| < |text| && ParseValue(u[1..]).Ok?
      && ParseField(text) == Ok(Field(parsedName.value, ParseValue(u[1..]).value), ParseValue(u[1..]).rest)
  {
    hide ParseValue;
    hide ParseName;
    hide SkipSpaces;
    hide Peek;
    assert Peek(t) == '\"';
    AtFront(t, '\"');
    var u := SkipSpaces(ParseName(t[1..], "").rest);
    assert Peek(u) == ':';
    AtFront(u, ':');
  }

  lemma {:induction false} FieldIsSpelled(text: string) returns (m: Member)
    requires ParseField(text).Ok?
    ensures IsGap(m.before) && IsGap(m.colon) && IsGap(m.after) && '\"' !in m.name && '\0' !in m.name && Good(m.doc)
    ensures m.comma == "" && text == m.before + (NameText(m) + (TextOf(m.doc) + ParseField(text).rest))
    ensures ParseField(text).value == Field(m.name, ValueOf(m.doc))
    decreases |text|, 0
  {
    hide ParseValue;
    hide ParseField;
    hide ParseName;
    hide SkipSpaces;
    hide IsGap;
    hide TextOf;
    hide ValueOf;
    hide Good;
    hide Delimited;
    var t := SkipSpaces(text);
    var before := SkippedIsGap(text);
    FieldParts(text, t);
    var name := NameIsSpelled(t[1..], "");
    var afterName := ParseName(t[1..], "").rest;
    var u := SkipSpaces(afterName);
    var colon := SkippedIsGap(afterName);
    var after, d := ParsedIsSpelled(u[1..]);
    m := Member("", before, name, colon, after, d);
    assert "" + name == name;
    NameJoin(m, TextOf(d) + ParseField(text).rest);
  }

  lemma NameJoin(m: Member, value: string)
    ensures "\"" + (m.name + ("\"" + (m.colon + (":" + (m.after + value))))) == NameText(m) + value
  {
  }

  lemma FieldTaken(text: string, done: seq<Field>, t: string)
    requires t == SkipSpaces(text) && Peek(t) != '}' && ParseFields(text, done).Ok?
    ensures |done| > 0 ==> |t| > 0 && t == "," + t[1..]
    ensures var u := if |done| > 0 then t[1..] else t;
      && |u| <= |text| && (|done| > 0 ==> |u| < |text|) && ParseField(u).Ok?
      && var r := ParseField(u);
         ParseFields(text, done) == ParseFields(r.rest, Put(done, r.value.name, r.value.value))
  {
    hide ParseField;
    hide Put;
  }

  lemma FieldsEnd(text: string, done: seq<Field>, t: string)
    requires t == SkipSpaces(text) && Peek(t) == '}'
    ensures |t| > 0 && t == "}" + t[1..] && ParseFields(text, done) == Ok(Obj(done), t[1..])
  {
    hide ParseField;
  }

  lemma {:induction false} FieldsAreSpelled(text: string, done: seq<Field>, n: bool)
    returns (members: seq<Member>, gap: string)
    requires ParseFields(text, done).Ok? && (n <==> |done| == 0)
    ensures GoodMembers(members, n) && IsGap(gap)
    ensures text == MembersText(members, n) + (gap + ("}" + ParseFields(text, done).rest))
    ensures ParseFields(text, done).value == Obj(MemberFields(members, n, done))
    decreases |text|, 1
  {
    hide ParseField;
    hide ParseFields;
    hide SkipSpaces;
    hide IsGap;
    hide TextOf;
    hide ValueOf;
    hide Good;
    hide Put;
    var t := SkipSpaces(text);
    var space := SkippedIsGap(text);
    if Peek(t) == '}' {
      FieldsEnd(text, done, t);
      members, gap := [], space;
    } else {
      FieldTaken(text, done, t);
      var u := if n then t else t[1..];
      var r := ParseField(u);
      var f := FieldIsSpelled(u);
      GapsJoin(space, f.before);
      var others;
      others, gap := FieldsAreSpelled(r.rest, Put(done, r.value.name, r.value.value), false);
      var m := if n then f.(before := space + f.before) else f.(comma := space);
      members := [m] + others;
      assert members[1..] == others && NameText(m) == NameText(f);
      hide NameText;
      var first, close := NameText(m) + TextOf(m.doc), gap + ("}" + ParseFields(text, done).rest);
      Assoc(NameText(m), TextOf(m.doc), MembersText(others, false) + close);
      Assoc(NameText(m), TextOf(m.doc), MembersText(others, false));
      if n {
        FirstText(space, f.before, first, MembersText(others, false), close);
      } else {
        LaterText(space, f.before, first, MembersText(others, false), close);
      }
    }
  }

  /** The parser takes exactly the spellings: a text gives a value and leaves a rest just when it starts with one. */
  lemma ParsesExactlySpellings(text: string, v: Value, rest: string)
    ensures ParseValue(text) == Ok(v, rest) <==> exists gap, d :: Spells(text, gap, d, v, rest)
  {
    hide Spells;
    hide ParseValue;
    if ParseValue(text) == Ok(v, rest) {
      var gap, d := ParsedIsSpelled(text);
    }
    if gap, d :| Spells(text, gap, d, v, rest) {
      SpelledIsParsed(text, gap, d, v, rest);
    }
  }

  lemma SpelledIsParsed(text: string, gap: string, d: Doc, v: Value, rest: string)
    requires Spells(text, gap, d, v, rest)
    ensures ParseValue(text) == Ok(v, rest)
  {
    ReadsLayout(gap, d, rest);
  }
}

/** The canonical JSON text that provenance digests are taken of.

Texts are UTF-16 code units, strings are escaped as in section 7 of RFC 8259, and object keys are sorted by code
units. A parser reads a canonical text back, so it determines the value up to the order of object keys.
*/
module CanonicalJson {
  import opened Basics

  type Code = c: nat | c < 65536

  datatype Text = End | Unit(code: Code, rest: Text)

  datatype List<T> = Nil | Cons(head: T, tail: List<T>)

  /** A JSON value as it lies in memory; a number is given by its shortest decimal text, an object by its keys in
  insertion order. */
  datatype Json =
    | Null
    | Bool(value: bool)
    | Number(literal: Text)
    | String(text: Text)
    | Array(items: List<Json>)
    | Object(fields: List<Field>)

  datatype Field = Field(key: Text, value: Json)

  function Concat(a: Text, b: Text): Text {
    match a
    case End => b
    case Unit(c, rest) => Unit(c, Concat(rest, b))
  }

  lemma {:induction false} ConcatAssociates(a: Text, b: Text, c: Text)
    ensures Concat(Concat(a, b), c) == Concat(a, Concat(b, c))
  {
    if a.Unit? { ConcatAssociates(a.rest, b, c); }
  }

  lemma {:induction false} ConcatEnd(a: Text)
    ensures Concat(a, End) == a
  {
    if a.Unit? { ConcatEnd(a.rest); }
  }

  function Length(text: Text): nat {
    match text
    case End => 0
    case Unit(_, rest) => 1 + Length(rest)
  }

  // ----- escapes

  const QUOTE: Code := 34
  const BACKSLASH: Code := 92

  predicate High(c: Code) { 0xD800 <= c <= 0xDBFF }

  predicate Low(c: Code) { 0xDC00 <= c <= 0xDFFF }

  function HexDigit(d: nat): Code
    requires d < 16
  {
    if d < 10 then 48 + d else 87 + d
  }

  function HexValue(c: Code): (r: Option<nat>)
    ensures r.Some? ==> r.value < 16
  {
    if 48 <= c <= 57 then Some(c - 48) else if 97 <= c <= 102 then Some(c - 87) else None
  }

  /** `\uXXXX`, then `after`. */
  function HexEscape(c: Code, after: Text): Text {
    Unit(BACKSLASH, Unit(117, Unit(HexDigit(c / 4096), Unit(HexDigit(c / 256 % 16),
    Unit(HexDigit(c / 16 % 16), Unit(HexDigit(c % 16), after))))))
  }

  /** The two-character escapes: the letter that stands for a code, if there is one. */
  function ShortEscape(c: Code): Option<Code> {
    if c == QUOTE || c == BACKSLASH then Some(c)
    else if c == 8 then Some(98)
    else if c == 9 then Some(116)
    else if c == 10 then Some(110)
    else if c == 12 then Some(102)
    else if c == 13 then Some(114)
    else None
  }

  function EscapedCode(c: Code, after: Text): Text {
    var letter := ShortEscape(c);
    if letter.Some? then Unit(BACKSLASH, Unit(letter.value, after))
    else if c < 32 || High(c) || Low(c) then HexEscape(c, after)
    else Unit(c, after)
  }

  /** The escaped text, then `after`; a high surrogate followed by a low one is kept as a pair. */
  function Escaped(text: Text, after: Text): Text {
    match text
    case End => after
    case Unit(c, rest) =>
      if High(c) && rest.Unit? && Low(rest.code) then Unit(c, Unit(rest.code, Escaped(rest.rest, after)))
      else EscapedCode(c, Escaped(rest, after))
  }

  function Quoted(text: Text, after: Text): Text {
    Unit(QUOTE, Escaped(text, Unit(QUOTE, after)))
  }

  /** Reads an escaped text up to its closing quote. */
  function Unescape(input: Text): (r: Option<(Text, Text)>)
    ensures r.Some? ==> Length(r.value.1) < Length(input)
    decreases Length(input)
  {
    if input.End? then None
    else if input.code == QUOTE then Some((End, input.rest))
    else if input.code != BACKSLASH then Prepend(input.code, Unescape(input.rest))
    else if input.rest.End? then None
    else if input.rest.code == 117 then
      var unit := ReadHex(input.rest.rest);
      if unit.None? then None
      else
        assert Length(input) == 2 + Length(input.rest.rest);
        Prepend(unit.value, Unescape(input.rest.rest.rest.rest.rest.rest))
    else
      var unit := LetterMeans(input.rest.code);
      if unit.None? then None
      else
        assert Length(input) == 2 + Length(input.rest.rest);
        Prepend(unit.value, Unescape(input.rest.rest))
  }

  function Prepend(c: Code, tail: Option<(Text, Text)>): Option<(Text, Text)> {
    if tail.None? then None else Some((Unit(c, tail.value.0), tail.value.1))
  }

  function LetterMeans(letter: Code): Option<Code> {
    if letter == QUOTE || letter == BACKSLASH || letter == 47 then Some(letter)
    else if letter == 98 then Some(8)
    else if letter == 116 then Some(9)
    else if letter == 110 then Some(10)
    else if letter == 102 then Some(12)
    else if letter == 114 then Some(13)
    else None
  }

  function ReadHex(input: Text): (r: Option<Code>)
    ensures r.Some? ==> input.Unit? && input.rest.Unit? && input.rest.rest.Unit? && input.rest.rest.rest.Unit?
    ensures r.Some? ==> Length(input) == 4 + Length(input.rest.rest.rest.rest)
  {
    if input.Unit? && input.rest.Unit? && input.rest.rest.Unit? && input.rest.rest.rest.Unit? then
      var a, b, c, d := HexValue(input.code), HexValue(input.rest.code), HexValue(input.rest.rest.code),
                        HexValue(input.rest.rest.rest.code);
      if a.Some? && b.Some? && c.Some? && d.Some? then
        assert Length(input) == 2 + Length(input.rest.rest);
        assert Length(input.rest.rest) == 2 + Length(input.rest.rest.rest.rest);
        Some(4096 * a.value + 256 * b.value + 16 * c.value + d.value)
      else None
    else None
  }

  lemma HexReadsBack(c: Code, after: Text)
    ensures ReadHex(HexEscape(c, after).rest.rest) == Some(c)
  {
    hide HexDigit, HexValue;
    DigitReadsBack(c / 4096);
    DigitReadsBack(c / 256 % 16);
    DigitReadsBack(c / 16 % 16);
    DigitReadsBack(c % 16);
    HexSum(c);
  }

  lemma DigitReadsBack(d: nat)
    requires d < 16
    ensures HexValue(HexDigit(d)) == Some(d)
  {}

  lemma HexSum(c: Code)
    ensures 4096 * (c / 4096) + 256 * (c / 256 % 16) + 16 * (c / 16 % 16) + c % 16 == c
  {
    var a, b := c / 16, c / 256;
    assert c == 16 * a + c % 16;
    assert b == a / 16;
    assert a == 16 * b + a % 16;
    assert c / 4096 == b / 16;
    assert b == 16 * (b / 16) + b % 16;
  }

  lemma ReadsCode(c: Code, after: Text)
    ensures Unescape(EscapedCode(c, after)) == Prepend(c, Unescape(after))
  {
    hide HexEscape, ReadHex;
    if ShortEscape(c).None? && (c < 32 || High(c) || Low(c)) {
      ReadsHexEscape(c, after);
    }
  }

  lemma ReadsHexEscape(c: Code, after: Text)
    ensures Unescape(HexEscape(c, after)) == Prepend(c, Unescape(after))
  {
    hide HexDigit, ReadHex, LetterMeans, HexEscape;
    HexReadsBack(c, after);
    HexEscapeIs(c, after);
  }

  lemma HexEscapeIs(c: Code, after: Text)
    ensures var text := HexEscape(c, after);
            && text.Unit? && text.code == BACKSLASH && text.rest.Unit? && text.rest.code == 117
            && text.rest.rest.Unit? && text.rest.rest.rest.Unit? && text.rest.rest.rest.rest.Unit?
            && text.rest.rest.rest.rest.rest.Unit? && text.rest.rest.rest.rest.rest.rest == after
  {}

  /** Every string is read back from its escaped form. */
  lemma {:induction false} StringReadsBack(text: Text, after: Text)
    ensures Unescape(Escaped(text, Unit(QUOTE, after))) == Some((text, after))
  {
    hide EscapedCode, HexEscape;
    if text.Unit? {
      if High(text.code) && text.rest.Unit? && Low(text.rest.code) {
        StringReadsBack(text.rest.rest, after);
      } else {
        StringReadsBack(text.rest, after);
        ReadsCode(text.code, Escaped(text.rest, Unit(QUOTE, after)));
      }
    }
  }

  // ----- the canonical text, as it is built

  const COMMA: Code := 44
  const COLON: Code := 58
  const OPEN_BRACKET: Code := 91
  const CLOSE_BRACKET: Code := 93
  const OPEN_BRACE: Code := 123
  const CLOSE_BRACE: Code := 125

  function NullWord(): Text { Unit(110, Unit(117, Unit(108, Unit(108, End)))) }

  function TrueWord(): Text { Unit(116, Unit(114, Unit(117, Unit(101, End)))) }

  function FalseWord(): Text { Unit(102, Unit(97, Unit(108, Unit(115, Unit(101, End))))) }

  /** The order of `sort` on strings: by code units. */
  predicate KeyLess(a: Text, b: Text) {
    match b
    case End => false
    case Unit(d, bs) =>
      match a
      case End => true
      case Unit(c, az) => c < d || (c == d && KeyLess(az, bs))
  }

  function CodeAt(text: Text, i: nat): Option<Code> {
    if text.End? then None else if i == 0 then Some(text.code) else CodeAt(text.rest, i - 1)
  }

  /** The texts agree up to unit `i`, and there `a` has ended or has the smaller unit. */
  ghost predicate SmallerAt(a: Text, b: Text, i: nat) {
    && (forall j: nat :: j < i ==> CodeAt(a, j) == CodeAt(b, j))
    && CodeAt(b, i).Some? && (CodeAt(a, i).Some? ==> CodeAt(a, i).value < CodeAt(b, i).value)
  }

  /** The order is decided by the first unit where two texts differ; a text comes before its continuations. */
  lemma {:induction false} KeyLessMeans(a: Text, b: Text)
    ensures KeyLess(a, b) <==> exists i: nat :: SmallerAt(a, b, i)
  {
    if a.Unit? && b.Unit? && a.code == b.code {
      KeyLessMeans(a.rest, b.rest);
      forall i: nat ensures SmallerAt(a, b, i + 1) <==> SmallerAt(a.rest, b.rest, i) { SmallerFurther(a, b, i); }
      assert !SmallerAt(a, b, 0);
      if i: nat :| SmallerAt(a, b, i) {
        assert SmallerAt(a.rest, b.rest, i - 1) by { SmallerFurther(a, b, i - 1); }
      }
      if i: nat :| SmallerAt(a.rest, b.rest, i) {
        assert SmallerAt(a, b, i + 1);
      }
    } else if KeyLess(a, b) {
      assert SmallerAt(a, b, 0);
    } else {
      forall i: nat ensures !SmallerAt(a, b, i) {
        assert i > 0 ==> CodeAt(a, 0) != CodeAt(b, 0) || (a.End? && b.End?);
      }
    }
  }

  lemma SmallerFurther(a: Text, b: Text, i: nat)
    requires a.Unit? && b.Unit? && a.code == b.code
    ensures SmallerAt(a, b, i + 1) <==> SmallerAt(a.rest, b.rest, i)
  {
    if SmallerAt(a, b, i + 1) {
      forall j: nat | j < i ensures CodeAt(a.rest, j) == CodeAt(b.rest, j) {
        assert CodeAt(a, j + 1) == CodeAt(b, j + 1);
      }
    }
    if SmallerAt(a.rest, b.rest, i) {
      forall j: nat | j < i + 1 ensures CodeAt(a, j) == CodeAt(b, j) {
        assert j > 0 ==> CodeAt(a.rest, j - 1) == CodeAt(b.rest, j - 1);
      }
    }
  }

  /** A key of an object with the canonical text of its value. */
  datatype Member = Member(key: Text, text: Text)

  function InsertMember(m: Member, members: List<Member>): List<Member> {
    if members.Nil? || !KeyLess(members.head.key, m.key) then Cons(m, members)
    else Cons(members.head, InsertMember(m, members.tail))
  }

  function JoinMembers(members: List<Member>): Text {
    match members
    case Nil => End
    case Cons(m, rest) =>
      var text := Quoted(m.key, Unit(COLON, m.text));
      if rest.Nil? then text else Concat(text, Unit(COMMA, JoinMembers(rest)))
  }

  function Canonical(v: Json): Text {
    match v
    case Null => NullWord()
    case Bool(b) => if b then TrueWord() else FalseWord()
    case Number(literal) => literal
    case String(text) => Quoted(text, End)
    case Array(items) => Unit(OPEN_BRACKET, Concat(JoinItems(items), Unit(CLOSE_BRACKET, End)))
    case Object(fields) => Unit(OPEN_BRACE, Concat(JoinMembers(SortedMembers(fields)), Unit(CLOSE_BRACE, End)))
  }

  function JoinItems(items: List<Json>): Text {
    match items
    case Nil => End
    case Cons(item, rest) =>
      if rest.Nil? then Canonical(item) else Concat(Canonical(item), Unit(COMMA, JoinItems(rest)))
  }

  /** The members of an object, in key order. */
  function SortedMembers(fields: List<Field>): List<Member> {
    match fields
    case Nil => Nil
    case Cons(field, rest) => InsertMember(Member(field.key, Canonical(field.value)), SortedMembers(rest))
  }

  // ----- the same text as a normal form followed by what comes after it

  function InsertField(f: Field, fields: List<Field>): List<Field> {
    if fields.Nil? || !KeyLess(fields.head.key, f.key) then Cons(f, fields)
    else Cons(fields.head, InsertField(f, fields.tail))
  }

  /** The value with the fields of every object in key order. */
  function Norm(v: Json): Json {
    match v
    case Array(items) => Array(NormItems(items))
    case Object(fields) => Object(NormFields(fields))
    case _ => v
  }

  function NormItems(items: List<Json>): List<Json> {
    match items
    case Nil => Nil
    case Cons(item, rest) => Cons(Norm(item), NormItems(rest))
  }

  function NormFields(fields: List<Field>): List<Field> {
    match fields
    case Nil => Nil
    case Cons(field, rest) => InsertField(Field(field.key, Norm(field.value)), NormFields(rest))
  }

  function Print(v: Json, after: Text): Text {
    match v
    case Null => Concat(NullWord(), after)
    case Bool(b) => Concat(if b then TrueWord() else FalseWord(), after)
    case Number(literal) => Concat(literal, after)
    case String(text) => Quoted(text, after)
    case Array(items) => Unit(OPEN_BRACKET, PrintItems(items, Unit(CLOSE_BRACKET, after)))
    case Object(fields) => Unit(OPEN_BRACE, PrintFields(fields, Unit(CLOSE_BRACE, after)))
  }

  function PrintItems(items: List<Json>, after: Text): Text {
    match items
    case Nil => after
    case Cons(item, rest) => Print(item, if rest.Nil? then after else Unit(COMMA, PrintItems(rest, after)))
  }

  function PrintFields(fields: List<Field>, after: Text): Text {
    match fields
    case Nil => after
    case Cons(field, rest) =>
      Quoted(field.key, Unit(COLON, Print(field.value,
        if rest.Nil? then after else Unit(COMMA, PrintFields(rest, after)))))
  }

  lemma {:induction false} EscapedConcat(text: Text, a: Text, b: Text)
    ensures Concat(Escaped(text, a), b) == Escaped(text, Concat(a, b))
  {
    hide ShortEscape, HexDigit;
    if text.Unit? {
      if High(text.code) && text.rest.Unit? && Low(text.rest.code) {
        EscapedConcat(text.rest.rest, a, b);
      } else {
        EscapedConcat(text.rest, a, b);
        CodeConcat(text.code, Escaped(text.rest, a), b);
      }
    }
  }

  lemma CodeConcat(c: Code, a: Text, b: Text)
    ensures Concat(EscapedCode(c, a), b) == EscapedCode(c, Concat(a, b))
  {
    hide ShortEscape, HexDigit;
    if ShortEscape(c).None? && (c < 32 || High(c) || Low(c)) {
      HexConcat(c, a, b);
    }
  }

  lemma HexConcat(c: Code, a: Text, b: Text)
    ensures Concat(HexEscape(c, a), b) == HexEscape(c, Concat(a, b))
  {
    hide HexDigit;
    var four := HexEscape(c, a).rest.rest;
    assert Concat(four.rest.rest, b) == Unit(four.rest.rest.code, Unit(four.rest.rest.rest.code, Concat(a, b)));
    assert Concat(four, b) == Unit(four.code, Unit(four.rest.code, Concat(four.rest.rest, b)));
  }

  lemma QuotedConcat(text: Text, a: Text, b: Text)
    ensures Concat(Quoted(text, a), b) == Quoted(text, Concat(a, b))
  {
    EscapedConcat(text, Unit(QUOTE, a), b);
  }

  lemma {:induction false} PrintConcat(v: Json, a: Text, b: Text)
    ensures Concat(Print(v, a), b) == Print(v, Concat(a, b))
    decreases v, 0
  {
    hide Quoted;
    match v
    case Null => ConcatAssociates(NullWord(), a, b);
    case Bool(t) => ConcatAssociates(if t then TrueWord() else FalseWord(), a, b);
    case Number(literal) => ConcatAssociates(literal, a, b);
    case String(text) => QuotedConcat(text, a, b);
    case Array(items) => PrintItemsConcat(items, Unit(CLOSE_BRACKET, a), b);
    case Object(fields) => PrintFieldsConcat(fields, Unit(CLOSE_BRACE, a), b);
  }

  lemma {:induction false} PrintItemsConcat(items: List<Json>, a: Text, b: Text)
    ensures Concat(PrintItems(items, a), b) == PrintItems(items, Concat(a, b))
    decreases items, 1
  {
    if items.Cons? {
      if items.tail.Nil? {
        PrintConcat(items.head, a, b);
      } else {
        PrintItemsConcat(items.tail, a, b);
        PrintConcat(items.head, Unit(COMMA, PrintItems(items.tail, a)), b);
      }
    }
  }

  lemma {:induction false} PrintFieldsConcat(fields: List<Field>, a: Text, b: Text)
    ensures Concat(PrintFields(fields, a), b) == PrintFields(fields, Concat(a, b))
    decreases fields, 1
  {
    hide Quoted;
    if fields.Cons? {
      var rest := if fields.tail.Nil? then a else Unit(COMMA, PrintFields(fields.tail, a));
      if fields.tail.Cons? {
        PrintFieldsConcat(fields.tail, a, b);
      }
      PrintConcat(fields.head.value, rest, b);
      QuotedConcat(fields.head.key, Unit(COLON, Print(fields.head.value, rest)), b);
    }
  }

  /** The canonical text is the normal form, printed. */
  lemma {:induction false} CanonicalPrintsNorm(v: Json)
    ensures Canonical(v) == Print(Norm(v), End)
  {
    match v
    case Null => ConcatEnd(NullWord());
    case Bool(t) => ConcatEnd(if t then TrueWord() else FalseWord());
    case Number(literal) => ConcatEnd(literal);
    case String(text) =>
    case Array(items) =>
      ItemsPrintNorm(items);
      PrintItemsConcat(NormItems(items), End, Unit(CLOSE_BRACKET, End));
    case Object(fields) =>
      MembersPrintNorm(fields);
      JoinPrints(NormFields(fields));
      PrintFieldsConcat(NormFields(fields), End, Unit(CLOSE_BRACE, End));
  }

  lemma {:induction false} ItemsPrintNorm(items: List<Json>)
    ensures JoinItems(items) == PrintItems(NormItems(items), End)
  {
    if items.Cons? {
      CanonicalPrintsNorm(items.head);
      ItemsPrintNorm(items.tail);
      PrintConcat(Norm(items.head), End, Unit(COMMA, PrintItems(NormItems(items.tail), End)));
    }
  }

  function MembersOf(fields: List<Field>): List<Member> {
    match fields
    case Nil => Nil
    case Cons(f, rest) => Cons(Member(f.key, Print(f.value, End)), MembersOf(rest))
  }

  lemma {:induction false} MembersPrintNorm(fields: List<Field>)
    ensures SortedMembers(fields) == MembersOf(NormFields(fields))
  {
    if fields.Cons? {
      CanonicalPrintsNorm(fields.head.value);
      MembersPrintNorm(fields.tail);
      InsertTogether(Field(fields.head.key, Norm(fields.head.value)), NormFields(fields.tail));
    }
  }

  lemma {:induction false} InsertTogether(f: Field, fields: List<Field>)
    ensures MembersOf(InsertField(f, fields)) == InsertMember(Member(f.key, Print(f.value, End)), MembersOf(fields))
  {
    hide Print;
    if fields.Cons? && KeyLess(fields.head.key, f.key) {
      InsertTogether(f, fields.tail);
    }
  }

  lemma {:induction false} JoinPrints(fields: List<Field>)
    ensures JoinMembers(MembersOf(fields)) == PrintFields(fields, End)
  {
    hide Quoted, Print;
    if fields.Cons? && fields.tail.Cons? {
      JoinPrints(fields.tail);
      var more := Unit(COMMA, PrintFields(fields.tail, End));
      PrintConcat(fields.head.value, End, more);
      QuotedConcat(fields.head.key, Unit(COLON, Print(fields.head.value, End)), more);
    }
  }

  // ----- reading a text back

  predicate NumberCode(c: Code) {
    48 <= c <= 57 || c == 43 || c == 45 || c == 46 || c == 101
  }

  predicate AllNumberCodes(text: Text) {
    text.Unit? ==> NumberCode(text.code) && AllNumberCodes(text.rest)
  }

  /** Decimal texts of finite numbers: digits, sign, point and exponent, starting with a digit or a minus sign. */
  predicate NumberText(text: Text) {
    text.Unit? && (48 <= text.code <= 57 || text.code == 45) && AllNumberCodes(text)
  }

  /** The longest run of number codes, and what follows it. */
  function ReadNumber(input: Text): (r: (Text, Text))
    ensures Length(r.1) <= Length(input)
    ensures input.Unit? && NumberCode(input.code) ==> Length(r.1) < Length(input)
  {
    if input.Unit? && NumberCode(input.code) then
      var tail := ReadNumber(input.rest);
      (Unit(input.code, tail.0), tail.1)
    else (End, input)
  }

  /** What follows a given word. */
  function AfterWord(word: Text, input: Text): (r: Option<Text>)
    ensures r.Some? ==> Length(r.value) + Length(word) == Length(input)
  {
    if word.End? then Some(input)
    else if input.Unit? && input.code == word.code then AfterWord(word.rest, input.rest)
    else None
  }

  function Finish(word: Text, v: Json, input: Text): (r: Option<(Json, Text)>)
    ensures r.Some? ==> Length(r.value.1) + Length(word) == Length(input)
  {
    var rest := AfterWord(word, input);
    if rest.None? then None else Some((v, rest.value))
  }

  /** Reads one value from the front of a text. */
  function Parse(input: Text): (r: Option<(Json, Text)>)
    ensures r.Some? ==> Length(r.value.1) < Length(input)
    decreases Length(input), 0
  {
    if input.End? then None
    else if input.code == QUOTE then
      var text := Unescape(input.rest);
      if text.None? then None else Some((String(text.value.0), text.value.1))
    else if input.code == OPEN_BRACKET then
      if input.rest.Unit? && input.rest.code == CLOSE_BRACKET then Some((Array(Nil), input.rest.rest))
      else
        var items := ParseItems(input.rest);
        if items.None? then None else Some((Array(items.value.0), items.value.1))
    else if input.code == OPEN_BRACE then
      if input.rest.Unit? && input.rest.code == CLOSE_BRACE then Some((Object(Nil), input.rest.rest))
      else
        var fields := ParseFields(input.rest);
        if fields.None? then None else Some((Object(fields.value.0), fields.value.1))
    else if input.code == 110 then Finish(NullWord(), Null, input)
    else if input.code == 116 then Finish(TrueWord(), Bool(true), input)
    else if input.code == 102 then Finish(FalseWord(), Bool(false), input)
    else if NumberCode(input.code) then Some((Number(ReadNumber(input).0), ReadNumber(input).1))
    else None
  }

  function ParseItems(input: Text): (r: Option<(List<Json>, Text)>)
    ensures r.Some? ==> Length(r.value.1) < Length(input)
    decreases Length(input), 1
  {
    var item := Parse(input);
    if item.None? || item.value.1.End? then None
    else if item.value.1.code == CLOSE_BRACKET then Some((Cons(item.value.0, Nil), item.value.1.rest))
    else if item.value.1.code == COMMA then
      var rest := ParseItems(item.value.1.rest);
      if rest.None? then None else Some((Cons(item.value.0, rest.value.0), rest.value.1))
    else None
  }

  function ParseFields(input: Text): (r: Option<(List<Field>, Text)>)
    ensures r.Some? ==> Length(r.value.1) < Length(input)
    decreases Length(input), 1
  {
    if input.End? || input.code != QUOTE then None
    else
      var key := Unescape(input.rest);
      if key.None? || key.value.1.End? || key.value.1.code != COLON then None
      else
        var item := Parse(key.value.1.rest);
        if item.None? || item.value.1.End? then None
        else
          var field := Field(key.value.0, item.value.0);
          if item.value.1.code == CLOSE_BRACE then Some((Cons(field, Nil), item.value.1.rest))
          else if item.value.1.code == COMMA then
            var rest := ParseFields(item.value.1.rest);
            if rest.None? then None else Some((Cons(field, rest.value.0), rest.value.1))
          else None
  }

  /** Numbers are decimal texts, everywhere in the value. */
  predicate Printable(v: Json) {
    match v
    case Number(literal) => NumberText(literal)
    case Array(items) => PrintableItems(items)
    case Object(fields) => PrintableFields(fields)
    case _ => true
  }

  predicate PrintableItems(items: List<Json>) {
    items.Cons? ==> Printable(items.head) && PrintableItems(items.tail)
  }

  predicate PrintableFields(fields: List<Field>) {
    fields.Cons? ==> Printable(fields.head.value) && PrintableFields(fields.tail)
  }

  /** A number may be followed only by something that is not part of a number. */
  predicate Follows(after: Text) {
    after.Unit? ==> !NumberCode(after.code)
  }

  lemma {:induction false} NumberReadsBack(literal: Text, after: Text)
    requires AllNumberCodes(literal) && Follows(after)
    ensures ReadNumber(Concat(literal, after)) == (literal, after)
  {
    if literal.Unit? { NumberReadsBack(literal.rest, after); }
  }

  lemma {:induction false} WordReadsBack(word: Text, after: Text)
    ensures AfterWord(word, Concat(word, after)) == Some(after)
  {
    if word.Unit? { WordReadsBack(word.rest, after); }
  }

  /** No value begins with a closing bracket. */
  lemma FirstCode(v: Json, after: Text)
    requires Printable(v)
    ensures Print(v, after).Unit? && Print(v, after).code != CLOSE_BRACKET && Print(v, after).code != CLOSE_BRACE
  {
    hide Escaped;
  }

  lemma WordsReadBack(after: Text)
    ensures Parse(Concat(NullWord(), after)) == Some((Null, after))
    ensures Parse(Concat(TrueWord(), after)) == Some((Bool(true), after))
    ensures Parse(Concat(FalseWord(), after)) == Some((Bool(false), after))
  {
    hide AfterWord, Unescape, ParseItems, ParseFields, ReadNumber;
    WordReadsBack(NullWord(), after);
    WordReadsBack(TrueWord(), after);
    WordReadsBack(FalseWord(), after);
  }

  /** Every value is read back from its printed form, whatever comes after it. */
  lemma {:induction false} ReadsBack(v: Json, after: Text)
    requires Printable(v) && Follows(after)
    ensures Parse(Print(v, after)) == Some((v, after))
    decreases v, 0
  {
    hide Escaped, Unescape, ParseItems, ParseFields, PrintItems, PrintFields, AfterWord, ReadNumber;
    match v
    case Null => WordsReadBack(after);
    case Bool(_) => WordsReadBack(after);
    case Number(literal) => NumberReadsBack(literal, after);
    case String(text) => StringReadsBack(text, after);
    case Array(items) =>
      if items.Cons? {
        ItemsReadBack(items, after);
        ItemsBegin(items, Unit(CLOSE_BRACKET, after));
      } else {
        NothingToPrint(Unit(CLOSE_BRACKET, after));
      }
    case Object(fields) =>
      if fields.Cons? {
        FieldsReadBack(fields, after);
        FieldsBegin(fields, Unit(CLOSE_BRACE, after));
      } else {
        NothingToPrint(Unit(CLOSE_BRACE, after));
      }
  }

  lemma NothingToPrint(after: Text)
    ensures PrintItems(Nil, after) == after && PrintFields(Nil, after) == after
  {}

  lemma ItemsBegin(items: List<Json>, after: Text)
    requires items.Cons? && PrintableItems(items)
    ensures PrintItems(items, after).Unit? && PrintItems(items, after).code != CLOSE_BRACKET
  {
    hide Print;
    FirstCode(items.head, if items.tail.Nil? then after else Unit(COMMA, PrintItems(items.tail, after)));
  }

  lemma FieldsBegin(fields: List<Field>, after: Text)
    requires fields.Cons?
    ensures PrintFields(fields, after).Unit? && PrintFields(fields, after).code == QUOTE
  {
    hide Print, Escaped;
  }

  lemma {:induction false} ItemsReadBack(items: List<Json>, after: Text)
    requires items.Cons? && PrintableItems(items)
    ensures ParseItems(PrintItems(items, Unit(CLOSE_BRACKET, after))) == Some((items, after))
    decreases items, 1
  {
    hide Print, Parse, Printable;
    if items.tail.Nil? {
      ReadsBack(items.head, Unit(CLOSE_BRACKET, after));
    } else {
      ItemsReadBack(items.tail, after);
      ReadsBack(items.head, Unit(COMMA, PrintItems(items.tail, Unit(CLOSE_BRACKET, after))));
    }
  }

  lemma {:induction false} FieldsReadBack(fields: List<Field>, after: Text)
    requires fields.Cons? && PrintableFields(fields)
    ensures ParseFields(PrintFields(fields, Unit(CLOSE_BRACE, after))) == Some((fields, after))
    decreases fields, 1
  {
    hide Print, Parse, Printable, Escaped, Unescape;
    var end := Unit(CLOSE_BRACE, after);
    var rest := if fields.tail.Nil? then end else Unit(COMMA, PrintFields(fields.tail, end));
    if fields.tail.Cons? {
      FieldsReadBack(fields.tail, after);
    }
    ReadsBack(fields.head.value, rest);
    StringReadsBack(fields.head.key, Unit(COLON, Print(fields.head.value, rest)));
  }

  // ----- what a value means, whatever the order of its keys

  /** A JSON value with objects as finite maps. */
  datatype Meaning =
    | NullMeaning
    | BoolMeaning(value: bool)
    | NumberMeaning(literal: Text)
    | StringMeaning(text: Text)
    | ArrayMeaning(items: List<Meaning>)
    | ObjectMeaning(fields: map<Text, Meaning>)

  function MeaningOf(v: Json): Meaning {
    match v
    case Null => NullMeaning
    case Bool(b) => BoolMeaning(b)
    case Number(literal) => NumberMeaning(literal)
    case String(text) => StringMeaning(text)
    case Array(items) => ArrayMeaning(ItemMeanings(items))
    case Object(fields) => ObjectMeaning(FieldMeanings(fields))
  }

  function ItemMeanings(items: List<Json>): List<Meaning> {
    match items
    case Nil => Nil
    case Cons(item, rest) => Cons(MeaningOf(item), ItemMeanings(rest))
  }

  function FieldMeanings(fields: List<Field>): map<Text, Meaning> {
    match fields
    case Nil => map[]
    case Cons(f, rest) => FieldMeanings(rest)[f.key := MeaningOf(f.value)]
  }

  predicate HasKey(fields: List<Field>, key: Text) {
    fields.Cons? && (fields.head.key == key || HasKey(fields.tail, key))
  }

  /** The keys of each object are different, as in memory they are. */
  predicate DistinctKeys(v: Json) {
    match v
    case Array(items) => DistinctItems(items)
    case Object(fields) => DistinctFields(fields)
    case _ => true
  }

  predicate DistinctItems(items: List<Json>) {
    items.Cons? ==> DistinctKeys(items.head) && DistinctItems(items.tail)
  }

  predicate DistinctFields(fields: List<Field>) {
    fields.Cons? ==> !HasKey(fields.tail, fields.head.key) && DistinctKeys(fields.head.value) && DistinctFields(fields.tail)
  }

  lemma {:induction false} KeysOfMeanings(fields: List<Field>, key: Text)
    ensures key in FieldMeanings(fields) <==> HasKey(fields, key)
  {
    hide MeaningOf;
    if fields.Cons? { KeysOfMeanings(fields.tail, key); }
  }

  lemma {:induction false} KeyLessTotal(a: Text, b: Text)
    ensures KeyLess(a, b) || KeyLess(b, a) || a == b
    ensures !(KeyLess(a, b) && KeyLess(b, a)) && !KeyLess(a, a)
  {
    if a.Unit? && b.Unit? { KeyLessTotal(a.rest, b.rest); }
    if a.Unit? { KeyLessTotal(a.rest, a.rest); }
  }

  lemma {:induction false} KeyLessTransitive(a: Text, b: Text, c: Text)
    requires KeyLess(a, b) && KeyLess(b, c)
    ensures KeyLess(a, c)
  {
    if a.Unit? && a.code == b.code == c.code { KeyLessTransitive(a.rest, b.rest, c.rest); }
  }

  /** All keys come after a given one. */
  predicate KeysAbove(low: Text, fields: List<Field>) {
    fields.Cons? ==> KeyLess(low, fields.head.key) && KeysAbove(low, fields.tail)
  }

  /** Normal forms: every object has its keys in strict order. */
  predicate Normal(v: Json) {
    match v
    case Array(items) => NormalItems(items)
    case Object(fields) => NormalFields(fields)
    case _ => true
  }

  predicate NormalItems(items: List<Json>) {
    items.Cons? ==> Normal(items.head) && NormalItems(items.tail)
  }

  predicate NormalFields(fields: List<Field>) {
    fields.Cons? ==> KeysAbove(fields.head.key, fields.tail) && Normal(fields.head.value) && NormalFields(fields.tail)
  }

  lemma {:induction false} KeysAboveLower(lower: Text, low: Text, fields: List<Field>)
    requires KeyLess(lower, low) && KeysAbove(low, fields)
    ensures KeysAbove(lower, fields)
  {
    if fields.Cons? {
      KeyLessTransitive(lower, low, fields.head.key);
      KeysAboveLower(lower, low, fields.tail);
    }
  }

  lemma {:induction false} KeysAboveApart(low: Text, fields: List<Field>, key: Text)
    requires KeysAbove(low, fields) && HasKey(fields, key)
    ensures KeyLess(low, key)
  {
    if fields.head.key != key { KeysAboveApart(low, fields.tail, key); }
  }

  lemma {:induction false} InsertKeysAbove(low: Text, f: Field, fields: List<Field>)
    requires KeysAbove(low, fields) && KeyLess(low, f.key)
    ensures KeysAbove(low, InsertField(f, fields))
  {
    if fields.Cons? && KeyLess(fields.head.key, f.key) { InsertKeysAbove(low, f, fields.tail); }
  }

  /** Inserting a new key keeps the order, the other fields, and the meaning. */
  lemma {:induction false} InsertFieldKeeps(f: Field, fields: List<Field>)
    requires NormalFields(fields) && Normal(f.value) && !HasKey(fields, f.key)
    ensures NormalFields(InsertField(f, fields))
    ensures FieldMeanings(InsertField(f, fields)) == FieldMeanings(fields)[f.key := MeaningOf(f.value)]
  {
    hide Normal, MeaningOf, KeyLess;
    if fields.Cons? {
      KeyLessTotal(fields.head.key, f.key);
      if KeyLess(fields.head.key, f.key) {
        InsertFieldKeeps(f, fields.tail);
        InsertKeysAbove(fields.head.key, f, fields.tail);
        var m := FieldMeanings(fields.tail);
        assert m[f.key := MeaningOf(f.value)][fields.head.key := MeaningOf(fields.head.value)]
            == m[fields.head.key := MeaningOf(fields.head.value)][f.key := MeaningOf(f.value)];
      } else {
        KeysAboveLower(f.key, fields.head.key, fields.tail);
      }
    }
  }

  /** Sorting the keys changes neither the meaning nor the printability. */
  lemma {:induction false} NormKeeps(v: Json)
    requires DistinctKeys(v)
    ensures Normal(Norm(v)) && MeaningOf(Norm(v)) == MeaningOf(v)
  {
    match v
    case Array(items) => NormItemsKeep(items);
    case Object(fields) => NormFieldsKeep(fields);
    case _ =>
  }

  lemma {:induction false} NormItemsKeep(items: List<Json>)
    requires DistinctItems(items)
    ensures NormalItems(NormItems(items)) && ItemMeanings(NormItems(items)) == ItemMeanings(items)
  {
    if items.Cons? {
      NormKeeps(items.head);
      NormItemsKeep(items.tail);
    }
  }

  lemma {:induction false} NormFieldsKeep(fields: List<Field>)
    requires DistinctFields(fields)
    ensures NormalFields(NormFields(fields)) && FieldMeanings(NormFields(fields)) == FieldMeanings(fields)
  {
    if fields.Cons? {
      NormKeeps(fields.head.value);
      NormFieldsKeep(fields.tail);
      KeysOfMeanings(NormFields(fields.tail), fields.head.key);
      KeysOfMeanings(fields.tail, fields.head.key);
      InsertFieldKeeps(Field(fields.head.key, Norm(fields.head.value)), NormFields(fields.tail));
    }
  }

  lemma {:induction false} NormPrintable(v: Json)
    requires Printable(v)
    ensures Printable(Norm(v))
  {
    match v
    case Array(items) => NormItemsPrintable(items);
    case Object(fields) => NormFieldsPrintable(fields);
    case _ =>
  }

  lemma {:induction false} NormItemsPrintable(items: List<Json>)
    requires PrintableItems(items)
    ensures PrintableItems(NormItems(items))
  {
    if items.Cons? {
      NormPrintable(items.head);
      NormItemsPrintable(items.tail);
    }
  }

  lemma {:induction false} NormFieldsPrintable(fields: List<Field>)
    requires PrintableFields(fields)
    ensures PrintableFields(NormFields(fields))
  {
    if fields.Cons? {
      NormPrintable(fields.head.value);
      NormFieldsPrintable(fields.tail);
      InsertPrintable(Field(fields.head.key, Norm(fields.head.value)), NormFields(fields.tail));
    }
  }

  lemma {:induction false} InsertPrintable(f: Field, fields: List<Field>)
    requires Printable(f.value) && PrintableFields(fields)
    ensures PrintableFields(InsertField(f, fields))
  {
    hide Printable;
    if fields.Cons? { InsertPrintable(f, fields.tail); }
  }

  /** A meaning has one normal form. */
  lemma {:induction false} NormalUnique(v: Json, w: Json)
    requires Normal(v) && Normal(w) && MeaningOf(v) == MeaningOf(w)
    ensures v == w
  {
    match v
    case Array(items) => NormalItemsUnique(items, w.items);
    case Object(fields) => NormalFieldsUnique(fields, w.fields);
    case _ =>
  }

  lemma {:induction false} NormalItemsUnique(items: List<Json>, others: List<Json>)
    requires NormalItems(items) && NormalItems(others) && ItemMeanings(items) == ItemMeanings(others)
    ensures items == others
  {
    if items.Cons? {
      NormalUnique(items.head, others.head);
      NormalItemsUnique(items.tail, others.tail);
    }
  }

  lemma {:induction false} NormalFieldsUnique(fields: List<Field>, others: List<Field>)
    requires NormalFields(fields) && NormalFields(others) && FieldMeanings(fields) == FieldMeanings(others)
    ensures fields == others
  {
    hide Normal, MeaningOf, KeyLess, KeysAbove;
    if fields.Cons? {
      KeysOfMeanings(fields, fields.head.key);
      KeysOfMeanings(others, fields.head.key);
      KeysOfMeanings(fields, others.head.key);
      KeysOfMeanings(others, others.head.key);
      SameFirstKey(fields, others);
      var key := fields.head.key;
      assert FieldMeanings(fields)[key] == FieldMeanings(others)[key];
      NormalUnique(fields.head.value, others.head.value);
      KeyGone(fields);
      KeyGone(others);
      NormalFieldsUnique(fields.tail, others.tail);
    } else if others.Cons? {
      KeysOfMeanings(others, others.head.key);
    }
  }

  lemma SameFirstKey(fields: List<Field>, others: List<Field>)
    requires fields.Cons? && others.Cons? && NormalFields(fields) && NormalFields(others)
    requires HasKey(others, fields.head.key) && HasKey(fields, others.head.key)
    ensures fields.head.key == others.head.key
  {
    hide Normal, KeyLess;
    if fields.head.key != others.head.key {
      KeysAboveApart(others.head.key, others.tail, fields.head.key);
      KeysAboveApart(fields.head.key, fields.tail, others.head.key);
      KeyLessTotal(fields.head.key, others.head.key);
    }
  }

  /** Without its first field, an object means what it meant without that key. */
  lemma KeyGone(fields: List<Field>)
    requires fields.Cons? && NormalFields(fields)
    ensures FieldMeanings(fields.tail) == FieldMeanings(fields) - {fields.head.key}
  {
    hide Normal, MeaningOf, KeyLess;
    KeysOfMeanings(fields.tail, fields.head.key);
    KeyLessTotal(fields.head.key, fields.head.key);
    if HasKey(fields.tail, fields.head.key) {
      KeysAboveApart(fields.head.key, fields.tail, fields.head.key);
    }
  }

  // ----- the theorems

  /** A parser recovers the value from its canonical text: the same value, with the keys of its objects in order. */
  lemma CanonicalReadsBack(v: Json)
    requires Printable(v) && DistinctKeys(v)
    ensures Parse(Canonical(v)) == Some((Norm(v), End)) && MeaningOf(Norm(v)) == MeaningOf(v) && Normal(Norm(v))
  {
    hide *;
    CanonicalPrintsNorm(v);
    NormPrintable(v);
    NormKeeps(v);
    NothingFollows();
    ReadsBack(Norm(v), End);
  }

  lemma NothingFollows()
    ensures Follows(End)
  {}

  /** Two values have the same canonical text exactly if they are the same value up to the order of object keys. */
  lemma CanonicalIsInjective(v: Json, w: Json)
    requires Printable(v) && DistinctKeys(v) && Printable(w) && DistinctKeys(w)
    ensures Canonical(v) == Canonical(w) <==> MeaningOf(v) == MeaningOf(w)
  {
    hide *;
    CanonicalReadsBack(v);
    CanonicalReadsBack(w);
    if MeaningOf(v) == MeaningOf(w) {
      NormKeeps(v);
      NormKeeps(w);
      NormalUnique(Norm(v), Norm(w));
      CanonicalPrintsNorm(v);
      CanonicalPrintsNorm(w);
    }
  }

  // ----- the text itself

  /** What stands for a code unit inside quotes: a letter behind a backslash for the units that have one, four lower-case hex
  digits for the other control units and for surrogates, and otherwise the unit itself. */
  lemma EscapesMean(c: Code, after: Text)
    ensures var short := (letter: char) requires letter as int < 128 => Unit('\\' as int, Unit(letter as int, after));
            && (c == '"' as int ==> EscapedCode(c, after) == short('"'))
            && (c == '\\' as int ==> EscapedCode(c, after) == short('\\'))
            && (c == 8 ==> EscapedCode(c, after) == short('b'))
            && (c == 9 ==> EscapedCode(c, after) == short('t'))
            && (c == 10 ==> EscapedCode(c, after) == short('n'))
            && (c == 12 ==> EscapedCode(c, after) == short('f'))
            && (c == 13 ==> EscapedCode(c, after) == short('r'))
            && (c >= 32 && c != '"' as int && c != '\\' as int && !(0xD800 <= c <= 0xDFFF) ==>
                  EscapedCode(c, after) == Unit(c, after))
  {}

  /** Control units without a letter, and single surrogates, take four hex digits. */
  lemma HexEscapesMean(c: Code, after: Text)
    requires c < 8 || c == 11 || 14 <= c < 32 || 0xD800 <= c <= 0xDFFF
    ensures EscapedCode(c, after) == Unit('\\' as int, Unit('u' as int,
              Unit(LowerHex(c / 4096), Unit(LowerHex(c / 256 % 16), Unit(LowerHex(c / 16 % 16), Unit(LowerHex(c % 16), after))))))
  {
    hide HexDigit, LowerHex;
    HexDigitMeans(c / 4096);
    HexDigitMeans(c / 256 % 16);
    HexDigitMeans(c / 16 % 16);
    HexDigitMeans(c % 16);
  }

  lemma HexDigitMeans(d: nat)
    requires d < 16
    ensures HexDigit(d) == LowerHex(d)
  {}

  function LowerHex(d: nat): Code
    requires d < 16
  {
    ['0', '1', '2', '3', '4', '5', '6', '7', '8', '9', 'a', 'b', 'c', 'd', 'e', 'f'][d] as int
  }

  /** A high surrogate with a low one behind it is kept as a pair; any other unit is written by itself. */
  lemma PairsStay(text: Text, after: Text)
    requires text.Unit?
    ensures 0xD800 <= text.code <= 0xDBFF && text.rest.Unit? && 0xDC00 <= text.rest.code <= 0xDFFF ==>
              Escaped(text, after) == Unit(text.code, Unit(text.rest.code, Escaped(text.rest.rest, after)))
    ensures !(0xD800 <= text.code <= 0xDBFF && text.rest.Unit? && 0xDC00 <= text.rest.code <= 0xDFFF) ==>
              Escaped(text, after) == EscapedCode(text.code, Escaped(text.rest, after))
  {}

  /** The words and the punctuation: an array is its values between brackets, separated by commas; an object is its members
  between braces, each a quoted key, a colon and a value; strings are quoted, numbers stand as they are. */
  lemma ShapesMean(a: Json, b: Json, text: Text, literal: Text)
    ensures Canonical(Null) == Unit('n' as int, Unit('u' as int, Unit('l' as int, Unit('l' as int, End))))
    ensures Canonical(Bool(true)) == Unit('t' as int, Unit('r' as int, Unit('u' as int, Unit('e' as int, End))))
    ensures Canonical(Bool(false)) == Unit('f' as int, Unit('a' as int, Unit('l' as int, Unit('s' as int, Unit('e' as int, End)))))
    ensures Canonical(Number(literal)) == literal
    ensures Canonical(String(text)) == Unit('"' as int, Escaped(text, Unit('"' as int, End)))
    ensures Canonical(Array(Nil)) == Unit('[' as int, Unit(']' as int, End))
    ensures Canonical(Array(Cons(a, Cons(b, Nil)))) ==
            Unit('[' as int, Concat(Canonical(a), Unit(',' as int, Concat(Canonical(b), Unit(']' as int, End)))))
    ensures Canonical(Object(Cons(Field(text, a), Nil))) ==
            Unit('{' as int, Unit('"' as int,
              Escaped(text, Unit('"' as int, Unit(':' as int, Concat(Canonical(a), Unit('}' as int, End)))))))
  {
    hide Escaped;
    var close, end := Unit(CLOSE_BRACKET, End), Unit(CLOSE_BRACE, End);
    ConcatAssociates(Canonical(a), Unit(COMMA, Canonical(b)), close);
    assert JoinItems(Cons(b, Nil)) == Canonical(b);
    assert JoinItems(Cons(a, Cons(b, Nil))) == Concat(Canonical(a), Unit(COMMA, Canonical(b)));
    EscapedConcat(text, Unit(QUOTE, Unit(COLON, Canonical(a))), end);
    assert SortedMembers(Cons(Field(text, a), Nil)) == Cons(Member(text, Canonical(a)), Nil);
    assert JoinMembers(Cons(Member(text, Canonical(a)), Nil)) == Quoted(text, Unit(COLON, Canonical(a)));
  }

  /** Between the members of an object stands a comma. */
  lemma MembersAreSeparated(m: Member, n: Member)
    ensures JoinMembers(Cons(m, Cons(n, Nil))) ==
            Concat(JoinMembers(Cons(m, Nil)), Unit(',' as int, JoinMembers(Cons(n, Nil))))
  {}
}

/** A reader of JSON text by the grammar of RFC 8259 (sections 2 to 7): it reads back whatever is printed. */
module JsonReader {
  import opened Options
  import opened Utf16
  import opened Json

  // ----- strings (section 7 of RFC 8259)

  function HexDigitOf(u: Unit): (n: Option<nat>)
    ensures n.Some? ==> n.value < 16
  {
    if 0x30 <= u <= 0x39 then Some(u - 0x30)
    else if 0x41 <= u <= 0x46 then Some(u - 0x41 + 10)
    else if 0x61 <= u <= 0x66 then Some(u - 0x61 + 10)
    else None
  }

  function FourHexDigits(s: seq<Unit>): Option<Unit>
    requires |s| >= 4
  {
    var a, b, c, d := HexDigitOf(s[0]), HexDigitOf(s[1]), HexDigitOf(s[2]), HexDigitOf(s[3]);
    if a.Some? && b.Some? && c.Some? && d.Some?
    then Some(a.value * 0x1000 + b.value * 0x100 + c.value * 0x10 + d.value) else None
  }

  /** What the unit behind a backslash stands for, `u` aside. */
  function Escaped(u: Unit): Option<Unit> {
    if u == 0x22 || u == 0x5C || u == 0x2F then Some(u)
    else if u == 0x62 then Some(0x08)
    else if u == 0x66 then Some(0x0C)
    else if u == 0x6E then Some(0x0A)
    else if u == 0x72 then Some(0x0D)
    else if u == 0x74 then Some(0x09)
    else None
  }

  datatype ReadUnit = NoUnit | ReadUnit(u: Unit, width: nat)

  /** The next unit of a string, and how much of the text it takes: control characters must be escaped. */
  function ReadChar(s: seq<Unit>): (r: ReadUnit)
    ensures r.ReadUnit? ==> 0 < r.width <= |s|
  {
    if s == [] || s[0] < 0x20 || s[0] == 0x22 then NoUnit
    else if s[0] != 0x5C then ReadUnit(s[0], 1)
    else if |s| >= 6 && s[1] == 0x75 && FourHexDigits(s[2..6]).Some? then ReadUnit(FourHexDigits(s[2..6]).value, 6)
    else if |s| >= 2 && Escaped(s[1]).Some? then ReadUnit(Escaped(s[1]).value, 2)
    else NoUnit
  }

  datatype Read<T> = Failed | Read(value: T, rest: seq<Unit>)

  /** The rest of a string, behind its opening quotation mark. */
  function ReadString(s: seq<Unit>): (r: Read<seq<Unit>>)
    ensures r.Read? ==> |r.rest| < |s|
    decreases |s|
  {
    if s != [] && s[0] == 0x22 then Read([], s[1..])
    else
      match ReadChar(s)
      case NoUnit => Failed
      case ReadUnit(u, n) =>
        match ReadString(s[n..])
        case Failed => Failed
        case Read(t, rest) => Read([u] + t, rest)
  }

  // ----- values

  function NumberLength(s: seq<Unit>): (n: nat)
    ensures n <= |s| && forall i :: 0 <= i < n ==> IsNumberUnit(s[i])
  {
    if s == [] || !IsNumberUnit(s[0]) then 0 else 1 + NumberLength(s[1..])
  }

  predicate Starts(s: seq<Unit>, word: seq<Unit>) {
    |word| <= |s| && s[..|word|] == word
  }

  const NULL: seq<Unit> := [0x6E, 0x75, 0x6C, 0x6C]
  const TRUE: seq<Unit> := [0x74, 0x72, 0x75, 0x65]
  const FALSE: seq<Unit> := [0x66, 0x61, 0x6C, 0x73, 0x65]

  /** A value at the start of a text, and what follows it. */
  function ReadValue(s: seq<Unit>): (r: Read<Json>)
    ensures r.Read? ==> |r.rest| < |s|
    decreases |s|, 0
  {
    if s == [] then Failed
    else if s[0] == 0x22 then
      match ReadString(s[1..])
      case Failed => Failed
      case Read(t, rest) => Read(String(t), rest)
    else if s[0] == 0x5B then
      if |s| > 1 && s[1] == 0x5D then Read(Array([]), s[2..])
      else
        match ReadItems(s[1..])
        case Failed => Failed
        case Read(items, rest) => Read(Array(items), rest)
    else if s[0] == 0x7B then
      if |s| > 1 && s[1] == 0x7D then Read(Object([]), s[2..])
      else
        match ReadFields(s[1..])
        case Failed => Failed
        case Read(fields, rest) => Read(Object(fields), rest)
    else if Starts(s, NULL) then Read(Null, s[4..])
    else if Starts(s, TRUE) then Read(Bool(true), s[4..])
    else if Starts(s, FALSE) then Read(Bool(false), s[5..])
    else
      var n := NumberLength(s);
      if n > 0 && IsNumber(s[..n]) then Read(Number(s[..n]), s[n..]) else Failed
  }

  /** Items with commas between them, and the closing bracket. */
  function ReadItems(s: seq<Unit>): (r: Read<seq<Json>>)
    ensures r.Read? ==> |r.rest| < |s|
    decreases |s|, 1
  {
    match ReadValue(s)
    case Failed => Failed
    case Read(v, rest) =>
      if rest != [] && rest[0] == 0x5D then Read([v], rest[1..])
      else if rest != [] && rest[0] == 0x2C then
        match ReadItems(rest[1..])
        case Failed => Failed
        case Read(items, after) => Read([v] + items, after)
      else Failed
  }

  /** Members with commas between them, and the closing brace. */
  function ReadFields(s: seq<Unit>): (r: Read<seq<Field>>)
    ensures r.Read? ==> |r.rest| < |s|
    decreases |s|, 1
  {
    match ReadField(s)
    case Failed => Failed
    case Read(f, rest) =>
      if rest != [] && rest[0] == 0x7D then Read([f], rest[1..])
      else if rest != [] && rest[0] == 0x2C then
        match ReadFields(rest[1..])
        case Failed => Failed
        case Read(fields, after) => Read([f] + fields, after)
      else Failed
  }

  /** A name, a colon and a value. */
  function ReadField(s: seq<Unit>): (r: Read<Field>)
    ensures r.Read? ==> |r.rest| < |s|
    decreases |s|, 0
  {
    if s == [] || s[0] != 0x22 then Failed
    else
      match ReadString(s[1..])
      case Failed => Failed
      case Read(key, rest) =>
        if rest == [] || rest[0] != 0x3A then Failed
        else
          match ReadValue(rest[1..])
          case Failed => Failed
          case Read(v, after) => Read(Field(key, v), after)
  }

  // ----- what was printed is read back

  lemma HexIsRead(u: Unit, rest: seq<Unit>)
    ensures ReadChar(HexEscape(u) + rest) == ReadUnit(u, 6)
  {
    var e := HexEscape(u) + rest;
    assert e[..6] == HexEscape(u);
    assert e[2..6] == [HexDigit(u / 0x1000), HexDigit(u / 0x100 % 16), HexDigit(u / 0x10 % 16), HexDigit(u % 16)];
    HexDigitsMakeUp(u);
  }

  lemma PlainIsRead(u: Unit, rest: seq<Unit>)
    requires u >= 0x20 && u != 0x22 && u != 0x5C
    ensures ReadChar([u] + rest) == ReadUnit(u, 1)
  {
  }

  lemma ShortIsRead(u: Unit, v: Unit, rest: seq<Unit>)
    requires Escaped(u) == Some(v)
    ensures ReadChar([0x5C, u] + rest) == ReadUnit(v, 2)
  {
    var e := [0x5C, u] + rest;
    assert e[0] == 0x5C && e[1] == u;
  }

  /** A character that is no pair is read at once, however it was escaped. */
  lemma HeadIsRead(s: seq<Unit>, rest: seq<Unit>)
    requires s != [] && !StartsPair(s)
    ensures ReadChar(EscapeHead(s) + rest) == ReadUnit(s[0], |EscapeHead(s)|)
  {
    HexIsRead(s[0], rest);
    if EscapeHead(s) == HexEscape(s[0]) {
    } else if |EscapeHead(s)| == 2 {
      ShortIsRead(EscapeHead(s)[1], s[0], rest);
      assert EscapeHead(s) == [0x5C, EscapeHead(s)[1]];
    } else {
      PlainIsRead(s[0], rest);
      assert EscapeHead(s) == [s[0]];
    }
  }

  lemma UnitIsPrepended(e: seq<Unit>, rest: seq<Unit>, u: Unit)
    requires ReadChar(e + rest) == ReadUnit(u, |e|) && ReadString(rest).Read?
    ensures ReadString(e + rest) == Read([u] + ReadString(rest).value, ReadString(rest).rest)
  {
    assert (e + rest)[|e|..] == rest;
  }

  lemma PlainIsPrepended(u: Unit, rest: seq<Unit>)
    requires u >= 0x20 && u != 0x22 && u != 0x5C && ReadString(rest).Read?
    ensures ReadString([u] + rest) == Read([u] + ReadString(rest).value, ReadString(rest).rest)
  {
    PlainIsRead(u, rest);
    UnitIsPrepended([u], rest, u);
  }

  lemma PairIsRead(s: seq<Unit>, rest: seq<Unit>)
    requires StartsPair(s) && ReadString(rest).Read?
    ensures ReadString(s[..2] + rest) == Read(s[..2] + ReadString(rest).value, ReadString(rest).rest)
  {
    PlainIsPrepended(s[1], rest);
    PlainIsPrepended(s[0], [s[1]] + rest);
    TwoInFront(s, rest);
    TwoInFront(s, ReadString(rest).value);
  }

  lemma TwoInFront(s: seq<Unit>, t: seq<Unit>)
    requires |s| >= 2
    ensures s[..2] + t == [s[0]] + ([s[1]] + t)
  {
  }

  lemma {:induction false} StringIsRead(s: seq<Unit>, r: seq<Unit>)
    ensures ReadString(Escape(s) + ([QUOTE] + r)) == Read(s, r)
    decreases |s|
  {
    EscapeStart(s, r);
    if s != [] {
      var n := HeadLength(s);
      var rest := Escape(s[n..]) + ([QUOTE] + r);
      StringIsRead(s[n..], r);
      if StartsPair(s) {
        PairIsRead(s, rest);
        assert s == s[..2] + s[2..];
      } else {
        HeadIsRead(s, rest);
        UnitIsPrepended(EscapeHead(s), rest, s[0]);
        assert s == [s[0]] + s[1..];
      }
    }
  }

  lemma QuotedIsRead(s: seq<Unit>, r: seq<Unit>)
    ensures var x := Quoted(s) + r; x[0] == 0x22 && ReadString(x[1..]) == Read(s, r)
  {
    var x := Quoted(s) + r;
    assert x[1..] == Escape(s) + ([QUOTE] + r);
    StringIsRead(s, r);
  }

  lemma {:induction false} NumberIsRead(a: seq<Unit>, r: seq<Unit>)
    requires Delimited(r) && forall i :: 0 <= i < |a| ==> IsNumberUnit(a[i])
    ensures NumberLength(a + r) == |a|
  {
    if a == [] {
      assert a + r == r;
    } else {
      NumberIsRead(a[1..], r);
      assert (a + r)[1..] == a[1..] + r;
    }
  }

  /** Whatever is printed is read back, and what follows it is left. */
  lemma {:induction false} PrintIsRead(v: Json, r: seq<Unit>)
    requires Delimited(r)
    ensures ReadValue(Print(v) + r) == Read(v, r)
    decreases v, 1
  {
    match v
    case Null => WordIsRead(v, NULL, r);
    case Bool(b) => WordIsRead(v, if b then TRUE else FALSE, r);
    case Number(token) => TokenIsRead(token, r);
    case String(s) => QuotedIsRead(s, r);
    case Array(items) => ArrayIsRead(items, r);
    case Object(fields) => ObjectIsRead(fields, r);
  }

  lemma WordIsRead(v: Json, word: seq<Unit>, r: seq<Unit>)
    requires (v == Null && word == NULL) || (v == Bool(true) && word == TRUE) || (v == Bool(false) && word == FALSE)
    ensures ReadValue(Print(v) + r) == Read(v, r)
  {
    var x := word + r;
    assert Print(v) == word;
    assert x[0] == word[0] && x[..|word|] == word && x[|word|..] == r;
  }

  lemma TokenIsRead(token: Token, r: seq<Unit>)
    requires Delimited(r)
    ensures ReadValue(Print(Number(token)) + r) == Read(Number(token), r)
  {
    var x := token + r;
    NumberIsRead(token, r);
    assert x[0] == token[0] && x[..|token|] == token && x[|token|..] == r;
    assert !Starts(x, NULL) && !Starts(x, TRUE) && !Starts(x, FALSE) by {
      assert NULL[0] != x[0] && TRUE[0] != x[0] && FALSE[0] != x[0];
    }
  }

  lemma {:induction false} ArrayIsRead(items: seq<Json>, r: seq<Unit>)
    ensures ReadValue(Print(Array(items)) + r) == Read(Array(items), r)
    decreases items, 2
  {
    var y := PrintItems(items, false) + ([CLOSE_BRACKET] + r);
    assert Print(Array(items)) + r == [OPEN_BRACKET] + y;
    assert ([OPEN_BRACKET] + y)[1..] == y;
    ItemsStart(items, false, r);
    if items != [] {
      ItemsAreRead(items, r);
    } else {
      assert ([OPEN_BRACKET] + y)[2..] == r;
    }
  }

  lemma {:induction false} ItemsAreRead(items: seq<Json>, r: seq<Unit>)
    requires items != []
    ensures ReadItems(PrintItems(items, false) + ([CLOSE_BRACKET] + r)) == Read(items, r)
    decreases items, 1
  {
    var x := PrintItems(items, false) + ([CLOSE_BRACKET] + r);
    var y := PrintItems(items[1..], true) + ([CLOSE_BRACKET] + r);
    FirstItemIsRead(items, r);
    ItemsStart(items[1..], true, r);
    if |items| > 1 {
      ItemsAreRead(items[1..], r);
      MoreItems(items[1..], r);
      ItemsGoOn(x, items, y, r);
    } else {
      ItemsEnd(x, items[0], y);
      assert items == [items[0]];
    }
  }

  lemma {:induction false} FirstItemIsRead(items: seq<Json>, r: seq<Unit>)
    requires items != []
    ensures ReadValue(PrintItems(items, false) + ([CLOSE_BRACKET] + r)) ==
            Read(items[0], PrintItems(items[1..], true) + ([CLOSE_BRACKET] + r))
    decreases items, 0
  {
    ItemsStart(items[1..], true, r);
    FirstItemFirst(items, r);
    PrintIsRead(items[0], PrintItems(items[1..], true) + ([CLOSE_BRACKET] + r));
  }

  lemma CommaInFront(x: seq<Unit>)
    ensures (Separator(true) + x)[0] == 0x2C && (Separator(true) + x)[1..] == x && Separator(false) + x == x
  {
  }

  lemma FirstItemFirst(items: seq<Json>, r: seq<Unit>)
    requires items != []
    ensures PrintItems(items, false) + ([CLOSE_BRACKET] + r) ==
            Print(items[0]) + (PrintItems(items[1..], true) + ([CLOSE_BRACKET] + r))
  {
    ItemsSplit(items, false, r);
    CommaInFront(Print(items[0]) + (PrintItems(items[1..], true) + ([CLOSE_BRACKET] + r)));
  }

  lemma MoreItems(items: seq<Json>, r: seq<Unit>)
    requires items != []
    ensures var y := PrintItems(items, true) + ([CLOSE_BRACKET] + r);
            y[0] == 0x2C && y[1..] == PrintItems(items, false) + ([CLOSE_BRACKET] + r)
  {
    ItemsSplit(items, true, r);
    ItemsSplit(items, false, r);
    CommaInFront(Print(items[0]) + (PrintItems(items[1..], true) + ([CLOSE_BRACKET] + r)));
  }

  lemma ItemsGoOn(x: seq<Unit>, items: seq<Json>, y: seq<Unit>, r: seq<Unit>)
    requires items != [] && ReadValue(x) == Read(items[0], y)
    requires y != [] && y[0] == 0x2C && ReadItems(y[1..]) == Read(items[1..], r)
    ensures ReadItems(x) == Read(items, r)
  {
    assert items == [items[0]] + items[1..];
  }

  lemma ItemsEnd(x: seq<Unit>, v: Json, y: seq<Unit>)
    requires ReadValue(x) == Read(v, y) && y != [] && y[0] == 0x5D
    ensures ReadItems(x) == Read([v], y[1..])
  {
  }

  lemma {:induction false} ObjectIsRead(fields: seq<Field>, r: seq<Unit>)
    ensures ReadValue(Print(Object(fields)) + r) == Read(Object(fields), r)
    decreases fields, 2
  {
    var y := PrintFields(fields, false) + ([CLOSE_BRACE] + r);
    assert Print(Object(fields)) + r == [OPEN_BRACE] + y;
    FieldsStart(fields, false, r);
    if fields == [] {
      BraceCloses(y);
    } else {
      FieldsAreRead(fields, r);
      BraceOpens(y, fields, r);
    }
  }

  lemma BraceOpens(y: seq<Unit>, fields: seq<Field>, r: seq<Unit>)
    requires y != [] && y[0] != 0x7D && ReadFields(y) == Read(fields, r)
    ensures ReadValue([OPEN_BRACE] + y) == Read(Object(fields), r)
  {
    assert ([OPEN_BRACE] + y)[1..] == y;
  }

  lemma BraceCloses(y: seq<Unit>)
    requires y != [] && y[0] == 0x7D
    ensures ReadValue([OPEN_BRACE] + y) == Read(Object([]), y[1..])
  {
    assert ([OPEN_BRACE] + y)[2..] == y[1..];
  }

  lemma {:induction false} FieldIsRead(f: Field, y: seq<Unit>)
    requires Delimited(y)
    ensures ReadField(Quoted(f.key) + ([COLON] + (Print(f.value) + y))) == Read(f, y)
    decreases f, 2
  {
    var rest := [COLON] + (Print(f.value) + y);
    QuotedIsRead(f.key, rest);
    assert rest[1..] == Print(f.value) + y;
    PrintIsRead(f.value, y);
  }

  lemma FieldsGoOn(x: seq<Unit>, fields: seq<Field>, y: seq<Unit>, r: seq<Unit>)
    requires fields != [] && ReadField(x) == Read(fields[0], y)
    requires y != [] && y[0] == 0x2C && ReadFields(y[1..]) == Read(fields[1..], r)
    ensures ReadFields(x) == Read(fields, r)
  {
    assert fields == [fields[0]] + fields[1..];
  }

  lemma FieldsEnd(x: seq<Unit>, f: Field, y: seq<Unit>)
    requires ReadField(x) == Read(f, y) && y != [] && y[0] == 0x7D
    ensures ReadFields(x) == Read([f], y[1..])
  {
  }

  lemma {:induction false} FirstFieldIsRead(fields: seq<Field>, r: seq<Unit>)
    requires fields != []
    ensures ReadField(PrintFields(fields, false) + ([CLOSE_BRACE] + r)) ==
            Read(fields[0], PrintFields(fields[1..], true) + ([CLOSE_BRACE] + r))
    decreases fields, 0
  {
    FieldsStart(fields[1..], true, r);
    FirstFieldFirst(fields, r);
    FieldIsRead(fields[0], PrintFields(fields[1..], true) + ([CLOSE_BRACE] + r));
  }

  lemma {:induction false} FieldsAreRead(fields: seq<Field>, r: seq<Unit>)
    requires fields != []
    ensures ReadFields(PrintFields(fields, false) + ([CLOSE_BRACE] + r)) == Read(fields, r)
    decreases fields, 1
  {
    var x := PrintFields(fields, false) + ([CLOSE_BRACE] + r);
    var y := PrintFields(fields[1..], true) + ([CLOSE_BRACE] + r);
    FirstFieldIsRead(fields, r);
    FieldsStart(fields[1..], true, r);
    if |fields| > 1 {
      FieldsAreRead(fields[1..], r);
      MoreFields(fields[1..], r);
      FieldsGoOn(x, fields, y, r);
    } else {
      FieldsEnd(x, fields[0], y);
      assert fields == [fields[0]];
    }
  }

  lemma FirstFieldFirst(fields: seq<Field>, r: seq<Unit>)
    requires fields != []
    ensures PrintFields(fields, false) + ([CLOSE_BRACE] + r) ==
            Quoted(fields[0].key) + ([COLON] +
              (Print(fields[0].value) + (PrintFields(fields[1..], true) + ([CLOSE_BRACE] + r))))
  {
    FieldsSplit(fields, false, r);
    CommaInFront(Quoted(fields[0].key) + ([COLON] +
      (Print(fields[0].value) + (PrintFields(fields[1..], true) + ([CLOSE_BRACE] + r)))));
  }

  lemma MoreFields(fields: seq<Field>, r: seq<Unit>)
    requires fields != []
    ensures var y := PrintFields(fields, true) + ([CLOSE_BRACE] + r);
            y[0] == 0x2C && y[1..] == PrintFields(fields, false) + ([CLOSE_BRACE] + r)
  {
    FieldsSplit(fields, true, r);
    FieldsSplit(fields, false, r);
    CommaInFront(Quoted(fields[0].key) + ([COLON] +
      (Print(fields[0].value) + (PrintFields(fields[1..], true) + ([CLOSE_BRACE] + r)))));
  }

  /** The text of a value is read as that value, to its end. */
  lemma PrintReadsBack(v: Json)
    ensures ReadValue(Print(v)) == Read(v, [])
  {
    PrintIsRead(v, []);
    assert Print(v) + [] == Print(v);
  }
}

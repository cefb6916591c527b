/**
 JSON values and the text `JSON.stringify` gives for them.

 The text of a value never holds a raw newline, no text of a value starts with the text of
 another one of the same kind, and different values have different texts, so that reading
 back what was printed is well-defined.
 */
module Json {
  import opened Unicode
  import opened Utf16

  const QUOTE: Unit := 34
  const BACKSLASH: Unit := 92
  const COMMA: Unit := 44
  const COLON: Unit := 58
  const OPEN_BRACKET: Unit := 91
  const CLOSE_BRACKET: Unit := 93
  const OPEN_BRACE: Unit := 123
  const CLOSE_BRACE: Unit := 125

  /** A text written out in ASCII. */
  function Ascii(s: string): (r: seq<Unit>)
    requires forall i :: 0 <= i < |s| ==> s[i] < 128 as char
    ensures |r| == |s|
  {
    seq(|s|, i requires 0 <= i < |s| => s[i] as int)
  }

  predicate IsDigit(u: Unit) {
    48 <= u <= 57
  }

  predicate IsNumberUnit(u: Unit) {
    IsDigit(u) || u == 43 || u == 45 || u == 46 || u == 69 || u == 101
  }

  predicate IsNumber(s: seq<Unit>) {
    s != [] && (IsDigit(s[0]) || s[0] == 45) && forall i :: 0 <= i < |s| ==> IsNumberUnit(s[i])
  }

  /** A number as it is printed. */
  type Token = s: seq<Unit> | IsNumber(s) witness [48]

  datatype Json =
    | Null
    | Bool(b: bool)
    | Number(token: Token)
    | String(s: seq<Unit>)
    | Array(items: seq<Json>)
    | Object(fields: seq<Field>)

  datatype Field = Field(key: seq<Unit>, value: Json)

  // ----- strings

  function HexDigit(n: nat): Unit
    requires n < 16
  {
    if n < 10 then 48 + n else 87 + n
  }

  function HexEscape(u: Unit): (e: seq<Unit>)
    ensures |e| == 6
  {
    [BACKSLASH, 117, HexDigit(u / 0x1000), HexDigit(u / 0x100 % 16), HexDigit(u / 0x10 % 16), HexDigit(u % 16)]
  }

  /** The first character of a string, escaped where it has to be. */
  function EscapeHead(s: seq<Unit>): (e: seq<Unit>)
    requires s != []
    ensures e != [] && e[0] != QUOTE
  {
    if StartsPair(s) then s[..2]
    else if StartsLone(s) then HexEscape(s[0])
    else if s[0] == QUOTE || s[0] == BACKSLASH then [BACKSLASH, s[0]]
    else if s[0] == 8 then [BACKSLASH, 98]
    else if s[0] == 9 then [BACKSLASH, 116]
    else if s[0] == 10 then [BACKSLASH, 110]
    else if s[0] == 12 then [BACKSLASH, 102]
    else if s[0] == 13 then [BACKSLASH, 114]
    else if s[0] < 32 then HexEscape(s[0])
    else [s[0]]
  }

  function Escape(s: seq<Unit>): seq<Unit> {
    if s == [] then [] else EscapeHead(s) + Escape(s[HeadLength(s)..])
  }

  function Quoted(s: seq<Unit>): seq<Unit> {
    [QUOTE] + Escape(s) + [QUOTE]
  }

  // ----- values

  function Separator(more: bool): seq<Unit> {
    if more then [COMMA] else []
  }

  function Print(v: Json): seq<Unit>
    decreases v, 1
  {
    match v
    case Null => [110, 117, 108, 108]
    case Bool(b) => if b then [116, 114, 117, 101] else [102, 97, 108, 115, 101]
    case Number(token) => token
    case String(s) => Quoted(s)
    case Array(items) => [OPEN_BRACKET] + PrintItems(items, false) + [CLOSE_BRACKET]
    case Object(fields) => [OPEN_BRACE] + PrintFields(fields, false) + [CLOSE_BRACE]
  }

  /** The items, with a comma before each but the very first. */
  function PrintItems(items: seq<Json>, more: bool): seq<Unit>
    decreases items, 0
  {
    if items == [] then []
    else Separator(more) + Print(items[0]) + PrintItems(items[1..], true)
  }

  function PrintFields(fields: seq<Field>, more: bool): seq<Unit>
    decreases fields, 0
  {
    if fields == [] then []
    else
      Separator(more) + Quoted(fields[0].key) + [COLON] + Print(fields[0].value)
      + PrintFields(fields[1..], true)
  }

  // ----- the text is well formed, on one line

  ghost predicate OneLine(s: seq<Unit>) {
    WellFormed(s) && forall i :: 0 <= i < |s| ==> s[i] >= 0x20
  }

  lemma OneLineConcat(a: seq<Unit>, b: seq<Unit>)
    requires OneLine(a) && OneLine(b)
    ensures OneLine(a + b)
  {
    ConcatWellFormed(a, b);
  }

  lemma OneLineAscii(s: seq<Unit>)
    requires forall i :: 0 <= i < |s| ==> 0x20 <= s[i] < 0x80
    ensures OneLine(s)
  {
    AsciiIsWellFormed(s);
  }

  lemma EscapeHeadIsOneLine(s: seq<Unit>)
    requires s != []
    ensures OneLine(EscapeHead(s))
  {
    var e := EscapeHead(s);
    if StartsPair(s) {
      assert e[2..] == [];
    } else if |e| > 1 || e[0] < 0x80 {
      OneLineAscii(e);
    } else {
      assert e[1..] == [];
    }
  }

  lemma {:induction false} EscapeIsOneLine(s: seq<Unit>)
    ensures OneLine(Escape(s))
    decreases |s|
  {
    if s != [] {
      EscapeHeadIsOneLine(s);
      EscapeIsOneLine(s[HeadLength(s)..]);
      OneLineConcat(EscapeHead(s), Escape(s[HeadLength(s)..]));
    }
  }

  lemma QuotedIsOneLine(s: seq<Unit>)
    ensures OneLine(Quoted(s))
  {
    EscapeIsOneLine(s);
    OneLineAscii([QUOTE]);
    OneLineConcat([QUOTE], Escape(s));
    OneLineConcat([QUOTE] + Escape(s), [QUOTE]);
  }

  /** Serialised JSON holds no raw newline, nor any other control character or lone surrogate. */
  lemma {:induction false} PrintIsOneLine(v: Json)
    ensures OneLine(Print(v))
    decreases v, 1
  {
    match v
    case Null => OneLineAscii(Print(v));
    case Bool(_) => OneLineAscii(Print(v));
    case Number(token) => OneLineAscii(token);
    case String(s) => QuotedIsOneLine(s);
    case Array(items) =>
      ItemsAreOneLine(items, false);
      BracketedIsOneLine(OPEN_BRACKET, PrintItems(items, false), CLOSE_BRACKET);
    case Object(fields) =>
      FieldsAreOneLine(fields, false);
      BracketedIsOneLine(OPEN_BRACE, PrintFields(fields, false), CLOSE_BRACE);
  }

  lemma BracketedIsOneLine(open: Unit, s: seq<Unit>, close: Unit)
    requires OneLine(s) && 0x20 <= open < 0x80 && 0x20 <= close < 0x80
    ensures OneLine([open] + s + [close])
  {
    OneLineAscii([open]);
    OneLineAscii([close]);
    OneLineConcat([open], s);
    OneLineConcat([open] + s, [close]);
  }

  lemma {:induction false} ItemsAreOneLine(items: seq<Json>, more: bool)
    ensures OneLine(PrintItems(items, more))
    decreases items, 0
  {
    if items != [] {
      PrintIsOneLine(items[0]);
      ItemsAreOneLine(items[1..], true);
      OneLineAscii(Separator(more));
      OneLineConcat(Separator(more), Print(items[0]));
      OneLineConcat(Separator(more) + Print(items[0]), PrintItems(items[1..], true));
    }
  }

  lemma {:induction false} FieldsAreOneLine(fields: seq<Field>, more: bool)
    ensures OneLine(PrintFields(fields, more))
    decreases fields, 0
  {
    if fields != [] {
      var f := fields[0];
      PrintIsOneLine(f.value);
      FieldsAreOneLine(fields[1..], true);
      OneLineAscii(Separator(more));
      QuotedIsOneLine(f.key);
      OneLineAscii([COLON]);
      OneLineConcat(Separator(more), Quoted(f.key));
      OneLineConcat(Separator(more) + Quoted(f.key), [COLON]);
      OneLineConcat(Separator(more) + Quoted(f.key) + [COLON], Print(f.value));
      OneLineConcat(Separator(more) + Quoted(f.key) + [COLON] + Print(f.value), PrintFields(fields[1..], true));
    }
  }

  // ----- the text determines the value

  function HexValue(u: Unit): nat {
    if IsDigit(u) then u - 48 else if u >= 87 then u - 87 else 0
  }

  /** Reads one escaped character back: its units, and how many units it took. */
  function UnescapeHead(e: seq<Unit>): (seq<Unit>, nat)
    requires e != []
  {
    if e[0] != BACKSLASH then (if StartsPair(e) then (e[..2], 2) else ([e[0]], 1))
    else if |e| < 2 then ([], 0)
    else if e[1] == 117 then
      if |e| < 6 then ([], 0)
      else
        var u := HexValue(e[2]) * 0x1000 + HexValue(e[3]) * 0x100 + HexValue(e[4]) * 0x10 + HexValue(e[5]);
        (if u < 0x1_0000 then [u] else [], 6)
    else if e[1] == 98 then ([8], 2)
    else if e[1] == 116 then ([9], 2)
    else if e[1] == 110 then ([10], 2)
    else if e[1] == 102 then ([12], 2)
    else if e[1] == 114 then ([13], 2)
    else ([e[1]], 2)
  }

  lemma HexDigitReadsBack(n: nat)
    requires n < 16
    ensures HexValue(HexDigit(n)) == n
  {
  }

  lemma HexDigitsMakeUp(u: Unit)
    ensures u == u / 0x1000 * 0x1000 + u / 0x100 % 16 * 0x100 + u / 0x10 % 16 * 0x10 + u % 16
  {
    assert u / 0x100 == u / 0x1000 * 16 + u / 0x100 % 16;
    assert u / 0x10 == u / 0x100 * 16 + u / 0x10 % 16;
    assert u == u / 0x10 * 16 + u % 16;
  }

  lemma HexReadsBack(u: Unit, rest: seq<Unit>)
    ensures UnescapeHead(HexEscape(u) + rest) == ([u], 6)
  {
    var e := HexEscape(u) + rest;
    assert e[..6] == HexEscape(u);
    HexDigitReadsBack(u / 0x1000);
    HexDigitReadsBack(u / 0x100 % 16);
    HexDigitReadsBack(u / 0x10 % 16);
    HexDigitReadsBack(u % 16);
    HexDigitsMakeUp(u);
  }

  lemma UnescapesHead(s: seq<Unit>, rest: seq<Unit>)
    requires s != []
    ensures UnescapeHead(EscapeHead(s) + rest) == (s[..HeadLength(s)], |EscapeHead(s)|)
  {
    var e := EscapeHead(s) + rest;
    if StartsPair(s) {
      assert e[0] == s[0] && e[1] == s[1] && e[..2] == s[..2];
    } else {
      assert s[..1] == [s[0]];
      HexReadsBack(s[0], rest);
      assert e[0] == EscapeHead(s)[0] && (|EscapeHead(s)| == 2 ==> e[1] == EscapeHead(s)[1]);
    }
  }

  /** A quoted string closes at once exactly when it is empty. */
  lemma EscapeStart(s: seq<Unit>, r: seq<Unit>)
    ensures var x := Escape(s) + ([QUOTE] + r);
            && (x[0] == QUOTE <==> s == [])
            && (s == [] ==> x[1..] == r)
            && (s != [] ==> x == EscapeHead(s) + (Escape(s[HeadLength(s)..]) + ([QUOTE] + r)))
  {
    if s != [] {
      Reassociate(EscapeHead(s), Escape(s[HeadLength(s)..]), [QUOTE] + r);
    }
  }

  lemma Reassociate(a: seq<Unit>, b: seq<Unit>, c: seq<Unit>)
    ensures a + b + c == a + (b + c)
    ensures a != [] ==> (a + b + c)[0] == a[0]
  {
  }

  lemma {:induction false} EscapeIsPrefixFree(s: seq<Unit>, t: seq<Unit>, r1: seq<Unit>, r2: seq<Unit>)
    requires Escape(s) + ([QUOTE] + r1) == Escape(t) + ([QUOTE] + r2)
    ensures s == t && r1 == r2
    decreases |s|
  {
    EscapeStart(s, r1);
    EscapeStart(t, r2);
    if s != [] && t != [] {
      var n, m := HeadLength(s), HeadLength(t);
      var u, v := Escape(s[n..]) + ([QUOTE] + r1), Escape(t[m..]) + ([QUOTE] + r2);
      UnescapesHead(s, u);
      UnescapesHead(t, v);
      SameLengthSplit(EscapeHead(s), EscapeHead(t), u, v);
      EscapeIsPrefixFree(s[n..], t[m..], r1, r2);
      assert s == s[..n] + s[n..] && t == t[..m] + t[m..];
    }
  }

  lemma QuotedIsPrefixFree(s: seq<Unit>, t: seq<Unit>, r1: seq<Unit>, r2: seq<Unit>)
    requires Quoted(s) + r1 == Quoted(t) + r2
    ensures s == t && r1 == r2
  {
    AfterBracket(QUOTE, Escape(s), Escape(t), QUOTE, r1, r2);
    EscapeIsPrefixFree(s, t, r1, r2);
  }

  /** What may follow a value: nothing that could continue a number. */
  predicate Delimited(r: seq<Unit>) {
    r == [] || !IsNumberUnit(r[0])
  }

  function NumberRun(s: seq<Unit>): nat {
    if s == [] || !IsNumberUnit(s[0]) then 0 else 1 + NumberRun(s[1..])
  }

  lemma {:induction false} NumberEndsWhereDelimited(a: seq<Unit>, r: seq<Unit>)
    requires Delimited(r) && forall i :: 0 <= i < |a| ==> IsNumberUnit(a[i])
    ensures NumberRun(a + r) == |a|
  {
    if a == [] {
      assert a + r == r;
    } else {
      NumberEndsWhereDelimited(a[1..], r);
      assert (a + r)[1..] == a[1..] + r;
    }
  }

  /** The kind of value a text starting with `u` can be. */
  function Kind(u: Unit): nat {
    if u == 110 then 0
    else if u == 116 || u == 102 then 1
    else if u == QUOTE then 3
    else if u == OPEN_BRACKET then 4
    else if u == OPEN_BRACE then 5
    else if IsDigit(u) || u == 45 then 2
    else 6
  }

  function KindOf(v: Json): nat {
    match v
    case Null => 0
    case Bool(_) => 1
    case Number(_) => 2
    case String(_) => 3
    case Array(_) => 4
    case Object(_) => 5
  }

  lemma FirstUnitTellsKind(v: Json)
    ensures Print(v) != [] && Kind(Print(v)[0]) == KindOf(v)
  {
  }

  /** No printed value is a proper start of another: what follows it is found again. */
  lemma {:induction false} PrintIsPrefixFree(v: Json, w: Json, r1: seq<Unit>, r2: seq<Unit>)
    requires Delimited(r1) && Delimited(r2) && Print(v) + r1 == Print(w) + r2
    ensures v == w && r1 == r2
    decreases v, 1
  {
    FirstUnitTellsKind(v);
    FirstUnitTellsKind(w);
    assert Print(v)[0] == (Print(v) + r1)[0] == (Print(w) + r2)[0] == Print(w)[0];
    match v
    case Null => SameLengthSplit(Print(v), Print(w), r1, r2);
    case Bool(b) => SameLengthSplit(Print(v), Print(w), r1, r2);
    case Number(token) =>
      NumberEndsWhereDelimited(token, r1);
      NumberEndsWhereDelimited(w.token, r2);
      SameLengthSplit(token, w.token, r1, r2);
    case String(s) => QuotedIsPrefixFree(s, w.s, r1, r2);
    case Array(items) =>
      AfterBracket(OPEN_BRACKET, PrintItems(items, false), PrintItems(w.items, false), CLOSE_BRACKET, r1, r2);
      ItemsArePrefixFree(items, w.items, false, r1, r2);
    case Object(fields) =>
      AfterBracket(OPEN_BRACE, PrintFields(fields, false), PrintFields(w.fields, false), CLOSE_BRACE, r1, r2);
      FieldsArePrefixFree(fields, w.fields, false, r1, r2);
  }

  lemma SameLengthSplit(a: seq<Unit>, b: seq<Unit>, r1: seq<Unit>, r2: seq<Unit>)
    requires |a| == |b| && a + r1 == b + r2
    ensures a == b && r1 == r2
  {
    assert a == (a + r1)[..|a|] && b == (b + r2)[..|b|];
    assert r1 == (a + r1)[|a|..] && r2 == (b + r2)[|b|..];
  }

  lemma AfterBracket(open: Unit, a: seq<Unit>, b: seq<Unit>, close: Unit, r1: seq<Unit>, r2: seq<Unit>)
    requires [open] + a + [close] + r1 == [open] + b + [close] + r2
    ensures a + ([close] + r1) == b + ([close] + r2)
  {
    assert ([open] + a + [close] + r1)[1..] == a + ([close] + r1);
    assert ([open] + b + [close] + r2)[1..] == b + ([close] + r2);
  }

  lemma {:induction false} ItemsArePrefixFree(a: seq<Json>, b: seq<Json>, more: bool, r1: seq<Unit>, r2: seq<Unit>)
    requires PrintItems(a, more) + ([CLOSE_BRACKET] + r1) == PrintItems(b, more) + ([CLOSE_BRACKET] + r2)
    ensures a == b && r1 == r2
    decreases a, 0
  {
    ItemsStart(a, more, r1);
    ItemsStart(b, more, r2);
    if a != [] && b != [] {
      var u, v := PrintItems(a[1..], true) + ([CLOSE_BRACKET] + r1), PrintItems(b[1..], true) + ([CLOSE_BRACKET] + r2);
      ItemsSplit(a, more, r1);
      ItemsSplit(b, more, r2);
      SameLengthSplit(Separator(more), Separator(more), Print(a[0]) + u, Print(b[0]) + v);
      ItemsStart(a[1..], true, r1);
      ItemsStart(b[1..], true, r2);
      PrintIsPrefixFree(a[0], b[0], u, v);
      ItemsArePrefixFree(a[1..], b[1..], true, r1, r2);
      assert a == [a[0]] + a[1..] && b == [b[0]] + b[1..];
    }
  }

  lemma ItemsSplit(items: seq<Json>, more: bool, r: seq<Unit>)
    requires items != []
    ensures PrintItems(items, more) + ([CLOSE_BRACKET] + r)
         == Separator(more) + (Print(items[0]) + (PrintItems(items[1..], true) + ([CLOSE_BRACKET] + r)))
  {
    var p, q := Print(items[0]), PrintItems(items[1..], true);
    Reassociate(Separator(more) + p, q, [CLOSE_BRACKET] + r);
    Reassociate(Separator(more), p, q + ([CLOSE_BRACKET] + r));
  }

  /** A list of items closes at once exactly when it is empty. */
  lemma ItemsStart(items: seq<Json>, more: bool, r: seq<Unit>)
    ensures var x := PrintItems(items, more) + ([CLOSE_BRACKET] + r);
            && (x[0] == CLOSE_BRACKET <==> items == [])
            && (items == [] ==> x[1..] == r)
            && (more ==> Delimited(x))
  {
    if items != [] {
      FirstUnitTellsKind(items[0]);
      ItemsSplit(items, more, r);
    }
  }

  lemma {:induction false} FieldsArePrefixFree(a: seq<Field>, b: seq<Field>, more: bool, r1: seq<Unit>, r2: seq<Unit>)
    requires PrintFields(a, more) + ([CLOSE_BRACE] + r1) == PrintFields(b, more) + ([CLOSE_BRACE] + r2)
    ensures a == b && r1 == r2
    decreases a, 0
  {
    FieldsStart(a, more, r1);
    FieldsStart(b, more, r2);
    if a != [] && b != [] {
      var u, v := PrintFields(a[1..], true) + ([CLOSE_BRACE] + r1), PrintFields(b[1..], true) + ([CLOSE_BRACE] + r2);
      var s, t := [COLON] + (Print(a[0].value) + u), [COLON] + (Print(b[0].value) + v);
      FieldsSplit(a, more, r1);
      FieldsSplit(b, more, r2);
      SameLengthSplit(Separator(more), Separator(more), Quoted(a[0].key) + s, Quoted(b[0].key) + t);
      QuotedIsPrefixFree(a[0].key, b[0].key, s, t);
      SameLengthSplit([COLON], [COLON], Print(a[0].value) + u, Print(b[0].value) + v);
      FieldsStart(a[1..], true, r1);
      FieldsStart(b[1..], true, r2);
      PrintIsPrefixFree(a[0].value, b[0].value, u, v);
      FieldsArePrefixFree(a[1..], b[1..], true, r1, r2);
    }
  }

  lemma FieldsSplit(fields: seq<Field>, more: bool, r: seq<Unit>)
    requires fields != []
    ensures PrintFields(fields, more) + ([CLOSE_BRACE] + r)
         == Separator(more) + (Quoted(fields[0].key) + ([COLON] +
              (Print(fields[0].value) + (PrintFields(fields[1..], true) + ([CLOSE_BRACE] + r)))))
  {
    var k, p, q := Quoted(fields[0].key), Print(fields[0].value), PrintFields(fields[1..], true);
    var z := [CLOSE_BRACE] + r;
    Reassociate(Separator(more) + k + [COLON] + p, q, z);
    Reassociate(Separator(more) + k + [COLON], p, q + z);
    Reassociate(Separator(more) + k, [COLON], p + (q + z));
    Reassociate(Separator(more), k, [COLON] + (p + (q + z)));
  }

  lemma FieldsStart(fields: seq<Field>, more: bool, r: seq<Unit>)
    ensures var x := PrintFields(fields, more) + ([CLOSE_BRACE] + r);
            && (x[0] == CLOSE_BRACE <==> fields == [])
            && (fields == [] ==> x[1..] == r)
            && (more ==> Delimited(x))
  {
    if fields != [] {
      FieldsSplit(fields, more, r);
    }
  }

  /** Different values never print alike, so a reader can tell exactly what was sent. */
  lemma PrintIsInjective(v: Json, w: Json)
    requires Print(v) == Print(w)
    ensures v == w
  {
    assert Print(v) + [] == Print(v) && Print(w) + [] == Print(w);
    PrintIsPrefixFree(v, w, [], []);
  }

  datatype Parsed = NotJson | Parsed(value: Json)

  /** The value a printed text stands for. */
  ghost function Parse(text: seq<Unit>): Parsed {
    if exists v :: Print(v) == text then
      var v :| Print(v) == text;
      Parsed(v)
    else NotJson
  }

  lemma ParsePrinted(v: Json)
    ensures Parse(Print(v)) == Parsed(v)
  {
    var w :| Print(w) == Print(v);
    forall x | Print(x) == Print(v)
      ensures x == v
    {
      PrintIsInjective(x, v);
    }
  }
}

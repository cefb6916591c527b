/**
 Keeping what is stored about one tool call to a bounded excerpt that the database accepts, with a
 marker that says it was cut.
 */
module BoundPayload {
  import opened Unicode
  import opened Utf16
  import opened Json
  import opened Options

  function Decimal(n: nat): (d: Token)
    ensures forall i :: 0 <= i < |d| ==> IsDigit(d[i])
  {
    if n < 10 then [48 + n] else Decimal(n / 10) + [48 + n % 10]
  }

  /** The number digits stand for, the first one counting most. */
  function NumberOf(digits: seq<Unit>): int {
    if digits == [] then 0
    else NumberOf(digits[..|digits| - 1]) * 10 + digits[|digits| - 1] - 48
  }

  lemma {:induction false} DecimalIsRead(n: nat)
    ensures NumberOf(Decimal(n)) == n && Decimal(n) != [] && (n > 0 ==> Decimal(n)[0] != 48)
  {
    if n < 10 {
      assert NumberOf([]) == 0 && [48 + n][..0] == [];
    } else {
      DecimalIsRead(n / 10);
      assert Decimal(n)[..|Decimal(n)| - 1] == Decimal(n / 10);
    }
  }

  const ELLIPSIS: Unit := 0x2026
  const NUL: Unit := 0
  const REPLACED: Unit := 0xFFFD
  const MARKER: seq<Unit> := Ascii("_amcp_truncated")

  datatype Shape = Shape(arrayItems: nat, stringChars: nat, depth: nat)

  const SHAPES: seq<Shape> := [
    Shape(25, 2000, 8),
    Shape(10, 1000, 6),
    Shape(5, 400, 5),
    Shape(3, 200, 4),
    Shape(1, 100, 3)
  ]

  // ----- what the database refuses in text

  predicate IsUnstorable(s: seq<Unit>, i: nat)
    requires i < |s|
  {
    || s[i] == NUL
    || (IsHigh(s[i]) && !(i + 1 < |s| && IsLow(s[i + 1])))
    || (IsLow(s[i]) && !(i > 0 && IsHigh(s[i - 1])))
  }

  function CleanText(s: seq<Unit>): (r: seq<Unit>)
    ensures |r| == |s|
  {
    seq(|s|, i requires 0 <= i < |s| => if IsUnstorable(s, i) then REPLACED else s[i])
  }

  ghost predicate IsStorable(s: seq<Unit>) {
    WellFormed(s) && NUL !in s
  }

  /** The value with every string in it cleaned; keys are left as they are. */
  function Cleaned(v: Json): Json
    decreases v, 1
  {
    match v
    case String(s) => String(CleanText(s))
    case Array(items) => Array(CleanedItems(items))
    case Object(fields) => Object(CleanedFields(fields))
    case _ => v
  }

  function CleanedItems(items: seq<Json>): seq<Json>
    decreases items, 0
  {
    if items == [] then [] else [Cleaned(items[0])] + CleanedItems(items[1..])
  }

  function CleanedFields(fields: seq<Field>): seq<Field>
    decreases fields, 0
  {
    if fields == [] then []
    else [Field(fields[0].key, Cleaned(fields[0].value))] + CleanedFields(fields[1..])
  }

  ghost predicate AllStorable(v: Json)
    decreases v, 1
  {
    match v
    case String(s) => IsStorable(s)
    case Array(items) => ItemsStorable(items)
    case Object(fields) => FieldsStorable(fields)
    case _ => true
  }

  ghost predicate ItemsStorable(items: seq<Json>)
    decreases items, 0
  {
    items != [] ==> AllStorable(items[0]) && ItemsStorable(items[1..])
  }

  ghost predicate FieldsStorable(fields: seq<Field>)
    decreases fields, 0
  {
    fields != [] ==> AllStorable(fields[0].value) && FieldsStorable(fields[1..])
  }

  predicate IsHex(u: Unit) {
    IsDigit(u) || 65 <= u <= 70 || 97 <= u <= 102
  }

  /** `\u0000` or `\ud8xx` to `\udfxx`, whatever the case of the letters. */
  predicate UnstorableEscapeAt(text: seq<Unit>, i: nat) {
    && i + 6 <= |text|
    && text[i] == BACKSLASH
    && (text[i + 1] == 117 || text[i + 1] == 85)
    && (|| text[i + 2] == text[i + 3] == text[i + 4] == text[i + 5] == 48
        || (&& (text[i + 2] == 100 || text[i + 2] == 68)
            && IsHex(text[i + 3]) && text[i + 3] >= 56
            && IsHex(text[i + 4]) && IsHex(text[i + 5])))
  }

  predicate HasUnstorableEscape(text: seq<Unit>) {
    exists i: nat | i < |text| :: UnstorableEscapeAt(text, i)
  }

  /** Cleans only when the printed text shows that something may have to be. */
  function Storable(v: Json): Json {
    if HasUnstorableEscape(Print(v)) then Cleaned(v) else v
  }

  // ----- cleaning one string

  function CleanHead(s: seq<Unit>): seq<Unit>
    requires s != []
  {
    if StartsPair(s) then s[..2]
    else if StartsLone(s) || s[0] == NUL then [REPLACED]
    else [s[0]]
  }

  lemma CleanTextByHead(s: seq<Unit>)
    requires s != []
    ensures CleanText(s) == CleanHead(s) + CleanText(s[HeadLength(s)..])
    ensures HeadLength(CleanText(s)) == HeadLength(s) && !StartsLone(CleanText(s))
    ensures CleanText(s)[HeadLength(s)..] == CleanText(s[HeadLength(s)..])
    ensures EscapeHead(CleanText(s)) == EscapeHead(CleanHead(s))
  {
    var n := HeadLength(s);
    var head, rest := CleanText(s)[..n], CleanText(s[n..]);
    CleanFirst(s);
    forall i | 0 <= i < |rest|
      ensures CleanText(s)[n..][i] == rest[i]
    {
      CleanLater(s, i);
    }
    assert CleanText(s)[n..] == rest;
    assert CleanText(s) == head + rest;
  }

  lemma CleanFirst(s: seq<Unit>)
    requires s != []
    ensures CleanText(s)[..HeadLength(s)] == CleanHead(s)
    ensures HeadLength(CleanText(s)) == HeadLength(s) && !StartsLone(CleanText(s))
    ensures EscapeHead(CleanText(s)) == EscapeHead(CleanHead(s))
  {
    assert StartsPair(s) ==> !IsUnstorable(s, 0) && !IsUnstorable(s, 1);
    assert IsUnstorable(s, 0) <==> StartsLone(s) || s[0] == NUL;
  }

  lemma CleanLater(s: seq<Unit>, i: nat)
    requires s != [] && HeadLength(s) + i < |s|
    ensures CleanText(s)[HeadLength(s) + i] == CleanText(s[HeadLength(s)..])[i]
  {
    var n := HeadLength(s);
    var rest := s[n..];
    assert rest[i] == s[n + i] && (i + 1 < |rest| ==> rest[i + 1] == s[n + i + 1]);
    if i > 0 {
      assert rest[i - 1] == s[n + i - 1];
    } else {
      assert IsHigh(s[n - 1]) ==> !IsLow(s[n]);
    }
    assert IsUnstorable(rest, i) <==> IsUnstorable(s, n + i);
  }

  /** Cleaning gives storable text and leaves storable text alone. */
  lemma {:induction false} CleanTextIsStorable(s: seq<Unit>)
    ensures IsStorable(CleanText(s))
    ensures IsStorable(s) ==> CleanText(s) == s
    decreases |s|
  {
    if s != [] {
      var n := HeadLength(s);
      CleanTextByHead(s);
      CleanTextIsStorable(s[n..]);
      assert s == s[..n] + s[n..];
    }
  }

  // ----- cleaning never lengthens what is printed

  ghost predicate Narrower(a: seq<Unit>, b: seq<Unit>) {
    WellFormed(a) && WellFormed(b) && ByteLength(a) <= ByteLength(b)
  }

  lemma NarrowerConcat(a: seq<Unit>, b: seq<Unit>, c: seq<Unit>, d: seq<Unit>)
    requires Narrower(a, b) && Narrower(c, d)
    ensures Narrower(a + c, b + d)
  {
    ByteLengthConcat(a, c);
    ByteLengthConcat(b, d);
    ConcatWellFormed(a, c);
    ConcatWellFormed(b, d);
  }

  lemma ReplacedTakesThree()
    ensures WellFormed([REPLACED]) && ByteLength([REPLACED]) == 3
  {
    assert Scalars([REPLACED]) == [REPLACED as int];
    assert Encode([REPLACED as int]) == EncodeChar(REPLACED) + [];
  }

  /** A six-byte escape gives way to the three bytes of the replacement character. */
  lemma CleanHeadIsNarrower(s: seq<Unit>)
    requires s != []
    ensures Narrower(EscapeHead(CleanHead(s)), EscapeHead(s))
  {
    EscapeHeadIsOneLine(s);
    EscapeHeadIsOneLine(CleanHead(s));
    if (StartsLone(s) || s[0] == NUL) && !StartsPair(s) {
      AsciiIsWellFormed(EscapeHead(s));
      assert EscapeHead(CleanHead(s)) == [REPLACED];
      ReplacedTakesThree();
    } else if StartsPair(s) {
      assert EscapeHead(CleanHead(s)) == EscapeHead(s);
    }
  }

  lemma {:induction false} CleanEscapeIsNarrower(s: seq<Unit>)
    ensures Narrower(Escape(CleanText(s)), Escape(s))
    decreases |s|
  {
    if s != [] {
      var rest := s[HeadLength(s)..];
      CleanTextByHead(s);
      CleanEscapeIsNarrower(rest);
      CleanHeadIsNarrower(s);
      NarrowerConcat(EscapeHead(CleanHead(s)), EscapeHead(s), Escape(CleanText(rest)), Escape(rest));
    }
  }

  lemma NarrowerBetween(open: Unit, close: Unit, a: seq<Unit>, b: seq<Unit>)
    requires 0x20 <= open < 0x80 && 0x20 <= close < 0x80 && Narrower(a, b)
    ensures Narrower([open] + a + [close], [open] + b + [close])
  {
    OneLineAscii([open]);
    OneLineAscii([close]);
    NarrowerConcat([open], [open], a, b);
    NarrowerConcat([open] + a, [open] + b, [close], [close]);
  }

  /** The storable form of a value never prints to more bytes than the value. */
  lemma {:induction false} CleanedIsNarrower(v: Json)
    ensures Narrower(Print(Cleaned(v)), Print(v))
    decreases v, 1
  {
    PrintIsOneLine(v);
    match v
    case String(s) =>
      CleanEscapeIsNarrower(s);
      NarrowerBetween(QUOTE, QUOTE, Escape(CleanText(s)), Escape(s));
    case Array(items) =>
      CleanedItemsNarrower(items, false);
      NarrowerBetween(OPEN_BRACKET, CLOSE_BRACKET, PrintItems(CleanedItems(items), false), PrintItems(items, false));
    case Object(fields) =>
      CleanedFieldsNarrower(fields, false);
      NarrowerBetween(OPEN_BRACE, CLOSE_BRACE, PrintFields(CleanedFields(fields), false), PrintFields(fields, false));
    case _ =>
  }

  lemma {:induction false} CleanedItemsNarrower(items: seq<Json>, more: bool)
    ensures Narrower(PrintItems(CleanedItems(items), more), PrintItems(items, more))
    decreases items, 0
  {
    if items != [] {
      var x, c := items[0], Separator(more);
      var rest, rest' := PrintItems(items[1..], true), PrintItems(CleanedItems(items[1..]), true);
      OneLineAscii(c);
      CleanedIsNarrower(x);
      CleanedItemsNarrower(items[1..], true);
      NarrowerConcat(c, c, Print(Cleaned(x)), Print(x));
      NarrowerConcat(c + Print(Cleaned(x)), c + Print(x), rest', rest);
      assert CleanedItems(items)[1..] == CleanedItems(items[1..]);
    }
  }

  lemma {:induction false} CleanedFieldsNarrower(fields: seq<Field>, more: bool)
    ensures Narrower(PrintFields(CleanedFields(fields), more), PrintFields(fields, more))
    decreases fields, 0
  {
    if fields != [] {
      var f := fields[0];
      var c := Separator(more) + Quoted(f.key) + [COLON];
      var rest, rest' := PrintFields(fields[1..], true), PrintFields(CleanedFields(fields[1..]), true);
      OneLineAscii(Separator(more));
      QuotedIsOneLine(f.key);
      OneLineConcat(Separator(more), Quoted(f.key));
      OneLineAscii([COLON]);
      OneLineConcat(Separator(more) + Quoted(f.key), [COLON]);
      CleanedIsNarrower(f.value);
      CleanedFieldsNarrower(fields[1..], true);
      NarrowerConcat(c, c, Print(Cleaned(f.value)), Print(f.value));
      NarrowerConcat(c + Print(Cleaned(f.value)), c + Print(f.value), rest', rest);
      assert CleanedFields(fields)[1..] == CleanedFields(fields[1..]);
    }
  }

  // ----- the test on the printed text misses nothing

  lemma EscapeBefore(a: seq<Unit>, b: seq<Unit>)
    requires HasUnstorableEscape(a)
    ensures HasUnstorableEscape(a + b)
  {
    var i: nat :| i < |a| && UnstorableEscapeAt(a, i);
    var t := a + b;
    assert forall k :: 0 <= k < |a| ==> t[k] == a[k];
    assert UnstorableEscapeAt(t, i);
  }

  lemma EscapeAfter(a: seq<Unit>, b: seq<Unit>)
    requires HasUnstorableEscape(b)
    ensures HasUnstorableEscape(a + b)
  {
    var i: nat :| i < |b| && UnstorableEscapeAt(b, i);
    var t := a + b;
    assert forall k :: 0 <= k < |b| ==> t[|a| + k] == b[k];
    assert UnstorableEscapeAt(t, |a| + i);
  }

  lemma EscapeBetween(open: Unit, b: seq<Unit>, close: Unit)
    requires HasUnstorableEscape(b)
    ensures HasUnstorableEscape([open] + b + [close])
  {
    EscapeAfter([open], b);
    EscapeBefore([open] + b, [close]);
  }

  lemma BadHeadShows(s: seq<Unit>)
    requires s != [] && (StartsLone(s) || s[0] == NUL)
    ensures HasUnstorableEscape(EscapeHead(s))
  {
    assert EscapeHead(s) == HexEscape(s[0]);
    if s[0] != NUL {
      assert s[0] / 0x1000 == 13 && 8 <= s[0] / 0x100 % 16;
    }
    assert UnstorableEscapeAt(HexEscape(s[0]), 0);
  }

  lemma StorableByHead(s: seq<Unit>)
    requires s != [] && !StartsLone(s) && s[0] != NUL && IsStorable(s[HeadLength(s)..])
    ensures IsStorable(s)
  {
    var rest := s[HeadLength(s)..];
    forall i | 0 <= i < |s|
      ensures s[i] != NUL
    {
      if i >= HeadLength(s) {
        assert s[i] == rest[i - HeadLength(s)];
      }
    }
  }

  lemma {:induction false} BadStringShows(s: seq<Unit>)
    requires !IsStorable(s)
    ensures HasUnstorableEscape(Escape(s))
    decreases |s|
  {
    if s != [] {
      var head, rest := EscapeHead(s), Escape(s[HeadLength(s)..]);
      if StartsLone(s) || s[0] == NUL {
        BadHeadShows(s);
        EscapeBefore(head, rest);
      } else if IsStorable(s[HeadLength(s)..]) {
        StorableByHead(s);
      } else {
        BadStringShows(s[HeadLength(s)..]);
        EscapeAfter(head, rest);
      }
    }
  }

  lemma {:induction false} BadValueShows(v: Json)
    ensures AllStorable(v) || HasUnstorableEscape(Print(v))
    decreases v, 1
  {
    match v
    case String(s) =>
      if !IsStorable(s) {
        BadStringShows(s);
        EscapeBetween(QUOTE, Escape(s), QUOTE);
      }
    case Array(items) =>
      BadItemShows(items, false);
      if !ItemsStorable(items) {
        EscapeBetween(OPEN_BRACKET, PrintItems(items, false), CLOSE_BRACKET);
      }
    case Object(fields) =>
      BadFieldShows(fields, false);
      if !FieldsStorable(fields) {
        EscapeBetween(OPEN_BRACE, PrintFields(fields, false), CLOSE_BRACE);
      }
    case _ =>
  }

  lemma {:induction false} BadItemShows(items: seq<Json>, more: bool)
    ensures ItemsStorable(items) || HasUnstorableEscape(PrintItems(items, more))
    decreases items, 0
  {
    if items != [] {
      var before, p, rest := Separator(more), Print(items[0]), PrintItems(items[1..], true);
      BadValueShows(items[0]);
      BadItemShows(items[1..], true);
      if !AllStorable(items[0]) {
        EscapeAfter(before, p);
        EscapeBefore(before + p, rest);
      } else if !ItemsStorable(items[1..]) {
        EscapeAfter(before + p, rest);
      }
    }
  }

  lemma {:induction false} BadFieldShows(fields: seq<Field>, more: bool)
    ensures FieldsStorable(fields) || HasUnstorableEscape(PrintFields(fields, more))
    decreases fields, 0
  {
    if fields != [] {
      var before := Separator(more) + Quoted(fields[0].key) + [COLON];
      var p, rest := Print(fields[0].value), PrintFields(fields[1..], true);
      BadValueShows(fields[0].value);
      BadFieldShows(fields[1..], true);
      if !AllStorable(fields[0].value) {
        EscapeAfter(before, p);
        EscapeBefore(before + p, rest);
      } else if !FieldsStorable(fields[1..]) {
        EscapeAfter(before + p, rest);
      }
    }
  }

  lemma {:induction false} CleanedIsStorable(v: Json)
    ensures AllStorable(Cleaned(v))
    ensures AllStorable(v) ==> Cleaned(v) == v
    decreases v, 1
  {
    match v
    case String(s) => CleanTextIsStorable(s);
    case Array(items) => CleanedItemsAreStorable(items);
    case Object(fields) => CleanedFieldsAreStorable(fields);
    case _ =>
  }

  lemma {:induction false} CleanedItemsAreStorable(items: seq<Json>)
    ensures ItemsStorable(CleanedItems(items))
    ensures ItemsStorable(items) ==> CleanedItems(items) == items
    decreases items, 0
  {
    if items != [] {
      CleanedIsStorable(items[0]);
      CleanedItemsAreStorable(items[1..]);
      assert CleanedItems(items)[1..] == CleanedItems(items[1..]);
    }
  }

  lemma {:induction false} CleanedFieldsAreStorable(fields: seq<Field>)
    ensures FieldsStorable(CleanedFields(fields))
    ensures FieldsStorable(fields) ==> CleanedFields(fields) == fields
    decreases fields, 0
  {
    if fields != [] {
      CleanedIsStorable(fields[0].value);
      CleanedFieldsAreStorable(fields[1..]);
      assert CleanedFields(fields)[1..] == CleanedFields(fields[1..]);
    }
  }

  /** Looking at the printed text first changes nothing: the result is always the cleaned value. */
  lemma StorableIsCleaned(v: Json)
    ensures Storable(v) == Cleaned(v) && AllStorable(Storable(v))
    ensures ByteLength(Print(Storable(v))) <= ByteLength(Print(v))
  {
    BadValueShows(v);
    CleanedIsStorable(v);
    CleanedIsNarrower(v);
  }

  // ----- the excerpt

  function Shortened(s: seq<Unit>, chars: nat): seq<Unit> {
    if |s| > chars
    then s[..chars] + [ELLIPSIS] + Ascii(" [") + Decimal(|s| - chars) + Ascii(" more chars]")
    else s
  }

  function Shrink(v: Json, shape: Shape, depth: nat): Json
    decreases v, 1
  {
    match v
    case String(s) => String(Shortened(s, shape.stringChars))
    case Array(items) =>
      if depth >= shape.depth then String(Ascii("[array of ") + Decimal(|items|) + Ascii("]"))
      else
        var kept := ShrinkItems(items, shape, depth + 1, shape.arrayItems);
        Array(if |items| > shape.arrayItems
              then kept + [String([ELLIPSIS] + Ascii(" ") + Decimal(|items| - shape.arrayItems) + Ascii(" more items"))]
              else kept)
    case Object(fields) =>
      if depth >= shape.depth then String(Ascii("[object]")) else Object(ShrinkFields(fields, shape, depth + 1))
    case _ => v
  }

  /** At most `n` items, each shrunk. */
  function ShrinkItems(items: seq<Json>, shape: Shape, depth: nat, n: nat): seq<Json>
    decreases items, 0
  {
    if items == [] || n == 0 then []
    else [Shrink(items[0], shape, depth)] + ShrinkItems(items[1..], shape, depth, n - 1)
  }

  function ShrinkFields(fields: seq<Field>, shape: Shape, depth: nat): seq<Field>
    decreases fields, 0
  {
    if fields == [] then []
    else [Field(fields[0].key, Shrink(fields[0].value, shape, depth))] + ShrinkFields(fields[1..], shape, depth)
  }

  function Without(fields: seq<Field>, key: seq<Unit>): seq<Field> {
    if fields == [] then []
    else (if fields[0].key == key then [] else [fields[0]]) + Without(fields[1..], key)
  }

  /** The value of a key, the last one written. */
  function Lookup(fields: seq<Field>, key: seq<Unit>, default: Json): Json {
    if fields == [] then default
    else if fields[|fields| - 1].key == key then fields[|fields| - 1].value
    else Lookup(fields[..|fields| - 1], key, default)
  }

  function Marker(originalBytes: nat): Json {
    Object([Field(Ascii("originalBytes"), Number(Decimal(originalBytes)))])
  }

  /** `{ marker, ...fields }`: a field of that name in the payload takes the marker's place. */
  function Wrap(shrunk: Json, marker: Json): Json {
    match shrunk
    case Object(fields) => Object([Field(MARKER, Lookup(fields, MARKER, marker))] + Without(fields, MARKER))
    case _ => Object([Field(MARKER, marker), Field(Ascii("value"), shrunk)])
  }

  function Bytes(v: Json): nat {
    ByteLength(Print(v))
  }

  function TextExcerpt(v: Json, chars: nat): Json {
    var json := Print(v);
    Object([Field(MARKER, Marker(ByteLength(json))),
            Field(Ascii("excerpt"), String(if chars < |json| then json[..chars] else json))])
  }

  function TextStart(maxBytes: nat): nat {
    if maxBytes < 200 then 0 else maxBytes - 200
  }

  /** The payload shrunk to the shape, with its marker. */
  function Wrapped(v: Json, i: nat): Json
    requires i < |SHAPES|
  {
    Wrap(Shrink(v, SHAPES[i], 0), Marker(Bytes(v)))
  }

  /** No excerpt of a shape from `i` up to `n` fits. */
  ghost predicate NoneFits(v: Json, maxBytes: nat, i: nat, n: nat) {
    forall j :: i <= j < n && j < |SHAPES| ==> Bytes(Wrapped(v, j)) > maxBytes
  }

  /** The first shape from `i` on whose excerpt fits, or their number. */
  function FirstFit(v: Json, maxBytes: nat, i: nat): (n: nat)
    requires i <= |SHAPES|
    ensures i <= n <= |SHAPES|
    ensures n < |SHAPES| ==> Bytes(Wrapped(v, n)) <= maxBytes
    ensures NoneFits(v, maxBytes, i, n)
    decreases |SHAPES| - i
  {
    if i == |SHAPES| || Bytes(Wrapped(v, i)) <= maxBytes then i else FirstFit(v, maxBytes, i + 1)
  }

  /** The text excerpt, shortened by a fifth until it fits or is empty. */
  function ShortestText(v: Json, maxBytes: nat, chars: nat): Json
    decreases chars
  {
    var text := TextExcerpt(v, chars);
    if chars == 0 || Bytes(text) <= maxBytes then text else ShortestText(v, maxBytes, chars * 4 / 5)
  }

  /** The excerpt of the first shape that fits, else a text excerpt. */
  function Excerpt(v: Json, maxBytes: nat): Json {
    var n := FirstFit(v, maxBytes, 0);
    if n < |SHAPES| then Wrapped(v, n) else FittingText(v, maxBytes)
  }

  function FittingText(v: Json, maxBytes: nat): Json {
    ShortestText(v, maxBytes, TextStart(maxBytes))
  }

  function Bounded(v: Json, maxBytes: nat): Json {
    if v == Null then v
    else Storable(if Bytes(v) <= maxBytes then v else Excerpt(v, maxBytes))
  }

  method BoundValue(v: Json, maxBytes: nat) returns (r: Json)
    ensures r == Bounded(v, maxBytes)
  {
    if v == Null {
      return v;
    }
    if Bytes(v) <= maxBytes {
      return Storable(v);
    }
    var fit := FirstThatFits(v, maxBytes);
    if fit.Some? {
      return Storable(fit.value);
    }
    var text := ShortenText(v, maxBytes);
    return Storable(text);
  }

  method FirstThatFits(v: Json, maxBytes: nat) returns (r: Option<Json>)
    ensures var n := FirstFit(v, maxBytes, 0);
            r == if n < |SHAPES| then Some(Wrapped(v, n)) else None
  {
    var marker := Marker(Bytes(v));
    for i := 0 to |SHAPES|
      invariant FirstFit(v, maxBytes, 0) == FirstFit(v, maxBytes, i)
    {
      var wrapped := Wrap(Shrink(v, SHAPES[i], 0), marker);
      assert wrapped == Wrapped(v, i);
      if Bytes(wrapped) <= maxBytes {
        return Some(wrapped);
      }
    }
    return None;
  }

  method ShortenText(v: Json, maxBytes: nat) returns (text: Json)
    ensures text == FittingText(v, maxBytes)
  {
    var chars := TextStart(maxBytes);
    text := TextExcerpt(v, chars);
    while chars != 0 && Bytes(text) > maxBytes
      invariant text == TextExcerpt(v, chars)
      invariant ShortestText(v, maxBytes, chars) == ShortestText(v, maxBytes, TextStart(maxBytes))
      decreases chars
    {
      chars := chars * 4 / 5;
      text := TextExcerpt(v, chars);
    }
  }

  const NOT_SERIALIZABLE: Json :=
    Object([Field(MARKER, Object([Field(Ascii("reason"), String(Ascii("not serializable")))]))])

  datatype Payload = Undefined | Unserializable | Payload(v: Json)

  /** What is stored for a payload: absent values stay absent, the rest becomes a bounded value. */
  method BoundPayload(p: Payload, maxBytes: nat) returns (r: Payload)
    ensures p.Payload? ==> r == Payload(Bounded(p.v, maxBytes))
    ensures p.Undefined? ==> r == p
    ensures p.Unserializable? ==> r == Payload(NOT_SERIALIZABLE)
  {
    match p
    case Undefined => r := p;
    case Unserializable => r := Payload(NOT_SERIALIZABLE);
    case Payload(v) =>
      var bounded := BoundValue(v, maxBytes);
      r := Payload(bounded);
  }

  // ----- what the result keeps to

  lemma {:induction false} ShortestTextFits(v: Json, maxBytes: nat, chars: nat)
    ensures Bytes(ShortestText(v, maxBytes, chars)) <= maxBytes || ShortestText(v, maxBytes, chars) == TextExcerpt(v, 0)
    decreases chars
  {
    if chars != 0 && Bytes(TextExcerpt(v, chars)) > maxBytes {
      ShortestTextFits(v, maxBytes, chars * 4 / 5);
    }
  }

  /**
   Whatever is stored fits the budget, save only a budget too small for the marker with an
   empty excerpt, which is then what is stored. Every string stored is storable, and a small
   storable value is stored as it is.
   */
  lemma BoundedFits(v: Json, maxBytes: nat)
    ensures v == Null || Bytes(Bounded(v, maxBytes)) <= maxBytes ||
            (Bytes(TextExcerpt(v, 0)) > maxBytes && Bounded(v, maxBytes) == Storable(TextExcerpt(v, 0)))
    ensures AllStorable(Bounded(v, maxBytes))
    ensures Bytes(v) <= maxBytes && AllStorable(v) ==> Bounded(v, maxBytes) == v
  {
    ShortestTextFits(v, maxBytes, TextStart(maxBytes));
    StorableIsCleaned(if Bytes(v) <= maxBytes then v else Excerpt(v, maxBytes));
    CleanedIsStorable(v);
  }

  // ----- what an excerpt looks like

  function Keys(fields: seq<Field>): seq<seq<Unit>> {
    if fields == [] then [] else [fields[0].key] + Keys(fields[1..])
  }

  /** Nothing in the value is over the limits of the shape. */
  ghost predicate Within(v: Json, shape: Shape, depth: nat)
    decreases v, 1
  {
    match v
    case String(s) => |s| <= shape.stringChars
    case Array(items) => depth < shape.depth && |items| <= shape.arrayItems && ItemsWithin(items, shape, depth + 1)
    case Object(fields) => depth < shape.depth && FieldsWithin(fields, shape, depth + 1)
    case _ => true
  }

  ghost predicate ItemsWithin(items: seq<Json>, shape: Shape, depth: nat)
    decreases items, 0
  {
    items != [] ==> Within(items[0], shape, depth) && ItemsWithin(items[1..], shape, depth)
  }

  ghost predicate FieldsWithin(fields: seq<Field>, shape: Shape, depth: nat)
    decreases fields, 0
  {
    fields != [] ==> Within(fields[0].value, shape, depth) && FieldsWithin(fields[1..], shape, depth)
  }

  /** Nested no deeper than the shape allows, with at most one note after the items kept. */
  ghost predicate Coarse(v: Json, shape: Shape, depth: nat)
    decreases v, 1
  {
    match v
    case Array(items) => depth < shape.depth && |items| <= shape.arrayItems + 1 && ItemsCoarse(items, shape, depth + 1)
    case Object(fields) => depth < shape.depth && FieldsCoarse(fields, shape, depth + 1)
    case _ => true
  }

  ghost predicate ItemsCoarse(items: seq<Json>, shape: Shape, depth: nat)
    decreases items, 0
  {
    items != [] ==> Coarse(items[0], shape, depth) && ItemsCoarse(items[1..], shape, depth)
  }

  ghost predicate FieldsCoarse(fields: seq<Field>, shape: Shape, depth: nat)
    decreases fields, 0
  {
    fields != [] ==> Coarse(fields[0].value, shape, depth) && FieldsCoarse(fields[1..], shape, depth)
  }

  /** Shrinking bounds nesting and array lengths, keeps field names, and leaves alone what already fits. */
  lemma {:induction false} ShrinkBoundsStructure(v: Json, shape: Shape, depth: nat)
    ensures Coarse(Shrink(v, shape, depth), shape, depth)
    ensures Within(v, shape, depth) ==> Shrink(v, shape, depth) == v
    ensures v.Object? && depth < shape.depth ==>
              Shrink(v, shape, depth).Object? && Keys(Shrink(v, shape, depth).fields) == Keys(v.fields)
    decreases v, 1
  {
    match v
    case Array(items) =>
      if depth < shape.depth {
        ShrinkBoundsItems(items, shape, depth + 1, shape.arrayItems);
        var kept := ShrinkItems(items, shape, depth + 1, shape.arrayItems);
        var more := if |items| > shape.arrayItems then |items| - shape.arrayItems else 0;
        var note := String([ELLIPSIS] + Ascii(" ") + Decimal(more) + Ascii(" more items"));
        CoarseAppend(kept, note, shape, depth + 1);
      }
    case Object(fields) =>
      if depth < shape.depth {
        ShrinkBoundsFields(fields, shape, depth + 1);
      }
    case _ =>
  }

  lemma {:induction false} CoarseAppend(items: seq<Json>, note: Json, shape: Shape, depth: nat)
    requires ItemsCoarse(items, shape, depth) && note.String?
    ensures ItemsCoarse(items + [note], shape, depth)
    decreases |items|
  {
    if items != [] {
      CoarseAppend(items[1..], note, shape, depth);
      assert (items + [note])[1..] == items[1..] + [note];
    }
  }

  lemma {:induction false} ShrinkBoundsItems(items: seq<Json>, shape: Shape, depth: nat, n: nat)
    ensures ItemsCoarse(ShrinkItems(items, shape, depth, n), shape, depth)
    ensures |ShrinkItems(items, shape, depth, n)| == if |items| <= n then |items| else n
    ensures ItemsWithin(items, shape, depth) && |items| <= n ==> ShrinkItems(items, shape, depth, n) == items
    decreases items, 0
  {
    if items != [] && n > 0 {
      ShrinkBoundsStructure(items[0], shape, depth);
      ShrinkBoundsItems(items[1..], shape, depth, n - 1);
      assert ShrinkItems(items, shape, depth, n)[1..] == ShrinkItems(items[1..], shape, depth, n - 1);
    }
  }

  lemma {:induction false} ShrinkBoundsFields(fields: seq<Field>, shape: Shape, depth: nat)
    ensures FieldsCoarse(ShrinkFields(fields, shape, depth), shape, depth)
    ensures Keys(ShrinkFields(fields, shape, depth)) == Keys(fields)
    ensures FieldsWithin(fields, shape, depth) ==> ShrinkFields(fields, shape, depth) == fields
    decreases fields, 0
  {
    if fields != [] {
      ShrinkBoundsStructure(fields[0].value, shape, depth);
      ShrinkBoundsFields(fields[1..], shape, depth);
      assert ShrinkFields(fields, shape, depth)[1..] == ShrinkFields(fields[1..], shape, depth);
    }
  }

  lemma {:induction false} LookupAbsent(fields: seq<Field>, key: seq<Unit>, default: Json)
    requires key !in Keys(fields)
    ensures Lookup(fields, key, default) == default
    decreases |fields|
  {
    if fields != [] {
      var init, last := fields[..|fields| - 1], fields[|fields| - 1];
      KeysAppend(init, last);
      assert fields == init + [last];
      LookupAbsent(init, key, default);
    }
  }

  lemma {:induction false} KeysAppend(fields: seq<Field>, f: Field)
    ensures Keys(fields + [f]) == Keys(fields) + [f.key]
  {
    if fields != [] {
      KeysAppend(fields[1..], f);
      assert (fields + [f])[1..] == fields[1..] + [f];
    } else {
      assert [f][1..] == [];
    }
  }

  // ----- whether an excerpt says that it was cut

  ghost predicate HasKey(v: Json, key: seq<Unit>) {
    v.Object? && key in Keys(v.fields)
  }

  /** What an object says under a key. */
  function Under(v: Json, key: seq<Unit>): Json {
    if v.Object? then Lookup(v.fields, key, Null) else Null
  }

  /** Looking up in fields whose values were all mapped. */
  lemma {:induction false} LookupMapped(
      fields: seq<Field>, mapped: seq<Field>, key: seq<Unit>, default: Json, g: Json -> Json)
    requires |mapped| == |fields|
    requires forall i :: 0 <= i < |fields| ==> mapped[i] == Field(fields[i].key, g(fields[i].value))
    ensures Lookup(mapped, key, default) == if key in Keys(fields) then g(Lookup(fields, key, Null)) else default
    decreases |fields|
  {
    if fields != [] {
      var n := |fields| - 1;
      LookupMapped(fields[..n], mapped[..n], key, default, g);
      KeysAppend(fields[..n], fields[n]);
      assert fields == fields[..n] + [fields[n]];
    }
  }

  lemma {:induction false} ShrunkFields(fields: seq<Field>, shape: Shape, depth: nat)
    ensures var shrunk := ShrinkFields(fields, shape, depth);
            && |shrunk| == |fields|
            && forall i :: 0 <= i < |fields| ==>
                  shrunk[i] == Field(fields[i].key, Shrink(fields[i].value, shape, depth))
    decreases |fields|
  {
    if fields != [] {
      ShrunkFields(fields[1..], shape, depth);
    }
  }

  lemma {:induction false} CleanFields(fields: seq<Field>)
    ensures var clean := CleanedFields(fields);
            && |clean| == |fields|
            && forall i :: 0 <= i < |fields| ==> clean[i] == Field(fields[i].key, Cleaned(fields[i].value))
    decreases |fields|
  {
    if fields != [] {
      CleanFields(fields[1..]);
    }
  }

  lemma {:induction false} WithoutHasNot(fields: seq<Field>, key: seq<Unit>)
    ensures key !in Keys(Without(fields, key))
  {
    if fields != [] {
      WithoutHasNot(fields[1..], key);
      if fields[0].key == key {
        assert Without(fields, key) == Without(fields[1..], key);
      } else {
        assert ([fields[0]] + Without(fields[1..], key))[1..] == Without(fields[1..], key);
      }
    }
  }

  lemma {:induction false} LookupFirst(f: Field, rest: seq<Field>)
    requires f.key !in Keys(rest)
    ensures Lookup([f] + rest, f.key, Null) == f.value
    decreases |rest|
  {
    if rest == [] {
      assert [f] + rest == [f];
    } else {
      var init, last := rest[..|rest| - 1], rest[|rest| - 1];
      KeysAppend(init, last);
      assert rest == init + [last];
      assert ([f] + rest)[..|rest|] == [f] + init;
      LookupFirst(f, init);
    }
  }

  lemma KeysOfOne(f: Field)
    ensures Keys([f]) == [f.key]
  {
    assert [f][1..] == [];
  }

  /** Wrapping puts the marker under its key unless the payload has something there. */
  lemma WrapMarks(shrunk: Json, marker: Json)
    ensures Under(Wrap(shrunk, marker), MARKER) ==
            if shrunk.Object? then Lookup(shrunk.fields, MARKER, marker) else marker
  {
    if shrunk.Object? {
      WithoutHasNot(shrunk.fields, MARKER);
      LookupFirst(Field(MARKER, Lookup(shrunk.fields, MARKER, marker)), Without(shrunk.fields, MARKER));
    } else {
      assert MARKER[0] == 95 && Ascii("value")[0] == 118;
      LookupFirstOfTwo(Field(MARKER, marker), Field(Ascii("value"), shrunk));
    }
  }

  lemma LookupFirstOfTwo(f: Field, g: Field)
    requires f.key != g.key
    ensures Under(Object([f, g]), f.key) == f.value
  {
    KeysOfOne(g);
    LookupFirst(f, [g]);
    assert [f] + [g] == [f, g];
  }

  lemma WrappedSays(v: Json, i: nat)
    requires i < |SHAPES|
    ensures Under(Wrapped(v, i), MARKER) ==
            if HasKey(v, MARKER) then Shrink(Under(v, MARKER), SHAPES[i], 1) else Marker(Bytes(v))
  {
    var shape := SHAPES[i];
    WrapMarks(Shrink(v, shape, 0), Marker(Bytes(v)));
    if v.Object? {
      LookupShrunk(v.fields, shape, 1, MARKER, Marker(Bytes(v)));
    }
  }

  lemma LookupShrunk(fields: seq<Field>, shape: Shape, depth: nat, key: seq<Unit>, default: Json)
    ensures Lookup(ShrinkFields(fields, shape, depth), key, default) ==
            if key in Keys(fields) then Shrink(Lookup(fields, key, Null), shape, depth) else default
  {
    ShrunkFields(fields, shape, depth);
    LookupMapped(fields, ShrinkFields(fields, shape, depth), key, default, (x: Json) => Shrink(x, shape, depth));
  }

  lemma TextIsMarked(v: Json, chars: nat)
    ensures Under(TextExcerpt(v, chars), MARKER) == Marker(Bytes(v))
  {
    var json := Print(v);
    assert MARKER[0] == 95 && Ascii("excerpt")[0] == 101;
    LookupFirstOfTwo(Field(MARKER, Marker(ByteLength(json))),
                     Field(Ascii("excerpt"), String(if chars < |json| then json[..chars] else json)));
  }

  lemma {:induction false} ShortestTextIsMarked(v: Json, maxBytes: nat, chars: nat)
    ensures Under(ShortestText(v, maxBytes, chars), MARKER) == Marker(Bytes(v))
    ensures ShortestText(v, maxBytes, chars).Object?
    decreases chars
  {
    TextIsMarked(v, chars);
    if chars != 0 && Bytes(TextExcerpt(v, chars)) > maxBytes {
      ShortestTextIsMarked(v, maxBytes, chars * 4 / 5);
    }
  }

  /** What an excerpt says under the marker's key. */
  ghost function Said(v: Json, n: nat): Json {
    if n < |SHAPES| && HasKey(v, MARKER) then Shrink(Under(v, MARKER), SHAPES[n], 1) else Marker(Bytes(v))
  }

  lemma ExcerptSays(v: Json, maxBytes: nat)
    ensures var r, n := Excerpt(v, maxBytes), FirstFit(v, maxBytes, 0);
            r.Object? && Under(r, MARKER) == Said(v, n)
  {
    ShortestTextIsMarked(v, maxBytes, TextStart(maxBytes));
    var n := FirstFit(v, maxBytes, 0);
    if n < |SHAPES| {
      WrappedSays(v, n);
    }
  }

  lemma CleanedUnder(r: Json, key: seq<Unit>)
    requires r.Object?
    ensures Under(Cleaned(r), key) == Cleaned(Under(r, key))
  {
    CleanFields(r.fields);
    LookupMapped(r.fields, CleanedFields(r.fields), key, Null, Cleaned);
    if key !in Keys(r.fields) {
      LookupAbsent(r.fields, key, Null);
    }
  }

  lemma CleanedIsMarkerIff(x: Json, n: nat)
    ensures Cleaned(x) == Marker(n) <==> x == Marker(n)
  {
    if x.Object? {
      CleanFields(x.fields);
      var f := Field(Ascii("originalBytes"), Number(Decimal(n)));
      assert Cleaned(x) == Marker(n) ==> CleanedFields(x.fields) == [f];
      if |x.fields| == 1 {
        assert x.fields == [x.fields[0]];
        assert CleanedFields(x.fields) == [Field(x.fields[0].key, Cleaned(x.fields[0].value))];
        assert CleanedFields(x.fields) == [f] <==> x.fields[0].key == f.key && Cleaned(x.fields[0].value) == f.value;
      }
    }
  }

  /**
   A payload that was cut says so under the marker's key, with its original size, exactly when
   it has nothing under that key itself, or no shape fits, or what it has there shrinks to that
   very marker.
   */
  lemma ExcerptIsMarkedIff(v: Json, maxBytes: nat)
    requires v != Null && Bytes(v) > maxBytes
    ensures var r, n := Bounded(v, maxBytes), FirstFit(v, maxBytes, 0);
            && r.Object?
            && (Under(r, MARKER) == Marker(Bytes(v)) <==>
                !HasKey(v, MARKER) || n == |SHAPES| || Shrink(Under(v, MARKER), SHAPES[n], 1) == Marker(Bytes(v)))
  {
    var excerpt := Excerpt(v, maxBytes);
    ExcerptSays(v, maxBytes);
    StorableIsCleaned(excerpt);
    CleanedUnder(excerpt, MARKER);
    CleanedIsMarkerIff(Under(excerpt, MARKER), Bytes(v));
  }

  // ----- a payload that loses the marker

  const LETTER: Unit := 120 // "x"

  function Letters(n: nat): (s: seq<Unit>)
    ensures |s| == n && forall i :: 0 <= i < n ==> s[i] == LETTER
  {
    seq(n, _ => LETTER)
  }

  /** A single field of the marker's name, with a long text. */
  const LONG: Json := String(Letters(3000))
  const IN_THE_WAY: Json := Object([Field(MARKER, LONG)])

  lemma {:induction false} PlainEscape(s: seq<Unit>)
    requires Plain(s)
    ensures Escape(s) == s && WellFormed(s) && ByteLength(s) <= 3 * |s|
    ensures (forall i :: 0 <= i < |s| ==> s[i] < 0x80) ==> ByteLength(s) == |s|
  {
    if s != [] {
      PlainEscape(s[1..]);
      assert EscapeHead(s) == [s[0]] && s == [s[0]] + s[1..];
    }
  }

  /** Characters that are neither escaped nor parts of a pair; one of them takes at most three bytes. */
  predicate IsPlain(u: Unit) {
    u == ELLIPSIS || (32 <= u < 0x80 && u != QUOTE && u != BACKSLASH)
  }

  ghost predicate Plain(s: seq<Unit>) {
    forall i :: 0 <= i < |s| ==> IsPlain(s[i])
  }

  lemma PlainConcat(a: seq<Unit>, b: seq<Unit>)
    requires Plain(a) && Plain(b)
    ensures Plain(a + b)
  {
  }

  lemma AsciiIsPlain(s: string)
    requires forall i :: 0 <= i < |s| ==> ' ' <= s[i] < 128 as char && s[i] != '"' && s[i] != '\\'
    ensures Plain(Ascii(s)) && IsAscii(Ascii(s))
  {
  }

  /** The text of an object with one field, up to the text of its string. */
  function Frame(key: seq<Unit>): seq<Unit> {
    [OPEN_BRACE, QUOTE] + key + [QUOTE, COLON, QUOTE]
  }

  lemma OneField(f: Field)
    ensures Print(Object([f])) == [OPEN_BRACE] + (Quoted(f.key) + [COLON] + Print(f.value)) + [CLOSE_BRACE]
  {
    assert [f][1..] == [];
    assert PrintFields([f], false) == [] + Quoted(f.key) + [COLON] + Print(f.value) + [];
  }

  lemma PrintOneField(key: seq<Unit>, s: seq<Unit>)
    requires Plain(key) && Plain(s)
    ensures Print(Object([Field(key, String(s))])) == Frame(key) + s + [QUOTE, CLOSE_BRACE]
  {
    PlainEscape(key);
    PlainEscape(s);
    OneField(Field(key, String(s)));
    Around(key, s);
  }

  lemma Around(key: seq<Unit>, s: seq<Unit>)
    ensures [OPEN_BRACE] + ([QUOTE] + key + [QUOTE] + [COLON] + ([QUOTE] + s + [QUOTE])) + [CLOSE_BRACE]
         == Frame(key) + s + [QUOTE, CLOSE_BRACE]
  {
  }

  lemma OneFieldBytes(key: seq<Unit>, s: seq<Unit>)
    requires Plain(key) && IsAscii(key) && Plain(s)
    ensures Bytes(Object([Field(key, String(s))])) == |Frame(key)| + ByteLength(s) + 2
  {
    PrintOneField(key, s);
    PlainEscape(s);
    AsciiIsWellFormed(Frame(key));
    AsciiIsWellFormed([QUOTE, CLOSE_BRACE]);
    ConcatWellFormed(Frame(key), s);
    ByteLengthConcat(Frame(key), s);
    ByteLengthConcat(Frame(key) + s, [QUOTE, CLOSE_BRACE]);
  }

  /** What is left of the long text in the first shape. */
  function Cut(): seq<Unit> {
    Shortened(Letters(3000), 2000)
  }

  lemma ThousandDigits()
    ensures |Decimal(1000)| == 4
  {
    assert |Decimal(1)| == 1 && |Decimal(10)| == 2 && |Decimal(100)| == 3;
  }

  lemma {:induction false} DecimalIsPlain(n: nat)
    ensures Plain(Decimal(n))
  {
    if n >= 10 {
      DecimalIsPlain(n / 10);
    }
  }

  /** What follows the characters kept. */
  function Note(n: nat): seq<Unit> {
    [ELLIPSIS] + Ascii(" [") + Decimal(n) + Ascii(" more chars]")
  }

  lemma NoteIsShort()
    ensures Plain(Note(1000)) && ByteLength(Note(1000)) <= 57
  {
    AsciiIsPlain(" [");
    AsciiIsPlain(" more chars]");
    DecimalIsPlain(1000);
    ThousandDigits();
    PlainConcat([ELLIPSIS], Ascii(" ["));
    PlainConcat([ELLIPSIS] + Ascii(" ["), Decimal(1000));
    PlainConcat([ELLIPSIS] + Ascii(" [") + Decimal(1000), Ascii(" more chars]"));
    PlainEscape(Note(1000));
  }

  lemma CutIsStartAndNote()
    ensures Cut() == Letters(2000) + Note(1000)
  {
    assert Letters(3000)[..2000] == Letters(2000);
    assert Letters(2000) + [ELLIPSIS] + Ascii(" [") + Decimal(1000) + Ascii(" more chars]") ==
           Letters(2000) + Note(1000);
  }

  lemma CutIsShorter()
    ensures Plain(Cut()) && ByteLength(Cut()) < 3000
  {
    CutIsStartAndNote();
    NoteIsShort();
    PlainEscape(Letters(2000));
    PlainConcat(Letters(2000), Note(1000));
    ByteLengthConcat(Letters(2000), Note(1000));
  }

  lemma WrappedInTheWay()
    ensures Wrapped(IN_THE_WAY, 0) == Object([Field(MARKER, String(Cut()))])
  {
    var fields := [Field(MARKER, LONG)];
    assert fields[1..] == [];
    assert ShrinkFields(fields, SHAPES[0], 1) == [Field(MARKER, String(Cut()))];
    var shrunk := [Field(MARKER, String(Cut()))];
    assert shrunk[1..] == [] && Without(shrunk, MARKER) == [];
  }

  lemma IsCutDown()
    ensures Bytes(IN_THE_WAY) > Bytes(Wrapped(IN_THE_WAY, 0))
  {
    AsciiIsPlain("_amcp_truncated");
    WrappedInTheWay();
    CutIsShorter();
    OneFieldBytes(MARKER, Cut());
    OneFieldBytes(MARKER, Letters(3000));
    PlainEscape(Letters(3000));
  }

  /** A text under the marker's name takes its place in the first shape. */
  lemma TextInTheWay(v: Json, maxBytes: nat)
    requires v != Null && Bytes(v) > maxBytes && FirstFit(v, maxBytes, 0) == 0
    requires HasKey(v, MARKER) && Under(v, MARKER).String?
    ensures Under(Bounded(v, maxBytes), MARKER) != Marker(Bytes(v))
  {
    ExcerptIsMarkedIff(v, maxBytes);
  }

  lemma HasTextInTheWay()
    ensures IN_THE_WAY != Null && HasKey(IN_THE_WAY, MARKER) && Under(IN_THE_WAY, MARKER) == LONG
  {
    KeysOfOne(Field(MARKER, LONG));
  }

  /**
   A payload whose field of the marker's name is a long text: it is cut, and what is stored
   under that name is the start of the text, so nothing says that it was cut.
   */
  lemma MarkerIsLost()
    ensures var maxBytes := Bytes(Wrapped(IN_THE_WAY, 0));
            && Bytes(IN_THE_WAY) > maxBytes
            && Under(Bounded(IN_THE_WAY, maxBytes), MARKER) != Marker(Bytes(IN_THE_WAY))
  {
    IsCutDown();
    HasTextInTheWay();
    TextInTheWay(IN_THE_WAY, Bytes(Wrapped(IN_THE_WAY, 0)));
  }

  // ----- error text

  function BoundText(text: seq<Unit>, maxChars: nat): seq<Unit> {
    CleanText(if |text| > maxChars
              then text[..maxChars] + [ELLIPSIS] + Ascii(" [truncated, ") + Decimal(|text|) + Ascii(" chars]")
              else text)
  }

  /** Stored error text is storable, is the text itself when that was fine, and else starts like it. */
  lemma BoundTextKeepsStart(text: seq<Unit>, maxChars: nat)
    ensures IsStorable(BoundText(text, maxChars))
    ensures IsStorable(text) && |text| <= maxChars ==> BoundText(text, maxChars) == text
    ensures forall i :: 0 <= i < |text| && i < maxChars && !IsUnstorable(text, i)
              && (i + 1 < maxChars || !IsHigh(text[i]))
              ==> BoundText(text, maxChars)[i] == text[i]
  {
    CleanTextIsStorable(text);
    if |text| > maxChars {
      var cut := text[..maxChars] + [ELLIPSIS] + Ascii(" [truncated, ") + Decimal(|text|) + Ascii(" chars]");
      CleanTextIsStorable(cut);
      CutKeepsStart(text, maxChars, cut);
    }
  }

  lemma CutKeepsStart(text: seq<Unit>, n: nat, cut: seq<Unit>)
    requires n < |text| && n < |cut| && cut[..n] == text[..n]
    ensures forall i :: 0 <= i < n && !IsUnstorable(text, i) && (i + 1 < n || !IsHigh(text[i]))
              ==> CleanText(cut)[i] == text[i]
  {
    forall i | 0 <= i < n && !IsUnstorable(text, i) && (i + 1 < n || !IsHigh(text[i]))
      ensures CleanText(cut)[i] == text[i]
    {
      assert cut[..n][i] == text[..n][i];
      assert i > 0 ==> cut[..n][i - 1] == text[..n][i - 1];
      assert i + 1 < n ==> cut[..n][i + 1] == text[..n][i + 1];
    }
  }
}

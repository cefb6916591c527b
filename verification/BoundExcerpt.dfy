/** What an excerpt keeps of the payload: the first characters, the first items and the fields, while they fit. */
module BoundExcerpt {
  import opened Options
  import opened Unicode
  import opened Utf16
  import opened Json
  import opened BoundPayload

  // ----- what shrinking keeps

  /** A text over the limit keeps its first characters, and says how many more there are. */
  lemma LongTextKeepsStart(s: seq<Unit>, chars: nat)
    requires |s| > chars
    ensures var note := [ELLIPSIS] + Ascii(" [") + Decimal(|s| - chars) + Ascii(" more chars]");
            Shortened(s, chars) == s[..chars] + note
    ensures Shortened(s, chars)[..chars] == s[..chars] && |Shortened(s, chars)| > chars
  {
    var note := [ELLIPSIS] + Ascii(" [") + Decimal(|s| - chars) + Ascii(" more chars]");
    assert s[..chars] + [ELLIPSIS] + Ascii(" [") + Decimal(|s| - chars) + Ascii(" more chars]") == s[..chars] + note;
    assert note[0] == ELLIPSIS;
  }

  lemma {:induction false} FirstItemsAreKept(items: seq<Json>, shape: Shape, depth: nat, n: nat)
    ensures var r := ShrinkItems(items, shape, depth, n);
            && |r| == (if |items| <= n then |items| else n)
            && forall i :: 0 <= i < |r| ==> r[i] == Shrink(items[i], shape, depth)
    decreases |items|
  {
    if items != [] && n > 0 {
      FirstItemsAreKept(items[1..], shape, depth, n - 1);
    }
  }

  /** The items from `n` on are counted in a note behind the first ones. */
  ghost predicate KeepsFirst(items: seq<Json>, r: seq<Json>, shape: Shape, depth: nat) {
    && |r| == (if |items| <= shape.arrayItems then |items| else shape.arrayItems + 1)
    && (forall i :: 0 <= i < |r| && i < shape.arrayItems ==> r[i] == Shrink(items[i], shape, depth))
    && (|items| > shape.arrayItems ==> r[shape.arrayItems].String?)
  }

  ghost predicate KeepsFields(fields: seq<Field>, r: seq<Field>, shape: Shape, depth: nat) {
    && |r| == |fields|
    && forall i :: 0 <= i < |r| ==> r[i] == Field(fields[i].key, Shrink(fields[i].value, shape, depth))
  }

  /**
   Above the deepest level a list keeps its first items and an object all its fields, each shrunk
   in turn; below it both become a note. A text keeps its start, and other values stay.
   */
  lemma ShrinkKeeps(v: Json, shape: Shape, depth: nat)
    ensures var r := Shrink(v, shape, depth);
            match v
            case String(s) =>
              r.String? && (if |s| <= shape.stringChars then r.s == s
                            else |r.s| > shape.stringChars && r.s[..shape.stringChars] == s[..shape.stringChars])
            case Array(items) =>
              if depth < shape.depth then r.Array? && KeepsFirst(items, r.items, shape, depth + 1) else r.String?
            case Object(fields) =>
              if depth < shape.depth then r.Object? && KeepsFields(fields, r.fields, shape, depth + 1) else r.String?
            case _ => r == v
  {
    match v
    case String(s) =>
      if |s| > shape.stringChars {
        LongTextKeepsStart(s, shape.stringChars);
      }
    case Array(items) => FirstItemsAreKept(items, shape, depth + 1, shape.arrayItems);
    case Object(fields) => ShrunkFields(fields, shape, depth + 1);
    case _ =>
  }

  // ----- what is put beside the marker

  lemma {:induction false} LookupBehind(f: Field, rest: seq<Field>, key: seq<Unit>, default: Json)
    requires f.key != key
    ensures Lookup([f] + rest, key, default) == Lookup(rest, key, default)
    decreases |rest|
  {
    if rest == [] {
      assert [f] + rest == [f] && [f][..0] == [];
    } else {
      assert ([f] + rest)[..|rest|] == [f] + rest[..|rest| - 1];
      LookupBehind(f, rest[..|rest| - 1], key, default);
    }
  }

  lemma {:induction false} LookupAppend(fields: seq<Field>, f: Field, key: seq<Unit>, default: Json)
    ensures Lookup(fields + [f], key, default) == if f.key == key then f.value else Lookup(fields, key, default)
  {
    assert (fields + [f])[..|fields|] == fields;
  }

  lemma {:induction false} WithoutAppend(fields: seq<Field>, f: Field, key: seq<Unit>)
    ensures Without(fields + [f], key) == Without(fields, key) + if f.key == key then [] else [f]
    decreases |fields|
  {
    if fields == [] {
      assert [] + [f] == [f] && [f][1..] == [];
    } else {
      assert (fields + [f])[1..] == fields[1..] + [f];
      WithoutAppend(fields[1..], f, key);
      Associate(if fields[0].key == key then [] else [fields[0]], Without(fields[1..], key),
                if f.key == key then [] else [f]);
    }
  }

  lemma Associate<T>(a: seq<T>, b: seq<T>, c: seq<T>)
    ensures a + (b + c) == a + b + c
  {
  }

  lemma {:induction false} OthersStay(fields: seq<Field>, gone: seq<Unit>, key: seq<Unit>, default: Json)
    requires key != gone
    ensures Lookup(Without(fields, gone), key, default) == Lookup(fields, key, default)
    decreases |fields|
  {
    if fields != [] {
      var init, last := fields[..|fields| - 1], fields[|fields| - 1];
      assert fields == init + [last];
      WithoutAppend(init, last, gone);
      OthersStay(init, gone, key, default);
      LookupAppend(init, last, key, default);
      LookupAppend(Without(init, gone), last, key, default);
      assert Without(init, gone) + [] == Without(init, gone);
    }
  }

  /** Beside the marker an excerpt has every other field of the payload, shrunk; what is no object is its `value`. */
  lemma ExcerptHoldsFields(v: Json, i: nat, key: seq<Unit>)
    requires i < |SHAPES| && key != MARKER
    ensures if v.Object? then Under(Wrapped(v, i), key) == ShrunkUnder(v, key, SHAPES[i])
            else Under(Wrapped(v, i), Ascii("value")) == Shrink(v, SHAPES[i], 0)
  {
    if v.Object? {
      WrapKeepsOthers(ShrinkFields(v.fields, SHAPES[i], 1), Marker(Bytes(v)), key);
      LookupShrunk(v.fields, SHAPES[i], 1, key, Null);
    } else {
      ShrinkKeeps(v, SHAPES[i], 0);
      WrapHoldsValue(Shrink(v, SHAPES[i], 0), Marker(Bytes(v)));
    }
  }

  /** What a payload has under a key, shrunk to the shape. */
  function ShrunkUnder(v: Json, key: seq<Unit>, shape: Shape): Json {
    if v.Object? && key in Keys(v.fields) then Shrink(Lookup(v.fields, key, Null), shape, 1) else Null
  }

  lemma WrapKeepsOthers(fields: seq<Field>, marker: Json, key: seq<Unit>)
    requires key != MARKER
    ensures Under(Wrap(Object(fields), marker), key) == Lookup(fields, key, Null)
  {
    LookupBehind(Field(MARKER, Lookup(fields, MARKER, marker)), Without(fields, MARKER), key, Null);
    OthersStay(fields, MARKER, key, Null);
  }

  lemma WrapHoldsValue(shrunk: Json, marker: Json)
    requires !shrunk.Object?
    ensures Under(Wrap(shrunk, marker), Ascii("value")) == shrunk
  {
    LastOfTwo(Field(MARKER, marker), Field(Ascii("value"), shrunk));
  }

  /** From shape to shape fewer items, shorter texts and fewer levels are kept. */
  lemma ShapesNarrow(i: nat, j: nat)
    requires i < j < |SHAPES|
    ensures SHAPES[j].arrayItems < SHAPES[i].arrayItems <= 25
    ensures SHAPES[j].stringChars < SHAPES[i].stringChars <= 2000
    ensures SHAPES[j].depth < SHAPES[i].depth <= 8
    ensures SHAPES[j].arrayItems >= 1 && SHAPES[j].stringChars >= 100 && SHAPES[j].depth >= 3 && |SHAPES| == 5
  {
  }

  // ----- which excerpt is stored

  /** Of the five shapes the first whose excerpt fits is taken. */
  lemma FirstShapeThatFits(v: Json, maxBytes: nat, n: nat)
    requires v != Null && Bytes(v) > maxBytes
    requires n < |SHAPES| && Bytes(Wrapped(v, n)) <= maxBytes
    requires forall j :: 0 <= j < n ==> Bytes(Wrapped(v, j)) > maxBytes
    ensures Bounded(v, maxBytes) == Storable(Wrapped(v, n))
  {
    FirstFitIs(v, maxBytes, n);
  }

  lemma FirstFitIs(v: Json, maxBytes: nat, n: nat)
    requires n < |SHAPES| && Bytes(Wrapped(v, n)) <= maxBytes
    requires forall j :: 0 <= j < n ==> Bytes(Wrapped(v, j)) > maxBytes
    ensures FirstFit(v, maxBytes, 0) == n
  {
    assert NoneFits(v, maxBytes, 0, FirstFit(v, maxBytes, 0));
  }

  /** An excerpt of `chars` characters does not fit. */
  ghost predicate IsTooLong(v: Json, maxBytes: nat, chars: nat) {
    Bytes(TextExcerpt(v, chars)) > maxBytes
  }

  /** One fifth is taken off at a time, from all but 200 of the bytes allowed, until the excerpt fits. */
  lemma {:induction false} TextIsShortenedByFifths(v: Json, maxBytes: nat, chars: nat) returns (kept: nat)
    ensures ShortestText(v, maxBytes, chars) == TextExcerpt(v, kept) && kept <= chars
    ensures kept == 0 || !IsTooLong(v, maxBytes, kept)
    ensures kept < chars ==>
              exists longer :: kept < longer <= chars && longer * 4 / 5 == kept && IsTooLong(v, maxBytes, longer)
    decreases chars
  {
    kept := chars;
    if chars != 0 && IsTooLong(v, maxBytes, chars) {
      kept := TextIsShortenedByFifths(v, maxBytes, chars * 4 / 5);
      assert chars * 4 / 5 < chars;
    }
  }

  /**
   What is stored where no shape fits: the start of the payload's text, and as much of it as the
   steps of a fifth allow.
   */
  lemma TextExcerptIsLongEnough(v: Json, maxBytes: nat) returns (kept: nat)
    requires v != Null && Bytes(v) > maxBytes && FirstFit(v, maxBytes, 0) == |SHAPES|
    ensures Bounded(v, maxBytes) == Storable(TextExcerpt(v, kept)) && LongEnough(v, maxBytes, kept)
  {
    kept := FittingTextKeeps(v, maxBytes);
  }

  lemma FittingTextKeeps(v: Json, maxBytes: nat) returns (kept: nat)
    ensures FittingText(v, maxBytes) == TextExcerpt(v, kept) && LongEnough(v, maxBytes, kept)
  {
    kept := TextIsShortenedByFifths(v, maxBytes, TextStart(maxBytes));
  }

  /** It has 200 characters less than the bytes allowed, or before the last fifth was taken off it did not fit. */
  ghost predicate LongEnough(v: Json, maxBytes: nat, kept: nat) {
    || kept == maxBytes - 200
    || (maxBytes < 200 && kept == 0)
    || exists longer :: kept < longer <= maxBytes - 200 && longer * 4 / 5 == kept && IsTooLong(v, maxBytes, longer)
  }

  /** A text excerpt is the start of the payload's own text. */
  lemma ExcerptField(v: Json, chars: nat)
    ensures var excerpt := Under(TextExcerpt(v, chars), Ascii("excerpt"));
            excerpt.String? && IsStart(Print(v), chars, excerpt.s)
  {
    var json := Print(v);
    LastOfTwo(Field(MARKER, Marker(ByteLength(json))),
              Field(Ascii("excerpt"), String(if chars < |json| then json[..chars] else json)));
  }

  ghost predicate IsStart(text: seq<Unit>, chars: nat, start: seq<Unit>) {
    start <= text && |start| == if chars < |text| then chars else |text|
  }

  lemma LastOfTwo(f: Field, g: Field)
    ensures Under(Object([f, g]), g.key) == g.value
  {
    assert [f] + [g] == [f, g];
    LookupAppend([f], g, g.key, Null);
  }
}

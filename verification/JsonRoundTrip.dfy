/**
 Printing and reading undo each other.

 Reading the rendering of an object succeeds exactly when every direct key is non-empty and
 every direct array holds strings only; it then uses up the whole text, recovers strings,
 integers, booleans and string arrays, and recovers nested objects as their own text, at
 any nesting depth.
 */
module JsonRoundTrip {
  import opened CText
  import opened JsonText
  import opened JsonStability

  // ------------------------------------------------------------------- strings

  lemma ReadBodyOfPlain(c: char, tail: string)
    requires c != '"' && c != '\\'
    ensures ReadBody([c] + tail) == ([c] + ReadBody(tail).0, ReadBody(tail).1)
  {
    ReadBodyStep([c] + tail);
    assert ([c] + tail)[1..] == tail;
  }

  lemma ReadBodyOfPair(e: char, tail: string)
    ensures ReadBody(['\\', e] + tail) == ([Unescape(e)] + ReadBody(tail).0, ReadBody(tail).1)
  {
    ReadBodyStep(['\\', e] + tail);
    assert (['\\', e] + tail)[2..] == tail;
  }

  lemma ReadBodyOfChar(c: char, tail: string)
    ensures ReadBody(EscapeChar(c) + tail) == ([c] + ReadBody(tail).0, ReadBody(tail).1)
  {
    hide ReadBody;
    if EscapeChar(c) == [c] {
      ReadBodyOfPlain(c, tail);
    } else {
      ReadBodyOfPair(EscapeChar(c)[1], tail);
      assert EscapeChar(c) == ['\\', EscapeChar(c)[1]];
    }
  }

  lemma {:induction false} ReadBodyOfEscape(s: string, rest: string)
    ensures ReadBody(Escape(s) + "\"" + rest) == (s, rest)
  {
    if s == "" {
      assert "" + "\"" + rest == "\"" + rest;
      assert ("\"" + rest)[1..] == rest;
    } else {
      hide ReadBody, EscapeChar;
      var tail := Escape(s[1..]) + "\"" + rest;
      ReadBodyOfEscape(s[1..], rest);
      ReadBodyOfChar(s[0], tail);
      assert Escape(s) + "\"" + rest == EscapeChar(s[0]) + tail;
      assert s == [s[0]] + s[1..];
    }
  }

  lemma ReadStringOfQuote(s: string, rest: string)
    ensures ReadString(Quote(s) + rest) == (s, rest)
  {
    hide ReadBody, Escape;
    ReadBodyOfEscape(s, rest);
    assert (Quote(s) + rest)[1..] == Escape(s) + "\"" + rest;
  }

  // -------------------------------------------------------------------- arrays

  predicate AllStrings(items: seq<Json>) {
    forall i :: 0 <= i < |items| ==> items[i].Str?
  }

  function StringsOf(items: seq<Json>): seq<string>
    requires AllStrings(items)
  {
    seq(|items|, i requires 0 <= i < |items| => items[i].s)
  }

  lemma {:induction false} ReadMoreItemsOf(items: seq<Json>, rest: string)
    requires items != [] && AllStrings(items)
    ensures ReadMoreItems(RenderItems(items) + "]" + rest) == (StringsOf(items), rest)
    decreases |items|
  {
    hide Quote, ReadString, SkipSpaces;
    var tail := RenderMoreItems(items[1..]) + "]" + rest;
    assert RenderItems(items) + "]" + rest == Quote(items[0].s) + tail;
    ReadStringOfQuote(items[0].s, tail);
    NoSpacesToSkip(tail);
    if |items| == 1 {
      assert tail == "]" + rest;
      assert tail[1..] == rest;
      assert StringsOf(items) == [items[0].s];
    } else {
      assert items[1..] != [];
      assert tail == "," + (RenderItems(items[1..]) + "]" + rest) by {
        assert items[1..][1..] == items[2..];
      }
      assert tail[1..] == RenderItems(items[1..]) + "]" + rest;
      ReadMoreItemsOf(items[1..], rest);
      assert StringsOf(items) == [items[0].s] + StringsOf(items[1..]);
    }
  }

  lemma ReadArrayOf(items: seq<Json>, rest: string)
    requires AllStrings(items)
    ensures ReadArray(Render(Arr(items)) + rest) == (StringsOf(items), rest)
  {
    hide ReadMoreItems, RenderMoreItems, SkipSpaces;
    var t := Render(Arr(items)) + rest;
    var body := RenderItems(items) + "]" + rest;
    assert t == "[" + body;
    assert t[1..] == body;
    NoSpacesToSkip(body);
    if items == [] {
      assert body == "]" + rest;
      assert body[1..] == rest;
      assert SkipSpaces(t[1..]) == body;
      assert StringsOf(items) == [];
    } else {
      ReadMoreItemsOf(items, rest);
      assert body == Quote(items[0].s) + (RenderMoreItems(items[1..]) + "]" + rest);
      assert body[0] == '"';
    }
  }

  lemma NoSpacesToSkip(t: string)
    ensures t != "" && !IsSpace(t[0]) ==> SkipSpaces(t) == t
  {
  }

  /** How a value that is not a string starts. */
  predicate Opens(c: char) {
    IsDigit(c) || c == '-' || c == 't' || c == 'f' || c == '[' || c == '{'
  }

  lemma NonStringOpens(j: Json)
    requires !j.Str?
    ensures Render(j) != "" && Opens(Render(j)[0])
  {
    match j
    case Int(i) => assert AllDigits(NatText(if i < 0 then -(i as int) else i as int));
    case _ =>
  }

  /** An array with an element that is not a string stops the array reader at that element. */
  lemma {:induction false} ReadMoreItemsStuck(items: seq<Json>, rest: string)
    requires !AllStrings(items)
    ensures var r := ReadMoreItems(RenderItems(items) + "]" + rest).1; r != "" && Opens(r[0])
    decreases |items|
  {
    hide Quote, ReadBody, Render;
    var tail := RenderMoreItems(items[1..]) + "]" + rest;
    var t := RenderItems(items) + "]" + rest;
    assert t == Render(items[0]) + tail;
    if items[0].Str? {
      assert Render(items[0]) == Quote(items[0].s) by { RenderStr(items[0]); }
      assert ReadString(t) == (items[0].s, tail) by { ReadStringOfQuote(items[0].s, tail); }
      assert !AllStrings(items[1..]) by {
        var i :| 0 <= i < |items| && !items[i].Str?;
        assert items[1..][i-1] == items[i];
      }
      assert items[1..] != [];
      assert tail == "," + (RenderItems(items[1..]) + "]" + rest);
      assert tail[1..] == RenderItems(items[1..]) + "]" + rest;
      ReadMoreItemsStuck(items[1..], rest);
    } else {
      NonStringOpens(items[0]);
      assert t[0] == Render(items[0])[0];
      assert ReadString(t) == ("", t);
    }
  }

  lemma RenderStr(j: Json)
    requires j.Str?
    ensures Render(j) == Quote(j.s)
  {
  }

  lemma ReadArrayStuck(items: seq<Json>, rest: string)
    requires !AllStrings(items)
    ensures var r := ReadArray(Render(Arr(items)) + rest).1; r != "" && Opens(r[0])
  {
    hide ReadMoreItems;
    var t := Render(Arr(items)) + rest;
    var body := RenderItems(items) + "]" + rest;
    assert t == "[" + body;
    assert t[1..] == body;
    ReadMoreItemsStuck(items, rest);
    assert body != "" && !IsSpace(body[0]) && body[0] != ']' by {
      assert body[0] == Render(items[0])[0];
      if !items[0].Str? { NonStringOpens(items[0]); }
    }
    NoSpacesToSkip(body);
  }

  // ------------------------------------------------------------- nested objects

  predicate Plain(w: string) {
    forall i :: 0 <= i < |w| ==> w[i] != '{' && w[i] != '}' && w[i] != '"'
  }

  lemma {:induction false} SkipNestedPlain(w: string, depth: int, rest: string)
    requires Plain(w)
    ensures SkipNested(w + rest, depth) == SkipNested(rest, depth)
  {
    if w == "" {
      assert w + rest == rest;
    } else {
      assert (w + rest)[1..] == w[1..] + rest;
      SkipNestedPlain(w[1..], depth, rest);
    }
  }

  lemma SkipNestedQuote(s: string, depth: int, rest: string)
    ensures SkipNested(Quote(s) + rest, depth) == SkipNested(rest, depth)
  {
    hide ReadBody, Escape;
    var t := Quote(s) + rest;
    ReadBodyOfEscape(s, rest);
    assert t[1..] == Escape(s) + "\"" + rest;
  }

  lemma IntTextPlain(i: int)
    ensures Plain(IntText(i))
  {
    assert AllDigits(NatText(if i < 0 then -i else i));
  }

  /** Inside an object the reader passes over any rendered value, however deeply it nests. */
  lemma {:induction false} SkipNestedValue(j: Json, depth: int, rest: string)
    requires depth >= 1
    ensures SkipNested(Render(j) + rest, depth) == SkipNested(rest, depth)
    decreases j, 1
  {
    hide SkipNested, Quote, IntText;
    match j
    case Str(s) => SkipNestedQuote(s, depth, rest);
    case Int(i) => IntTextPlain(i); SkipNestedPlain(IntText(i), depth, rest);
    case Bool(b) => SkipNestedPlain(Render(j), depth, rest);
    case Arr(items) =>
      assert Render(j) + rest == "[" + (RenderItems(items) + ("]" + rest));
      SkipNestedPlain("[", depth, RenderItems(items) + ("]" + rest));
      SkipNestedItems(items, depth, "]" + rest);
      SkipNestedPlain("]", depth, rest);
    case Obj(fields) =>
      assert Render(j) + rest == "{" + (RenderFields(fields) + ("}" + rest));
      SkipNestedOpen(depth, RenderFields(fields) + ("}" + rest));
      SkipNestedFields(fields, depth + 1, "}" + rest);
      SkipNestedClose(depth + 1, rest);
  }

  lemma SkipNestedOpen(depth: int, rest: string)
    ensures SkipNested("{" + rest, depth) == SkipNested(rest, depth + 1)
  {
    assert ("{" + rest)[1..] == rest;
  }

  lemma SkipNestedClose(depth: int, rest: string)
    ensures SkipNested("}" + rest, depth) == if depth == 1 then rest else SkipNested(rest, depth - 1)
  {
    assert ("}" + rest)[1..] == rest;
  }

  lemma {:induction false} SkipNestedItems(items: seq<Json>, depth: int, rest: string)
    requires depth >= 1
    ensures SkipNested(RenderItems(items) + rest, depth) == SkipNested(rest, depth)
    decreases items, 0
  {
    hide SkipNested;
    if items == [] {
      assert RenderItems(items) + rest == rest;
    } else {
      var tail := RenderMoreItems(items[1..]) + rest;
      assert RenderItems(items) + rest == Render(items[0]) + tail;
      SkipNestedValue(items[0], depth, tail);
      SkipNestedMoreItems(items[1..], depth, rest);
    }
  }

  lemma {:induction false} SkipNestedMoreItems(items: seq<Json>, depth: int, rest: string)
    requires depth >= 1
    ensures SkipNested(RenderMoreItems(items) + rest, depth) == SkipNested(rest, depth)
    decreases items, 0
  {
    hide SkipNested;
    if items == [] {
      assert RenderMoreItems(items) + rest == rest;
    } else {
      var tail := RenderMoreItems(items[1..]) + rest;
      assert RenderMoreItems(items) + rest == "," + (Render(items[0]) + tail);
      SkipNestedPlain(",", depth, Render(items[0]) + tail);
      SkipNestedValue(items[0], depth, tail);
      SkipNestedMoreItems(items[1..], depth, rest);
    }
  }

  lemma {:induction false} SkipNestedField(f: Field, depth: int, rest: string)
    requires depth >= 1
    ensures SkipNested(RenderField(f) + rest, depth) == SkipNested(rest, depth)
    decreases f, 1
  {
    hide SkipNested, Quote;
    assert RenderField(f) + rest == Quote(f.key) + (":" + (Render(f.val) + rest));
    SkipNestedQuote(f.key, depth, ":" + (Render(f.val) + rest));
    SkipNestedPlain(":", depth, Render(f.val) + rest);
    SkipNestedValue(f.val, depth, rest);
  }

  lemma {:induction false} SkipNestedFields(fields: seq<Field>, depth: int, rest: string)
    requires depth >= 1
    ensures SkipNested(RenderFields(fields) + rest, depth) == SkipNested(rest, depth)
    decreases fields, 0
  {
    hide SkipNested, RenderField;
    if fields == [] {
      assert RenderFields(fields) + rest == rest;
    } else {
      var tail := RenderMoreFields(fields[1..]) + rest;
      assert RenderFields(fields) + rest == RenderField(fields[0]) + tail;
      SkipNestedField(fields[0], depth, tail);
      SkipNestedMoreFields(fields[1..], depth, rest);
    }
  }

  lemma {:induction false} SkipNestedMoreFields(fields: seq<Field>, depth: int, rest: string)
    requires depth >= 1
    ensures SkipNested(RenderMoreFields(fields) + rest, depth) == SkipNested(rest, depth)
    decreases fields, 0
  {
    hide SkipNested, RenderField;
    if fields == [] {
      assert RenderMoreFields(fields) + rest == rest;
    } else {
      var tail := RenderMoreFields(fields[1..]) + rest;
      assert RenderMoreFields(fields) + rest == "," + (RenderField(fields[0]) + tail);
      SkipNestedPlain(",", depth, RenderField(fields[0]) + tail);
      SkipNestedField(fields[0], depth, tail);
      SkipNestedMoreFields(fields[1..], depth, rest);
    }
  }

  /** The brace counter stops exactly behind the object it started on. */
  lemma SkipNestedObject(fields: seq<Field>, rest: string)
    ensures SkipNested(Render(Obj(fields)) + rest, 0) == rest
  {
    hide SkipNested, RenderFields;
    assert Render(Obj(fields)) + rest == "{" + (RenderFields(fields) + ("}" + rest));
    SkipNestedOpen(0, RenderFields(fields) + ("}" + rest));
    SkipNestedFields(fields, 1, "}" + rest);
    SkipNestedClose(1, rest);
  }

  // ------------------------------------------------------------- whole documents

  /** The direct values an object may hold for the parser to take it. */
  predicate Readable(f: Field) {
    f.key != "" && (f.val.Arr? ==> AllStrings(f.val.items))
  }

  predicate AllReadable(fields: seq<Field>) {
    forall i :: 0 <= i < |fields| ==> Readable(fields[i])
  }

  /** What reading one member adds to the maps. */
  function Store(m: Maps, f: Field): Maps
    requires Readable(f)
  {
    match f.val
    case Str(s) => m.(strings := m.strings[f.key := s])
    case Int(i) => m.(ints := m.ints[f.key := i])
    case Bool(b) => m.(strings := m.strings[f.key := if b then "true" else "false"])
    case Arr(items) => m.(arrays := m.arrays[f.key := StringsOf(items)])
    case Obj(_) => m.(strings := m.strings[f.key := Render(f.val)])
  }

  function StoreAll(m: Maps, fields: seq<Field>): Maps
    requires AllReadable(fields)
    decreases |fields|
  {
    if fields == [] then m else StoreAll(Store(m, fields[0]), fields[1..])
  }

  predicate Ends(rest: string) {
    rest != "" && (rest[0] == ',' || rest[0] == '}')
  }

  lemma {:induction false} SkipNumberOf(w: string, rest: string)
    requires forall i :: 0 <= i < |w| ==> IsNumberChar(w[i])
    requires rest != "" && !IsNumberChar(rest[0])
    ensures SkipNumber(w + rest) == rest
  {
    if w == "" {
      assert w + rest == rest;
    } else {
      assert (w + rest)[1..] == w[1..] + rest;
      SkipNumberOf(w[1..], rest);
    }
  }

  lemma ReadIntOf(key: string, i: Int64, m: Maps, rest: string)
    requires Ends(rest)
    ensures ReadValue(key, IntText(i) + rest, m) == (m.(ints := m.ints[key := i]), rest)
  {
    hide SkipNumber, Strtoll, NatText;
    var w := IntText(i);
    var t := w + rest;
    assert w != "" && forall k :: 0 <= k < |w| ==> IsNumberChar(w[k]) by {
      assert AllDigits(NatText(if (i as int) < 0 then -(i as int) else i as int));
    }
    SkipNumberOf(w, rest);
    StrtollReadsIntText(i);
    assert t[0] == w[0];
    assert Consumed(t, rest) == w;
  }

  lemma ReadValueOf(f: Field, m: Maps, rest: string)
    requires Readable(f) && Ends(rest)
    ensures ReadValue(f.key, Render(f.val) + rest, m) == (Store(m, f), rest)
  {
    hide ReadArray, SkipNested, Quote, RenderItems, RenderFields, SkipNumber;
    var t := Render(f.val) + rest;
    match f.val
    case Str(s) =>
      ReadStringOfQuote(s, rest);
      QuoteOpens(s);
      assert t[0] == Quote(s)[0];
    case Int(i) => ReadIntOf(f.key, i, m, rest);
    case Bool(b) =>
      if b { assert "true" <= t && t[4..] == rest; }
      else { assert "false" <= t && t[5..] == rest && t[0] == 'f'; }
    case Arr(items) => ReadArrayOf(items, rest);
    case Obj(fields) =>
      SkipNestedObject(fields, rest);
      assert t[0] == '{';
      assert Consumed(t, rest) == Render(f.val);
  }

  lemma QuoteOpens(s: string)
    ensures Quote(s) != "" && Quote(s)[0] == '"'
  {
  }

  lemma RenderOpens(j: Json)
    ensures Render(j) != "" && !IsSpace(Render(j)[0])
  {
    if !j.Str? { NonStringOpens(j); }
  }

  lemma ReadMemberOf(f: Field, m: Maps, rest: string)
    requires Readable(f) && Ends(rest)
    ensures ReadMember(RenderField(f) + rest, m) == Parsed(true, Store(m, f), rest)
  {
    hide ReadString, Quote, ReadValue, Render, SkipSpaces, Store;
    var t := RenderField(f) + rest;
    var value := Render(f.val) + rest;
    assert t == Quote(f.key) + (":" + value);
    ReadStringOfQuote(f.key, ":" + value);
    NoSpacesToSkip(":" + value);
    assert (":" + value)[1..] == value;
    RenderOpens(f.val);
    NoSpacesToSkip(value);
    ReadValueOf(f, m, rest);
    NoSpacesToSkip(rest);
  }

  lemma {:induction false} ReadFieldsOf(fields: seq<Field>, m: Maps, rest: string)
    requires fields != [] && AllReadable(fields)
    ensures ReadFields(RenderFields(fields) + "}" + rest, m) == Parsed(true, StoreAll(m, fields), rest)
    decreases |fields|
  {
    hide ReadMember, RenderField, Store;
    var tail := RenderMoreFields(fields[1..]) + "}" + rest;
    assert RenderFields(fields) + "}" + rest == RenderField(fields[0]) + tail;
    var more := fields[1..];
    if more == [] {
      assert tail == "}" + rest;
      assert tail[1..] == rest;
      ReadMemberOf(fields[0], m, tail);
    } else {
      assert tail == "," + (RenderFields(more) + "}" + rest);
      assert tail[1..] == RenderFields(more) + "}" + rest;
      ReadMemberOf(fields[0], m, tail);
      ReadFieldsOf(more, Store(m, fields[0]), rest);
    }
  }

  /** Reading back what was printed, with anything behind it. */
  lemma ReadObjectOf(fields: seq<Field>, rest: string)
    requires AllReadable(fields)
    ensures ReadObject(Render(Obj(fields)) + rest) == Parsed(true, StoreAll(NOTHING, fields), rest)
  {
    hide ReadFields, SkipSpaces, RenderField;
    var body := RenderFields(fields) + "}" + rest;
    var t := Render(Obj(fields)) + rest;
    assert t == "{" + body;
    assert t[1..] == body;
    NoSpacesToSkip(t);
    NoSpacesToSkip(body);
    if fields == [] {
      assert body == "}" + rest;
      assert body[1..] == rest;
    } else {
      ReadFieldsOf(fields, NOTHING, rest);
      FieldOpens(fields[0]);
      assert body[0] == RenderField(fields[0])[0];
    }
  }

  lemma FieldOpens(f: Field)
    ensures RenderField(f) != "" && RenderField(f)[0] == '"'
  {
    QuoteOpens(f.key);
  }

  lemma ReadMemberRejected(f: Field, m: Maps, rest: string)
    requires !Readable(f) && Ends(rest)
    ensures var p := ReadMember(RenderField(f) + rest, m); p.ok ==> p.rest != "" && Opens(p.rest[0])
  {
    hide ReadString, Quote, Render, SkipSpaces, ReadArray;
    var t := RenderField(f) + rest;
    var value := Render(f.val) + rest;
    assert t == Quote(f.key) + (":" + value);
    ReadStringOfQuote(f.key, ":" + value);
    if f.key != "" {
      NoSpacesToSkip(":" + value);
      assert (":" + value)[1..] == value;
      RenderOpens(f.val);
      NoSpacesToSkip(value);
      ReadArrayStuck(f.val.items, rest);
      assert value[0] == '[' by { ArrayOpens(f.val); }
      NoSpacesToSkip(ReadArray(value).1);
    }
  }

  lemma ArrayOpens(j: Json)
    requires j.Arr?
    ensures Render(j) != "" && Render(j)[0] == '['
  {
  }

  lemma {:induction false} ReadFieldsRejected(fields: seq<Field>, m: Maps, rest: string)
    requires !AllReadable(fields)
    ensures !ReadFields(RenderFields(fields) + "}" + rest, m).ok
    decreases |fields|
  {
    hide ReadMember, RenderField, Store, Readable;
    var more := fields[1..];
    var tail := RenderMoreFields(more) + "}" + rest;
    assert RenderFields(fields) + "}" + rest == RenderField(fields[0]) + tail;
    assert more == [] ==> tail == "}" + rest;
    assert more != [] ==> tail == "," + (RenderFields(more) + "}" + rest);
    assert Ends(tail);
    if !Readable(fields[0]) {
      ReadMemberRejected(fields[0], m, tail);
    } else {
      ReadMemberOf(fields[0], m, tail);
      var i :| 0 <= i < |fields| && !Readable(fields[i]);
      assert more[i-1] == fields[i];
      assert tail[1..] == RenderFields(more) + "}" + rest;
      ReadFieldsRejected(more, Store(m, fields[0]), rest);
    }
  }

  /**
   Exactly the objects with readable direct members are accepted. An object whose direct
   value is a non-empty array of objects is printed but never read back.
   */
  lemma AcceptedIffReadable(fields: seq<Field>)
    ensures Accepts(Render(Obj(fields))) <==> AllReadable(fields)
    ensures AllReadable(fields) ==> ReadObject(Render(Obj(fields))) == Parsed(true, StoreAll(NOTHING, fields), "")
  {
    hide ReadFields, SkipSpaces, RenderField, Readable, ReadObject, StoreAll;
    var t := Render(Obj(fields));
    if AllReadable(fields) {
      assert t + "" == t;
      ReadObjectOf(fields, "");
    } else {
      ReadObjectRejected(fields);
    }
  }

  lemma ReadObjectRejected(fields: seq<Field>)
    requires !AllReadable(fields)
    ensures !ReadObject(Render(Obj(fields))).ok
  {
    hide ReadFields, SkipSpaces, RenderField, Readable;
    var body := RenderFields(fields) + "}";
    var t := Render(Obj(fields));
    assert t == "{" + body;
    assert t[1..] == body;
    NoSpacesToSkip(t);
    NoSpacesToSkip(body);
    FieldOpens(fields[0]);
    assert body[0] == RenderField(fields[0])[0];
    assert body + "" == body;
    ReadFieldsRejected(fields, NOTHING, "");
  }

  /** No strict prefix of a readable printed object is ever accepted. */
  lemma PrintedObjectIsPrefixFree(fields: seq<Field>, prefix: string)
    requires AllReadable(fields)
    requires prefix <= Render(Obj(fields)) && prefix != Render(Obj(fields))
    ensures !Accepts(prefix)
  {
    hide ReadObject, StoreAll;
    AcceptedIffReadable(fields);
    NoStrictPrefixAccepted(Render(Obj(fields)), prefix);
  }

  // --------------------------------------------------------- member by member

  predicate DistinctKeys(fields: seq<Field>) {
    forall i, j :: 0 <= i < j < |fields| ==> fields[i].key != fields[j].key
  }

  /** The entry the parser's maps hold for a member, and in no other map. */
  predicate Holds(m: Maps, f: Field)
    requires Readable(f)
  {
    match f.val
    case Int(i) => f.key in m.ints && m.ints[f.key] == i && f.key !in m.strings && f.key !in m.arrays
    case Arr(items) => f.key in m.arrays && m.arrays[f.key] == StringsOf(items) && f.key !in m.strings && f.key !in m.ints
    case Str(s) => f.key in m.strings && m.strings[f.key] == s && f.key !in m.ints && f.key !in m.arrays
    case Bool(b) => f.key in m.strings && m.strings[f.key] == (if b then "true" else "false")
                    && f.key !in m.ints && f.key !in m.arrays
    case Obj(_) => f.key in m.strings && m.strings[f.key] == Render(f.val) && f.key !in m.ints && f.key !in m.arrays
  }

  predicate Absent(m: Maps, key: string) {
    key !in m.strings && key !in m.ints && key !in m.arrays
  }

  lemma {:induction false} StoreAllKeepsOthers(m: Maps, fields: seq<Field>, key: string)
    requires AllReadable(fields)
    requires forall i :: 0 <= i < |fields| ==> fields[i].key != key
    ensures var r := StoreAll(m, fields);
      && (key in r.strings <==> key in m.strings) && (key in r.ints <==> key in m.ints) && (key in r.arrays <==> key in m.arrays)
      && (key in m.strings ==> r.strings[key] == m.strings[key])
      && (key in m.ints ==> r.ints[key] == m.ints[key])
      && (key in m.arrays ==> r.arrays[key] == m.arrays[key])
    decreases |fields|
  {
    if fields != [] {
      StoreAllKeepsOthers(Store(m, fields[0]), fields[1..], key);
    }
  }

  lemma {:induction false} StoreAllHolds(m: Maps, fields: seq<Field>, k: nat)
    requires AllReadable(fields) && DistinctKeys(fields) && k < |fields|
    requires Absent(m, fields[k].key)
    ensures Holds(StoreAll(m, fields), fields[k])
    decreases |fields|
  {
    hide StringsOf, Render;
    var m1 := Store(m, fields[0]);
    if k == 0 {
      StoreAllKeepsOthers(m1, fields[1..], fields[0].key);
    } else {
      assert fields[1..][k-1] == fields[k];
      StoreAllHolds(m1, fields[1..], k - 1);
    }
  }

  /**
   The round trip: with distinct non-empty keys the parser recovers every member, and no
   other key; a nested object comes back as its own text, which is itself a rendering.
   */
  lemma EveryMemberRecovered(fields: seq<Field>, k: nat)
    requires AllReadable(fields) && DistinctKeys(fields) && k < |fields|
    ensures Accepts(Render(Obj(fields)))
    ensures Holds(ReadObject(Render(Obj(fields))).maps, fields[k])
  {
    hide ReadObject, StoreAll, Holds;
    AcceptedIffReadable(fields);
    StoreAllHolds(NOTHING, fields, k);
  }

  lemma NoOtherKeyRecovered(fields: seq<Field>, key: string)
    requires AllReadable(fields)
    requires forall i :: 0 <= i < |fields| ==> fields[i].key != key
    ensures Absent(ReadObject(Render(Obj(fields))).maps, key)
  {
    hide ReadObject, StoreAll;
    AcceptedIffReadable(fields);
    StoreAllKeepsOthers(NOTHING, fields, key);
  }

  // ------------------------------------------------------------ nested dumps

  /** Reads an object, takes the string under the first key, reads that as an object, and so on. */
  function Descend(t: string, keys: seq<string>): Option<string>
    decreases |keys|
  {
    if keys == [] then Some(t) else
    var p := ReadObject(t);
    if p.ok && keys[0] in p.maps.strings then Descend(p.maps.strings[keys[0]], keys[1..]) else None
  }

  /** A way down through nested objects, all of them readable and with distinct keys. */
  predicate IsWayDown(fields: seq<Field>, way: seq<nat>)
    decreases |way|
  {
    way != [] ==>
      && AllReadable(fields) && DistinctKeys(fields)
      && way[0] < |fields| && fields[way[0]].val.Obj?
      && IsWayDown(fields[way[0]].val.fields, way[1..])
  }

  function KeysAlong(fields: seq<Field>, way: seq<nat>): seq<string>
    requires IsWayDown(fields, way)
    decreases |way|
  {
    if way == [] then [] else [fields[way[0]].key] + KeysAlong(fields[way[0]].val.fields, way[1..])
  }

  function ObjectAt(fields: seq<Field>, way: seq<nat>): seq<Field>
    requires IsWayDown(fields, way)
    decreases |way|
  {
    if way == [] then fields else ObjectAt(fields[way[0]].val.fields, way[1..])
  }

  /** A dump inside a dump inside a dump comes back verbatim, however deep it lies. */
  lemma {:induction false} NestedDumpRecovered(fields: seq<Field>, way: seq<nat>)
    requires IsWayDown(fields, way)
    ensures Descend(Render(Obj(fields)), KeysAlong(fields, way)) == Some(Render(Obj(ObjectAt(fields, way))))
    decreases |way|
  {
    hide ReadObject, Render;
    if way != [] {
      var f := fields[way[0]];
      EveryMemberRecovered(fields, way[0]);
      NestedDumpRecovered(f.val.fields, way[1..]);
      assert f.val == Obj(f.val.fields);
      assert KeysAlong(fields, way)[1..] == KeysAlong(f.val.fields, way[1..]);
    }
  }
}

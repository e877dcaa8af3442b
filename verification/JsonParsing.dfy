/**
 The parser and the printer as the objects the program uses: an index that moves through
 the text and three maps that fill up, and a list of entries that grows. Every loop is
 proved equal to the corresponding function of module JsonText.
 */
module JsonParsing {
  import opened CText
  import opened JsonText

  class JsonParser {
    var str: string
    var pos: nat
    var strings: map<string, string>
    var ints: map<string, Int64>
    var arrays: map<string, seq<string>>

    constructor ()
      ensures pos == 0 && str == "" && Stored() == NOTHING
    {
      str, pos := "", 0;
      strings, ints, arrays := map[], map[], map[];
    }

    predicate InText()
      reads this
    {
      pos <= |str|
    }

    function Unread(): string
      reads this
      requires InText()
    {
      str[pos..]
    }

    function Stored(): Maps
      reads this
    {
      Maps(strings, ints, arrays)
    }

    method Parse(json: string) returns (ok: bool)
      modifies this
      ensures InText() && str == json
      ensures Parsed(ok, Stored(), Unread()) == ReadObject(json)
    {
      str, pos := json, 0;
      strings, ints, arrays := map[], map[], map[];
      assert str[0..] == json;
      ok := ParseObject();
    }

    method SkipWs()
      requires InText()
      modifies `pos
      ensures InText() && Unread() == SkipSpaces(old(Unread()))
    {
      while pos < |str| && IsSpace(str[pos])
        invariant InText()
        invariant SkipSpaces(Unread()) == SkipSpaces(old(Unread()))
      {
        assert str[pos..][1..] == str[pos+1..];
        pos := pos + 1;
      }
    }

    method Expect(c: char) returns (found: bool)
      requires InText()
      modifies `pos
      ensures InText()
      ensures var u := SkipSpaces(old(Unread()));
        found == (u != "" && u[0] == c) && Unread() == (if found then u[1..] else u)
    {
      SkipWs();
      if pos < |str| && str[pos] == c {
        assert str[pos..][1..] == str[pos+1..];
        pos := pos + 1;
        return true;
      }
      return false;
    }

    method ParseStringVal() returns (result: string)
      requires InText()
      modifies `pos
      ensures InText() && (result, Unread()) == ReadString(old(Unread()))
    {
      hide ReadBody;
      SkipWs();
      if pos >= |str| || str[pos] != '"' {
        return "";
      }
      assert str[pos..][1..] == str[pos+1..];
      pos := pos + 1;
      result := ParseBody();
    }

    /** The character loop behind an opening quote. */
    method ParseBody() returns (result: string)
      requires InText()
      modifies `pos
      ensures InText() && (result, Unread()) == ReadBody(old(Unread()))
    {
      hide ReadBody, Gathered;
      GatherNothing(Unread());
      result := "";
      while pos < |str| && str[pos] != '"'
        invariant InText()
        invariant Gathered(result, Unread()) == ReadBody(old(Unread()))
      {
        GatherOne(result, Unread());
        if str[pos] == '\\' && pos + 1 < |str| {
          assert str[pos..][2..] == str[pos+2..];
          pos := pos + 1;
          if str[pos] == 'n' {
            result := result + ['\n'];
          } else if str[pos] == 't' {
            result := result + ['\t'];
          } else {
            result := result + [str[pos]];
          }
        } else {
          assert str[pos..][1..] == str[pos+1..];
          result := result + [str[pos]];
        }
        pos := pos + 1;
      }
      GatherLast(result, Unread());
      if pos < |str| {
        assert str[pos..][1..] == str[pos+1..];
        pos := pos + 1;
      }
    }

    static lemma GatherNothing(t: string)
      ensures Gathered("", t) == ReadBody(t)
    {
      assert "" + ReadBody(t).0 == ReadBody(t).0;
    }

    /** What the string loop will have read, given what it has read so far. */
    static ghost function Gathered(result: string, t: string): (string, string) {
      (result + ReadBody(t).0, ReadBody(t).1)
    }

    static lemma GatherOne(result: string, t: string)
      requires t != "" && t[0] != '"'
      ensures Gathered(result, t)
           == if t[0] == '\\' && |t| > 1 then Gathered(result + [Unescape(t[1])], t[2..])
              else Gathered(result + [t[0]], t[1..])
    {
      hide ReadBody;
      ReadBodyStep(t);
      if t[0] == '\\' && |t| > 1 {
        var (body, rest) := ReadBody(t[2..]);
        assert result + ([Unescape(t[1])] + body) == result + [Unescape(t[1])] + body;
      } else {
        var (body, rest) := ReadBody(t[1..]);
        assert result + ([t[0]] + body) == result + [t[0]] + body;
      }
    }

    static lemma GatherLast(result: string, t: string)
      requires t == "" || t[0] == '"'
      ensures Gathered(result, t) == (result, if t == "" then "" else t[1..])
    {
      assert result + "" == result;
    }

    method ParseArray() returns (result: seq<string>)
      requires InText() && Unread() != "" && Unread()[0] == '['
      modifies `pos
      ensures InText() && (result, Unread()) == ReadArray(old(Unread()))
    {
      hide ReadMoreItems, SkipSpaces;
      SpaceBefore(Unread());
      var found := Expect('[');
      SkipWs();
      if pos < |str| && str[pos] == ']' {
        assert str[pos..][1..] == str[pos+1..];
        pos := pos + 1;
        return [];
      }
      result := ParseItems();
    }

    static lemma SpaceBefore(t: string)
      requires t != "" && !IsSpace(t[0])
      ensures SkipSpaces(t) == t
    {
    }

    /** The element loop. */
    method ParseItems() returns (result: seq<string>)
      requires InText()
      modifies `pos
      ensures InText() && (result, Unread()) == ReadMoreItems(old(Unread()))
    {
      hide ReadMoreItems, ReadString, SkipSpaces;
      result := [];
      ghost var items := Unread();
      assert [] + ReadMoreItems(items).0 == ReadMoreItems(items).0;
      while true
        invariant InText()
        invariant (result + ReadMoreItems(Unread()).0, ReadMoreItems(Unread()).1) == ReadMoreItems(items)
        decreases |str| - pos
      {
        ghost var t := Unread();
        MoreItemsStep(result, t);
        var item := ParseStringVal();
        result := result + [item];
        SkipWs();
        assert |Unread()| <= |t|;
        if pos < |str| && str[pos] == ',' {
          assert str[pos..][1..] == str[pos+1..];
          pos := pos + 1;
          continue;
        }
        if pos < |str| && str[pos] == ']' {
          assert str[pos..][1..] == str[pos+1..];
          pos := pos + 1;
          return;
        }
        return;
      }
    }

    static lemma MoreItemsStep(result: seq<string>, t: string)
      ensures
        var (item, afterItem) := ReadString(t);
        var u := SkipSpaces(afterItem);
        (result + ReadMoreItems(t).0, ReadMoreItems(t).1)
          == if u != "" && u[0] == ',' then (result + [item] + ReadMoreItems(u[1..]).0, ReadMoreItems(u[1..]).1)
             else (result + [item], if u != "" && u[0] == ']' then u[1..] else u)
    {
      hide ReadString, SkipSpaces;
      var (item, afterItem) := ReadString(t);
      var u := SkipSpaces(afterItem);
      if u != "" && u[0] == ',' {
        assert result + ([item] + ReadMoreItems(u[1..]).0) == result + [item] + ReadMoreItems(u[1..]).0;
      }
    }

    method SkipNestedObject()
      requires InText()
      modifies `pos
      ensures InText() && Unread() == SkipNested(old(Unread()), 0)
    {
      hide ReadString;
      var depth := 0;
      while pos < |str|
        invariant InText()
        invariant SkipNested(old(Unread()), 0) == SkipNested(Unread(), depth)
        decreases |str| - pos
      {
        assert str[pos..][1..] == str[pos+1..];
        if str[pos] == '{' {
          depth := depth + 1;
        } else if str[pos] == '}' {
          depth := depth - 1;
          if depth == 0 {
            pos := pos + 1;
            return;
          }
        } else if str[pos] == '"' {
          QuotedString(Unread());
          var skipped := ParseStringVal();
          continue;
        }
        pos := pos + 1;
      }
    }

    static lemma QuotedString(t: string)
      requires t != "" && t[0] == '"'
      ensures ReadString(t) == ReadBody(t[1..])
    {
    }

    method ParseObject() returns (ok: bool)
      requires InText() && Stored() == NOTHING
      modifies this
      ensures InText() && str == old(str)
      ensures Parsed(ok, Stored(), Unread()) == ReadObject(old(Unread()))
    {
      hide ReadFields, SkipSpaces;
      var found := Expect('{');
      if !found {
        return false;
      }
      SkipWs();
      if pos < |str| && str[pos] == '}' {
        assert str[pos..][1..] == str[pos+1..];
        pos := pos + 1;
        return true;
      }
      ok := ParseMembers();
    }

    /** The member loop. */
    method ParseMembers() returns (ok: bool)
      requires InText()
      modifies this
      ensures InText() && str == old(str)
      ensures Parsed(ok, Stored(), Unread()) == ReadFields(old(Unread()), old(Stored()))
    {
      hide ReadMember, ReadFields;
      while true
        invariant InText() && str == old(str)
        invariant ReadFields(old(Unread()), old(Stored())) == ReadFields(Unread(), Stored())
        decreases |str| - pos
      {
        ghost var t := Unread();
        FieldsStep(t, Stored());
        var read := ParseMember();
        assert |Unread()| <= |t|;
        if !read {
          return false;
        }
        if pos < |str| && str[pos] == ',' {
          assert str[pos..][1..] == str[pos+1..];
          pos := pos + 1;
          continue;
        }
        if pos < |str| && str[pos] == '}' {
          assert str[pos..][1..] == str[pos+1..];
          pos := pos + 1;
          return true;
        }
        return false;
      }
    }

    static lemma FieldsStep(t: string, m: Maps)
      ensures
        var member := ReadMember(t, m);
        var u := member.rest;
        ReadFields(t, m)
          == if member.ok && u != "" && u[0] == ',' then ReadFields(u[1..], member.maps)
             else if member.ok && u != "" && u[0] == '}' then Parsed(true, member.maps, u[1..])
             else Parsed(false, member.maps, u)
    {
      hide ReadMember;
    }

    /** The part of the member loop up to the white space behind the value. */
    method ParseMember() returns (ok: bool)
      requires InText()
      modifies this
      ensures InText() && str == old(str)
      ensures Parsed(ok, Stored(), Unread()) == ReadMember(old(Unread()), old(Stored()))
    {
      hide ReadString, SkipSpaces, ReadValue;
      var key := ParseStringVal();
      if key == "" {
        return false;
      }
      var colon := Expect(':');
      if !colon {
        return false;
      }
      SkipWs();
      ParseValue(key);
      SkipWs();
      return true;
    }

    method ParseValue(key: string)
      requires InText()
      modifies this
      ensures InText() && str == old(str)
      ensures (Stored(), Unread()) == ReadValue(key, old(Unread()), old(Stored()))
    {
      hide ReadString, ReadArray, SkipNested, SkipNumber;
      ghost var t := Unread();
      if pos < |str| && str[pos] == '"' {
        var s := ParseStringVal();
        strings := strings[key := s];
      } else if pos < |str| && str[pos] == '[' {
        var items := ParseArray();
        arrays := arrays[key := items];
      } else if pos < |str| && str[pos] == '{' {
        var start := pos;
        SkipNestedObject();
        assert str[start..pos] == Consumed(t, Unread());
        strings := strings[key := str[start..pos]];
      } else if pos < |str| && ("true" <= str[pos..] || "false" <= str[pos..]) {
        var val := str[pos] == 't';
        assert val ==> t[4..] == str[pos+4..];
        assert !val ==> t[5..] == str[pos+5..];
        pos := pos + (if val then 4 else 5);
        strings := strings[key := if val then "true" else "false"];
      } else {
        var start := pos;
        ParseNumberChars();
        var digits := str[start..pos];
        assert digits == Consumed(t, Unread());
        if digits != "" {
          ints := ints[key := Strtoll(digits)];
        }
      }
    }

    method ParseNumberChars()
      requires InText()
      modifies `pos
      ensures InText() && old(pos) <= pos && Unread() == SkipNumber(old(Unread()))
    {
      while pos < |str| && IsNumberChar(str[pos])
        invariant InText() && old(pos) <= pos
        invariant SkipNumber(Unread()) == SkipNumber(old(Unread()))
      {
        assert str[pos..][1..] == str[pos+1..];
        pos := pos + 1;
      }
    }
  }

  // ------------------------------------------------------------------- printing

  datatype Entry = Entry(key: string, value: string)

  function EntryText(e: Entry): string {
    Quote(e.key) + ":" + e.value
  }

  function EntriesText(entries: seq<Entry>): string {
    if entries == [] then ""
    else
      var n := |entries| - 1;
      EntriesText(entries[..n]) + (if n == 0 then "" else ",") + EntryText(entries[n])
  }

  /** The entries that hold the given members. */
  function EntriesOf(fields: seq<Field>): seq<Entry> {
    seq(|fields|, i requires 0 <= i < |fields| => Entry(fields[i].key, Render(fields[i].val)))
  }

  function StrItems(arr: seq<string>): seq<Json> {
    seq(|arr|, i requires 0 <= i < |arr| => Str(arr[i]))
  }

  lemma {:induction false} RenderMoreFieldsAppend(fields: seq<Field>, f: Field)
    ensures RenderMoreFields(fields + [f]) == RenderMoreFields(fields) + "," + RenderField(f)
  {
    hide RenderField;
    if fields == [] {
      assert fields + [f] == [f];
      assert RenderMoreFields([]) == "";
    } else {
      assert (fields + [f])[1..] == fields[1..] + [f];
      RenderMoreFieldsAppend(fields[1..], f);
    }
  }

  lemma RenderFieldsAppend(fields: seq<Field>, f: Field)
    ensures RenderFields(fields + [f]) == RenderFields(fields) + (if fields == [] then "" else ",") + RenderField(f)
  {
    hide RenderField;
    if fields == [] {
      assert fields + [f] == [f];
    } else {
      assert (fields + [f])[1..] == fields[1..] + [f];
      RenderMoreFieldsAppend(fields[1..], f);
    }
  }

  lemma {:induction false} RenderMoreItemsAppend(items: seq<Json>, item: Json)
    ensures RenderMoreItems(items + [item]) == RenderMoreItems(items) + "," + Render(item)
  {
    hide Render;
    if items == [] {
      assert items + [item] == [item];
      assert RenderMoreItems([]) == "";
    } else {
      assert (items + [item])[1..] == items[1..] + [item];
      RenderMoreItemsAppend(items[1..], item);
    }
  }

  lemma RenderItemsAppend(items: seq<Json>, item: Json)
    ensures RenderItems(items + [item]) == RenderItems(items) + (if items == [] then "" else ",") + Render(item)
  {
    hide Render;
    if items == [] {
      assert items + [item] == [item];
    } else {
      assert (items + [item])[1..] == items[1..] + [item];
      RenderMoreItemsAppend(items[1..], item);
    }
  }

  /** A JsonObject prints the rendering of the members its entries hold. */
  lemma {:induction false} EntriesRender(fields: seq<Field>)
    ensures EntriesText(EntriesOf(fields)) == RenderFields(fields)
    decreases |fields|
  {
    hide RenderFields, Quote, Render;
    var n := |fields| - 1;
    if n >= 0 {
      EntriesRender(fields[..n]);
      RenderFieldsAppend(fields[..n], fields[n]);
      assert fields[..n] + [fields[n]] == fields;
      assert EntriesOf(fields)[..n] == EntriesOf(fields[..n]);
    } else {
      NoFields();
    }
  }

  lemma NoFields()
    ensures RenderFields([]) == ""
  {
  }

  class JsonObject {
    var entries: seq<Entry>

    constructor ()
      ensures entries == []
    {
      entries := [];
    }

    static method QuoteText(s: string) returns (out: string)
      ensures out == Quote(s)
    {
      out := "\"";
      for i := 0 to |s|
        invariant out + Escape(s[i..]) == "\"" + Escape(s)
      {
        assert s[i..][1..] == s[i+1..];
        out := out + EscapeChar(s[i]);
      }
      out := out + "\"";
    }

    method Set(key: string, val: string)
      modifies this
      ensures entries == old(entries) + [Entry(key, Render(Str(val)))]
    {
      var text := QuoteText(val);
      entries := entries + [Entry(key, text)];
    }

    method SetInt(key: string, val: Int64)
      modifies this
      ensures entries == old(entries) + [Entry(key, Render(Int(val)))]
    {
      entries := entries + [Entry(key, IntText(val))];
    }

    method SetBool(key: string, val: bool)
      modifies this
      ensures entries == old(entries) + [Entry(key, Render(Bool(val)))]
    {
      entries := entries + [Entry(key, if val then "true" else "false")];
    }

    method SetRaw(key: string, raw: string)
      modifies this
      ensures entries == old(entries) + [Entry(key, raw)]
    {
      entries := entries + [Entry(key, raw)];
    }

    method SetArray(key: string, arr: seq<string>)
      modifies this
      ensures entries == old(entries) + [Entry(key, Render(Arr(StrItems(arr))))]
    {
      var text := ArrayText(arr);
      entries := entries + [Entry(key, text)];
    }

    /** The bracketed list that SetArray builds. */
    static method ArrayText(arr: seq<string>) returns (out: string)
      ensures out == Render(Arr(StrItems(arr)))
    {
      out := "[";
      NoItems();
      assert StrItems(arr[..0]) == [];
      for i := 0 to |arr|
        invariant out == "[" + RenderItems(StrItems(arr[..i]))
      {
        hide RenderItems, Quote;
        if i > 0 {
          out := out + ",";
        }
        var text := QuoteText(arr[i]);
        out := out + text;
        RenderItemsAppend(StrItems(arr[..i]), Str(arr[i]));
        assert StrItems(arr[..i+1]) == StrItems(arr[..i]) + [Str(arr[i])];
      }
      assert arr[..|arr|] == arr;
      out := out + "]";
    }

    static lemma NoItems()
      ensures RenderItems([]) == ""
    {
    }

    method Dump() returns (out: string)
      ensures out == "{" + EntriesText(entries) + "}"
      ensures forall fields :: entries == EntriesOf(fields) ==> out == Render(Obj(fields))
    {
      hide EntryText, Quote;
      out := "{";
      for i := 0 to |entries|
        invariant out == "{" + EntriesText(entries[..i])
      {
        if i > 0 {
          out := out + ",";
        }
        var key := QuoteText(entries[i].key);
        out := out + (key + ":" + entries[i].value);
        assert key + ":" + entries[i].value == EntryText(entries[i]) by { EntryTextIs(entries[i]); }
        assert entries[..i+1][..i] == entries[..i];
      }
      assert entries[..|entries|] == entries;
      out := out + "}";
      forall fields | entries == EntriesOf(fields) ensures out == Render(Obj(fields)) {
        EntriesRender(fields);
      }
    }

    static lemma EntryTextIs(e: Entry)
      ensures EntryText(e) == Quote(e.key) + ":" + e.value
    {
    }
  }
}

/**
 Finer points of the JSON that is exchanged: escapes, white space, repeated keys, and members
 that are asked for as another type.
 */
module JsonLaws {
  import opened CText
  import opened JsonText
  import opened JsonRoundTrip

  // ---------------------------------------------------------------------------- escapes

  /** Quotes, backslashes, line ends and tabs are printed with a backslash, all else as it is. */
  lemma EscapesPrinted(c: char)
    ensures Render(Str("\"")) == "\"\\\"\"" && Render(Str("\\")) == "\"\\\\\""
    ensures Render(Str("\n")) == "\"\\n\"" && Render(Str("\t")) == "\"\\t\""
    ensures c != '"' && c != '\\' && c != '\n' && c != '\t' ==> Render(Str([c])) == ['"', c, '"']
  {
    OneEscaped('"');
    OneEscaped('\\');
    OneEscaped('\n');
    OneEscaped('\t');
    OneEscaped(c);
  }

  lemma OneEscaped(c: char)
    ensures Escape([c]) == EscapeChar(c)
  {
    assert [c][1..] == "";
    assert EscapeChar(c) + "" == EscapeChar(c);
  }

  /** What a backslash and a character are read as. */
  lemma EscapesRead(c: char, rest: string)
    ensures ReadBody("\\" + [c] + "\"" + rest) == ([if c == 'n' then '\n' else if c == 't' then '\t' else c], rest)
  {
    var tail := "\"" + rest;
    assert "\\" + [c] + "\"" + rest == ['\\', c] + tail;
    ReadBodyOfPair(c, tail);
    assert tail[0] == '"' && tail[1..] == rest;
    assert [Unescape(c)] + "" == [Unescape(c)];
  }

  predicate Printable(s: string) {
    forall i :: 0 <= i < |s| ==> s[i] != '\n' && s[i] != '\t'
  }

  lemma PrintableConcat(a: string, b: string)
    ensures Printable(a + b) <==> Printable(a) && Printable(b)
  {
    forall i | 0 <= i < |a| ensures (a + b)[i] == a[i] {
    }
    forall i | 0 <= i < |b| ensures (a + b)[|a| + i] == b[i] {
    }
  }

  /** No string value brings a raw line end or tab into a document. */
  lemma {:induction false} EscapePrintable(s: string)
    ensures Printable(Escape(s))
  {
    hide Printable;
    if s != "" {
      EscapePrintable(s[1..]);
      CharPrintable(s[0]);
      PrintableConcat(EscapeChar(s[0]), Escape(s[1..]));
    } else {
      NothingPrintable();
    }
  }

  lemma NothingPrintable()
    ensures Printable("")
  {
  }

  lemma CharPrintable(c: char)
    ensures Printable(EscapeChar(c))
  {
  }

  // -------------------------------------------------------------------------- white space

  predicate Blank(w: string) {
    forall i :: 0 <= i < |w| ==> IsSpace(w[i])
  }

  lemma {:induction false} BlanksSkipped(w: string, t: string)
    requires Blank(w)
    ensures SkipSpaces(w + t) == SkipSpaces(t)
  {
    if w == "" {
      assert w + t == t;
    } else {
      BlanksSkipped(w[1..], t);
      assert (w + t)[1..] == w[1..] + t;
    }
  }

  /** White space in front of an object, and behind its brace, does not matter. */
  lemma BlanksAroundBrace(w: string, v: string, t: string)
    requires Blank(w) && Blank(v)
    ensures ReadObject(w + ("{" + (v + t))) == ReadObject("{" + t)
  {
    hide SkipSpaces, ReadFields;
    BlanksSkipped(w, "{" + (v + t));
    BlanksSkipped(v, t);
    NoBlank("{" + (v + t));
    NoBlank("{" + t);
    assert ("{" + (v + t))[1..] == v + t && ("{" + t)[1..] == t;
  }

  lemma NoBlank(t: string)
    requires t != "" && !IsSpace(t[0])
    ensures SkipSpaces(t) == t
  {
  }

  /** White space in front of a key, a colon and a value does not matter either. */
  lemma BlanksInMember(w: string, v: string, x: string, key: string, t: string, m: Maps)
    requires Blank(w) && Blank(v) && Blank(x) && key != ""
    ensures ReadMember(w + (Quote(key) + (v + (":" + (x + t)))), m) == ReadMember(Quote(key) + (":" + t), m)
  {
    hide SkipSpaces, ReadBody, ReadValue, Quote;
    var spaced, plain := v + (":" + (x + t)), ":" + t;
    BlanksSkipped(w, Quote(key) + spaced);
    BlanksSkipped(v, ":" + (x + t));
    BlanksSkipped(x, t);
    NoBlank(":" + (x + t));
    NoBlank(plain);
    assert (":" + (x + t))[1..] == x + t && plain[1..] == t;
    ReadStringOfQuote(key, spaced);
    ReadStringOfQuote(key, plain);
    SkipTwice(w + (Quote(key) + spaced), Quote(key) + spaced);
  }

  lemma SkipTwice(t: string, u: string)
    requires SkipSpaces(t) == SkipSpaces(u)
    ensures ReadString(t) == ReadString(u)
  {
  }

  // ------------------------------------------------------------------------ repeated keys

  predicate NoLater(fields: seq<Field>, k: nat) {
    forall j :: k < j < |fields| ==> fields[j].key != fields[k].key
  }

  /** The map that a member of its kind is kept in holds this value for its key. */
  predicate HeldInItsMap(m: Maps, f: Field)
    requires Readable(f)
  {
    match f.val
    case Int(i) => f.key in m.ints && m.ints[f.key] == i
    case Arr(items) => f.key in m.arrays && m.arrays[f.key] == StringsOf(items)
    case Str(s) => f.key in m.strings && m.strings[f.key] == s
    case Bool(b) => f.key in m.strings && m.strings[f.key] == if b then "true" else "false"
    case Obj(_) => f.key in m.strings && m.strings[f.key] == Render(f.val)
  }

  lemma {:induction false} LastStoreHolds(m: Maps, fields: seq<Field>, k: nat)
    requires AllReadable(fields) && k < |fields| && NoLater(fields, k)
    ensures HeldInItsMap(StoreAll(m, fields), fields[k])
    decreases |fields|
  {
    hide StringsOf, Render;
    var m1 := Store(m, fields[0]);
    if k == 0 {
      StoreAllKeepsOthers(m1, fields[1..], fields[0].key);
    } else {
      assert fields[1..][k-1] == fields[k];
      forall j | k - 1 < j < |fields[1..]| ensures fields[1..][j].key != fields[k].key {
        assert fields[1..][j] == fields[j+1];
      }
      LastStoreHolds(m1, fields[1..], k - 1);
    }
  }

  /** When a key is repeated its last member counts. */
  lemma LastMemberCounts(fields: seq<Field>, k: nat)
    requires AllReadable(fields) && k < |fields| && NoLater(fields, k)
    ensures HeldInItsMap(ReadObject(Render(Obj(fields))).maps, fields[k])
  {
    hide ReadObject, StoreAll, HeldInItsMap, NoLater;
    AcceptedIffReadable(fields);
    LastStoreHolds(NOTHING, fields, k);
  }

  // ------------------------------------------------------------------------- look-ups

  /** A string is found as such, and as the number it begins with; a number is found also as text. */
  lemma MembersFound(m: Maps, f: Field, default: string, other: Int64)
    requires Readable(f) && Holds(m, f)
    ensures f.val.Str? ==> GetString(m, f.key, default) == f.val.s && GetInt(m, f.key, other) == Strtoll(f.val.s)
    ensures f.val.Int? ==> GetString(m, f.key, default) == IntText(f.val.i) && GetInt(m, f.key, other) == f.val.i
    ensures f.val.Arr? ==> GetArray(m, f.key) == StringsOf(f.val.items)
    ensures f.val.Bool? ==> GetString(m, f.key, default) == if f.val.b then "true" else "false"
  {
  }

  /** What is not there is answered with the default. */
  lemma AbsentFound(m: Maps, key: string, default: string, other: Int64)
    requires Absent(m, key)
    ensures GetString(m, key, default) == default && GetInt(m, key, other) == other && GetArray(m, key) == []
  {
  }

  /** A number may carry a plus sign. */
  lemma PlusSignRead(key: string, n: nat, m: Maps, rest: string)
    requires n <= INT64_MAX && (rest == "" || !IsNumberChar(rest[0]))
    ensures ReadValue(key, "+" + NatText(n) + rest, m) == (m.(ints := m.ints[key := n]), rest)
  {
    hide NatText, Strtoll;
    var t := "+" + NatText(n) + rest;
    SkipNumberOfDigits("+" + NatText(n), rest);
    assert t[..|t|-|rest|] == "+" + NatText(n);
    assert "+" + NatText(n) + "" == "+" + NatText(n);
    PlusSignValue(n);
    assert t[0] == '+' && "true"[0] != '+' && "false"[0] != '+';
  }

  lemma PlusSignValue(n: nat)
    requires n <= INT64_MAX
    ensures Strtoll("+" + NatText(n)) == n
  {
    hide NatText, LeadingNumber;
    NumberInContext(n, "");
    assert "+" + NatText(n) + "" == "+" + NatText(n);
  }

  lemma {:induction false} SkipNumberOfDigits(d: string, rest: string)
    requires (forall i :: 0 <= i < |d| ==> IsNumberChar(d[i])) && (rest == "" || !IsNumberChar(rest[0]))
    ensures SkipNumber(d + rest) == rest
  {
    if d == "" {
      assert d + rest == rest;
    } else {
      SkipNumberOfDigits(d[1..], rest);
      assert (d + rest)[1..] == d[1..] + rest;
    }
  }
}

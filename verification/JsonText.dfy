/**
 What the printer writes and what the parser reads, as functions on text.

 A reading function takes the text that is still unread and returns what it read
 together with the text that remains; the parser's index pos_ is the difference of
 the two lengths (module JsonParsing proves the loops equal to these functions).
 */
module JsonText {
  import opened CText

  // ---------------------------------------------------------------- documents

  /** The documents the program exchanges. */
  datatype Json =
    | Str(s: string)
    | Int(i: Int64)
    | Bool(b: bool)
    | Arr(items: seq<Json>)
    | Obj(fields: seq<Field>)

  datatype Field = Field(key: string, val: Json)

  // ------------------------------------------------------------------ printing

  function EscapeChar(c: char): string {
    if c == '"' then "\\\"" else if c == '\\' then "\\\\"
    else if c == '\n' then "\\n" else if c == '\t' then "\\t" else [c]
  }

  function Escape(s: string): string {
    if s == "" then "" else EscapeChar(s[0]) + Escape(s[1..])
  }

  function Quote(s: string): string {
    "\"" + Escape(s) + "\""
  }

  function Render(j: Json): string
    decreases j, 1
  {
    match j
    case Str(s) => Quote(s)
    case Int(i) => IntText(i)
    case Bool(b) => if b then "true" else "false"
    case Arr(items) => "[" + RenderItems(items) + "]"
    case Obj(fields) => "{" + RenderFields(fields) + "}"
  }

  function RenderItems(items: seq<Json>): string
    decreases items, 0
  {
    if items == [] then "" else Render(items[0]) + RenderMoreItems(items[1..])
  }

  function RenderMoreItems(items: seq<Json>): string
    decreases items, 0
  {
    if items == [] then "" else "," + Render(items[0]) + RenderMoreItems(items[1..])
  }

  function RenderField(f: Field): string
    decreases f, 1
  {
    Quote(f.key) + ":" + Render(f.val)
  }

  function RenderFields(fields: seq<Field>): string
    decreases fields, 0
  {
    if fields == [] then "" else RenderField(fields[0]) + RenderMoreFields(fields[1..])
  }

  function RenderMoreFields(fields: seq<Field>): string
    decreases fields, 0
  {
    if fields == [] then "" else "," + RenderField(fields[0]) + RenderMoreFields(fields[1..])
  }

  // ------------------------------------------------------------------- reading

  /** The three maps a JsonParser fills. */
  datatype Maps = Maps(strings: map<string, string>, ints: map<string, Int64>, arrays: map<string, seq<string>>)

  const NOTHING := Maps(map[], map[], map[])

  datatype Parsed = Parsed(ok: bool, maps: Maps, rest: string)

  function Unescape(c: char): char {
    if c == 'n' then '\n' else if c == 't' then '\t' else c
  }

  /** The text up to the closing quote, and what follows that quote. */
  function ReadBody(t: string): (r: (string, string))
    ensures |r.1| <= |t|
    ensures t != "" ==> |r.1| < |t|
  {
    if t == "" then ("", "")
    else if t[0] == '"' then ("", t[1..])
    else if t[0] == '\\' && |t| > 1 then
      var (body, rest) := ReadBody(t[2..]);
      ([Unescape(t[1])] + body, rest)
    else
      var (body, rest) := ReadBody(t[1..]);
      ([t[0]] + body, rest)
  }

  /** One step of the loop over the characters of a string. */
  lemma ReadBodyStep(t: string)
    requires t != "" && t[0] != '"'
    ensures ReadBody(t)
         == if t[0] == '\\' && |t| > 1 then ([Unescape(t[1])] + ReadBody(t[2..]).0, ReadBody(t[2..]).1)
            else ([t[0]] + ReadBody(t[1..]).0, ReadBody(t[1..]).1)
  {
  }

  /** A string after optional white space; the empty string when there is none. */
  function ReadString(t: string): (r: (string, string))
    ensures |r.1| <= |t|
  {
    var u := SkipSpaces(t);
    if u == "" || u[0] != '"' then ("", u) else ReadBody(u[1..])
  }

  function ReadMoreItems(t: string): (r: (seq<string>, string))
    ensures |r.1| <= |t|
    decreases |t|
  {
    var (item, afterItem) := ReadString(t);
    var u := SkipSpaces(afterItem);
    if u != "" && u[0] == ',' then
      var (items, rest) := ReadMoreItems(u[1..]);
      ([item] + items, rest)
    else if u != "" && u[0] == ']' then ([item], u[1..])
    else ([item], u)
  }

  function ReadArray(t: string): (r: (seq<string>, string))
    requires t != "" && t[0] == '['
    ensures |r.1| <= |t|
  {
    var u := SkipSpaces(t[1..]);
    if u != "" && u[0] == ']' then ([], u[1..]) else ReadMoreItems(u)
  }

  /** What follows the bracketed object that the text is inside of, depth levels deep. */
  function SkipNested(t: string, depth: int): (rest: string)
    ensures |rest| <= |t|
    decreases |t|
  {
    if t == "" then ""
    else if t[0] == '{' then SkipNested(t[1..], depth + 1)
    else if t[0] == '}' then
      if depth - 1 == 0 then t[1..] else SkipNested(t[1..], depth - 1)
    else if t[0] == '"' then SkipNested(ReadBody(t[1..]).1, depth)
    else SkipNested(t[1..], depth)
  }

  predicate IsNumberChar(c: char) {
    IsDigit(c) || c == '-' || c == '+'
  }

  function SkipNumber(t: string): (rest: string)
    ensures |rest| <= |t|
    ensures rest != "" ==> !IsNumberChar(rest[0])
  {
    if t != "" && IsNumberChar(t[0]) then SkipNumber(t[1..]) else t
  }

  function Consumed(t: string, rest: string): string
    requires |rest| <= |t|
  {
    t[..|t|-|rest|]
  }

  /** Reads one value for the given key. */
  function ReadValue(key: string, t: string, m: Maps): (r: (Maps, string))
    ensures |r.1| <= |t|
  {
    if t != "" && t[0] == '"' then
      var (s, rest) := ReadString(t);
      (m.(strings := m.strings[key := s]), rest)
    else if t != "" && t[0] == '[' then
      var (items, rest) := ReadArray(t);
      (m.(arrays := m.arrays[key := items]), rest)
    else if t != "" && t[0] == '{' then
      var rest := SkipNested(t, 0);
      (m.(strings := m.strings[key := Consumed(t, rest)]), rest)
    else if "true" <= t then (m.(strings := m.strings[key := "true"]), t[4..])
    else if "false" <= t then (m.(strings := m.strings[key := "false"]), t[5..])
    else
      var rest := SkipNumber(t);
      var digits := Consumed(t, rest);
      (if digits == "" then m else m.(ints := m.ints[key := Strtoll(digits)]), rest)
  }

  /** Reads one member: a key, a colon and a value. */
  function ReadMember(t: string, m: Maps): (p: Parsed)
    ensures |p.rest| <= |t|
  {
    var (key, afterKey) := ReadString(t);
    if key == "" then Parsed(false, m, afterKey) else
    var colon := SkipSpaces(afterKey);
    if colon == "" || colon[0] != ':' then Parsed(false, m, colon) else
    var (m1, rest) := ReadValue(key, SkipSpaces(colon[1..]), m);
    Parsed(true, m1, SkipSpaces(rest))
  }

  /** Reads members up to the closing brace. */
  function ReadFields(t: string, m: Maps): (p: Parsed)
    ensures |p.rest| <= |t|
    decreases |t|
  {
    var member := ReadMember(t, m);
    var u := member.rest;
    if !member.ok then member
    else if u != "" && u[0] == ',' then ReadFields(u[1..], member.maps)
    else if u != "" && u[0] == '}' then Parsed(true, member.maps, u[1..])
    else Parsed(false, member.maps, u)
  }

  function ReadObject(t: string): (p: Parsed)
    ensures |p.rest| <= |t|
  {
    var brace := SkipSpaces(t);
    if brace == "" || brace[0] != '{' then Parsed(false, NOTHING, brace) else
    var u := SkipSpaces(brace[1..]);
    if u != "" && u[0] == '}' then Parsed(true, NOTHING, u[1..]) else ReadFields(u, NOTHING)
  }

  predicate Accepts(t: string) {
    ReadObject(t).ok
  }

  // ------------------------------------------------------------------- look-ups

  function GetString(m: Maps, key: string, default: string): string {
    if key in m.strings then m.strings[key]
    else if key in m.ints then IntText(m.ints[key])
    else default
  }

  function GetInt(m: Maps, key: string, default: Int64): Int64 {
    if key in m.ints then m.ints[key]
    else if key in m.strings then Strtoll(m.strings[key])
    else default
  }

  function GetArray(m: Maps, key: string): seq<string> {
    if key in m.arrays then m.arrays[key] else []
  }
}

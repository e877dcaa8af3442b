/**
 The metadata records a front end hands to its worker, as JSON and over the command line.
 */
module SessionRecords {
  import opened CText
  import opened JsonText
  import opened JsonRoundTrip
  import opened JsonParsing
  import opened Transport

  // ------------------------------------------------------------- waveform session

  datatype Session = Session(
    backend: string, sdkHome: string, adapter: string,
    file: string, fileIdentity: string, reader: string, support: string,
    readerHash: string, supportHash: string)

  function SessionFields(s: Session): seq<Field> {
    [Field("schema_version", Int(1)), Field("backend", Str(s.backend)),
     Field("sdk_home", Str(s.sdkHome)), Field("adapter", Str(s.adapter)),
     Field("file", Str(s.file)), Field("file_identity", Str(s.fileIdentity)),
     Field("reader_library", Str(s.reader)), Field("support_library", Str(s.support)),
     Field("reader_sha256", Str(s.readerHash)), Field("support_sha256", Str(s.supportHash))]
  }

  function SessionText(s: Session): string {
    Render(Obj(SessionFields(s)))
  }

  /** None is the exception "Invalid session metadata". */
  function SessionOf(text: string): Option<Session> {
    var p := ReadObject(text);
    if !p.ok || GetInt(p.maps, "schema_version", 0) != 1 then None
    else Some(Session(
      GetString(p.maps, "backend", ""), GetString(p.maps, "sdk_home", ""), GetString(p.maps, "adapter", ""),
      GetString(p.maps, "file", ""), GetString(p.maps, "file_identity", ""),
      GetString(p.maps, "reader_library", ""), GetString(p.maps, "support_library", ""),
      GetString(p.maps, "reader_sha256", ""), GetString(p.maps, "support_sha256", "")))
  }

  method SessionJson(s: Session) returns (out: string)
    ensures out == SessionText(s)
  {
    hide Render, EntriesText, EntriesOf, SessionFields;
    var j := new JsonObject();
    j.SetInt("schema_version", 1);
    j.Set("backend", s.backend);
    j.Set("sdk_home", s.sdkHome);
    j.Set("adapter", s.adapter);
    j.Set("file", s.file);
    j.Set("file_identity", s.fileIdentity);
    j.Set("reader_library", s.reader);
    j.Set("support_library", s.support);
    j.Set("reader_sha256", s.readerHash);
    j.Set("support_sha256", s.supportHash);
    SessionEntries(s, j.entries);
    out := j.Dump();
  }

  lemma SessionEntries(s: Session, entries: seq<Entry>)
    requires entries == [] + [Entry("schema_version", Render(Int(1)))] + [Entry("backend", Render(Str(s.backend)))]
      + [Entry("sdk_home", Render(Str(s.sdkHome)))] + [Entry("adapter", Render(Str(s.adapter)))]
      + [Entry("file", Render(Str(s.file)))] + [Entry("file_identity", Render(Str(s.fileIdentity)))]
      + [Entry("reader_library", Render(Str(s.reader)))] + [Entry("support_library", Render(Str(s.support)))]
      + [Entry("reader_sha256", Render(Str(s.readerHash)))] + [Entry("support_sha256", Render(Str(s.supportHash)))]
    ensures entries == EntriesOf(SessionFields(s))
  {
    hide Render;
  }

  lemma EntriesOfNone()
    ensures EntriesOf([]) == []
  {
  }

  lemma EntriesOfSnoc(fields: seq<Field>, f: Field)
    ensures EntriesOf(fields + [f]) == EntriesOf(fields) + [Entry(f.key, Render(f.val))]
  {
  }

  method ParseSession(text: string) returns (s: Option<Session>)
    ensures s == SessionOf(text)
  {
    hide ReadObject;
    var j := new JsonParser();
    var ok := j.Parse(text);
    var m := j.Stored();
    if !ok || GetInt(m, "schema_version", 0) != 1 {
      return None;
    }
    return Some(Session(
      GetString(m, "backend", ""), GetString(m, "sdk_home", ""), GetString(m, "adapter", ""),
      GetString(m, "file", ""), GetString(m, "file_identity", ""),
      GetString(m, "reader_library", ""), GetString(m, "support_library", ""),
      GetString(m, "reader_sha256", ""), GetString(m, "support_sha256", "")));
  }

  lemma SessionKeysDistinct(s: Session)
    ensures AllReadable(SessionFields(s)) && DistinctKeys(SessionFields(s))
  {
    var f := SessionFields(s);
    assert |f| == 10;
    assert f[0].key[0] == 's' && f[0].key[1] == 'c';
    assert |f[1].key| == 7 && |f[2].key| == 8 && |f[3].key| == 7 && |f[4].key| == 4 && |f[5].key| == 13;
    assert f[1].key[0] == 'b' && f[3].key[0] == 'a' && f[5].key[0] == 'f';
    assert |f[6].key| == 14 && f[6].key[0] == 'r' && |f[7].key| == 15;
    assert |f[8].key| == 13 && f[8].key[0] == 'r';
    assert |f[9].key| == 14 && f[9].key[0] == 's' && f[9].key[1] == 'u';
    assert |f[0].key| == 14;
  }

  lemma StringRecovered(fields: seq<Field>, k: nat)
    requires AllReadable(fields) && DistinctKeys(fields) && k < |fields| && fields[k].val.Str?
    ensures Accepts(Render(Obj(fields)))
    ensures GetString(ReadObject(Render(Obj(fields))).maps, fields[k].key, "") == fields[k].val.s
  {
    hide ReadObject, Render;
    EveryMemberRecovered(fields, k);
  }

  lemma IntRecovered(fields: seq<Field>, k: nat)
    requires AllReadable(fields) && DistinctKeys(fields) && k < |fields| && fields[k].val.Int?
    ensures Accepts(Render(Obj(fields)))
    ensures GetInt(ReadObject(Render(Obj(fields))).maps, fields[k].key, 0) == fields[k].val.i
  {
    hide ReadObject, Render;
    EveryMemberRecovered(fields, k);
  }

  /** A session survives printing and parsing, whatever characters its strings hold. */
  lemma SessionRoundTrip(s: Session)
    ensures SessionOf(SessionText(s)) == Some(s)
  {
    hide ReadObject, Render, GetInt, GetString, AllReadable, DistinctKeys;
    var f := SessionFields(s);
    SessionKeysDistinct(s);
    IntRecovered(f, 0);
    StringRecovered(f, 1);
    StringRecovered(f, 2);
    StringRecovered(f, 3);
    StringRecovered(f, 4);
    StringRecovered(f, 5);
    StringRecovered(f, 6);
    StringRecovered(f, 7);
    StringRecovered(f, 8);
    StringRecovered(f, 9);
  }

  // --------------------------------------------------------------- design session

  datatype DesignSession = DesignSession(source: string, args: seq<string>)

  function DesignFields(d: DesignSession): seq<Field> {
    [Field("schema_version", Int(1)), Field("source", Str(d.source)), Field("args", Arr(StrItems(d.args)))]
  }

  function DesignText(d: DesignSession): string {
    Render(Obj(DesignFields(d)))
  }

  datatype DesignError = InvalidSession | IncompleteSession

  datatype DesignResult = Design(d: DesignSession) | DesignFailure(error: DesignError)

  function DesignOf(text: string): DesignResult {
    var p := ReadObject(text);
    if !p.ok || GetInt(p.maps, "schema_version", 0) != 1 then DesignFailure(InvalidSession) else
    var d := DesignSession(GetString(p.maps, "source", ""), GetArray(p.maps, "args"));
    if d.source == "" || d.args == [] then DesignFailure(IncompleteSession) else Design(d)
  }

  method DesignJson(d: DesignSession) returns (out: string)
    ensures out == DesignText(d)
  {
    hide Render, EntriesText, EntriesOf;
    var record := new JsonObject();
    ghost var f := DesignFields(d);
    EntriesOfNone();
    record.SetInt("schema_version", 1);
    EntriesOfSnoc([], f[0]);
    record.Set("source", d.source);
    EntriesOfSnoc(f[..1], f[1]);
    record.SetArray("args", d.args);
    EntriesOfSnoc(f[..2], f[2]);
    assert f[..1] == [] + [f[0]] && f[..2] == f[..1] + [f[1]] && f == f[..2] + [f[2]];
    assert record.entries == EntriesOf(f);
    out := record.Dump();
  }

  method ParseDesign(text: string) returns (r: DesignResult)
    ensures r == DesignOf(text)
  {
    hide ReadObject;
    var parser := new JsonParser();
    var ok := parser.Parse(text);
    var m := parser.Stored();
    if !ok || GetInt(m, "schema_version", 0) != 1 {
      return DesignFailure(InvalidSession);
    }
    var d := DesignSession(GetString(m, "source", ""), GetArray(m, "args"));
    if d.source == "" || d.args == [] {
      return DesignFailure(IncompleteSession);
    }
    return Design(d);
  }

  /** A design session survives exactly when it names a source and at least one argument. */
  lemma DesignRoundTrip(d: DesignSession)
    ensures d.source != "" && d.args != [] ==> DesignOf(DesignText(d)) == Design(d)
    ensures d.source == "" || d.args == [] ==> DesignOf(DesignText(d)) == DesignFailure(IncompleteSession)
  {
    hide ReadObject, Render;
    var f := DesignFields(d);
    assert f[0].key[1] == 'c' && f[1].key[1] == 'o' && f[2].key[0] == 'a';
    assert AllReadable(f) && DistinctKeys(f);
    IntRecovered(f, 0);
    StringRecovered(f, 1);
    EveryMemberRecovered(f, 2);
    assert StringsOf(StrItems(d.args)) == d.args;
  }

  // -------------------------------------------------------------- over a command line

  lemma {:induction false} EscapeBytes(s: string)
    requires IsBytes(s)
    ensures IsBytes(Escape(s))
  {
    if s != "" {
      EscapeBytes(s[1..]);
      assert IsBytes(EscapeChar(s[0]));
    }
  }

  /** All strings of a document are byte strings. */
  predicate ByteStrings(j: Json)
    decreases j, 1
  {
    match j
    case Str(s) => IsBytes(s)
    case Int(_) => true
    case Bool(_) => true
    case Arr(items) => forall i :: 0 <= i < |items| ==> ByteStrings(items[i])
    case Obj(fields) => forall i :: 0 <= i < |fields| ==> IsBytes(fields[i].key) && ByteStrings(fields[i].val)
  }

  lemma {:induction false} RenderBytes(j: Json)
    requires ByteStrings(j)
    ensures IsBytes(Render(j))
    decreases j, 1
  {
    match j
    case Str(s) => EscapeBytes(s);
    case Int(i) => assert AllDigits(NatText(if i < 0 then -(i as int) else i as int));
    case Bool(_) =>
    case Arr(items) => RenderItemsBytes(items);
    case Obj(fields) => RenderFieldsBytes(fields);
  }

  lemma {:induction false} RenderItemsBytes(items: seq<Json>)
    requires forall i :: 0 <= i < |items| ==> ByteStrings(items[i])
    ensures IsBytes(RenderItems(items)) && IsBytes(RenderMoreItems(items))
    decreases items, 0
  {
    if items != [] {
      RenderBytes(items[0]);
      RenderItemsBytes(items[1..]);
    }
  }

  lemma {:induction false} RenderFieldsBytes(fields: seq<Field>)
    requires forall i :: 0 <= i < |fields| ==> IsBytes(fields[i].key) && ByteStrings(fields[i].val)
    ensures IsBytes(RenderFields(fields)) && IsBytes(RenderMoreFields(fields))
    decreases fields, 0
  {
    if fields != [] {
      EscapeBytes(fields[0].key);
      RenderBytes(fields[0].val);
      assert IsBytes(RenderField(fields[0]));
      RenderFieldsBytes(fields[1..]);
    }
  }

  predicate SessionBytes(s: Session) {
    && IsBytes(s.backend) && IsBytes(s.sdkHome) && IsBytes(s.adapter) && IsBytes(s.file) && IsBytes(s.fileIdentity)
    && IsBytes(s.reader) && IsBytes(s.support) && IsBytes(s.readerHash) && IsBytes(s.supportHash)
  }

  /**
   The worker gets back the session it was sent, whether the payload is hexadecimal or plain,
   and the hexadecimal payload stays a single word of any command line made of plain words.
   */
  lemma SessionSurvivesCommandLine(s: Session, before: seq<string>, after: seq<string>)
    requires SessionBytes(s)
    requires forall i :: 0 <= i < |before| ==> PlainWord(before[i])
    requires forall i :: 0 <= i < |after| ==> PlainWord(after[i])
    ensures IsBytes(SessionText(s))
    ensures
      var words := Flushed(SplitAll(START, Joined(before + [Encoded(SessionText(s))] + after)));
      && |words| == |before| + 1 + |after|
      && Decoded(words[|before|]).Some?
      && SessionOf(Decoded(words[|before|]).value) == Some(s)
    ensures Decoded(SessionText(s)).Some? && SessionOf(Decoded(SessionText(s)).value) == Some(s)
  {
    hide SessionOf, Flushed, SplitAll, Joined, Encoded, Decoded, Render;
    SessionIsBytes(s);
    var text := SessionText(s);
    var words := before + [Encoded(text)] + after;
    EncodedIsPlainWord(text);
    SplitUndoesJoin(words);
    DecodeUndoesEncode(text);
    SessionRoundTrip(s);
    PlainTextDecodes(SessionFields(s));
  }

  lemma SessionIsBytes(s: Session)
    requires SessionBytes(s)
    ensures IsBytes(SessionText(s))
  {
    hide IsBytes;
    var f := SessionFields(s);
    forall i | 0 <= i < |f| ensures IsBytes(f[i].key) && ByteStrings(f[i].val) {
      KeyBytes(s, i);
      assert f[i].val.Int? || f[i].val.s in [s.backend, s.sdkHome, s.adapter, s.file, s.fileIdentity,
        s.reader, s.support, s.readerHash, s.supportHash];
    }
    RenderBytes(Obj(f));
  }

  lemma KeyBytes(s: Session, i: nat)
    requires i < |SessionFields(s)|
    ensures IsBytes(SessionFields(s)[i].key)
  {
  }

  lemma PlainTextDecodes(fields: seq<Field>)
    ensures Decoded(Render(Obj(fields))) == Some(Render(Obj(fields)))
  {
    assert Render(Obj(fields))[0] == '{';
  }

  // ------------------------------------------------------------------------ refusals

  /** A record with another schema version, or without one, is refused, whatever else it holds. */
  lemma OtherVersionsRefused(fields: seq<Field>, k: nat)
    requires AllReadable(fields) && DistinctKeys(fields)
    requires (forall i :: 0 <= i < |fields| ==> fields[i].key != "schema_version")
      || (k < |fields| && fields[k].key == "schema_version" && fields[k].val.Int? && fields[k].val.i != 1)
    ensures SessionOf(Render(Obj(fields))) == None
    ensures DesignOf(Render(Obj(fields))) == DesignFailure(InvalidSession)
  {
    hide ReadObject, Render, AllReadable, DistinctKeys;
    if k < |fields| && fields[k].key == "schema_version" && fields[k].val.Int? {
      IntRecovered(fields, k);
    } else {
      NoOtherKeyRecovered(fields, "schema_version");
    }
  }

  /** A text that is no object is refused. */
  lemma GarbageRefused(text: string)
    requires !Accepts(text)
    ensures SessionOf(text) == None && DesignOf(text) == DesignFailure(InvalidSession)
  {
    hide ReadObject;
  }

  /** The members a session is printed with. */
  lemma SessionMembers(s: Session)
    ensures var m := ReadObject(SessionText(s)).maps;
      && m.ints == map["schema_version" := 1]
      && GetString(m, "backend", "") == s.backend && GetString(m, "sdk_home", "") == s.sdkHome
      && GetString(m, "adapter", "") == s.adapter && GetString(m, "file", "") == s.file
      && GetString(m, "file_identity", "") == s.fileIdentity && GetString(m, "reader_library", "") == s.reader
      && GetString(m, "support_library", "") == s.support && GetString(m, "reader_sha256", "") == s.readerHash
      && GetString(m, "support_sha256", "") == s.supportHash
  {
    hide ReadObject, Render, AllReadable, DistinctKeys, GetString;
    var f := SessionFields(s);
    SessionKeysDistinct(s);
    OnlyVersionIsNumber(s);
    StringRecovered(f, 1);
    StringRecovered(f, 2);
    StringRecovered(f, 3);
    StringRecovered(f, 4);
    StringRecovered(f, 5);
    StringRecovered(f, 6);
    StringRecovered(f, 7);
    StringRecovered(f, 8);
    StringRecovered(f, 9);
  }

  lemma {:induction false} StringsKeepNumbers(m: Maps, fields: seq<Field>)
    requires AllReadable(fields) && forall i :: 0 <= i < |fields| ==> fields[i].val.Str?
    ensures StoreAll(m, fields).ints == m.ints
    decreases |fields|
  {
    if fields != [] {
      StringsKeepNumbers(Store(m, fields[0]), fields[1..]);
    }
  }

  lemma OnlyVersionIsNumber(s: Session)
    ensures ReadObject(SessionText(s)).maps.ints == map["schema_version" := 1]
  {
    hide ReadObject, Render, StoreAll;
    var f := SessionFields(s);
    SessionKeysDistinct(s);
    AcceptedIffReadable(f);
    StoreFirst(NOTHING, f);
    StringsKeepNumbers(Store(NOTHING, f[0]), f[1..]);
  }

  lemma StoreFirst(m: Maps, fields: seq<Field>)
    requires AllReadable(fields) && fields != []
    ensures AllReadable(fields[1..]) && StoreAll(m, fields) == StoreAll(Store(m, fields[0]), fields[1..])
  {
  }
}

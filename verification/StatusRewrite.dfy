/**
 The login-host proxy edits the worker's status response as text: it overwrites the digits
 behind the first "pid": and inserts members behind the first "data":{. On the responses a
 worker produces these edits touch exactly the members they mean, whatever the string
 values contain.
 */
module StatusRewrite {
  import opened CText
  import opened JsonText
  import opened JsonRoundTrip
  import opened JsonParsing
  import opened Protocol

  // ------------------------------------------------------------------- searching

  /** std::string::find. */
  function Find(s: string, pattern: string, from: nat): (r: Option<nat>)
    requires from <= |s|
    ensures r.Some? ==> from <= r.value <= |s| && pattern <= s[r.value..]
    ensures r.Some? ==> forall i :: from <= i < r.value ==> !(pattern <= s[i..])
    ensures r.None? ==> forall i :: from <= i <= |s| ==> !(pattern <= s[i..])
    decreases |s| - from
  {
    if pattern <= s[from..] then Some(from)
    else if from == |s| then None
    else Find(s, pattern, from + 1)
  }

  method ReplacePid(response: string, pid: int) returns (out: string)
    ensures out == PidReplaced(response, pid)
  {
    hide Find, IntText, DigitPrefix;
    var pos := Find(response, "\"pid\":", 0);
    if pos.None? {
      return response;
    }
    var begin := pos.value + 6;
    var end := EndOfDigits(response, begin);
    if end == begin {
      return response;
    }
    out := response[..begin] + IntText(pid) + response[end..];
  }

  method EndOfDigits(s: string, begin: nat) returns (end: nat)
    requires begin <= |s|
    ensures end == begin + |DigitPrefix(s[begin..])| <= |s|
  {
    end := begin;
    while end < |s| && IsDigit(s[end])
      invariant begin <= end <= |s|
      invariant |DigitPrefix(s[begin..])| == end - begin + |DigitPrefix(s[end..])|
    {
      assert s[end..][1..] == s[end+1..];
      end := end + 1;
    }
  }

  function PidReplaced(response: string, pid: int): string {
    var pos := Find(response, "\"pid\":", 0);
    if pos.None? then response else
    var begin := pos.value + 6;
    var digits := DigitPrefix(response[begin..]);
    if digits == "" then response
    else response[..begin] + IntText(pid) + response[begin + |digits|..]
  }

  function StatusFields(jobId: string, jobName: string): seq<Field> {
    [Field("run_mode", Str("lsf"))]
    + (if jobId != "" then [Field("job_id", Str(jobId))] else [])
    + (if jobName != "" then [Field("job_name", Str(jobName))] else [])
  }

  function StatusAdded(response: string, jobId: string, jobName: string): string {
    var marker := Find(response, "\"data\":{", 0);
    if marker.None? then response
    else response[..marker.value + 8] + RenderFields(StatusFields(jobId, jobName)) + "," + response[marker.value + 8..]
  }

  method AddStatusFields(response: string, jobId: string, jobName: string) returns (out: string)
    ensures out == StatusAdded(response, jobId, jobName)
  {
    hide Find, RenderFields, StatusFields;
    var marker := Find(response, "\"data\":{", 0);
    if marker.None? {
      return response;
    }
    var prefix := StatusMembers(jobId, jobName);
    out := response[..marker.value + 8] + prefix + "," + response[marker.value + 8..];
  }

  /** The members to insert: a dump without its braces. */
  method StatusMembers(jobId: string, jobName: string) returns (prefix: string)
    ensures prefix == RenderFields(StatusFields(jobId, jobName))
  {
    hide RenderFields, Render, EntriesOf, EntriesText;
    ghost var members := [Field("run_mode", Str("lsf"))];
    var fields := new JsonObject();
    fields.Set("run_mode", "lsf");
    EntriesOfOne(members[0]);
    if jobId != "" {
      fields.Set("job_id", jobId);
      EntriesOfMore(members, Field("job_id", Str(jobId)));
      members := members + [Field("job_id", Str(jobId))];
    }
    if jobName != "" {
      fields.Set("job_name", jobName);
      EntriesOfMore(members, Field("job_name", Str(jobName)));
      members := members + [Field("job_name", Str(jobName))];
    }
    assert members == StatusFields(jobId, jobName);
    prefix := fields.Dump();
    ObjectText(members);
    prefix := prefix[1..];
    if prefix != "" && prefix[|prefix|-1] == '}' {
      prefix := prefix[..|prefix|-1];
    }
  }

  lemma EntriesOfOne(f: Field)
    ensures EntriesOf([f]) == [Entry(f.key, Render(f.val))]
  {
  }

  lemma EntriesOfMore(fields: seq<Field>, f: Field)
    ensures EntriesOf(fields + [f]) == EntriesOf(fields) + [Entry(f.key, Render(f.val))]
  {
  }

  lemma ObjectText(fields: seq<Field>)
    ensures Render(Obj(fields)) == "{" + RenderFields(fields) + "}"
  {
  }

  // ------------------------------------------- where a key can occur in a rendering

  function KeyPattern(word: string): string {
    "\"" + word + "\":"
  }

  /** A word that occurs unchanged in a quoted key and cannot be mistaken for punctuation. */
  predicate Searchable(word: string) {
    word != "" && word[0] != ',' && word[0] != '}' && word[0] != ':'
    && forall i :: 0 <= i < |word| ==> word[i] != '"' && word[i] != '\\' && word[i] != '\n' && word[i] != '\t'
  }

  /** No occurrence of the key starts inside a when t follows a. */
  predicate NoHit(word: string, a: string, t: string) {
    forall i :: 0 <= i < |a| ==> !(KeyPattern(word) <= (a + t)[i..])
  }

  lemma NoHitConcat(word: string, a: string, b: string, t: string)
    requires NoHit(word, a, b + t) && NoHit(word, b, t)
    ensures NoHit(word, a + b, t)
  {
    assert a + (b + t) == a + b + t;
    forall i | 0 <= i < |a + b| ensures !(KeyPattern(word) <= (a + b + t)[i..]) {
      if i >= |a| {
        assert (a + b + t)[i..] == (b + t)[i - |a|..];
      }
    }
  }

  lemma NoHitWithoutQuote(word: string, a: string, t: string)
    requires forall i :: 0 <= i < |a| ==> a[i] != '"'
    ensures NoHit(word, a, t)
  {
    forall i | 0 <= i < |a| ensures !(KeyPattern(word) <= (a + t)[i..]) {
      assert (a + t)[i..][0] == a[i];
      assert KeyPattern(word)[0] == '"';
    }
  }

  /** Inside an escaped string every quote has a backslash in front. */
  lemma {:induction false} InnerQuoteEscaped(s: string, i: nat)
    requires i < |Escape(s)| && Escape(s)[i] == '"'
    ensures i > 0 && Escape(s)[i-1] == '\\'
  {
    var head := EscapeChar(s[0]);
    if i >= |head| {
      InnerQuoteEscaped(s[1..], i - |head|);
      assert Escape(s)[i-1] == Escape(s[1..])[i-1-|head|];
    }
  }

  lemma PatternChars(word: string, s: string, i: nat)
    requires i <= |s| && KeyPattern(word) <= s[i..]
    ensures i + |word| + 2 < |s|
    ensures s[i] == '"' && s[i+|word|+1] == '"' && s[i+|word|+2] == ':'
    ensures forall k :: i < k < i + |word| + 1 ==> s[k] == word[k-i-1]
  {
    var p := KeyPattern(word);
    assert forall k :: 0 <= k < |p| ==> s[i..][k] == p[k] == s[i+k];
    assert forall k :: 0 <= k < |word| ==> p[1+k] == word[k] && s[i+(1+k)] == p[1+k];
    assert p[0] == '"' && p[|word|+1] == '"' && p[|word|+2] == ':';
  }

  /** A quoted string hides every key, unless it is the key itself. */
  lemma NoHitInQuote(word: string, s: string, t: string)
    requires Searchable(word)
    requires t != "" && (t[0] == ',' || t[0] == '}' || t[0] == ':')
    requires t[0] == ':' ==> Searchable(s) && s != word
    ensures NoHit(word, Quote(s), t)
  {
    hide Escape, Searchable;
    assert word != "" && word[0] != ',' && word[0] != '}' && word[0] != ':'
      && forall i :: 0 <= i < |word| ==> word[i] != '"' && word[i] != '\\' by { SearchableMeans(word); }
    var q := Quote(s);
    var last := |q| - 1;
    forall i | 0 <= i < |q| ensures !(KeyPattern(word) <= (q + t)[i..]) {
      if KeyPattern(word) <= (q + t)[i..] {
        PatternChars(word, q + t, i);
        var close := i + |word| + 1;
        var text := q + t;
        assert text[i+1] == word[0] && text[close-1] == word[|word|-1];
        assert text[last] == '"' && text[last+1] == t[0];
        assert forall k :: i < k < last ==> text[k] == q[k];
        if close < last {
          InnerQuoteEscaped(s, close - 1);
        } else if close == last {
          KeyOfQuote(word, s, q, i);
        }
      }
    }
  }

  lemma SearchableMeans(word: string)
    requires Searchable(word)
    ensures word != "" && word[0] != ',' && word[0] != '}' && word[0] != ':'
    ensures forall i :: 0 <= i < |word| ==> word[i] != '"' && word[i] != '\\' && word[i] != '\n' && word[i] != '\t'
  {
  }

  lemma KeyOfQuote(word: string, s: string, q: string, i: nat)
    requires Searchable(s) && q == Quote(s)
    requires i + |word| + 2 == |q| && q[i] == '"'
    requires forall k :: i < k < |q| - 1 ==> q[k] == word[k-i-1]
    ensures s == word
  {
    QuotePlain(s);
    assert i == 0;
    assert forall k :: 0 <= k < |word| ==> q[k+1] == s[k];
  }

  // ------------------------------------------------------------- scalar objects

  predicate Scalar(f: Field) {
    f.val.Str? || f.val.Int? || f.val.Bool?
  }

  /** Members such as a status response holds: scalars under ordinary keys other than the word. */
  predicate ScalarsBesides(word: string, fields: seq<Field>) {
    forall i :: 0 <= i < |fields| ==> Scalar(fields[i]) && Searchable(fields[i].key) && fields[i].key != word
  }

  /** Each member with the comma behind it. */
  function WithCommas(fields: seq<Field>): string {
    if fields == [] then "" else RenderField(fields[0]) + "," + WithCommas(fields[1..])
  }

  lemma {:induction false} RenderSplit(before: seq<Field>, f: Field, after: seq<Field>)
    ensures RenderFields(before + [f] + after) == WithCommas(before) + RenderField(f) + RenderMoreFields(after)
    decreases |before|
  {
    hide RenderField;
    var all := before + [f] + after;
    if before == [] {
      assert all[1..] == after;
    } else {
      assert all[1..] == before[1..] + [f] + after;
      RenderSplit(before[1..], f, after);
      assert RenderMoreFields(all[1..]) == "," + RenderFields(all[1..]);
    }
  }

  lemma NoHitInValue(word: string, j: Json, t: string)
    requires Searchable(word) && (j.Str? || j.Int? || j.Bool?)
    requires t != "" && (t[0] == ',' || t[0] == '}')
    ensures NoHit(word, Render(j), t)
  {
    hide Searchable, Quote, NoHit;
    match j
    case Str(s) => NoHitInQuote(word, s, t);
    case Int(i) => IntTextPlain(i); NoHitWithoutQuote(word, IntText(i), t);
    case Bool(b) => NoHitWithoutQuote(word, Render(j), t);
  }

  lemma NoHitInField(word: string, f: Field, t: string)
    requires Searchable(word) && Scalar(f) && Searchable(f.key) && f.key != word
    requires t != "" && (t[0] == ',' || t[0] == '}')
    ensures NoHit(word, RenderField(f), t)
  {
    hide Searchable, Quote, NoHit, Render;
    var value := Render(f.val);
    NoHitInValue(word, f.val, t);
    NoHitWithoutQuote(word, ":", value + t);
    NoHitConcat(word, ":", value, t);
    assert ":" + value + t == ":" + (value + t);
    NoHitInQuote(word, f.key, ":" + value + t);
    NoHitConcat(word, Quote(f.key), ":" + value, t);
    assert RenderField(f) == Quote(f.key) + (":" + value);
  }

  lemma {:induction false} NoHitInFields(word: string, fields: seq<Field>, t: string)
    requires Searchable(word) && ScalarsBesides(word, fields)
    ensures NoHit(word, WithCommas(fields), t)
  {
    hide Searchable, NoHit, RenderField;
    if fields == [] {
      NoHitWithoutQuote(word, "", t);
    } else {
      var tail := WithCommas(fields[1..]);
      NoHitInFields(word, fields[1..], t);
      NoHitWithoutQuote(word, ",", tail + t);
      NoHitConcat(word, ",", tail, t);
      assert "," + tail + t == "," + (tail + t);
      NoHitInField(word, fields[0], "," + tail + t);
      NoHitConcat(word, RenderField(fields[0]), "," + tail, t);
      assert WithCommas(fields) == RenderField(fields[0]) + ("," + tail);
    }
  }

  /** The search finds the key where it stands. */
  lemma FindAt(word: string, a: string, t: string, pattern: string)
    requires NoHit(word, a, pattern + t) && KeyPattern(word) <= pattern
    ensures Find(a + pattern + t, pattern, 0) == Some(|a|)
  {
    hide Find;
    var s := a + pattern + t;
    assert s == a + (pattern + t);
    var r := Find(s, pattern, 0);
    assert pattern <= s[|a|..] by { assert s[|a|..] == pattern + t; }
    assert r.Some? && r.value <= |a|;
    assert forall i :: 0 <= i <= |s| && pattern <= s[i..] ==> KeyPattern(word) <= s[i..];
  }

  // --------------------------------------------------------- the status response

  /** A status response: an ok envelope around an object of scalars. */
  function StatusText(id: Int64, fields: seq<Field>): string {
    OkText(id, Render(Obj(fields)))
  }

  /** What stands in front of the object's members. */
  function Head(id: Int64): string {
    "{" + WithCommas(HeadFields(id))
  }

  function HeadFields(id: Int64): seq<Field> {
    [Field("id", Int(id)), Field("status", Str("ok"))]
  }

  lemma StatusTextParts(id: Int64, fields: seq<Field>)
    ensures StatusText(id, fields) == Head(id) + "\"data\":{" + RenderFields(fields) + "}}"
  {
    hide RenderField, RenderFields, WithCommas, Quote, OkText, Render;
    var data := Obj(fields);
    var last := Field("data", data);
    OkIsRendering(id, data);
    assert OkFields(id, data) == HeadFields(id) + [last] + [];
    RenderSplit(HeadFields(id), last, []);
    ObjectText(OkFields(id, data));
    ObjectText(fields);
    PlainFieldText("data", data);
    NoMoreFields();
    DataText(RenderFields(fields));
  }

  lemma DataText(members: string)
    ensures "\"" + "data" + "\":" + ("{" + members + "}") == "\"data\":{" + members + "}"
    ensures "}" + "}" == "}}"
  {
    assert "\"" + "data" + "\":" + "{" == "\"data\":{";
  }

  lemma NoMoreFields()
    ensures RenderMoreFields([]) == ""
  {
  }

  lemma NoHitInHead(word: string, id: Int64, t: string)
    requires Searchable(word) && word != "id" && word != "status"
    ensures NoHit(word, Head(id), t)
  {
    hide NoHit, WithCommas;
    var outer := HeadFields(id);
    NoHitInFields(word, outer, t);
    NoHitWithoutQuote(word, "{", WithCommas(outer) + t);
    NoHitConcat(word, "{", WithCommas(outer), t);
  }

  /**
   Overwriting the process id changes that member and nothing else, whatever the string
   values contain.
   */
  lemma ReplacePidChangesOnlyPid(id: Int64, before: seq<Field>, after: seq<Field>, old_: Int64, pid: Int64)
    requires ScalarsBesides("pid", before) && old_ >= 0
    ensures PidReplaced(StatusText(id, before + [Field("pid", Int(old_))] + after), pid)
         == StatusText(id, before + [Field("pid", Int(pid))] + after)
  {
    hide NoHit, Find, WithCommas, RenderField, RenderFields, RenderMoreFields, Head, IntText, Searchable;
    var p := Head(id) + "\"data\":{" + WithCommas(before);
    var t := RenderMoreFields(after) + "}}";
    var marker := "\"pid\":";
    PidStatusParts(id, before, after, old_);
    PidStatusParts(id, before, after, pid);
    var digits := IntText(old_);
    PidSearch(id, before, digits + t);
    assert p + marker + (digits + t) == p + marker + digits + t;
    DigitsOfPid(old_, t, after);
    var s := p + marker + digits + t;
    assert s[|p| + 6..] == digits + t;
    assert s[|p| + 6 + |digits|..] == t;
    assert s[..|p| + 6] == p + marker;
  }

  lemma PidStatusParts(id: Int64, before: seq<Field>, after: seq<Field>, pid: Int64)
    ensures StatusText(id, before + [Field("pid", Int(pid))] + after)
         == Head(id) + "\"data\":{" + WithCommas(before) + "\"pid\":" + IntText(pid) + (RenderMoreFields(after) + "}}")
  {
    hide WithCommas, RenderField, RenderFields, RenderMoreFields, Head, IntText;
    var f := Field("pid", Int(pid));
    StatusTextParts(id, before + [f] + after);
    RenderSplit(before, f, after);
    PlainFieldText("pid", Int(pid));
    assert "\"" + "pid" + "\":" == "\"pid\":";
  }

  lemma PidSearch(id: Int64, before: seq<Field>, t: string)
    requires ScalarsBesides("pid", before)
    ensures var p := Head(id) + "\"data\":{" + WithCommas(before);
      Find(p + "\"pid\":" + t, "\"pid\":", 0) == Some(|p|)
  {
    hide NoHit, Find, WithCommas, Head;
    var marker := "\"pid\":";
    var u := marker + t;
    var w := WithCommas(before);
    assert KeyPattern("pid") == marker;
    NoHitInFields("pid", before, u);
    NoHitInData("pid", w + u);
    NoHitConcat("pid", "\"data\":{", w, u);
    assert "\"data\":{" + (w + u) == ("\"data\":{" + w) + u;
    NoHitInHead("pid", id, "\"data\":{" + w + u);
    NoHitConcat("pid", Head(id), "\"data\":{" + w, u);
    assert Head(id) + ("\"data\":{" + w) == Head(id) + "\"data\":{" + w;
    FindAt("pid", Head(id) + "\"data\":{" + w, t, marker);
  }

  lemma NoHitInData(word: string, t: string)
    requires word == "pid"
    ensures NoHit(word, "\"data\":{", t)
  {
    hide NoHit;
    NoHitWithoutQuote(word, "{", t);
    NoHitWithoutQuote(word, ":", "{" + t);
    NoHitConcat(word, ":", "{", t);
    QuotePlain("data");
    assert (":" + "{") + t == ":" + ("{" + t);
    NoHitInQuote(word, "data", ":" + "{" + t);
    NoHitConcat(word, Quote("data"), ":" + "{", t);
    assert Quote("data") + (":" + "{") == "\"data\":{";
  }

  lemma DigitsOfPid(pid: Int64, t: string, after: seq<Field>)
    requires pid >= 0 && t == RenderMoreFields(after) + "}}"
    ensures DigitPrefix(IntText(pid) + t) == IntText(pid) && IntText(pid) != ""
  {
    assert t[0] == ',' || t[0] == '}' by {
      assert after != [] ==> RenderMoreFields(after)[0] == ',';
    }
    DigitPrefixStops(NatText(pid), t);
  }

  lemma FieldsStep(fields: seq<Field>)
    requires fields != []
    ensures RenderFields(fields) == RenderField(fields[0]) + RenderMoreFields(fields[1..])
    ensures RenderMoreFields(fields) == "," + RenderFields(fields)
  {
    hide RenderField;
    var more := RenderMoreFields(fields[1..]);
    assert "," + RenderField(fields[0]) + more == "," + (RenderField(fields[0]) + more);
  }

  lemma {:induction false} RenderMoreFieldsConcat(a: seq<Field>, b: seq<Field>)
    ensures RenderMoreFields(a + b) == RenderMoreFields(a) + RenderMoreFields(b)
    decreases |a|
  {
    hide RenderField, RenderFields, RenderMoreFields;
    if a == [] {
      assert a + b == b;
      NoMoreFields();
      assert "" + RenderMoreFields(b) == RenderMoreFields(b);
    } else {
      RenderFieldsJoin(a, b);
      FieldsStep(a);
      FieldsStep(a + b);
      assert "," + (RenderFields(a) + RenderMoreFields(b)) == "," + RenderFields(a) + RenderMoreFields(b);
    }
  }

  lemma {:induction false} RenderFieldsJoin(a: seq<Field>, b: seq<Field>)
    requires a != []
    ensures RenderFields(a + b) == RenderFields(a) + RenderMoreFields(b)
    decreases |a|, 0
  {
    hide RenderField, RenderFields, RenderMoreFields;
    assert (a + b)[1..] == a[1..] + b;
    FieldsStep(a);
    FieldsStep(a + b);
    RenderMoreFieldsConcat(a[1..], b);
    var head, x, y := RenderField(a[0]), RenderMoreFields(a[1..]), RenderMoreFields(b);
    assert head + (x + y) == head + x + y;
  }

  lemma RenderFieldsConcat(a: seq<Field>, b: seq<Field>)
    requires a != [] && b != []
    ensures RenderFields(a + b) == RenderFields(a) + "," + RenderFields(b)
  {
    hide RenderFields, RenderMoreFields;
    RenderFieldsJoin(a, b);
    FieldsStep(b);
    assert RenderFields(a) + ("," + RenderFields(b)) == RenderFields(a) + "," + RenderFields(b);
  }

  /** The inserted members stand first in the object, a comma behind them. */
  lemma StatusAddedText(id: Int64, fields: seq<Field>, jobId: string, jobName: string)
    ensures StatusAdded(StatusText(id, fields), jobId, jobName)
         == Head(id) + "\"data\":{" + RenderFields(StatusFields(jobId, jobName)) + "," + RenderFields(fields) + "}}"
  {
    hide NoHit, Find, Head, RenderFields, StatusFields, OkText;
    var marker := "\"data\":{";
    var t := RenderFields(fields) + "}}";
    StatusTextParts(id, fields);
    assert Head(id) + marker + RenderFields(fields) + "}}" == Head(id) + marker + t;
    NoHitInHead("data", id, marker + t);
    DataPattern();
    FindAt("data", Head(id), t, marker);
    var s := Head(id) + marker + t;
    assert s[..|Head(id)| + 8] == Head(id) + marker;
    assert s[|Head(id)| + 8..] == t;
  }

  lemma DataPattern()
    ensures KeyPattern("data") <= "\"data\":{" && Searchable("data")
  {
  }

  /** On a non-empty object the edit adds the LSF members and changes nothing else. */
  lemma AddStatusFieldsOnlyAdds(id: Int64, fields: seq<Field>, jobId: string, jobName: string)
    requires fields != []
    ensures StatusAdded(StatusText(id, fields), jobId, jobName)
         == StatusText(id, StatusFields(jobId, jobName) + fields)
  {
    hide Head, RenderFields, OkText, StatusAdded;
    var added := StatusFields(jobId, jobName);
    StatusAddedText(id, fields, jobId, jobName);
    RenderFieldsConcat(added, fields);
    StatusTextParts(id, added + fields);
    assert Head(id) + "\"data\":{" + (RenderFields(added) + "," + RenderFields(fields)) + "}}"
        == Head(id) + "\"data\":{" + RenderFields(added) + "," + RenderFields(fields) + "}}";
  }

  // --------------------------------------------------- the empty object goes wrong

  lemma {:induction false} TrailingCommaRejected(fields: seq<Field>, m: Maps)
    requires fields != []
    ensures !ReadFields(RenderFields(fields) + ",}", m).ok
    decreases |fields|
  {
    hide ReadMember, RenderField, Store, Readable;
    var more := fields[1..];
    var tail := RenderMoreFields(more) + ",}";
    assert RenderFields(fields) + ",}" == RenderField(fields[0]) + tail;
    assert more == [] ==> tail == ",}";
    assert more != [] ==> tail == "," + (RenderFields(more) + ",}");
    if !Readable(fields[0]) {
      ReadMemberRejected(fields[0], m, tail);
    } else {
      ReadMemberOf(fields[0], m, tail);
      if more == [] {
        NoMemberAtBrace(Store(m, fields[0]));
      } else {
        assert tail[1..] == RenderFields(more) + ",}";
        TrailingCommaRejected(more, Store(m, fields[0]));
      }
    }
  }

  lemma NoMemberAtBrace(m: Maps)
    ensures !ReadFields(",}"[1..], m).ok
  {
    assert ",}"[1..] == "}";
    assert ReadString("}") == ("", "}");
  }

  /** The text of the data object after the edit. */
  function EditedData(fields: seq<Field>, jobId: string, jobName: string): string {
    "{" + RenderFields(StatusFields(jobId, jobName)) + "," + RenderFields(fields) + "}"
  }

  /** The edited response is the same envelope around the edited data object. */
  lemma StatusAddedEnvelope(id: Int64, fields: seq<Field>, jobId: string, jobName: string)
    ensures StatusAdded(StatusText(id, fields), jobId, jobName) == OkText(id, EditedData(fields, jobId, jobName))
  {
    hide RenderFields, StatusAdded, StatusFields, IntText, Quote;
    var l := RenderFields(StatusFields(jobId, jobName)) + "," + RenderFields(fields);
    StatusAddedText(id, fields, jobId, jobName);
    HeadText(id);
    assert OkText(id, "{" + l + "}") == "{\"id\":" + IntText(id) + ",\"status\":\"ok\"" + ",\"data\":{" + l + "}}" by {
      assert ",\"data\":" + "{" == ",\"data\":{";
      assert "}" + "}" == "}}";
    }
    assert "," + "\"data\":{" == ",\"data\":{";
    assert "{" + RenderFields(StatusFields(jobId, jobName)) + "," + RenderFields(fields) + "}" == "{" + l + "}";
  }

  lemma HeadText(id: Int64)
    ensures Head(id) == "{\"id\":" + IntText(id) + ",\"status\":\"ok\"" + ","
  {
    hide RenderField, IntText, Quote, Escape;
    var f := HeadFields(id);
    PlainFieldText("id", Int(id));
    PlainFieldText("status", Str("ok"));
    QuotePlain("ok");
    assert f[1..] == [f[1]];
    assert [f[1]][1..] == [];
    assert WithCommas([]) == "";
    assert WithCommas([f[1]]) == RenderField(f[1]) + ",";
    assert "{" + ("\"" + "id" + "\":") == "{\"id\":";
    assert "," + ("\"" + "status" + "\":" + ("\"" + "ok" + "\"")) == ",\"status\":\"ok\"";
  }

  /**
   The edited data object reads back exactly when the original object had a member; an empty
   object is left with a trailing comma that the parser refuses.
   */
  lemma EditedDataReadableIffNonEmpty(fields: seq<Field>, jobId: string, jobName: string)
    requires AllReadable(fields)
    ensures Accepts(EditedData(fields, jobId, jobName)) <==> fields != []
  {
    hide RenderFields, Accepts, ReadFields, StatusFields, Readable;
    var added := StatusFields(jobId, jobName);
    AddedReadable(jobId, jobName);
    if fields != [] {
      RenderFieldsConcat(added, fields);
      ObjectText(added + fields);
      AcceptedIffReadable(added + fields);
      assert AllReadable(added + fields);
      assert EditedData(fields, jobId, jobName) == "{" + (RenderFields(added) + "," + RenderFields(fields)) + "}";
    } else {
      NoFields();
      assert EditedData(fields, jobId, jobName) == "{" + (RenderFields(added) + ",}") by {
        assert "," + "" + "}" == ",}";
      }
      RefusedWithTrailingComma(added);
    }
  }

  lemma AddedReadable(jobId: string, jobName: string)
    ensures StatusFields(jobId, jobName) != [] && AllReadable(StatusFields(jobId, jobName))
  {
  }

  lemma RefusedWithTrailingComma(fields: seq<Field>)
    requires fields != []
    ensures !Accepts("{" + (RenderFields(fields) + ",}"))
  {
    hide ReadFields, RenderField, SkipSpaces;
    var body := RenderFields(fields) + ",}";
    var t := "{" + body;
    assert t[1..] == body;
    FieldOpens(fields[0]);
    assert body[0] == RenderField(fields[0])[0];
    NoSpacesToSkip(t);
    NoSpacesToSkip(body);
    TrailingCommaRejected(fields, NOTHING);
  }

  // -------------------------------------------------------------- error responses

  lemma NoHitAnywhere(word: string, s: string)
    requires NoHit(word, s, "")
    ensures forall i :: 0 <= i <= |s| ==> !(KeyPattern(word) <= s[i..])
  {
    assert s + "" == s;
  }

  /** An error response passes through both edits unchanged, whatever its message says. */
  lemma ErrorResponseUnchanged(id: Int64, code: string, message: string, pid: int, jobId: string, jobName: string)
    ensures PidReplaced(ErrorText(id, code, message), pid) == ErrorText(id, code, message)
    ensures StatusAdded(ErrorText(id, code, message), jobId, jobName) == ErrorText(id, code, message)
  {
    hide NoHit, Find, ErrorText;
    var s := ErrorText(id, code, message);
    ErrorHides("pid", id, code, message);
    NoHitAnywhere("pid", s);
    assert KeyPattern("pid") == "\"pid\":";
    ErrorHides("data", id, code, message);
    NoHitAnywhere("data", s);
    DataPattern();
    assert forall i :: 0 <= i <= |s| && "\"data\":{" <= s[i..] ==> KeyPattern("data") <= s[i..];
  }

  lemma NoHitChain(word: string, a: string, b: string, c: string, t: string)
    requires NoHit(word, a, b + (c + t)) && NoHit(word, b, c + t) && NoHit(word, c, t)
    ensures NoHit(word, a + b + c, t)
  {
    hide NoHit;
    NoHitConcat(word, b, c, t);
    assert b + c + t == b + (c + t);
    NoHitConcat(word, a, b + c, t);
    assert a + (b + c) == a + b + c;
  }

  lemma NoHitInObject(word: string, init: seq<Field>, last: Field, t: string)
    requires Searchable(word) && ScalarsBesides(word, init + [last])
    ensures NoHit(word, Render(Obj(init + [last])), t)
  {
    hide NoHit, RenderField, RenderFields, WithCommas, Searchable;
    var fields := init + [last];
    assert fields == init + [last] + [];
    assert fields[|init|] == last;
    assert forall i :: 0 <= i < |init| ==> fields[i] == init[i];
    RenderSplit(init, last, []);
    NoMoreFields();
    ObjectText(fields);
    var a, b, c := "{" + WithCommas(init), RenderField(last), "}";
    NoHitWithoutQuote(word, c, t);
    NoHitInField(word, last, c + t);
    NoHitInFields(word, init, b + (c + t));
    NoHitWithoutQuote(word, "{", WithCommas(init) + (b + (c + t)));
    NoHitConcat(word, "{", WithCommas(init), b + (c + t));
    NoHitChain(word, a, b, c, t);
    assert a + b + c == Render(Obj(fields));
  }

  lemma NoHitInObjectField(word: string, f: Field, t: string)
    requires Searchable(word) && Searchable(f.key) && f.key != word
    requires NoHit(word, Render(f.val), t)
    ensures NoHit(word, RenderField(f), t)
  {
    hide NoHit, Render, Quote, Searchable;
    var value := Render(f.val);
    NoHitWithoutQuote(word, ":", value + t);
    NoHitInQuote(word, f.key, ":" + (value + t));
    NoHitChain(word, Quote(f.key), ":", value, t);
    FieldText(f);
  }

  lemma ErrorHides(word: string, id: Int64, code: string, message: string)
    requires word == "pid" || word == "data"
    ensures NoHit(word, ErrorText(id, code, message), "")
  {
    hide NoHit, ErrorText, RenderField, RenderFields, WithCommas;
    var outer := FailFields(id, code, message);
    ErrorIsRendering(id, code, message);
    assert outer == outer[..2] + [outer[2]] + [];
    RenderSplit(outer[..2], outer[2], []);
    NoMoreFields();
    ObjectText(outer);
    var a, b, c := "{" + WithCommas(outer[..2]), RenderField(outer[2]), "}";
    NoHitWithoutQuote(word, c, "");
    InnerErrorHides(word, code, message, c + "");
    NoHitInFields(word, outer[..2], b + (c + ""));
    NoHitWithoutQuote(word, "{", WithCommas(outer[..2]) + (b + (c + "")));
    NoHitConcat(word, "{", WithCommas(outer[..2]), b + (c + ""));
    NoHitChain(word, a, b, c, "");
    assert a + b + c == ErrorText(id, code, message);
  }

  lemma InnerErrorHides(word: string, code: string, message: string, t: string)
    requires word == "pid" || word == "data"
    ensures NoHit(word, RenderField(Field("error", Obj(ErrorFields(code, message)))), t)
  {
    hide NoHit, RenderField, Render;
    var inner := ErrorFields(code, message);
    assert inner == inner[..1] + [inner[1]];
    NoHitInObject(word, inner[..1], inner[1], t);
    NoHitInObjectField(word, Field("error", Obj(inner)), t);
  }

  lemma FieldText(f: Field)
    ensures RenderField(f) == Quote(f.key) + ":" + Render(f.val)
  {
  }
}

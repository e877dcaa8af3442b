/**
 The response envelopes of the worker.
 */
module Protocol {
  import opened CText
  import opened JsonText

  // ------------------------------------------------------------------ envelopes

  function OkText(id: int, data: string): string {
    "{\"id\":" + IntText(id) + ",\"status\":\"ok\"" + ",\"data\":" + data + "}"
  }

  function ErrorFields(code: string, message: string): seq<Field> {
    [Field("code", Str(code)), Field("message", Str(message))]
  }

  function ErrorText(id: int, code: string, message: string): string {
    "{\"id\":" + IntText(id) + ",\"status\":\"error\"" + ",\"error\":" + Render(Obj(ErrorFields(code, message))) + "}"
  }

  function OkFields(id: Int64, data: Json): seq<Field> {
    [Field("id", Int(id)), Field("status", Str("ok")), Field("data", data)]
  }

  function FailFields(id: Int64, code: string, message: string): seq<Field> {
    [Field("id", Int(id)), Field("status", Str("error")), Field("error", Obj(ErrorFields(code, message)))]
  }

  lemma RenderThree(a: Field, b: Field, c: Field)
    ensures Render(Obj([a, b, c])) == "{" + RenderField(a) + "," + RenderField(b) + "," + RenderField(c) + "}"
  {
    hide RenderField;
    assert [a, b, c][1..] == [b, c];
    assert [b, c][1..] == [c];
    assert [c][1..] == [];
    assert RenderMoreFields([]) == "";
    assert RenderMoreFields([c]) == "," + RenderField(c);
    assert RenderMoreFields([b, c]) == "," + RenderField(b) + RenderMoreFields([c]);
  }

  lemma {:induction false} EscapePlain(s: string)
    requires forall i :: 0 <= i < |s| ==> s[i] != '"' && s[i] != '\\' && s[i] != '\n' && s[i] != '\t'
    ensures Escape(s) == s
  {
    if s != "" {
      EscapePlain(s[1..]);
      assert s == [s[0]] + s[1..];
    }
  }

  lemma QuotePlain(s: string)
    requires forall i :: 0 <= i < |s| ==> s[i] != '"' && s[i] != '\\' && s[i] != '\n' && s[i] != '\t'
    ensures Quote(s) == "\"" + s + "\""
  {
    EscapePlain(s);
  }

  lemma PlainFieldText(key: string, val: Json)
    requires forall i :: 0 <= i < |key| ==> key[i] != '"' && key[i] != '\\' && key[i] != '\n' && key[i] != '\t'
    ensures RenderField(Field(key, val)) == "\"" + key + "\":" + Render(val)
  {
    hide Quote, Render;
    QuotePlain(key);
    assert "\"" + key + "\"" + ":" == "\"" + key + "\":";
  }

  /** Glues the literal pieces of an envelope to the fields they spell. */
  lemma EnvelopeText(idText: string, status: string, key: string, body: string)
    ensures "{\"id\":" + idText + (",\"status\":\"" + status + "\"") + (",\"" + key + "\":") + body + "}"
         == "{" + ("\"" + "id" + "\":" + idText) + "," + ("\"" + "status" + "\":" + ("\"" + status + "\"")) + ","
              + ("\"" + key + "\":" + body) + "}"
  {
    assert "{\"id\":" == "{" + ("\"" + "id" + "\":");
    assert ",\"status\":\"" == "," + ("\"" + "status" + "\":" + "\"");
    assert ",\"" == "," + "\"";
  }

  /** An ok envelope around a printed document is itself a printed document. */
  lemma OkIsRendering(id: Int64, data: Json)
    ensures OkText(id, Render(data)) == Render(Obj(OkFields(id, data)))
  {
    hide Quote, IntText, RenderField, RenderFields;
    var f := OkFields(id, data);
    RenderThree(f[0], f[1], f[2]);
    QuotePlain("ok");
    PlainFieldText("id", Int(id));
    PlainFieldText("status", Str("ok"));
    PlainFieldText("data", data);
    EnvelopeText(IntText(id), "ok", "data", Render(data));
    assert ",\"status\":\"ok\"" == ",\"status\":\"" + "ok" + "\"";
    assert ",\"data\":" == ",\"" + "data" + "\":";
  }

  lemma ErrorIsRendering(id: Int64, code: string, message: string)
    ensures ErrorText(id, code, message) == Render(Obj(FailFields(id, code, message)))
  {
    hide Quote, IntText, RenderField, RenderFields, ErrorFields;
    var f := FailFields(id, code, message);
    RenderThree(f[0], f[1], f[2]);
    QuotePlain("error");
    PlainFieldText("id", Int(id));
    PlainFieldText("status", Str("error"));
    PlainFieldText("error", f[2].val);
    EnvelopeText(IntText(id), "error", "error", Render(f[2].val));
    assert ",\"status\":\"error\"" == ",\"status\":\"" + "error" + "\"";
    assert ",\"error\":" == ",\"" + "error" + "\":";
  }
}

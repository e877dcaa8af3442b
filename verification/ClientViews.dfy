/**
 What a client of the login-host proxy can read out of the response it gets: the worker's own
 members, with the process id and the job of the proxy in a status response.
 */
module ClientViews {
  import opened CText
  import opened JsonText
  import opened JsonRoundTrip
  import opened Protocol
  import opened StatusRewrite
  import opened Framing
  import opened ProxyProtocol

  // ------------------------------------------------------------------ one line

  lemma IntTextOneLine(i: int)
    ensures OneLine(IntText(i))
  {
    assert AllDigits(NatText(if i < 0 then -i else i));
  }

  lemma PidReplacedOneLine(response: string, pid: int)
    requires OneLine(response)
    ensures OneLine(PidReplaced(response, pid))
  {
    hide IntText, Find, DigitPrefix;
    IntTextOneLine(pid);
  }

  lemma StatusAddedOneLine(response: string, jobId: string, jobName: string)
    requires OneLine(response)
    ensures OneLine(StatusAdded(response, jobId, jobName))
  {
    hide Find, RenderFields, StatusFields;
    RenderFieldsOneLine(StatusFields(jobId, jobName));
  }

  /** Whatever a client asks and the worker answers, the client gets one line. */
  lemma EveryViewOneLine(u: Setup, request: string, r: Reply)
    ensures OneLine(ClientView(u, request, ReplyText(r)))
  {
    hide CommandOf, ReplyText, PidReplaced, StatusAdded, OneLine;
    ReplyFramed(r);
    FramedOneLine(ReplyText(r));
    PidReplacedOneLine(ReplyText(r), u.proxyPid);
    StatusAddedOneLine(PidReplaced(ReplyText(r), u.proxyPid), u.jobId, u.jobName);
  }

  lemma FramedOneLine(s: string)
    requires Framed(s)
    ensures OneLine(s)
  {
    hide Accepts;
  }

  // --------------------------------------------------------------- a status response

  /** The members of a status response around its process id. */
  function WithPid(before: seq<Field>, pid: Int64, after: seq<Field>): seq<Field> {
    before + [Field("pid", Int(pid))] + after
  }

  /** The members the client is shown: those of the job in front, and the proxy's process id. */
  function ShownFields(u: Setup, before: seq<Field>, after: seq<Field>): seq<Field> {
    StatusFields(u.jobId, u.jobName) + WithPid(before, u.proxyPid, after)
  }

  /** Together the two edits give the response with those members, as if the worker had printed it. */
  lemma StatusViewIsResponse(u: Setup, request: string, id: Int64, before: seq<Field>, was: Int64, after: seq<Field>)
    requires CommandOf(request) == "status" && was >= 0 && ScalarsBesides("pid", before)
    ensures ClientView(u, request, ReplyText(Done(id, WithPid(before, was, after)))) == StatusText(id, ShownFields(u, before, after))
  {
    hide CommandOf, OkText, Render, PidReplaced, StatusAdded, StatusFields;
    ReplacePidChangesOnlyPid(id, before, after, was, u.proxyPid);
    AddStatusFieldsOnlyAdds(id, WithPid(before, u.proxyPid, after), u.jobId, u.jobName);
  }

  /** The parser finds exactly these members in the text. */
  ghost predicate Recovers(text: string, fields: seq<Field>)
    requires AllReadable(fields)
  {
    && Accepts(text)
    && (forall k :: 0 <= k < |fields| ==> Holds(ReadObject(text).maps, fields[k]))
    && (forall key :: (forall k :: 0 <= k < |fields| ==> fields[k].key != key) ==> Absent(ReadObject(text).maps, key))
  }

  lemma ObjectRecovers(fields: seq<Field>)
    requires AllReadable(fields) && DistinctKeys(fields)
    ensures Recovers(Render(Obj(fields)), fields)
  {
    hide ReadObject, Render, Holds, Absent, AllReadable, DistinctKeys;
    AcceptedIffReadable(fields);
    forall k | 0 <= k < |fields| ensures Readable(fields[k]) && Holds(ReadObject(Render(Obj(fields))).maps, fields[k]) {
      EachReadable(fields, k);
      EveryMemberRecovered(fields, k);
    }
    forall key | forall k :: 0 <= k < |fields| ==> fields[k].key != key
      ensures Absent(ReadObject(Render(Obj(fields))).maps, key)
    {
      NoOtherKeyRecovered(fields, key);
    }
  }

  lemma EachReadable(fields: seq<Field>, k: nat)
    requires AllReadable(fields) && k < |fields|
    ensures Readable(fields[k])
  {
  }

  lemma EnvelopeDistinct(id: Int64, data: Json)
    requires data.Obj?
    ensures AllReadable(OkFields(id, data)) && DistinctKeys(OkFields(id, data))
  {
    var f := OkFields(id, data);
    assert |f[0].key| == 2 && |f[1].key| == 6 && |f[2].key| == 4;
  }

  /**
   From the response to a status request the client's parser recovers the envelope, and from
   its data exactly the members of the worker with the proxy's process id in place of the
   worker's, and the run mode and the job beside them.
   */
  lemma StatusViewRecovered(u: Setup, request: string, id: Int64, before: seq<Field>, was: Int64, after: seq<Field>)
    requires CommandOf(request) == "status" && was >= 0 && ScalarsBesides("pid", before)
    requires AllReadable(ShownFields(u, before, after)) && DistinctKeys(ShownFields(u, before, after))
    ensures
      var view := ClientView(u, request, ReplyText(Done(id, WithPid(before, was, after))));
      var data := Obj(ShownFields(u, before, after));
      && AllReadable(OkFields(id, data)) && Recovers(view, OkFields(id, data))
      && "data" in ReadObject(view).maps.strings
      && Recovers(ReadObject(view).maps.strings["data"], ShownFields(u, before, after))
  {
    hide CommandOf, ClientView, ReplyText, ShownFields, Render, ReadObject, Recovers, AllReadable, DistinctKeys, OkText;
    var data := Obj(ShownFields(u, before, after));
    var f := OkFields(id, data);
    StatusViewIsResponse(u, request, id, before, was, after);
    OkIsRendering(id, data);
    EnvelopeDistinct(id, data);
    ObjectRecovers(f);
    ObjectRecovers(ShownFields(u, before, after));
    EveryMemberRecovered(f, 2);
    assert f[2] == Field("data", data);
  }

  /** Any other response of the worker, and an error also to a status request, comes as it is. */
  lemma OtherViewsUnchanged(u: Setup, request: string, r: Reply)
    ensures CommandOf(request) != "status" || r.Failed? ==> ClientView(u, request, ReplyText(r)) == ReplyText(r)
  {
    hide CommandOf, PidReplaced, StatusAdded, OkText, ErrorText;
    if r.Failed? {
      ErrorResponseUnchanged(r.id, r.code, r.message, u.proxyPid, u.jobId, u.jobName);
    }
  }

  // ------------------------------------------------------------------ the literal members

  lemma StringFound(fields: seq<Field>, k: nat)
    requires AllReadable(fields) && DistinctKeys(fields) && k < |fields| && fields[k].val.Str?
    ensures GetString(ReadObject(Render(Obj(fields))).maps, fields[k].key, "") == fields[k].val.s
  {
    hide ReadObject, Render;
    EveryMemberRecovered(fields, k);
  }

  /** An answer carries its id, the status "ok" and the data. */
  lemma AnswerRecovered(id: Int64, fields: seq<Field>)
    ensures var m := ReadObject(ReplyText(Done(id, fields))).maps;
      && GetInt(m, "id", 0) == id && GetString(m, "status", "") == "ok"
      && GetString(m, "data", "") == Render(Obj(fields))
  {
    hide ReadObject, Render, OkText, AllReadable, DistinctKeys;
    var f := OkFields(id, Obj(fields));
    OkIsRendering(id, Obj(fields));
    EnvelopeDistinct(id, Obj(fields));
    EveryMemberRecovered(f, 0);
    StringFound(f, 1);
    EveryMemberRecovered(f, 2);
    assert f[0].key == "id" && f[1].key == "status" && f[2].key == "data";
  }

  lemma FailureDistinct(id: Int64, code: string, message: string)
    ensures AllReadable(FailFields(id, code, message)) && DistinctKeys(FailFields(id, code, message))
    ensures AllReadable(ErrorFields(code, message)) && DistinctKeys(ErrorFields(code, message))
  {
    var f, e := FailFields(id, code, message), ErrorFields(code, message);
    assert |f[0].key| == 2 && |f[1].key| == 6 && |f[2].key| == 5;
    assert |e[0].key| == 4 && |e[1].key| == 7;
  }

  /** A failure carries its id, the status "error", and an object with the code and the message. */
  lemma FailureRecovered(id: Int64, code: string, message: string)
    ensures var m := ReadObject(ReplyText(Failed(id, code, message))).maps;
      && GetInt(m, "id", 0) == id && GetString(m, "status", "") == "error"
      && var e := ReadObject(GetString(m, "error", "")).maps;
         GetString(e, "code", "") == code && GetString(e, "message", "") == message
  {
    hide ReadObject, Render, ErrorText, AllReadable, DistinctKeys;
    var f, e := FailFields(id, code, message), ErrorFields(code, message);
    ErrorIsRendering(id, code, message);
    FailureDistinct(id, code, message);
    EveryMemberRecovered(f, 0);
    StringFound(f, 1);
    EveryMemberRecovered(f, 2);
    StringFound(e, 0);
    StringFound(e, 1);
    assert f[0].key == "id" && f[1].key == "status" && f[2].key == "error" && f[2].val == Obj(e);
    assert e[0].key == "code" && e[1].key == "message";
  }

  /** What is added to a status response: the run mode, and the job where it is known. */
  lemma StatusFieldsAre(jobId: string, jobName: string)
    ensures var f := StatusFields(jobId, jobName);
      && f[0] == Field("run_mode", Str("lsf"))
      && (Field("job_id", Str(jobId)) in f <==> jobId != "") && (Field("job_name", Str(jobName)) in f <==> jobName != "")
      && |f| == 1 + (if jobId == "" then 0 else 1) + (if jobName == "" then 0 else 1)
  {
    assert |"run_mode"| == 8 && |"job_id"| == 6;
    assert "run_mode"[0] == 'r' && "job_name"[0] == 'j';
    var f := StatusFields(jobId, jobName);
    if jobId != "" {
      assert f[1] == Field("job_id", Str(jobId));
    }
    if jobName != "" {
      assert f[|f|-1] == Field("job_name", Str(jobName));
    }
  }

  /** The command of a request decides: two of them shut the server down, one gets the edited view. */
  lemma CommandsAre(u: Setup, fields: seq<Field>, k: nat, response: string)
    requires AllReadable(fields) && DistinctKeys(fields) && k < |fields| && fields[k].key == "cmd" && fields[k].val.Str?
    ensures var request, cmd := Render(Obj(fields)), fields[k].val.s;
      && (IsShutdown(request) <==> cmd == "shutdown" || cmd == "stdio.quit")
      && (cmd != "status" ==> ClientView(u, request, response) == response)
      && (cmd == "status" ==> ClientView(u, request, response) == StatusAdded(PidReplaced(response, u.proxyPid), u.jobId, u.jobName))
  {
    hide ReadObject, Render, AllReadable, DistinctKeys, StatusAdded, PidReplaced;
    EveryMemberRecovered(fields, k);
    StringFound(fields, k);
  }

  /** A request that is no object, or names no command, is neither. */
  lemma NoCommand(u: Setup, request: string, response: string)
    requires !Accepts(request) || Absent(ReadObject(request).maps, "cmd")
    ensures !IsShutdown(request) && ClientView(u, request, response) == response
  {
    hide ReadObject, StatusAdded, PidReplaced;
  }

  /** A message is the ready line exactly when its type and its protocol say so. */
  lemma ReadyLineIs(fields: seq<Field>, i: nat, j: nat)
    requires AllReadable(fields) && DistinctKeys(fields) && i < |fields| && j < |fields|
    requires fields[i].key == "type" && fields[i].val.Str? && fields[j].key == "protocol" && fields[j].val.Str?
    ensures IsReady(Render(Obj(fields))) <==> fields[i].val.s == "ready" && fields[j].val.s == "vwave-stdio-loop"
  {
    hide ReadObject, Render, AllReadable, DistinctKeys;
    EveryMemberRecovered(fields, i);
    StringFound(fields, i);
    StringFound(fields, j);
  }

  lemma ReadyDistinct(u: Setup)
    ensures AllReadable(ReadyFields(u)) && DistinctKeys(ReadyFields(u))
  {
    var f := ReadyFields(u);
    assert |f[0].key| == 4 && |f[1].key| == 8 && |f[2].key| == 7 && |f[3].key| == 3 && |f[4].key| == 7;
    assert f[2].key[0] == 'v' && f[4].key[0] == 'b';
  }

  /** The worker's own first line is the ready line, and carries its process id, the version and the backend. */
  lemma ReadyLineCarries(u: Setup)
    ensures IsReady(ReadyText(u))
    ensures var m := ReadObject(ReadyText(u)).maps;
      GetInt(m, "pid", 0) == u.workerPid && GetInt(m, "version", 0) == 1 && GetString(m, "backend", "") == u.backend
  {
    hide ReadObject, Render, AllReadable, DistinctKeys, IsReady;
    var f := ReadyFields(u);
    ReadyDistinct(u);
    ReadyLineIs(f, 0, 1);
    EveryMemberRecovered(f, 2);
    EveryMemberRecovered(f, 3);
    StringFound(f, 4);
    assert f[2].key == "version" && f[3].key == "pid" && f[4].key == "backend";
  }
}

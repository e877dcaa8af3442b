/**
 One line per message: every reply a worker can print is a single non-empty line, the parser
 takes it, and the parser takes no strict prefix of it.
 */
module Framing {
  import opened CText
  import opened JsonText
  import opened JsonRoundTrip
  import opened Protocol

  /** What the worker's dispatcher answers: an ok envelope around an object, or an error. */
  datatype Reply =
    | Done(id: Int64, fields: seq<Field>)
    | Failed(id: Int64, code: string, message: string)

  function ReplyText(r: Reply): string {
    match r
    case Done(id, fields) => OkText(id, Render(Obj(fields)))
    case Failed(id, code, message) => ErrorText(id, code, message)
  }

  predicate OneLine(s: string) {
    forall i :: 0 <= i < |s| ==> s[i] != '\n'
  }

  lemma {:induction false} EscapeOneLine(s: string)
    ensures OneLine(Escape(s))
  {
    if s != "" {
      EscapeOneLine(s[1..]);
      assert OneLine(EscapeChar(s[0]));
    }
  }

  /** A printed document never contains a line break, whatever its strings contain. */
  lemma {:induction false} RenderOneLine(j: Json)
    ensures OneLine(Render(j))
    decreases j, 1
  {
    match j
    case Str(s) => EscapeOneLine(s);
    case Int(i) => assert AllDigits(NatText(if i < 0 then -(i as int) else i as int));
    case Bool(_) =>
    case Arr(items) => RenderItemsOneLine(items);
    case Obj(fields) => RenderFieldsOneLine(fields);
  }

  lemma {:induction false} RenderItemsOneLine(items: seq<Json>)
    ensures OneLine(RenderItems(items)) && OneLine(RenderMoreItems(items))
    decreases items, 0
  {
    if items != [] {
      RenderOneLine(items[0]);
      RenderItemsOneLine(items[1..]);
    }
  }

  lemma {:induction false} RenderFieldsOneLine(fields: seq<Field>)
    ensures OneLine(RenderFields(fields)) && OneLine(RenderMoreFields(fields))
    decreases fields, 0
  {
    if fields != [] {
      EscapeOneLine(fields[0].key);
      RenderOneLine(fields[0].val);
      assert OneLine(RenderField(fields[0]));
      RenderFieldsOneLine(fields[1..]);
    }
  }

  /** A line that carries exactly one message. */
  predicate Framed(s: string) {
    s != "" && OneLine(s) && Accepts(s) && forall n :: 0 <= n < |s| ==> !Accepts(s[..n])
  }

  lemma PrintedObjectFramed(fields: seq<Field>)
    requires AllReadable(fields)
    ensures Framed(Render(Obj(fields)))
  {
    hide Render, Accepts, OneLine;
    var s := Render(Obj(fields));
    RenderOneLine(Obj(fields));
    AcceptedIffReadable(fields);
    RenderOpens(Obj(fields));
    forall n | 0 <= n < |s| ensures !Accepts(s[..n]) {
      PrintedObjectIsPrefixFree(fields, s[..n]);
    }
  }

  lemma ReplyFramed(r: Reply)
    ensures Framed(ReplyText(r))
  {
    hide Framed, Render, OkText, ErrorText;
    match r
    case Done(id, fields) =>
      OkIsRendering(id, Obj(fields));
      PrintedObjectFramed(OkFields(id, Obj(fields)));
    case Failed(id, code, message) =>
      ErrorIsRendering(id, code, message);
      PrintedObjectFramed(FailFields(id, code, message));
  }
}

/**
 The login-host proxy and its worker as a machine of single steps: bytes move through two
 pipes one system call at a time, the worker reads and answers lines, reads may time out in
 the middle of a line, either side may stop, and one client is served after the other.

 The main result is Safety: in every reachable state the k-th response handed to a client
 is the worker's answer to the k-th request. A reply that arrives late or in part makes
 the proxy stop; it never reaches a later client.
 */
module ProxyProtocol {
  import opened CText
  import opened JsonText
  import opened JsonRoundTrip
  import opened StatusRewrite
  import opened Framing

  const MAX_RESPONSE := 4 * 1024 * 1024

  // ----------------------------------------------------- reading a line, byte by byte

  /** What one poll of the response pipe brings: a byte, nothing before the timeout, a signal. */
  datatype Poll = Byte(c: char) | Quiet | Interrupted

  datatype Reading = More(partial: string) | Got(line: string) | TooLong

  function OnPoll(partial: string, poll: Poll): Reading {
    match poll
    case Interrupted => More(partial)
    case Quiet => Got(partial)
    case Byte(c) =>
      if c == '\n' then Got(partial)
      else if |partial| >= MAX_RESPONSE then TooLong
      else More(partial + [c])
  }

  /** What the proxy makes of a line it got while it waits for a response. */
  datatype Verdict = KeepWaiting | Abort | Deliver

  function Judge(line: string): Verdict {
    if line == "" then KeepWaiting else if Accepts(line) then Deliver else Abort
  }

  predicate IsReady(line: string) {
    Accepts(line)
    && GetString(ReadObject(line).maps, "type", "") == "ready"
    && GetString(ReadObject(line).maps, "protocol", "") == "vwave-stdio-loop"
  }

  function CommandOf(request: string): string {
    if Accepts(request) then GetString(ReadObject(request).maps, "cmd", "") else ""
  }

  predicate IsShutdown(request: string) {
    CommandOf(request) == "shutdown" || CommandOf(request) == "stdio.quit"
  }

  // -------------------------------------------------------------------- the machine

  /** How the worker answers, given all the lines it has read; and the fixed facts of a run. */
  datatype Setup = Setup(
    answer: seq<string> -> Reply,
    banner: string,       // what the job submission prints before the worker starts
    backend: string,
    workerPid: Int64,
    proxyPid: Int64,
    jobId: string,
    jobName: string)

  datatype Mode =
    | Starting(seen: string)                        // waiting for the ready line
    | Idle                                          // waiting for a client
    | Sending(request: string, unsent: string)      // writing the request line
    | Receiving(request: string, partial: string)   // reading the response line
    | Stopped

  datatype State = State(
    mode: Mode,
    running: bool,           // the proxy's g_running
    dispatched: seq<string>, // requests taken from clients
    delivered: seq<string>,  // responses sent to clients
    toWorker: string,        // bytes in the request pipe
    toProxy: string,         // bytes in the response pipe
    lineSoFar: string,       // the line the worker is reading
    heard: seq<string>,      // the lines the worker has read
    unwritten: string,       // output the worker still has to write
    listening: bool,         // the worker's g_running
    alive: bool)

  datatype Step =
    | Answers(poll: Poll)           // one poll of the response pipe
    | DeadlinePasses                // checked when read_line has returned nothing
    | ClientRequest(request: string)
    | Signal                        // SIGINT or SIGTERM to the proxy
    | Quit                          // the event loop ends: g_running is clear, or idle too long
    | WriteSome(n: nat)
    | WriteFails
    | WorkerReads
    | WorkerWrites(n: nat)
    | WorkerDies

  function ReadyText(u: Setup): string {
    Render(Obj(ReadyFields(u)))
  }

  function ReadyFields(u: Setup): seq<Field> {
    [Field("type", Str("ready")), Field("protocol", Str("vwave-stdio-loop")), Field("version", Int(1)),
     Field("pid", Int(u.workerPid)), Field("backend", Str(u.backend))]
  }

  function Initial(u: Setup): State {
    State(Starting(""), true, [], [], "", "", "", [], u.banner + ReadyText(u) + "\n", true, true)
  }

  /** What the proxy hands to the client for the worker's response. */
  function ClientView(u: Setup, request: string, response: string): string {
    if CommandOf(request) == "status" then StatusAdded(PidReplaced(response, u.proxyPid), u.jobId, u.jobName)
    else response
  }

  function AnswerTo(u: Setup, heard: seq<string>): string {
    ReplyText(u.answer(heard))
  }

  predicate Enabled(s: State, step: Step) {
    match step
    case Answers(poll) => (s.mode.Starting? || s.mode.Receiving?) && (poll.Byte? ==> s.toProxy != "" && s.toProxy[0] == poll.c)
    case DeadlinePasses => (s.mode.Starting? && s.mode.seen == "") || (s.mode.Receiving? && s.mode.partial == "")
    case ClientRequest(request) => s.mode.Idle? && s.running && request != "" && OneLine(request)
    case Signal => true
    case Quit => s.mode.Idle?
    case WriteSome(n) => s.mode.Sending? && n <= |s.mode.unsent|
    case WriteFails => s.mode.Sending?
    case WorkerReads => s.alive && s.listening && s.unwritten == "" && s.toWorker != ""
    case WorkerWrites(n) => s.alive && n <= |s.unwritten|
    case WorkerDies => s.alive
  }

  function WaitReady(s: State, r: Reading): State
    requires s.mode.Starting?
  {
    match r
    case More(seen) => s.(mode := Starting(seen))
    case Got(line) => if IsReady(line) then s.(mode := Idle, running := true) else s.(mode := Starting(""))
    case TooLong => s.(mode := Stopped)
  }

  function AwaitResponse(u: Setup, s: State, r: Reading): State
    requires s.mode.Receiving?
  {
    var request := s.mode.request;
    match r
    case More(partial) => s.(mode := Receiving(request, partial))
    case TooLong => s.(mode := Stopped)
    case Got(line) =>
      match Judge(line)
      case KeepWaiting => s.(mode := Receiving(request, ""))
      case Abort => s.(mode := Stopped)
      case Deliver =>
        s.(mode := Idle,
           delivered := s.delivered + [ClientView(u, request, line)],
           running := s.running && !IsShutdown(request))
  }

  function WorkerTakes(u: Setup, s: State): State
    requires s.toWorker != ""
  {
    var c := s.toWorker[0];
    var t := s.(toWorker := s.toWorker[1..]);
    if c != '\n' then t.(lineSoFar := s.lineSoFar + [c])
    else if s.lineSoFar == "" then t
    else
      var heard := s.heard + [s.lineSoFar];
      t.(lineSoFar := "", heard := heard, unwritten := s.unwritten + AnswerTo(u, heard) + "\n",
         listening := s.listening && !IsShutdown(s.lineSoFar))
  }

  function Apply(u: Setup, s: State, step: Step): State
    requires Enabled(s, step)
  {
    match step
    case Answers(poll) =>
      var t := if poll.Byte? then s.(toProxy := s.toProxy[1..]) else s;
      if s.mode.Starting? then WaitReady(t, OnPoll(s.mode.seen, poll))
      else AwaitResponse(u, t, OnPoll(s.mode.partial, poll))
    case DeadlinePasses => s.(mode := Stopped)
    case ClientRequest(request) => s.(mode := Sending(request, request + "\n"), dispatched := s.dispatched + [request])
    case Signal => s.(running := false)
    case Quit => s.(mode := Stopped)
    case WriteSome(n) =>
      var unsent := s.mode.unsent[n..];
      s.(toWorker := s.toWorker + s.mode.unsent[..n],
         mode := if unsent == "" then Receiving(s.mode.request, "") else Sending(s.mode.request, unsent))
    case WriteFails => s.(mode := Stopped)
    case WorkerReads => WorkerTakes(u, s)
    case WorkerWrites(n) => s.(toProxy := s.toProxy + s.unwritten[..n], unwritten := s.unwritten[n..])
    case WorkerDies => s.(alive := false)
  }

  /** The state after a run; steps that are not possible change nothing. */
  function Run(u: Setup, steps: seq<Step>): State {
    if steps == [] then Initial(u) else
    var s := Run(u, steps[..|steps|-1]);
    var step := steps[|steps|-1];
    if Enabled(s, step) then Apply(u, s, step) else s
  }

  // ------------------------------------------------------------------- the invariant

  /** Output of the worker that the proxy has not read yet. */
  function Pending(s: State): string {
    s.toProxy + s.unwritten
  }

  /** At most the line end of a reply that was already taken. */
  predicate Residue(pending: string) {
    pending == "" || pending == "\n"
  }

  predicate Paired(u: Setup, s: State) {
    |s.delivered| <= |s.dispatched|
    && forall k :: 0 <= k < |s.delivered| ==>
         s.delivered[k] == ClientView(u, s.dispatched[k], AnswerTo(u, s.dispatched[..k+1]))
  }

  predicate Requests(s: State) {
    forall k :: 0 <= k < |s.dispatched| ==> s.dispatched[k] != "" && OneLine(s.dispatched[k])
  }

  /** The environment: the submission banner is lines without an opening brace. */
  predicate Sane(u: Setup) {
    && (forall i :: 0 <= i < |u.banner| ==> u.banner[i] != '{')
    && (u.banner == "" || u.banner[|u.banner|-1] == '\n')
    && (u.backend == "npi" || u.backend == "ffr")
  }

  function Startup(u: Setup): string {
    u.banner + ReadyText(u) + "\n"
  }

  predicate StartingOk(u: Setup, s: State, seen: string) {
    var rest := seen + Pending(s);
    && s.dispatched == [] && s.delivered == [] && s.heard == [] && s.toWorker == "" && s.lineSoFar == ""
    && OneLine(seen)
    && |rest| <= |Startup(u)| && rest == Startup(u)[|Startup(u)| - |rest|..]
  }

  predicate IdleOk(s: State) {
    && |s.delivered| == |s.dispatched| && s.heard == s.dispatched
    && s.toWorker == "" && s.lineSoFar == "" && Residue(Pending(s))
  }

  /** One request is under way. */
  predicate Busy(s: State, request: string) {
    |s.delivered| + 1 == |s.dispatched| && s.dispatched[|s.dispatched|-1] == request
  }

  /** The worker has not read the whole request line; unsent is what the proxy still has to write. */
  predicate NotHeard(s: State, request: string, unsent: string) {
    && Busy(s, request)
    && s.heard == s.dispatched[..|s.dispatched|-1]
    && s.lineSoFar + s.toWorker + unsent == request + "\n"
    && Residue(Pending(s))
  }

  /** The worker has answered, and the proxy has read part of the answer. */
  predicate Heard(u: Setup, s: State, request: string, partial: string) {
    var reply := AnswerTo(u, s.dispatched) + "\n";
    && Busy(s, request)
    && s.heard == s.dispatched && s.lineSoFar == "" && s.toWorker == ""
    && OneLine(partial)
    && (partial + Pending(s) == reply || (partial == "" && Pending(s) == "\n" + reply))
  }

  predicate ModeOk(u: Setup, s: State) {
    match s.mode
    case Starting(seen) => StartingOk(u, s, seen)
    case Idle => IdleOk(s)
    case Sending(request, unsent) => unsent != "" && NotHeard(s, request, unsent)
    case Receiving(request, partial) =>
      (partial == "" && NotHeard(s, request, "")) || Heard(u, s, request, partial)
    case Stopped => true
  }

  predicate Inv(u: Setup, s: State) {
    Requests(s) && Paired(u, s) && ModeOk(u, s)
  }

  // --------------------------------------------------- the ready line is found in place

  lemma {:induction false} NoBraceInEscape(s: string)
    requires forall i :: 0 <= i < |s| ==> s[i] != '{'
    ensures forall i :: 0 <= i < |Escape(s)| ==> Escape(s)[i] != '{'
  {
    if s != "" {
      NoBraceInEscape(s[1..]);
      var head := EscapeChar(s[0]);
      assert forall i :: 0 <= i < |head| ==> head[i] != '{';
    }
  }

  lemma NoBraceInField(f: Field)
    requires forall i :: 0 <= i < |f.key| ==> f.key[i] != '{'
    requires f.val.Int? || (f.val.Str? && forall i :: 0 <= i < |f.val.s| ==> f.val.s[i] != '{')
    ensures forall i :: 0 <= i < |RenderField(f)| ==> RenderField(f)[i] != '{'
  {
    NoBraceInEscape(f.key);
    if f.val.Str? {
      NoBraceInEscape(f.val.s);
    } else {
      IntTextPlain(f.val.i);
    }
  }

  predicate BraceFree(s: string) {
    forall i :: 0 <= i < |s| ==> s[i] != '{'
  }

  lemma {:induction false} NoBraceInFields(fields: seq<Field>)
    requires forall k :: 0 <= k < |fields| ==> BraceFree(RenderField(fields[k]))
    ensures BraceFree(RenderFields(fields)) && BraceFree(RenderMoreFields(fields))
    decreases |fields|
  {
    hide RenderField;
    if fields != [] {
      NoBraceInFields(fields[1..]);
    }
  }

  lemma ReadyTextBraces(u: Setup)
    requires Sane(u)
    ensures ReadyText(u) != "" && ReadyText(u)[0] == '{' && BraceFree(ReadyText(u)[1..])
  {
    hide RenderFields, RenderField;
    var f := ReadyFields(u);
    forall k | 0 <= k < |f| ensures BraceFree(RenderField(f[k])) {
      ReadyFieldPlain(u, k);
      NoBraceInField(f[k]);
    }
    NoBraceInFields(f);
    ObjectText(f);
    assert ReadyText(u)[1..] == RenderFields(f) + "}";
  }

  lemma ReadyFieldPlain(u: Setup, k: nat)
    requires u.backend == "npi" || u.backend == "ffr"
    requires k < |ReadyFields(u)|
    ensures var f := ReadyFields(u)[k]; BraceFree(f.key) && (f.val.Int? || (f.val.Str? && BraceFree(f.val.s)))
  {
  }

  lemma AcceptedHasBrace(line: string)
    requires Accepts(line)
    ensures !BraceFree(line)
  {
    BraceBehindSpaces(line);
  }

  lemma {:induction false} BraceBehindSpaces(t: string)
    requires SkipSpaces(t) != "" && SkipSpaces(t)[0] == '{'
    ensures !BraceFree(t)
  {
    if IsSpace(t[0]) {
      var rest := t[1..];
      BraceBehindSpaces(rest);
      assert forall i :: 0 <= i < |rest| ==> rest[i] == t[i+1];
    }
  }

  lemma ReadyFramed(u: Setup)
    ensures Framed(ReadyText(u))
  {
    hide Framed;
    PrintedObjectFramed(ReadyFields(u));
  }

  /** The only line of the start-up stream the proxy can take for a message is the ready line. */
  lemma ReadyAligned(u: Setup, line: string, rest: string)
    requires Sane(u) && OneLine(line) && Accepts(line)
    requires var all := Startup(u); |line + rest| <= |all| && line + rest == all[|all| - |line + rest|..]
    ensures line == ReadyText(u) && rest == "\n"
  {
    hide Accepts, ReadyText;
    StartsAtReady(u, line, rest);
    ReadyFramed(u);
    assert Startup(u)[|u.banner|..] == ReadyText(u) + "\n";
    WholeLine(ReadyText(u), line, rest);
  }

  lemma StartsAtReady(u: Setup, line: string, rest: string)
    requires Sane(u) && OneLine(line) && Accepts(line)
    requires var all := Startup(u); |line + rest| <= |all| && line + rest == all[|all| - |line + rest|..]
    ensures |Startup(u)| - |line + rest| == |u.banner|
  {
    hide Accepts, ReadyText;
    AcceptedHasBrace(line);
    ReadyTextBraces(u);
    var all := Startup(u);
    var a := |all| - |line + rest|;
    StartupBraces(u.banner, ReadyText(u));
    assert forall k :: a <= k < a + |line| ==> all[k] == (line + rest)[k-a];
    OnlyBraceAt(all, |u.banner|, line, a);
  }

  lemma StartupBraces(banner: string, ready: string)
    requires BraceFree(banner) && ready != "" && BraceFree(ready[1..])
    ensures var all := banner + ready + "\n"; forall k :: 0 <= k < |all| && k != |banner| ==> all[k] != '{'
  {
    var all := banner + ready + "\n";
    forall k | 0 <= k < |all| && k != |banner| ensures all[k] != '{' {
      if |banner| < k < |all| - 1 {
        assert all[k] == ready[1..][k-|banner|-1];
      }
    }
  }

  /** A line with a brace, cut from a stream whose only brace starts a line, starts there. */
  lemma OnlyBraceAt(all: string, b: nat, line: string, a: nat)
    requires b < |all| && (b > 0 ==> all[b-1] == '\n')
    requires forall k :: 0 <= k < |all| && k != b ==> all[k] != '{'
    requires a + |line| <= |all| && forall k :: a <= k < a + |line| ==> all[k] == line[k-a]
    requires OneLine(line) && !BraceFree(line)
    ensures a == b
  {
    var j :| 0 <= j < |line| && line[j] == '{';
    assert all[a+j] == line[(a+j)-a] == '{';
  }

  /** A text the parser takes, cut off the front of a framed line, is the whole line. */
  lemma WholeLine(text: string, line: string, rest: string)
    requires Framed(text) && OneLine(line) && Accepts(line)
    requires line + rest == text + "\n"
    ensures line == text && rest == "\n"
  {
    hide Accepts;
    var all := text + "\n";
    assert (line + rest)[|text|] == '\n';
    assert line == (line + rest)[..|line|] == all[..|line|] == text[..|line|];
    assert rest == all[|text|..];
  }

  // --------------------------------------------------------------- every step keeps it

  lemma InitialInv(u: Setup)
    ensures Inv(u, Initial(u))
  {
    hide ReadyText;
    var s := Initial(u);
    assert "" + Pending(s) == Startup(u);
  }

  /** Reading from the pipe takes the first pending byte. */
  lemma PendingAfterByte(s: State, t: State, partial: string)
    requires s.toProxy != "" && t == s.(toProxy := s.toProxy[1..])
    ensures Pending(s) == [s.toProxy[0]] + Pending(t)
    ensures partial + Pending(s) == partial + [s.toProxy[0]] + Pending(t)
  {
    assert s.toProxy == [s.toProxy[0]] + s.toProxy[1..];
  }

  lemma StartingKeeps(u: Setup, s: State, poll: Poll)
    requires Sane(u) && Inv(u, s) && s.mode.Starting? && Enabled(s, Answers(poll))
    ensures Inv(u, Apply(u, s, Answers(poll)))
  {
    hide IsReady, Accepts, ReadyText, AnswerTo, ClientView;
    var seen := s.mode.seen;
    match poll
    case Interrupted =>
    case Quiet => StartingGot(u, s, Pending(s));
    case Byte(c) =>
      var t := s.(toProxy := s.toProxy[1..]);
      PendingAfterByte(s, t, seen);
      if c == '\n' {
        assert seen + ['\n'] + Pending(t) == seen + ("\n" + Pending(t));
        StartingGot(u, t, "\n" + Pending(t));
      }
  }

  /** The proxy got a line of the start-up stream; rest is what followed the line. */
  lemma StartingGot(u: Setup, t: State, rest: string)
    requires Sane(u) && t.mode.Starting?
    requires t.dispatched == [] && t.delivered == [] && t.heard == [] && t.toWorker == "" && t.lineSoFar == ""
    requires OneLine(t.mode.seen)
    requires rest == Pending(t) || rest == "\n" + Pending(t)
    requires var all := t.mode.seen + rest; |all| <= |Startup(u)| && all == Startup(u)[|Startup(u)| - |all|..]
    ensures Inv(u, WaitReady(t, Got(t.mode.seen)))
  {
    hide IsReady, Accepts, AnswerTo, ClientView, Startup, Sane, Residue, OneLine;
    if IsReady(t.mode.seen) {
      ReadyIsAccepted(t.mode.seen);
      ReadyAligned(u, t.mode.seen, rest);
      LineEndLeft(rest, Pending(t));
      assert Pending(WaitReady(t, Got(t.mode.seen))) == Pending(t);
    } else {
      StreamBehindLine(Startup(u), t.mode.seen, rest, Pending(t));
      StillStarting(u, t);
    }
  }

  lemma StillStarting(u: Setup, t: State)
    requires t.mode.Starting?
    requires t.dispatched == [] && t.delivered == [] && t.heard == [] && t.toWorker == "" && t.lineSoFar == ""
    requires var rest := Pending(t); |rest| <= |Startup(u)| && rest == Startup(u)[|Startup(u)| - |rest|..]
    ensures Inv(u, t.(mode := Starting("")))
  {
    hide Startup, AnswerTo, ClientView;
    var next := t.(mode := Starting(""));
    assert Pending(next) == Pending(t);
    assert "" + Pending(next) == Pending(next);
  }

  lemma LineEndLeft(rest: string, pending: string)
    requires rest == "\n" && (rest == pending || rest == "\n" + pending)
    ensures Residue(pending)
  {
    if rest == "\n" + pending {
      assert |pending| == 0;
    }
  }

  lemma StreamBehindLine(all: string, seen: string, rest: string, pending: string)
    requires rest == pending || rest == "\n" + pending
    requires |seen + rest| <= |all| && seen + rest == all[|all| - |seen + rest|..]
    ensures "" + pending == pending && |pending| <= |all| && pending == all[|all| - |pending|..]
  {
    assert pending == (seen + rest)[|seen + rest| - |pending|..];
    SuffixOfSuffix(all, seen + rest, pending);
  }

  lemma ReadyIsAccepted(line: string)
    ensures IsReady(line) ==> Accepts(line)
  {
  }

  lemma SuffixOfSuffix(all: string, s: string, t: string)
    requires |s| <= |all| && s == all[|all|-|s|..]
    requires |t| <= |s| && t == s[|s|-|t|..]
    ensures |t| <= |all| && t == all[|all|-|t|..]
  {
  }

  lemma ReplyIsFramed(u: Setup, heard: seq<string>)
    ensures Framed(AnswerTo(u, heard))
  {
    ReplyFramed(u.answer(heard));
  }

  lemma ReceivingKeeps(u: Setup, s: State, poll: Poll)
    requires Inv(u, s) && s.mode.Receiving? && Enabled(s, Answers(poll))
    ensures Inv(u, Apply(u, s, Answers(poll)))
  {
    hide Accepts, AnswerTo, ClientView;
    var request, partial := s.mode.request, s.mode.partial;
    var heard := Heard(u, s, request, partial);
    if heard { ReplyIsFramed(u, s.dispatched); }
    match poll
    case Interrupted =>
    case Quiet => if heard && partial != "" { ReceivingGot(u, s, Pending(s)); }
    case Byte(c) =>
      var t := s.(toProxy := s.toProxy[1..]);
      PendingAfterByte(s, t, partial);
      if heard && c == '\n' && partial != "" {
        assert partial + ['\n'] + Pending(t) == partial + ("\n" + Pending(t));
        ReceivingGot(u, t, "\n" + Pending(t));
      } else if partial == "" {
        if heard { FirstByte(u, s, t); } else { ResidueRead(u, s, t); }
      }
  }

  /** A line end left from the reply before is skipped. */
  lemma ResidueRead(u: Setup, s: State, t: State)
    requires Inv(u, s) && s.mode.Receiving? && s.mode.partial == ""
    requires s.toProxy != "" && t == s.(toProxy := s.toProxy[1..]) && Pending(s) == [s.toProxy[0]] + Pending(t)
    requires !Heard(u, s, s.mode.request, "")
    ensures Inv(u, AwaitResponse(u, t, OnPoll("", Byte(s.toProxy[0]))))
  {
    hide Accepts, AnswerTo, ClientView, IsShutdown;
    assert Pending(s)[0] == s.toProxy[0];
    assert Pending(t) == "";
  }

  /** The first byte of the reply, or of the line end before it. */
  lemma FirstByte(u: Setup, s: State, t: State)
    requires Inv(u, s) && s.mode.Receiving? && s.mode.partial == ""
    requires s.toProxy != "" && t == s.(toProxy := s.toProxy[1..]) && Pending(s) == [s.toProxy[0]] + Pending(t)
    requires Heard(u, s, s.mode.request, "")
    ensures Inv(u, AwaitResponse(u, t, OnPoll("", Byte(s.toProxy[0]))))
  {
    hide Accepts, AnswerTo, ClientView, IsShutdown, OneLine;
    var c, reply := s.toProxy[0], AnswerTo(u, s.dispatched) + "\n";
    ReplyIsFramed(u, s.dispatched);
    FirstPending(Pending(s), c, Pending(t), AnswerTo(u, s.dispatched));
    OneByte(c);
    var next := AwaitResponse(u, t, OnPoll("", Byte(c)));
    assert Pending(next) == Pending(t);
    assert Heard(u, next, s.mode.request, if c == '\n' then "" else [c]);
  }

  lemma OneByte(c: char)
    ensures OneLine("") && (c != '\n' ==> OneLine([c]) && "" + [c] == [c])
  {
  }

  /** What is pending behind its first byte, when it is a reply or a line end and a reply. */
  lemma FirstPending(pending: string, c: char, rest: string, answer: string)
    requires pending == [c] + rest && Framed(answer)
    requires "" + pending == answer + "\n" || pending == "\n" + (answer + "\n")
    ensures c == '\n' ==> "" + rest == answer + "\n"
    ensures c != '\n' ==> [c] + rest == answer + "\n"
  {
    hide Accepts;
    assert "" + pending == pending && "" + rest == rest;
    if "" + pending == answer + "\n" {
      assert pending[0] == answer[0];
    } else {
      assert rest == pending[1..] == answer + "\n";
    }
  }

  /** The proxy got part of the reply as a line; rest is what followed it. */
  lemma ReceivingGot(u: Setup, t: State, rest: string)
    requires Requests(t) && Paired(u, t) && t.mode.Receiving?
    requires Busy(t, t.mode.request) && t.heard == t.dispatched && t.lineSoFar == "" && t.toWorker == ""
    requires t.mode.partial != "" && OneLine(t.mode.partial)
    requires rest == Pending(t) || rest == "\n" + Pending(t)
    requires t.mode.partial + rest == AnswerTo(u, t.dispatched) + "\n"
    ensures Inv(u, AwaitResponse(u, t, Got(t.mode.partial)))
  {
    hide Accepts, AnswerTo, ClientView, IsShutdown, Residue;
    if Judge(t.mode.partial).Deliver? {
      ReplyIsFramed(u, t.dispatched);
      WholeLine(AnswerTo(u, t.dispatched), t.mode.partial, rest);
      LineEndLeft(rest, Pending(t));
      assert t.dispatched[..|t.dispatched|] == t.dispatched;
    }
  }

  /** The worker's next byte either continues the request line or ends it. */
  lemma NextRequestByte(line: string, pipe: string, unsent: string, request: string)
    requires line + pipe + unsent == request + "\n" && OneLine(request) && pipe != ""
    ensures pipe[0] == '\n' ==> line == request && pipe == "\n" && unsent == ""
    ensures pipe[0] != '\n' ==> line + [pipe[0]] + pipe[1..] + unsent == request + "\n"
  {
    var all := request + "\n";
    assert all[|line|] == (line + pipe + unsent)[|line|] == pipe[0];
    assert |line| < |request| ==> all[|line|] == request[|line|];
    if pipe[0] == '\n' {
      assert line == all[..|line|] == request;
      assert |pipe| == 1;
    } else {
      assert pipe == [pipe[0]] + pipe[1..];
      assert line + [pipe[0]] + pipe[1..] + unsent == line + pipe + unsent;
    }
  }

  lemma WorkerReadsKeeps(u: Setup, s: State)
    requires Inv(u, s) && Enabled(s, WorkerReads)
    ensures Inv(u, Apply(u, s, WorkerReads))
  {
    hide Accepts, AnswerTo, ClientView, IsShutdown, ReadyText;
    match s.mode
    case Starting(_) =>
    case Idle =>
    case Stopped =>
    case Sending(request, unsent) =>
      NextRequestByte(s.lineSoFar, s.toWorker, unsent, request);
      assert Pending(WorkerTakes(u, s)) == Pending(s);
    case Receiving(request, partial) => WorkerEndsLine(u, s);
  }

  lemma WorkerEndsLine(u: Setup, s: State)
    requires Inv(u, s) && Enabled(s, WorkerReads) && s.mode.Receiving?
    ensures Inv(u, WorkerTakes(u, s))
  {
    hide Accepts, AnswerTo, ClientView, IsShutdown, Heard, Residue;
    NotHeardYet(u, s);
    var t := WorkerTakes(u, s);
    var request := s.mode.request;
    NextRequestByte(s.lineSoFar, s.toWorker, "", request);
    if s.toWorker[0] == '\n' {
      AnswerAppears(u, s, t, request);
    } else {
      assert Pending(t) == Pending(s);
    }
  }

  /** There is something to read in the request pipe, so the request has not been heard. */
  lemma NotHeardYet(u: Setup, s: State)
    requires Inv(u, s) && Enabled(s, WorkerReads) && s.mode.Receiving?
    ensures NotHeard(s, s.mode.request, "") && s.mode.partial == ""
  {
    hide Accepts, AnswerTo, ClientView, IsShutdown, Paired, Requests;
  }

  lemma AnswerAppears(u: Setup, s: State, t: State, request: string)
    requires NotHeard(s, request, "")
    requires t.dispatched == s.dispatched && t.delivered == s.delivered && t.heard == s.heard + [request]
    requires t.lineSoFar == "" && t.toWorker == "" && t.toProxy == s.toProxy
    requires t.unwritten == s.unwritten + AnswerTo(u, t.heard) + "\n"
    ensures Heard(u, t, request, "")
  {
    hide AnswerTo;
    assert s.dispatched == s.dispatched[..|s.dispatched|-1] + [request];
    var reply := AnswerTo(u, s.dispatched) + "\n";
    assert Pending(t) == Pending(s) + reply;
    assert "" + Pending(t) == Pending(t);
    assert "" + reply == reply;
  }

  lemma WritingKeeps(u: Setup, s: State, n: nat)
    requires Inv(u, s) && Enabled(s, WriteSome(n))
    ensures Inv(u, Apply(u, s, WriteSome(n)))
  {
    hide Accepts, AnswerTo, ClientView;
    var unsent := s.mode.unsent;
    assert unsent == unsent[..n] + unsent[n..];
    assert s.lineSoFar + (s.toWorker + unsent[..n]) + unsent[n..] == s.lineSoFar + s.toWorker + unsent;
  }

  /** The flags, and how far pending output has come, play no part in the invariant. */
  lemma SamePendingKeeps(u: Setup, s: State, t: State)
    requires Inv(u, s) && Pending(t) == Pending(s)
    requires t == s.(running := t.running, alive := t.alive, toProxy := t.toProxy, unwritten := t.unwritten)
    ensures Inv(u, t)
  {
    hide AnswerTo, ClientView, OneLine, Startup, Residue, Pending;
  }

  lemma WorkerWritesKeeps(u: Setup, s: State, n: nat)
    requires Inv(u, s) && Enabled(s, WorkerWrites(n))
    ensures Inv(u, Apply(u, s, WorkerWrites(n)))
  {
    hide Inv;
    assert s.unwritten == s.unwritten[..n] + s.unwritten[n..];
    assert Pending(Apply(u, s, WorkerWrites(n))) == Pending(s);
    SamePendingKeeps(u, s, Apply(u, s, WorkerWrites(n)));
  }

  lemma ClientRequestKeeps(u: Setup, s: State, request: string)
    requires Inv(u, s) && Enabled(s, ClientRequest(request))
    ensures Inv(u, Apply(u, s, ClientRequest(request)))
  {
    hide Accepts, AnswerTo, ClientView;
    var t := Apply(u, s, ClientRequest(request));
    assert "" + "" + (request + "\n") == request + "\n";
    assert t.dispatched[..|t.dispatched|-1] == s.dispatched;
    forall k | 0 <= k < |s.delivered|
      ensures t.delivered[k] == ClientView(u, t.dispatched[k], AnswerTo(u, t.dispatched[..k+1]))
    {
      assert t.dispatched[..k+1] == s.dispatched[..k+1];
    }
  }

  lemma StoppingKeeps(u: Setup, s: State)
    requires Inv(u, s)
    ensures Inv(u, s.(mode := Stopped))
  {
    hide AnswerTo, ClientView, StartingOk, IdleOk, NotHeard, Heard;
  }

  lemma StepKeepsInv(u: Setup, s: State, step: Step)
    requires Sane(u) && Inv(u, s) && Enabled(s, step)
    ensures Inv(u, Apply(u, s, step))
  {
    hide Inv, Sane, WaitReady, AwaitResponse, WorkerTakes;
    match step
    case Answers(poll) => if s.mode.Starting? { StartingKeeps(u, s, poll); } else { ReceivingKeeps(u, s, poll); }
    case ClientRequest(request) => ClientRequestKeeps(u, s, request);
    case WriteSome(n) => WritingKeeps(u, s, n);
    case WorkerReads => WorkerReadsKeeps(u, s);
    case WorkerWrites(n) => WorkerWritesKeeps(u, s, n);
    case DeadlinePasses => StoppingKeeps(u, s);
    case Signal => SamePendingKeeps(u, s, s.(running := false));
    case Quit => StoppingKeeps(u, s);
    case WriteFails => StoppingKeeps(u, s);
    case WorkerDies => SamePendingKeeps(u, s, s.(alive := false));
  }

  lemma {:induction false} RunInv(u: Setup, steps: seq<Step>)
    requires Sane(u)
    ensures Inv(u, Run(u, steps))
    decreases |steps|
  {
    hide Inv, Apply, Enabled, Initial;
    if steps == [] {
      InitialInv(u);
    } else {
      var front := steps[..|steps|-1];
      RunInv(u, front);
      if Enabled(Run(u, front), steps[|steps|-1]) {
        StepKeepsInv(u, Run(u, front), steps[|steps|-1]);
      }
    }
  }

  /**
   Safety: after any run, under any chunking, timeouts, signals and failures, the k-th
   response delivered is the worker's answer to the k-th request dispatched, at most one
   request is unanswered, and whenever the proxy is ready for another client every request
   so far has been answered and nothing of an old reply is left but its line end.
   */
  lemma Safety(u: Setup, steps: seq<Step>)
    requires Sane(u)
    ensures var s := Run(u, steps);
      && |s.delivered| <= |s.dispatched|
      && (forall k :: 0 <= k < |s.delivered| ==>
            s.delivered[k] == ClientView(u, s.dispatched[k], ReplyText(u.answer(s.dispatched[..k+1]))))
      && (s.mode.Idle? ==> |s.delivered| == |s.dispatched| && s.heard == s.dispatched && Residue(s.toProxy + s.unwritten))
      && (s.mode.Sending? || s.mode.Receiving? ==> |s.delivered| + 1 == |s.dispatched|)
  {
    hide Run, ClientView, ReplyText;
    RunInv(u, steps);
  }
}

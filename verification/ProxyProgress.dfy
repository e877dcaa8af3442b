/**
 The machine of module ProxyProtocol does not keep its promise by getting stuck: from every
 reachable state in which the proxy waits for a client, and for every request, some run
 completes the exchange; and the start-up always can complete.
 */
module ProxyProgress {
  import opened JsonText
  import opened JsonRoundTrip
  import opened Framing
  import opened ProxyProtocol

  /** A run that starts in any state. */
  function RunFrom(u: Setup, s: State, steps: seq<Step>): State
    decreases |steps|
  {
    if steps == [] then s else RunFrom(u, if Enabled(s, steps[0]) then Apply(u, s, steps[0]) else s, steps[1..])
  }

  lemma {:induction false} RunFromConcat(u: Setup, s: State, a: seq<Step>, b: seq<Step>)
    ensures RunFrom(u, s, a + b) == RunFrom(u, RunFrom(u, s, a), b)
    decreases |a|
  {
    hide Apply, Enabled;
    if a == [] {
      assert a + b == b;
    } else {
      assert (a + b)[1..] == a[1..] + b;
      RunFromConcat(u, if Enabled(s, a[0]) then Apply(u, s, a[0]) else s, a[1..], b);
    }
  }

  lemma OneStep(u: Setup, s: State, step: Step)
    requires Enabled(s, step)
    ensures RunFrom(u, s, [step]) == Apply(u, s, step)
  {
    hide Apply, Enabled;
    assert [step][1..] == [];
  }

  /** Runs put together from the initial state are runs. */
  lemma {:induction false} RunContinues(u: Setup, before: seq<Step>, steps: seq<Step>)
    ensures RunFrom(u, Run(u, before), steps) == Run(u, before + steps)
    decreases |steps|
  {
    hide Apply, Enabled, Initial;
    if steps == [] {
      assert before + steps == before;
    } else {
      var more := before + [steps[0]];
      assert more[..|before|] == before;
      assert before + steps == more + steps[1..];
      RunContinues(u, more, steps[1..]);
    }
  }

  // --------------------------------------------------------------- a line goes through

  /** The worker reads the request line off the pipe and has its answer ready. */
  lemma {:induction false} WorkerHears(u: Setup, s: State, request: string) returns (steps: seq<Step>)
    requires s.alive && s.listening && s.unwritten == "" && s.toWorker != ""
    requires s.lineSoFar + s.toWorker == request + "\n" && request != "" && OneLine(request)
    ensures
      var heard := s.heard + [request];
      RunFrom(u, s, steps) == s.(toWorker := "", lineSoFar := "", heard := heard,
        unwritten := AnswerTo(u, heard) + "\n", listening := !IsShutdown(request))
    decreases |s.toWorker|
  {
    hide AnswerTo, IsShutdown, RunFrom;
    var t := Apply(u, s, WorkerReads);
    assert s.lineSoFar + s.toWorker + "" == s.lineSoFar + s.toWorker;
    NextRequestByte(s.lineSoFar, s.toWorker, "", request);
    OneStep(u, s, WorkerReads);
    if s.toWorker[0] == '\n' {
      steps := [WorkerReads];
      assert "" + AnswerTo(u, s.heard + [request]) + "\n" == AnswerTo(u, s.heard + [request]) + "\n";
    } else {
      assert t.lineSoFar + t.toWorker + "" == t.lineSoFar + t.toWorker;
      assert (s.lineSoFar + s.toWorker)[|request|] == '\n';
      var more := WorkerHears(u, t, request);
      steps := [WorkerReads] + more;
      RunFromConcat(u, s, [WorkerReads], more);
    }
  }

  /** What the proxy does when it has the whole line. */
  function WithLine(u: Setup, s: State, line: string): State
    requires s.mode.Starting? || s.mode.Receiving?
  {
    if s.mode.Starting? then WaitReady(s, Got(line)) else AwaitResponse(u, s, Got(line))
  }

  function PartOf(mode: Mode): string
    requires mode.Starting? || mode.Receiving?
  {
    if mode.Starting? then mode.seen else mode.partial
  }

  /** The proxy reads one line off the pipe. */
  lemma {:induction false} ProxyHears(u: Setup, s: State, line: string, rest: string) returns (steps: seq<Step>)
    requires (s.mode.Starting? || s.mode.Receiving?) && OneLine(line) && |line| <= MAX_RESPONSE
    requires PartOf(s.mode) + s.toProxy == line + "\n" + rest && |PartOf(s.mode)| <= |line|
    ensures RunFrom(u, s, steps) == WithLine(u, s.(toProxy := rest), line)
    decreases |s.toProxy|
  {
    hide IsReady, Judge, ClientView, IsShutdown, RunFrom;
    var part, c := PartOf(s.mode), s.toProxy[0];
    var step := Answers(Byte(c));
    NextByteOfLine(part, s.toProxy, line, rest);
    OneStep(u, s, step);
    if |part| == |line| {
      steps := [step];
    } else {
      var more := ProxyHears(u, Apply(u, s, step), line, rest);
      steps := [step] + more;
      RunFromConcat(u, s, [step], more);
    }
  }

  lemma NextByteOfLine(part: string, pipe: string, line: string, rest: string)
    requires part + pipe == line + "\n" + rest && |part| <= |line| && OneLine(line)
    ensures pipe != "" && pipe == [pipe[0]] + pipe[1..]
    ensures |part| == |line| ==> part == line && pipe[0] == '\n' && pipe[1..] == rest
    ensures |part| < |line| ==> pipe[0] != '\n' && part + [pipe[0]] + pipe[1..] == line + "\n" + rest
  {
    var all := line + "\n" + rest;
    assert |all| == |part| + |pipe|;
    assert all[|part|] == (part + pipe)[|part|] == pipe[0];
    assert pipe == [pipe[0]] + pipe[1..];
    assert part + [pipe[0]] + pipe[1..] == part + pipe;
    if |part| == |line| {
      assert part == (part + pipe)[..|line|] == all[..|line|] == line;
      assert pipe[1..] == (part + pipe)[|line|+1..] == all[|line|+1..] == rest;
    } else {
      assert all[|part|] == line[|part|];
    }
  }

  // ------------------------------------------------------------------ one exchange

  /** The client's request is in the request pipe. */
  function Sent(s: State, request: string): State {
    s.(mode := Receiving(request, ""), dispatched := s.dispatched + [request], toWorker := request + "\n")
  }

  lemma RequestIsSent(u: Setup, s: State, request: string) returns (steps: seq<Step>)
    requires s.mode.Idle? && s.running && s.toWorker == "" && request != "" && OneLine(request)
    ensures RunFrom(u, s, steps) == Sent(s, request)
  {
    hide RunFrom;
    var t := Apply(u, s, ClientRequest(request));
    var write := WriteSome(|request| + 1);
    OneStep(u, s, ClientRequest(request));
    OneStep(u, t, write);
    assert t.mode.unsent[..|request|+1] == request + "\n" && t.mode.unsent[|request|+1..] == "";
    assert "" + (request + "\n") == request + "\n";
    steps := [ClientRequest(request)] + [write];
    RunFromConcat(u, s, [ClientRequest(request)], [write]);
  }

  /** What is left of the reply before is out of the way. */
  lemma ResidueIsSkipped(u: Setup, s: State) returns (steps: seq<Step>)
    requires s.mode.Receiving? && s.mode.partial == "" && s.alive && Residue(Pending(s))
    ensures RunFrom(u, s, steps) == s.(toProxy := "", unwritten := "")
  {
    hide RunFrom, ClientView, IsShutdown;
    var write := WorkerWrites(|s.unwritten|);
    var t := Apply(u, s, write);
    OneStep(u, s, write);
    assert s.unwritten[..|s.unwritten|] == s.unwritten && s.unwritten[|s.unwritten|..] == "";
    steps := [write];
    if t.toProxy != "" {
      var skip := ProxyHears(u, t, "", "");
      steps := [write] + skip;
      RunFromConcat(u, s, [write], skip);
    }
  }

  /** The answer is written and read. */
  lemma AnswerArrives(u: Setup, s: State) returns (steps: seq<Step>)
    requires s.mode.Receiving? && s.mode.partial == "" && s.alive && s.toProxy == ""
    requires s.unwritten == AnswerTo(u, s.dispatched) + "\n" && |AnswerTo(u, s.dispatched)| <= MAX_RESPONSE
    ensures
      var t := RunFrom(u, s, steps);
      && t.mode.Idle? && t.dispatched == s.dispatched
      && t.delivered == s.delivered + [ClientView(u, s.mode.request, AnswerTo(u, s.dispatched))]
      && t.alive && t.listening == s.listening && t.running == (s.running && !IsShutdown(s.mode.request))
  {
    hide RunFrom, ClientView, IsShutdown, AnswerTo, Accepts;
    var reply := AnswerTo(u, s.dispatched);
    var write := WorkerWrites(|s.unwritten|);
    var t := Apply(u, s, write);
    OneStep(u, s, write);
    assert s.unwritten[..|s.unwritten|] == s.unwritten && s.unwritten[|s.unwritten|..] == "";
    assert "" + t.toProxy == reply + "\n" + "";
    ReplyIsFramed(u, s.dispatched);
    var read := ProxyHears(u, t, reply, "");
    steps := [write] + read;
    RunFromConcat(u, s, [write], read);
  }

  /**
   Whenever the proxy waits for a client and the worker is there, any request can be served:
   some run hands this client the worker's answer and leaves the proxy ready for the next.
   */
  lemma ExchangeCompletes(u: Setup, s: State, request: string) returns (steps: seq<Step>)
    requires Sane(u) && Inv(u, s) && s.mode.Idle? && s.running && s.alive && s.listening
    requires request != "" && OneLine(request) && |AnswerTo(u, s.dispatched + [request])| <= MAX_RESPONSE
    ensures
      var t := RunFrom(u, s, steps);
      && t.mode.Idle? && t.dispatched == s.dispatched + [request]
      && t.delivered == s.delivered + [ClientView(u, request, AnswerTo(u, t.dispatched))]
      && t.alive && t.listening == t.running == !IsShutdown(request)
  {
    hide RunFrom, ClientView, IsShutdown, AnswerTo, Sane;
    var a := RequestIsSent(u, s, request);
    var s1 := Sent(s, request);
    var b := ResidueIsSkipped(u, s1);
    var s2 := s1.(toProxy := "", unwritten := "");
    assert s2.lineSoFar + s2.toWorker == request + "\n";
    var c := WorkerHears(u, s2, request);
    var s3 := RunFrom(u, s2, c);
    var d := AnswerArrives(u, s3);
    RunFromConcat(u, s, a, b);
    RunFromConcat(u, s, a + b, c);
    RunFromConcat(u, s, a + b + c, d);
    steps := a + b + c + d;
  }

  // ------------------------------------------------------------------------ start-up

  lemma ReadyIsReady(u: Setup)
    ensures IsReady(ReadyText(u))
  {
    hide ReadObject, Render, AllReadable, DistinctKeys;
    var f := ReadyFields(u);
    ReadyKeys(u);
    EveryMemberRecovered(f, 0);
    EveryMemberRecovered(f, 1);
  }

  lemma ReadyKeys(u: Setup)
    ensures AllReadable(ReadyFields(u)) && DistinctKeys(ReadyFields(u))
  {
    var f := ReadyFields(u);
    assert |f[0].key| == 4 && |f[1].key| == 8 && |f[2].key| == 7 && |f[3].key| == 3 && |f[4].key| == 7;
    assert f[2].key[0] == 'v' && f[4].key[0] == 'b';
  }

  predicate ShortLines(text: string) {
    |text| <= MAX_RESPONSE
  }

  /** The submission's lines are skipped one after the other. */
  lemma {:induction false} BannerIsSkipped(u: Setup, s: State, banner: string, rest: string) returns (steps: seq<Step>)
    requires s.mode == Starting("") && s.toProxy == banner + rest && BraceFree(banner)
    requires (banner == "" || banner[|banner|-1] == '\n') && ShortLines(banner)
    ensures RunFrom(u, s, steps) == s.(toProxy := rest)
    decreases |banner|
  {
    hide IsReady, RunFrom;
    if banner == "" {
      steps := [];
      NoSteps(u, s);
      assert "" + rest == rest;
    } else {
      var n := 0;
      while banner[n] != '\n'
        invariant n < |banner| && OneLine(banner[..n])
        decreases |banner| - n
      {
        n := n + 1;
      }
      var line, more := banner[..n], banner[n+1..];
      assert banner == line + "\n" + more;
      assert "" + s.toProxy == line + "\n" + (more + rest);
      NotReadyLine(line);
      var read := ProxyHears(u, s, line, more + rest);
      var t := s.(toProxy := more + rest);
      assert more != "" ==> more[|more|-1] == banner[|banner|-1];
      var skip := BannerIsSkipped(u, t, more, rest);
      steps := read + skip;
      RunFromConcat(u, s, read, skip);
    }
  }

  lemma NoSteps(u: Setup, s: State)
    ensures RunFrom(u, s, []) == s
  {
  }

  lemma NotReadyLine(line: string)
    requires BraceFree(line)
    ensures !IsReady(line)
  {
    hide Accepts, BraceFree;
    if Accepts(line) { AcceptedHasBrace(line); }
  }

  /** From the very start the proxy can come to wait for its first client. */
  lemma StartupCompletes(u: Setup) returns (steps: seq<Step>)
    requires Sane(u) && ShortLines(u.banner) && ShortLines(ReadyText(u))
    ensures
      var t := Run(u, steps);
      t.mode.Idle? && t.running && t.alive && t.listening && t.dispatched == []
  {
    hide RunFrom, IsReady, ReadyText;
    var s := Initial(u);
    var all := s.unwritten;
    var write := WorkerWrites(|all|);
    OneStep(u, s, write);
    assert all[..|all|] == all && all[|all|..] == "" && "" + all == all;
    var s1 := s.(toProxy := all, unwritten := "");
    assert all == u.banner + (ReadyText(u) + "\n");
    var skip := BannerIsSkipped(u, s1, u.banner, ReadyText(u) + "\n");
    var s2 := s1.(toProxy := ReadyText(u) + "\n");
    assert "" + s2.toProxy == ReadyText(u) + "\n" + "";
    ReadyFramed(u);
    ReadyIsReady(u);
    var read := ProxyHears(u, s2, ReadyText(u), "");
    RunFromConcat(u, s, [write], skip);
    RunFromConcat(u, s, [write] + skip, read);
    steps := [write] + skip + read;
    RunContinues(u, [], steps);
    assert [] + steps == steps;
  }

  /** Requests that do not end the session, with answers the proxy can take. */
  predicate Servable(u: Setup, requests: seq<string>) {
    forall k :: 0 <= k < |requests| ==>
      requests[k] != "" && OneLine(requests[k]) && !IsShutdown(requests[k]) && |AnswerTo(u, requests[..k+1])| <= MAX_RESPONSE
  }

  lemma ServableFront(u: Setup, requests: seq<string>)
    requires requests != [] && Servable(u, requests)
    ensures Servable(u, requests[..|requests|-1])
  {
    hide IsShutdown, AnswerTo;
    var front := requests[..|requests|-1];
    forall k | 0 <= k < |front|
      ensures front[k] != "" && OneLine(front[k]) && !IsShutdown(front[k]) && |AnswerTo(u, front[..k+1])| <= MAX_RESPONSE
    {
      assert front[k] == requests[k] && front[..k+1] == requests[..k+1];
    }
  }

  /** Any number of clients can be served: some run answers all of them, in order. */
  lemma {:induction false} EveryoneCanBeServed(u: Setup, requests: seq<string>) returns (steps: seq<Step>)
    requires Sane(u) && ShortLines(u.banner) && ShortLines(ReadyText(u)) && Servable(u, requests)
    ensures
      var t := Run(u, steps);
      && t.mode.Idle? && t.running && t.alive && t.listening
      && t.dispatched == requests && |t.delivered| == |requests|
    decreases |requests|
  {
    hide RunFrom, Run, IsShutdown, AnswerTo, ClientView, ReadyText, Sane, Inv;
    if requests == [] {
      steps := StartupCompletes(u);
      Safety(u, steps);
    } else {
      var n := |requests| - 1;
      var front := requests[..n];
      ServableFront(u, requests);
      assert requests[..n+1] == requests == front + [requests[n]];
      var before := EveryoneCanBeServed(u, front);
      RunInv(u, before);
      var more := ExchangeCompletes(u, Run(u, before), requests[n]);
      RunContinues(u, before, more);
      steps := before + more;
    }
  }
}

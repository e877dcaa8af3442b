/**
 The proxy program and the machine of module ProxyProtocol side by side. The world is a
 sequence of ticks: steps of the worker, and what the program's next system call finds. The
 machine is driven through the ticks, and what it finds on the way is what the program's
 calls bring. However the ticks fall, the program then does what the machine does.
 */
module ProxyRuns {
  import opened CText
  import opened Framing
  import opened ProxyProtocol
  import opened ProxyProgress
  import opened ProxyProcess
  import opened ServerLoop

  datatype Tick =
    | Worker(step: Step)      // a step of the worker
    | Readable                // a poll that takes the next byte, if there is one
    | Silent                  // a poll that times out
    | PollInterrupted
    | WriteCall(call: Write)  // a write call

  /** Some run of the machine goes from s to t. */
  ghost predicate Leads(u: Setup, s: State, t: State) {
    exists steps :: RunFrom(u, s, steps) == t
  }

  lemma LeadsStep(u: Setup, s: State, step: Step)
    requires Enabled(s, step)
    ensures Leads(u, s, Apply(u, s, step))
  {
    hide Apply, Enabled;
    OneStep(u, s, step);
  }

  lemma LeadsSelf(u: Setup, s: State)
    ensures Leads(u, s, s)
  {
    NoSteps(u, s);
  }

  lemma LeadsOn(u: Setup, s: State, t: State, v: State)
    requires Leads(u, s, t) && Leads(u, t, v)
    ensures Leads(u, s, v)
  {
    hide RunFrom;
    var a :| RunFrom(u, s, a) == t;
    var b :| RunFrom(u, t, b) == v;
    RunFromConcat(u, s, a, b);
  }

  lemma {:induction false} RunFromKeepsInv(u: Setup, s: State, steps: seq<Step>)
    requires Sane(u) && Inv(u, s)
    ensures Inv(u, RunFrom(u, s, steps))
    decreases |steps|
  {
    hide Sane, Inv, Apply, Enabled;
    if steps != [] {
      if Enabled(s, steps[0]) {
        StepKeepsInv(u, s, steps[0]);
      }
      RunFromKeepsInv(u, if Enabled(s, steps[0]) then Apply(u, s, steps[0]) else s, steps[1..]);
    }
  }

  lemma LeadsKeepsInv(u: Setup, s: State, t: State)
    requires Sane(u) && Inv(u, s) && Leads(u, s, t)
    ensures Inv(u, t)
  {
    hide Sane, Inv, RunFrom;
    var steps :| RunFrom(u, s, steps) == t;
    RunFromKeepsInv(u, s, steps);
  }

  // ------------------------------------------------------------------- the worker

  predicate OfWorker(step: Step) {
    step.WorkerReads? || step.WorkerWrites? || step.WorkerDies?
  }

  /** What the worker does, if it can. */
  function WorkerDoes(u: Setup, s: State, step: Step): State {
    if OfWorker(step) && Enabled(s, step) then Apply(u, s, step) else s
  }

  /** The proxy's own side of the state. */
  predicate SameProxy(s: State, t: State) {
    s.mode == t.mode && s.running == t.running && s.dispatched == t.dispatched && s.delivered == t.delivered
  }

  lemma WorkerLeaves(u: Setup, s: State, step: Step)
    ensures SameProxy(s, WorkerDoes(u, s, step)) && Leads(u, s, WorkerDoes(u, s, step))
  {
    hide IsShutdown, AnswerTo, Leads;
    LeadsSelf(u, s);
    if OfWorker(step) && Enabled(s, step) {
      LeadsStep(u, s, step);
    }
  }

  // -------------------------------------------------------------- reading a line

  predicate Waiting(s: State) {
    s.mode.Starting? || s.mode.Receiving?
  }

  function PollOf(s: State, tick: Tick): Poll {
    if tick.Readable? && s.toProxy != "" then Byte(s.toProxy[0])
    else if tick.PollInterrupted? then Interrupted else Quiet
  }

  /** A state of the machine, the line that led to it, the ticks left and the polls so far. */
  datatype Heard = Heard(s: State, reading: Reading, ticks: seq<Tick>, polls: seq<Poll>)

  /** The machine polls until a line ends; when the ticks run out the pipe stays quiet. */
  function HearLine(u: Setup, s: State, ticks: seq<Tick>): (h: Heard)
    requires Waiting(s)
    ensures !h.reading.More? && |h.ticks| <= |ticks|
    decreases |ticks|
  {
    if ticks == [] then Heard(Apply(u, s, Answers(Quiet)), Got(PartOf(s.mode)), [], []) else
    if ticks[0].Worker? then
      WorkerLeaves(u, s, ticks[0].step);
      HearLine(u, WorkerDoes(u, s, ticks[0].step), ticks[1..])
    else if ticks[0].WriteCall? then HearLine(u, s, ticks[1..])
    else
      var poll := PollOf(s, ticks[0]);
      var t, reading := Apply(u, s, Answers(poll)), OnPoll(PartOf(s.mode), poll);
      if !reading.More? then Heard(t, reading, ticks[1..], [poll]) else
      PollGoesOn(u, s, poll);
      var h := HearLine(u, t, ticks[1..]);
      h.(polls := [poll] + h.polls)
  }

  /** The same proxy, still waiting in the same way, with part of a line. */
  predicate StillWaiting(s: State, t: State) {
    && s.running == t.running && s.dispatched == t.dispatched && s.delivered == t.delivered
    && (s.mode.Starting? ==> t.mode.Starting?)
    && (s.mode.Receiving? ==> t.mode.Receiving? && t.mode.request == s.mode.request)
  }

  lemma PollGoesOn(u: Setup, s: State, poll: Poll)
    requires Waiting(s) && Enabled(s, Answers(poll)) && OnPoll(PartOf(s.mode), poll).More?
    ensures var t := Apply(u, s, Answers(poll));
      StillWaiting(s, t) && PartOf(t.mode) == OnPoll(PartOf(s.mode), poll).partial
  {
    hide IsReady, Judge, ClientView, IsShutdown;
  }

  /** What the proxy does with a line; it starts the next line afresh. */
  predicate Takes(u: Setup, s: State, t: State, r: Reading)
    requires Waiting(s)
  {
    && t.dispatched == s.dispatched
    && if s.mode.Starting? then
         && t.delivered == s.delivered
         && t.mode == (if r.TooLong? then Stopped else if r.Got? && IsReady(r.line) then Idle else Starting(""))
         && (t.mode.Idle? ==> t.running)
       else if r.Got? && Judge(r.line).Deliver? then
         && t.mode.Idle? && t.delivered == s.delivered + [ClientView(u, s.mode.request, r.line)]
         && t.running == (s.running && !IsShutdown(s.mode.request))
       else
         && t.delivered == s.delivered && t.running == s.running
         && t.mode == (if r.Got? && Judge(r.line).KeepWaiting? then Receiving(s.mode.request, "") else Stopped)
  }

  lemma PollEnds(u: Setup, s: State, poll: Poll)
    requires Waiting(s) && Enabled(s, Answers(poll)) && !OnPoll(PartOf(s.mode), poll).More?
    ensures Takes(u, s, Apply(u, s, Answers(poll)), OnPoll(PartOf(s.mode), poll))
  {
    hide IsReady, Judge, ClientView, IsShutdown, OnPoll, Takes;
    var t := if poll.Byte? then s.(toProxy := s.toProxy[1..]) else s;
    if s.mode.Starting? {
      TakesReady(u, s, t, OnPoll(s.mode.seen, poll));
    } else {
      TakesResponse(u, s, t, OnPoll(s.mode.partial, poll));
    }
  }

  lemma TakesReady(u: Setup, s: State, t: State, r: Reading)
    requires s.mode.Starting? && t == s.(toProxy := t.toProxy) && !r.More?
    ensures Takes(u, s, WaitReady(t, r), r)
  {
    hide IsReady;
  }

  lemma TakesResponse(u: Setup, s: State, t: State, r: Reading)
    requires s.mode.Receiving? && t == s.(toProxy := t.toProxy) && !r.More?
    ensures Takes(u, s, AwaitResponse(u, t, r), r)
  {
    hide Judge, ClientView, IsShutdown;
  }

  lemma TakesLater(u: Setup, s: State, v: State, t: State, r: Reading)
    requires Waiting(s) && StillWaiting(s, v) && Takes(u, v, t, r)
    ensures Takes(u, s, t, r)
  {
    hide IsReady, Judge, ClientView, IsShutdown;
  }

  function AsResult(r: Reading): LineResult
    requires !r.More?
  {
    if r.Got? then Line(r.line) else Overflow
  }

  /** ReadLine is a run of the machine, on what the polls bring; more is what later polls bring. */
  lemma {:induction false} LineIsMachineRun(u: Setup, s: State, ticks: seq<Tick>, more: seq<Poll>)
    requires Waiting(s) && (HearLine(u, s, ticks).ticks == [] ==> more == [])
    ensures var h := HearLine(u, s, ticks);
      && Leads(u, s, h.s) && Takes(u, s, h.s, h.reading)
      && LineFrom(PartOf(s.mode), h.polls + more) == (AsResult(h.reading), more)
    decreases |ticks|
  {
    hide Apply, Enabled, Leads, Takes, WorkerDoes, LineFrom, OnPoll;
    LineEnds(PartOf(s.mode), more);
    if ticks == [] {
      QuietStep(u, s);
      assert [] + more == more;
    } else if ticks[0].Worker? {
      WorkerLeaves(u, s, ticks[0].step);
      var v := WorkerDoes(u, s, ticks[0].step);
      LineIsMachineRun(u, v, ticks[1..], more);
      LeadsOn(u, s, v, HearLine(u, s, ticks).s);
      TakesLater(u, s, v, HearLine(u, s, ticks).s, HearLine(u, s, ticks).reading);
    } else if ticks[0].WriteCall? {
      LineIsMachineRun(u, s, ticks[1..], more);
    } else {
      LineStep(u, s, ticks, more);
    }
  }

  lemma QuietStep(u: Setup, s: State)
    requires Waiting(s)
    ensures Enabled(s, Answers(Quiet)) && OnPoll(PartOf(s.mode), Quiet) == Got(PartOf(s.mode))
    ensures Leads(u, s, Apply(u, s, Answers(Quiet))) && Takes(u, s, Apply(u, s, Answers(Quiet)), Got(PartOf(s.mode)))
  {
    hide Apply, Leads, Takes;
    LeadsStep(u, s, Answers(Quiet));
    PollEnds(u, s, Quiet);
  }

  lemma LineEnds(partial: string, polls: seq<Poll>)
    ensures polls == [] ==> LineFrom(partial, polls) == (Line(partial), [])
  {
  }

  lemma LineFromStep(partial: string, poll: Poll, more: seq<Poll>)
    ensures var r := OnPoll(partial, poll);
      LineFrom(partial, [poll] + more) == if r.More? then LineFrom(r.partial, more) else (AsResult(r), more)
  {
    hide OnPoll;
    assert ([poll] + more)[1..] == more;
  }

  lemma {:induction false} LineStep(u: Setup, s: State, ticks: seq<Tick>, more: seq<Poll>)
    requires Waiting(s) && (HearLine(u, s, ticks).ticks == [] ==> more == [])
    requires ticks != [] && !ticks[0].Worker? && !ticks[0].WriteCall?
    ensures var h := HearLine(u, s, ticks);
      && Leads(u, s, h.s) && Takes(u, s, h.s, h.reading)
      && LineFrom(PartOf(s.mode), h.polls + more) == (AsResult(h.reading), more)
    decreases |ticks|, 0
  {
    hide Apply, Enabled, Leads, Takes, LineFrom, OnPoll;
    var poll := PollOf(s, ticks[0]);
    PollEnabled(s, ticks[0]);
    var t := Apply(u, s, Answers(poll));
    LeadsStep(u, s, Answers(poll));
    var h := HearLine(u, s, ticks);
    if OnPoll(PartOf(s.mode), poll).More? {
      PollGoesOn(u, s, poll);
      LineIsMachineRun(u, t, ticks[1..], more);
      LeadsOn(u, s, t, h.s);
      TakesLater(u, s, t, h.s, h.reading);
      LineFromStep(PartOf(s.mode), poll, HearLine(u, t, ticks[1..]).polls + more);
      assert h.polls + more == [poll] + (HearLine(u, t, ticks[1..]).polls + more);
    } else {
      PollEnds(u, s, poll);
      LineFromStep(PartOf(s.mode), poll, more);
    }
  }

  lemma PollEnabled(s: State, tick: Tick)
    requires Waiting(s)
    ensures Enabled(s, Answers(PollOf(s, tick)))
  {
  }

  /** A state of the machine, the ticks left, and what the system calls found on the way. */
  datatype Course = Course(s: State, ticks: seq<Tick>, writes: seq<Write>, polls: seq<Poll>)

  /** When the ticks are used up, nothing more is found. */
  predicate LaterThan(ticks: seq<Tick>, writes: seq<Write>, polls: seq<Poll>) {
    ticks == [] ==> writes == [] && polls == []
  }

  lemma NothingHeardLater(u: Setup, s: State)
    requires Waiting(s)
    ensures HearLine(u, s, []).ticks == [] && HearLine(u, s, []).polls == []
  {
    hide Apply;
  }

  // --------------------------------------------------------- waiting for a response

  function TakeResponse(u: Setup, s: State, ticks: seq<Tick>, patience: nat): (c: Course)
    requires s.mode.Receiving? && s.mode.partial == ""
    ensures |c.ticks| <= |ticks|
    decreases patience
  {
    if patience == 0 then Course(Apply(u, s, DeadlinePasses), ticks, [], []) else
    LineIsMachineRun(u, s, ticks, []);
    var h := HearLine(u, s, ticks);
    if !h.s.mode.Receiving? then Course(h.s, h.ticks, [], h.polls) else
    var c := TakeResponse(u, h.s, h.ticks, patience - 1);
    c.(polls := h.polls + c.polls)
  }

  lemma {:induction false} NothingTakenLater(u: Setup, s: State, patience: nat)
    requires s.mode.Receiving? && s.mode.partial == ""
    ensures var c := TakeResponse(u, s, [], patience); c.ticks == [] && c.polls == [] && c.writes == []
    decreases patience
  {
    hide HearLine, Apply;
    if patience > 0 {
      NothingHeardLater(u, s);
      LineIsMachineRun(u, s, [], []);
      var h := HearLine(u, s, []);
      if h.s.mode.Receiving? {
        NothingTakenLater(u, h.s, patience - 1);
      }
    }
  }

  /** What becomes of the machine when the program gets a response or throws. */
  predicate Answered(u: Setup, s: State, t: State, request: string, outcome: Outcome) {
    && t.dispatched == s.dispatched
    && (outcome.Response? ==>
          t.mode.Idle? && t.delivered == s.delivered + [ClientView(u, request, outcome.line)]
          && t.running == (s.running && !IsShutdown(request)))
    && (outcome.Failure? ==> t.mode.Stopped? && t.delivered == s.delivered)
  }

  lemma ResponseStep(polls: seq<Poll>, patience: nat, line: LineResult, rest: seq<Poll>)
    requires patience > 0 && LineFrom("", polls) == (line, rest)
    ensures ResponseFrom(polls, patience) ==
      if line.Overflow? then (Failure(ResponseTooLong), rest)
      else if Judge(line.text).KeepWaiting? then ResponseFrom(rest, patience - 1)
      else if Judge(line.text).Abort? then (Failure(InvalidJson), rest)
      else (Response(line.text), rest)
  {
    hide Judge, LineFrom;
  }

  /**
   Waiting for a response is a run of the machine: it delivers exactly when the program
   returns a response, and stops exactly when the program throws.
   */
  lemma {:induction false} ResponseIsMachineRun(u: Setup, s: State, ticks: seq<Tick>, patience: nat, more: seq<Poll>)
    requires s.mode.Receiving? && s.mode.partial == ""
    requires TakeResponse(u, s, ticks, patience).ticks == [] ==> more == []
    ensures
      var c, r := TakeResponse(u, s, ticks, patience), ResponseFrom(TakeResponse(u, s, ticks, patience).polls + more, patience);
      Leads(u, s, c.s) && Answered(u, s, c.s, s.mode.request, r.0) && r.1 == more
    decreases patience
  {
    hide Judge, ClientView, LineFrom, HearLine, Leads, Apply, IsShutdown;
    if patience == 0 {
      DeadlineStops(u, s);
      assert [] + more == more;
    } else {
      LineIsMachineRun(u, s, ticks, []);
      var h := HearLine(u, s, ticks);
      if h.s.mode.Receiving? {
        var c := TakeResponse(u, h.s, h.ticks, patience - 1);
        if h.ticks == [] {
          NothingTakenLater(u, h.s, patience - 1);
        }
        LineIsMachineRun(u, s, ticks, c.polls + more);
        assert h.polls + c.polls + more == h.polls + (c.polls + more);
        ResponseStep(h.polls + (c.polls + more), patience, AsResult(h.reading), c.polls + more);
        ResponseIsMachineRun(u, h.s, h.ticks, patience - 1, more);
        LeadsOn(u, s, h.s, c.s);
      } else {
        LineIsMachineRun(u, s, ticks, more);
        ResponseStep(h.polls + more, patience, AsResult(h.reading), more);
      }
    }
  }

  lemma DeadlineStops(u: Setup, s: State)
    requires (s.mode.Receiving? && s.mode.partial == "") || s.mode == Starting("")
    ensures Enabled(s, DeadlinePasses) && Leads(u, s, Apply(u, s, DeadlinePasses))
    ensures Apply(u, s, DeadlinePasses) == s.(mode := Stopped)
  {
    hide Leads;
    LeadsStep(u, s, DeadlinePasses);
  }

  // ------------------------------------------------------ waiting for the ready line

  function TakeReady(u: Setup, s: State, ticks: seq<Tick>, patience: nat): (c: Course)
    requires s.mode == Starting("")
    decreases patience
  {
    if patience == 0 then Course(Apply(u, s, DeadlinePasses), ticks, [], []) else
    LineIsMachineRun(u, s, ticks, []);
    var h := HearLine(u, s, ticks);
    if !h.s.mode.Starting? then Course(h.s, h.ticks, [], h.polls) else
    var c := TakeReady(u, h.s, h.ticks, patience - 1);
    c.(polls := h.polls + c.polls)
  }

  lemma {:induction false} NothingReadyLater(u: Setup, s: State, patience: nat)
    requires s.mode == Starting("")
    ensures var c := TakeReady(u, s, [], patience); c.ticks == [] && c.polls == []
    decreases patience
  {
    hide HearLine, Apply;
    if patience > 0 {
      NothingHeardLater(u, s);
      LineIsMachineRun(u, s, [], []);
      var h := HearLine(u, s, []);
      if h.s.mode.Starting? {
        NothingReadyLater(u, h.s, patience - 1);
      }
    }
  }

  lemma ReadyStep(polls: seq<Poll>, patience: nat, line: LineResult, rest: seq<Poll>)
    requires patience > 0 && LineFrom("", polls) == (line, rest)
    ensures ReadyWithin(polls, patience) ==
      if line.Overflow? then None
      else if IsReady(line.text) then Some((line.text, rest))
      else ReadyWithin(rest, patience - 1)
  {
    hide IsReady, LineFrom;
  }

  /** Waiting for the ready line is a run of the machine: it is idle exactly when the program goes on. */
  lemma {:induction false} ReadyIsMachineRun(u: Setup, s: State, ticks: seq<Tick>, patience: nat, more: seq<Poll>)
    requires s.mode == Starting("")
    requires TakeReady(u, s, ticks, patience).ticks == [] ==> more == []
    ensures
      var c, r := TakeReady(u, s, ticks, patience), ReadyWithin(TakeReady(u, s, ticks, patience).polls + more, patience);
      && Leads(u, s, c.s)
      && (if r.Some? then c.s.mode.Idle? && c.s.running && r.value.1 == more else c.s.mode.Stopped?)
    decreases patience
  {
    hide IsReady, LineFrom, HearLine, Leads, Apply, ClientView, Judge, IsShutdown;
    if patience == 0 {
      DeadlineStops(u, s);
    } else {
      LineIsMachineRun(u, s, ticks, []);
      var h := HearLine(u, s, ticks);
      if h.s.mode.Starting? {
        var c := TakeReady(u, h.s, h.ticks, patience - 1);
        if h.ticks == [] {
          NothingReadyLater(u, h.s, patience - 1);
        }
        LineIsMachineRun(u, s, ticks, c.polls + more);
        assert h.polls + c.polls + more == h.polls + (c.polls + more);
        ReadyStep(h.polls + (c.polls + more), patience, AsResult(h.reading), c.polls + more);
        ReadyIsMachineRun(u, h.s, h.ticks, patience - 1, more);
        LeadsOn(u, s, h.s, c.s);
      } else {
        LineIsMachineRun(u, s, ticks, more);
        ReadyStep(h.polls + more, patience, AsResult(h.reading), more);
      }
    }
  }

  // ------------------------------------------------------------ writing the request

  /** The machine writes the request line; when the ticks run out the pipe is broken. */
  function SendAll(u: Setup, s: State, ticks: seq<Tick>): (c: Course)
    requires s.mode.Sending? && s.mode.unsent != ""
    ensures |c.ticks| <= |ticks|
    decreases |ticks|
  {
    if ticks == [] then Course(Apply(u, s, WriteFails), [], [], [])
    else if ticks[0].Worker? then
      WorkerLeaves(u, s, ticks[0].step);
      SendAll(u, WorkerDoes(u, s, ticks[0].step), ticks[1..])
    else if !ticks[0].WriteCall? then SendAll(u, s, ticks[1..])
    else
      var call := ticks[0].call;
      if call.WriteError? || call == Wrote(0) then Course(Apply(u, s, WriteFails), ticks[1..], [call], [])
      else
        var t := if call.Wrote? then Apply(u, s, WriteSome(Least(call.n, |s.mode.unsent|))) else s;
        if !t.mode.Sending? then Course(t, ticks[1..], [call], []) else
        var c := SendAll(u, t, ticks[1..]);
        c.(writes := [call] + c.writes)
  }

  lemma WriteFromStep(data: string, call: Write, more: seq<Write>)
    requires data != ""
    ensures WriteFrom(data, [call] + more) ==
      if call.WriteInterrupted? then WriteFrom(data, more)
      else if call.WriteError? || call == Wrote(0) then (false, more)
      else WriteFrom(data[Least(call.n, |data|)..], more)
  {
    assert ([call] + more)[1..] == more;
  }

  lemma WriteEnds(writes: seq<Write>)
    ensures WriteFrom("", writes) == (true, writes)
    ensures forall data :: data != "" ==> WriteFrom(data, []) == (false, [])
  {
  }

  /** What becomes of the machine when the program has written the line, or throws. */
  predicate Written(s: State, t: State, ok: bool)
    requires s.mode.Sending?
  {
    && t.dispatched == s.dispatched && t.delivered == s.delivered && t.running == s.running
    && t.mode == if ok then Receiving(s.mode.request, "") else Stopped
  }

  lemma WriteCallMeans(u: Setup, s: State, call: Write)
    requires s.mode.Sending? && s.mode.unsent != "" && !call.WriteInterrupted?
    ensures Leads(u, s, Apply(u, s, WriteFails)) && Written(s, Apply(u, s, WriteFails), false)
    ensures call.Wrote? ==>
      var n := Least(call.n, |s.mode.unsent|);
      var t := Apply(u, s, WriteSome(n));
      && Leads(u, s, t)
      && if s.mode.unsent[n..] == "" then Written(s, t, true)
         else SameProxy(s.(mode := Sending(s.mode.request, s.mode.unsent[n..])), t)
  {
    hide Leads;
    LeadsStep(u, s, WriteFails);
    if call.Wrote? {
      LeadsStep(u, s, WriteSome(Least(call.n, |s.mode.unsent|)));
    }
  }

  /** Writing the line is a run of the machine, which waits for the response exactly when the program does. */
  lemma {:induction false} WriteIsMachineRun(u: Setup, s: State, ticks: seq<Tick>, more: seq<Write>)
    requires s.mode.Sending? && s.mode.unsent != ""
    requires SendAll(u, s, ticks).ticks == [] ==> more == []
    ensures
      var c, r := SendAll(u, s, ticks), WriteFrom(s.mode.unsent, SendAll(u, s, ticks).writes + more);
      Leads(u, s, c.s) && Written(s, c.s, r.0) && r.1 == more && c.polls == []
    decreases |ticks|
  {
    hide Apply, Leads, WorkerDoes, WriteFrom;
    WriteEnds(more);
    var c := SendAll(u, s, ticks);
    if ticks == [] {
      WriteCallMeans(u, s, WriteError);
      assert [] + more == more;
    } else if ticks[0].Worker? {
      WorkerLeaves(u, s, ticks[0].step);
      WriteIsMachineRun(u, WorkerDoes(u, s, ticks[0].step), ticks[1..], more);
      LeadsOn(u, s, WorkerDoes(u, s, ticks[0].step), c.s);
    } else if !ticks[0].WriteCall? {
      WriteIsMachineRun(u, s, ticks[1..], more);
    } else {
      var call := ticks[0].call;
      if call.WriteInterrupted? {
        var later := SendAll(u, s, ticks[1..]);
        assert c.writes + more == [call] + (later.writes + more);
        WriteFromStep(s.mode.unsent, call, later.writes + more);
        WriteIsMachineRun(u, s, ticks[1..], more);
      } else {
        WriteCallStep(u, s, ticks, more);
      }
    }
  }

  lemma {:induction false} WriteCallStep(u: Setup, s: State, ticks: seq<Tick>, more: seq<Write>)
    requires s.mode.Sending? && s.mode.unsent != ""
    requires SendAll(u, s, ticks).ticks == [] ==> more == []
    requires ticks != [] && ticks[0].WriteCall? && !ticks[0].call.WriteInterrupted?
    ensures
      var c, r := SendAll(u, s, ticks), WriteFrom(s.mode.unsent, SendAll(u, s, ticks).writes + more);
      Leads(u, s, c.s) && Written(s, c.s, r.0) && r.1 == more && c.polls == []
    decreases |ticks|, 0
  {
    hide Apply, Leads, WriteFrom;
    var c, call := SendAll(u, s, ticks), ticks[0].call;
    WriteCallMeans(u, s, call);
    WriteFromStep(s.mode.unsent, call, more);
    WriteEnds(more);
    if call.Wrote? && call.n > 0 {
      var n := Least(call.n, |s.mode.unsent|);
      var t := Apply(u, s, WriteSome(n));
      if t.mode.Sending? {
        var later := SendAll(u, t, ticks[1..]);
        assert c.writes + more == [call] + (later.writes + more);
        WriteFromStep(s.mode.unsent, call, later.writes + more);
        WriteIsMachineRun(u, t, ticks[1..], more);
        LeadsOn(u, s, t, c.s);
      }
    }
  }

  // ---------------------------------------------------------------- one client

  predicate RequestLine(request: string) {
    request != "" && OneLine(request)
  }

  function Serve(u: Setup, s: State, request: string, ticks: seq<Tick>, patience: nat): (c: Course)
    requires s.mode.Idle? && s.running && RequestLine(request)
  {
    var sending := Apply(u, s, ClientRequest(request));
    WriteIsMachineRun(u, sending, ticks, []);
    var sent := SendAll(u, sending, ticks);
    if !sent.s.mode.Receiving? then sent else
    var c := TakeResponse(u, sent.s, sent.ticks, patience);
    c.(writes := sent.writes)
  }

  lemma NothingSentLater(u: Setup, s: State, request: string, patience: nat)
    requires s.mode.Idle? && s.running && RequestLine(request)
    ensures var c := Serve(u, s, request, [], patience); c.ticks == [] && c.writes == [] && c.polls == []
  {
    hide TakeResponse, Leads;
    var sending := Apply(u, s, ClientRequest(request));
    WriteIsMachineRun(u, sending, [], []);
  }

  /** Serving one client is a run of the machine. */
  lemma ServeIsMachineRun(u: Setup, s: State, request: string, ticks: seq<Tick>, patience: nat, writes: seq<Write>, polls: seq<Poll>)
    requires s.mode.Idle? && s.running && RequestLine(request)
    requires LaterThan(Serve(u, s, request, ticks, patience).ticks, writes, polls)
    ensures
      var c := Serve(u, s, request, ticks, patience);
      var r := RequestOutcome(request, c.writes + writes, c.polls + polls, patience);
      && Leads(u, s, c.s) && r.1 == writes && r.2 == polls
      && Answered(u, s.(dispatched := s.dispatched + [request]), c.s, request, r.0)
  {
    hide SendAll, TakeResponse, WriteFrom, ResponseFrom, Leads, ClientView, IsShutdown;
    var c := Serve(u, s, request, ticks, patience);
    var sending := Apply(u, s, ClientRequest(request));
    LeadsStep(u, s, ClientRequest(request));
    WriteIsMachineRun(u, sending, ticks, []);
    var sent := SendAll(u, sending, ticks);
    LeadsOn(u, s, sending, sent.s);
    if sent.s.mode.Receiving? {
      if sent.ticks == [] {
        NothingTakenLater(u, sent.s, patience);
      }
      WriteIsMachineRun(u, sending, ticks, writes);
      ResponseIsMachineRun(u, sent.s, sent.ticks, patience, polls);
      LeadsOn(u, s, sent.s, c.s);
    } else {
      WriteIsMachineRun(u, sending, ticks, writes);
      assert c.polls + polls == polls;
    }
  }

  // ---------------------------------------------------------- one client after the other

  /** What the event loop hands on: lines, and a shutdown only at the end. */
  predicate Orderly(requests: seq<string>) {
    && (forall k :: 0 <= k < |requests| ==> RequestLine(requests[k]))
    && (forall k :: 0 <= k < |requests| - 1 ==> !IsShutdown(requests[k]))
  }

  function ServeAll(u: Setup, s: State, requests: seq<string>, ticks: seq<Tick>, patience: nat): (c: Course)
    requires s.mode.Idle? && s.running && Orderly(requests)
  {
    if requests == [] then Course(s, ticks, [], []) else
    var n := |requests| - 1;
    var c := ServeAll(u, s, requests[..n], ticks, patience);
    if !(c.s.mode.Idle? && c.s.running) then c else
    var d := Serve(u, c.s, requests[n], c.ticks, patience);
    Course(d.s, d.ticks, c.writes + d.writes, c.polls + d.polls)
  }

  lemma ServeAllStep(u: Setup, s: State, requests: seq<string>, ticks: seq<Tick>, patience: nat)
    requires s.mode.Idle? && s.running && Orderly(requests) && requests != []
    ensures
      var n := |requests| - 1;
      var c := ServeAll(u, s, requests[..n], ticks, patience);
      ServeAll(u, s, requests, ticks, patience) ==
        if !(c.s.mode.Idle? && c.s.running) then c else
        var d := Serve(u, c.s, requests[n], c.ticks, patience);
        Course(d.s, d.ticks, c.writes + d.writes, c.polls + d.polls)
  {
    hide Serve, IsShutdown;
  }

  /** The program on what was found, and the machine at the end of the ticks. */
  predicate Agree(u: Setup, s: State, t: State, requests: seq<string>, e: Option<Exchanged>) {
    if e.Some? then
      && t.mode.Idle? && t.running == (requests == [] || !IsShutdown(requests[|requests|-1]))
      && t.dispatched == s.dispatched + requests && t.delivered == s.delivered + e.value.replies
    else t.mode.Stopped?
  }

  /**
   Serving any list of requests is a run of the machine that takes exactly these requests
   and delivers exactly the program's replies; it stops when a request fails.
   */
  lemma {:induction false} ServeAllIsMachineRun(u: Setup, s: State, requests: seq<string>, ticks: seq<Tick>, patience: nat,
                                                writes: seq<Write>, polls: seq<Poll>)
    requires s.mode.Idle? && s.running && Orderly(requests)
    requires LaterThan(ServeAll(u, s, requests, ticks, patience).ticks, writes, polls)
    ensures
      var c := ServeAll(u, s, requests, ticks, patience);
      var e := Exchange(u, c.writes + writes, c.polls + polls, requests, patience);
      && Leads(u, s, c.s) && Agree(u, s, c.s, requests, e)
      && (e.Some? ==> e.value.writes == writes && e.value.polls == polls)
    decreases |requests|
  {
    hide Serve, ServeAll, Exchange, RequestOutcome, Leads, ClientView, IsShutdown;
    if requests == [] {
      NoRequests(u, s, ticks, patience, writes, polls);
    } else {
      var n := |requests| - 1;
      var front, last := requests[..n], requests[n];
      assert requests == front + [last];
      ServeAllStep(u, s, requests, ticks, patience);
      var c := ServeAll(u, s, front, ticks, patience);
      ServeAllIsMachineRun(u, s, front, ticks, patience, [], []);
      if c.s.mode.Idle? && c.s.running {
        var d := Serve(u, c.s, last, c.ticks, patience);
        if c.ticks == [] {
          NothingSentLater(u, c.s, last, patience);
        }
        ServeAllIsMachineRun(u, s, front, ticks, patience, d.writes + writes, d.polls + polls);
        ServeIsMachineRun(u, c.s, last, c.ticks, patience, writes, polls);
        LeadsOn(u, s, c.s, d.s);
        assert c.writes + d.writes + writes == c.writes + (d.writes + writes);
        assert c.polls + d.polls + polls == c.polls + (d.polls + polls);
        ExchangeStep(u, c.writes + d.writes + writes, c.polls + d.polls + polls, front, last, patience);
      } else {
        ServeAllIsMachineRun(u, s, front, ticks, patience, writes, polls);
        ExchangeFails(u, c.writes + writes, c.polls + polls, requests, patience);
      }
    }
  }

  lemma NoRequests(u: Setup, s: State, ticks: seq<Tick>, patience: nat, writes: seq<Write>, polls: seq<Poll>)
    requires s.mode.Idle? && s.running
    ensures ServeAll(u, s, [], ticks, patience) == Course(s, ticks, [], []) && Leads(u, s, s)
    ensures Exchange(u, [] + writes, [] + polls, [], patience) == Some(Exchanged([], writes, polls))
    ensures s.dispatched + [] == s.dispatched && s.delivered + [] == s.delivered
  {
    hide Leads;
    LeadsSelf(u, s);
    assert [] + writes == writes && [] + polls == polls;
  }

  lemma ExchangeFails(u: Setup, writes: seq<Write>, polls: seq<Poll>, requests: seq<string>, patience: nat)
    requires requests != [] && Exchange(u, writes, polls, requests[..|requests|-1], patience).None?
    ensures Exchange(u, writes, polls, requests, patience).None?
  {
    hide RequestOutcome, ClientView;
  }

  /** What is found while some of the requests are served comes first. */
  lemma {:induction false} FoundFirst(u: Setup, s: State, requests: seq<string>, n: nat, ticks: seq<Tick>, patience: nat)
    requires s.mode.Idle? && s.running && Orderly(requests) && n <= |requests|
    ensures Orderly(requests[..n])
    ensures
      var c, all := ServeAll(u, s, requests[..n], ticks, patience), ServeAll(u, s, requests, ticks, patience);
      && c.writes <= all.writes && c.polls <= all.polls
      && LaterThan(c.ticks, all.writes[|c.writes|..], all.polls[|c.polls|..])
      && (c.ticks == [] ==> all.ticks == [])
    decreases |requests|
  {
    hide Serve, ServeAll, IsShutdown;
    if n == |requests| {
      assert requests[..n] == requests;
    } else {
      var m := |requests| - 1;
      FoundFirst(u, s, requests[..m], n, ticks, patience);
      assert requests[..m][..n] == requests[..n];
      ServeAllStep(u, s, requests, ticks, patience);
      var c := ServeAll(u, s, requests[..m], ticks, patience);
      if c.s.mode.Idle? && c.s.running && c.ticks == [] {
        NothingSentLater(u, c.s, requests[m], patience);
      }
    }
  }

  // ------------------------------------------------------------------- main results

  lemma {:induction false} ArrivalsAreLines(turns: seq<Turn>, last: int, idle: int)
    ensures forall k :: 0 <= k < |Arrivals(turns, last, idle)| ==> RequestLine(Arrivals(turns, last, idle)[k])
    decreases |turns|
  {
    hide ClientLine;
    if turns != [] && !turns[0].signalled && !IdleTooLong(turns[0].now, last, idle) {
      match turns[0].wake
      case SelectFailed =>
      case NobodyCame => ArrivalsAreLines(turns[1..], last, idle);
      case Client(recvs, read) =>
        ReadsOneLine("", recvs, MAX_REQUEST);
        ArrivalsAreLines(turns[1..], if ClientLine("", recvs, MAX_REQUEST) == "" then last else read, idle);
    }
  }

  lemma {:induction false} ServedIsOrderly(lines: seq<string>)
    requires forall k :: 0 <= k < |lines| ==> RequestLine(lines[k])
    ensures Orderly(Served(lines))
    decreases |lines|
  {
    hide IsShutdown;
    if lines != [] {
      ServedIsOrderly(lines[1..]);
    }
  }

  /** The requests that the event loop is there to serve. */
  function ToServe(turns: seq<Turn>, start: int, idle: int): (r: seq<string>)
    ensures Orderly(r)
  {
    ArrivalsAreLines(turns, start, idle);
    ServedIsOrderly(Arrivals(turns, start, idle));
    Served(Arrivals(turns, start, idle))
  }

  /** The k-th reply shows the worker's answer to the k-th request. */
  predicate OwnAnswers(u: Setup, earlier: seq<string>, served: seq<string>, replies: seq<string>) {
    && |replies| == |served|
    && forall k :: 0 <= k < |replies| ==> replies[k] == ClientView(u, served[k], AnswerTo(u, earlier + served[..k+1]))
  }

  /** A run of the machine takes these requests and delivers these replies. */
  ghost predicate IsMachineRun(u: Setup, s: State, served: seq<string>, replies: seq<string>) {
    exists t: State :: Leads(u, s, t) && t.mode.Idle?
      && t.dispatched == s.dispatched + served && t.delivered == s.delivered + replies
  }

  /**
   Whatever part of the requests the program has served by what the machine found in the
   world, that is a run of the machine, and each client got the answer to its own request.
   */
  lemma ServedAreAnswered(u: Setup, s: State, world: seq<Tick>, all: seq<string>, patience: nat,
                          served: seq<string>, replies: seq<string>)
    requires Sane(u) && Inv(u, s) && s.mode.Idle? && s.running && Orderly(all) && served <= all
    requires
      var found := ServeAll(u, s, all, world, patience);
      var e := Exchange(u, found.writes, found.polls, served, patience);
      e.Some? && e.value.replies == replies
    ensures IsMachineRun(u, s, served, replies) && OwnAnswers(u, s.dispatched, served, replies)
  {
    hide ServeAll, Exchange, Leads, Inv, Sane, IsShutdown;
    var n := |served|;
    assert all[..n] == served;
    FoundFirst(u, s, all, n, world, patience);
    var c, found := ServeAll(u, s, served, world, patience), ServeAll(u, s, all, world, patience);
    var writes, polls := found.writes[|c.writes|..], found.polls[|c.polls|..];
    assert c.writes + writes == found.writes && c.polls + polls == found.polls;
    ServeAllIsMachineRun(u, s, served, world, patience, writes, polls);
    LeadsKeepsInv(u, s, c.s);
    PairedReplies(u, s, c.s, served, replies);
  }

  lemma PairedReplies(u: Setup, s: State, t: State, served: seq<string>, replies: seq<string>)
    requires Inv(u, s) && Inv(u, t) && s.mode.Idle? && t.mode.Idle?
    requires t.dispatched == s.dispatched + served && t.delivered == s.delivered + replies
    ensures OwnAnswers(u, s.dispatched, served, replies)
  {
    hide ClientView, AnswerTo;
    var n := |s.dispatched|;
    assert |s.delivered| == n && |replies| == |served|;
    forall k | 0 <= k < |replies|
      ensures replies[k] == ClientView(u, served[k], AnswerTo(u, s.dispatched + served[..k+1]))
    {
      assert t.delivered[n + k] == replies[k] && t.dispatched[n + k] == served[k];
      assert t.dispatched[..n + k + 1] == s.dispatched + served[..k+1];
    }
  }

  /** The state in which the proxy serves its first client, after any start-up. */
  lemma AfterStartup(u: Setup, ticks: seq<Tick>, patience: nat)
    requires Sane(u)
    ensures var c := TakeReady(u, Initial(u), ticks, patience);
      c.s.mode.Idle? ==> Inv(u, c.s) && c.s.running && c.s.dispatched == [] && c.s.delivered == []
  {
    hide Inv, Sane, Leads, ReadyText, TakeReady;
    InitialInv(u);
    ReadyIsMachineRun(u, Initial(u), ticks, patience, []);
    LeadsKeepsInv(u, Initial(u), TakeReady(u, Initial(u), ticks, patience).s);
    StartupDispatchesNothing(u, Initial(u), ticks, patience);
  }

  lemma {:induction false} StartupDispatchesNothing(u: Setup, s: State, ticks: seq<Tick>, patience: nat)
    requires s.mode == Starting("")
    ensures var c := TakeReady(u, s, ticks, patience);
      c.s.dispatched == s.dispatched && c.s.delivered == s.delivered
    decreases patience
  {
    hide HearLine, IsReady, Leads, LineFrom;
    if patience > 0 {
      LineIsMachineRun(u, s, ticks, []);
      var h := HearLine(u, s, ticks);
      if h.s.mode.Starting? {
        StartupDispatchesNothing(u, h.s, h.ticks, patience - 1);
      }
    }
  }

  /** The machine from its start through the whole session: what its start-up and its clients find. */
  function Started(u: Setup, world: seq<Tick>, patience: nat): Course {
    TakeReady(u, Initial(u), world, patience)
  }

  function Session(u: Setup, world: seq<Tick>, requests: seq<string>, startup: nat, patience: nat): Course
    requires Orderly(requests)
  {
    var c := Started(u, world, startup);
    if !(c.s.mode.Idle? && c.s.running) then c.(polls := []) else ServeAll(u, c.s, requests, c.ticks, patience)
  }

  lemma SessionFoundLater(u: Setup, world: seq<Tick>, requests: seq<string>, startup: nat, patience: nat)
    requires Orderly(requests)
    ensures var c := Started(u, world, startup);
      c.s.mode.Idle? && c.s.running && c.ticks == [] ==> Session(u, world, requests, startup, patience).polls == []
  {
    hide TakeReady, Serve, IsShutdown;
    var c := Started(u, world, startup);
    if c.s.mode.Idle? && c.s.running {
      FoundFirst(u, c.s, requests, 0, c.ticks, patience);
      assert requests[..0] == [];
      assert ServeAll(u, c.s, [], c.ticks, patience) == Course(c.s, c.ticks, [], []);
    }
  }

  /**
   The proxy from the start of the worker to its own end. Whatever the worker, the pipes and
   the clock do, it starts exactly when the machine does, and every client it has served got
   the worker's answer to that very request, as in a run of the machine.
   */
  method RunProxy(u: Setup, remote: RemoteProcess, turns: seq<Turn>, startup: nat, start: int, idle: int, patience: nat,
                  world: seq<Tick>)
    returns (started: bool, served: seq<string>, replies: seq<string>, failed: bool)
    requires Sane(u) && remote.open
    requires var found := Session(u, world, ToServe(turns, start, idle), startup, patience);
      remote.polls == Started(u, world, startup).polls + found.polls && remote.writes == found.writes
    modifies remote
    ensures started == Started(u, world, startup).s.mode.Idle?
    ensures OwnAnswers(u, [], served, replies)
    ensures started ==> exists steps :: Run(u, steps).dispatched == served && Run(u, steps).delivered == replies
    ensures served <= ToServe(turns, start, idle) && (started && !failed ==> served == ToServe(turns, start, idle))
  {
    hide Run, Served, Arrivals, ServeAll, TakeReady, Exchange, Leads, Inv, Sane, ReadyWithin, ClientView, AnswerTo;
    ghost var all := ToServe(turns, start, idle);
    ghost var c := Started(u, world, startup);
    ghost var found := Session(u, world, all, startup, patience);
    AfterStartup(u, world, startup);
    SessionFoundLater(u, world, all, startup, patience);
    ReadyIsMachineRun(u, Initial(u), world, startup, found.polls);
    started := remote.WaitReady(startup);
    if !started {
      return false, [], [], true;
    }
    served, replies, failed := EventLoop(u, remote, turns, start, idle, patience);
    ServedAreAnswered(u, c.s, c.ticks, all, patience, served, replies);
    RunOfSession(u, c.s, served, replies);
  }

  lemma RunOfSession(u: Setup, s: State, served: seq<string>, replies: seq<string>)
    requires Leads(u, Initial(u), s) && s.dispatched == [] && s.delivered == [] && IsMachineRun(u, s, served, replies)
    ensures exists steps :: Run(u, steps).dispatched == served && Run(u, steps).delivered == replies
  {
    hide RunFrom, Initial;
    var t: State :| Leads(u, s, t) && t.dispatched == s.dispatched + served && t.delivered == s.delivered + replies;
    LeadsOn(u, Initial(u), s, t);
    var steps :| RunFrom(u, Initial(u), steps) == t;
    RunContinues(u, [], steps);
    assert Run(u, []) == Initial(u) && [] + steps == steps;
    assert [] + served == served && [] + replies == replies;
  }
}

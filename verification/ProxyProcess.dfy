/**
 The loops of the proxy and of the worker: reading a line under polling, sending a request
 and waiting for the response, waiting for the ready line, and the worker's request loop.
 Each is a function of what the calls to the system bring.
 */
module ProxyProcess {
  import opened CText
  import opened JsonText
  import opened JsonParsing
  import opened StatusRewrite
  import opened Framing
  import opened ProxyProtocol

  datatype LineResult = Line(text: string) | Overflow

  /** Reads a line off the polls; once they are used up the pipe stays quiet. */
  function LineFrom(partial: string, polls: seq<Poll>): (r: (LineResult, seq<Poll>))
    ensures |r.1| <= |polls|
    decreases |polls|
  {
    if polls == [] then (Line(partial), []) else
    match OnPoll(partial, polls[0])
    case More(p) => LineFrom(p, polls[1..])
    case Got(line) => (Line(line), polls[1..])
    case TooLong => (Overflow, polls[1..])
  }

  /** The exceptions of RemoteProcess.request. */
  datatype Failure = PipeClosed | WriteFailed | InvalidJson | TimedOut | ResponseTooLong

  datatype Outcome = Response(line: string) | Failure(reason: Failure)

  /** Waits for a response line; patience counts how often the deadline has not passed yet. */
  function ResponseFrom(polls: seq<Poll>, patience: nat): (Outcome, seq<Poll>)
    decreases patience
  {
    if patience == 0 then (Failure(TimedOut), polls) else
    var (r, rest) := LineFrom("", polls);
    if r.Overflow? then (Failure(ResponseTooLong), rest) else
    match Judge(r.text)
    case KeepWaiting => ResponseFrom(rest, patience - 1)
    case Abort => (Failure(InvalidJson), rest)
    case Deliver => (Response(r.text), rest)
  }

  /** What one write call does. */
  datatype Write = Wrote(n: nat) | WriteInterrupted | WriteError

  function Least(n: nat, m: nat): nat {
    if n <= m then n else m
  }

  /** Whether all of the data gets written, and the calls that are left. */
  function WriteFrom(data: string, writes: seq<Write>): (bool, seq<Write>)
    decreases |writes|
  {
    if data == "" then (true, writes) else
    if writes == [] then (false, []) else
    match writes[0]
    case WriteInterrupted => WriteFrom(data, writes[1..])
    case WriteError => (false, writes[1..])
    case Wrote(n) => if n == 0 then (false, writes[1..]) else WriteFrom(data[Least(n, |data|)..], writes[1..])
  }

  /** What becomes of one request, and the calls and polls that are left. */
  function RequestOutcome(request: string, writes: seq<Write>, polls: seq<Poll>, patience: nat): (Outcome, seq<Write>, seq<Poll>) {
    var (ok, calls) := WriteFrom(request + "\n", writes);
    if !ok then (Failure(WriteFailed), calls, polls) else
    var (r, rest) := ResponseFrom(polls, patience);
    (r, calls, rest)
  }

  class RemoteProcess {
    var open: bool          // both pipes are open
    var sent: string        // bytes written to the worker
    var writes: seq<Write>  // what the next write calls will do
    var polls: seq<Poll>    // what the next polls will bring
    var remotePid: Int64

    constructor (writes: seq<Write>, polls: seq<Poll>)
      ensures open && sent == "" && this.writes == writes && this.polls == polls && remotePid == 0
    {
      open, sent, remotePid := true, "", 0;
      this.writes, this.polls := writes, polls;
    }

    method ReadLine() returns (r: LineResult)
      modifies `polls
      ensures (r, polls) == LineFrom("", old(polls))
    {
      var result := "";
      while true
        invariant LineFrom(result, polls) == LineFrom("", old(polls))
        decreases |polls|
      {
        if polls == [] {
          return Line(result);
        }
        var poll := polls[0];
        polls := polls[1..];
        match poll
        case Interrupted =>
        case Quiet => return Line(result);
        case Byte(c) =>
          if c == '\n' {
            return Line(result);
          }
          if |result| >= MAX_RESPONSE {
            return Overflow;
          }
          result := result + [c];
      }
    }

    /** Writes all of data, in as many pieces as the calls take; false is the exception. */
    method WriteAll(data: string) returns (ok: bool)
      modifies `sent, `writes
      ensures (ok, writes) == WriteFrom(data, old(writes))
      ensures ok ==> sent == old(sent) + data
      ensures !ok ==> exists n :: 0 <= n < |data| && sent == old(sent) + data[..n]
    {
      var done := 0;
      ok := true;
      assert data[..0] == "" && old(sent) + "" == old(sent) && data[0..] == data;
      while done < |data|
        invariant 0 <= done <= |data| && sent == old(sent) + data[..done]
        invariant WriteFrom(data[done..], writes) == WriteFrom(data, old(writes))
        decreases |writes|, |data| - done
      {
        assert sent == old(sent) + data[..done];
        if writes == [] {
          return false;
        }
        var w := writes[0];
        writes := writes[1..];
        match w
        case WriteInterrupted =>
        case WriteError => return false;
        case Wrote(n) =>
          if n == 0 {
            return false;
          }
          var taken := if n <= |data| - done then n else |data| - done;
          sent := sent + data[done..done+taken];
          assert data[..done] + data[done..done+taken] == data[..done+taken];
          assert data[done..][taken..] == data[done+taken..];
          done := done + taken;
      }
      assert data[..done] == data;
    }

    method Request(request: string, patience: nat) returns (r: Outcome)
      modifies `sent, `writes, `polls
      ensures old(open) ==> (r, writes, polls) == RequestOutcome(request, old(writes), old(polls), patience)
      ensures old(open) && r != Failure(WriteFailed) ==> sent == old(sent) + request + "\n"
      ensures !old(open) ==> r == Failure(PipeClosed) && sent == old(sent) && writes == old(writes) && polls == old(polls)
    {
      hide LineFrom, Judge, Accepts, WriteFrom;
      if !open {
        return Failure(PipeClosed);
      }
      var ok := WriteAll(request + "\n");
      if !ok {
        return Failure(WriteFailed);
      }
      assert old(sent) + (request + "\n") == old(sent) + request + "\n";
      var left := patience;
      while left > 0
        invariant sent == old(sent) + request + "\n"
        invariant ResponseFrom(polls, left) == ResponseFrom(old(polls), patience)
        invariant (true, writes) == WriteFrom(request + "\n", old(writes))
      {
        var line := ReadLine();
        left := left - 1;
        if line.Overflow? {
          return Failure(ResponseTooLong);
        }
        match Judge(line.text)
        case KeepWaiting =>
        case Abort => return Failure(InvalidJson);
        case Deliver => return Response(line.text);
      }
      return Failure(TimedOut);
    }

    /** Skips what the job submission prints until the worker's ready line; false is the exception. */
    method WaitReady(patience: nat) returns (ready: bool)
      modifies `polls, `remotePid
      ensures ready == ReadyWithin(old(polls), patience).Some?
      ensures ready ==>
        var (line, rest) := ReadyWithin(old(polls), patience).value;
        polls == rest && remotePid == GetInt(ReadObject(line).maps, "pid", 0)
    {
      hide LineFrom, ReadObject;
      var left := patience;
      while left > 0
        invariant ReadyWithin(polls, left) == ReadyWithin(old(polls), patience)
      {
        var line := ReadLine();
        left := left - 1;
        if line.Overflow? {
          return false;
        }
        NotReadyWhenEmpty();
        if line.text == "" {
          continue;
        }
        var j := new JsonParser();
        var ok := j.Parse(line.text);
        var m := j.Stored();
        if ok && GetString(m, "type", "") == "ready" && GetString(m, "protocol", "") == "vwave-stdio-loop" {
          remotePid := GetInt(m, "pid", 0);
          return true;
        }
      }
      return false;
    }

    /** What run_proxy answers a client: None is the exception that ends the server. */
    method Dispatch(u: Setup, request: string, patience: nat) returns (r: Option<string>, stop: bool)
      requires open
      modifies `sent, `writes, `polls
      ensures var (answer, calls, rest) := RequestOutcome(request, old(writes), old(polls), patience);
        && r == (if answer.Response? then Some(ClientView(u, request, answer.line)) else None)
        && writes == calls && polls == rest
      ensures stop == (r.Some? && IsShutdown(request))
      ensures r.Some? ==> sent == old(sent) + request + "\n"
    {
      hide ReadObject, RequestOutcome, StatusAdded, PidReplaced;
      var parser := new JsonParser();
      var ok := parser.Parse(request);
      var command := if ok then GetString(parser.Stored(), "cmd", "") else "";
      assert command == CommandOf(request);
      var answer := Request(request, patience);
      if answer.Failure? {
        return None, false;
      }
      if command == "status" {
        var replaced := ReplacePid(answer.line, u.proxyPid);
        var view := AddStatusFields(replaced, u.jobId, u.jobName);
        return Some(view), false;
      }
      return Some(answer.line), command == "shutdown" || command == "stdio.quit";
    }
  }

  /** The ready line and what follows it, when it comes in time. */
  function ReadyWithin(polls: seq<Poll>, patience: nat): Option<(string, seq<Poll>)>
    decreases patience
  {
    if patience == 0 then None else
    var (r, rest) := LineFrom("", polls);
    if r.Overflow? then None
    else if IsReady(r.text) then Some((r.text, rest))
    else ReadyWithin(rest, patience - 1)
  }

  lemma NotReadyWhenEmpty()
    ensures !IsReady("")
  {
  }

  // ------------------------------------------------------------- the worker's loop

  /** The lines of a text: what std::getline returns one after the other. */
  function LinesOf(input: string): seq<string>
    decreases |input|
  {
    if input == "" then [] else
    var n := FirstLineEnd(input);
    if n == |input| then [input] else [input[..n]] + LinesOf(input[n+1..])
  }

  function FirstLineEnd(input: string): (n: nat)
    ensures n <= |input| && OneLine(input[..n]) && (n < |input| ==> input[n] == '\n')
  {
    if input == "" || input[0] == '\n' then 0 else
    var n := 1 + FirstLineEnd(input[1..]);
    assert input[..n] == [input[0]] + input[1..][..n-1];
    n
  }

  /** The requests the worker serves: non-empty lines up to and including a shutdown. */
  function Served(lines: seq<string>): seq<string> {
    if lines == [] then []
    else if lines[0] == "" then Served(lines[1..])
    else if IsShutdown(lines[0]) then [lines[0]]
    else [lines[0]] + Served(lines[1..])
  }

  /** One line of output for each request, each answered in the light of those before it. */
  function Transcript(u: Setup, requests: seq<string>): string {
    if requests == [] then ReadyText(u) + "\n"
    else Transcript(u, requests[..|requests|-1]) + AnswerTo(u, requests) + "\n"
  }

  /** The text behind the first line. */
  function AfterLine(rest: string): string {
    var n := FirstLineEnd(rest);
    if n == |rest| then "" else rest[n+1..]
  }

  lemma FirstOfLines(rest: string)
    requires rest != ""
    ensures LinesOf(rest) == [rest[..FirstLineEnd(rest)]] + LinesOf(AfterLine(rest))
  {
    hide FirstLineEnd;
    if FirstLineEnd(rest) == |rest| {
      assert rest[..|rest|] == rest && [rest] + [] == [rest];
    }
  }

  lemma ServedFirst(request: string, more: seq<string>)
    ensures Served([request] + more) ==
      if request == "" then Served(more) else if IsShutdown(request) then [request] else [request] + Served(more)
  {
    hide IsShutdown;
    assert ([request] + more)[1..] == more;
  }

  lemma ServedStep(rest: string)
    requires rest != ""
    ensures
      var request := rest[..FirstLineEnd(rest)];
      var more := Served(LinesOf(AfterLine(rest)));
      Served(LinesOf(rest)) == if request == "" then more else if IsShutdown(request) then [request] else [request] + more
  {
    hide FirstLineEnd, IsShutdown, LinesOf, Served;
    FirstOfLines(rest);
    ServedFirst(rest[..FirstLineEnd(rest)], LinesOf(AfterLine(rest)));
  }

  lemma TranscriptStep(u: Setup, heard: seq<string>, request: string)
    ensures Transcript(u, heard + [request]) == Transcript(u, heard) + AnswerTo(u, heard + [request]) + "\n"
  {
    assert (heard + [request])[..|heard|] == heard;
  }

  method RunStdioLoop(u: Setup, input: string) returns (output: string)
    ensures output == Transcript(u, Served(LinesOf(input)))
  {
    hide Transcript, Served, LinesOf, AnswerTo, IsShutdown;
    output := ReadyText(u) + "\n";
    assert output == Transcript(u, []) by { NothingServed(u); }
    var running := true;
    var rest := input;
    var heard := [];
    assert heard + Served(LinesOf(input)) == Served(LinesOf(input));
    while running && rest != ""
      invariant output == Transcript(u, heard)
      invariant Served(LinesOf(input)) == heard + (if running then Served(LinesOf(rest)) else [])
      decreases |rest|
    {
      ServedStep(rest);
      var request := rest[..FirstLineEnd(rest)];
      rest := AfterLine(rest);
      if request == "" {
        continue;
      }
      TranscriptStep(u, heard, request);
      assert heard + ([request] + Served(LinesOf(rest))) == heard + [request] + Served(LinesOf(rest));
      heard := heard + [request];
      output := output + AnswerTo(u, heard) + "\n";
      if IsShutdown(request) {
        running := false;
        assert heard + [] == heard;
      }
    }
    NothingServed(u);
    assert heard + [] == heard;
  }

  lemma NothingServed(u: Setup)
    ensures Transcript(u, []) == ReadyText(u) + "\n" && Served(LinesOf("")) == []
  {
  }

  // --------------------------------------------------------------------- one line, arriving whole

  /** The polls that bring a text byte by byte. */
  function Bytes(text: string): seq<Poll> {
    seq(|text|, i requires 0 <= i < |text| => Byte(text[i]))
  }

  lemma {:induction false} LineGrows(partial: string, text: string, more: seq<Poll>)
    requires OneLine(text) && |partial| + |text| <= 4194304
    ensures LineFrom(partial, Bytes(text) + more) == LineFrom(partial + text, more)
    decreases |text|
  {
    if text == "" {
      assert Bytes(text) + more == more && partial + text == partial;
    } else {
      var polls := Bytes(text) + more;
      assert polls[0] == Byte(text[0]) && polls[1..] == Bytes(text[1..]) + more;
      LineGrows(partial + [text[0]], text[1..], more);
      assert partial + [text[0]] + text[1..] == partial + text;
    }
  }

  /** A line of up to 4 MiB is taken when its end comes, and what follows is left; one byte more is refused. */
  lemma WholeLineTaken(text: string, c: char, more: seq<Poll>)
    requires OneLine(text) && |text| <= 4194304
    ensures LineFrom("", Bytes(text) + ([Byte('\n')] + more)) == (Line(text), more)
    ensures |text| == 4194304 && c != '\n' ==> LineFrom("", Bytes(text) + ([Byte(c)] + more)) == (Overflow, more)
  {
    LineGrows("", text, [Byte('\n')] + more);
    LineGrows("", text, [Byte(c)] + more);
    assert "" + text == text;
    assert ([Byte('\n')] + more)[1..] == more && ([Byte(c)] + more)[1..] == more;
  }

  /** A poll that finds nothing ends the line with what there is; an interrupted one does not count. */
  lemma PartialLineTaken(text: string, more: seq<Poll>)
    requires OneLine(text) && |text| <= 4194304
    ensures LineFrom("", Bytes(text) + ([Quiet] + more)) == (Line(text), more)
    ensures LineFrom("", Bytes(text) + ([Interrupted] + more)) == LineFrom(text, more)
  {
    LineGrows("", text, [Quiet] + more);
    LineGrows("", text, [Interrupted] + more);
    assert "" + text == text;
    assert ([Quiet] + more)[1..] == more && ([Interrupted] + more)[1..] == more;
  }
}

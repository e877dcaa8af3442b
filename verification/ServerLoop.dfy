/**
 The event loop of a server: one client at a time is accepted, its request line is read,
 dispatched and answered, until a shutdown request, a failure or a long idle time.
 */
module ServerLoop {
  import opened CText
  import opened Framing
  import opened ProxyProtocol
  import opened ProxyProcess

  const MAX_REQUEST: nat := 4 * 1024 * 1024

  // ----------------------------------------------------------------- reading a line

  /** What one recv call brings. */
  datatype Recv = Chunk(bytes: string) | RecvInterrupted | RecvEnd

  /** The line that is read on from what there is of it. */
  function ClientLine(line: string, recvs: seq<Recv>, maxLen: nat): string
    decreases |recvs|
  {
    if |line| >= maxLen || recvs == [] then line else
    match recvs[0]
    case RecvInterrupted => ClientLine(line, recvs[1..], maxLen)
    case RecvEnd => line
    case Chunk(bytes) =>
      if bytes == "" then line
      else if '\n' in bytes then line + bytes[..FirstLineEnd(bytes)]
      else ClientLine(line + bytes, recvs[1..], maxLen)
  }

  /** Everything a sequence of recv calls delivers before it ends. */
  function Received(recvs: seq<Recv>): string
    decreases |recvs|
  {
    if recvs == [] || recvs[0].RecvEnd? then ""
    else if recvs[0].Chunk? then
      if recvs[0].bytes == "" then "" else recvs[0].bytes + Received(recvs[1..])
    else Received(recvs[1..])
  }

  method ReadClientLine(recvs: seq<Recv>, maxLen: nat) returns (line: string)
    ensures line == ClientLine("", recvs, maxLen)
  {
    hide FirstLineEnd, ClientLine;
    line := "";
    var k := 0;
    assert recvs[0..] == recvs;
    while |line| < maxLen && k < |recvs|
      invariant 0 <= k <= |recvs|
      invariant ClientLine(line, recvs[k..], maxLen) == ClientLine("", recvs, maxLen)
    {
      ClientLineStep(line, recvs, k, maxLen);
      var r := recvs[k];
      k := k + 1;
      match r
      case RecvInterrupted =>
      case RecvEnd => return;
      case Chunk(bytes) =>
        if bytes == "" {
          return;
        }
        var piece, ended := UpToLineEnd(bytes);
        line := line + piece;
        if ended {
          return;
        }
    }
    ClientLineDone(line, recvs[k..], maxLen);
  }

  /** The inner loop over the bytes of one chunk. */
  method UpToLineEnd(bytes: string) returns (piece: string, ended: bool)
    ensures ended == ('\n' in bytes)
    ensures piece == if ended then bytes[..FirstLineEnd(bytes)] else bytes
  {
    piece := "";
    for i := 0 to |bytes|
      invariant piece == bytes[..i] && OneLine(piece)
    {
      if bytes[i] == '\n' {
        LineEndIs(bytes, i);
        return piece, true;
      }
      piece := piece + [bytes[i]];
    }
    return piece, false;
  }

  lemma LineEndIs(bytes: string, i: nat)
    requires i < |bytes| && bytes[i] == '\n' && OneLine(bytes[..i])
    ensures FirstLineEnd(bytes) == i
  {
    var n := FirstLineEnd(bytes);
    assert forall k :: 0 <= k < n ==> bytes[..n][k] == bytes[k];
    assert forall k :: 0 <= k < i ==> bytes[..i][k] == bytes[k];
  }

  lemma ClientLineStep(line: string, recvs: seq<Recv>, k: nat, maxLen: nat)
    requires |line| < maxLen && k < |recvs|
    ensures ClientLine(line, recvs[k..], maxLen) ==
      match recvs[k]
      case RecvInterrupted => ClientLine(line, recvs[k+1..], maxLen)
      case RecvEnd => line
      case Chunk(bytes) =>
        if bytes == "" then line
        else if '\n' in bytes then line + bytes[..FirstLineEnd(bytes)]
        else ClientLine(line + bytes, recvs[k+1..], maxLen)
  {
    hide FirstLineEnd;
    assert recvs[k..][1..] == recvs[k+1..];
  }

  lemma ClientLineDone(line: string, recvs: seq<Recv>, maxLen: nat)
    requires |line| >= maxLen || recvs == []
    ensures ClientLine(line, recvs, maxLen) == line
  {
  }

  /**
   However the bytes are chunked, the reader returns one line: everything up to the first
   line end, or all there is when the stream ends first or the cap is reached.
   */
  lemma {:induction false} ReadsOneLine(line: string, recvs: seq<Recv>, maxLen: nat)
    requires OneLine(line)
    ensures
      var r := ClientLine(line, recvs, maxLen);
      var all := line + Received(recvs);
      && OneLine(r) && r <= all
      && (r == all || all[|r|] == '\n' || |r| >= maxLen)
    decreases |recvs|
  {
    hide FirstLineEnd, ClientLine, Received;
    if |line| >= maxLen || recvs == [] {
      ClientLineDone(line, recvs, maxLen);
      ReceivedStep(recvs);
    } else {
      assert recvs[0..] == recvs;
      ClientLineStep(line, recvs, 0, maxLen);
      ReceivedStep(recvs);
      match recvs[0]
      case RecvEnd =>
      case RecvInterrupted => ReadsOneLine(line, recvs[1..], maxLen);
      case Chunk(bytes) =>
        if bytes != "" {
          var more := Received(recvs[1..]);
          assert line + (bytes + more) == line + bytes + more;
          if '\n' in bytes {
            var n := FirstLineEnd(bytes);
            LineEndInside(bytes);
            assert (line + bytes + more)[..|line| + n] == line + bytes[..n];
          } else {
            ReadsOneLine(line + bytes, recvs[1..], maxLen);
          }
        }
    }
  }

  lemma LineEndInside(bytes: string)
    requires '\n' in bytes
    ensures FirstLineEnd(bytes) < |bytes| && bytes[FirstLineEnd(bytes)] == '\n' && OneLine(bytes[..FirstLineEnd(bytes)])
  {
    var i :| 0 <= i < |bytes| && bytes[i] == '\n';
    var n := FirstLineEnd(bytes);
    assert forall k :: 0 <= k < n ==> bytes[..n][k] == bytes[k];
  }

  lemma ReceivedStep(recvs: seq<Recv>)
    ensures Received(recvs) ==
      if recvs == [] || recvs[0].RecvEnd? then ""
      else if recvs[0].Chunk? then
        if recvs[0].bytes == "" then "" else recvs[0].bytes + Received(recvs[1..])
      else Received(recvs[1..])
  {
  }

  // ------------------------------------------------------------------ sending a line

  /** What one send call does. */
  datatype Send = Sent(n: nat) | SendInterrupted | SendError

  /** Whether all of the data goes out, and what does; an error ends the sending. */
  function SendFrom(data: string, sends: seq<Send>): (bool, string)
    decreases |sends|
  {
    if data == "" then (true, "") else
    if sends == [] then (false, "") else
    match sends[0]
    case SendInterrupted => SendFrom(data, sends[1..])
    case SendError => (false, "")
    case Sent(n) =>
      var taken := Least(n, |data|);
      var (ok, more) := SendFrom(data[taken..], sends[1..]);
      (ok, data[..taken] + more)
  }

  /** Sends the message and a line end, in as many pieces as the calls take. */
  method SendLine(msg: string, sends: seq<Send>) returns (ok: bool, wire: string)
    ensures (ok, wire) == SendFrom(msg + "\n", sends)
    ensures wire <= msg + "\n" && (ok ==> wire == msg + "\n")
  {
    hide SendFrom;
    var data := msg + "\n";
    var sent := 0;
    wire := "";
    assert data[0..] == data && sends[0..] == sends;
    ghost var all := SendFrom(data, sends);
    assert "" + all.1 == all.1 && all == (all.0, all.1);
    for i := 0 to |sends|
      invariant 0 <= sent < |data| && wire == data[..sent]
      invariant all == (SendFrom(data[sent..], sends[i..]).0, wire + SendFrom(data[sent..], sends[i..]).1)
    {
      SendStep(data[sent..], sends, i);
      match sends[i]
      case SendInterrupted =>
      case SendError =>
        assert wire + "" == wire;
        return false, wire;
      case Sent(n) =>
        var taken := if n <= |data| - sent then n else |data| - sent;
        assert data[..sent] + data[sent..sent+taken] == data[..sent+taken];
        assert data[sent..][..taken] == data[sent..sent+taken] && data[sent..][taken..] == data[sent+taken..];
        SentSoFar(wire, data[sent..sent+taken], SendFrom(data[sent+taken..], sends[i+1..]).1);
        wire := wire + data[sent..sent+taken];
        sent := sent + taken;
        if sent == |data| {
          assert data[..sent] == data && data[sent..] == "";
          AllSent(sends[i+1..]);
          assert wire + "" == wire;
          return true, wire;
        }
    }
    NothingToSend(data[sent..]);
    assert sends[|sends|..] == [] && data[sent..] != "";
    assert wire + "" == wire;
    return false, wire;
  }

  lemma SendStep(data: string, sends: seq<Send>, i: nat)
    requires data != "" && i < |sends|
    ensures sends[i].SendInterrupted? ==> SendFrom(data, sends[i..]) == SendFrom(data, sends[i+1..])
    ensures sends[i].SendError? ==> SendFrom(data, sends[i..]) == (false, "")
    ensures sends[i].Sent? ==>
      var taken := Least(sends[i].n, |data|);
      var r := SendFrom(data[taken..], sends[i+1..]);
      SendFrom(data, sends[i..]) == (r.0, data[..taken] + r.1)
  {
    assert sends[i..][1..] == sends[i+1..];
  }

  lemma SentSoFar(wire: string, piece: string, more: string)
    ensures wire + (piece + more) == wire + piece + more
  {
  }

  lemma AllSent(sends: seq<Send>)
    ensures SendFrom("", sends) == (true, "")
  {
  }

  lemma NothingToSend(data: string)
    ensures data != "" ==> SendFrom(data, []) == (false, "")
  {
  }

  // ------------------------------------------------------------------ the event loop

  /** One turn of the loop: whether a signal has come, the time, and what select and accept bring. */
  datatype Turn = Turn(signalled: bool, now: int, wake: Wake)

  datatype Wake =
    | SelectFailed
    | NobodyCame                           // a timeout, a signal, or a failed accept
    | Client(recvs: seq<Recv>, read: int)  // a client, and the time when its request has been read

  predicate IdleTooLong(now: int, last: int, idle: int) {
    idle > 0 && now - last >= idle
  }

  /** The requests that arrive while the loop turns, if nothing else ends it. */
  function Arrivals(turns: seq<Turn>, last: int, idle: int): seq<string>
    decreases |turns|
  {
    if turns == [] || turns[0].signalled || IdleTooLong(turns[0].now, last, idle) then [] else
    match turns[0].wake
    case SelectFailed => []
    case NobodyCame => Arrivals(turns[1..], last, idle)
    case Client(recvs, read) =>
      var request := ClientLine("", recvs, MAX_REQUEST);
      if request == "" then Arrivals(turns[1..], last, idle) else [request] + Arrivals(turns[1..], read, idle)
  }

  /** What the worker is sent for a list of requests. */
  function Lines(requests: seq<string>): string {
    if requests == [] then "" else Lines(requests[..|requests|-1]) + requests[|requests|-1] + "\n"
  }

  datatype Exchanged = Exchanged(replies: seq<string>, writes: seq<Write>, polls: seq<Poll>)

  /** The answers to the requests, one request after the other, and the calls and polls left; None when one fails. */
  function Exchange(u: Setup, writes: seq<Write>, polls: seq<Poll>, requests: seq<string>, patience: nat): Option<Exchanged> {
    if requests == [] then Some(Exchanged([], writes, polls)) else
    var n := |requests| - 1;
    match Exchange(u, writes, polls, requests[..n], patience)
    case None => None
    case Some(e) =>
      var (answer, calls, rest) := RequestOutcome(requests[n], e.writes, e.polls, patience);
      if answer.Failure? then None
      else Some(Exchanged(e.replies + [ClientView(u, requests[n], answer.line)], calls, rest))
  }

  /** What has been served when the loop has turned that often. */
  function StillToServe(running: bool, turns: seq<Turn>, last: int, idle: int): seq<string> {
    if running then Served(Arrivals(turns, last, idle)) else []
  }

  /**
   The loop serves the requests in the order in which they arrive, one at a time, none after
   a shutdown, a signal or a long idle time. The worker is sent exactly these, and the answers
   are what its output brings one after the other. A request that fails ends the loop.
   */
  method EventLoop(u: Setup, remote: RemoteProcess, turns: seq<Turn>, start: int, idle: int, patience: nat)
    returns (served: seq<string>, replies: seq<string>, failed: bool)
    requires remote.open
    modifies remote`sent, remote`writes, remote`polls
    ensures var all := Served(Arrivals(turns, start, idle));
      && served <= all
      && (if failed then
            && served < all
            && Exchange(u, old(remote.writes), old(remote.polls), all[..|served|+1], patience).None?
          else served == all)
    ensures var e := Exchange(u, old(remote.writes), old(remote.polls), served, patience); e.Some? && e.value.replies == replies
    ensures !failed ==> remote.sent == old(remote.sent) + Lines(served)
  {
    hide Served, Arrivals, Exchange, RequestOutcome, ClientView, IsShutdown, ClientLine, Lines;
    ghost var all := Served(Arrivals(turns, start, idle));
    var lastActivity, running, k := start, true, 0;
    served, replies, failed := [], [], false;
    NothingYet(u, remote.writes, remote.polls, patience);
    assert turns[0..] == turns && [] + all == all;
    assert remote.sent + "" == remote.sent;
    while running && k < |turns|
      invariant 0 <= k <= |turns|
      invariant served + StillToServe(running, turns[k..], lastActivity, idle) == all
      invariant Exchange(u, old(remote.writes), old(remote.polls), served, patience)
        == Some(Exchanged(replies, remote.writes, remote.polls))
      invariant remote.sent == old(remote.sent) + Lines(served)
      decreases |turns| - k
    {
      ArrivalsStep(turns, k, lastActivity, idle);
      var turn := turns[k];
      k := k + 1;
      if turn.signalled || IdleTooLong(turn.now, lastActivity, idle) {
        running := false;
        continue;
      }
      match turn.wake
      case SelectFailed => running := false;
      case NobodyCame =>
      case Client(recvs, read) =>
        var request := ReadClientLine(recvs, MAX_REQUEST);
        if request == "" {
          continue;
        }
        lastActivity := read;
        ServedFirst(request, Arrivals(turns[k..], lastActivity, idle));
        ExchangeStep(u, old(remote.writes), old(remote.polls), served, request, patience);
        AppendRequest(served, request, Served([request] + Arrivals(turns[k..], lastActivity, idle)), all);
        ghost var outcome := RequestOutcome(request, remote.writes, remote.polls, patience);
        var response, stop := remote.Dispatch(u, request, patience);
        assert response.Some? <==> outcome.0.Response?;
        if response.None? {
          return served, replies, true;
        }
        LinesStep(old(remote.sent), served, request);
        served, replies := served + [request], replies + [response.value];
        running := !stop;
    }
    NoTurns(turns[k..], lastActivity, idle);
    assert served + [] == served;
  }

  lemma NothingYet(u: Setup, writes: seq<Write>, polls: seq<Poll>, patience: nat)
    ensures Exchange(u, writes, polls, [], patience) == Some(Exchanged([], writes, polls)) && Lines([]) == ""
  {
  }

  lemma NoTurns(turns: seq<Turn>, last: int, idle: int)
    ensures turns == [] ==> Served(Arrivals(turns, last, idle)) == []
  {
  }

  lemma ArrivalsStep(turns: seq<Turn>, k: nat, last: int, idle: int)
    requires k < |turns|
    ensures Served([]) == []
    ensures Arrivals(turns[k..], last, idle) ==
      if turns[k].signalled || IdleTooLong(turns[k].now, last, idle) then [] else
      match turns[k].wake
      case SelectFailed => []
      case NobodyCame => Arrivals(turns[k+1..], last, idle)
      case Client(recvs, read) =>
        var request := ClientLine("", recvs, MAX_REQUEST);
        if request == "" then Arrivals(turns[k+1..], last, idle) else [request] + Arrivals(turns[k+1..], read, idle)
  {
    hide ClientLine;
    assert turns[k..][1..] == turns[k+1..];
  }

  lemma ExchangeStep(u: Setup, writes: seq<Write>, polls: seq<Poll>, served: seq<string>, request: string, patience: nat)
    requires Exchange(u, writes, polls, served, patience).Some?
    ensures
      var e := Exchange(u, writes, polls, served, patience).value;
      var (answer, calls, rest) := RequestOutcome(request, e.writes, e.polls, patience);
      Exchange(u, writes, polls, served + [request], patience) ==
        if answer.Failure? then None
        else Some(Exchanged(e.replies + [ClientView(u, request, answer.line)], calls, rest))
  {
    hide RequestOutcome, ClientView;
    assert (served + [request])[..|served|] == served;
  }

  lemma LinesStep(before: string, served: seq<string>, request: string)
    ensures before + Lines(served) + request + "\n" == before + Lines(served + [request])
  {
    assert (served + [request])[..|served|] == served;
    assert before + (Lines(served) + request + "\n") == before + Lines(served) + request + "\n";
  }

  lemma AppendRequest(served: seq<string>, request: string, still: seq<string>, all: seq<string>)
    requires all == served + still && still != [] && still[0] == request
    ensures all == served + [request] + still[1..] && served + [request] + [] == served + [request]
    ensures served < all && all[..|served|+1] == served + [request]
  {
    assert still == [request] + still[1..];
  }

  // ------------------------------------------------------------------------- idle time

  /** The request lines of all clients. */
  function AllRequests(turns: seq<Turn>): seq<string>
    decreases |turns|
  {
    if turns == [] then []
    else if turns[0].wake.Client? && ClientLine("", turns[0].wake.recvs, MAX_REQUEST) != "" then
      [ClientLine("", turns[0].wake.recvs, MAX_REQUEST)] + AllRequests(turns[1..])
    else AllRequests(turns[1..])
  }

  /** No signal, no failing select, and every turn begins less than the idle time after the last request was read. */
  predicate InTime(turns: seq<Turn>, last: int, idle: int)
    decreases |turns|
  {
    turns == [] ||
    (&& !turns[0].signalled && !turns[0].wake.SelectFailed? && (idle <= 0 || turns[0].now < last + idle)
     && InTime(turns[1..],
          if turns[0].wake.Client? && ClientLine("", turns[0].wake.recvs, MAX_REQUEST) != "" then turns[0].wake.read else last,
          idle))
  }

  /** While turns are in time every request arrives. */
  lemma {:induction false} AllArriveInTime(turns: seq<Turn>, last: int, idle: int)
    requires InTime(turns, last, idle)
    ensures Arrivals(turns, last, idle) == AllRequests(turns)
    decreases |turns|
  {
    hide ClientLine;
    if turns != [] {
      AllArriveInTime(turns[1..],
        if turns[0].wake.Client? && ClientLine("", turns[0].wake.recvs, MAX_REQUEST) != "" then turns[0].wake.read else last,
        idle);
    }
  }

  /** Turns in time followed by one that is not bring nothing more. */
  lemma {:induction false} NothingArrivesLate(turns: seq<Turn>, late: Turn, more: seq<Turn>, last: int, idle: int)
    requires InTime(turns, last, idle)
    requires !InTime(turns + [late], last, idle)
    ensures Arrivals(turns + [late] + more, last, idle) == AllRequests(turns)
    decreases |turns|
  {
    hide ClientLine;
    var all := turns + [late] + more;
    if turns == [] {
      assert all[0] == late && (turns + [late])[0] == late && (turns + [late])[1..] == [];
    } else {
      assert all[0] == turns[0] && all[1..] == turns[1..] + [late] + more;
      assert (turns + [late])[0] == turns[0] && (turns + [late])[1..] == turns[1..] + [late];
      NothingArrivesLate(turns[1..], late, more,
        if turns[0].wake.Client? && ClientLine("", turns[0].wake.recvs, MAX_REQUEST) != "" then turns[0].wake.read else last,
        idle);
    }
  }

  /** A request is the whole line a client sends, unless that is longer than 4 MiB. */
  lemma RequestIsLine(recvs: seq<Recv>)
    ensures var r, all := ClientLine("", recvs, MAX_REQUEST), Received(recvs);
      OneLine(r) && r <= all && (r == all || all[|r|] == '\n' || |r| >= 4194304)
  {
    hide ClientLine, Received;
    ReadsOneLine("", recvs, MAX_REQUEST);
    assert "" + Received(recvs) == Received(recvs);
  }
}

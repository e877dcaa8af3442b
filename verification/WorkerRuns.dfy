/**
 The worker's request loop and the machine of module ProxyProtocol: in every run the worker
 has produced what its loop prints for the lines it has read, and nothing of it is lost on
 the way to the proxy.
 */
module WorkerRuns {
  import opened Framing
  import opened ProxyProtocol
  import opened ProxyProcess

  /** The bytes the worker has read in a run. */
  function BytesRead(u: Setup, steps: seq<Step>): string {
    if steps == [] then "" else
    var front, step := steps[..|steps|-1], steps[|steps|-1];
    var s := Run(u, front);
    BytesRead(u, front) + (if Enabled(s, step) && step.WorkerReads? then [s.toWorker[0]] else "")
  }

  /** The bytes the proxy has taken out of the response pipe in a run. */
  function BytesTaken(u: Setup, steps: seq<Step>): string {
    if steps == [] then "" else
    var front, step := steps[..|steps|-1], steps[|steps|-1];
    BytesTaken(u, front) + (if Enabled(Run(u, front), step) then TakenBy(step) else "")
  }

  /** Whole lines. */
  predicate Ended(text: string) {
    text == "" || text[|text|-1] == '\n'
  }

  // --------------------------------------------------------------- one line more

  lemma LineEndAt(text: string, n: nat)
    requires n < |text| && text[n] == '\n' && OneLine(text[..n])
    ensures FirstLineEnd(text) == n
  {
    var m := FirstLineEnd(text);
    assert forall k :: 0 <= k < m ==> text[..m][k] == text[k];
    assert forall k :: 0 <= k < n ==> text[..n][k] == text[k];
  }

  lemma LineEndExists(text: string)
    requires text != "" && Ended(text)
    ensures var n := FirstLineEnd(text);
      n < |text| && text[n] == '\n' && OneLine(text[..n]) && Ended(text[n+1..]) && AfterLine(text) == text[n+1..]
  {
    var n := FirstLineEnd(text);
    assert text[..|text|] == text;
  }

  lemma {:induction false} LinesSnoc(done: string, line: string)
    requires Ended(done) && OneLine(line)
    ensures LinesOf(done + line + "\n") == LinesOf(done) + [line]
    decreases |done|
  {
    hide FirstLineEnd, OneLine, LinesOf;
    var all := done + line + "\n";
    FirstOfLines(all);
    if done == "" {
      assert all[..|line|] == line && all[|line|+1..] == "";
      LineEndAt(all, |line|);
      NoLines();
      assert LinesOf("") + [line] == [line] && [line] + LinesOf("") == [line];
    } else {
      LineEndExists(done);
      var n := FirstLineEnd(done);
      assert all[..n] == done[..n] && all[n+1..] == done[n+1..] + line + "\n";
      LineEndAt(all, n);
      FirstOfLines(done);
      LinesSnoc(done[n+1..], line);
      assert [done[..n]] + (LinesOf(done[n+1..]) + [line]) == [done[..n]] + LinesOf(done[n+1..]) + [line];
    }
  }

  lemma NoLines()
    ensures LinesOf("") == [] && Served([]) == []
  {
  }

  /** No request so far was a shutdown. */
  predicate NoShutdown(requests: seq<string>) {
    forall k :: 0 <= k < |requests| ==> !IsShutdown(requests[k])
  }

  lemma {:induction false} ServedSnoc(lines: seq<string>, line: string)
    requires NoShutdown(Served(lines))
    ensures Served(lines + [line]) == Served(lines) + (if line == "" then [] else [line])
    decreases |lines|
  {
    hide IsShutdown, Served;
    if lines == [] {
      assert lines + [line] == [line] + [];
      ServedFirst(line, []);
      NoLines();
    } else {
      var first, more := lines[0], lines[1..];
      assert lines == [first] + more && lines + [line] == [first] + (more + [line]);
      ServedFirst(first, more);
      ServedFirst(first, more + [line]);
      var head := if Served(lines) == [] then "" else Served(lines)[0];
      if first != "" && IsShutdown(first) {
        assert false;
      } else {
        assert forall k :: 0 <= k < |Served(more)| ==> Served(more)[k] in Served(lines);
        ServedSnoc(more, line);
      }
    }
  }

  // ------------------------------------------------------------------ every run

  /** The worker has served the whole lines of its input, and the output is what its loop prints. */
  predicate InLoop(u: Setup, s: State, done: string, taken: string) {
    && Ended(done) && OneLine(s.lineSoFar)
    && s.heard == Served(LinesOf(done))
    && (s.listening ==> NoShutdown(s.heard))
    && taken + s.toProxy + s.unwritten == u.banner + Transcript(u, s.heard)
  }

  lemma WorkerReadsInLoop(u: Setup, s: State, done: string, taken: string)
    requires InLoop(u, s, done, taken) && Enabled(s, WorkerReads)
    ensures var c, t := s.toWorker[0], Apply(u, s, WorkerReads);
      InLoop(u, t, if c == '\n' then done + s.lineSoFar + "\n" else done, taken)
  {
    hide Transcript, Served, LinesOf, AnswerTo, IsShutdown, NoShutdown;
    var c, line := s.toWorker[0], s.lineSoFar;
    if c == '\n' {
      LinesSnoc(done, line);
      ServedSnoc(LinesOf(done), line);
      if line != "" {
        TranscriptStep(u, s.heard, line);
        var answer := AnswerTo(u, s.heard + [line]) + "\n";
        assert s.unwritten + AnswerTo(u, s.heard + [line]) + "\n" == s.unwritten + answer;
        assert Transcript(u, s.heard + [line]) == Transcript(u, s.heard) + answer;
        BehindBoth(taken + s.toProxy, s.unwritten, u.banner, Transcript(u, s.heard), answer);
        HeardOneMore(s.heard, line);
      } else {
        assert s.heard + [] == s.heard;
      }
    }
  }

  lemma HeardOneMore(heard: seq<string>, line: string)
    ensures NoShutdown(heard) && !IsShutdown(line) ==> NoShutdown(heard + [line])
  {
    hide IsShutdown;
  }

  lemma BehindBoth(a: string, b: string, x: string, y: string, more: string)
    requires a + b == x + y
    ensures a + (b + more) == x + (y + more)
  {
    assert a + (b + more) == a + b + more;
  }

  /** The bytes a step takes out of the response pipe. */
  function TakenBy(step: Step): string {
    if step.Answers? && step.poll.Byte? then [step.poll.c] else ""
  }

  /** Any step but the worker's reading only moves output on. */
  lemma OutputMoves(u: Setup, s: State, step: Step)
    requires Enabled(s, step) && !step.WorkerReads?
    ensures var t := Apply(u, s, step);
      && t.heard == s.heard && t.lineSoFar == s.lineSoFar && t.listening == s.listening
      && TakenBy(step) + t.toProxy + t.unwritten == s.toProxy + s.unwritten
  {
    hide IsReady, Judge, IsShutdown, ClientView;
    if step.WorkerWrites? {
      assert s.unwritten == s.unwritten[..step.n] + s.unwritten[step.n..];
    }
    if step.Answers? && step.poll.Byte? {
      assert s.toProxy == [step.poll.c] + s.toProxy[1..];
      PollTakes(u, s, step.poll.c);
    } else {
      assert "" + s.toProxy + s.unwritten == s.toProxy + s.unwritten;
    }
  }

  lemma PollTakes(u: Setup, s: State, c: char)
    requires Enabled(s, Answers(Byte(c)))
    ensures var t := Apply(u, s, Answers(Byte(c)));
      && t.toProxy == s.toProxy[1..] && t.unwritten == s.unwritten
      && t.heard == s.heard && t.lineSoFar == s.lineSoFar && t.listening == s.listening
  {
    hide IsReady, Judge, IsShutdown, ClientView, OnPoll;
  }

  lemma OtherStepInLoop(u: Setup, s: State, step: Step, done: string, taken: string)
    requires InLoop(u, s, done, taken) && Enabled(s, step) && !step.WorkerReads?
    ensures InLoop(u, Apply(u, s, step), done, taken + TakenBy(step))
  {
    hide Transcript, Served, LinesOf, NoShutdown, OneLine, Apply, Enabled;
    OutputMoves(u, s, step);
    var t := Apply(u, s, step);
    assert taken + TakenBy(step) + t.toProxy + t.unwritten == taken + (TakenBy(step) + t.toProxy + t.unwritten);
    assert taken + s.toProxy + s.unwritten == taken + (s.toProxy + s.unwritten);
  }

  /** What the worker has read, without the line it is reading. */
  function WholeLines(u: Setup, steps: seq<Step>): string {
    var n := |Run(u, steps).lineSoFar|;
    if n <= |BytesRead(u, steps)| then BytesRead(u, steps)[..|BytesRead(u, steps)| - n] else ""
  }

  /**
   In every run, what the proxy has taken, what is in the pipe and what the worker still has to
   write make up the submission's banner and what the worker's loop prints for the whole lines
   it has read; these are the lines it has served, up to a shutdown.
   */
  lemma {:induction false} WorkerRunsItsLoop(u: Setup, steps: seq<Step>)
    ensures
      var s, lines := Run(u, steps), WholeLines(u, steps);
      && BytesRead(u, steps) == lines + s.lineSoFar && Ended(lines) && OneLine(s.lineSoFar)
      && s.heard == Served(LinesOf(lines))
      && BytesTaken(u, steps) + s.toProxy + s.unwritten == u.banner + Transcript(u, Served(LinesOf(lines)))
    ensures InLoop(u, Run(u, steps), WholeLines(u, steps), BytesTaken(u, steps))
    decreases |steps|
  {
    hide Apply, Enabled, Transcript, Served, LinesOf, OneLine, Initial, NoShutdown;
    if steps == [] {
      StartsInLoop(u);
    } else {
      var front, step := steps[..|steps|-1], steps[|steps|-1];
      var s := Run(u, front);
      WorkerRunsItsLoop(u, front);
      if Enabled(s, step) {
        if step.WorkerReads? {
          ReadOneByte(u, s, WholeLines(u, front));
          WorkerReadsInLoop(u, s, WholeLines(u, front), BytesTaken(u, front));
        } else {
          OtherStepInLoop(u, s, step, WholeLines(u, front), BytesTaken(u, front));
          OutputMoves(u, s, step);
        }
      }
      NothingMore(BytesRead(u, front), BytesTaken(u, front), WholeLines(u, front), Run(u, steps).lineSoFar);
    }
  }

  lemma NothingMore(read: string, taken: string, lines: string, line: string)
    ensures read + "" == read && taken + "" == taken
    ensures (lines + line)[..|lines + line| - |line|] == lines
  {
  }

  lemma StartsInLoop(u: Setup)
    ensures InLoop(u, Initial(u), "", "") && Initial(u).lineSoFar == ""
  {
    hide ReadyText;
    NoLines();
    assert Transcript(u, []) == ReadyText(u) + "\n";
    assert "" + "" + (u.banner + ReadyText(u) + "\n") == u.banner + (ReadyText(u) + "\n");
  }

  lemma ReadOneByte(u: Setup, s: State, lines: string)
    requires Enabled(s, WorkerReads)
    ensures var c, t := s.toWorker[0], Apply(u, s, WorkerReads);
      lines + s.lineSoFar + [c] == (if c == '\n' then lines + s.lineSoFar + "\n" else lines) + t.lineSoFar
  {
    hide AnswerTo, IsShutdown;
  }
}

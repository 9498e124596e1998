/** lib/str_cli.c composed with the channels and str_echo: the client writes a line, then waits for a
    line, and so on. */
module LockstepClient {
  import opened Bytes
  import opened Stdio
  import opened EchoNet
  import opened Runs

  /** Where str_cli is. `sent` is the string in sendline; `rest` what written has still to write of it,
      `line` what readline has stored. */
  datatype Phase = Fetching | Sending(sent: seq<Byte>, rest: seq<Byte>) | Receiving(sent: seq<Byte>, line: seq<Byte>)
                 | Done | Terminated

  /** `stdin` is the input that fgets has not returned yet; `unread` holds the bytes in readline's buffer. */
  datatype State = State(stdin: seq<Byte>, phase: Phase, net: Net, unread: seq<Byte>, stdout: seq<Byte>)

  /** `Interrupted` is a call on the socket that comes back with EINTR and is retried; fgets is not, so
      `FgetsFails` ends str_cli. */
  datatype Move = Fgets | FgetsFails | Write(k: nat) | Read(k: nat) | TakeByte | ReadEof | Interrupted
                | Serve(sm: ServerMove)

  /** A line at which readline stops without an end of file. */
  predicate EndsLine(line: seq<Byte>) {
    line != [] && (line[|line| - 1] == NEWLINE || |line| + 1 >= MAXLINE)
  }

  function Next(s: State, m: Move): Option<State> {
    match m
    case Fgets =>
      if !s.phase.Fetching? then None
      else if s.stdin == [] then Some(s.(phase := Done))
      else
        var sent := Cstr(Cut(s.stdin));
        Some(s.(stdin := AfterCut(s.stdin), phase := if sent == [] then Receiving(sent, []) else Sending(sent, sent)))
    case FgetsFails => if s.phase.Fetching? then Some(s.(phase := Done)) else None
    case Write(k) =>
      if !s.phase.Sending? || !(1 <= k <= |s.phase.rest|) || !CanSend(s.net, s.phase.rest[..k]) then None
      else Some(s.(net := Send(s.net, s.phase.rest[..k]),
                   phase := if k == |s.phase.rest| then Receiving(s.phase.sent, [])
                       else s.phase.(rest := s.phase.rest[k..])))
    case Read(k) =>
      if !s.phase.Receiving? || s.unread != [] || !(1 <= k <= |s.net.s2c|) || k > MAXLINE then None
      else Some(s.(net := Receive(s.net, k), unread := s.net.s2c[..k]))
    case TakeByte =>
      if !s.phase.Receiving? || s.unread == [] then None
      else
        var line, t := s.phase.line + [s.unread[0]], s.(unread := s.unread[1..]);
        Some(if EndsLine(line) then t.(stdout := s.stdout + Cstr(line), phase := Fetching)
             else t.(phase := s.phase.(line := line)))
    case ReadEof =>
      if !s.phase.Receiving? || s.unread != [] || !AtEof(s.net) then None
      else if s.phase.line == [] then Some(s.(phase := Terminated))
      else Some(s.(stdout := s.stdout + Cstr(s.phase.line), phase := Fetching))
    case Interrupted => Some(s)
    case Serve(sm) =>
      (match ServerNext(s.net, sm) case None => None case Some(n) => Some(s.(net := n)))
  }

  predicate Counts(m: Move) {
    !m.Interrupted? && m != Serve(SIntr)
  }

  ghost predicate Start(s: State) {
    && Valid(s.net) && InFlight(s.net) == [] && !s.net.fin && !s.net.server.Closed?
    && s.phase.Fetching? && s.unread == [] && s.stdout == []
  }

  /** The client waits for ever: it is not done, and nobody has a move left but to be interrupted. */
  ghost predicate Deadlock(s: State) {
    !s.phase.Done? && forall m :: Counts(m) ==> Next(s, m).None?
  }

  /** A string that str_cli sends: from one fgets, so at most one newline, at the end. */
  ghost predicate OneLine(sent: seq<Byte>) {
    NUL !in sent && |sent| < MAXLINE && forall i :: 0 <= i < |sent| - 1 ==> sent[i] != NEWLINE
  }

  /** What is printed, then the line under way, then what is still to be sent. */
  function AllBytes(s: State): seq<Byte> {
    s.stdout + ((if s.phase.Sending? || s.phase.Receiving? then s.phase.sent else []) + Wire(s.stdin))
  }

  ghost predicate Inv(s: State) {
    && Valid(s.net) && !s.net.fin
    && match s.phase
       case Fetching => s.unread == [] && InFlight(s.net) == []
       case Done => s.unread == [] && InFlight(s.net) == []
       case Sending(sent, rest) => s.unread == [] && rest != [] && InFlight(s.net) + rest == sent && OneLine(sent)
       case Receiving(sent, line) =>
         line + (s.unread + InFlight(s.net)) == sent && OneLine(sent) && NEWLINE !in line && |line| + 1 < MAXLINE
       case Terminated => false
  }

  function Measure(s: State): nat {
    9 * |s.stdin| + Weight(s.net) + 2 * |s.unread|
    + (match s.phase
       case Fetching => 1
       case Sending(_, rest) => 6 * |rest| + 2
       case Receiving(_, line) => |line| + 2
       case _ => 0)
  }

  lemma CutIsOneLine(input: seq<Byte>)
    requires input != []
    ensures OneLine(Cstr(Cut(input)))
  {
    CutShape(input, MAXLINE - 1);
  }

  ghost predicate Kept(s: State, m: Move, t: State) {
    Inv(t) && AllBytes(t) == AllBytes(s) && Measure(t) + (if Counts(m) then 1 else 0) <= Measure(s)
  }

  lemma FgetsKeeps(s: State)
    requires Inv(s) && Next(s, Fgets).Some?
    ensures Kept(s, Fgets, Next(s, Fgets).value)
  {
    if s.stdin != [] {
      CutProgress(s.stdin);
      CutIsOneLine(s.stdin);
      assert [] + Wire(s.stdin) == Wire(s.stdin);
    }
  }

  lemma WriteKeeps(s: State, k: nat)
    requires Inv(s) && Next(s, Write(k)).Some?
    ensures Kept(s, Write(k), Next(s, Write(k)).value)
  {
    var rest := s.phase.rest;
    SendKeeps(s.net, rest[..k]);
    assert rest == rest[..k] + rest[k..];
    assert (InFlight(s.net) + rest[..k]) + rest[k..] == InFlight(s.net) + rest;
    assert k == |rest| ==> rest[..k] == rest;
  }

  lemma ReadKeeps(s: State, k: nat)
    requires Inv(s) && Next(s, Read(k)).Some?
    ensures Kept(s, Read(k), Next(s, Read(k)).value)
  {
    ReceiveKeeps(s.net, k);
  }

  /** Where fgets cut, readline cuts: a line read back is the one just sent, whole. */
  lemma LineReadIsLineSent(s: State)
    requires Inv(s) && s.phase.Receiving? && s.unread != []
    ensures var line := s.phase.line + [s.unread[0]];
            && line + (s.unread[1..] + InFlight(s.net)) == s.phase.sent
            && (EndsLine(line) ==>
                  line == s.phase.sent && s.unread[1..] == [] && InFlight(s.net) == [] && Cstr(line) == line)
            && (!EndsLine(line) ==> NEWLINE !in line && |line| + 1 < MAXLINE)
  {
    var line := s.phase.line + [s.unread[0]];
    assert s.unread == [s.unread[0]] + s.unread[1..];
    assert line + (s.unread[1..] + InFlight(s.net)) == s.phase.sent;
    assert s.phase.sent[|line| - 1] == line[|line| - 1];
    if EndsLine(line) {
      assert |line| == |s.phase.sent|;
      assert line == s.phase.sent;
      CstrWhole(line);
    }
  }

  /** The line is complete: it is printed, and the next one can be fetched. */
  lemma LineDone(s: State)
    requires Inv(s) && s.phase.Receiving? && s.unread != [] && EndsLine(s.phase.line + [s.unread[0]])
    ensures Kept(s, TakeByte, Next(s, TakeByte).value)
  {
    LineReadIsLineSent(s);
    assert (s.stdout + s.phase.sent) + ([] + Wire(s.stdin)) == s.stdout + (s.phase.sent + Wire(s.stdin));
  }

  lemma LineGrows(s: State)
    requires Inv(s) && s.phase.Receiving? && s.unread != [] && !EndsLine(s.phase.line + [s.unread[0]])
    ensures Kept(s, TakeByte, Next(s, TakeByte).value)
  {
    LineReadIsLineSent(s);
  }

  lemma TakeByteKeeps(s: State)
    requires Inv(s) && Next(s, TakeByte).Some?
    ensures Kept(s, TakeByte, Next(s, TakeByte).value)
  {
    if EndsLine(s.phase.line + [s.unread[0]]) {
      LineDone(s);
    } else {
      LineGrows(s);
    }
  }

  lemma MoveKeeps(s: State, m: Move)
    requires Inv(s) && Next(s, m).Some?
    ensures Kept(s, m, Next(s, m).value)
  {
    match m {
      case Fgets => FgetsKeeps(s);
      case Write(k) => WriteKeeps(s, k);
      case Read(k) => ReadKeeps(s, k);
      case TakeByte => TakeByteKeeps(s);
      case FgetsFails =>
      case ReadEof =>
      case Interrupted =>
      case Serve(sm) => ServerKeeps(s.net, sm);
    }
  }

  ghost predicate Follows(start: State, s: State) {
    Inv(s) && AllBytes(s) == Wire(start.stdin) && s.net.up == start.net.up && s.net.down == start.net.down
  }

  lemma MoveFollows(start: State, s: State, m: Move)
    requires Follows(start, s) && Next(s, m).Some?
    ensures Follows(start, Next(s, m).value)
  {
    MoveKeeps(s, m);
    CapacitiesStay(s, m);
  }

  lemma CapacitiesStay(s: State, m: Move)
    requires Valid(s.net) && Next(s, m).Some?
    ensures Next(s, m).value.net.up == s.net.up && Next(s, m).value.net.down == s.net.down
  {
    if m.Serve? {
      ServerKeeps(s.net, m.sm);
    }
  }

  lemma RunFollows(start: State, moves: seq<Move>)
    requires Start(start) && Exec(Next, start, moves).Some?
    ensures Follows(start, Exec(Next, start, moves).value)
  {
    assert AllBytes(start) == [] + ([] + Wire(start.stdin)) == Wire(start.stdin);
    forall t, m | Follows(start, t) && Next(t, m).Some?
      ensures Follows(start, Next(t, m).value)
    {
      MoveFollows(start, t, m);
    }
    Invariant(Next, t => Follows(start, t), start, moves);
  }

  /** An fgets fails before the end of the input. */
  predicate FailsEarly(s: State, m: Move) {
    m.FgetsFails? && s.stdin != []
  }

  predicate CutShort(start: State, moves: seq<Move>) {
    Happens(Next, FailsEarly, start, moves)
  }

  predicate GaveUp(s: State) {
    s.phase.Done? && s.stdin != []
  }

  /** Each line printed is the line just sent, in every run: printed is always a prefix of what was to
      be sent, and all of it when str_cli is done and no fgets was interrupted before the input's end. The
      client never takes the server for terminated. */
  lemma PrintsWhatItSent(start: State, moves: seq<Move>)
    requires Start(start) && Exec(Next, start, moves).Some?
    ensures var s := Exec(Next, start, moves).value;
            && !s.phase.Terminated?
            && s.stdout <= Wire(start.stdin)
            && (s.phase.Done? ==> s.stdout + Wire(s.stdin) == Wire(start.stdin))
            && (s.phase.Done? ==> (s.stdin == [] <==> !CutShort(start, moves)))
  {
    RunFollows(start, moves);
    Tells(Next, FailsEarly, GaveUp, start, moves);
    PrintedSoFar(start, Exec(Next, start, moves).value);
  }

  lemma PrintedSoFar(start: State, s: State)
    requires Follows(start, s)
    ensures !s.phase.Terminated? && s.stdout <= Wire(start.stdin)
    ensures s.phase.Done? ==> s.stdout + Wire(s.stdin) == Wire(start.stdin)
  {
    assert AllBytes(s) == Wire(start.stdin);
    if s.phase.Done? {
      assert AllBytes(s) == s.stdout + Wire(s.stdin);
    }
  }

  // ------------------------------------------------------- when it cannot get stuck

  /** A cut that fgets makes is safe if readline can see its end in what is sent of it, and if the
      channels and one byte in the server can hold it. */
  predicate SafeCut(up: nat, down: nat, cut: seq<Byte>) {
    NUL !in cut && EndsLine(cut) && |cut| <= up + down + 1
  }

  predicate AllSafe(up: nat, down: nat, input: seq<Byte>)
    decreases |input|
  {
    input == [] || (CutProgress(input); SafeCut(up, down, Cut(input)) && AllSafe(up, down, AfterCut(input)))
  }

  /** The same condition on what has been sent instead of what was cut. */
  lemma SafeSent(up: nat, down: nat, input: seq<Byte>)
    requires input != []
    ensures var sent := Cstr(Cut(input)); SafeCut(up, down, Cut(input)) <==> EndsLine(sent) && |sent| <= up + down + 1
  {
    var cut := Cut(input);
    var sent := Cstr(cut);
    CutShape(input, MAXLINE - 1);
    CstrWhole(cut);
  }

  /** Everything from here on is safe. */
  ghost predicate SafeAhead(s: State) {
    && AllSafe(s.net.up, s.net.down, s.stdin)
    && (s.phase.Sending? || s.phase.Receiving? ==>
          EndsLine(s.phase.sent) && |s.phase.sent| <= s.net.up + s.net.down + 1)
  }

  /** A safe client always finds someone with a move. */
  lemma SafeIsNotStuck(s: State) returns (m: Move)
    requires Inv(s) && SafeAhead(s) && !s.phase.Done?
    ensures Counts(m) && Next(s, m).Some?
  {
    if s.phase.Fetching? {
      m := Fgets;
    } else if s.phase.Sending? && |s.net.c2s| < s.net.up {
      m := Write(1);
    } else if !ServerIdle(s.net) {
      m := Serve(ServerTurn(s.net));
    } else if s.phase.Sending? {
      assert false;   // both channels full and a byte in the server: longer than a safe line
    } else if s.unread != [] {
      m := TakeByte;
    } else if s.net.s2c != [] {
      m := Read(1);
    } else {
      assert false;   // the whole line is read, so readline has returned
    }
  }

  lemma MoveKeepsSafe(s: State, m: Move)
    requires Inv(s) && SafeAhead(s) && Next(s, m).Some?
    ensures SafeAhead(Next(s, m).value)
  {
    if m.Fgets? && s.stdin != [] {
      SafeSent(s.net.up, s.net.down, s.stdin);
    }
    if m.Serve? {
      ServerKeeps(s.net, m.sm);
    }
  }

  // --------------------------------------------------------------- when it can get stuck

  /** A run in which the server reads single bytes. */
  ghost predicate Slow(s: State) {
    && Inv(s) && |Unsent(s.net.server)| <= 1
    && (s.phase.Receiving? ==> |s.phase.sent| <= s.net.up + s.net.down + 1)
    && !GaveUp(s)
  }

  /** A move that leaves the run slow and its unsafe line ahead. */
  ghost predicate StaysSlow(s: State, t: State) {
    Slow(t) && (!SafeAhead(s) ==> !SafeAhead(t))
  }

  lemma SlowClientMove(s: State, m: Move)
    requires Slow(s) && (m.Fgets? || m.Write? || m.TakeByte?) && Next(s, m).Some?
    ensures StaysSlow(s, Next(s, m).value)
  {
    MoveKeeps(s, m);
    var t := Next(s, m).value;
    match m {
      case Fgets =>
        if s.stdin != [] {
          SafeSent(s.net.up, s.net.down, s.stdin);
        }
      case Write(k) =>
        assert t.phase.Receiving? ==> InFlight(t.net) == t.phase.sent;
      case TakeByte =>
        LineReadIsLineSent(s);
    }
  }

  lemma SlowServe(s: State, sm: ServerMove) returns (slow: ServerMove)
    requires Slow(s) && sm != SIntr && Next(s, Serve(sm)).Some?
    ensures slow != SIntr && Next(s, Serve(slow)).Some? && StaysSlow(s, Next(s, Serve(slow)).value)
  {
    slow := if sm.SRead? then SRead(1) else sm;
    MoveKeeps(s, Serve(slow));
    ServerKeeps(s.net, slow);
  }

  lemma SlowMove(s: State, m: Move) returns (n: Move)
    requires Slow(s) && Counts(m) && Next(s, m).Some?
    ensures Counts(n) && Next(s, n).Some? && StaysSlow(s, Next(s, n).value)
  {
    n := if m.FgetsFails? then Fgets else m;
    if m.Serve? {
      var slow := SlowServe(s, m.sm);
      n := Serve(slow);
    } else if m.Read? || m.ReadEof? {
      MoveKeeps(s, m);
    } else {
      SlowClientMove(s, n);
    }
  }

  /** Such a run never gets past an unsafe line, so it ends in a deadlock. */
  lemma {:induction false} SlowRunGetsStuck(s: State) returns (t: State)
    requires Slow(s) && !SafeAhead(s)
    ensures Reaches(Next, s, t) && Deadlock(t)
    decreases Measure(s)
  {
    if Deadlock(s) {
      ReachesItself(Next, s);
      t := s;
    } else {
      var m :| Counts(m) && Next(s, m).Some?;
      var n := SlowMove(s, m);
      MoveKeeps(s, n);
      t := SlowRunGetsStuck(Next(s, n).value);
      ReachesByMove(Next, s, n);
      ReachesTransitive(Next, s, Next(s, n).value, t);
    }
  }

  /** The exact condition: no run deadlocks if and only if every cut of the input ends as a line, has no
      0 byte, and is no longer than the two channels and one byte more. */
  lemma NeverStuckIffAllSafe(start: State)
    requires Start(start)
    ensures (forall t :: Reaches(Next, start, t) ==> !Deadlock(t))
            <==> AllSafe(start.net.up, start.net.down, start.stdin)
  {
    RunFollows(start, []);
    if AllSafe(start.net.up, start.net.down, start.stdin) {
      forall t | Reaches(Next, start, t)
        ensures !Deadlock(t)
      {
        var moves: seq<Move> :| Exec(Next, start, moves) == Some(t);
        SafeRun(start, moves);
        if !t.phase.Done? {
          var m := SafeIsNotStuck(t);
        }
      }
    } else {
      var t := SlowRunGetsStuck(start);
    }
  }

  lemma SafeRun(start: State, moves: seq<Move>)
    requires Start(start) && AllSafe(start.net.up, start.net.down, start.stdin) && Exec(Next, start, moves).Some?
    ensures var s := Exec(Next, start, moves).value; Inv(s) && SafeAhead(s) && AllBytes(s) == Wire(start.stdin)
  {
    RunFollows(start, []);
    forall t, m | Follows(start, t) && SafeAhead(t) && Next(t, m).Some?
      ensures Follows(start, Next(t, m).value) && SafeAhead(Next(t, m).value)
    {
      MoveFollows(start, t, m);
      MoveKeepsSafe(t, m);
    }
    Invariant(Next, t => Follows(start, t) && SafeAhead(t), start, moves);
  }

  lemma {:induction false} SafeHasNoNul(up: nat, down: nat, input: seq<Byte>)
    requires AllSafe(up, down, input)
    ensures NUL !in input
    decreases |input|
  {
    if input == [] {
    } else {
      CutProgress(input);
      SafeHasNoNul(up, down, AfterCut(input));
    }
  }

  /** On safe input every run, retried calls apart, is bounded; and one that cannot be continued is done,
      and has printed the whole input if and only if no fgets before its end was interrupted. */
  lemma SafeRunsPrintEverything(start: State, moves: seq<Move>)
    requires Start(start) && AllSafe(start.net.up, start.net.down, start.stdin) && Exec(Next, start, moves).Some?
    ensures Counted(Counts, moves) <= 9 * |start.stdin| + 2
    ensures var s := Exec(Next, start, moves).value;
            (forall m :: Counts(m) ==> Next(s, m).None?) ==>
              s.phase.Done? && (s.stdout == start.stdin <==> !CutShort(start, moves))
  {
    RunFollows(start, []);
    forall t, m | Inv(t) && Next(t, m).Some?
      ensures Inv(Next(t, m).value) && Measure(Next(t, m).value) + (if Counts(m) then 1 else 0) <= Measure(t)
    {
      MoveKeeps(t, m);
    }
    BoundedRuns(Next, Inv, Counts, Measure, start, moves);
    SafeRun(start, moves);
    PrintsWhatItSent(start, moves);
    SafeHasNoNul(start.net.up, start.net.down, start.stdin);
    WireWhole(start.stdin);
    var s := Exec(Next, start, moves).value;
    if !s.phase.Done? {
      var m := SafeIsNotStuck(s);
    } else {
      SafeHasNoNul(s.net.up, s.net.down, s.stdin);
      WireWhole(s.stdin);
      assert start.stdin == s.stdout + s.stdin;
    }
  }

  /** With channels that hold a whole line, an input without 0 bytes whose last line ends in a newline
      is safe. */
  lemma {:induction false} NewlineTerminatedIsSafe(up: nat, down: nat, input: seq<Byte>)
    requires NUL !in input && (input == [] || input[|input| - 1] == NEWLINE) && up + down + 2 >= MAXLINE
    ensures AllSafe(up, down, input)
    decreases |input|
  {
    if input == [] {
    } else {
      CutProgress(input);
      CutShape(input, MAXLINE - 1);
      NewlineTerminatedIsSafe(up, down, AfterCut(input));
    }
  }
}

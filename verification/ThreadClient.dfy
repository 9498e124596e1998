/** threads/strclithread.c with str_echo behind it: one thread copies standard input to the socket,
    the other prints lines that it reads back through threads/readline.c. */
module ThreadClient {
  import opened Bytes
  import opened Stdio
  import opened EchoNet
  import opened Runs

  /** The copyto thread: in fgets, in writen with bytes left, about to shut down, or gone. */
  datatype Copier = Fetching | Sending(rest: seq<Byte>) | Closing | Stopped

  /** `stdin` is the input that fgets has not returned yet, `line` what readline has stored of the current
      line, `unread` the bytes in the Rline. */
  datatype State = State(stdin: seq<Byte>, copier: Copier, net: Net,
                         line: seq<Byte>, unread: seq<Byte>, returned: bool, stdout: seq<Byte>)

  /** A system call, or one byte taken from the Rline. Fgets takes a whole line from standard input.
      `Interrupted` is a call on the socket that comes back with EINTR and is retried; fgets is not, so
      `FgetsFails` ends the copying: what it may have read of a line is not passed on. */
  datatype Move = Fgets | FgetsFails | Write(k: nat) | Shutdown | Read(k: nat) | TakeByte | ReadEof | Interrupted
                | Serve(sm: ServerMove)

  /** readline returns the line when it ends, and main prints it. */
  function Printed(s: State, line: seq<Byte>): State {
    s.(stdout := s.stdout + Cstr(line), line := [])
  }

  function Next(s: State, m: Move): Option<State> {
    match m
    case Fgets =>
      if !s.copier.Fetching? then None
      else if s.stdin == [] then Some(s.(copier := Closing))
      else
        var line := Cstr(Cut(s.stdin));
        Some(s.(stdin := AfterCut(s.stdin), copier := if line == [] then Fetching else Sending(line)))
    case FgetsFails => if s.copier.Fetching? then Some(s.(copier := Closing)) else None
    case Write(k) =>
      if !s.copier.Sending? || !(1 <= k <= |s.copier.rest|) || !CanSend(s.net, s.copier.rest[..k]) then None
      else Some(s.(net := Send(s.net, s.copier.rest[..k]),
                   copier := if k == |s.copier.rest| then Fetching else Sending(s.copier.rest[k..])))
    case Shutdown =>
      if !s.copier.Closing? then None else Some(s.(net := s.net.(fin := true), copier := Stopped))
    case Read(k) =>
      if s.returned || s.unread != [] || !(1 <= k <= |s.net.s2c|) || k > MAXLINE then None
      else Some(s.(net := Receive(s.net, k), unread := s.net.s2c[..k]))
    case TakeByte =>
      if s.returned || s.unread == [] then None
      else
        var line, t := s.line + [s.unread[0]], s.(unread := s.unread[1..]);
        Some(if s.unread[0] == NEWLINE || |line| + 1 >= MAXLINE then Printed(t, line) else t.(line := line))
    case ReadEof =>
      if s.returned || s.unread != [] || !AtEof(s.net) then None
      else Some(if s.line == [] then s.(returned := true) else Printed(s, s.line))
    case Interrupted => Some(s)
    case Serve(sm) =>
      (match ServerNext(s.net, sm) case None => None case Some(n) => Some(s.(net := n)))
  }

  ghost predicate Start(s: State) {
    && Valid(s.net) && InFlight(s.net) == [] && !s.net.fin && !s.net.server.Closed?
    && s.copier.Fetching? && s.line == [] && s.unread == [] && !s.returned && s.stdout == []
  }

  function Pending(c: Copier): seq<Byte> {
    if c.Sending? then c.rest else []
  }

  /** Every byte that is or will be on its way, printed ones first. */
  function AllBytes(s: State): seq<Byte> {
    s.stdout + (s.line + (s.unread + (InFlight(s.net) + (Pending(s.copier) + Wire(s.stdin)))))
  }

  /** Every byte taken from standard input and not dropped as behind a 0. */
  function Held(s: State): seq<Byte> {
    s.stdout + (s.line + (s.unread + (InFlight(s.net) + Pending(s.copier))))
  }

  lemma AllBytesSplit(s: State)
    ensures AllBytes(s) == Held(s) + Wire(s.stdin)
  {
    var wire := Wire(s.stdin);
    assert InFlight(s.net) + (Pending(s.copier) + wire) == (InFlight(s.net) + Pending(s.copier)) + wire;
    assert s.unread + ((InFlight(s.net) + Pending(s.copier)) + wire)
           == (s.unread + (InFlight(s.net) + Pending(s.copier))) + wire;
  }

  ghost predicate Inv(s: State) {
    && Valid(s.net)
    && (s.copier.Sending? ==> s.copier.rest != [])
    && (s.net.fin <==> s.copier.Stopped?)
    && (s.returned ==> AtEof(s.net) && s.line == [] && s.unread == [])
    && |s.line| + 1 < MAXLINE
    && NUL !in AllBytes(s)
  }

  /** Work left: a byte weighs less the further it has come. */
  function Measure(s: State): nat {
    7 * |s.stdin| + 6 * |Pending(s.copier)| + Weight(s.net) + 2 * |s.unread| + |s.line|
    + (match s.copier case Closing => 1 case Stopped => 0 case _ => 2)
    + (if s.returned then 0 else 1)
  }

  predicate Counts(m: Move) {
    !m.Interrupted? && m != Serve(SIntr)
  }

  lemma WireStep(input: seq<Byte>)
    requires input != []
    ensures Wire(input) == Cstr(Cut(input)) + Wire(AfterCut(input))
    ensures |AfterCut(input)| < |input| && |Cstr(Cut(input))| + |AfterCut(input)| <= |input|
    ensures AfterCut(input) == input[|input| - |AfterCut(input)|..]
  {
    CutProgress(input);
  }

  /** What a move may do: keep the invariant and every byte in order, take standard input from the
      front only, and leave less work. */
  ghost predicate Kept(s: State, m: Move, t: State) {
    && Inv(t) && AllBytes(t) == AllBytes(s)
    && Measure(t) + (if Counts(m) then 1 else 0) <= Measure(s)
    && |t.stdin| <= |s.stdin| && t.stdin == s.stdin[|s.stdin| - |t.stdin|..]
  }

  lemma FgetsKeeps(s: State)
    requires Inv(s) && Next(s, Fgets).Some?
    ensures Kept(s, Fgets, Next(s, Fgets).value)
  {
    var t := Next(s, Fgets).value;
    if s.stdin != [] {
      WireStep(s.stdin);
      assert Pending(s.copier) + Wire(s.stdin) == Pending(t.copier) + Wire(t.stdin);
    }
  }

  lemma WriteKeeps(s: State, k: nat)
    requires Inv(s) && Next(s, Write(k)).Some?
    ensures Kept(s, Write(k), Next(s, Write(k)).value)
  {
    var t := Next(s, Write(k)).value;
    var sent := s.copier.rest[..k];
    SendKeeps(s.net, sent);
    assert s.copier.rest == sent + Pending(t.copier);
    assert InFlight(t.net) + Pending(t.copier) == InFlight(s.net) + Pending(s.copier);
    Shift(InFlight(t.net), Pending(t.copier), InFlight(s.net), Pending(s.copier), Wire(s.stdin));
  }

  lemma ReadKeeps(s: State, k: nat)
    requires Inv(s) && Next(s, Read(k)).Some?
    ensures Kept(s, Read(k), Next(s, Read(k)).value)
  {
    ReceiveKeeps(s.net, k);
    ReadKeepsBytes(s, k);
  }

  lemma ReadKeepsBytes(s: State, k: nat)
    requires Valid(s.net) && Next(s, Read(k)).Some?
    ensures AllBytes(Next(s, Read(k)).value) == AllBytes(s)
  {
    var t := Next(s, Read(k)).value;
    ReceiveKeeps(s.net, k);
    assert t.unread + InFlight(t.net) == s.unread + InFlight(s.net);
    Shift(t.unread, InFlight(t.net), s.unread, InFlight(s.net), Pending(s.copier) + Wire(s.stdin));
  }

  /** A line within the thread has no 0 byte, so fputs prints all of it. */
  lemma LinePrintsWhole(s: State, line: seq<Byte>)
    requires Inv(s) && line <= s.line + s.unread
    ensures Cstr(line) == line
  {
    assert forall i :: 0 <= i < |line| ==> line[i] == AllBytes(s)[|s.stdout| + i];
    CstrWhole(line);
  }

  /** The byte moved from the Rline to the line, before any printing. */
  lemma MovedByte(s: State) returns (t: State)
    requires Inv(s) && s.unread != []
    ensures t == s.(unread := s.unread[1..], line := s.line + [s.unread[0]])
    ensures AllBytes(t) == AllBytes(s) && Cstr(t.line) == t.line
  {
    t := s.(unread := s.unread[1..], line := s.line + [s.unread[0]]);
    assert t.line + t.unread == s.line + s.unread;
    LinePrintsWhole(s, t.line);
    Shift(t.line, t.unread, s.line, s.unread, InFlight(s.net) + (Pending(s.copier) + Wire(s.stdin)));
  }

  lemma TakeByteKeeps(s: State)
    requires Inv(s) && Next(s, TakeByte).Some?
    ensures Kept(s, TakeByte, Next(s, TakeByte).value)
  {
    var moved := MovedByte(s);
    var t := Next(s, TakeByte).value;
    assert t == moved || t == Printed(moved, moved.line);
    PrintingKeepsBytes(moved);
    assert AllBytes(t) == AllBytes(s);
  }

  lemma PrintingKeepsBytes(s: State)
    requires Cstr(s.line) == s.line
    ensures AllBytes(Printed(s, s.line)) == AllBytes(s)
  {
    var t := Printed(s, s.line);
    Shift(t.stdout, t.line, s.stdout, s.line, s.unread + (InFlight(s.net) + (Pending(s.copier) + Wire(s.stdin))));
  }

  lemma ReadEofKeeps(s: State)
    requires Inv(s) && Next(s, ReadEof).Some?
    ensures Kept(s, ReadEof, Next(s, ReadEof).value)
  {
    EofMeansDrained(s.net);
    LinePrintsWhole(s, s.line);
    PrintingKeepsBytes(s);
  }

  /** No move of anyone loses, adds or reorders a byte, and every one but an EINTR leaves less to do. */
  lemma MoveKeeps(s: State, m: Move)
    requires Inv(s) && Next(s, m).Some?
    ensures Kept(s, m, Next(s, m).value)
  {
    match m {
      case Fgets => FgetsKeeps(s);
      case Write(k) => WriteKeeps(s, k);
      case Read(k) => ReadKeeps(s, k);
      case TakeByte => TakeByteKeeps(s);
      case ReadEof => ReadEofKeeps(s);
      case Serve(sm) => ServerKeeps(s.net, sm);
      case FgetsFails =>
      case Shutdown =>
      case Interrupted =>
    }
  }

  /** A move that makes progress, for whoever is not blocked. */
  function Turn(s: State): Move
    requires Valid(s.net)
  {
    if s.copier.Fetching? then Fgets
    else if s.copier.Closing? then Shutdown
    else if s.copier.Sending? && |s.net.c2s| < s.net.up then Write(1)
    else if !ServerIdle(s.net) then Serve(ServerTurn(s.net))
    else if s.unread != [] then TakeByte
    else if s.net.s2c != [] then Read(1)
    else ReadEof
  }

  /** No deadlock, whatever the channel capacities: until str_cli returns, someone can go on. */
  lemma SomeoneCanMove(s: State)
    requires Inv(s) && !s.returned
    ensures Counts(Turn(s)) && Next(s, Turn(s)).Some?
  {
  }

  ghost predicate Follows(start: State, s: State) {
    && Inv(s) && AllBytes(s) == Wire(start.stdin)
    && |s.stdin| <= |start.stdin| && s.stdin == start.stdin[|start.stdin| - |s.stdin|..]
  }

  lemma MoveFollows(start: State, s: State, m: Move)
    requires Follows(start, s) && Next(s, m).Some?
    ensures Follows(start, Next(s, m).value)
  {
    MoveKeeps(s, m);
  }

  lemma RunFollows(start: State, moves: seq<Move>)
    requires Start(start) && Exec(Next, start, moves).Some?
    ensures Follows(start, Exec(Next, start, moves).value)
  {
    WireHasNoNul(start.stdin);
    assert AllBytes(start) == Wire(start.stdin);
    forall t, m | Follows(start, t) && Next(t, m).Some?
      ensures Follows(start, Next(t, m).value)
    {
      MoveFollows(start, t, m);
    }
    Invariant(Next, t => Follows(start, t), start, moves);
  }

  /** In every interleaving: what fgets and strlen have let through so far is, in order, what is printed, in
      the line, in the Rline, in the channels, in the server and in copyto. Without 0 bytes that is the input
      read so far. */
  lemma EveryByteAccounted(start: State, moves: seq<Move>)
    requires Start(start) && Exec(Next, start, moves).Some?
    ensures var s := Exec(Next, start, moves).value;
            && |s.stdin| <= |start.stdin| && s.stdin == start.stdin[|start.stdin| - |s.stdin|..]
            && Held(s) + Wire(s.stdin) == Wire(start.stdin)
            && (NUL !in start.stdin ==> start.stdin[..|start.stdin| - |s.stdin|] == Held(s))
  {
    RunFollows(start, moves);
    var s := Exec(Next, start, moves).value;
    AllBytesSplit(s);
    if NUL !in start.stdin {
      HeldWithoutNul(start.stdin, Held(s), s.stdin);
    }
  }

  lemma HeldWithoutNul(input: seq<Byte>, held: seq<Byte>, left: seq<Byte>)
    requires NUL !in input && |left| <= |input| && left == input[|input| - |left|..]
    requires held + Wire(left) == Wire(input)
    ensures input[..|input| - |left|] == held
  {
    WireWhole(input);
    WireWhole(left);
    assert (held + left)[..|held|] == held;
  }

  /** An fgets fails before the end of the input. */
  predicate FailsEarly(s: State, m: Move) {
    m.FgetsFails? && s.stdin != []
  }

  predicate CutShort(start: State, moves: seq<Move>) {
    Happens(Next, FailsEarly, start, moves)
  }

  /** copyto has given up with input left. */
  predicate GaveUp(s: State) {
    (s.copier.Closing? || s.copier.Stopped?) && s.stdin != []
  }

  /** When str_cli returns, copyto has sent the FIN, the server is gone, and everything that went to
      the socket is printed; that is the whole input exactly when it has no 0 byte and no fgets before its
      end was interrupted. */
  lemma ReturnedMeansAllPrinted(start: State, moves: seq<Move>)
    requires Start(start) && Exec(Next, start, moves).Some?
    requires Exec(Next, start, moves).value.returned
    ensures var s := Exec(Next, start, moves).value;
            && s.copier.Stopped? && s.net.fin && s.net.server.Closed?
            && s.stdout + Wire(s.stdin) == Wire(start.stdin)
            && (s.stdout == start.stdin <==> NUL !in start.stdin && !CutShort(start, moves))
  {
    RunFollows(start, moves);
    CutShortLeavesInput(start, moves);
    ReturnedDrained(start, Exec(Next, start, moves).value);
  }

  lemma CutShortLeavesInput(start: State, moves: seq<Move>)
    requires Start(start) && Exec(Next, start, moves).Some?
    ensures GaveUp(Exec(Next, start, moves).value) <==> CutShort(start, moves)
  {
    Tells(Next, FailsEarly, GaveUp, start, moves);
  }

  lemma ReturnedDrained(start: State, s: State)
    requires Follows(start, s) && s.returned
    ensures s.copier.Stopped? && s.net.fin && s.net.server.Closed?
    ensures s.stdout + Wire(s.stdin) == Wire(start.stdin)
    ensures s.stdout == start.stdin <==> NUL !in start.stdin && s.stdin == []
  {
    EofMeansDrained(s.net);
    NothingUnderWay(s);
    PrintedAllIff(start.stdin, s.stdout, s.stdin);
  }

  lemma NothingUnderWay(s: State)
    requires s.line == [] && s.unread == [] && InFlight(s.net) == [] && Pending(s.copier) == []
    ensures AllBytes(s) == s.stdout + Wire(s.stdin)
  {
    var wire := Wire(s.stdin);
    assert [] + wire == wire;
    assert AllBytes(s) == s.stdout + ([] + ([] + ([] + ([] + wire))));
  }

  /** With `left` not sent, the output is the whole input if it has no 0 byte and nothing is left. */
  lemma PrintedAllIff(input: seq<Byte>, printed: seq<Byte>, left: seq<Byte>)
    requires |left| <= |input| && left == input[|input| - |left|..] && printed + Wire(left) == Wire(input)
    ensures printed == input <==> NUL !in input && left == []
  {
    WireWhole(input);
    WireWhole(left);
    WireHasNoNul(input);
    if printed == input {
      assert |Wire(left)| == 0;
      assert printed + Wire(left) == printed;
    }
  }

  /** No run is longer than the work at its start, EINTRs apart, and one that cannot be continued has
      returned: so every run that goes on as long as it can prints everything. */
  lemma RunsEndByReturning(start: State, moves: seq<Move>)
    requires Start(start) && Exec(Next, start, moves).Some?
    ensures Counted(Counts, moves) <= Measure(start)
    ensures var s := Exec(Next, start, moves).value;
            (forall m :: Counts(m) ==> Next(s, m).None?) ==> s.returned
  {
    RunFollows(start, moves);
    WireHasNoNul(start.stdin);
    assert AllBytes(start) == Wire(start.stdin);
    forall t, m | Inv(t) && Next(t, m).Some?
      ensures Inv(Next(t, m).value) && Measure(Next(t, m).value) + (if Counts(m) then 1 else 0) <= Measure(t)
    {
      MoveKeeps(t, m);
    }
    BoundedRuns(Next, Inv, Counts, Measure, start, moves);
    var s := Exec(Next, start, moves).value;
    if !s.returned {
      SomeoneCanMove(s);
    }
  }
}

/** nonblock/strclinonb.c composed with the channels and str_echo. Each of the four parts of an
    iteration is a move, so the server and the kernel can act between any two of them. */
module NonblockClient {
  import opened Bytes
  import opened EchoNet
  import opened NonblockRelay
  import opened Runs

  datatype Place = AtSelect | AtStdin | AtSocket | AtStdout | AtSocketOut

  /** `ready` is the read set and write set of the current iteration. */
  datatype State = State(stdin: seq<Byte>, relay: Relay, place: Place, ready: Ready, net: Net, stdout: seq<Byte>)

  /** At each part: its descriptor's bit is off, or the call would block, moves `k` bytes, or meets EOF. */
  datatype Move = Select(ready: Ready) | Skip | Again | Transfer(k: nat) | AtEnd | Serve(sm: ServerMove)

  /** The client's new state; a FIN follows when shutdown has been called. */
  function Become(s: State, relay: Relay): State {
    s.(relay := relay, net := if relay.fins > s.relay.fins then s.net.(fin := true) else s.net)
  }

  function StdinNext(s: State, m: Move): Option<State> {
    var t := s.(place := AtSocket);
    if !s.ready.stdin then if m.Skip? then Some(t) else None
    else match m
      case Again => Some(t)
      case Transfer(k) =>
        if !(1 <= k <= |s.stdin|) || k > s.relay.to.Room() then None
        else Some(Become(t.(stdin := s.stdin[k..], ready := s.ready.(sockOut := true)),
            OnStdin(s.relay, Got(s.stdin[..k]))))
      case AtEnd => if s.stdin != [] then None else Some(Become(t, OnStdin(s.relay, EndOfFile)))
      case _ => None
  }

  function SocketNext(s: State, m: Move): Option<State> {
    var t := s.(place := AtStdout);
    if !s.ready.sockIn then if m.Skip? then Some(t) else None
    else match m
      case Again => Some(t)
      case Transfer(k) =>
        if !(1 <= k <= |s.net.s2c|) || k > s.relay.fr.Room() then None
        else Some(Become(t.(net := Receive(s.net, k), ready := s.ready.(stdout := true)),
            OnSocket(s.relay, Got(s.net.s2c[..k]))))
      case AtEnd => if !AtEof(s.net) then None else Some(Become(t, OnSocket(s.relay, EndOfFile)))
      case _ => None
  }

  function StdoutNext(s: State, m: Move): Option<State> {
    var t := s.(place := AtSocketOut);
    if !s.ready.stdout || s.relay.fr.data == [] then if m.Skip? then Some(t) else None
    else match m
      case Again => Some(t)
      case Transfer(k) =>
        if !(1 <= k <= |s.relay.fr.data|) then None
        else Some(Become(t.(stdout := s.stdout + s.relay.fr.data[..k]), OnStdout(s.relay, Wrote(k))))
      case _ => None
  }

  function SocketOutNext(s: State, m: Move): Option<State> {
    var t := s.(place := AtSelect);
    if !s.ready.sockOut || s.relay.to.data == [] then if m.Skip? then Some(t) else None
    else match m
      case Again => Some(t)
      case Transfer(k) =>
        if !(1 <= k <= |s.relay.to.data|) || !CanSend(s.net, s.relay.to.data[..k]) then None
        else Some(Become(t.(net := Send(s.net, s.relay.to.data[..k])), OnSocketOut(s.relay, Wrote(k))))
      case _ => None
  }

  function Next(s: State, m: Move): Option<State> {
    if m.Serve? then
      (match ServerNext(s.net, m.sm) case None => None case Some(n) => Some(s.(net := n)))
    else if !s.relay.ending.Running? then None
    else match s.place
      case AtSelect =>
        if m.Select? && Within(m.ready, Interest(s.relay)) && m.ready != Ready(false, false, false, false)
        then Some(s.(ready := m.ready, place := AtStdin)) else None
      case AtStdin => StdinNext(s, m)
      case AtSocket => SocketNext(s, m)
      case AtStdout => StdoutNext(s, m)
      case AtSocketOut => SocketOutNext(s, m)
  }

  // ------------------------------------------------ the moves are the code's iteration

  /** What a part's read returned. */
  function ReadOf(m: Move, source: seq<Byte>): ReadResult {
    match m
    case Transfer(k) => if k <= |source| then Got(source[..k]) else ReadAgain
    case AtEnd => EndOfFile
    case _ => ReadAgain
  }

  function WriteOf(m: Move): WriteResult {
    if m.Transfer? then Wrote(m.k) else WriteAgain
  }

  lemma ReadParts(s: State, m1: Move, m2: Move, n2: Net)
    requires s.relay.ending.Running? && s.place.AtStdin?
    requires StdinNext(s, m1).Some? && SocketNext(StdinNext(s, m1).value.(net := n2), m2).Some?
    ensures var t := SocketNext(StdinNext(s, m1).value.(net := n2), m2).value;
            var a, b := ReadOf(m1, s.stdin), ReadOf(m2, n2.s2c);
            && LegalRead(s.relay.to, a) && LegalRead(s.relay.fr, b)
            && t.relay == AfterReads(s.relay, s.ready, a, b) && t.ready == WriteSet(s.ready, a, b) && t.place.AtStdout?
  {
  }

  lemma WriteParts(s: State, m3: Move, m4: Move, n4: Net)
    requires s.relay.ending.Running? && s.place.AtStdout?
    requires StdoutNext(s, m3).Some? && SocketOutNext(StdoutNext(s, m3).value.(net := n4), m4).Some?
    ensures LegalWrite(s.relay.fr, WriteOf(m3)) && LegalWrite(s.relay.to, WriteOf(m4))
    ensures SocketOutNext(StdoutNext(s, m3).value.(net := n4), m4).value.relay
            == AfterWrites(s.relay, s.ready, WriteOf(m3), WriteOf(m4))
  {
  }

  /** A round of the client's moves does to the relay what one call of StrCli.Iterate does, whatever
      others do to the connection before each of the moves, and also when the socket's end of file ends
      the round and str_cli. */
  lemma RoundIsIteration(s: State, ready: Ready, m1: Move, m2: Move, m3: Move, m4: Move, n1: Net, n2: Net, n3: Net,
                         n4: Net)
    requires s.place.AtSelect? && s.relay.ending.Running?
    requires var s1 := s.(ready := ready, place := AtStdin, net := n1);
             && StdinNext(s1, m1).Some? && var s2 := StdinNext(s1, m1).value.(net := n2);
             && SocketNext(s2, m2).Some? && var s3 := SocketNext(s2, m2).value.(net := n3);
                s3.relay.ending.Running? ==>
                  StdoutNext(s3, m3).Some? && SocketOutNext(StdoutNext(s3, m3).value.(net := n4), m4).Some?
    ensures var s1 := s.(ready := ready, place := AtStdin, net := n1);
            var s3 := SocketNext(StdinNext(s1, m1).value.(net := n2), m2).value.(net := n3);
            var a, b := ReadOf(m1, s.stdin), ReadOf(m2, n2.s2c);
            if s3.relay.ending.Running? then
              && Legal(s.relay, ready, a, b, WriteOf(m3), WriteOf(m4))
              && SocketOutNext(StdoutNext(s3, m3).value.(net := n4), m4).value.relay
                 == AfterIteration(s.relay, ready, a, b, WriteOf(m3), WriteOf(m4))
            else
              && Legal(s.relay, ready, a, b, WriteAgain, WriteAgain)
              && s3.relay == AfterIteration(s.relay, ready, a, b, WriteAgain, WriteAgain)
  {
    var s1 := s.(ready := ready, place := AtStdin, net := n1);
    ReadParts(s1, m1, m2, n2);
    var s3 := SocketNext(StdinNext(s1, m1).value.(net := n2), m2).value.(net := n3);
    if s3.relay.ending.Running? {
      WriteParts(s3, m3, m4, n4);
    }
  }

  ghost predicate Start(s: State) {
    && Valid(s.net) && InFlight(s.net) == [] && !s.net.fin && !s.net.server.Closed?
    && s.relay == Relay(Buf(0, []), Buf(0, []), false, 0, Running) && s.place.AtSelect? && s.stdout == []
  }

  /** Every byte, printed ones first. */
  function AllBytes(s: State): seq<Byte> {
    s.stdout + (s.relay.fr.data + (InFlight(s.net) + (s.relay.to.data + s.stdin)))
  }

  /** Every byte taken from standard input. */
  function Held(s: State): seq<Byte> {
    s.stdout + (s.relay.fr.data + (InFlight(s.net) + s.relay.to.data))
  }

  lemma AllBytesSplit(s: State)
    ensures AllBytes(s) == Held(s) + s.stdin
  {
    var flight := InFlight(s.net);
    assert flight + (s.relay.to.data + s.stdin) == (flight + s.relay.to.data) + s.stdin;
    assert s.relay.fr.data + ((flight + s.relay.to.data) + s.stdin)
        == (s.relay.fr.data + (flight + s.relay.to.data)) + s.stdin;
  }

  ghost predicate Inv(s: State) {
    && Valid(s.net) && s.relay.to.Valid() && s.relay.fr.Valid()
    && (s.relay.stdinEof ==> s.stdin == [])
    && s.relay.fins == (if s.relay.stdinEof && s.relay.to.data == [] then 1 else 0)
    && (s.net.fin <==> s.relay.fins > 0)
    && (s.relay.ending.Running? || (s.relay.ending.Normal? && AtEof(s.net) && s.relay.stdinEof))
    && (s.place.AtStdin? && s.ready.stdin ==> !s.relay.stdinEof && s.relay.to.Room() > 0)
    && ((s.place.AtStdin? || s.place.AtSocket?) && s.ready.sockIn ==> s.relay.fr.Room() > 0)
  }

  function Measure(s: State): nat {
    7 * |s.stdin| + 6 * |s.relay.to.data| + Weight(s.net) + |s.relay.fr.data|
    + (if s.relay.stdinEof then 0 else 1) + (if s.relay.ending.Running? then 1 else 0)
  }

  /** The moves that carry something forward. */
  predicate Counts(m: Move) {
    m.Transfer? || m.AtEnd? || (m.Serve? && !m.sm.SIntr?)
  }

  ghost predicate Kept(s: State, m: Move, t: State) {
    && Inv(t) && AllBytes(t) == AllBytes(s) && Measure(t) + (if Counts(m) then 1 else 0) <= Measure(s)
    && |t.stdin| <= |s.stdin| && t.stdin == s.stdin[|s.stdin| - |t.stdin|..]
  }

  lemma DrainedBuf(b: Buf, k: nat)
    requires b.Valid() && 1 <= k <= |b.data|
    ensures b.Drained(k).Valid() && b.Drained(k).data == b.data[k..] && b.data == b.data[..k] + b.data[k..]
  {
  }

  lemma FilledBuf(b: Buf, bytes: seq<Byte>)
    requires b.Valid() && 1 <= |bytes| <= b.Room()
    ensures b.Filled(bytes).Valid() && b.Filled(bytes).data == b.data + bytes
  {
  }

  lemma StdinKeeps(s: State, m: Move)
    requires Inv(s) && s.relay.ending.Running? && s.place.AtStdin? && StdinNext(s, m).Some?
    ensures Kept(s, m, StdinNext(s, m).value)
  {
    if s.ready.stdin && m.Transfer? {
      FilledBuf(s.relay.to, s.stdin[..m.k]);
      assert (s.relay.to.data + s.stdin[..m.k]) + s.stdin[m.k..] == s.relay.to.data + s.stdin;
    }
  }

  lemma SocketKeeps(s: State, m: Move)
    requires Inv(s) && s.relay.ending.Running? && s.place.AtSocket? && SocketNext(s, m).Some?
    ensures Kept(s, m, SocketNext(s, m).value)
  {
    if s.ready.sockIn && m.Transfer? {
      ReceiveKeeps(s.net, m.k);
      FilledBuf(s.relay.fr, s.net.s2c[..m.k]);
      SocketKeepsBytes(s, m);
    }
  }

  lemma SocketKeepsBytes(s: State, m: Move)
    requires Valid(s.net) && s.relay.fr.Valid() && s.ready.sockIn && m.Transfer? && SocketNext(s, m).Some?
    ensures AllBytes(SocketNext(s, m).value) == AllBytes(s)
  {
    if s.ready.sockIn && m.Transfer? {
      var got := s.net.s2c[..m.k];
      ReceiveKeeps(s.net, m.k);
      FilledBuf(s.relay.fr, got);
      assert (s.relay.fr.data + got) + InFlight(Receive(s.net, m.k)) == s.relay.fr.data + InFlight(s.net);
      Shift(s.relay.fr.data + got, InFlight(Receive(s.net, m.k)), s.relay.fr.data, InFlight(s.net),
            s.relay.to.data + s.stdin);
    }
  }

  lemma StdoutKeeps(s: State, m: Move)
    requires Inv(s) && s.relay.ending.Running? && s.place.AtStdout? && StdoutNext(s, m).Some?
    ensures Kept(s, m, StdoutNext(s, m).value)
  {
    if s.ready.stdout && s.relay.fr.data != [] && m.Transfer? {
      var data := s.relay.fr.data;
      DrainedBuf(s.relay.fr, m.k);
      assert (s.stdout + data[..m.k]) + data[m.k..] == s.stdout + data;
      Shift(s.stdout + data[..m.k], data[m.k..], s.stdout, data, InFlight(s.net) + (s.relay.to.data + s.stdin));
    }
  }

  lemma SocketOutKeeps(s: State, m: Move)
    requires Inv(s) && s.relay.ending.Running? && s.place.AtSocketOut? && SocketOutNext(s, m).Some?
    ensures Kept(s, m, SocketOutNext(s, m).value)
  {
    if s.ready.sockOut && s.relay.to.data != [] && m.Transfer? {
      var data := s.relay.to.data;
      var net := Send(s.net, data[..m.k]);
      SendKeeps(s.net, data[..m.k]);
      DrainedBuf(s.relay.to, m.k);
      assert InFlight(net) + data[m.k..] == InFlight(s.net) + data;
      Shift(InFlight(net), data[m.k..], InFlight(s.net), data, s.stdin);
    }
  }

  lemma MoveKeeps(s: State, m: Move)
    requires Inv(s) && Next(s, m).Some?
    ensures Kept(s, m, Next(s, m).value)
  {
    if m.Serve? {
      ServerKeeps(s.net, m.sm);
    } else {
      match s.place {
        case AtSelect =>
        case AtStdin => StdinKeeps(s, m);
        case AtSocket => SocketKeeps(s, m);
        case AtStdout => StdoutKeeps(s, m);
        case AtSocketOut => SocketOutKeeps(s, m);
      }
    }
  }

  ghost predicate Follows(start: State, s: State) {
    && Inv(s) && AllBytes(s) == start.stdin
    && |s.stdin| <= |start.stdin| && s.stdin == start.stdin[|start.stdin| - |s.stdin|..]
  }

  lemma RunFollows(start: State, moves: seq<Move>)
    requires Start(start) && Exec(Next, start, moves).Some?
    ensures Follows(start, Exec(Next, start, moves).value)
  {
    assert AllBytes(start) == start.stdin;
    forall t, m | Follows(start, t) && Next(t, m).Some?
      ensures Follows(start, Next(t, m).value)
    {
      MoveKeeps(t, m);
    }
    Invariant(Next, t => Follows(start, t), start, moves);
  }

  // --------------------------------------------------------------- safety of every run

  /** In every interleaving: the input read so far is, in order, what is printed, in fr, in the
      channels, in the server and in to. */
  lemma EveryByteAccounted(start: State, moves: seq<Move>)
    requires Start(start) && Exec(Next, start, moves).Some?
    ensures var s := Exec(Next, start, moves).value;
            && |s.stdin| <= |start.stdin|
            && start.stdin[..|start.stdin| - |s.stdin|] == Held(s)
  {
    RunFollows(start, moves);
    AllBytesSplit(Exec(Next, start, moves).value);
  }

  /** str_cli ends only normally, at the server's EOF after its own FIN. Everything has then been sent
      and has come back; what is not printed is exactly what fr still holds. */
  lemma EndsWithResidueInFr(start: State, moves: seq<Move>)
    requires Start(start) && Exec(Next, start, moves).Some?
    requires !Exec(Next, start, moves).value.relay.ending.Running?
    ensures var s := Exec(Next, start, moves).value;
            && s.relay.ending == Normal && s.relay.fins == 1 && s.net.server.Closed?
            && s.stdin == [] && s.relay.to.data == []
            && start.stdin == s.stdout + s.relay.fr.data
  {
    RunFollows(start, moves);
    EofMeansDrained(Exec(Next, start, moves).value.net);
  }

  /** After the FIN, whoever moves, the channel to the server gets nothing more. */
  lemma NoWriteAfterFin(s: State, m: Move)
    requires Inv(s) && s.net.fin && Next(s, m).Some?
    ensures var t := Next(s, m).value; t.net.fin && |t.net.c2s| <= |s.net.c2s|
  {
    assert s.relay.to.data == [] && s.relay.stdinEof;
    if m.Serve? {
      ServerKeeps(s.net, m.sm);
    } else {
      match s.place {
        case AtSelect =>
        case AtStdin =>
        case AtSocket =>
        case AtStdout =>
        case AtSocketOut =>
      }
    }
  }

  /** The FIN: shutdown is called at most once, when standard input has ended and every byte of it is
      written to the socket, and no later move writes to the socket. No read asks for zero bytes, so a
      read of 0 always is the end of file. */
  lemma FinDiscipline(start: State, moves: seq<Move>, m: Move)
    requires Start(start) && Exec(Next, start, moves).Some?
    ensures var s := Exec(Next, start, moves).value;
            && s.relay.fins <= 1 && (s.net.fin <==> s.relay.fins == 1)
            && (s.relay.fins == 1 <==> s.relay.stdinEof && s.relay.to.data == [])
            && (s.relay.stdinEof ==> s.stdin == [])
            && (s.place.AtStdin? && s.ready.stdin ==> s.relay.to.Room() > 0)
            && (s.place.AtSocket? && s.ready.sockIn ==> s.relay.fr.Room() > 0)
            && (s.net.fin && Next(s, m).Some? ==>
                  Next(s, m).value.relay.fins == 1 && |Next(s, m).value.net.c2s| <= |s.net.c2s|)
  {
    RunFollows(start, moves);
    var s := Exec(Next, start, moves).value;
    if s.net.fin && Next(s, m).Some? {
      NoWriteAfterFin(s, m);
      MoveKeeps(s, m);
    }
  }

  /** At most this many moves of a run carry anything; the others are the client's own turns. */
  lemma ProductiveMovesBounded(start: State, moves: seq<Move>)
    requires Start(start) && Exec(Next, start, moves).Some?
    ensures Counted(Counts, moves) <= 7 * |start.stdin| + 3
  {
    RunFollows(start, []);
    assert Measure(start) == 7 * |start.stdin| + 3;
    forall t, m | Inv(t) && Next(t, m).Some?
      ensures Inv(Next(t, m).value) && Measure(Next(t, m).value) + (if Counts(m) then 1 else 0) <= Measure(t)
    {
      MoveKeeps(t, m);
    }
    BoundedRuns(Next, Inv, Counts, Measure, start, moves);
  }

  // ------------------------------------------------------------------------- progress

  /** Runs that leave the last byte unprinted when `limit` is the length of the input; a larger limit
      forbids nothing. To manage it they keep at most one byte in fr. */
  ghost predicate Below(limit: nat, s: State) {
    && |s.stdout| < limit
    && (limit > |AllBytes(s)| || (limit == |AllBytes(s)| && s.relay.fr.off == 0 && |s.relay.fr.data| <= 1))
  }

  ghost predicate Goes(limit: nat, s: State, t: State) {
    Reaches(Next, s, t) && Inv(t) && AllBytes(t) == AllBytes(s) && Below(limit, t)
  }

  lemma GoesBy(limit: nat, s: State, t: State, m: Move)
    requires Goes(limit, s, t) && Next(t, m).Some? && Below(limit, Next(t, m).value)
    ensures Goes(limit, s, Next(t, m).value)
  {
    ReachesThen(Next, s, t, m);
    MoveKeeps(t, m);
  }

  /** Nothing forces a part to move a byte: the client can always get back to select. */
  lemma {:induction false} BackToSelect(limit: nat, s: State, t: State) returns (u: State)
    requires Goes(limit, s, t) && t.relay.ending.Running?
    ensures Goes(limit, s, u) && u.place.AtSelect? && u == t.(place := u.place)
    decreases match t.place case AtSelect => 0 case AtSocketOut => 1 case AtStdout => 2 case AtSocket => 3
              case AtStdin => 4
  {
    if t.place.AtSelect? {
      u := t;
    } else {
      var m := if Next(t, Skip).Some? then Skip else Again;
      GoesBy(limit, s, t, m);
      u := BackToSelect(limit, s, Next(t, m).value);
    }
  }

  /** From select with one bit set, the parts before that bit's are passed over. */
  lemma {:induction false} PassOver(limit: nat, s: State, t: State, target: Place) returns (u: State)
    requires Goes(limit, s, t) && t.relay.ending.Running? && !t.place.AtSelect?
    requires var r := t.ready; match target
             case AtSelect => false
             case AtStdin => t.place.AtStdin?
             case AtSocket => (t.place.AtStdin? && !r.stdin) || t.place.AtSocket?
             case AtStdout => ((t.place.AtStdin? || t.place.AtSocket?) && !r.stdin && !r.sockIn) || t.place.AtStdout?
             case AtSocketOut => !r.stdin && !r.sockIn && !r.stdout
    ensures Goes(limit, s, u) && u == t.(place := target)
    decreases match t.place case AtSelect => 0 case AtSocketOut => 1 case AtStdout => 2 case AtSocket => 3
              case AtStdin => 4
  {
    if t.place == target {
      u := t;
    } else {
      GoesBy(limit, s, t, Skip);
      u := PassOver(limit, s, Next(t, Skip).value, target);
    }
  }

  /** One call of the client that select allows and that has something to do. */
  lemma OneCall(limit: nat, s: State, t: State, target: Place, m: Move) returns (u: State)
    requires Goes(limit, s, t) && t.relay.ending.Running? && t.place.AtSelect? && !target.AtSelect?
    requires var ready := Ready(target.AtStdin?, target.AtSocket?, target.AtSocketOut?, target.AtStdout?);
             && Within(ready, Interest(t.relay)) && Counts(m) && !m.Serve?
             && Next(t.(ready := ready, place := target), m).Some?
             && Below(limit, Next(t.(ready := ready, place := target), m).value)
    ensures Goes(limit, s, u) && Measure(u) < Measure(t)
  {
    var ready := Ready(target.AtStdin?, target.AtSocket?, target.AtSocketOut?, target.AtStdout?);
    GoesBy(limit, s, t, Select(ready));
    var v := PassOver(limit, s, Next(t, Select(ready)).value, target);
    GoesBy(limit, s, v, m);
    u := Next(v, m).value;
    MoveKeeps(v, m);
  }

  /** The sending side can go on. */
  lemma ProgressSending(limit: nat, s: State, t: State) returns (u: State)
    requires Goes(limit, s, t) && t.relay.ending.Running? && t.place.AtSelect?
    requires (!t.relay.stdinEof && t.relay.to.Room() > 0) || (t.relay.to.data != [] && |t.net.c2s| < t.net.up)
    ensures Goes(limit, s, u) && Measure(u) < Measure(t)
  {
    if !t.relay.stdinEof && t.relay.to.Room() > 0 {
      u := OneCall(limit, s, t, AtStdin, if t.stdin == [] then AtEnd else Transfer(1));
    } else {
      u := OneCall(limit, s, t, AtSocketOut, Transfer(1));
    }
  }

  /** The receiving side can go on. */
  lemma ProgressReceiving(limit: nat, s: State, t: State) returns (u: State)
    requires Goes(limit, s, t) && t.relay.ending.Running? && t.place.AtSelect?
    requires (t.relay.fr.data != [] && |t.stdout| + 1 < limit) || (t.relay.fr.data == [] && t.net.s2c != [])
             || (AtEof(t.net) && t.relay.fr.Room() > 0)
    ensures Goes(limit, s, u) && Measure(u) < Measure(t)
  {
    if t.relay.fr.data != [] && |t.stdout| + 1 < limit {
      u := OneCall(limit, s, t, AtStdout, Transfer(1));
    } else if t.net.s2c != [] {
      u := OneCall(limit, s, t, AtSocket, Transfer(1));
    } else {
      u := OneCall(limit, s, t, AtSocket, AtEnd);
    }
  }

  /** With both sides of the client stuck and the server idle, only the last byte is left, in fr. */
  lemma StuckOnlyAtTheEnd(limit: nat, t: State)
    requires Inv(t) && Below(limit, t) && ServerIdle(t.net)
    requires !(!t.relay.stdinEof && t.relay.to.Room() > 0) && !(t.relay.to.data != [] && |t.net.c2s| < t.net.up)
    requires !(t.relay.fr.data != [] && |t.stdout| + 1 < limit) && !(t.relay.fr.data == [] && t.net.s2c != [])
    ensures AtEof(t.net) && t.relay.fr.Room() > 0
  {
    if t.relay.fr.data != [] {
      assert |AllBytes(t)| == |t.stdout| + |t.relay.fr.data| + |InFlight(t.net)| + |t.relay.to.data| + |t.stdin|;
      assert InFlight(t.net) == [];
    }
  }

  /** With the server idle the client can go on, from select. */
  lemma ProgressOfClient(limit: nat, s: State, t: State) returns (u: State)
    requires Goes(limit, s, t) && t.relay.ending.Running? && t.place.AtSelect? && ServerIdle(t.net)
    ensures Goes(limit, s, u) && Measure(u) < Measure(t)
  {
    if (!t.relay.stdinEof && t.relay.to.Room() > 0) || (t.relay.to.data != [] && |t.net.c2s| < t.net.up) {
      u := ProgressSending(limit, s, t);
    } else {
      if !(t.relay.fr.data != [] && |t.stdout| + 1 < limit) && !(t.relay.fr.data == [] && t.net.s2c != []) {
        StuckOnlyAtTheEnd(limit, t);
      }
      u := ProgressReceiving(limit, s, t);
    }
  }

  /** Somebody can go on. */
  lemma Progress(limit: nat, s: State) returns (u: State)
    requires Inv(s) && Below(limit, s) && s.relay.ending.Running?
    ensures Goes(limit, s, u) && Measure(u) < Measure(s)
  {
    ReachesItself(Next, s);
    if !ServerIdle(s.net) {
      var m := Serve(ServerTurn(s.net));
      MoveKeeps(s, m);
      GoesBy(limit, s, s, m);
      u := Next(s, m).value;
    } else {
      var t := BackToSelect(limit, s, s);
      assert Measure(t) == Measure(s);
      u := ProgressOfClient(limit, s, t);
    }
  }

  lemma {:induction false} CanEnd(limit: nat, s: State) returns (u: State)
    requires Inv(s) && Below(limit, s)
    ensures Goes(limit, s, u) && u.relay.ending.Normal?
    decreases Measure(s)
  {
    ReachesItself(Next, s);
    if s.relay.ending.Running? {
      var t := Progress(limit, s);
      u := CanEnd(limit, t);
      ReachesTransitive(Next, s, t, u);
    } else {
      u := s;
    }
  }

  /** No deadlock and no trap, whatever the capacities: every run can be continued to a normal end. */
  lemma EveryRunCanEnd(start: State, moves: seq<Move>)
    requires Start(start) && Exec(Next, start, moves).Some?
    ensures exists u :: Reaches(Next, Exec(Next, start, moves).value, u) && u.relay.ending.Normal?
  {
    RunFollows(start, moves);
    var s := Exec(Next, start, moves).value;
    var u := CanEnd(|AllBytes(s)| + 1, s);
  }

  /** str_cli is sure to print everything before it returns only if there is nothing to print. */
  lemma AllPrintedIffNothingToPrint(start: State)
    requires Start(start)
    ensures (forall u :: Reaches(Next, start, u) && u.relay.ending.Normal? ==> u.stdout == start.stdin)
            <==> start.stdin == []
  {
    if start.stdin == [] {
      forall u | Reaches(Next, start, u) && u.relay.ending.Normal?
        ensures u.stdout == start.stdin
      {
        var moves: seq<Move> :| Exec(Next, start, moves) == Some(u);
        EndsWithResidueInFr(start, moves);
      }
    } else {
      assert AllBytes(start) == start.stdin;
      var u := CanEnd(|start.stdin|, start);
      assert u.stdout != start.stdin;
    }
  }

  // ----------------------------------------------------- runs with an honest select

  predicate Readable(n: Net) {
    n.s2c != [] || AtEof(n)
  }

  predicate Writable(n: Net) {
    |n.c2s| < n.up
  }

  /** The call at hand would not block. Standard input and output are always ready. */
  predicate CallReady(s: State) {
    match s.place
    case AtSelect => false
    case AtStdin => true
    case AtSocket => Readable(s.net)
    case AtStdout => true
    case AtSocketOut => Writable(s.net)
  }

  /** select reports only what is ready, and no call on a ready descriptor returns EWOULDBLOCK. */
  function HonestNext(s: State, m: Move): Option<State> {
    if m.Select? && !Within(m.ready, Ready(true, Readable(s.net), Writable(s.net), true)) then None
    else if m.Again? && CallReady(s) then None
    else Next(s, m)
  }

  predicate HonestCounts(m: Move) {
    m != Serve(SIntr)
  }

  /** A part that is still to come in this iteration will carry something. */
  predicate Owes(s: State) {
    var out := s.ready.sockOut && s.relay.to.data != [] && Writable(s.net);
    var show := s.ready.stdout && s.relay.fr.data != [];
    var sock := s.ready.sockIn && Readable(s.net);
    match s.place
    case AtSelect => false
    case AtStdin => s.ready.stdin || sock || show || out
    case AtSocket => sock || show || out
    case AtStdout => show || out
    case AtSocketOut => out
  }

  function PlaceRank(p: Place): nat {
    match p case AtSelect => 0 case AtStdin => 4 case AtSocket => 3 case AtStdout => 2 case AtSocketOut => 1
  }

  function HonestMeasure(s: State): nat {
    6 * Measure(s) + PlaceRank(s.place) + if Owes(s) then 0 else 5
  }

  /** What carries nothing leaves the rest of the iteration to carry what it owes. */
  lemma IdleMoveKeepsDebt(s: State, m: Move)
    requires Inv(s) && HonestNext(s, m).Some? && !Counts(m) && !m.Serve?
    ensures var t := HonestNext(s, m).value;
            PlaceRank(t.place) + (if Owes(t) then 0 else 5) < PlaceRank(s.place) + if Owes(s) then 0 else 5
  {
  }

  lemma HonestMoveKeeps(s: State, m: Move)
    requires Inv(s) && HonestNext(s, m).Some?
    ensures var t := HonestNext(s, m).value;
            Inv(t) && HonestMeasure(t) + (if HonestCounts(m) then 1 else 0) <= HonestMeasure(s)
  {
    MoveKeeps(s, m);
    if !Counts(m) && !m.Serve? {
      IdleMoveKeepsDebt(s, m);
    } else if Counts(m) && !m.Serve? {
      assert PlaceRank(HonestNext(s, m).value.place) < 5;
      CarryingMoveGoesOn(s, m);
    }
  }

  lemma CarryingMoveGoesOn(s: State, m: Move)
    requires Counts(m) && !m.Serve? && Next(s, m).Some?
    ensures PlaceRank(Next(s, m).value.place) < PlaceRank(s.place)
  {
  }

  /** Something is ready, or the server has a turn. */
  lemma HonestTurn(s: State) returns (m: Move)
    requires Inv(s) && s.relay.ending.Running? && s.place.AtSelect?
    ensures HonestCounts(m) && HonestNext(s, m).Some?
  {
    if !ServerIdle(s.net) {
      m := Serve(ServerTurn(s.net));
    } else if !s.relay.stdinEof && s.relay.to.Room() > 0 {
      m := Select(Ready(true, false, false, false));
    } else if s.relay.to.data != [] && Writable(s.net) {
      m := Select(Ready(false, false, true, false));
    } else if s.relay.fr.data != [] {
      m := Select(Ready(false, false, false, true));
    } else {
      if s.net.s2c == [] {
        StuckOnlyAtTheEnd(|AllBytes(s)| + 1, s);
      }
      m := Select(Ready(false, true, false, false));
    }
  }

  /** In the middle of an iteration the client itself can always go on. */
  lemma HonestPart(s: State) returns (m: Move)
    requires Inv(s) && s.relay.ending.Running? && !s.place.AtSelect?
    ensures HonestCounts(m) && HonestNext(s, m).Some?
  {
    if Next(s, Skip).Some? {
      m := Skip;
    } else if !CallReady(s) {
      m := Again;
    } else if (s.place.AtStdin? && s.stdin == []) || (s.place.AtSocket? && s.net.s2c == []) {
      m := AtEnd;
    } else {
      m := Transfer(1);
    }
  }

  lemma {:induction false} HonestRunIsRun(s: State, moves: seq<Move>)
    requires Exec(HonestNext, s, moves).Some?
    ensures Exec(Next, s, moves) == Exec(HonestNext, s, moves)
    decreases |moves|
  {
    if moves == [] {
    } else {
      HonestRunIsRun(HonestNext(s, moves[0]).value, moves[1..]);
    }
  }

  /** With an honest select, and standard input and output always ready, no run goes on for ever: it has a
      bounded number of moves, the server's EINTRs apart, and one that cannot go on has ended normally, with
      what fr still holds unprinted. */
  lemma HonestRunsEnd(start: State, moves: seq<Move>)
    requires Start(start) && Exec(HonestNext, start, moves).Some?
    ensures Counted(HonestCounts, moves) <= 42 * |start.stdin| + 23
    ensures var s := Exec(HonestNext, start, moves).value;
            (forall m :: HonestCounts(m) ==> HonestNext(s, m).None?) ==>
              s.relay.ending.Normal? && start.stdin == s.stdout + s.relay.fr.data
  {
    RunFollows(start, []);
    assert Measure(start) == 7 * |start.stdin| + 3;
    forall t, m | Inv(t) && HonestNext(t, m).Some?
      ensures Inv(HonestNext(t, m).value)
      ensures HonestMeasure(HonestNext(t, m).value) + (if HonestCounts(m) then 1 else 0) <= HonestMeasure(t)
    {
      HonestMoveKeeps(t, m);
    }
    BoundedRuns(HonestNext, Inv, HonestCounts, HonestMeasure, start, moves);
    HonestRunIsRun(start, moves);
    RunFollows(start, moves);
    var s := Exec(HonestNext, start, moves).value;
    if s.relay.ending.Running? {
      if s.place.AtSelect? {
        var m := HonestTurn(s);
      } else {
        var m := HonestPart(s);
      }
    } else {
      EndsWithResidueInFr(start, moves);
    }
  }
}

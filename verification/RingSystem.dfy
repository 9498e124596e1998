/** sigio/dgecho01.c as a step system: main loop, SIGIO handler and kernel, one memory access or
    system call at a time. `nqueue--` and `nqueue++` are a load and a store each. */
module RingSystem {
  import opened Bytes
  import opened RingQueue
  import opened Runs

  /** Where the main program is, by line: the two ioctl calls of lines 47 and 48, the first sigprocmask,
      then the loop. From Unblock up to Block the handler may run or not, which covers both what line 63
      does and what its comment says. */
  datatype Main = SetAsync | SetNonblock | Mask | Test | Suspend | Unblock | Send | Advance | Block | LoadCount
                | Uncount(reg: int)

  /** Where the handler is; `n` is its count of datagrams read so far. */
  datatype Handler = Idle | Check(n: nat) | Recv(n: nat) | Count(n: nat) | Counting(n: nat, reg: int)
                   | PutIndex(n: nat) | Leave(n: nat)

  /** `arrived` is every datagram that came in, the first `taken` of which the handler has read and the
      first `early` of which came before line 47; `echoed` is what has been sent. `pending` is SIGIO's. */
  datatype State = State(ring: Ring, main: Main, handler: Handler, pending: bool, quit: bool,
                         arrived: seq<Dgram>, early: nat, taken: nat, echoed: seq<Dgram>)

  /** `Signal` is SIGIO's delivery; `Hangup` is a SIGHUP, whose handler only prints, but which ends sigsuspend. */
  datatype Move = Arrive(d: Dgram) | Signal | Hangup | HandlerStep | MainStep

  /** SIGIO is not blocked, or may not be. */
  predicate CanInterrupt(main: Main) {
    main.SetNonblock? || main.Mask? || main.Suspend? || main.Send? || main.Advance? || main.Block?
  }

  function HandlerNext(s: State): Option<State> {
    var r := s.ring;
    match s.handler
    case Idle => None
    case Check(n) =>
      Some(if r.nqueue >= QSIZE then s.(quit := true) else s.(handler := Recv(n)))
    case Recv(n) =>
      if s.taken >= |s.arrived| then if s.main.SetNonblock? then None else Some(s.(handler := Leave(n)))
      else if r.iput >= |r.dg| || |r.dg[r.iput].buf| != MAXDG then None
      else Some(s.(ring := r.(dg := r.dg[r.iput := Store(r.dg[r.iput], s.arrived[s.taken])]),
                   taken := s.taken + 1, handler := Count(n + 1)))
    case Count(n) => Some(s.(handler := Counting(n, r.nqueue)))
    case Counting(n, reg) => Some(s.(ring := r.(nqueue := reg + 1), handler := PutIndex(n)))
    case PutIndex(n) => Some(s.(ring := r.(iput := Bump(r.iput)), handler := Check(n)))
    case Leave(n) =>
      if n >= |r.cntread| then None
      else Some(s.(ring := r.(cntread := r.cntread[n := r.cntread[n] + 1]), handler := Idle,
                   main := if s.main.Suspend? then Test else s.main))
  }

  function MainNext(s: State): Option<State> {
    var r := s.ring;
    match s.main
    case SetAsync => Some(s.(main := SetNonblock, early := |s.arrived|))
    case SetNonblock => Some(s.(main := Mask))
    case Mask => Some(s.(main := Test))
    case Test => Some(s.(main := if r.nqueue == 0 then Suspend else Unblock))
    case Suspend => None
    case Unblock => Some(s.(main := Send))
    case Send =>
      if r.iget >= |r.dg| then None else Some(s.(echoed := s.echoed + [Content(r.dg[r.iget])], main := Advance))
    case Advance => Some(s.(ring := r.(iget := Bump(r.iget)), main := Block))
    case Block => Some(s.(main := LoadCount))
    case LoadCount => Some(s.(main := Uncount(r.nqueue)))
    case Uncount(reg) => Some(s.(ring := r.(nqueue := reg - 1), main := Test))
  }

  /** The handler runs on the main thread: while it does, the main program stands still. Before line 47
      an arrival raises no signal. */
  function Next(s: State, m: Move): Option<State> {
    if m.Arrive? then Some(s.(arrived := s.arrived + [m.d], pending := !s.main.SetAsync?))
    else if s.quit then None
    else match m
      case Signal => if s.pending && s.handler.Idle? && CanInterrupt(s.main)
                     then Some(s.(pending := false, handler := Check(0))) else None
      case Hangup => Some(if s.main.Suspend? && s.handler.Idle? then s.(main := Test) else s)
      case HandlerStep => HandlerNext(s)
      case MainStep => if s.handler.Idle? then MainNext(s) else None
      case Arrive(_) => None
  }

  /** dg_echo gets a socket that is bound already: datagrams may be waiting in it. */
  ghost predicate Start(s: State) {
    && s.ring.Valid() && s.ring.iget == s.ring.iput == s.ring.nqueue == 0
    && (forall k :: 0 <= k <= QSIZE ==> s.ring.cntread[k] == 0)
    && s.main.SetAsync? && s.handler.Idle? && !s.pending && !s.quit && s.taken == 0 && s.echoed == []
  }

  /** Sent, but not yet taken off the count. */
  function SentUncounted(s: State): nat {
    if s.main.Advance? || s.main.Block? || s.main.LoadCount? || s.main.Uncount? then 1 else 0
  }

  /** In a slot, but not yet on the count. */
  function StoredUncounted(s: State): nat {
    if s.handler.Count? || s.handler.Counting? then 1 else 0
  }

  /** How many datagrams iget has passed. */
  function Past(s: State): int {
    if s.main.Advance? then |s.echoed| - 1 else |s.echoed|
  }

  /** How many datagrams iput has passed. */
  function Stored(s: State): int {
    if s.handler.Count? || s.handler.Counting? || s.handler.PutIndex? then s.taken - 1 else s.taken
  }

  function HandlerCount(h: Handler): nat {
    if h.Idle? then 0 else h.n
  }

  /** Sum of k * cntread[k]. */
  function Weighted(c: seq<nat>): nat {
    if c == [] then 0 else Weighted(c[..|c| - 1]) + (|c| - 1) * c[|c| - 1]
  }

  /** Datagrams in the ring and not yet sent. */
  function Live(s: State): int {
    s.taken - |s.echoed|
  }

  /** iput is iget plus the count, modulo QSIZE, up to what a step in progress has yet to store; and
      the count is exact whenever it can be looked at. */
  ghost predicate Counters(s: State) {
    && |s.echoed| <= s.taken <= |s.arrived| && Past(s) >= 0 && Stored(s) >= 0
    && s.ring.iget == Past(s) % QSIZE && s.ring.iput == Stored(s) % QSIZE
    && s.ring.nqueue == Live(s) + SentUncounted(s) - StoredUncounted(s)
    && 0 <= s.ring.nqueue <= QSIZE
  }

  /** What each actor may rely on where it is. */
  ghost predicate Places(s: State) {
    && (s.handler.Recv? || s.handler.Count? || s.handler.Counting? ==> s.ring.nqueue < QSIZE)
    && (s.main.Uncount? ==> s.main.reg == s.ring.nqueue) && (s.handler.Counting? ==> s.handler.reg == s.ring.nqueue)
    && (s.main.Unblock? || s.main.Send? ==> Live(s) - StoredUncounted(s) > 0)
    && (!s.handler.Idle? ==> CanInterrupt(s.main))
    && (s.quit ==> s.handler.Check? && s.ring.nqueue == QSIZE)
  }

  /** The ring holds, from head to tail, exactly the datagrams read and not yet sent; what was sent is
      what was read, each with its length and address. */
  ghost predicate Contents(s: State)
    requires s.ring.Valid() && |s.echoed| <= s.taken <= |s.arrived|
  {
    && (forall i :: |s.echoed| <= i < s.taken ==> Content(s.ring.dg[i % QSIZE]) == Clip(s.arrived[i]))
    && (forall i :: 0 <= i < |s.echoed| ==> s.echoed[i] == Clip(s.arrived[i]))
  }

  predicate SettingUp(main: Main) {
    main.SetAsync? || main.SetNonblock? || main.Mask?
  }

  /** Nothing has arrived since line 47. */
  predicate NoSignalYet(s: State) {
    s.main.SetAsync? || s.early == |s.arrived|
  }

  /** Once a datagram has come with a signal, for queued data SIGIO is pending, or the handler is still to
      look again. Datagrams that came before do not count for that. */
  ghost predicate Signals(s: State) {
    && (if NoSignalYet(s) then s.taken == 0 && !s.pending && s.handler.Idle? && s.echoed == []
        else s.taken < |s.arrived| ==> s.pending || (!s.handler.Idle? && !s.handler.Leave?))
    && (!s.main.SetAsync? ==> s.early <= |s.arrived|)
    && (SettingUp(s.main) ==> s.echoed == []) && (s.main.SetNonblock? ==> !s.handler.Leave?)
    && (s.main.Suspend? && s.handler.Idle? ==> s.ring.nqueue == 0)
  }

  ghost predicate Histogram(s: State)
    requires s.ring.Valid()
  {
    && Weighted(s.ring.cntread) + HandlerCount(s.handler) == s.taken
    && s.ring.cntread[QSIZE] == 0
    && (!s.handler.Idle? ==> s.handler.n <= s.ring.nqueue + StoredUncounted(s))
    && (s.handler.Leave? ==> s.handler.n < QSIZE)
  }

  ghost predicate Inv(s: State) {
    s.ring.Valid() && Counters(s) && Places(s) && Contents(s) && Signals(s) && Histogram(s)
  }

  lemma ModDistinct(i: int, j: int)
    requires 0 <= i < j < i + QSIZE
    ensures i % QSIZE != j % QSIZE
  {
  }

  lemma BumpIsMod(i: nat)
    ensures Bump(i % QSIZE) == (i + 1) % QSIZE
  {
  }

  lemma {:induction false} WeightedBump(c: seq<nat>, n: nat)
    requires n < |c|
    ensures Weighted(c[n := c[n] + 1]) == Weighted(c) + n
  {
    var c' := c[n := c[n] + 1];
    if n == |c| - 1 {
      assert c'[..n] == c[..n];
      assert n * (c[n] + 1) == n * c[n] + n;
    } else {
      WeightedBump(c[..|c| - 1], n);
      assert c'[..|c| - 1] == c[..|c| - 1][n := c[n] + 1];
    }
  }

  lemma RecvCounters(s: State)
    requires Inv(s) && !s.quit && s.handler.Recv? && HandlerNext(s).Some?
    ensures var t := HandlerNext(s).value; t.ring.Valid() && Counters(t)
  {
    if s.taken < |s.arrived| {
      var t := HandlerNext(s).value;
      assert t.ring.iput == s.ring.iput && Stored(t) == Stored(s) && Past(t) == Past(s);
    }
  }

  lemma PutCounters(s: State)
    requires Inv(s) && !s.quit && s.handler.PutIndex? && HandlerNext(s).Some?
    ensures var t := HandlerNext(s).value; t.ring.Valid() && Counters(t)
  {
    BumpIsMod(s.taken - 1);
    var t := HandlerNext(s).value;
    assert Stored(t) == s.taken == Stored(s) + 1 && Past(t) == Past(s);
  }

  lemma HandlerCounters(s: State)
    requires Inv(s) && !s.quit && HandlerNext(s).Some?
    ensures var t := HandlerNext(s).value; t.ring.Valid() && Counters(t)
  {
    if s.handler.Recv? {
      RecvCounters(s);
    } else if s.handler.PutIndex? {
      PutCounters(s);
    } else {
      var t := HandlerNext(s).value;
      assert t.ring.dg == s.ring.dg && Stored(t) == Stored(s) && Past(t) == Past(s);
    }
  }

  lemma MainCounters(s: State)
    requires Inv(s) && !s.quit && s.handler.Idle? && MainNext(s).Some?
    ensures var t := MainNext(s).value; t.ring.Valid() && Counters(t)
  {
    match s.main {
      case SetAsync =>
      case SetNonblock =>
      case Mask =>
      case Test =>
      case Suspend =>
      case Unblock =>
      case Send =>
      case Advance => BumpIsMod(|s.echoed| - 1);
      case Block =>
      case LoadCount =>
      case Uncount(reg) =>
    }
  }

  lemma CountersKept(s: State, m: Move)
    requires Inv(s) && Next(s, m).Some?
    ensures var t := Next(s, m).value; t.ring.Valid() && Counters(t)
  {
    if m.HandlerStep? {
      HandlerCounters(s);
    } else if m.MainStep? {
      MainCounters(s);
    }
  }

  lemma PlacesKept(s: State, m: Move)
    requires Inv(s) && Next(s, m).Some?
    ensures Places(Next(s, m).value)
  {
  }

  /** The handler's store: the slot at iput holds nothing that is still to be sent. */
  lemma StoreIsSafe(s: State)
    requires Inv(s) && !s.quit && s.handler.Recv? && s.taken < |s.arrived| && HandlerNext(s).Some?
    ensures forall i :: |s.echoed| <= i < s.taken ==> i % QSIZE != s.ring.iput
    ensures s.main.Send? ==> s.ring.iget != s.ring.iput
    ensures var t := HandlerNext(s).value; t.ring.Valid() && Contents(t)
  {
    forall i | |s.echoed| <= i < s.taken
      ensures i % QSIZE != s.ring.iput
    {
      ModDistinct(i, s.taken);
    }
    var t := HandlerNext(s).value;
    assert Content(t.ring.dg[s.taken % QSIZE]) == Clip(s.arrived[s.taken]);
  }

  lemma SendKeepsContents(s: State)
    requires Inv(s) && !s.quit && s.handler.Idle? && s.main.Send? && MainNext(s).Some?
    ensures var t := MainNext(s).value; t.ring.Valid() && |t.echoed| <= t.taken <= |t.arrived| && Contents(t)
  {
    assert Content(s.ring.dg[s.ring.iget]) == Clip(s.arrived[|s.echoed|]);
  }

  lemma ContentsKept(s: State, m: Move)
    requires Inv(s) && Next(s, m).Some?
    ensures var t := Next(s, m).value; t.ring.Valid() && Counters(t) && Contents(t)
  {
    CountersKept(s, m);
    if m.HandlerStep? && s.handler.Recv? && s.taken < |s.arrived| {
      StoreIsSafe(s);
    } else if m.MainStep? && s.main.Send? {
      SendKeepsContents(s);
    } else {
      var t := Next(s, m).value;
      assert t.ring.dg == s.ring.dg && t.taken == s.taken && t.echoed == s.echoed && s.arrived <= t.arrived;
    }
  }

  lemma SignalsKept(s: State, m: Move)
    requires Inv(s) && Next(s, m).Some?
    ensures Signals(Next(s, m).value)
  {
  }

  lemma HistogramKept(s: State, m: Move)
    requires Inv(s) && Next(s, m).Some?
    ensures var t := Next(s, m).value; t.ring.Valid() && Histogram(t)
  {
    if m.HandlerStep? && s.handler.Leave? {
      CallCounted(s);
    }
  }

  lemma CallCounted(s: State)
    requires Inv(s) && !s.quit && s.handler.Leave? && HandlerNext(s).Some?
    ensures var t := HandlerNext(s).value; t.ring.Valid() && Histogram(t)
  {
    WeightedBump(s.ring.cntread, s.handler.n);
  }

  lemma MoveKeeps(s: State, m: Move)
    requires Inv(s) && Next(s, m).Some?
    ensures Inv(Next(s, m).value)
  {
    CountersKept(s, m);
    PlacesKept(s, m);
    ContentsKept(s, m);
    SignalsKept(s, m);
    HistogramKept(s, m);
  }

  lemma RunKeeps(start: State, moves: seq<Move>)
    requires Start(start) && Exec(Next, start, moves).Some?
    ensures Inv(Exec(Next, start, moves).value)
  {
    AllZero(start.ring.cntread);
    forall s, m | Inv(s) && Next(s, m).Some?
      ensures Inv(Next(s, m).value)
    {
      MoveKeeps(s, m);
    }
    Invariant(Next, Inv, start, moves);
  }

  lemma {:induction false} AllZero(c: seq<nat>)
    requires forall k :: 0 <= k < |c| ==> c[k] == 0
    ensures Weighted(c) == 0
  {
    if c == [] {
    } else {
      AllZero(c[..|c| - 1]);
    }
  }

  // ----------------------------------------------------------------- for every run

  /** The datagrams in the ring that are still to be sent, from the head. */
  function Queue(s: State): seq<Dgram>
    requires s.ring.Valid() && |s.echoed| <= s.taken
  {
    seq(Live(s), k requires 0 <= k < Live(s) => Content(s.ring.dg[(|s.echoed| + k) % QSIZE]))
  }

  /** First in, first out, at every point of every run: what has been read from the socket is what has
      been sent back followed by what the ring holds, datagram by datagram, cut to MAXDG bytes and
      with its address. */
  lemma EchoedThenQueued(start: State, moves: seq<Move>)
    requires Start(start) && Exec(Next, start, moves).Some?
    ensures var s := Exec(Next, start, moves).value;
            && s.ring.Valid() && |s.echoed| <= s.taken <= |s.arrived| && Live(s) <= QSIZE
            && Clips(s.arrived[..s.taken]) == s.echoed + Queue(s)
            && (Fit(s.arrived[..s.taken]) ==> s.arrived[..s.taken] == s.echoed + Queue(s))
  {
    RunKeeps(start, moves);
    var s := Exec(Next, start, moves).value;
    if Fit(s.arrived[..s.taken]) {
      FitStayWhole(s.arrived[..s.taken]);
    }
  }

  /** The counters: no update of nqueue is lost, the indices agree with it, and the histogram accounts
      for every datagram; no completed handler call has read QSIZE of them. */
  lemma CountersAgree(start: State, moves: seq<Move>)
    requires Start(start) && Exec(Next, start, moves).Some?
    ensures var s := Exec(Next, start, moves).value;
            && s.ring.Valid()
            && (s.handler.Idle? ==> s.ring.nqueue == Live(s) + SentUncounted(s))
            && (s.handler.Idle? && !s.main.Advance? ==>
                  s.ring.iput == (s.ring.iget + s.ring.nqueue - SentUncounted(s)) % QSIZE)
            && Weighted(s.ring.cntread) + HandlerCount(s.handler) == s.taken
            && s.ring.cntread[QSIZE] == 0
  {
    RunKeeps(start, moves);
    var s := Exec(Next, start, moves).value;
    if s.handler.Idle? && !s.main.Advance? {
      ModAdd(|s.echoed|, Live(s));
    }
  }

  lemma ModAdd(a: nat, b: nat)
    ensures (a % QSIZE + b) % QSIZE == (a + b) % QSIZE
  {
  }

  /** The handler never stores into the slot that is being sent, nor into any other still to be sent. */
  lemma SlotsAreSafe(start: State, moves: seq<Move>)
    requires Start(start) && Exec(Next, start, moves).Some?
    requires var s := Exec(Next, start, moves).value; !s.quit && s.handler.Recv? && s.taken < |s.arrived|
    ensures var s := Exec(Next, start, moves).value;
            && (s.main.Send? ==> s.ring.iget != s.ring.iput)
            && forall i :: |s.echoed| <= i < s.taken ==> i % QSIZE != s.ring.iput
  {
    RunKeeps(start, moves);
    StoreIsSafe(Exec(Next, start, moves).value);
  }

  /** Main sleeps only with nothing counted, and the handler can start then if the socket has data; that
      holds unless all the data was there before line 47, for which nobody is ever signalled. */
  lemma NoLostWakeup(start: State, moves: seq<Move>)
    requires Start(start) && Exec(Next, start, moves).Some?
    ensures var s := Exec(Next, start, moves).value;
            s.main.Suspend? && s.handler.Idle? && !s.quit ==>
              s.ring.nqueue == 0 && |s.echoed| == s.taken
              && (s.taken < |s.arrived| && Next(s, Signal).None? <==> 0 < |s.arrived| == s.early)
  {
    RunKeeps(start, moves);
  }

  /** The program quits only with all QSIZE slots taken: by unsent datagrams, or by one less and the
      one just sent that is not yet off the count. */
  lemma QuitsOnlyWhenFull(start: State, moves: seq<Move>)
    requires Start(start) && Exec(Next, start, moves).Some? && Exec(Next, start, moves).value.quit
    ensures var s := Exec(Next, start, moves).value; Live(s) + SentUncounted(s) == QSIZE
  {
    RunKeeps(start, moves);
  }

  // ------------------------------------------------------------------------ progress

  /** Moves of the program: everything but arrivals. */
  function QuietNext(s: State, m: Move): Option<State> {
    if m.Arrive? then None else Next(s, m)
  }

  function Rank(m: Main): nat {
    match m
    case SetAsync => 10
    case SetNonblock => 9
    case Mask => 8
    case Test => 7
    case Suspend => 0
    case Unblock => 6
    case Send => 5
    case Advance => 4
    case Block => 3
    case LoadCount => 2
    case Uncount(_) => 1
  }

  function HandlerRank(h: Handler): nat {
    match h
    case Idle => 0
    case Check(_) => 10
    case Recv(_) => 9
    case Count(_) => 13
    case Counting(_, _) => 12
    case PutIndex(_) => 11
    case Leave(_) => 8
  }

  function Measure(s: State): nat {
    (if s.taken <= |s.arrived| then 16 * (|s.arrived| - s.taken) else 0)
    + (if Live(s) >= 0 then 8 * (Live(s) + SentUncounted(s)) else 0)
    + Rank(s.main) + HandlerRank(s.handler) + (if s.pending then 11 else 0) + (if s.quit then 0 else 1)
  }

  lemma HandlerProgresses(s: State)
    requires Inv(s) && !s.quit && HandlerNext(s).Some?
    ensures Measure(HandlerNext(s).value) < Measure(s)
  {
    var t := HandlerNext(s).value;
    HandlerCounters(s);
    assert SentUncounted(t) == SentUncounted(s) && |t.echoed| == |s.echoed|;
  }

  lemma MainProgresses(s: State)
    requires Inv(s) && !s.quit && s.handler.Idle? && MainNext(s).Some?
    ensures Measure(MainNext(s).value) < Measure(s)
  {
    var t := MainNext(s).value;
    MainCounters(s);
    assert t.taken == s.taken && t.arrived == s.arrived && t.handler == s.handler && t.pending == s.pending;
  }

  lemma QuietMoveProgresses(s: State, m: Move)
    requires Inv(s) && QuietNext(s, m).Some?
    ensures Inv(QuietNext(s, m).value)
    ensures Measure(QuietNext(s, m).value) < Measure(s) + if m.Hangup? then 8 else 0
  {
    MoveKeeps(s, m);
    if m.HandlerStep? {
      HandlerProgresses(s);
    } else if m.MainStep? {
      MainProgresses(s);
    }
  }

  lemma {:induction false} QuietRun(s: State, quiet: seq<Move>)
    requires Inv(s) && Exec(QuietNext, s, quiet).Some?
    ensures var t := Exec(QuietNext, s, quiet).value;
            Inv(t) && |quiet| + Measure(t) <= Measure(s) + 8 * Counted(IsHangup, quiet)
    decreases |quiet|
  {
    if quiet == [] {
    } else {
      QuietMoveProgresses(s, quiet[0]);
      QuietRun(QuietNext(s, quiet[0]).value, quiet[1..]);
    }
  }

  predicate IsHangup(m: Move) {
    m.Hangup?
  }

  /** Only the network and whoever sends a SIGHUP have a move left. */
  ghost predicate AtRest(s: State) {
    forall m: Move :: !m.Hangup? ==> QuietNext(s, m).None?
  }

  lemma RestIsSleep(t: State)
    requires Inv(t) && !t.quit && AtRest(t)
    ensures t.main.Suspend? || t.main.SetNonblock?
    ensures t.main.Suspend? ==> if NoSignalYet(t) then t.echoed == [] && t.taken == 0 else t.echoed == Clips(t.arrived)
    ensures t.main.SetNonblock? ==> t.handler.Recv? && t.taken == |t.arrived| > t.early && t.echoed == []
  {
    assert QuietNext(t, HandlerStep).None? && QuietNext(t, MainStep).None? && QuietNext(t, Signal).None?;
  }

  /** SIGIO is taken between lines 47 and 48. */
  predicate TooSoon(s: State, m: Move) {
    m.Signal? && s.main.SetNonblock?
  }

  /** The handler has been entered there: it never leaves again. */
  predicate Caught(s: State) {
    s.main.SetNonblock? && !s.handler.Idle?
  }

  lemma {:induction false} CaughtIffTooSoon(s: State, moves: seq<Move>)
    requires Inv(s) && Exec(Next, s, moves).Some?
    ensures Caught(Exec(Next, s, moves).value) <==> Caught(s) || Happens(Next, TooSoon, s, moves)
    decreases |moves|
  {
    if moves == [] {
    } else {
      MoveKeeps(s, moves[0]);
      CaughtIffTooSoon(Next(s, moves[0]).value, moves[1..]);
    }
  }

  /** While no more datagrams arrive, every run comes to rest, but for SIGHUPs. It has quit only if at least
      QSIZE datagrams came. If it has not, everything that ever arrived has been sent back, in order, if and
      only if no SIGIO was taken between lines 47 and 48, where the handler then waits in recvfrom for good,
      and not all that came was there before line 47, of which main is never told. Otherwise nothing has. */
  lemma EverythingIsEchoed(start: State, before: seq<Move>, quiet: seq<Move>)
    requires Start(start) && Exec(Next, start, before).Some?
    requires Exec(QuietNext, Exec(Next, start, before).value, quiet).Some?
    ensures |quiet| <= Measure(Exec(Next, start, before).value) + 8 * Counted(IsHangup, quiet)
    ensures var t := Exec(QuietNext, Exec(Next, start, before).value, quiet).value;
            && (t.quit ==> |t.arrived| >= QSIZE)
            && (AtRest(t) && !t.quit ==>
                  && (t.echoed == Clips(t.arrived) <==>
                        !Happens(Next, TooSoon, start, before + quiet) && (t.arrived == [] || |t.arrived| > t.early))
                  && (Fit(t.arrived) ==> Clips(t.arrived) == t.arrived)
                  && (t.echoed != Clips(t.arrived) ==> t.echoed == []))
  {
    RunKeeps(start, before);
    RunKeeps(start, []);
    var s := Exec(Next, start, before).value;
    QuietRun(s, quiet);
    QuietRunIsRun(s, quiet);
    ExecConcat(Next, start, before, quiet);
    var t := Exec(QuietNext, s, quiet).value;
    TooFewToQuit(start, start, before + quiet);
    CaughtIffTooSoon(start, before + quiet);
    if AtRest(t) && !t.quit {
      EchoedAtRest(t);
      if Fit(t.arrived) {
        FitStayWhole(t.arrived);
      }
    }
  }

  lemma EchoedAtRest(t: State)
    requires Inv(t) && !t.quit && AtRest(t)
    ensures t.echoed == Clips(t.arrived) <==> !Caught(t) && (t.arrived == [] || |t.arrived| > t.early)
    ensures t.echoed != Clips(t.arrived) ==> t.echoed == []
  {
    RestIsSleep(t);
  }

  lemma {:induction false} QuietRunIsRun(s: State, quiet: seq<Move>)
    requires Exec(QuietNext, s, quiet).Some?
    ensures Exec(Next, s, quiet) == Exec(QuietNext, s, quiet)
    decreases |quiet|
  {
    if quiet == [] {
    } else {
      QuietRunIsRun(QuietNext(s, quiet[0]).value, quiet[1..]);
    }
  }

  /** The lost wake-up: whatever waits in the socket at line 47, if nothing else comes main goes to sleep
      with it and nothing can happen any more. */
  lemma BacklogIsLost(start: State)
    requires Start(start) && start.arrived != []
    ensures Exec(Next, start, [MainStep, MainStep, MainStep, MainStep]).Some?
    ensures var t := Exec(Next, start, [MainStep, MainStep, MainStep, MainStep]).value;
            AtRest(t) && t.main.Suspend? && t.arrived == start.arrived && t.taken == 0 && t.echoed == []
  {
    FourSteps(start);
  }

  lemma FourSteps(s: State)
    requires s.main.SetAsync? && s.handler.Idle? && !s.quit && s.ring.nqueue == 0
    ensures Exec(Next, s, [MainStep, MainStep, MainStep, MainStep]) == Some(s.(main := Suspend, early := |s.arrived|))
  {
    var four, three := [MainStep, MainStep, MainStep, MainStep], [MainStep, MainStep, MainStep];
    var two, one := [MainStep, MainStep], [MainStep];
    assert four[1..] == three && three[1..] == two && two[1..] == one && one[1..] == [];
    var a := Next(s, MainStep).value;
    var b := Next(a, MainStep).value;
    var c := Next(b, MainStep).value;
    assert Exec(Next, c, one) == Exec(Next, Next(c, MainStep).value, []);
    assert Exec(Next, b, two) == Exec(Next, c, one);
    assert Exec(Next, a, three) == Exec(Next, b, two);
  }

  // ------------------------------------------------------------------ when it quits

  /** A point at which nothing is stored and unsent, nor sent and uncounted. */
  ghost predicate Empty(s: State) {
    Inv(s) && !s.quit && Live(s) == 0 && SentUncounted(s) == 0
  }

  /** What a run from such a point has behind it. */
  ghost predicate Since(base: State, s: State) {
    Inv(s) && |base.echoed| + SentUncounted(s) <= |s.echoed|
  }

  lemma SinceKept(base: State, s: State, m: Move)
    requires Since(base, s) && Next(s, m).Some?
    ensures Since(base, Next(s, m).value)
  {
    MoveKeeps(s, m);
  }

  /** From an empty ring, a run can quit only if QSIZE datagrams are unread at its start or come in it. */
  lemma TooFewToQuit(start: State, base: State, moves: seq<Move>)
    requires Start(start) && (base == start || Empty(base)) && Exec(Next, base, moves).Some?
    ensures var t := Exec(Next, base, moves).value; t.quit ==> |t.arrived| - base.taken >= QSIZE
  {
    if base == start {
      RunKeeps(start, []);
    }
    forall s, m | Since(base, s) && Next(s, m).Some?
      ensures Since(base, Next(s, m).value)
    {
      SinceKept(base, s, m);
    }
    Invariant(Next, s => Since(base, s), base, moves);
  }

  /** The handler with that many datagrams unread, and no arrival in between, fills the ring and quits. */
  lemma {:induction false} FillsAndQuits(base: State, s: State) returns (t: State)
    requires Reaches(Next, base, s) && Inv(s) && !s.quit && s.handler.Check?
    requires |s.arrived| - s.taken >= QSIZE - s.ring.nqueue
    ensures Reaches(Next, base, t) && t.quit && t.arrived == s.arrived
    decreases QSIZE - s.ring.nqueue
  {
    if s.ring.nqueue >= QSIZE {
      t := Next(s, HandlerStep).value;
      ReachesThen(Next, base, s, HandlerStep);
    } else {
      var u := ReadsOne(base, s);
      t := FillsAndQuits(base, u);
    }
  }

  /** Once round the handler's loop. */
  lemma ReadsOne(base: State, s: State) returns (t: State)
    requires Reaches(Next, base, s) && Inv(s) && !s.quit && s.handler.Check?
    requires s.ring.nqueue < QSIZE && s.taken < |s.arrived|
    ensures Reaches(Next, base, t) && Inv(t) && !t.quit && t.handler.Check?
    ensures t.arrived == s.arrived && t.taken == s.taken + 1 && t.ring.nqueue == s.ring.nqueue + 1
    ensures t.main == s.main && t.pending == s.pending && t.echoed == s.echoed
  {
    var a := HandlerGoesOn(base, s);
    var b := HandlerGoesOn(base, a);
    var c := HandlerGoesOn(base, b);
    var d := HandlerGoesOn(base, c);
    t := HandlerGoesOn(base, d);
  }

  lemma HandlerGoesOn(base: State, s: State) returns (t: State)
    requires Reaches(Next, base, s) && Inv(s) && !s.quit && HandlerNext(s).Some?
    ensures t == HandlerNext(s).value && Reaches(Next, base, t) && Inv(t)
  {
    t := HandlerNext(s).value;
    ReachesThen(Next, base, s, HandlerStep);
    MoveKeeps(s, HandlerStep);
  }

  /** Datagrams come while main sleeps. */
  lemma {:induction false} Burst(base: State, s: State, n: nat) returns (t: State)
    requires Reaches(Next, base, s) && Empty(s) && s.main.Suspend? && s.handler.Idle?
    ensures Reaches(Next, base, t) && Empty(t) && t.main.Suspend? && t.handler.Idle?
    ensures |t.arrived| == |s.arrived| + n && t.taken == s.taken && (n > 0 || s.pending ==> t.pending)
    decreases n
  {
    if n == 0 {
      t := s;
    } else {
      var d := Dgram([], []);
      ReachesThen(Next, base, s, Arrive(d));
      MoveKeeps(s, Arrive(d));
      t := Burst(base, Next(s, Arrive(d)).value, n - 1);
    }
  }

  lemma {:induction false} ReadsAll(base: State, s: State) returns (t: State)
    requires Reaches(Next, base, s) && Inv(s) && !s.quit && s.handler.Check?
    requires |s.arrived| - s.taken < QSIZE - s.ring.nqueue
    ensures Reaches(Next, base, t) && Inv(t) && !t.quit && t.handler.Check? && t.taken == |t.arrived|
            && t.ring.nqueue < QSIZE
    ensures t.main == s.main && t.pending == s.pending && t.echoed == s.echoed && t.arrived == s.arrived
    decreases |s.arrived| - s.taken
  {
    if s.taken == |s.arrived| {
      t := s;
    } else {
      var u := ReadsOne(base, s);
      t := ReadsAll(base, u);
    }
  }

  /** A SIGIO between lines 47 and 48 is enough: the handler reads what is there, then waits for more in a
      recvfrom that still blocks. */
  lemma WaitsForGood(start: State, d: Dgram) returns (t: State)
    requires Start(start) && |start.arrived| + 1 < QSIZE
    ensures Reaches(Next, start, t) && AtRest(t) && !t.quit && Caught(t)
    ensures t.arrived == start.arrived + [d] && t.echoed == []
  {
    RunKeeps(start, []);
    ReachesByMove(Next, start, MainStep);
    MoveKeeps(start, MainStep);
    var a := Next(start, MainStep).value;
    ReachesThen(Next, start, a, Arrive(d));
    MoveKeeps(a, Arrive(d));
    var b := Next(a, Arrive(d)).value;
    ReachesThen(Next, start, b, Signal);
    MoveKeeps(b, Signal);
    var c := ReadsAll(start, Next(b, Signal).value);
    t := HandlerGoesOn(start, c);
  }

  /** The handler can come to wait for good if and only if the backlog leaves room in the ring for one more
      datagram without filling it: with a larger one such a signal ends the program by overflow instead. */
  lemma SignalBeforeNonblock(start: State)
    requires Start(start)
    ensures (exists t :: Reaches(Next, start, t) && AtRest(t) && !t.quit && Caught(t)) <==> |start.arrived| + 1 < QSIZE
  {
    if |start.arrived| + 1 < QSIZE {
      var t := WaitsForGood(start, Dgram([], []));
    } else {
      forall t | Reaches(Next, start, t) && AtRest(t) && !t.quit
        ensures !Caught(t)
      {
        var moves: seq<Move> :| Exec(Next, start, moves) == Some(t);
        SinceStart(start, moves);
        RestIsSleep(t);
      }
    }
  }

  ghost predicate CanQuitAfter(s: State, n: nat) {
    exists t :: Reaches(Next, s, t) && t.quit && |t.arrived| == |s.arrived| + n
  }

  /** From a sleep, `n` more datagrams can make the program quit if and only if with those unread they are
      at least QSIZE, and a signal comes with them or is there: a burst that just fits the ring is enough. */
  lemma AsleepQuitsIff(start: State, before: seq<Move>, n: nat)
    requires Start(start) && Exec(Next, start, before).Some?
    requires var s := Exec(Next, start, before).value; s.main.Suspend? && s.handler.Idle? && !s.quit
    ensures var s := Exec(Next, start, before).value;
            CanQuitAfter(s, n) <==> |s.arrived| - s.taken + n >= QSIZE && (n > 0 || s.pending)
  {
    RunKeeps(start, before);
    var s := Exec(Next, start, before).value;
    if |s.arrived| - s.taken + n >= QSIZE && (n > 0 || s.pending) {
      ReachesItself(Next, s);
      var t := QuitsOnBurst(s, s, n);
    }
    if CanQuitAfter(s, n) {
      var t :| Reaches(Next, s, t) && t.quit && |t.arrived| == |s.arrived| + n;
      var moves: seq<Move> :| Exec(Next, s, moves) == Some(t);
      TooFewToQuit(start, s, moves);
      if n == 0 && !s.pending {
        NothingHappens(s, moves);
        assert false;
      }
    }
  }

  lemma QuitsOnBurst(base: State, s: State, n: nat) returns (t: State)
    requires Reaches(Next, base, s) && Empty(s) && s.main.Suspend? && s.handler.Idle?
    requires |s.arrived| - s.taken + n >= QSIZE && (n > 0 || s.pending)
    ensures Reaches(Next, base, t) && t.quit && |t.arrived| == |s.arrived| + n
  {
    var u := Burst(base, s, n);
    ReachesThen(Next, base, u, Signal);
    MoveKeeps(u, Signal);
    t := FillsAndQuits(base, Next(u, Signal).value);
  }

  /** Until something comes, a sleeper without a signal at most looks at the count and sleeps on. */
  lemma {:induction false} NothingHappens(s: State, moves: seq<Move>)
    requires (s.main.Suspend? || s.main.Test?) && s.ring.nqueue == 0 && s.handler.Idle? && !s.pending && !s.quit
    requires Exec(Next, s, moves).Some?
    ensures var t := Exec(Next, s, moves).value;
            |t.arrived| >= |s.arrived| && (|t.arrived| == |s.arrived| ==> t == s.(main := t.main) && !t.quit)
    decreases |moves|
  {
    if moves == [] {
    } else {
      var u := Next(s, moves[0]).value;
      OnlyMore(u, moves[1..]);
      if !moves[0].Arrive? {
        NothingHappens(u, moves[1..]);
      }
    }
  }

  lemma {:induction false} OnlyMore(s: State, moves: seq<Move>)
    requires Exec(Next, s, moves).Some?
    ensures |Exec(Next, s, moves).value.arrived| >= |s.arrived|
    decreases |moves|
  {
    if moves == [] {
    } else {
      OnlyMore(Next(s, moves[0]).value, moves[1..]);
    }
  }

  /** Over whole runs: `n` datagrams after the start, with those waiting at the start, can make the program
      quit if and only if they are at least QSIZE in all and `n` is not 0. */
  lemma QuitsIffEnoughArrive(start: State, n: nat)
    requires Start(start)
    ensures CanQuitAfter(start, n) <==> |start.arrived| + n >= QSIZE && n > 0
  {
    RunKeeps(start, []);
    if |start.arrived| + n >= QSIZE && n > 0 {
      FourSteps(start);
      var s := Exec(Next, start, [MainStep, MainStep, MainStep, MainStep]).value;
      RunKeeps(start, [MainStep, MainStep, MainStep, MainStep]);
      var t := QuitsOnBurst(start, s, n);
    }
    if CanQuitAfter(start, n) {
      var t :| Reaches(Next, start, t) && t.quit && |t.arrived| == |start.arrived| + n;
      var moves: seq<Move> :| Exec(Next, start, moves) == Some(t);
      TooFewToQuit(start, start, moves);
      if n == 0 {
        NeverSignalled(start, moves);
      }
    }
  }

  /** Without an arrival nothing is ever signalled. */
  lemma NeverSignalled(start: State, moves: seq<Move>)
    requires Start(start) && Exec(Next, start, moves).Some?
    ensures var t := Exec(Next, start, moves).value; |t.arrived| == |start.arrived| ==> !t.quit
  {
    SinceStart(start, moves);
  }

  lemma SinceStart(start: State, moves: seq<Move>)
    requires Start(start) && Exec(Next, start, moves).Some?
    ensures SinceEarly(start, Exec(Next, start, moves).value)
  {
    RunKeeps(start, []);
    forall s, m | SinceEarly(start, s) && Next(s, m).Some?
      ensures SinceEarly(start, Next(s, m).value)
    {
      MoveKeeps(s, m);
    }
    Invariant(Next, s => SinceEarly(start, s), start, moves);
  }

  ghost predicate SinceEarly(start: State, s: State) {
    Inv(s) && |s.arrived| >= |start.arrived| && (!s.main.SetAsync? ==> s.early >= |start.arrived|)
  }

  // ---------------------------------------------------- the handler and the code of sig_io

  /** The moves during a handler call. */
  function CallNext(s: State, m: Move): Option<State> {
    if m.HandlerStep? || m.Arrive? then Next(s, m) else None
  }

  /** The variables during a call that started with `r` and has read `got`: the datagram under way is
      stored first, then counted, then passed by iput. */
  function RingSoFar(r: Ring, got: seq<Dgram>, h: Handler): Ring
    requires r.Valid() && |got| <= QSIZE
  {
    var uncounted := if h.Count? || h.Counting? then 1 else 0;
    var behind := if h.Count? || h.Counting? || h.PutIndex? then 1 else 0;
    r.(dg := StoreAll(r.dg, r.iput, got), nqueue := r.nqueue + |got| - uncounted,
       iput := At(r.iput, if |got| < behind then 0 else |got| - behind))
  }

  /** `seen` datagrams had arrived when the call started. */
  ghost predicate InCall(r: Ring, seen: nat, got: seq<Dgram>, t: State)
    requires r.Valid()
  {
    && 0 <= r.nqueue && r.nqueue + |got| <= QSIZE
    && (t.handler.Idle? || t.handler.Leave? ==> r.nqueue + |got| < QSIZE && seen <= t.taken)
    && if t.handler.Idle? then t.ring == AfterSigIo(r, got)
       else t.handler.n == |got| && t.ring == RingSoFar(r, got, t.handler)
  }

  lemma CallStores(r: Ring, seen: nat, got: seq<Dgram>, t: State)
    requires r.Valid() && InCall(r, seen, got, t) && t.handler.Recv? && t.taken < |t.arrived|
             && r.nqueue + |got| < QSIZE
    ensures HandlerNext(t).Some? && InCall(r, seen, got + [t.arrived[t.taken]], HandlerNext(t).value)
  {
    StoreOneMore(r.dg, r.iput, got, t.arrived[t.taken]);
  }

  lemma CallStep(r: Ring, seen: nat, got: seq<Dgram>, t: State)
    requires r.Valid() && InCall(r, seen, got, t) && HandlerNext(t).Some? && Places(t) && seen <= |t.arrived|
    requires t.handler.Recv? ==> t.taken >= |t.arrived|
    requires !t.handler.Recv? && !t.handler.Check? && !t.handler.Leave? ==> got != []
    ensures InCall(r, seen, got, HandlerNext(t).value)
  {
    if t.handler.PutIndex? {
      DistinctSlots(r.iput, |got| - 1);
    }
  }

  /** What holds of a call from `s`. */
  ghost predicate Calling(s: State, t: State)
    requires s.ring.Valid()
  {
    && s.taken <= t.taken <= |t.arrived| && s.arrived <= t.arrived
    && (t.handler.Count? || t.handler.Counting? || t.handler.PutIndex? ==> s.taken < t.taken)
    && InCall(s.ring, |s.arrived|, t.arrived[s.taken..t.taken], t)
  }

  lemma CallStepGoesOn(s: State, t: State)
    requires s.ring.Valid() && Calling(s, t) && Places(t) && HandlerNext(t).Some?
    ensures Calling(s, HandlerNext(t).value)
  {
    if t.handler.Recv? && t.taken < |t.arrived| {
      CallReads(s, t);
    } else {
      CallStep(s.ring, |s.arrived|, t.arrived[s.taken..t.taken], t);
    }
  }

  lemma CallReads(s: State, t: State)
    requires s.ring.Valid() && Calling(s, t) && Places(t) && t.handler.Recv? && t.taken < |t.arrived|
    ensures HandlerNext(t).Some? && Calling(s, HandlerNext(t).value)
  {
    var got := t.arrived[s.taken..t.taken];
    CallStores(s.ring, |s.arrived|, got, t);
    assert t.arrived[s.taken..t.taken + 1] == got + [t.arrived[t.taken]];
  }

  lemma CallGoesOn(s: State, t: State, m: Move)
    requires s.ring.Valid() && Calling(s, t) && Inv(t) && CallNext(t, m).Some?
    ensures Calling(s, CallNext(t, m).value)
  {
    if m.HandlerStep? {
      CallStepGoesOn(s, t);
    } else {
      assert CallNext(t, m).value.arrived[s.taken..t.taken] == t.arrived[s.taken..t.taken];
    }
  }

  /** A handler call of the step system, whatever arrives during it, does to the program's variables what
      sig_io does: it ends with the ring full, or has read all that was there and counted the call. */
  lemma HandlerCallIsSigIo(s: State, call: seq<Move>)
    requires Inv(s) && !s.quit && s.handler == Check(0) && Exec(CallNext, s, call).Some?
    requires var t := Exec(CallNext, s, call).value; t.quit || t.handler.Idle?
    ensures var t := Exec(CallNext, s, call).value;
            && s.taken <= t.taken <= |t.arrived| && s.ring.nqueue + (t.taken - s.taken) <= QSIZE
            && t.ring == AfterSigIo(s.ring, t.arrived[s.taken..t.taken])
            && (t.quit <==> t.ring.nqueue == QSIZE)
            && (!t.quit ==> |s.arrived| <= t.taken)
  {
    CallBegins(s);
    var t := CallSoFar(s, s, call);
    EndOfCall(s, t);
  }

  lemma CallBegins(s: State)
    requires Inv(s) && s.handler == Check(0)
    ensures Calling(s, s)
  {
    assert s.arrived[s.taken..s.taken] == [];
  }

  lemma {:induction false} CallSoFar(s: State, t: State, call: seq<Move>) returns (u: State)
    requires s.ring.Valid() && Calling(s, t) && Inv(t) && Exec(CallNext, t, call).Some?
    ensures u == Exec(CallNext, t, call).value && Calling(s, u) && Inv(u)
    decreases |call|
  {
    if call == [] {
      u := t;
    } else {
      CallGoesOn(s, t, call[0]);
      MoveKeeps(t, call[0]);
      u := CallSoFar(s, CallNext(t, call[0]).value, call[1..]);
    }
  }

  lemma EndOfCall(s: State, t: State)
    requires s.ring.Valid() && Calling(s, t) && Inv(t) && (t.quit || t.handler.Idle?)
    ensures s.ring.nqueue + (t.taken - s.taken) <= QSIZE && t.ring == AfterSigIo(s.ring, t.arrived[s.taken..t.taken])
    ensures (t.quit <==> t.ring.nqueue == QSIZE) && (!t.quit ==> |s.arrived| <= t.taken)
  {
  }
}

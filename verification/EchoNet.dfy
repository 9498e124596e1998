/** One TCP connection between a client and str_echo (lib/str_echo.c over lib/written.c): a bounded
    first-in-first-out channel each way, and the server as a step system. */
module EchoNet {
  import opened Bytes

  /** What the server is doing: blocked in read, in written with bytes left, or gone. */
  datatype Server = Reading | Writing(rest: seq<Byte>) | Closed

  /** `up` and `down` are the channel capacities, `c2s` and `s2c` what is in the channels, `fin` the
      client's half-close. The server's own FIN follows `s2c` once it is Closed. */
  datatype Net = Net(up: nat, down: nat, c2s: seq<Byte>, fin: bool, server: Server, s2c: seq<Byte>)

  /** A system call of the server: read or write of `k` bytes, end of file, or EINTR from either. */
  datatype ServerMove = SRead(k: nat) | SWrite(k: nat) | SEof | SIntr

  function Unsent(server: Server): seq<Byte> {
    if server.Writing? then server.rest else []
  }

  function ServerNext(n: Net, m: ServerMove): Option<Net> {
    match m
    case SRead(k) =>
      if n.server.Reading? && 1 <= k <= |n.c2s| && k <= MAXLINE
      then Some(n.(server := Writing(n.c2s[..k]), c2s := n.c2s[k..])) else None
    case SEof =>
      if n.server.Reading? && n.c2s == [] && n.fin then Some(n.(server := Closed)) else None
    case SWrite(k) =>
      if n.server.Writing? && 1 <= k <= |n.server.rest| && |n.s2c| + k <= n.down
      then Some(n.(s2c := n.s2c + n.server.rest[..k],
                   server := if k == |n.server.rest| then Reading else Writing(n.server.rest[k..]))) else None
    case SIntr =>
      if n.server.Closed? then None else Some(n)
  }

  ghost predicate Valid(n: Net) {
    && n.up >= 1 && n.down >= 1 && |n.c2s| <= n.up && |n.s2c| <= n.down
    && (n.server.Writing? ==> n.server.rest != [] && |n.server.rest| <= MAXLINE)
    && (n.server.Closed? ==> n.fin && n.c2s == [])
  }

  /** The bytes on their way, the next to arrive first. */
  function InFlight(n: Net): seq<Byte> {
    n.s2c + Unsent(n.server) + n.c2s
  }

  /** Work left for bytes on their way: a byte nearer to the client has less of it. */
  function Weight(n: Net): nat {
    5 * |n.c2s| + 4 * |Unsent(n.server)| + 3 * |n.s2c| + if n.server.Closed? then 0 else 1
  }

  /** The server neither loses, adds nor reorders a byte, and every move but EINTR makes progress. */
  lemma ServerKeeps(n: Net, m: ServerMove)
    requires Valid(n) && ServerNext(n, m).Some?
    ensures var n' := ServerNext(n, m).value;
            && Valid(n') && InFlight(n') == InFlight(n) && n'.up == n.up && n'.down == n.down && n'.fin == n.fin
            && Weight(n') + (if m.SIntr? then 0 else 1) <= Weight(n)
            && (n.server.Closed? ==> n'.server.Closed?)
  {
    match m {
      case SRead(k) =>
        assert n.c2s == n.c2s[..k] + n.c2s[k..];
      case SWrite(k) =>
        assert n.server.rest == n.server.rest[..k] + n.server.rest[k..];
        assert n.s2c + n.server.rest[..k] + n.server.rest[k..] == n.s2c + n.server.rest;
      case _ =>
    }
  }

  /** The server has nothing to do. */
  predicate ServerIdle(n: Net) {
    match n.server
    case Reading => n.c2s == [] && !n.fin
    case Writing(rest) => |n.s2c| >= n.down
    case Closed => true
  }

  /** The move with the smallest transfer that the server can make. */
  function ServerTurn(n: Net): (m: ServerMove)
    requires Valid(n) && !ServerIdle(n)
    ensures !m.SIntr? && ServerNext(n, m).Some?
  {
    match n.server
    case Reading => if n.c2s == [] then SEof else SRead(1)
    case Writing(_) => SWrite(1)
    case Closed => SIntr
  }

  /** That is exactly when it has no move left but to be interrupted. */
  lemma IdleIffBlocked(n: Net)
    requires Valid(n)
    ensures ServerIdle(n) <==> forall m :: m != SIntr ==> ServerNext(n, m).None?
  {
    if !ServerIdle(n) {
      assert ServerNext(n, ServerTurn(n)).Some?;
    }
  }

  /** Moving bytes across the border of two neighbouring places changes nothing behind them. */
  lemma Shift(x: seq<Byte>, y: seq<Byte>, x': seq<Byte>, y': seq<Byte>, behind: seq<Byte>)
    requires x + y == x' + y'
    ensures x + (y + behind) == x' + (y' + behind)
  {
    assert x + (y + behind) == (x + y) + behind;
    assert x' + (y' + behind) == (x' + y') + behind;
  }

  // ------------------------------------------------------------- the client's end

  predicate CanSend(n: Net, bytes: seq<Byte>) {
    !n.fin && |n.c2s| + |bytes| <= n.up
  }

  function Send(n: Net, bytes: seq<Byte>): Net {
    n.(c2s := n.c2s + bytes)
  }

  function Receive(n: Net, k: nat): Net
    requires k <= |n.s2c|
  {
    n.(s2c := n.s2c[k..])
  }

  predicate AtEof(n: Net) {
    n.s2c == [] && n.server.Closed?
  }

  lemma SendKeeps(n: Net, bytes: seq<Byte>)
    requires Valid(n) && CanSend(n, bytes)
    ensures Valid(Send(n, bytes)) && InFlight(Send(n, bytes)) == InFlight(n) + bytes
    ensures Weight(Send(n, bytes)) == Weight(n) + 5 * |bytes|
  {
  }

  lemma ReceiveKeeps(n: Net, k: nat)
    requires Valid(n) && k <= |n.s2c|
    ensures Valid(Receive(n, k)) && n.s2c[..k] + InFlight(Receive(n, k)) == InFlight(n)
    ensures Weight(Receive(n, k)) + 3 * k == Weight(n)
  {
    assert n.s2c == n.s2c[..k] + n.s2c[k..];
  }

  /** A FIN reaches the client only behind its own, with everything already delivered or in `s2c`. */
  lemma EofMeansDrained(n: Net)
    requires Valid(n) && AtEof(n)
    ensures n.fin && InFlight(n) == []
  {
  }
}

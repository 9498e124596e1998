/** The kernel side of a descriptor open for reading, as an oracle: what arrives, in order, is
    fixed; how the bytes are cut into reads is not. */
module Streams {
  import opened Bytes
  import opened Stdio

  /** What successive reads run into. A stream that has run out stays at end of file. */
  datatype Event = Data(b: Byte) | Intr | Fault(code: nat) | Eof

  datatype Errno = EINTR | EOTHER(code: nat)

  function Events(bytes: seq<Byte>): (evs: seq<Event>)
    ensures |evs| == |bytes|
  {
    seq(|bytes|, i requires 0 <= i < |bytes| => Data(bytes[i]))
  }

  lemma EventsConcat(a: seq<Byte>, b: seq<Byte>)
    ensures Events(a + b) == Events(a) + Events(b)
  {
  }

  /** read(2): `n` and `errno` for a stream before and after, the bytes stored, and a request of `max`. */
  ghost predicate ReadOutcome(before: seq<Event>, max: nat, n: int, errno: Errno, got: seq<Byte>, after: seq<Event>) {
    if before == [] then n == 0 && got == [] && after == []
    else match before[0]
      case Data(_) => 1 <= n <= max && n == |got| && before == Events(got) + after
      case Intr => n == -1 && errno == EINTR && got == [] && after == before[1..]
      case Fault(c) => n == -1 && errno == EOTHER(c) && got == [] && after == before[1..]
      case Eof => n == 0 && got == [] && after == before[1..]
  }

  /** A descriptor open for writing. A write takes any part of what it is given, is interrupted (some
      number of times in all), or fails. */
  class Writer {
    var log: seq<Byte>
    var signals: nat
    var broken: bool
    var fin: bool
    ghost var finAt: nat

    constructor (signals: nat)
      ensures log == [] && !broken && !fin && this.signals == signals
    {
      this.log, this.signals, broken, fin, finAt := [], signals, false, false, 0;
    }

    method Write(buf: array<Byte>, at: nat, n: nat) returns (k: int, errno: Errno)
      requires 0 < n && at + n <= buf.Length
      modifies this`log, this`signals, this`broken
      ensures k <= n
      ensures k > 0 ==> log == old(log) + buf[at..at + k] && signals == old(signals) && broken == old(broken)
      ensures k <= 0 ==> log == old(log)
      ensures k < 0 && errno == EINTR ==> signals < old(signals) && broken == old(broken)
      ensures k == 0 || (k < 0 && errno != EINTR) ==> broken
    {
      var outcome: nat := *;
      if outcome == 0 && signals > 0 {
        signals := signals - 1;
        return -1, EINTR;
      } else if outcome == 1 {
        broken := true;
        var returned: nat := *;
        return if returned == 0 then 0 else -1, EOTHER(returned);
      }
      var taken: nat :| 1 <= taken <= n;
      log := log + buf[at..at + taken];
      return taken, EINTR;
    }

    /** fputs to a stream that takes everything. */
    method Puts(text: array<Byte>)
      modifies this`log
      ensures log == old(log) + Cstr(text[..])
    {
      log := log + Cstr(text[..]);
    }

    /** shutdown(fd, SHUT_WR): the first call fixes where the output ends. */
    method Shutdown()
      modifies this`fin, this`finAt
      ensures fin && finAt == if old(fin) then old(finAt) else |log|
    {
      if !fin {
        finAt := |log|;
      }
      fin := true;
    }
  }

  /** When an input call was made: how much had been written to the socket and shown on the screen by then,
      and how much of the input was left. */
  datatype Mark = Mark(sent: nat, shown: nat, left: nat)

  /** The calls since `before` were all made with that much sent and shown. */
  ghost predicate AllAt(before: seq<Mark>, now: seq<Mark>, sent: nat, shown: nat) {
    && before <= now
    && forall k :: |before| <= k < |now| ==> now[k].sent == sent && now[k].shown == shown
  }

  lemma AllAtOnce(before: seq<Mark>, between: seq<Mark>, now: seq<Mark>, sent: nat, shown: nat)
    requires AllAt(before, between, sent, shown) && AllAt(between, now, sent, shown)
    ensures AllAt(before, now, sent, shown)
  {
  }

  ghost function LogLength(w: Writer?): nat
    reads w
  {
    if w == null then 0 else |w.log|
  }

  /** `peer` is the output to the same socket and `screen` standard output; every read leaves its mark. */
  class Descriptor {
    var stream: seq<Event>
    ghost const peer: Writer?
    ghost const screen: Writer?
    ghost var marks: seq<Mark>

    constructor (stream: seq<Event>, ghost peer: Writer?, ghost screen: Writer?)
      ensures this.stream == stream && this.peer == peer && this.screen == screen && marks == []
    {
      this.stream, this.peer, this.screen, marks := stream, peer, screen, [];
    }

    /** A read may return any number of the bytes at the head of the stream, up to `max`. */
    method Read(buf: array<Byte>, at: nat, max: nat) returns (n: int, errno: Errno)
      requires 0 < max && at + max <= buf.Length
      modifies this, buf
      ensures n <= max
      ensures marks == old(marks) + [Mark(LogLength(peer), LogLength(screen), |old(stream)|)]
      ensures ReadOutcome(old(stream), max, n, errno, buf[at..at + if n < 0 then 0 else n], stream)
      ensures forall i :: 0 <= i < buf.Length && !(at <= i < at + n) ==> buf[i] == old(buf[i])
    {
      errno := EINTR;
      marks := marks + [Mark(LogLength(peer), LogLength(screen), |stream|)];
      if stream == [] {
        return 0, errno;
      }
      match stream[0] {
        case Eof => n := 0;
        case Intr => n := -1;
        case Fault(c) => n, errno := -1, EOTHER(c);
        case Data(_) =>
          var k: nat :| 1 <= k <= max && k <= |stream| && forall i :: 0 <= i < k ==> stream[i].Data?;
          forall i | 0 <= i < k {
            buf[at + i] := stream[i].b;
          }
          n := k;
          assert stream == Events(buf[at..at + k]) + stream[k..];
          stream := stream[k..];
          return;
      }
      stream := stream[1..];
    }
  }
}

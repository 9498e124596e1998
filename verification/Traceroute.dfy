/** traceroute/recv_v4.c and traceroute/traceloop.c: which probe an ICMP message answers, and when to
    stop. */
module Traceroute {
  import opened Bytes
  import opened Checksum
  import opened UdpDatagram

  const ICMP_TIMXCEED: Byte := 11
  const ICMP_TIMXCEED_INTRANS: Byte := 0
  const ICMP_UNREACH: Byte := 3
  const ICMP_UNREACH_PORT: Byte := 3

  const TIMEOUT: int := -3
  const IN_TRANSIT: int := -2
  const AT_DESTINATION: int := -1

  const PORTS: nat := 0x1_0000

  datatype Config = Config(maxTtl: int, nprobes: nat, sport: Word, dport: Word)

  /** htons(dport+seq): the destination port of a probe. */
  function Port(c: Config, seqno: nat): Word {
    (c.dport + seqno) % PORTS
  }

  // -------------------------------------------------------------- an ICMP message

  /** The tests of recv_v4 on a message: the code it returns, or None to go on waiting. */
  function Classify(p: seq<Byte>, sport: Word, dport: Word): Option<int> {
    if |p| == 0 || |p| - 4 * (p[0] % 0x10) < 8 then None
    else
      var hlen1 := 4 * (p[0] % 0x10);
      var kind, code := p[hlen1], p[hlen1 + 1];
      if kind == ICMP_TIMXCEED && code == ICMP_TIMXCEED_INTRANS then
        if QuotesProbe(p, hlen1, sport, dport) then Some(IN_TRANSIT) else None
      else if kind == ICMP_UNREACH then
        if !QuotesProbe(p, hlen1, sport, dport) then None
        else if code == ICMP_UNREACH_PORT then Some(AT_DESTINATION) else Some(code)
      else None
  }

  /** The quoted header is long enough to look at, is UDP, and has our ports. */
  predicate QuotesProbe(p: seq<Byte>, hlen1: nat, sport: Word, dport: Word)
    requires hlen1 + 8 <= |p|
  {
    var icmplen := |p| - hlen1;
    && icmplen >= 8 + 20
    && var hlen2 := 4 * (p[hlen1 + 8] % 0x10);
       && icmplen >= 8 + hlen2 + 4
       && p[hlen1 + 8 + 9] == IPPROTO_UDP
       && NetWord(p, hlen1 + 8 + hlen2) == sport && NetWord(p, hlen1 + 8 + hlen2 + 2) == dport
  }

  /** Why a router or host answered. */
  datatype Kind = Expired | Unreachable(code: Byte)

  function CodeOf(k: Kind): int {
    match k
    case Expired => IN_TRANSIT
    case Unreachable(c) => if c == ICMP_UNREACH_PORT then AT_DESTINATION else c
  }

  /** A genuine answer to probe number `cause`: an IP header, an ICMP error of some kind, and in it the
      probe's IP header and the first bytes of its UDP header. */
  datatype Origin = Origin(cause: nat, kind: Kind, outer: seq<Byte>, icmpRest: seq<Byte>, inner: seq<Byte>,
                           extra: seq<Byte>) {
    ghost predicate WellFormed() {
      && |outer| >= 20 && |outer| == 4 * (outer[0] % 0x10)
      && |icmpRest| == 6
      && |inner| >= 20 && |inner| == 4 * (inner[0] % 0x10) && inner[9] == IPPROTO_UDP
    }
  }

  function IcmpHead(k: Kind): seq<Byte> {
    match k
    case Expired => [ICMP_TIMXCEED, ICMP_TIMXCEED_INTRANS]
    case Unreachable(c) => [ICMP_UNREACH, c]
  }

  /** Any ICMP message that quotes a datagram: an IP header, type, code and 6 more bytes, and the quoted IP
      header with two port numbers behind it. */
  datatype Message = Message(outer: seq<Byte>, kind: Byte, code: Byte, icmpRest: seq<Byte>, inner: seq<Byte>,
                             sport: Word, dport: Word, extra: seq<Byte>) {
    ghost predicate WellFormed() {
      && |outer| >= 20 && |outer| == 4 * (outer[0] % 0x10)
      && |icmpRest| == 6
      && |inner| >= 20 && |inner| == 4 * (inner[0] % 0x10)
    }
  }

  function MessageBytes(m: Message): seq<Byte> {
    m.outer + ([m.kind, m.code] + (m.icmpRest + (m.inner + (Htons(m.sport) + (Htons(m.dport) + m.extra)))))
  }

  /** What it tells a traceroute that uses `sport` and waits for an answer to `dport`. */
  function Reading(m: Message, sport: Word, dport: Word): Option<int>
    requires |m.inner| >= 20
  {
    if m.inner[9] != 17 || m.sport != sport || m.dport != dport then None
    else if m.kind == 11 && m.code == 0 then Some(IN_TRANSIT)
    else if m.kind == 3 && m.code == 3 then Some(AT_DESTINATION)
    else if m.kind == 3 then Some(m.code)
    else None
  }

  /** A message counts if it quotes a UDP datagram with both our ports and says time exceeded in transit or
      unreachable; every other one is passed over: one for another process's port or another probe's, one that
      quotes another protocol, one of another type or code. */
  lemma MessageClassified(m: Message, sport: Word, dport: Word)
    requires m.WellFormed()
    ensures Classify(MessageBytes(m), sport, dport) == Reading(m, sport, dport)
  {
    MessageLayout(m);
    MessageQuotes(m, sport, dport);
  }

  lemma MessageQuotes(m: Message, sport: Word, dport: Word)
    requires m.WellFormed()
    ensures var p, h1 := MessageBytes(m), |m.outer|;
            && |p| >= h1 + 8
            && (QuotesProbe(p, h1, sport, dport) <==> m.inner[9] == 17 && m.sport == sport && m.dport == dport)
  {
    var quoted := m.inner + (Htons(m.sport) + (Htons(m.dport) + m.extra));
    MessageLayout(m);
    TwoWords(m.inner, Htons(m.sport), Htons(m.dport), m.extra);
    QuotedPorts(MessageBytes(m), |m.outer|, quoted, |m.inner|, m.sport, m.dport, sport, dport);
  }

  lemma QuotedPorts(p: seq<Byte>, h1: nat, q: seq<Byte>, h2: nat, from: Word, to: Word, sport: Word, dport: Word)
    requires |p| == h1 + 8 + |q| && p[h1 + 8..] == q && |q| >= h2 + 4 && h2 >= 20 && h2 == 4 * (q[0] % 0x10)
    requires NetWord(q, h2) == from && NetWord(q, h2 + 2) == to
    ensures QuotesProbe(p, h1, sport, dport) <==> q[9] == 17 && from == sport && to == dport
  {
    TailByte(p, q, h1 + 8, 0);
    TailByte(p, q, h1 + 8, 9);
    TailByte(p, q, h1 + 8, h2);
    TailByte(p, q, h1 + 8, h2 + 1);
    TailByte(p, q, h1 + 8, h2 + 2);
    TailByte(p, q, h1 + 8, h2 + 3);
  }

  lemma TailByte(p: seq<Byte>, tail: seq<Byte>, at: nat, i: nat)
    requires at <= |p| && p[at..] == tail && i < |tail|
    ensures at + i < |p| && p[at + i] == tail[i]
  {
  }

  lemma MessageLayout(m: Message)
    requires m.WellFormed()
    ensures var p, h1 := MessageBytes(m), |m.outer|;
            var quoted := m.inner + (Htons(m.sport) + (Htons(m.dport) + m.extra));
            && |p| == h1 + 8 + |quoted| && p[0] == m.outer[0] && p[h1] == m.kind && p[h1 + 1] == m.code
            && p[h1 + 8..] == quoted
  {
    var p, h1 := MessageBytes(m), |m.outer|;
    var quoted := m.inner + (Htons(m.sport) + (Htons(m.dport) + m.extra));
    var icmp := [m.kind, m.code] + (m.icmpRest + quoted);
    assert p == m.outer + icmp;
    assert p[h1..] == icmp && icmp[8..] == quoted;
    assert p[h1 + 8..] == p[h1..][8..];
    assert p[h1] == icmp[0] && p[h1 + 1] == icmp[1];
  }

  /** Too short to quote an IP header. */
  predicate Runt(p: seq<Byte>) {
    p == [] || |p| < 4 * (p[0] % 0x10) + 8 + 20
  }

  lemma RuntIgnored(p: seq<Byte>, sport: Word, dport: Word)
    requires Runt(p)
    ensures Classify(p, sport, dport).None?
  {
  }

  /** A message that is no answer to any probe of ours: the raw socket gets those of other processes too. */
  ghost predicate Foreign(c: Config, p: seq<Byte>) {
    Runt(p) || exists m: Message :: m.WellFormed() && p == MessageBytes(m) && NotOurs(c, m)
  }

  ghost predicate NotOurs(c: Config, m: Message)
    requires m.WellFormed()
  {
    m.inner[9] != 17 || m.sport != c.sport || !((m.kind == 11 && m.code == 0) || m.kind == 3)
  }

  lemma ForeignIgnored(c: Config, p: seq<Byte>, dport: Word)
    requires Foreign(c, p)
    ensures Classify(p, c.sport, dport).None?
  {
    if !Runt(p) {
      var m: Message :| m.WellFormed() && p == MessageBytes(m) && NotOurs(c, m);
      MessageClassified(m, c.sport, dport);
    }
  }

  function AnswerBytes(c: Config, o: Origin): seq<Byte> {
    o.outer + (IcmpHead(o.kind) + (o.icmpRest + (o.inner + (Htons(c.sport) + (Htons(Port(c, o.cause)) + o.extra)))))
  }

  lemma TwoWords(front: seq<Byte>, a: seq<Byte>, b: seq<Byte>, back: seq<Byte>)
    requires |a| == |b| == 2
    ensures var q, at := front + (a + (b + back)), |front|;
            q[at] == a[0] && q[at + 1] == a[1] && q[at + 2] == b[0] && q[at + 3] == b[1]
  {
  }

  /** An answer is taken for the probe whose port it quotes, with the meaning that its sender gave it. */
  lemma AnswerClassified(c: Config, o: Origin, dport: Word)
    requires o.WellFormed()
    ensures Classify(AnswerBytes(c, o), c.sport, dport)
            == if Port(c, o.cause) == dport then Some(CodeOf(o.kind)) else None
  {
    var head := IcmpHead(o.kind);
    var m := Message(o.outer, head[0], head[1], o.icmpRest, o.inner, c.sport, Port(c, o.cause), o.extra);
    assert head == [head[0], head[1]];
    assert MessageBytes(m) == AnswerBytes(c, o);
    MessageClassified(m, c.sport, dport);
  }

  // ------------------------------------------------------------------ waiting for one

  /** What recvfrom meets: a message, the alarm, or another signal. */
  datatype Event = Packet(bytes: seq<Byte>) | Alarm | Interrupted

  /** The answer in what happens during one wait: the first message that quotes the probe, if it comes
      before the alarm. Nothing more happening means that the alarm comes. */
  function Answer(events: seq<Event>, sport: Word, dport: Word): int {
    if events == [] || events[0].Alarm? then TIMEOUT
    else if events[0].Packet? && Classify(events[0].bytes, sport, dport).Some?
    then Classify(events[0].bytes, sport, dport).value
    else Answer(events[1..], sport, dport)
  }

  /** Said without the recursion. */
  lemma {:induction false} AnswerMeaning(events: seq<Event>, sport: Word, dport: Word) returns (k: nat)
    ensures k <= |events| && (Answer(events, sport, dport) == TIMEOUT <==> k == |events| || events[k].Alarm?)
    ensures k <= |events| && (k < |events| && !events[k].Alarm? ==>
              events[k].Packet? && Classify(events[k].bytes, sport, dport) == Some(Answer(events, sport, dport)))
    ensures forall i :: 0 <= i < k ==>
              !events[i].Alarm? && (events[i].Packet? ==> Classify(events[i].bytes, sport, dport).None?)
  {
    if events == [] || events[0].Alarm? || (events[0].Packet? && Classify(events[0].bytes, sport, dport).Some?) {
      k := 0;
    } else {
      k := AnswerMeaning(events[1..], sport, dport);
      assert forall i :: 0 <= i < k ==> events[1..][i] == events[i + 1];
      k := k + 1;
    }
  }

  /** A probe as it is sent: rec_seq, the hop limit set, and the destination port. */
  datatype Probe = Probe(seqno: nat, ttl: nat, port: Word)

  /** The sockets: what has been sent, what happens during each wait, and how many probes had been sent when
      each wait began. */
  class Receiver {
    const schedule: seq<seq<Event>>
    var sent: seq<Probe>
    ghost var sentBefore: seq<nat>
    var waits: nat
    var events: seq<Event>
    var gotalarm: bool

    constructor (schedule: seq<seq<Event>>)
      ensures this.schedule == schedule && waits == 0 && sent == [] && sentBefore == []
    {
      this.schedule := schedule;
      sent, sentBefore := [], [];
      waits, events, gotalarm := 0, [], false;
    }

    /** sendto. */
    method Send(p: Probe)
      modifies this`sent
      ensures sent == old(sent) + [p]
    {
      sent := sent + [p];
    }

    /** alarm(3), and the next wait's events begin. */
    method Begin()
      modifies this`events, this`waits, this`gotalarm, this`sentBefore
      ensures events == During(schedule, old(waits)) && waits == old(waits) + 1 && !gotalarm
      ensures sentBefore == old(sentBefore) + [|sent|]
    {
      sentBefore := sentBefore + [|sent|];
      events := if waits < |schedule| then schedule[waits] else [];
      waits := waits + 1;
      gotalarm := false;
    }

    /** recvfrom: None for -1 with EINTR; the alarm's handler has then set the flag. */
    method RecvFrom() returns (p: Option<seq<Byte>>)
      modifies this`events, this`gotalarm
      ensures if old(events) == [] || old(events)[0].Alarm? then p.None? && gotalarm && events == old(events)
              else events == old(events)[1..] && gotalarm == old(gotalarm)
                   && p == if old(events)[0].Packet? then Some(old(events)[0].bytes) else None
    {
      if events == [] || events[0].Alarm? {
        gotalarm := true;
        return None;
      }
      p := if events[0].Packet? then Some(events[0].bytes) else None;
      events := events[1..];
    }
  }

  function During(schedule: seq<seq<Event>>, i: nat): seq<Event> {
    if i < |schedule| then schedule[i] else []
  }

  /** recv_v4. A message that the tests reject is passed over, as is a signal that is not the alarm. */
  method RecvV4(net: Receiver, sport: Word, dport: Word) returns (ret: int)
    modifies net`events, net`waits, net`gotalarm, net`sentBefore
    ensures net.sentBefore == old(net.sentBefore) + [|net.sent|]
    ensures ret == Answer(During(net.schedule, old(net.waits)), sport, dport)
    ensures net.waits == old(net.waits) + 1
  {
    net.Begin();
    while true
      invariant if net.gotalarm then Answer(During(net.schedule, old(net.waits)), sport, dport) == TIMEOUT
                else Answer(net.events, sport, dport) == Answer(During(net.schedule, old(net.waits)), sport, dport)
      invariant net.waits == old(net.waits) + 1 && net.sentBefore == old(net.sentBefore) + [|net.sent|]
      decreases |net.events|, !net.gotalarm
    {
      if net.gotalarm {
        return TIMEOUT;
      }
      var p := net.RecvFrom();
      if p.Some? {
        var code := Classify(p.value, sport, dport);
        if code.Some? {
          return code.value;
        }
      }
    }
  }

  // ------------------------------------------------------------------------ traceloop

  /** One printed result. */
  datatype Result = Result(seqno: nat, ttl: int, probe: nat, code: int)

  /** The hop limit of probe number `i`, counted from 0, and its number among those of that hop limit. */
  function Hop(n: nat, i: nat): (ttl: nat)
    ensures ttl >= 1
  {
    if n == 0 || i < n then 1 else Hop(n, i - n) + 1
  }

  function Among(n: nat, i: nat): nat {
    if n == 0 || i < n then i else Among(n, i - n)
  }

  lemma {:induction false} HopAndAmong(n: nat, i: nat)
    requires n > 0
    ensures i == (Hop(n, i) - 1) * n + Among(n, i) && Among(n, i) < n
  {
    if i < n {
      assert (Hop(n, i) - 1) * n == 0;
    } else {
      HopAndAmong(n, i - n);
      Distribute(n, Hop(n, i) - 1, 1);
    }
  }

  /** The result of the wait number `i`, counted from 0, if the loop gets that far. */
  function ResultAt(c: Config, schedule: seq<seq<Event>>, i: nat): Result
    requires c.nprobes > 0
  {
    Result(i + 1, Hop(c.nprobes, i), Among(c.nprobes, i), Answer(During(schedule, i), c.sport, Port(c, i + 1)))
  }

  /** The sequence number follows from hop limit and probe. */
  lemma SeqOfProbe(c: Config, schedule: seq<seq<Event>>, i: nat)
    requires c.nprobes > 0
    ensures var r := ResultAt(c, schedule, i);
            r.seqno == (r.ttl - 1) * c.nprobes + r.probe + 1 && 0 <= r.probe < c.nprobes
  {
    HopAndAmong(c.nprobes, i);
  }

  /** What traceloop has printed after `ttls` hop limits: every probe in order; none of the earlier hop
      limits but maybe the last had an answer from the destination. */
  ghost predicate Traced(c: Config, schedule: seq<seq<Event>>, results: seq<Result>, ttls: nat)
    requires c.nprobes > 0
  {
    && |results| == ttls * c.nprobes
    && (forall i :: 0 <= i < |results| ==> results[i] == ResultAt(c, schedule, i))
    && (forall i :: 0 <= i < |results| - c.nprobes ==> results[i].code != AT_DESTINATION)
  }

  /** Some of the results from number `from` on is the destination's. */
  ghost predicate DestinationIn(results: seq<Result>, from: int) {
    exists i :: 0 <= i < |results| && from <= i && results[i].code == AT_DESTINATION
  }

  ghost predicate ResultsOf(c: Config, schedule: seq<seq<Event>>, results: seq<Result>)
    requires c.nprobes > 0
  {
    forall i :: 0 <= i < |results| ==> results[i] == ResultAt(c, schedule, i)
  }

  lemma ResultsMore(c: Config, schedule: seq<seq<Event>>, results: seq<Result>, r: Result)
    requires c.nprobes > 0 && ResultsOf(c, schedule, results) && r == ResultAt(c, schedule, |results|)
    ensures ResultsOf(c, schedule, results + [r])
  {
  }

  /** The probes sent are numbered from 1, with hop limit and port to match, and each was waited for before
      the next was sent. */
  ghost predicate InTurn(c: Config, sent: seq<Probe>, sentBefore: seq<nat>, n: nat)
    requires c.nprobes > 0
  {
    && |sent| == |sentBefore| == n
    && forall i :: 0 <= i < n ==>
         sent[i] == Probe(i + 1, Hop(c.nprobes, i), (c.dport + i + 1) % PORTS) && sentBefore[i] == i + 1
  }

  lemma OneMoreProbe(c: Config, sent: seq<Probe>, sentBefore: seq<nat>, n: nat)
    requires c.nprobes > 0 && InTurn(c, sent, sentBefore, n)
    ensures InTurn(c, sent + [Probe(n + 1, Hop(c.nprobes, n), Port(c, n + 1))], sentBefore + [n + 1], n + 1)
  {
  }

  /** Lines 44 to 79: the probes with one hop limit, appended to the results so far. */
  method ProbeHop(c: Config, net: Receiver, ttl: nat, before: seq<Result>) returns (results: seq<Result>, done: nat)
    requires c.nprobes > 0 && ttl > 0 && net.waits == |before| == (ttl - 1) * c.nprobes
    requires forall i :: 0 <= i < |before| ==> before[i] == ResultAt(c, net.schedule, i)
    requires InTurn(c, net.sent, net.sentBefore, |before|)
    modifies net
    ensures |results| == net.waits == |before| + c.nprobes && before <= results
    ensures InTurn(c, net.sent, net.sentBefore, |results|)
    ensures forall i :: 0 <= i < |results| ==> results[i] == ResultAt(c, net.schedule, i)
    ensures done > 0 <==> DestinationIn(results, |before|)
  {
    results, done := before, 0;
    var seqno, probe := |before|, 0;
    while probe < c.nprobes
      invariant 0 <= probe <= c.nprobes
      invariant |results| == |before| + probe && before <= results
      invariant seqno == |results| == net.waits && InTurn(c, net.sent, net.sentBefore, |results|)
      invariant ResultsOf(c, net.schedule, results)
      invariant done > 0 <==> DestinationIn(results, |before|)
    {
      PlaceOfProbe(c.nprobes, ttl - 1, probe);
      OneMoreProbe(c, net.sent, net.sentBefore, seqno);
      seqno := seqno + 1;
      net.Send(Probe(seqno, ttl, Port(c, seqno)));
      var code := RecvV4(net, c.sport, Port(c, seqno));
      if code != TIMEOUT && code == AT_DESTINATION {
        done := done + 1;
      }
      OneMoreResult(results, |before|, Result(seqno, ttl, probe, code));
      ResultsMore(c, net.schedule, results, Result(seqno, ttl, probe, code));
      results := results + [Result(seqno, ttl, probe, code)];
      probe := probe + 1;
    }
  }

  lemma OneMoreResult(results: seq<Result>, from: nat, r: Result)
    requires from <= |results|
    ensures DestinationIn(results + [r], from) <==> DestinationIn(results, from) || r.code == AT_DESTINATION
  {
    var more := results + [r];
    if r.code == AT_DESTINATION {
      assert more[|results|].code == AT_DESTINATION;
    } else if DestinationIn(results, from) {
      var i :| 0 <= i < |results| && from <= i && results[i].code == AT_DESTINATION;
      assert more[i].code == AT_DESTINATION;
    }
  }

  /** A whole trace: to max_ttl, or through the first hop limit at which the destination has answered. */
  ghost predicate Finished(c: Config, schedule: seq<seq<Event>>, results: seq<Result>, ttls: nat)
    requires c.nprobes > 0
  {
    && Traced(c, schedule, results, ttls)
    && (ttls <= c.maxTtl || ttls == 0)
    && (ttls < c.maxTtl ==> DestinationIn(results, |results| - c.nprobes))
  }

  /** traceloop: it goes on to max_ttl, or stops after the first hop limit at which the destination
      has answered. */
  method TraceLoop(c: Config, net: Receiver) returns (results: seq<Result>, ghost ttls: nat)
    requires c.nprobes > 0 && net.waits == 0 && net.sent == [] && net.sentBefore == []
    modifies net
    ensures Finished(c, net.schedule, results, ttls)
    ensures InTurn(c, net.sent, net.sentBefore, |results|)
  {
    var done, ttl := 0, 1;
    results, ttls := [], 0;
    while ttl <= c.maxTtl && done == 0
      invariant ttls == ttl - 1 && (ttls <= c.maxTtl || ttls == 0) && done >= 0
      invariant net.waits == |results| && InTurn(c, net.sent, net.sentBefore, |results|)
      invariant Traced(c, net.schedule, results, ttls)
      invariant done > 0 <==> DestinationIn(results, |results| - c.nprobes)
      decreases c.maxTtl - ttl
    {
      results, done := ProbeHop(c, net, ttl, results);
      Distribute(c.nprobes, ttl, 1);
      ttls := ttls + 1;
      ttl := ttl + 1;
    }
  }

  lemma PlaceOfProbe(n: nat, ttls: nat, probe: nat)
    requires probe < n
    ensures Hop(n, ttls * n + probe) == ttls + 1 && Among(n, ttls * n + probe) == probe
  {
    var x := ttls * n + probe;
    HopAndAmong(n, x);
    DivisionIsUnique(n, ttls, probe, Hop(n, x) - 1, Among(n, x));
  }

  lemma DivisionIsUnique(n: nat, q: int, r: int, q': int, r': int)
    requires 0 <= r < n && 0 <= r' < n && q * n + r == q' * n + r'
    ensures q == q' && r == r'
  {
    Distribute(n, q, q');
    if q > q' {
      AtLeastOnce(n, q - q');
    } else if q < q' {
      Distribute(n, q', q);
      AtLeastOnce(n, q' - q);
    }
  }

  lemma Distribute(n: nat, a: int, b: int)
    ensures (a - b) * n == a * n - b * n
  {
  }

  lemma AtLeastOnce(n: nat, a: int)
    requires a >= 1
    ensures a * n >= n
  {
  }

  // ---------------------------------------------------------------------- attribution

  /** During wait `i`, what answers a probe answers one already sent: any of them, late, in any order, any
      number of times, or not at all. Between them any message comes that is not for this process. */
  ghost predicate Genuine(c: Config, schedule: seq<seq<Event>>) {
    forall i, k :: 0 <= i < |schedule| && 0 <= k < |schedule[i]| && schedule[i][k].Packet? ==>
      Foreign(c, schedule[i][k].bytes) || IsAnswer(c, i, schedule[i][k].bytes)
  }

  ghost predicate IsAnswer(c: Config, i: nat, bytes: seq<Byte>) {
    exists o: Origin :: AnswersProbe(c, o, i) && bytes == AnswerBytes(c, o)
  }

  ghost predicate AnswersProbe(c: Config, o: Origin, i: nat) {
    o.WellFormed() && 1 <= o.cause <= i + 1
  }

  /** A result other than a timeout comes from this answer. */
  ghost predicate ComesFrom(c: Config, schedule: seq<seq<Event>>, i: nat, o: Origin)
    requires c.nprobes > 0
  {
    && AnswersProbe(c, o, i) && Packet(AnswerBytes(c, o)) in During(schedule, i)
    && Classify(AnswerBytes(c, o), c.sport, Port(c, i + 1)) == Some(ResultAt(c, schedule, i).code)
  }

  lemma SomeOrigin(c: Config, schedule: seq<seq<Event>>, i: nat) returns (o: Origin)
    requires c.nprobes > 0 && Genuine(c, schedule) && ResultAt(c, schedule, i).code != TIMEOUT
    ensures ComesFrom(c, schedule, i, o)
  {
    var k := AnswerMeaning(During(schedule, i), c.sport, Port(c, i + 1));
    if Foreign(c, schedule[i][k].bytes) {
      ForeignIgnored(c, schedule[i][k].bytes, Port(c, i + 1));
    }
    assert IsAnswer(c, i, schedule[i][k].bytes);
    o :| AnswersProbe(c, o, i) && schedule[i][k].bytes == AnswerBytes(c, o);
    assert schedule[i][k] == Packet(AnswerBytes(c, o));
  }

  lemma SamePort(c: Config, a: nat, b: nat)
    requires a <= b < a + PORTS && Port(c, a) == Port(c, b)
    ensures a == b
  {
  }

  /** With at most 65536 probes, an answer is for the probe that was waiting for it, and its code is
      the one its sender meant. */
  lemma AnswersAreAttributed(c: Config, schedule: seq<seq<Event>>, i: nat, o: Origin)
    requires c.nprobes > 0 && i < PORTS && ComesFrom(c, schedule, i, o)
    ensures o.cause == ResultAt(c, schedule, i).seqno && CodeOf(o.kind) == ResultAt(c, schedule, i).code
  {
    AnswerClassified(c, o, Port(c, i + 1));
    SamePort(c, o.cause, i + 1);
  }

  /** The loop gets to wait `i`: it has not had to stop before. */
  ghost predicate Gets(c: Config, schedule: seq<seq<Event>>, i: nat)
    requires c.nprobes > 0
  {
    forall j: nat :: j < i ==> ResultAt(c, schedule, j).code != AT_DESTINATION
  }

  /** The bound is exact: results are always for the right probe if and only if the program cannot send
      more than 65536 of them. */
  lemma AttributionIffPortsSuffice(c: Config)
    requires c.nprobes > 0 && c.maxTtl >= 0
    ensures (forall schedule, i: nat, o ::
               i < c.maxTtl * c.nprobes && Gets(c, schedule, i) && Genuine(c, schedule) && ComesFrom(c, schedule, i, o)
               ==> o.cause == i + 1)
            <==> c.maxTtl * c.nprobes <= PORTS
  {
    if c.maxTtl * c.nprobes <= PORTS {
      forall schedule, i: nat, o |
        i < c.maxTtl * c.nprobes && Gets(c, schedule, i) && Genuine(c, schedule) && ComesFrom(c, schedule, i, o)
        ensures o.cause == i + 1
      {
        AnswersAreAttributed(c, schedule, i, o);
      }
    } else {
      var schedule, o := LateAnswer(c);
      assert Gets(c, schedule, PORTS) && o.cause != PORTS + 1;
    }
  }

  /** The answer to probe 1, delayed until probe 65537 waits, is taken for that one's. */
  lemma LateAnswer(c: Config) returns (schedule: seq<seq<Event>>, o: Origin)
    requires c.nprobes > 0
    ensures Genuine(c, schedule) && ComesFrom(c, schedule, PORTS, o) && o.cause == 1
    ensures forall i: nat :: i < PORTS ==> ResultAt(c, schedule, i).code == TIMEOUT
  {
    o := ExpiredOrigin(1);
    schedule := OneLate(PORTS, AnswerBytes(c, o));
    LateIsGenuine(c, o, PORTS);
    LateIsTaken(c, o, PORTS);
  }

  /** A time-exceeded answer to that probe. */
  function ExpiredOrigin(cause: nat): (o: Origin)
    ensures o.WellFormed() && o.cause == cause && o.kind == Expired
  {
    var header: seq<Byte> := [0x45, 0, 0, 0, 0, 0, 0, 0, TTL_OUT, IPPROTO_UDP, 0, 0, 0, 0, 0, 0, 0, 0, 0, 0];
    Origin(cause, Expired, header, [0, 0, 0, 0, 0, 0], header, [])
  }

  /** Nothing arrives until wait number `at`, then one message. */
  function OneLate(at: nat, bytes: seq<Byte>): seq<seq<Event>> {
    seq(at + 1, i => if i < at then [] else [Packet(bytes)])
  }

  lemma LateIsGenuine(c: Config, o: Origin, at: nat)
    requires o.WellFormed() && 1 <= o.cause <= at + 1
    ensures Genuine(c, OneLate(at, AnswerBytes(c, o)))
  {
    assert AnswersProbe(c, o, at);
  }

  lemma LateIsTaken(c: Config, o: Origin, at: nat)
    requires c.nprobes > 0 && o.WellFormed() && 1 <= o.cause <= at + 1 && Port(c, o.cause) == Port(c, at + 1)
    ensures ComesFrom(c, OneLate(at, AnswerBytes(c, o)), at, o)
    ensures ResultAt(c, OneLate(at, AnswerBytes(c, o)), at).code == CodeOf(o.kind)
    ensures forall i: nat :: i != at ==> ResultAt(c, OneLate(at, AnswerBytes(c, o)), i).code == TIMEOUT
  {
    var late := [Packet(AnswerBytes(c, o))];
    assert During(OneLate(at, AnswerBytes(c, o)), at) == late;
    assert late[0] in late;
    AnswerClassified(c, o, Port(c, at + 1));
    assert Answer(late, c.sport, Port(c, at + 1)) == CodeOf(o.kind);
  }

  // ------------------------------------------------------------------------- stopping

  /** A fixed path of `d` hops: the first d-1 hop limits expire on the way, the others reach a host that
      has nothing at the port. */
  ghost predicate OnPath(c: Config, d: int, o: Origin)
    requires c.nprobes > 0
  {
    o.cause > 0 && o.kind == if Hop(c.nprobes, o.cause - 1) < d then Expired else Unreachable(ICMP_UNREACH_PORT)
  }

  ghost predicate GenuineOnPath(c: Config, d: int, schedule: seq<seq<Event>>)
    requires c.nprobes > 0
  {
    forall i, k :: 0 <= i < |schedule| && 0 <= k < |schedule[i]| && schedule[i][k].Packet? ==>
      Foreign(c, schedule[i][k].bytes) || AnswerOnPath(c, d, i, schedule[i][k].bytes)
  }

  ghost predicate AnswerOnPath(c: Config, d: int, i: nat, bytes: seq<Byte>)
    requires c.nprobes > 0
  {
    exists o: Origin :: AnswersProbe(c, o, i) && OnPath(c, d, o) && bytes == AnswerBytes(c, o)
  }

  /** A result on such a path says which side of the destination its hop limit lies. */
  lemma CodeOnPath(c: Config, d: int, schedule: seq<seq<Event>>, i: nat)
    requires c.nprobes > 0 && i < PORTS && GenuineOnPath(c, d, schedule)
    ensures var r := ResultAt(c, schedule, i);
            r.code == TIMEOUT || r.code == if r.ttl < d then IN_TRANSIT else AT_DESTINATION
  {
    if ResultAt(c, schedule, i).code != TIMEOUT {
      var o := OriginOnPath(c, d, schedule, i);
      AnswersAreAttributed(c, schedule, i, o);
    }
  }

  lemma OriginOnPath(c: Config, d: int, schedule: seq<seq<Event>>, i: nat) returns (o: Origin)
    requires c.nprobes > 0 && GenuineOnPath(c, d, schedule) && ResultAt(c, schedule, i).code != TIMEOUT
    ensures ComesFrom(c, schedule, i, o) && OnPath(c, d, o)
  {
    var k := AnswerMeaning(During(schedule, i), c.sport, Port(c, i + 1));
    if Foreign(c, schedule[i][k].bytes) {
      ForeignIgnored(c, schedule[i][k].bytes, Port(c, i + 1));
    }
    assert AnswerOnPath(c, d, i, schedule[i][k].bytes);
    o :| AnswersProbe(c, o, i) && OnPath(c, d, o) && schedule[i][k].bytes == AnswerBytes(c, o);
    assert schedule[i][k] == Packet(AnswerBytes(c, o));
  }

  /** A probe that caused the result, and what it means. */
  lemma CauseOnPath(c: Config, d: int, schedule: seq<seq<Event>>, i: nat) returns (cause: nat)
    requires c.nprobes > 0 && GenuineOnPath(c, d, schedule) && ResultAt(c, schedule, i).code != TIMEOUT
    ensures 1 <= cause <= i + 1
    ensures ResultAt(c, schedule, i).code == if Hop(c.nprobes, cause - 1) < d then IN_TRANSIT else AT_DESTINATION
  {
    var o := OriginOnPath(c, d, schedule, i);
    cause := o.cause;
    CodeOfOrigin(c, schedule, i, o);
  }

  lemma CodeOfOrigin(c: Config, schedule: seq<seq<Event>>, i: nat, o: Origin)
    requires c.nprobes > 0 && ComesFrom(c, schedule, i, o)
    ensures ResultAt(c, schedule, i).code == CodeOf(o.kind)
  {
    AnswerClassified(c, o, Port(c, i + 1));
  }

  /** An answer from the destination never comes for a probe with a hop limit below d, however many probes
      there are: the probe that caused it was no later than the one waiting. */
  lemma DestinationIsFar(c: Config, d: int, schedule: seq<seq<Event>>, i: nat)
    requires c.nprobes > 0 && GenuineOnPath(c, d, schedule) && ResultAt(c, schedule, i).code == AT_DESTINATION
    ensures ResultAt(c, schedule, i).ttl >= d
  {
    var cause := CauseOnPath(c, d, schedule, i);
    HopMonotone(c.nprobes, cause - 1, i);
  }

  /** With d = 1 every answer is the destination's. */
  lemma AllFar(c: Config, d: int, schedule: seq<seq<Event>>, i: nat)
    requires c.nprobes > 0 && d <= 1 && GenuineOnPath(c, d, schedule) && ResultAt(c, schedule, i).code != TIMEOUT
    ensures ResultAt(c, schedule, i).code == AT_DESTINATION
  {
    var cause := CauseOnPath(c, d, schedule, i);
  }

  /** traceloop on that path never stops for `done` before hop limit d, for any number of probes. */
  lemma NeverStopsEarly(c: Config, d: int, schedule: seq<seq<Event>>, results: seq<Result>, ttls: nat)
    requires c.nprobes > 0 && GenuineOnPath(c, d, schedule) && Traced(c, schedule, results, ttls)
    ensures (exists i :: 0 <= i < |results| && results[i].code == AT_DESTINATION) ==> ttls >= d
  {
    forall i | 0 <= i < |results| && results[i].code == AT_DESTINATION
      ensures ttls >= d
    {
      DestinationIsFar(c, d, schedule, i);
      TtlOfResult(c.nprobes, ttls, i);
    }
  }

  /** The loop goes on behind no hop limit from d on that has an answer. */
  ghost predicate StopsAtAnswer(d: int, results: seq<Result>, ttls: nat) {
    forall i :: 0 <= i < |results| && results[i].ttl >= d && results[i].code != TIMEOUT ==> results[i].ttl == ttls
  }

  /** It does stop at the first hop limit from d on that has any answer, if the probes before the last hop
      limit are at most 65536, or d is 1, or there is no hop limit behind d. */
  lemma StopsAtDestination(c: Config, d: int, schedule: seq<seq<Event>>, results: seq<Result>, ttls: nat)
    requires c.nprobes > 0 && GenuineOnPath(c, d, schedule) && Traced(c, schedule, results, ttls)
    requires ttls <= c.maxTtl || ttls == 0
    requires Probes(c.nprobes, c.maxTtl - 1) <= PORTS || d <= 1 || d >= c.maxTtl
    ensures StopsAtAnswer(d, results, ttls)
  {
    if d <= 1 {
      OnlyDestinationAnswers(c, d, schedule, results, ttls);
    } else if d < c.maxTtl {
      PortsSuffice(c, d, schedule, results, ttls);
    }
    LaterHopsAnswer(c, d, schedule, results, ttls);
  }

  /** Before the last hop limit, what answers from hop limit d on is the destination. */
  ghost predicate DestinationOnly(d: int, results: seq<Result>, ttls: nat) {
    forall i :: 0 <= i < |results| && d <= results[i].ttl < ttls && results[i].code != TIMEOUT
      ==> results[i].code == AT_DESTINATION
  }

  lemma OnlyDestinationAnswers(c: Config, d: int, schedule: seq<seq<Event>>, results: seq<Result>, ttls: nat)
    requires c.nprobes > 0 && GenuineOnPath(c, d, schedule) && Traced(c, schedule, results, ttls) && d <= 1
    ensures DestinationOnly(d, results, ttls)
  {
    forall i | 0 <= i < |results| && results[i].code != TIMEOUT
      ensures results[i].code == AT_DESTINATION
    {
      AllFar(c, d, schedule, i);
    }
  }

  lemma PortsSuffice(c: Config, d: int, schedule: seq<seq<Event>>, results: seq<Result>, ttls: nat)
    requires c.nprobes > 0 && GenuineOnPath(c, d, schedule) && Traced(c, schedule, results, ttls)
    requires 1 < d < c.maxTtl && ttls <= c.maxTtl && Probes(c.nprobes, c.maxTtl - 1) <= PORTS
    ensures DestinationOnly(d, results, ttls)
  {
    forall i | 0 <= i < |results| && d <= results[i].ttl < ttls && results[i].code != TIMEOUT
      ensures results[i].code == AT_DESTINATION
    {
      WithinPorts(c, i);
      CodeOnPath(c, d, schedule, i);
    }
  }

  lemma LaterHopsAnswer(c: Config, d: int, schedule: seq<seq<Event>>, results: seq<Result>, ttls: nat)
    requires c.nprobes > 0 && Traced(c, schedule, results, ttls) && (ttls <= c.maxTtl || ttls == 0)
    requires d < c.maxTtl ==> DestinationOnly(d, results, ttls)
    ensures StopsAtAnswer(d, results, ttls)
  {
    forall i | 0 <= i < |results| && results[i].ttl >= d && results[i].code != TIMEOUT
      ensures results[i].ttl == ttls
    {
      TtlOfResult(c.nprobes, ttls, i);
    }
  }

  /** How many probes there are with hop limits up to `hops`. */
  function Probes(n: nat, hops: int): nat {
    if hops <= 0 then 0 else Probes(n, hops - 1) + n
  }

  lemma {:induction false} ProbesIsProduct(n: nat, hops: nat)
    ensures Probes(n, hops) == hops * n
  {
    if hops == 0 {
    } else {
      ProbesIsProduct(n, hops - 1);
      Distribute(n, hops, 1);
    }
  }

  lemma WithinPorts(c: Config, i: nat)
    requires c.nprobes > 0 && Hop(c.nprobes, i) < c.maxTtl && Probes(c.nprobes, c.maxTtl - 1) <= PORTS
    ensures i < PORTS
  {
    BeforeLastHop(c.nprobes, c.maxTtl - 1, i);
  }

  lemma BeforeLastHop(n: nat, hops: nat, i: nat)
    requires n > 0 && Hop(n, i) <= hops
    ensures i < Probes(n, hops)
  {
    ProbesIsProduct(n, hops);
    HopBelow(n, hops, i);
  }

  /** That is exact: it stops so on every such path and schedule if and only if that holds. */
  lemma StopsAtDestinationIff(c: Config, d: int)
    requires c.nprobes > 0
    ensures (forall schedule, results, ttls :: GenuineOnPath(c, d, schedule) && Finished(c, schedule, results, ttls)
               ==> StopsAtAnswer(d, results, ttls))
            <==> Probes(c.nprobes, c.maxTtl - 1) <= PORTS || d <= 1 || d >= c.maxTtl
  {
    if Probes(c.nprobes, c.maxTtl - 1) <= PORTS || d <= 1 || d >= c.maxTtl {
      forall schedule, results, ttls | GenuineOnPath(c, d, schedule) && Finished(c, schedule, results, ttls)
        ensures StopsAtAnswer(d, results, ttls)
      {
        StopsAtDestination(c, d, schedule, results, ttls);
      }
    } else {
      var schedule, results := GoesOnBehind(c, d);
      assert !StopsAtAnswer(d, results, c.maxTtl);
    }
  }

  /** Otherwise the delayed answer to a probe with a smaller hop limit is taken for one from d on, and the
      loop goes on. */
  lemma GoesOnBehind(c: Config, d: int) returns (schedule: seq<seq<Event>>, results: seq<Result>)
    requires c.nprobes > 0 && Probes(c.nprobes, c.maxTtl - 1) > PORTS && 1 < d < c.maxTtl
    ensures GenuineOnPath(c, d, schedule) && Finished(c, schedule, results, c.maxTtl)
    ensures !StopsAtAnswer(d, results, c.maxTtl)
  {
    var at := LateWait(c, d);
    schedule := LateOnPath(c, d, at, at - PORTS);
    results := AllTimeoutsBut(c, schedule, at, c.maxTtl);
    assert results[at].ttl >= d && results[at].code == IN_TRANSIT;
  }

  lemma LateOnPath(c: Config, d: int, at: nat, early: nat) returns (schedule: seq<seq<Event>>)
    requires c.nprobes > 0 && at == early + PORTS && Hop(c.nprobes, early) < d
    ensures GenuineOnPath(c, d, schedule) && ResultAt(c, schedule, at).code == IN_TRANSIT
    ensures forall i: nat :: i != at ==> ResultAt(c, schedule, i).code == TIMEOUT
  {
    var o := ExpiredOrigin(early + 1);
    schedule := OneLate(at, AnswerBytes(c, o));
    LateIsTaken(c, o, at);
    LateIsGenuineOnPath(c, d, o, at);
  }

  lemma LateIsGenuineOnPath(c: Config, d: int, o: Origin, at: nat)
    requires c.nprobes > 0 && AnswersProbe(c, o, at) && OnPath(c, d, o)
    ensures GenuineOnPath(c, d, OneLate(at, AnswerBytes(c, o)))
  {
  }

  lemma AllTimeoutsBut(c: Config, schedule: seq<seq<Event>>, at: nat, ttls: nat) returns (results: seq<Result>)
    requires c.nprobes > 0 && ttls == c.maxTtl && at < ttls * c.nprobes
    requires ResultAt(c, schedule, at).code == IN_TRANSIT
    requires forall i: nat :: i != at ==> ResultAt(c, schedule, i).code == TIMEOUT
    ensures Finished(c, schedule, results, ttls)
    ensures at < |results| && results[at] == ResultAt(c, schedule, at)
  {
    NotNegative(c.nprobes, ttls);
    results := seq(ttls * c.nprobes, i requires 0 <= i < ttls * c.nprobes => ResultAt(c, schedule, i));
  }

  /** A wait with a hop limit from d on, but not the last, 65536 behind one with a hop limit below d. */
  lemma LateWait(c: Config, d: int) returns (at: nat)
    requires c.nprobes > 0 && Probes(c.nprobes, c.maxTtl - 1) > PORTS && 1 < d < c.maxTtl
    ensures PORTS <= at < c.maxTtl * c.nprobes && d <= Hop(c.nprobes, at) < c.maxTtl
    ensures Hop(c.nprobes, at - PORTS) < d
  {
    var n := c.nprobes;
    ProbesIsProduct(n, c.maxTtl - 1);
    NotNegative(n, d - 1);
    at := if (d - 1) * n > PORTS then (d - 1) * n else PORTS;
    Distribute(n, c.maxTtl - 1, d - 1);
    AtLeastOnce(n, c.maxTtl - d);
    Distribute(n, c.maxTtl, 1);
    AtLeastOnce(n, d - 1);
    HopBelow(n, d - 1, at);
    HopBelow(n, c.maxTtl - 1, at);
    HopBelow(n, d - 1, at - PORTS);
  }

  lemma HopBelow(n: nat, q: int, x: nat)
    requires n > 0
    ensures Hop(n, x) <= q <==> x < q * n
  {
    HopAndAmong(n, x);
    var q', r := Hop(n, x) - 1, Among(n, x);
    Distribute(n, q, q');
    if q' < q {
      AtLeastOnce(n, q - q');
    } else {
      Distribute(n, q', q);
      NotNegative(n, q' - q);
    }
  }

  lemma {:induction false} HopMonotone(n: nat, x: nat, y: nat)
    requires x <= y
    ensures Hop(n, x) <= Hop(n, y)
  {
    if n == 0 || x < n {
    } else {
      HopMonotone(n, x - n, y - n);
    }
  }

  lemma TtlOfResult(n: nat, ttls: nat, i: nat)
    requires 0 < n && i < ttls * n
    ensures var ttl := Hop(n, i); 1 <= ttl <= ttls && (ttl < ttls <==> i < ttls * n - n)
  {
    HopAndAmong(n, i);
    var q := Hop(n, i) - 1;
    Distribute(n, ttls, q);
    if q >= ttls {
      Distribute(n, q, ttls);
      NotNegative(n, q - ttls);
    } else if q + 1 < ttls {
      AtLeastTwice(n, ttls - q);
    } else {
      assert q == ttls - 1;
      Distribute(n, ttls, 1);
    }
  }

  lemma NotNegative(n: nat, a: int)
    requires a >= 0
    ensures a * n >= 0
  {
  }

  lemma AtLeastTwice(n: nat, a: int)
    requires a >= 2
    ensures a * n >= 2 * n
  {
  }
}

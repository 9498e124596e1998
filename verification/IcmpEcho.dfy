/** ping/send_v4.c: an ICMP echo request is built in the global send buffer and checksummed in place. */
module IcmpEcho {
  import opened Bytes
  import opened Checksum

  const BUFSIZE: nat := 1500
  const ICMP_ECHO: Byte := 8
  const PATTERN: Byte := 0xa5

  /** The data part: the fill pattern with the send time over its beginning. */
  function EchoData(datalen: nat, tv: seq<Byte>): (d: seq<Byte>)
    ensures |d| == datalen
  {
    if |tv| >= datalen then tv[..datalen] else tv + seq(datalen - |tv|, _ => PATTERN)
  }

  function Unchecked(e: Endian, id: Word, number: Word, data: seq<Byte>): seq<Byte> {
    [ICMP_ECHO, 0, 0, 0] + [FirstByte(e, id), SecondByte(e, id)]
    + [FirstByte(e, number), SecondByte(e, number)] + data
  }

  /** The message on the wire: the checksum field makes the whole of it sum to zero. */
  function EchoRequest(e: Endian, id: Word, number: Word, data: seq<Byte>): seq<Byte> {
    StoreWord(e, Unchecked(e, id, number, data), 2, Cksum(e, Unchecked(e, id, number, data)))
  }

  /** Any receiver, whatever its byte order, finds a zero checksum over the whole message. */
  lemma EchoRequestVerifies(e: Endian, id: Word, number: Word, data: seq<Byte>, receiver: Endian)
    requires 8 + |data| <= SAFELEN
    ensures Cksum(receiver, EchoRequest(e, id, number, data)) == 0
  {
    StoredChecksumVerifies(e, Unchecked(e, id, number, data), 2, Cksum(e, Unchecked(e, id, number, data)), receiver);
  }

  class Pinger {
    const host: Endian
    const pid: Word
    const datalen: nat
    const sendbuf: array<Byte>
    var nsent: nat

    ghost predicate Valid() {
      sendbuf.Length == BUFSIZE && 8 + datalen <= BUFSIZE
    }

    constructor (host: Endian, pid: Word, datalen: nat)
      requires 8 + datalen <= BUFSIZE
      ensures Valid() && fresh(sendbuf) && nsent == 0
      ensures this.host == host && this.pid == pid && this.datalen == datalen
    {
      this.host := host;
      this.pid := pid;
      this.datalen := datalen;
      sendbuf := new Byte[BUFSIZE](_ => 0);
      nsent := 0;
    }

    /** send_v4: `tv` is what gettimeofday stores at the start of the data. */
    method SendV4(tv: seq<Byte>) returns (packet: seq<Byte>)
      requires Valid() && 8 + |tv| <= BUFSIZE
      modifies this`nsent, sendbuf
      ensures Valid() && nsent == old(nsent) + 1
      ensures packet == sendbuf[..8 + datalen]
      ensures packet == EchoRequest(host, pid, old(nsent) % 0x1_0000, EchoData(datalen, tv))
      ensures forall receiver :: Cksum(receiver, packet) == 0
      ensures forall i :: 8 + datalen <= i < BUFSIZE && 8 + |tv| <= i ==> sendbuf[i] == old(sendbuf[i])
    {
      var number: Word := nsent % 0x1_0000;
      nsent := nsent + 1;
      var len := 8 + datalen;
      ghost var message := Unchecked(host, pid, number, EchoData(datalen, tv));
      Fill(number, tv);
      assert sendbuf[0..len] == message;
      var answer := InCksum(host, sendbuf, 0, len);
      Put(sendbuf, 2, [FirstByte(host, answer), SecondByte(host, answer)]);
      packet := sendbuf[..len];
      assert packet == StoreWord(host, message, 2, answer);
      forall receiver: Endian {
        EchoRequestVerifies(host, pid, number, EchoData(datalen, tv), receiver);
      }
    }

    /** Lines 8 to 17: every field but the checksum, which is zeroed. */
    method Fill(number: Word, tv: seq<Byte>)
      requires Valid() && 8 + |tv| <= BUFSIZE
      modifies sendbuf
      ensures sendbuf[0..8 + datalen] == Unchecked(host, pid, number, EchoData(datalen, tv))
      ensures forall i :: 8 + datalen <= i < BUFSIZE && 8 + |tv| <= i ==> sendbuf[i] == old(sendbuf[i])
    {
      Put(sendbuf, 0, [ICMP_ECHO]);
      Put(sendbuf, 1, [0]);
      Put(sendbuf, 4, [FirstByte(host, pid), SecondByte(host, pid)]);
      Put(sendbuf, 6, [FirstByte(host, number), SecondByte(host, number)]);
      Put(sendbuf, 8, seq(datalen, _ => PATTERN));
      Put(sendbuf, 8, tv);
      Put(sendbuf, 2, [0, 0]);
      MessageAt(host, pid, number, datalen, tv);
    }
  }

  /** The message byte by byte. */
  lemma MessageAt(e: Endian, id: Word, number: Word, datalen: nat, tv: seq<Byte>)
    ensures var m := Unchecked(e, id, number, EchoData(datalen, tv));
            && |m| == 8 + datalen
            && m[0] == ICMP_ECHO && m[1] == m[2] == m[3] == 0
            && m[4] == FirstByte(e, id) && m[5] == SecondByte(e, id)
            && m[6] == FirstByte(e, number) && m[7] == SecondByte(e, number)
            && forall i :: 8 <= i < |m| ==> m[i] == if i - 8 < |tv| then tv[i - 8] else PATTERN
  {
  }
}

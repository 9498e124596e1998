# Network programs: a model and its proofs

This project models the parts of a collection of UNIX network programs that hold real logic, and
proves what they are written for. The kernel and the network appear as oracles: reads and writes of
any size, EINTR wherever a call may wait, EWOULDBLOCK at any time where calls do not wait, channels
that keep order but not boundaries, signals that come between any two steps, a network that drops,
delays, reorders and duplicates.

- **Echo service.** `EchoNet` is one connection: a bounded channel each way and the echo server as a
  step system. `ThreadClient`, `NonblockClient` and `LockstepClient` compose it with the three
  clients. In each, one sequence threads every byte from standard input to standard output and no
  move changes it; a measure bounds the work; and who can be blocked is settled exactly.
  `NonblockRelay` is the code of the non-blocking client, buffers and pointers included, and
  `EchoPrograms` the sequential code of the others, to which `EchoRefinement` ties the step systems.
- **Line readers.** `Readline` proves the byte-at-a-time reader and the buffered one against one
  reference, which `LineIsLine` and `LineIsUnique` characterise without a loop. `ReadlineThreads`
  runs any number of threads over the per-thread buffers.
- **Datagram ring.** `RingQueue` is the program's ring, handler and main loop parts; `RingSystem`
  interleaves them with the kernel one memory access at a time.
- **Checksums.** `Checksum` is the one's-complement checksum against RFC 1071; `IcmpEcho` and
  `UdpDatagram` build packets in place and check them, the latter against RFC 768.
- **Traceroute**, **select server**, **heartbeat** and **interface list** are in `Traceroute`,
  `SelectServer`, `Heartbeat` and `Interfaces`.

`Runs` holds what is common to the step systems: a run is a list of moves, `Next` gives the state
after a move or says that it is not possible.

Where code and comments or expectation differ, the model follows the code, and the proofs say what
that means:

- `strclinonb` returns at the socket's end of file whatever its second buffer holds
  (`NonblockClient.EndsWithResidueInFr`, `AllPrintedIffNothingToPrint`).
- The lock-step client is free of deadlock only under a condition on its input and the channel
  capacities, which `LockstepClient.NeverStuckIffAllSafe` gives exactly.
- Line 63 of `sigio/dgecho01.c` says "unblock" and blocks. The model lets the handler run or not at
  any point from there to line 70, so the proofs hold either way.
- A SIGIO is raised only for what arrives after line 47 of `sigio/dgecho01.c`, and until line 48 recvfrom
  blocks. So a backlog can be slept over and a signal in between can stop the program; and a burst that
  just fits the ring makes it quit. `RingSystem.NoLostWakeup` and `EverythingIsEchoed`,
  `SignalBeforeNonblock`, and `QuitsIffEnoughArrive` say exactly when.
- The growth loop of `ioctl/get_ifi_info.c` takes two equal lengths for success; a record longer than a
  growth step can make it return a truncated list (`Interfaces.FetchConfig`).
- Beyond 65536 probes traceroute can pass the destination by (`Traceroute.StopsAtDestinationIff`).
- An fgets that a signal interrupts returns NULL and is not retried: it ends `copyto` and the lock-step
  `str_cli` early (`ThreadClient.ReturnedMeansAllPrinted`, `LockstepClient.SafeRunsPrintEverything`).
- Line 41 of `udpcksum/udpread.c` compares an int with a size_t, so a frame shorter than its link header
  passes (`UdpDatagram.UdpRead`).
- The scan of `select/tcpservselect01.c` stops before slot `maxi`, which line 62 makes an occupied
  one. The bound is a parameter; `SelectServer.WhoIsServed` says whom each choice reaches, and
  `LastServedIffOvertaken` how long the client there waits.
- `readline` returns `maxlen` on truncation although it stores one byte less.
- A completed handler call never leaves the ring full, because the overflow test comes before the
  test for an empty socket; so `cntread[QSIZE]` is never incremented.

Misspelt identifiers in the sources (`selec`, `writen`, `nrecvfrom`, `va`, `helen`) are read as meant.
`err_quit` and `err_sys` end the program. `traceroute/trace.h` and `threads/unpthread.h` are not part
of this model: they are not in the repository.

## Model

| member | source | states |
|---|---|---|
| `Checksum.InCksum` | ping/in_cksum.c:1-31 | the folded 32-bit loop returns 0xffff minus the nonzero-preserving residue modulo 65535 of the word sum, wrapped at 2^32; for every buffer, offset and `len`, odd and negative lengths included |
| `Checksum.Accumulate` | ping/in_cksum.c:13-24 | the summing loop with its odd trailing byte leaves the wrapped word sum of exactly the bytes named |
| `Checksum.TwoFolds` | ping/in_cksum.c:27-29 | two folds of any 32-bit sum, cut to 16 bits, give its nonzero-preserving residue modulo 65535 |
| `Checksum.OneFoldRightIffNoCarry` | ping/in_cksum.c:27-28 | the second fold is needed exactly when the first one carries |
| `Checksum.ResidueIsOnesSum` | ping/in_cksum.c:26-28 | folding at the end equals adding with end-around carry word by word, which is how RFC 1071 defines the sum |
| `Checksum.CksumIsOnesChecksum` | ping/in_cksum.c:13-30 | on every buffer of up to 131074 bytes the code computes the RFC 1071 checksum |
| `Checksum.CksumRightIffNoWrap` | ping/in_cksum.c:4-16 | for every length an int can hold, the result is the RFC 1071 checksum if and only if the word sum stays below 2^32 |
| `Checksum.SafeLengthIsLargest` | ping/in_cksum.c:4-16 | 131074 bytes is the largest bound: at every greater length some buffer gets a wrong checksum |
| `Checksum.ByteOrderIndependent` | ping/in_cksum.c:13-30 | the little-endian checksum of any bytes, odd length included, is the byte swap of the big-endian one: the standard's always, and the code's up to 131074 bytes |
| `Checksum.CodeByteOrderIff` | ping/in_cksum.c:4-30 | at any length the code's two results are byte swaps of each other if and only if the wrap counts in the two byte orders are, modulo 65535, and the accumulator is left at 0 in both or in neither |
| `Checksum.OrderIndependent` | ping/in_cksum.c:13-30 | any permutation of the 16-bit words has the same checksum, of the standard and of the code, at any length |
| `Checksum.StoredChecksumVerifies` | ping/in_cksum.c:8-30 | storing the checksum over a zero field at an even offset, with 0xffff allowed for 0, makes the whole buffer sum to zero on a host of either byte order |
| `Checksum.ReplacedWordIff` | ping/in_cksum.c:13-28 | replacing one word leaves the one's-complement sum as it is if and only if it is replaced by itself or by the other zero |
| `IcmpEcho.Pinger.constructor` | ping/ping.h:8-15 | the send buffer and counters before the first request |
| `IcmpEcho.Pinger.SendV4` | ping/send_v4.c:3-20 | the packet sent is the echo request with the old counter value cut to 16 bits as its number, verifies to zero on any host, and no byte behind it changes; the counter goes up by one |
| `IcmpEcho.Pinger.Fill` | ping/send_v4.c:8-17 | header, pattern and time stamp lie as the message prescribes, the time over the pattern, the checksum field zero |
| `IcmpEcho.EchoRequestVerifies` | ping/send_v4.c:17-18 | every echo request sums to zero at any receiver, for every data length, odd or even |
| `UdpDatagram.UdpWrite` | udpcksum/udpwrite.c:16-65 | the in-place writes through both overlaid structures leave exactly the packet described by RawPacket, for every payload and endpoint, checksums on or off, with ip_len in network or host order as the system wants it, and touch nothing behind it |
| `UdpDatagram.FillOverlay` | udpcksum/udpwrite.c:22-37 | the first half leaves the pseudo-header overlay with the payload behind it |
| `UdpDatagram.FillChecksum` | udpcksum/udpwrite.c:39-48 | the checksum is stored over the zero field, 0xffff standing for a computed 0, nothing with zerosum |
| `UdpDatagram.FillIpHeader` | udpcksum/udpwrite.c:52-62 | the IP fields replace bytes 0 to 8 and leave bytes 9 and up, so ip_sum still holds the overlay's length |
| `UdpDatagram.FinishPacket` | udpcksum/udpwrite.c:39-62 | checksum and IP fields together, on any overlay |
| `UdpDatagram.PacketFromOverlay` | udpcksum/udpwrite.c:39-62 | the packet is the summed overlay with its first nine bytes replaced |
| `UdpDatagram.OverlaySum` | udpcksum/udpwrite.c:26-43 | the overlay sums like the RFC 768 pseudo-header followed by the UDP datagram |
| `UdpDatagram.SentPacketAccepted` | udpcksum/udpwrite.c:39-62 | for every payload that an IP datagram can hold, the packet passes the RFC 768 check at a receiver of either byte order although the IP header now lies over the pseudo-header; its checksum field is 0 exactly with zerosum |
| `UdpDatagram.FieldsOfPacket` | udpcksum/udpwrite.c:27-48 | where each field of the packet can be read back |
| `UdpDatagram.FrontOfPacket` | udpcksum/udpwrite.c:44-62 | the IP fields in front byte by byte, and the UDP length as a number |
| `UdpDatagram.UdpCheck` | udpcksum/udpread.c:35-64 | accepted if and only if version 4, a header of 20 bytes or more with 8 bytes behind it in the capture, a complete one's-complement sum of the header's words, and protocol UDP; an accepted packet comes back with ip_sum zeroed and every other byte as captured; a negative length passes the comparison with a size_t, and only then the header is read outside of the capture |
| `UdpDatagram.FaultMeaning` | udpcksum/udpread.c:41-63 | for every capture, which of the tests it is rejected by |
| `UdpDatagram.ChangedWord` | udpcksum/udpread.c:54-55 | an accepted header with one word replaced, outside version, length and protocol, is rejected for its checksum unless the word is the same or the other zero |
| `UdpDatagram.ChangedByte` | udpcksum/udpread.c:54-55 | with one byte changed it always is |
| `UdpDatagram.UdpRead` | udpcksum/udpread.c:9-31 | each link type's header is stripped before the check; other Ethernet types and unknown link types quit; the check stays inside the frame if and only if the captured length is at least the link header's or the link type is unknown |
| `UdpDatagram.FilledIsAccepted` | udpcksum/udpread.c:41-60 | any option-free IPv4 packet that announces UDP, once the kernel has filled length, identification and header checksum, is accepted, with fields and RFC 768 verdict unchanged |
| `UdpDatagram.WrittenPacketIsRead` | udpcksum/udpread.c:41-60 | round trip: what udp_write builds and the kernel completes is accepted by udp_check, still passes RFC 768, and shows the addresses, ports, lengths and payload that were written |
| `Streams.Descriptor.Read` | lib/readline.c:13-21 | the kernel's freedom: any number of the next bytes up to the request, or EINTR, an error, or end of file, as the stream has it |
| `Readline.ReadlineSlow` | lib/readline1.c:4-38 | the byte-at-a-time reader returns, stores, terminates and consumes what the reference Line says, with EINTR invisible |
| `Readline.ReadByte` | lib/readline1.c:13-34 | one byte, end of file or an error other than EINTR, whatever number of EINTRs come first |
| `Readline.Rline.MyRead` | lib/readline.c:7-29 | one event of the stream seen by the caller (unread bytes, then the kernel's), for every chunking |
| `Readline.Rline.Fill` | lib/readline.c:11-23 | the refill leaves some first part of what the descriptor delivers, never EINTR |
| `Readline.Rline.Readline` | lib/readline.c:31-56 | the buffered reader agrees with the same reference on the stream seen by the caller, so with the byte-at-a-time reader, for any sequence of calls, any chunking and any maxlen >= 1; what is left is unread bytes and kernel stream |
| `Readline.Rline.ReadlineBuf` | lib/readline.c:59-66 | the count is that of all unread bytes, and they are exactly what the next calls return first |
| `Readline.LineIsLine` | lib/readline1.c:11-37 | a call consumes a prefix of the stream, stores its bytes and no others, stops at the first newline, on truncation returns maxlen with maxlen-1 bytes stored, and leaves the buffer unterminated only on an error |
| `Readline.LineIsUnique` | lib/readline1.c:11-37 | that description admits one outcome only, so it defines what the readers do |
| `Readline.LineConservesData` | lib/readline1.c:11-37 | a call neither loses, invents nor reorders a byte: what is stored and what is left make up what was there |
| `Readline.StaticBufferRightIffEmpty` | lib/readline.c:3-5 | the one static buffer used on a second descriptor gives the right outcome if and only if nothing of the first is left in it |
| `ReadlineThreads.ThreadsAreIsolated` | threads/readline.c:22-74 | for every interleaving of any number of threads with their own descriptors: a thread's results are always the first of those it would get alone from the byte-at-a-time reader, and in the end all of them, with the rest of its stream intact |
| `ReadlineThreads.ThreadsFinish` | threads/readline.c:22-74 | in every interleaving a thread's actions are bounded by its calls and what there is to read, and one with no action left has made all its calls |
| `ReadlineThreads.OwnMoveFollows` | threads/readline.c:43-74 | an action of a thread takes it one step along its solo run |
| `ReadlineThreads.OthersUnaffected` | threads/readline.c:49-53 | an action of one thread leaves every other thread, its Rline and its descriptor alone |
| `ReadlineThreads.MoveKeepsApart` | threads/readline.c:49-53 | no two threads ever share an Rline |
| `Stdio.WireWhole` | threads/strclithread.c:26-27 | what fgets and strlen let through to the socket is the whole input if and only if it has no 0 byte |
| `Stdio.CutShape` | threads/strclithread.c:26-26 | a newline can only end a cut, and a cut ends at a newline, at the buffer's size or at the input's end |
| `EchoPrograms.Written` | lib/written.c:5-28 | all bytes are written, in order, in spite of short writes and EINTR, or -1 is returned after a proper part of them |
| `EchoPrograms.StrEcho` | lib/str_echo.c:3-18 | unless a write fails, exactly the bytes up to the end of the input go back, EINTR does not end the loop, and at every read all that has been read before is written |
| `EchoPrograms.ToEndMeaning` | lib/str_echo.c:8-17 | the loop ends at the first end of file or error other than EINTR, with everything before it echoed |
| `EchoPrograms.CopyTo` | threads/strclithread.c:22-31 | standard input, as fgets and strlen pass it, goes to the socket, each line before the next is fetched, then the FIN, with nothing written behind it; nothing is left unless an fgets was interrupted |
| `EchoPrograms.StrCliThread` | threads/strclithread.c:18-19 | prints the lines of the stream up to the first return of 0 or -1, each before the next is read |
| `EchoPrograms.PrintsAllBytes` | threads/strclithread.c:18-19 | of any bytes without a 0, wherever reads are interrupted, followed by end of file, everything is printed, a partial last line too |
| `EchoPrograms.ErrorEndsPrinting` | threads/strclithread.c:18-19 | of a line that a read error cuts off nothing is printed, nor of what follows |
| `EchoPrograms.StrCli` | lib/str_cli.c:3-19 | sends the lines and prints the replies in step, after a read error what its buffer holds, and tells whether it ended because the server was gone; every read of a reply is made with that line and all before written whole, no byte of a later one, and all earlier replies shown; every line is fetched with all before sent and answered; lines are left only by an interrupted fgets |
| `EchoPrograms.ExchangeLine` | lib/str_cli.c:9-17 | one line out whole, then one line back and shown, or what the buffer holds after a read error: every read of the reply finds the line written and the reply not yet shown |
| `EchoPrograms.ErrorShowsBuffer` | lib/str_cli.c:11-14 | after a read error the line buffer is shown with the part read laid over it, and the exchanges go on |
| `EchoPrograms.EchoIsPrinted` | lib/str_cli.c:7-17 | if what was sent comes back, wherever reads are interrupted, and every cut ends as a line, the cuts of fgets and readline coincide and the client prints its input |
| `EchoRefinement.ServerIsStrEcho` | lib/str_echo.c:8-15 | at every point of every run of the server's moves, whatever happens to the channels, what it has written and has yet to write is what StrEcho sends back of what it has read |
| `EchoRefinement.GoneAtEof` | lib/str_echo.c:9-15 | when it is gone it has read to the end of file |
| `EchoRefinement.ReaderIsStrCliThread` | threads/strclithread.c:18-19 | what the reader thread prints in a run is the beginning of what StrCliThread prints of what its reads run into, and all of it when str_cli returns |
| `EchoRefinement.CopierIsCopyTo` | threads/strclithread.c:22-31 | what copyto has sent in a run, with what it has yet to send, is what CopyTo sends of the same input; it goes with a FIN only |
| `EchoRefinement.ClientIsStrCli` | lib/str_cli.c:3-19 | what the lock-step client sends and prints in a run are the beginnings of what StrCli does with the same input and replies, and what StrCli promises when it is done or has missed the server |
| `EchoRefinement.ClientReadsInStep` | lib/str_cli.c:7-17 | in every run of the step system, whenever a reply is read, what has been sent and shown is what StrCli promises of its reads |
| `EchoNet.ServerKeeps` | lib/str_echo.c:8-15 | no move of the server loses, adds or reorders a byte on its way, and each but EINTR makes progress |
| `EchoNet.EofMeansDrained` | lib/str_echo.c:9-13 | a client sees end of file only after its own FIN and with nothing left on the way |
| `EchoNet.IdleIffBlocked` | lib/str_echo.c:8-15 | the server is idle, waiting for input or for room, exactly when no move but EINTR is left to it |
| `ThreadClient.EveryByteAccounted` | threads/strclithread.c:16-31 | in every interleaving, chunking and pattern of interruptions, for any channel capacities and input: what fgets and strlen have let through is, in order, stdout, current line, Rline, server-to-client channel, server buffer, client-to-server channel and the unsent part of sendline; without 0 bytes that is the input consumed |
| `ThreadClient.ReturnedMeansAllPrinted` | threads/strclithread.c:18-29 | when str_cli returns, the FIN has been sent, the server is gone and everything sent is printed; that is the input if and only if it has no 0 byte and no fgets before its end was interrupted |
| `ThreadClient.RunsEndByReturning` | threads/strclithread.c:18-31 | no run is longer than the work at its start, EINTRs apart, and one that cannot go on has returned: no deadlock for any capacities |
| `ThreadClient.MoveKeeps` | threads/strclithread.c:16-31 | what every single move of either thread, the server or the channels keeps |
| `NonblockRelay.StrCli.constructor` | nonblock/strclinonb.c:39-41 | both buffers empty at their base, standard input open, no FIN sent |
| `NonblockRelay.StrCli.Select` | nonblock/strclinonb.c:47-56 | which bits are set before select |
| `NonblockRelay.StrCli.ReadStdin` | nonblock/strclinonb.c:60-85 | the buffer, the end-of-file flag and the FIN after each result of the read |
| `NonblockRelay.StrCli.ReadSocket` | nonblock/strclinonb.c:87-115 | the buffer after each result of the read, and how EOF or an error ends str_cli |
| `NonblockRelay.StrCli.WriteStdout` | nonblock/strclinonb.c:117-134 | what a write leaves in the buffer, rewound to its base when empty |
| `NonblockRelay.StrCli.WriteSocket` | nonblock/strclinonb.c:136-158 | the same, and the deferred FIN with the last byte |
| `NonblockRelay.StrCli.Iterate` | nonblock/strclinonb.c:60-158 | a whole iteration: reads, then writes, of what was just read too, each part only if the earlier ones did not end str_cli |
| `NonblockRelay.TurnEnding` | nonblock/strclinonb.c:60-158 | how an iteration ends str_cli, and whether standard input has ended after it, in terms of the results of its calls |
| `NonblockRelay.EndingsOverRuns` | nonblock/strclinonb.c:45-158 | over any sequence of iterations: a normal end exactly at the socket's first end of file if standard input has ended by then, a premature one exactly if not, a failure exactly at the first call made that fails |
| `NonblockClient.RoundIsIteration` | nonblock/strclinonb.c:60-158 | a round of the step system's client moves is one iteration of the code, whatever others do in between, and also the round in which str_cli ends |
| `NonblockClient.EveryByteAccounted` | nonblock/strclinonb.c:60-158 | in every reachable state the input consumed is, in order, stdout, fr, server-to-client channel, server buffer, client-to-server channel and to |
| `NonblockClient.EndsWithResidueInFr` | nonblock/strclinonb.c:97-106 | str_cli ends only normally, after its FIN, with nothing left to send; the input is stdout followed by exactly what fr still holds |
| `NonblockClient.AllPrintedIffNothingToPrint` | nonblock/strclinonb.c:97-106 | it is certain that everything is printed before str_cli returns if and only if standard input is empty: for any other input some run returns with bytes left in fr |
| `NonblockClient.FinDiscipline` | nonblock/strclinonb.c:49-85 | shutdown is called at most once, only with standard input ended and every byte written; nothing is written afterwards; no read asks for zero bytes, so 0 always means end of file |
| `NonblockClient.NoWriteAfterFin` | nonblock/strclinonb.c:136-157 | after the FIN no move adds to the channel to the server |
| `NonblockClient.ProductiveMovesBounded` | nonblock/strclinonb.c:45-158 | the moves of a run that carry anything number at most seven per input byte and three |
| `NonblockClient.EveryRunCanEnd` | nonblock/strclinonb.c:45-158 | no deadlock and no trap for any channel capacities: every run can be continued to a normal end |
| `NonblockClient.HonestRunsEnd` | nonblock/strclinonb.c:45-158 | if select reports only what is ready, ready calls do not block and standard input and output are always ready: every run is bounded, EINTRs of the server apart, and one that cannot go on has ended normally with stdout and the residue in fr making up the input |
| `NonblockClient.Progress` | nonblock/strclinonb.c:49-56 | from every state the server, or the client through select, can reach a state with less to do |
| `NonblockClient.MoveKeeps` | nonblock/strclinonb.c:45-158 | what every part of an iteration and every server move keeps |
| `LockstepClient.PrintsWhatItSent` | lib/str_cli.c:7-18 | in every run what is printed is a prefix of what was to be sent; when str_cli is done it is all that fgets returned, and input is left exactly if an fgets before its end was interrupted; the client never takes the server for terminated |
| `LockstepClient.LineReadIsLineSent` | lib/str_cli.c:9-17 | where fgets cut, readline cuts: a completed reply is the line just sent, with nothing left behind it |
| `LockstepClient.NeverStuckIffAllSafe` | lib/str_cli.c:7-18 | no run deadlocks if and only if every fgets cut of the input has no 0 byte, ends in a newline or fills the buffer, and is at most one byte longer than both channels together |
| `LockstepClient.SlowRunGetsStuck` | lib/str_cli.c:9-11 | with an unsafe line ahead, a server that reads single bytes brings the client to a deadlock |
| `LockstepClient.SafeRunsPrintEverything` | lib/str_cli.c:7-18 | on safe input every run is bounded, retried calls apart, and one that cannot go on is done, with stdout equal to stdin if and only if no fgets before the end was interrupted |
| `LockstepClient.NewlineTerminatedIsSafe` | lib/str_cli.c:7-18 | with channels that hold a line, any input without a 0 byte whose last line ends in a newline is safe |
| `RingQueue.DgEcho.constructor` | sigio/dgecho01.c:34-42 | an empty ring |
| `RingQueue.DgEcho.SigIo` | sigio/dgecho01.c:75-106 | a handler call makes of the variables what AfterSigIo describes for the datagrams read, those already queued first; those that fit a buffer wait in the ring as they came; it quits exactly when the ring is full, and otherwise has read fewer than QSIZE and leaves the socket empty |
| `RingQueue.SigIoQueues` | sigio/dgecho01.c:81-105 | such a call appends what it reads, whole if it fits and with addresses, to the datagrams waiting in the ring and disturbs none of them, between lines 66 and 71 too |
| `RingQueue.StoredInOrder` | sigio/dgecho01.c:86-102 | the slots from iput on hold the datagrams read, in order, and the other slots are as before |
| `RingQueue.DgEcho.Receive` | sigio/dgecho01.c:86-102 | the first MAXDG bytes of one datagram, its length and its address go into the slot at iput, and count and index move on |
| `RingQueue.ClipMeaning` | sigio/dgecho01.c:88-97 | a datagram of up to MAXDG bytes is kept whole, of a longer one exactly the first MAXDG, and the address always |
| `RingQueue.DgEcho.EchoHead` | sigio/dgecho01.c:64-67 | of the datagrams waiting in the ring the first is sent, and the others wait on in their order |
| `RingSystem.EchoedThenQueued` | sigio/dgecho01.c:57-72 | for every placement of the handler: the datagrams read are those echoed followed by those in the ring, in order, each with its length and address; whole, if they fit a buffer |
| `RingSystem.CountersAgree` | sigio/dgecho01.c:66-71 | iput is iget plus nqueue modulo QSIZE, less one between sending and counting; loads and stores of nqueue never lose an update; the sum of k*cntread[k] is the datagrams read, and cntread[QSIZE] stays 0 |
| `RingSystem.SlotsAreSafe` | sigio/dgecho01.c:86-102 | the handler never stores into the slot being sent or any other still to be sent |
| `RingSystem.NoLostWakeup` | sigio/dgecho01.c:45-60 | main sleeps only with nothing counted; data is then in the socket without the handler being able to start if and only if there is a backlog from before line 47 and nothing has come since |
| `RingSystem.BacklogIsLost` | sigio/dgecho01.c:45-60 | the lost wake-up: with any backlog, main can go to sleep over it with no move left to the program |
| `RingSystem.SignalBeforeNonblock` | sigio/dgecho01.c:47-88 | the handler can come to wait for good in a recvfrom that still blocks if and only if the backlog and one more datagram do not fill the ring |
| `RingSystem.CaughtIffTooSoon` | sigio/dgecho01.c:47-88 | the handler is in that position exactly if a SIGIO was taken between lines 47 and 48: it never leaves it |
| `RingSystem.QuitsOnlyWhenFull` | sigio/dgecho01.c:83-84 | receive overflow means that all QSIZE slots are taken, the one just sent included until it is uncounted |
| `RingSystem.QuitsIffEnoughArrive` | sigio/dgecho01.c:81-84 | n datagrams after the start can make the program quit if and only if n is not 0 and with the backlog they are at least QSIZE |
| `RingSystem.AsleepQuitsIff` | sigio/dgecho01.c:59-84 | the same from any sleep with the unread datagrams and a pending signal counted in: a burst that just fits the ring is enough |
| `RingSystem.EverythingIsEchoed` | sigio/dgecho01.c:45-84 | without further arrivals every run comes to rest within a bound, plus a bit for each SIGHUP; it has quit only if at least QSIZE datagrams came; else everything is echoed in order if and only if no SIGIO was taken between lines 47 and 48, and either nothing came or something came after line 47; and otherwise nothing is |
| `RingSystem.MoveKeeps` | sigio/dgecho01.c:57-105 | the whole invariant, one memory access or system call at a time |
| `RingSystem.HandlerCallIsSigIo` | sigio/dgecho01.c:75-106 | a handler call of the step system, with arrivals at any point in it, leaves the variables as DgEcho.SigIo does for the datagrams it reads, and quits under the same condition |
| `RingSystem.StoreIsSafe` | sigio/dgecho01.c:86-102 | the store itself: its slot is free |
| `Traceroute.AnswerClassified` | traceroute/recv_v4.c:37-80 | a genuine answer is taken for the probe whose port it quotes, with its sender's meaning, whatever the header lengths |
| `Traceroute.RecvV4` | traceroute/recv_v4.c:12-92 | the first message that quotes the probe decides, if it comes before the alarm; others and other signals are passed over; what counts as quoting it is MessageClassified |
| `Traceroute.MessageClassified` | traceroute/recv_v4.c:37-85 | a message counts if and only if it quotes a UDP datagram with both our ports and is time exceeded in transit or unreachable; another process's port, another probe's, another protocol, type or code is passed over |
| `Traceroute.RuntIgnored` | traceroute/recv_v4.c:41-50 | so is what is too short to quote an IP header |
| `Traceroute.ForeignIgnored` | traceroute/recv_v4.c:37-85 | no message for other processes is taken for an answer to any probe of this one |
| `Traceroute.AnswerMeaning` | traceroute/recv_v4.c:23-88 | the same said by position: nothing before it matched and no alarm came before it |
| `Traceroute.TraceLoop` | traceroute/traceloop.c:33-81 | every probe's sequence number, hop limit, index and code in order, and the probes as sent with hop limit and destination port, each waited for before the next; it stops after the first hop limit with an answer from the destination, or after max_ttl |
| `Traceroute.ProbeHop` | traceroute/traceloop.c:44-79 | the probes of one hop limit, sent and waited for in turn, and whether the destination answered |
| `Traceroute.SeqOfProbe` | traceroute/traceloop.c:44-48 | seq is (ttl-1)*nprobes+probe+1 throughout |
| `Traceroute.SomeOrigin` | traceroute/recv_v4.c:44-80 | whatever comes in that is for others, a result other than a timeout comes from some answer to a probe already sent |
| `Traceroute.AnswersAreAttributed` | traceroute/recv_v4.c:55-79 | among the first 65536 probes an answer that is taken is for the probe waiting, and its code is the one meant, however late, reordered or duplicated answers are |
| `Traceroute.AttributionIffPortsSuffice` | traceroute/traceloop.c:36-54 | results are always for the right probe if and only if max_ttl*nprobes is at most 65536 |
| `Traceroute.LateAnswer` | traceroute/recv_v4.c:55-79 | beyond it, the delayed answer to probe 1 is taken for probe 65537's |
| `Traceroute.CodeOnPath` | traceroute/traceloop.c:54-76 | on a fixed path of d hops a result says on which side of hop limit d it lies |
| `Traceroute.NeverStopsEarly` | traceroute/traceloop.c:36-76 | on such a path the loop never stops for done before hop limit d, for any number of probes |
| `Traceroute.StopsAtDestination` | traceroute/traceloop.c:36-76 | on such a path it stops at the first hop limit from d on with an answered probe, if the probes before the last hop limit are at most 65536, or d is 1, or d is not below max_ttl |
| `Traceroute.StopsAtDestinationIff` | traceroute/traceloop.c:36-76 | it stops so on every such path and schedule if and only if that condition holds |
| `Traceroute.GoesOnBehind` | traceroute/traceloop.c:36-76 | otherwise the delayed answer to a probe with a smaller hop limit is taken for one from d on, and the loop goes on |
| `SelectServer.Server.constructor` | select/tcpservselect01.c:24-30 | the table empty and the set holding the listening descriptor alone |
| `SelectServer.Server.Accept` | select/tcpservselect01.c:40-62 | a new connection takes the first free slot and set, maxfd and maxi follow; a full table changes nothing |
| `SelectServer.Server.Listen` | select/tcpservselect01.c:37-66 | a waiting connection is admitted and the count is then that of the ready clients |
| `SelectServer.Server.Visit` | select/tcpservselect01.c:71-86 | a ready client that has closed leaves its slot and the set, one that sent data is echoed and keeps both, as does one that is not ready |
| `SelectServer.Server.VisitAndCount` | select/tcpservselect01.c:71-89 | the count stays that of the ready clients from the next slot on |
| `SelectServer.Server.Scan` | select/tcpservselect01.c:68-92 | the early exit on nready serves exactly the clients that a full scan of the same range would, in slot order, and leaves the same table |
| `SelectServer.Server.Iterate` | select/tcpservselect01.c:34-92 | a whole iteration keeps set, table, maxfd and maxi in agreement and serves exactly the ready clients below the bound; those of them that have closed leave table and set, every other client keeps its slot and bit, nothing is added but the new connection; it stops exactly when a connection finds the table full |
| `SelectServer.SlotsAfter` | select/tcpservselect01.c:37-92 | the same of the table, slot by slot |
| `SelectServer.ReadyInMeaning` | select/tcpservselect01.c:68-74 | whom a full scan serves |
| `SelectServer.ReadyInOnce` | select/tcpservselect01.c:68-74 | nobody twice |
| `SelectServer.WhoIsServed` | select/tcpservselect01.c:62-68 | with the code's bound all ready clients are served if and only if the one in slot maxi is not ready; with the inclusive bound always |
| `SelectServer.LastServedIffOvertaken` | select/tcpservselect01.c:32-92 | over any number of iterations with the code's bound, a client in slot maxi that is always ready is served if and only if some connection comes while its slot and all below are taken |
| `SelectServer.OvertakenIffOnTop` | select/tcpservselect01.c:42-62 | maxi goes up exactly by a connection that comes while slots 0 to maxi are taken |
| `SelectServer.LastIsPassedOver` | select/tcpservselect01.c:61-74 | in one iteration such a client is neither served nor moved while its slot is the last, and served once it is not |
| `SelectServer.ReadyCount` | select/tcpservselect01.c:64-89 | nready counts the ready clients in the table, each once |
| `Heartbeat.Monitor.constructor` | oob/heartbeatcli.c:12-18 | both arguments raised to their least sensible values; the same code as oob/heartbeartserv.c:12-16 |
| `Heartbeat.Monitor.ClientUrg` | oob/heartbeatcli.c:28-40 | the count is the alarms since this signal |
| `Heartbeat.Monitor.ServerUrg` | oob/heartbeartserv.c:26-41 | the same, after echoing the byte |
| `Heartbeat.Monitor.SigAlrm` | oob/heartbeatcli.c:42-54 | exits exactly when the alarms since the last SIGURG pass the limit; else a client, not a server, sends a probe |
| `Heartbeat.ClientStays` | oob/heartbeatcli.c:42-54 | a client never exits if every probe brings some SIGURG within less than some time that is at most maxnprobes periods |
| `Heartbeat.ClientStaysIff` | oob/heartbeatcli.c:42-54 | a time limit on answers is sure to keep the client if and only if it is at most maxnprobes periods |
| `Heartbeat.ServerStays` | oob/heartbeartserv.c:44-55 | a server never exits if gaps between probes, and the wait for the first, are shorter than maxnalarms periods, or at most that long with ties going to the alarm |
| `Heartbeat.ServerStaysIff` | oob/heartbeartserv.c:44-55 | a bound on the gaps is sure to keep the server if and only if it is shorter than maxnalarms periods, or not longer with ties going to the alarm; for either way of ordering ties |
| `Heartbeat.SilenceEndsIt` | oob/heartbeartserv.c:44-55 | for every setting and every longer bound there is a run within it in which the count passes the limit |
| `Heartbeat.SilenceIsTimed` | oob/heartbeartserv.c:44-55 | a probe no later than the first alarm, then alarms only, is a run with its alarms on time and its signals in order |
| `Heartbeat.RowLength` | oob/heartbeatcli.c:25-52 | in a row of unanswered alarms each comes one period after the other |
| `Interfaces.FetchConfig` | ioctl/get_ifi_info.c:15-36 | the growth loop ends, and what it has got is the whole configuration if and only if no record straddles a growth step: begins within one buffer and ends behind the next |
| `Interfaces.ShortRecordsDoNotStraddle` | ioctl/get_ifi_info.c:29-34 | records of at most ten ifreq structures never do |
| `Interfaces.NothingCutOff` | ioctl/get_ifi_info.c:29-34 | ten ifreq more without another record mean that there is none |
| `Interfaces.BuildList` | ioctl/get_ifi_info.c:37-165 | the list through ifi_next is acyclic and holds exactly the wanted records' data in order: name, index, MTU, hardware address, flags and the three addresses |
| `Interfaces.Examine` | ioctl/get_ifi_info.c:64-165 | what is entered for a record depends only on it, on the last record of the family before it, and on the link-level record remembered |
| `Interfaces.WantedIff` | ioctl/get_ifi_info.c:76-94 | a record is entered if and only if it is of the family, its interface is up and, unless doaliases is set, it does not repeat the interface of the record of the family before it |
| `Interfaces.BaseMeaning` | ioctl/get_ifi_info.c:80-81 | the interface's name is the part before the first colon |
| `Interfaces.InfoFrom` | ioctl/get_ifi_info.c:100-165 | which fields of an entry are there and where each comes from |
| `Interfaces.Append` | ioctl/get_ifi_info.c:96-98 | the store through the tail pointer extends the list by one node at its end |
| `Interfaces.WantedMeaning` | ioctl/get_ifi_info.c:76-94 | the list picks the records of the family that are up, in order, each once, less the repeated interfaces unless doaliases is set |
| `Interfaces.NoAliasesUnlessAsked` | ioctl/get_ifi_info.c:82-87 | without doaliases no entry is marked an alias |
| `Interfaces.HardwareOfEntry` | ioctl/get_ifi_info.c:64-120 | an entry gets index and hardware address of the last link-level record exactly when that is for its interface and so is every entry since; otherwise 0 and none |

## Left out

- Socket set-up, options, name resolution, fork and exec, daemon start-up and printing: calls without logic of their own.
- Kernel errors other than EINTR, EWOULDBLOCK and end of file in the three compositions; several callers there ignore a -1. The sequential methods state what happens when a write fails.
- EchoPrograms.StrCli: a line buffer without any 0 byte, which the source prints past its end after a read error, is printed up to its end.
- NonblockClient.ProductiveMovesBounded: counts the moves that transfer something; HonestRunsEnd bounds the others too, for a select that reports only what is ready.
- UdpDatagram.UdpRead: what follows from a header read outside of the captured frame; the verdict Outside stands for it.
- UdpDatagram.SentPacketAccepted: stated for lengths that the 16-bit fields can hold; RawPacket keeps the truncation of longer ones.
- Interfaces.FetchConfig: a configuration that changes between two calls, and errors of ioctl other than EINVAL for a small buffer. Records have a positive length, as they hold a name.
- Interfaces.BuildList: the release of the list, and builds without link-level records or without the ioctls for MTU and addresses.
- Traceroute.RecvV4: the alarm that goes off just before recvfrom blocks; nothing is claimed about time.
- Traceroute.TraceLoop: round-trip times, host names and the time in the probe's data, which the matching does not use.
- RingQueue.DgEcho.SigIo: addresses are taken to fit the space of `clilen` bytes; sendto is taken to succeed.
- RingSystem.MoveKeeps: a SIGHUP is modelled as what ends sigsuspend; that it restarts an interrupted recvfrom instead of failing it is assumed, and SIGHUP before line 44, which ends the program, is left out.
- Heartbeat.Monitor.SigAlrm: handlers take no time, so the nth alarm comes at n periods; errors of recv other than EWOULDBLOCK are not modelled.
- SelectServer.Server.Visit: reads do not fail, and the echo through written is taken to succeed.
- Copies of modelled code in tcpcliserv, the poll server, the IPv6 receivers, the broadcast, multicast and packet-capture programs, and the retransmission in udpcksum.

# Verification of the UNIX Network Programming sources

This project models the parts of the repository that have logic of their own and proves
what they promise. System calls, the network and the scheduler are arbitrary: they are
parameters or events that may come in any order the mechanism allows. The code's own state
is kept exactly. Each component has a specification on values (`*_spec.dfy` or the first
half of its file), whose properties are the lemmas, and methods or classes in the form of
the C code, each proved to do what the specification says.

`dafny verify dfyconfig.toml` checks everything.

- **Address text** (`ctext`, `inet4`, `inet6_parse`, `inet6_print`, `inet6_roundtrip`,
  `inet6_forms`, `inet6_text`). The
  parser is specified by splitting the text at its separators and assembling the pieces;
  the printer by the leftmost longest run of zero groups. The loops, including the in-place
  shift for `::` and the writes into the 16- and 46-character buffers, are proved against
  these. The main theorems are the round trip for every 16-byte address, which texts
  exactly are accepted, and which text exactly is printed.
  The comment above `inet_pton6` says that it does not touch `dst` unless it succeeds,
  which holds, and that `::` in a full address is ignored, which does not: it clears the
  bytes behind it; the lemma says on which texts. An address may also end in a single colon.
  The size test of `inet_ntop4` leaves out the NUL; the sizes where that matters are stated.
- **Datagram queue filled by a signal handler** (`sigio_spec`, `sigio_echo`), **prethreaded
  server** (`pool_spec`, `pool_server`), **preforked server with descriptor passing**
  (`prefork_spec`, `prefork_server`), **bounded buffer** (`prodcons_spec`, `prodcons`). Each
  is a step system; the invariants hold in every interleaving, and where the code promises
  to make progress there is a measure and a proof that no schedule gets stuck.
- **Nonblocking copy** (`nonblock_spec`, `nonblock_rounds`, `nonblock_strcli`): two buffers
  and four pointers under arbitrary short reads, short writes and EWOULDBLOCK.
- **Reliable request and reply over UDP** (`rtt`, `rtt_means`, `dgsend_spec`,
  `dgsend_estimate`, `dgsend_client`): the network drops, repeats and reorders; the
  estimator is over the reals.
- **addrinfo lists** (`gai_spec`, `gai_cases`, `gai_list`): the list that grows while it is
  walked, on the heap, with unshared nodes and socket addresses, and allocations that may
  fail.
- **Line readers** (`readline_spec`, `readline`): buffered and unbuffered versions against
  one specification, with their different return values.
- **Internet checksum** (`checksum`): the 32-bit sum and two folds against the
  end-around-carry sum of RFC 1071, on machines of either byte order.
- **UNO game** (`uno_turn`, `uno_spec`, `uno_calls`, `uno_deal`, `uno_plays`, `uno_piles`,
  `uno_reached`, `uno_game`): turn order, deal, draw, play and the calls for any messages
  and any random numbers. The reshuffle collects the unheld cards and then overwrites them;
  a player caught after leaving is dealt in again. The lemmas say exactly when cards and
  players are right all the same, and that games come to the cases where they are not.
- **ping** (`ping_spec`, `ping_totals`, `ping`): the table of received bits and the
  counters across wrap-around of the 16-bit sequence number, for honest and other replies.

History variables (what was read, sent, accepted, dealt) are ghost fields or fields of the
specification's state; the code has no such variables.

## Model

| member | source | states |
|---|---|---|
| Inet4.InetPton4 | libfree/inet_pton.c:86-125 | succeeds exactly for four nonempty runs of decimal digits of value at most 255 separated by single dots (`Quad`), stores those bytes, and otherwise leaves `dst` untouched |
| Inet4.QuadFailsEarly | libfree/inet_pton.c:96-121 | once a prefix has a bad character, an octet over 255, an empty octet or a fifth octet, no continuation is accepted, so the early returns are right |
| Inet4.QuadCharacters | libfree/inet_pton.c:96-121 | an accepted text has only digits and dots |
| Inet4.InetNtop4 | libfree/inet_ntop.c:85-101 | stores the dotted text with its terminator unless the text alone is longer than `size`, and leaves `dst` alone otherwise; what it stores stays within `size` if and only if the text is not exactly `size` long |
| Inet4.Ntop4StaysWithin | libfree/inet_ntop.c:95-99 | the size test leaves out the NUL: text and NUL stay within `size` if and only if the text is not exactly `size` long |
| Inet4.Ntop4GoesBeyond | libfree/inet_ntop.c:95-99 | 1.2.3.4 in a buffer of seven characters: eight are stored |
| Inet4.SizeIsSafe | libfree/inet_ntop.c:85-101 | a size is safe for all addresses if and only if it is below 7 or above 15; for each size between there is an address whose NUL goes beyond it |
| Inet4.DottedLength | libfree/inet_ntop.c:88-94 | the text has 7 to 15 characters, so the scratch array of 16 never overflows |
| Inet4.DottedRoundTrip | libfree/inet_pton.c:86-125 | parsing the printed text of any four bytes gives the bytes back |
| Inet4.InetAton | libfree/inet_aton.c:22-75 | accepts exactly the texts of `AtonSpec` and computes their address |
| Inet4.AtonFailsEarly | libfree/inet_aton.c:28-66 | the first bad piece settles the matter |
| Inet4.BigEndianShift | libfree/inet_aton.c:56-66 | filling up with zero bytes is the shift by the missing octets |
| Inet4.AtonAgreesWithPton4 | libfree/inet_aton.c:22-75 | whatever `inet_pton4` accepts `inet_aton` accepts too, with the same address |
| Inet4.AtonAcceptsMore | libfree/inet_aton.c:44-66 | the other way round, of the texts `inet_aton` accepts `inet_pton4` accepts exactly those with four nonempty parts that do not wrap around |
| Inet4.AtonNumbers | libfree/inet_aton.c:22-75 | one to four numbers of at most 255 are one byte each, from the left, and the missing ones are zero |
| CText.OctetReadInHex | libfree/inet_pton.c:165-174 | digits that make a decimal octet stay within 16 bits when the IPv6 loop first reads them as hexadecimal |
| CText.OrAdds | libfree/inet_pton.c:168-169 | bits that are or-ed in where a shift has left zeros are added; the parser's `val` and the printer's words rest on it |
| CText.NumeralRoundTrip | libfree/inet_ntop.c:88-94 | reading a numeral gives the number printed, in base ten and sixteen |
| Inet6Text.NumeralIs | libfree/inet_ntop.c:181 | the numeral is the one text in small letters and without a leading zero that has this value |
| CText.SplitJoin | libfree/inet_pton.c:147-191 | splitting joined pieces at the separator gives the pieces back |
| Inet6Parse.SlideToEnd | libfree/inet_pton.c:205-218 | the overlapping in-place shift yields prefix, zeros and suffix whenever `tp < endp` |
| Inet6Parse.FullAddressGapIgnored | libfree/inet_pton.c:213-216 | filling the gap of sixteen stored bytes leaves them as they are if and only if the bytes behind it are all zero |
| Inet6Parse.ParseFailsEarly | libfree/inet_pton.c:147-203 | once a prefix is hopeless no continuation is accepted |
| Inet6Parse.ScanHexDigit | libfree/inet_pton.c:165-174 | a hex digit extends the current group, or makes it too large for good |
| Inet6Parse.ScanGap | libfree/inet_pton.c:175-182 | an empty group between colons is the gap, once |
| Inet6Parse.ScanGroup | libfree/inet_pton.c:183-190 | a colon stores the group before it, if there is room |
| Inet6Parse.ScanDot | libfree/inet_pton.c:191-197 | a dot makes the last piece an IPv4 address and ends the scan |
| Inet6Parse.StoreResult | libfree/inet_pton.c:199-223 | the last group is stored, the gap filled, and the result copied only when sixteen bytes are there |
| Inet6Parse.InetPton6 | libfree/inet_pton.c:140-224 | succeeds exactly when the text assembles to sixteen bytes (`Parse6`), stores these, and otherwise leaves `dst` untouched |
| Inet6Print.FindRun | libfree/inet_ntop.c:135-156 | the loop finds the longest run of at least two zero groups, the leftmost of the longest |
| Inet6Print.BestRunUnique | libfree/inet_ntop.c:137-156 | there is only one such run |
| Inet6Print.BestRunIsBest | libfree/inet_ntop.c:137-156 | the run defined recursively is that run |
| Inet6Print.MakeWords | libfree/inet_ntop.c:132-134 | shifting each byte and or-ing it into its word gives the eight big-endian words |
| Inet6Print.PrintAll | libfree/inet_ntop.c:161-187 | writing group by group, with one colon pair for the run, gives the specified text |
| Inet6Print.PrintMixed | libfree/inet_ntop.c:173-180 | likewise when the last four bytes are printed in dotted form |
| Inet6Print.Text6Length | libfree/inet_ntop.c:122-195 | the text has at most 39 characters, so the buffer of 46 never overflows |
| Inet6Print.Format | libfree/inet_ntop.c:161-187 | fills the buffer with the specified text without leaving it |
| Inet6Print.InetNtop6 | libfree/inet_ntop.c:109-198 | copies the text with its terminator when it fits, and leaves `dst` alone otherwise |
| Inet6Text.DottedExactly | libfree/inet_ntop.c:173-180 | the last four bytes are dotted if and only if the twelve before are zero and the next two are not both, or ten are zero and the next two 255; then the text is `::` or `::ffff:` and the dotted quad |
| Inet6Text.GapExactly | libfree/inet_ntop.c:135-187 | otherwise `::` stands for the leftmost of the longest runs of two or more zero words, and without two zero words in a row all eight are written |
| Inet6Text.GroupValue | libfree/inet_ntop.c:132-134 | the group printed at place k is the number of bytes 2k and 2k + 1, the high one first |
| Inet6RoundTrip.ParseFull | libfree/inet_pton.c:140-224 | eight groups, or six and a dotted quad, of any spelling parse to their bytes |
| Inet6RoundTrip.ParseCompressed | libfree/inet_pton.c:140-224 | any groups before and after a `::`, dotted quad included, parse to the bytes before, zeros, and the bytes after |
| Inet6RoundTrip.ParseTrailingColon | libfree/inet_pton.c:175-190 | a single colon at the end of a full address is accepted |
| Inet6RoundTrip.ParseGapTrailingColon | libfree/inet_pton.c:175-190 | and so it is behind a compressed address, as in 1::2: |
| Inet6RoundTrip.GapIgnoredExactly | libfree/inet_pton.c:205-218 | for the texts with sixteen bytes around their `::` and nothing behind, the address is those bytes, as the comment at line 134 promises, if and only if the bytes behind the `::` are all zero |
| Inet6Forms.AcceptedForms | libfree/inet_pton.c:140-224 | `inet_pton6` accepts exactly these texts: groups, the last of which may be a dotted quad, that make sixteen bytes; or groups before and after one `::` that make at most sixteen; and either with a single colon more behind a last group |
| Inet6Forms.FormParses | libfree/inet_pton.c:140-224 | and gives each of them its address |
| Inet6Forms.AddressIs | libfree/inet_pton.c:205-218 | the bytes before the `::` go to the front and those behind it to the end, with zeros between; if there is no room for zeros those behind are lost |
| Inet6Forms.LeadingZeros | libfree/inet_pton.c:165-174 | leading zeros do not matter, however many |
| Inet6Forms.GroupBytes | libfree/inet_pton.c:183-186 | each group is stored in two bytes, the high one first |
| Inet6Forms.NoticeExactly | libfree/inet_pton.c:205-218 | so, for every accepted text of sixteen bytes, a `::` is ignored if and only if the bytes behind it are all zero |
| Inet6RoundTrip.GapInFullAddress | libfree/inet_pton.c:213-216 | a concrete full address whose gap clears the bytes behind it |
| Inet6RoundTrip.RoundTrip | libfree/inet_ntop.c:109-198 | for every sixteen bytes, parsing the printed text returns them: no gap, leading, middle and trailing gap, all zero, and both dotted forms |
| Inet6RoundTrip.PrinterInjective | libfree/inet_ntop.c:109-198 | different addresses have different texts |
| Inet6RoundTrip.ParsedCharacters | libfree/inet_pton.c:147-191 | an accepted text has only hex digits, colons and dots |
| Inet6RoundTrip.NtopThenPton | libfree/inet_ntop.c:109-198 | the two routines called one after the other on arrays return the address |
| SigioSpec.ReceiveReturns | sigio/dgecho01.c:85-107 | the handler returns exactly when the datagrams waiting leave the queue short of full, and then has counted all of them |
| SigioSpec.ReceiveAppends | sigio/dgecho01.c:85-107 | the handler appends its datagrams behind those queued |
| SigioSpec.ReceiveKeeps | sigio/dgecho01.c:85-107 | no live slot is overwritten, in particular not the one being sent; neither by the datagrams nor by the `dg_salen` written before each recvfrom |
| SigioSpec.TouchKeeps | sigio/dgecho01.c:89-90 | preparing the slot at `iput` for recvfrom, when no datagram comes too, changes none of the queued ones |
| SigioSpec.MainKeepsInv | sigio/dgecho01.c:57-73 | each statement of the main loop keeps the invariant, between `++iget` and `nqueue--` too |
| SigioSpec.SignalKeepsInv | sigio/dgecho01.c:78-108 | a signal at any point where SIGIO is deliverable keeps it |
| SigioSpec.EchoesInOrder | sigio/dgecho01.c:56-108 | in every interleaving, until an overflow, datagrams are echoed in arrival order to their own senders, `nqueue` stays below QSIZE, and the sum of k times `cntread[k]` is the number received |
| SigioSpec.FullBatchNeverCounted | sigio/dgecho01.c:107 | `cntread[QSIZE]` stays 0: a batch that size quits before it is counted |
| SigioSpec.HistogramExactly | sigio/dgecho01.c:107 | each counter `cntread[k]` is the number of signals that found k datagrams |
| SigioSpec.OverflowExactly | sigio/dgecho01.c:86-97 | the program quits in the handler exactly when the queue would become full or recvfrom fails |
| SigioSpec.Drains | sigio/dgecho01.c:57-73 | without further signals the main loop sends everything queued and comes to wait |
| SigioEcho.DgEcho.SigIo | sigio/dgecho01.c:78-108 | the handler on the shared variables does what the specification says |
| SigioEcho.DgEcho.Signal | sigio/dgecho01.c:46-71 | it runs only where the signal mask lets it |
| SigioEcho.DgEcho.Statement | sigio/dgecho01.c:57-73 | one statement of the main loop |
| SigioEcho.DgEchoUnder | sigio/dgecho01.c:29-108 | program and handler under any sequence of signals |
| PoolSpec.StepKeepsOrder | server/serv08.c:39-46 | accepted descriptors are the dequeued ones followed by those in the ring |
| PoolSpec.StepKeepsWakeups | server/pthread08.c:21-27 | while an unsignalled waiter exists, queued items never exceed the threads signalled but not yet resumed |
| PoolSpec.StepKeepsAccounts | server/pthread08.c:24-31 | each worker's counter and descriptor in hand agree with its dequeues |
| PoolSpec.RunKeepsInv | server/serv08.c:35-47 | all of this over whole runs |
| PoolSpec.ServedInOrder | server/pthread08.c:20-32 | for any number of workers and any schedule the k-th dequeue gets the k-th accepted descriptor, each goes to one worker, and no wakeup is lost |
| PoolSpec.OverflowExactly | server/serv08.c:41-44 | the server gives up exactly when 31 descriptors are queued already |
| PoolSpec.WorkerCanRun | server/pthread08.c:22-23 | while descriptors are queued some worker can run |
| PoolSpec.WorkIsBounded | server/pthread08.c:20-32 | workers alone take exactly as many steps as the measure says |
| PoolSpec.StuckMeansDone | server/pthread08.c:20-32 | where they can go no further every accepted descriptor has been served |
| PoolServer.Server.Enqueue | server/serv08.c:39-46 | the main thread's critical section |
| PoolServer.Server.Dequeue | server/pthread08.c:21-27 | a worker's critical section: wait, or take the oldest descriptor |
| PoolServer.Server.CountConnection | server/pthread08.c:28 | the counter, outside the mutex |
| PoolServer.ServeUnder | server/serv08.c:35-47 | the server under any schedule keeps order, wakeups and accounts |
| PreforkSpec.AlwaysAvailable | server/serv05.c:54-59 | "no available children" is unreachable |
| PreforkSpec.FirstAvailable | server/serv05.c:54-64 | the connection goes to the first available child, and no other child changes |
| PreforkSpec.ListensExactly | server/serv05.c:45-46 | select can announce a connection if and only if some child is available |
| PreforkSpec.StepKeepsMarks | server/serv05.c:60-76 | a child is marked busy exactly when its descriptor is in flight, being served, or its ready byte unread |
| PreforkSpec.StepKeepsAvail | server/serv05.c:62-76 | `navail` equals the number of children marked available |
| PreforkSpec.StepKeepsPhase | server/serv05.c:66-79 | `nsel` equals the bits still to be looked at, each has its byte to read, and for each child the bytes read and the bits still set make up the times it was named |
| PreforkSpec.StepKeepsAccounts | server/serv05.c:60-65 | each child's connections, served, in hand and in flight, are those given to it, in order, and `child_count` counts them |
| PreforkSpec.Dispatched | server/serv05.c:43-81 | all of this in every run, and the counts add up to the connections accepted |
| PreforkSpec.NobodySkipped | server/serv05.c:66-79 | whenever the parent is back at select, each child has had its byte read as often as select has named that child ready |
| PreforkSpec.BreaksAfterLast | server/serv05.c:77-78 | the loop breaks off exactly after the last child named |
| PreforkSpec.WorkIsBounded | server/serv05.c:43-81 | without another connection every schedule ends |
| PreforkSpec.StuckMeansDone | server/child05.c:39-50 | and where it ends every child is available and every connection served, unless the parent is about to accept |
| PreforkServer.Parent.constructor | server/serv05.c:30-39 | all children start available |
| PreforkServer.Parent.SelectReturns | server/serv05.c:44-50 | select's result; the listening descriptor only when a child is available |
| PreforkServer.Parent.AcceptOne | server/serv05.c:51-67 | the loop finds the first available child and passes the connection to it |
| PreforkServer.Parent.ScanOne | server/serv05.c:71-80 | one child of the loop that reads ready bytes, with its early exit |
| PreforkServer.Parent.TakeConnection | server/child05.c:41-44 | the child receives its descriptor |
| PreforkServer.Parent.FinishConnection | server/child05.c:46-49 | the child writes its ready byte after serving |
| PreforkServer.ServeUnder | server/serv05.c:43-81 | parent and children under any schedule |
| ProdConsSpec.StepKeepsInv | threads/example03.c:62-104 | indices, contents and waits stay right in each critical section |
| ProdConsSpec.Handed | threads/example03.c:106-130 | in every run the consumed values are a prefix of the produced ones, at most BUFFSIZE behind, and the threads never both wait unsignalled |
| ProdConsSpec.WaitsExactly | threads/example03.c:65-103 | the producer waits exactly when ten values are unconsumed, the consumer exactly when none is; otherwise each hands over the next value and wakes the other |
| ProdConsSpec.WorkIsBounded | threads/example03.c:106-130 | a schedule without spurious wakeups takes at most 302 steps |
| ProdConsSpec.StuckMeansDone | threads/example03.c:106-130 | where neither thread can run both loops are over and all 50 values consumed |
| ProdCons.Buf.Produce | threads/example03.c:65-79 | the producer's critical section on the shared buffer |
| ProdCons.Buf.Consume | threads/example03.c:87-103 | the consumer's, with the value it returns |
| ProdCons.RunBoth | threads/example03.c:106-130 | both loops run to their ends under any choice of thread |
| NonblockSpec.Part1KeepsInv | nonblock/strclinonb.c:42-62 | reading standard input |
| NonblockSpec.Part2KeepsInv | nonblock/strclinonb.c:64-86 | reading the socket |
| NonblockSpec.Part3KeepsInv | nonblock/strclinonb.c:89-103 | writing standard output |
| NonblockSpec.Part4KeepsInv | nonblock/strclinonb.c:105-122 | writing the socket, and the FIN |
| NonblockSpec.CopiesFaithfully | nonblock/strclinonb.c:22-123 | after any rounds the bytes read are the bytes written followed by the buffer, on both sides; FIN has been sent exactly if standard input is at its end and all of it written, and then once |
| NonblockSpec.SelectHasWork | nonblock/strclinonb.c:28-39 | select is never called with nothing to wait for, and a full buffer always has data to write |
| NonblockSpec.FinStaysLast | nonblock/strclinonb.c:51-119 | after the FIN nothing more is written to the socket or read from standard input |
| NonblockSpec.Headway | nonblock/strclinonb.c:28-122 | a round in which the descriptors asked for are ready and willing moves at least one byte or ends the program |
| NonblockRounds.RoundExactly | nonblock/strclinonb.c:28-122 | which of the four calls a round makes, what they move, bytes just read included in what is written, and the status after it |
| NonblockRounds.EndsExactly | nonblock/strclinonb.c:42-122 | over all rounds the program has returned if and only if the end of the socket was read behind that of standard input, and has exited with an error if and only if it was read before, or a call failed with something other than EWOULDBLOCK |
| NonblockStrCli.StrCli.OnStdin | nonblock/strclinonb.c:43-61 | the read into `to` and its three outcomes |
| NonblockStrCli.StrCli.OnSockRead | nonblock/strclinonb.c:65-85 | the read into `fr` and its outcomes |
| NonblockStrCli.StrCli.OnStdout | nonblock/strclinonb.c:90-102 | the write from `fr`, with the pointers reset when it is empty |
| NonblockStrCli.StrCli.OnSockWrite | nonblock/strclinonb.c:106-121 | the write from `to`, with the reset and the FIN |
| NonblockStrCli.StrCli.LoopBody | nonblock/strclinonb.c:28-122 | a whole round on the arrays and pointers |
| NonblockStrCli.StrCliIn | nonblock/strclinonb.c:22-123 | any rounds: what was copied, the FIN, and both ways to end exactly |
| Rtt.RttInfo.MinMax | lib/rtt.c:12-20 | clamps to 2 and 60 seconds |
| Rtt.RttInfo.RttInit | lib/rtt.c:22-35 | the new estimate, with the 32-bit base |
| Rtt.RttInfo.RttTs | lib/rtt.c:45-54 | the 32-bit stamp |
| Rtt.RttInfo.RttStart | lib/rtt.c:62-67 | the timeout rounded to seconds |
| Rtt.RttInfo.RttStop | lib/rtt.c:80-102 | the new estimate after a sample |
| Rtt.RttInfo.RttTimeout | lib/rtt.c:111-119 | doubling, and giving up after the third retransmission |
| Rtt.StampDifference | lib/rtt.c:45-54 | the difference of two stamps with one base is the true age in milliseconds, through wrap-around |
| Rtt.StampAfterInit | lib/rtt.c:22-54 | stamps count the milliseconds since the second of `rtt_init` |
| Rtt.StopAllSound | lib/rtt.c:80-102 | for every sequence of samples `rttvar` and `srtt` stay nonnegative, `srtt` never exceeds the largest, and RTO stays in 2 to 60 |
| Rtt.InitSound | lib/rtt.c:22-35 | after `rtt_init` too, with a first RTO of 3 seconds |
| Rtt.ConstantSamples | lib/rtt.c:93-99 | for equal samples the error of `srtt` shrinks by exactly 7/8 each time and `rttvar` is bounded by a constant times (7/8)^n |
| Rtt.RtoError | lib/rtt.c:93-101 | RTO differs from the clamped sample by at most five times that bound |
| Rtt.DecayedBound | lib/rtt.c:93-99 | (7/8)^n falls at least as fast as 1/n |
| Rtt.RtoConverges | lib/rtt.c:93-101 | so RTO converges to the sample clamped to 2 to 60 seconds |
| RttMeans.StopAllMeans | lib/rtt.c:80-102 | for every sequence of samples `srtt` is their mean with weights 1/8 times powers of 7/8, `rttvar` the mean of the errors with weights 1/4 times powers of 3/4, and RTO the one plus four times the other, from 2 to 60 |
| DgSendSpec.RunKeepsInv | rtt/dg_send_recv.c:26-92 | numbers, stamps, timeouts and deadlines stay right over any network and clock |
| DgSendSpec.AnswersOwnRequest | rtt/dg_send_recv.c:81-92 | within 2^32 requests a call accepts exactly the echoes of its own transmissions, returns its own request as far as the caller's buffer holds it, and its sample is the true age of the transmission echoed, after retransmissions and a reset of the base too |
| DgSendEstimate.AcceptedSample | rtt/dg_send_recv.c:88-90 | an accepted reply hands the true age of the transmission it answers to `rtt_stop`; another reply leaves the estimate alone |
| DgSendEstimate.EstimateIs | rtt/dg_send_recv.c:26-92 | after any events `srtt` and `rttvar` are those of `rtt_stop` over the true ages of the transmissions answered since the last `rtt_init`, which is at the first call and the one after giving up |
| DgSendEstimate.AlarmIs | rtt/dg_send_recv.c:60-63 | the alarm is for srtt plus four rttvar, from 2 to 60 seconds, doubled with each retransmission, to the nearest second after the last transmission |
| DgSendSpec.AcceptsBySequence | rtt/dg_send_recv.c:86 | beyond that many it accepts whatever has the same number modulo 2^32 |
| DgSendSpec.CallDuration | rtt/dg_send_recv.c:56-79 | the current alarm is within 900 seconds of the start, after at most four datagrams |
| DgSendSpec.GivesUpExactly | rtt/dg_send_recv.c:68-74 | a call gives up exactly at the expiry after its fourth datagram |
| DgSendSpec.ExpiriesEndCall | rtt/dg_send_recv.c:68-79 | each expiry sends the same request again or ends the call |
| DgSendClient.DgClient.NewCall | rtt/dg_send_recv.c:26-63 | the start of a call |
| DgSendClient.DgClient.SendAgain | rtt/dg_send_recv.c:56-63 | stamp, send, set the alarm |
| DgSendClient.DgClient.OnReply | rtt/dg_send_recv.c:81-92 | the receive loop: other numbers are ignored, the sample goes to the estimator |
| DgSendClient.DgClient.OnAlarm | rtt/dg_send_recv.c:68-79 | a timeout |
| DgSendClient.DgClient.DgSendRecv | rtt/dg_send_recv.c:18-93 | a whole call in any environment |
| DgSendClient.CallEnds | rtt/dg_send_recv.c:65-92 | a call that still waits has seen as many expiries as retransmissions, at most three; one that does not has been answered or given up |
| DgSendClient.CallsInSequence | rtt/dg_send_recv.c:18-93 | any sequence of calls: every one answered returns the echo of its own request, cut to its buffer; only the last can be left unfinished, and only if its alarm expires less than four times |
| GaiSpec.PortFailsExactly | libgai/ga_port.c:39-41 | a pass fails exactly when the clones need more memory than there is |
| GaiSpec.EveryPairOnce | libgai/ga_port.c:30-65 | from n entries without a type, k passes with distinct types leave every address with every type once, grouped by address in the original order, and each reports n |
| GaiSpec.GroupsLength | libgai/ga_port.c:30-65 | that is n * k entries |
| GaiSpec.GroupsAt | libgai/ga_port.c:30-65 | where each group lies |
| GaiSpec.GroupMember | libgai/ga_port.c:47-62 | which entry of a group has which type and port, with the original's address and protocol |
| GaiSpec.BothProtocols | libgai/ga_serv.c:8-57 | a service known for TCP and UDP: success, and every address once for each |
| GaiSpec.Resolved | libgai/getaddrinfo.c:132-159 | the whole call: entry 2i is the i-th address for TCP, entry 2i + 1 for UDP |
| GaiCases.TypeNamed | libgai/ga_serv.c:16-48 | a caller who names a socket type gets each address once, with that type and the port of the service, if it is a number or known for that type |
| GaiCases.TypeUnknown | libgai/ga_serv.c:32-55 | otherwise EAI_SERVICE, and the list as it was |
| GaiCases.OneProtocol | libgai/ga_serv.c:32-56 | without a type and a name known for TCP or UDP alone: each address once with that type |
| GaiCases.NoProtocol | libgai/ga_serv.c:50-52 | known for neither: EAI_NONAME, and the list as it was |
| GaiCases.MemoryExactly | libgai/ga_serv.c:24-30 | known for both: EAI_MEMORY if and only if there are fewer than two allocations for each address |
| GaiCases.NothingLost | libgai/ga_port.c:37-43 | all that a pass allocates is in the list, when it fails too |
| GaiCases.PortElsewhere | libgai/ga_port.c:47-62 | entries of other families get the type and count for nothing |
| GaiCases.AistructExactly | libgai/ga_aistruct.c:14-88 | when `ga_aistruct` fails, with which code, and what it has appended then |
| GaiList.GaClone | libgai/ga_clone.c:8-30 | a deep copy linked behind the node, or null after a failed allocation |
| GaiList.CloneAt | libgai/ga_clone.c:8-30 | inserting it keeps the list linked and unshared |
| GaiList.PortNode | libgai/ga_port.c:37-63 | one round of the walk: skip, fill in, or clone and fill in the clone |
| GaiList.GaPort | libgai/ga_port.c:30-65 | the walk ends although the list grows in front of it, and leaves what the specification says in unshared nodes and addresses |
| GaiList.GaServ | libgai/ga_serv.c:8-57 | which passes a service needs, and the return value |
| GaiList.AiList.GaAistruct | libgai/ga_aistruct.c:9-88 | appends through the tail pointer, sets the clone flag exactly for type 0, and reports failed allocations and long paths |
| GaiList.GetAddrInfo | libgai/getaddrinfo.c:132-159 | addresses to finished list; EAI_MEMORY when memory runs out for the entries or for the clones, EAI_NONAME without addresses |
| ReadlineSpec.TakenIs | lib/readline.c:35-45 | the line taken is the one prefix without inner newline that ends in a newline, at the end of the stream, or where the buffer is full |
| ReadlineSpec.LibCounts | lib/readline.c:47-48 | the return value counts the bytes stored, unless the first `maxlen` - 1 bytes of the stream are there and hold no newline: then it is one more |
| ReadlineSpec.ServerCounts | server/readline.c:16-25 | in the server versions it is one more whenever those bytes hold no newline, except at the end of the stream; the two families differ exactly when the stream ends before the buffer is full and without a newline |
| ReadlineSpec.TerminatorWithin | lib/readline.c:35-47 | the terminator lies within the caller's `maxlen` bytes if and only if `maxlen` is not 0 |
| ReadlineSpec.ZeroMeansEnd | lib/readline.c:40-42 | with room for a byte 0 is returned exactly at the end of the stream |
| ReadlineSpec.LinesPartition | lib/readline.c:28-49 | successive lines make up the stream; a newline is only ever a last byte; only the last line may be short without one |
| Readline.Rline.Refill | lib/readline.c:12-20 | reading until something other than EINTR comes back |
| Readline.Rline.MyRead | lib/readline.c:8-26 | the next byte of buffered remainder and stream, 0 exactly at the end, -1 exactly for an error, with nothing lost |
| Readline.Rline.Readline | lib/readline.c:28-49 | takes the specified line, with its terminator and return value; an error only if a read failed, with what was stored accounted for |
| Readline.Rline.ReadlineR | server/readline_r.c:38-61 | the same with the server's return values, and the buffer untouched at the end of the stream |
| Readline.Rline.ReadlineBuf | lib/readline.c:51-57 | reports exactly the buffered suffix, or the error that read last returned |
| Readline.ReadlineUnbuffered | server/readline.c:4-27 | one byte per read meets the same specification, every unsuccessful read being an error |
| Readline.SameLines | server/readline_r.c:5-61 | buffered and unbuffered readers on the same bytes give the same return values and strings over any calls, and leave the same bytes, whatever the chunks and signals |
| Readline.ReadAll | threads/readline.c:46-73 | calls until 0 return the lines of the stream, one call each |
| Checksum.EacSumIsNorm | libfree/in_cksum.c:16-26 | the end-around-carry sum of the words is the ordinary sum reduced modulo 65535, 0 only for 0 |
| Checksum.TwoFoldsSuffice | libfree/in_cksum.c:28-30 | two folds of any 32-bit sum reduce it completely |
| Checksum.NoOverflow | libfree/in_cksum.c:16-26 | up to 131074 bytes the 32-bit sum cannot overflow |
| Checksum.RightExactly | libfree/in_cksum.c:4-32 | for every length of type `int` the result is right if and only if the words' sum fits in 32 bits |
| Checksum.BoundIsSharp | libfree/in_cksum.c:16-26 | 131076 bytes can make it wrong |
| Checksum.OddTailPadded | libfree/in_cksum.c:22-25 | an odd last byte counts as if followed by zero |
| Checksum.ChecksumVerifies | libfree/in_cksum.c:4-32 | stored in a zeroed field at an even offset it makes the checksum of the whole 0 (section 1 of RFC 1071) |
| Checksum.SwapCommutes | libfree/in_cksum.c:16-30 | byte-swapping every word byte-swaps the sum (section 2 of RFC 1071) |
| Checksum.OrderDoesNotMatter | libfree/in_cksum.c:16-30 | hence the stored bytes are the same on machines of either order |
| Checksum.InCksum | libfree/in_cksum.c:4-32 | the routine with its wrapping 32-bit sum computes the checksum, for all lengths up to 131074 and beyond exactly as said |
| Checksum.PingFits | ping/bsdping.c:230-233 | every data length that `-s` admits, and everything `outpack` can hold, makes a message that fits the signed sum |
| Checksum.InCksumSigned | ping/bsdping.c:635-666 | the signed copy computes the same checksum |
| UnoTurn.SwitchToNextPlayer | tcpcliserv/final_server.c:199-229 | the loops find the next seat in the direction of play |
| UnoTurn.NextIsActive | tcpcliserv/final_server.c:203-225 | it is a player's, and another player's if there is one |
| UnoTurn.DirectionsUndo | tcpcliserv/final_server.c:201-226 | the opposite direction goes back |
| UnoTurn.NextIsInjective | tcpcliserv/final_server.c:199-229 | so the players are permuted |
| UnoTurn.TurnsAre | tcpcliserv/final_server.c:199-229 | m turns on is the m-th player met |
| UnoTurn.OnceRound | tcpcliserv/final_server.c:199-229 | as many turns as players visit each once and return to the first |
| UnoPlays.NextInDirection | tcpcliserv/final_server.c:199-229 | direction 0 goes up the seats and from the last to the first, direction 1 down |
| UnoSpec.ShuffleIsPermutation | tcpcliserv/final_server.c:150-167 | `shuffle` yields each of 0 to n - 1 once and nothing else, for any random numbers |
| UnoPiles.EveryOrder | tcpcliserv/final_server.c:150-167 | and for every order of them there are random numbers that lead to it |
| UnoPiles.EveryDeal | tcpcliserv/final_server.c:286-321 | so every order of the deck can be dealt from |
| UnoPiles.EveryPile | tcpcliserv/final_server.c:241-264 | and after a reshuffle every order of that many numbers lies in the pile |
| UnoPiles.ReshuffleCount | tcpcliserv/final_server.c:245-262 | the first reshuffle makes a pile of 108 less the cards counted in the hands of players in the game: those of departed players come back |
| UnoSpec.TopIsFree | tcpcliserv/final_server.c:268 | the card drawn is in no hand |
| UnoSpec.TakeConserves | tcpcliserv/final_server.c:268-276 | drawing keeps every card in exactly one place, and adds one to the hand |
| UnoSpec.ReshuffleExactly | tcpcliserv/final_server.c:254-263 | after the reshuffle the pile holds exactly the unheld cards if and only if these are the lowest-numbered ones |
| UnoSpec.HeldCardReturns | tcpcliserv/final_server.c:152-155 | a held card with a number below their count is in the pile a second time |
| UnoSpec.FirstReshuffleSupplies | tcpcliserv/final_server.c:241-264 | the first reshuffle always supplies a card |
| UnoSpec.PutDownKeepsCards | tcpcliserv/final_server.c:466-484 | playing a card moves it from the hand to the table |
| UnoSpec.EffectKeepsInv | tcpcliserv/final_server.c:513-539 | skip, reverse and draw cards leave the turn with a player |
| UnoPlays.FaceIsListed | tcpcliserv/final_server.c:24-38 | the faces of the 108 cards are those of the source's list |
| UnoPlays.PlayExactly | tcpcliserv/final_server.c:461-542 | a card of the hand, others being left, goes to the table; draw two gives the next player exactly two cards and wild draw four exactly four, both pass that player over; skip passes one over; reverse turns the direction and moves on with more than two players; any other card moves one on; nobody else's count changes |
| UnoPlays.LastOrNoCard | tcpcliserv/final_server.c:466-512 | the last card ends the game; a card not in the hand leaves the hands alone and the card played before works again |
| UnoPlays.SkipExactly | tcpcliserv/final_server.c:543-550 | whoever has the turn draws one card, and the turn goes one on |
| UnoPlays.PenaltyExactly | tcpcliserv/final_server.c:558-563 | a false call costs exactly two cards |
| UnoPlays.LeaveExactly | tcpcliserv/final_server.c:388-448 | a departure frees the seat, ends the game with one player left, and moves the turn exactly if it was theirs |
| UnoPlays.CallExactly | tcpcliserv/final_server.c:564-574 | when a call for oneself counts, and its first stamp |
| UnoPlays.AccuseExactly | tcpcliserv/final_server.c:589-614 | whom an accusation concerns, when it counts, and that it drops the call otherwise |
| UnoPlays.EndExactly | tcpcliserv/final_server.c:621-654 | at the end of a round the player called is safe until the next draw or gets exactly two cards |
| UnoSpec.LeaveKeepsInv | tcpcliserv/final_server.c:388-448 | so does a departure |
| UnoSpec.StepKeepsInv | tcpcliserv/final_server.c:382-654 | every message and every judgement of a call keeps cards, counts and turn, unless a player is caught who has left in the same round |
| UnoSpec.RunKeepsInv | tcpcliserv/final_server.c:362-656 | over whole games in which that does not happen |
| UnoCalls.FastestExactly | tcpcliserv/final_server.c:623-637 | the player called is safe if and only if they are still in the game or at seat 0, and no player has an earlier stamp, nor seat 0, which is looked at even when it is empty; a tie is theirs |
| UnoCalls.AccuseInRange | tcpcliserv/final_server.c:594-605 | line 605 reads within its arrays if and only if a call is pending or a player in the game has the name; the accusations that are events are these |
| UnoCalls.UnfairBreaks | tcpcliserv/final_server.c:646-650 | a player caught after leaving gets two cards, so the seat is in the game again while `player_num` does not count it |
| UnoCalls.UnfairMiscounts | tcpcliserv/final_server.c:646-650 | and with `hand_num` 1, although the row holds two cards or more, unless the catch reshuffles |
| UnoCalls.FairExactly | tcpcliserv/final_server.c:362-656 | while no draw finds the pile empty after a reshuffle, `player_num` is right and the turn with a player in every state of a game if and only if nobody is caught after having left |
| UnoCalls.CountedExactly | tcpcliserv/final_server.c:362-656 | until the first reshuffle every `hand_num` is right in every state if and only if nobody is caught after having left |
| UnoCalls.CaughtAfterLeaving | tcpcliserv/final_server.c:589-650 | three events that lead there: an accusation, the departure of the accused, the end of the round |
| UnoCalls.RunKeeps | tcpcliserv/final_server.c:362-656 | in every game, such catches included, every card is in exactly one place until the first reshuffle |
| UnoCalls.RunSteady | tcpcliserv/final_server.c:362-656 | and while the game lasts the turn is with a player, everybody in the game has cards, and `player_num` never exceeds the players |
| UnoDeal.DealConserves | tcpcliserv/final_server.c:295-313 | the deal keeps every card in one place and gives each player seven |
| UnoDeal.DealtCards | tcpcliserv/final_server.c:303-313 | namely the seven from the end of the pile behind those of the players before |
| UnoDeal.EightWilds | tcpcliserv/final_server.c:36-37 | at most eight cards of the pile are wild |
| UnoDeal.TurnUpEnds | tcpcliserv/final_server.c:315-321 | the loop for the table card ends with a card that is not wild, at most one draw beyond the wild cards |
| UnoDeal.OpenedInv | tcpcliserv/final_server.c:286-335 | after the opening everything is right, with at most nine cards turned up |
| UnoDeal.EveryGame | tcpcliserv/final_server.c:281-656 | in every game, until the first reshuffle, pile, hands and cards played partition 0 to 107, and the turn is with a player while it lasts; `hand_num` and `player_num` count right as well if nobody is caught after having left (exactly when: the next two rows) |
| UnoDeal.EveryGameExactly | tcpcliserv/final_server.c:281-656 | the same from the opening on: `player_num` is right in every state if and only if nobody is caught after having left |
| UnoDeal.EveryHandExactly | tcpcliserv/final_server.c:281-656 | from the opening on, until the first reshuffle, `hand_num` counts the hand of every player in the game in every state if and only if nobody is caught after having left |
| UnoReached.FirstDrawExactly | tcpcliserv/final_server.c:241-276 | the first draw from an empty pile leaves no card twice and every hand counted right if and only if the cards played so far are the lowest-numbered ones |
| UnoReached.FirstReshuffle | tcpcliserv/final_server.c:241-276 | from every opening, whatever the random numbers, rounds of select in which only the player on turn skips lead to the first reshuffle; after it no card is twice and every hand counted right if and only if card 0 alone was turned up at the start |
| UnoReached.CardsOutOfOrder | tcpcliserv/final_server.c:150-167 | with random numbers that exchange nothing it goes wrong at every table |
| UnoReached.CaughtInPlay | tcpcliserv/final_server.c:362-656 | there is a game from the opening, each round with at most one message a seat and the lower seats first, in which a player is caught after leaving; `player_num` and a `hand_num` are wrong while the game goes on |
| UnoGame.ShuffleArray | tcpcliserv/final_server.c:150-167 | the two loops on the array |
| UnoGame.MarkHeld | tcpcliserv/final_server.c:245-252 | marks exactly the cards held by players in the game |
| UnoGame.CollectUnheld | tcpcliserv/final_server.c:254-262 | counts the others |
| UnoGame.Room.Reshuffle | tcpcliserv/final_server.c:241-264 | the reshuffle as it is |
| UnoGame.Room.GiveOne | tcpcliserv/final_server.c:239-277 | one card given, after a reshuffle if the pile is empty |
| UnoGame.Room.GiveCardToPlayer | tcpcliserv/final_server.c:231-279 | the cards given, across reshuffles with their own random numbers; the receiver's call is void |
| UnoGame.Room.LookFor | tcpcliserv/final_server.c:471-474 | finds the first card of the face named in the hand |
| UnoGame.Room.PlayCard | tcpcliserv/final_server.c:466-484 | takes it from the hand; a card the player does not have leaves the hands alone |
| UnoGame.Room.CardEffect | tcpcliserv/final_server.c:513-539 | what the card on the table does |
| UnoGame.Room.OnLeave | tcpcliserv/final_server.c:388-448 | a player leaves |
| UnoGame.Room.OnPlay | tcpcliserv/final_server.c:461-542 | a player plays |
| UnoGame.Room.OnSkip | tcpcliserv/final_server.c:543-550 | a player passes, and whoever has the turn draws |
| UnoGame.Room.OnPenalty | tcpcliserv/final_server.c:558-563 | a false call costs two cards |
| UnoGame.Room.OnCallUno | tcpcliserv/final_server.c:564-574 | a call for oneself is remembered with its first stamp of the round, if one card is left and it is not called yet |
| UnoGame.Room.LookUp | tcpcliserv/final_server.c:596-604 | the search for the player named |
| UnoGame.Room.OnAccuse | tcpcliserv/final_server.c:589-614 | an accusation stamps the call pending or opens one; if the player cannot be caught it drops the call |
| UnoGame.Room.FindFastest | tcpcliserv/final_server.c:623-635 | the loop over the stamps |
| UnoGame.Room.OnEndRound | tcpcliserv/final_server.c:621-654 | the player called is safe or draws two, and the next round starts without calls |
| UnoGame.Room.OnMessage | tcpcliserv/final_server.c:382-654 | every message does what the specification says, and the turn stays with a player |
| UnoGame.Room.TurnUpCard | tcpcliserv/final_server.c:315-321 | the loop for the table card |
| UnoGame.PickFirst | tcpcliserv/final_server.c:325-335 | the player with the number drawn begins |
| UnoGame.Room.Open | tcpcliserv/final_server.c:286-335 | the whole opening |
| UnoGame.PlayGame | tcpcliserv/final_server.c:281-656 | a whole game under any messages and calls is one of the specification's runs from the opening, and has what is proved of these |
| PingSpec.BitsAreASet | ping/bsdping.c:93-97 | the bit macros keep an exact set of numbers |
| PingSpec.BitMeansReplied | ping/bsdping.c:419-508 | in every run, honest or not, the bit of a number is set exactly when a reply has come since the last request with that number |
| PingTotals.CountedExactly | ping/bsdping.c:470-508 | a packet is counted, once, exactly if it is long enough, an echo reply and to this process: as received if no reply with its number has come since the last request with it, else as a repeat |
| PingSpec.StepKeepsSlot | ping/bsdping.c:416-508 | for each number first replies never exceed requests |
| PingSpec.NeverMoreThanSent | ping/bsdping.c:405-508 | however often the numbers wrap, `nreceived` never exceeds `ntransmitted`, and with `nrepeats` it makes up the matching replies, if replies answer requests |
| PingSpec.HonestExactly | ping/bsdping.c:405-508 | from the start of the program, number by number and in every state the first replies stay within the requests if and only if no reply comes to a number not yet sent |
| PingSpec.TotalExactly | ping/bsdping.c:405-508 | after an honest run the next event keeps `nreceived` within `ntransmitted` if and only if it is honest too or the two still differ |
| PingTotals.TotalsBalance | ping/bsdping.c:405-508 | in every run, honest or not, replies counted plus requests that nothing answers make requests sent plus numbers replied to before they were sent |
| PingTotals.TotalsExactly | ping/bsdping.c:405-508 | so `nreceived` stays within `ntransmitted` if and only if those numbers are no more than the requests unanswered |
| PingTotals.HonestMeansNoStrays | ping/bsdping.c:471-508 | the honest runs are those without such numbers |
| PingSpec.StrayReplyCounts | ping/bsdping.c:481-508 | for instance a reply before the first request is counted |
| Pinging.Pinger.SetBit | ping/bsdping.c:95 | the shift and or in the byte |
| Pinging.Pinger.ClearBit | ping/bsdping.c:96 | the shift, complement and and |
| Pinging.Pinger.TestBit | ping/bsdping.c:97 | the test |
| Pinging.Pinger.SendOne | ping/bsdping.c:405-419 | `pinger`, with the number cut to 16 bits |
| Pinging.Pinger.OnAlarm | ping/bsdping.c:366-375 | no request beyond `npackets` |
| Pinging.Pinger.PrPack | ping/bsdping.c:471-508 | a packet counted, and taken back if it is a repeat |
| Pinging.PingUnder | ping/bsdping.c:405-508 | any run of requests and packets does what the specification says; with honest replies the totals are in order |

## Left out

- Socket, DNS, sysctl, routing and XTI calls, wrappers, option parsing, error printing and the `main` programs: foreign calls without logic of their own.
- `lib/readn.c`, `lib/writen.c`, `tv_sub.c` and their like: only easy members.
- `inet_pton` and `inet_ntop` themselves: a switch on the address family.
- `errno`.
- Inet4.InetNtop4: the array ends where the caller's buffer may end, so a NUL behind it has no place; the count of characters stored includes it.
- Readline.Rline.Readline: likewise for the terminator that is stored when `maxlen` is 0 and the array is empty.
- Checksum.PingFits: data lengths from 65461 to 65468 pass the test at line 230 and are longer than `outpack` together with their header; reading behind the array is not modelled.
- Checksums are over messages held in an array; reading words through an unaligned pointer is not modelled.
- UNO: chat, scores, log lines and the colour shown. An accusation that names no player in the game while no call is pending, where the code would read `is_uno[-1]`, is not an event. The results for all runs do not use that a round takes one message from each player; the games that are shown to exist keep to it.
- UNO after an empty reshuffle: where the code would read `card_seq[-1]` the model stops (`stuck`).
- UNO: the name in a play message is taken to have two characters, as every card has. A player's very first card, if not in the hand, makes the code use an uninitialised card number; the model takes 0 from its constructor, and nothing is proved from that value.
- ping: round-trip statistics, flood output, record route and packet dumps.
- `threads/web02.c`, `threads/web03.c` and `icmpd/`: the properties one would want do not hold there.
- The race between `alarm` and `sigsetjmp` in `rtt/dg_send_recv.c`: a timeout is an event only while a call waits. `float` is `real`, so rounding is not modelled.
- The service string of `ga_serv` is given by what `atoi` or `getservbyname` make of it.
- libgai/ga_unix.c, ga_nsearch.c and the search loop of getaddrinfo.c: the addresses found are an input. Removing a Unix domain path (`unlink`) is not modelled; canonical names are not.
- Deaths of children in the preforked server, and connections that vanish between select and accept.
- Bytes that a line reader leaves behind the terminator in the caller's buffer. Line lengths are unbounded; the `int` counter of `readline_r` would overflow only beyond 2^31 bytes.
- Delivery of bytes still in `fr` when the server closes: the code returns without writing them, so only the prefix form holds.
- Memory is not modelled except as allocations that may fail in libgai; freeing is not.

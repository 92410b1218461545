# Bundle transfer, modelled and proved

A Dafny model of the convergence-layer protocols of this repository and of four smaller
cores beside them, with proofs of what they are for. `Octets` and `Options` are the vocabulary
they share.

**TCPCLv4 (RFC 9174).** `Tcpv4Msg` and `Tcpv4Ext` are the codec, over the bounded writer and
reader of `Wire`. `Tcpv4Io` is the read-ahead layer over a stream that returns pieces of any
size, and `Tcpv4Loop` the message loop on top of it. `Tcpv4Receive` says what a receiver does
about one segment at a time; `Tcpv4Rx` is the receiver as its two threads and their one-slot
hand-off, proved to follow that reference under every interleaving; `Tcpv4Conn` is the object
whose critical sections are the steps of that machine, with its two swapped buffers. `Tcpv4Tx`
is the sender as its threads, `Tcpv4TxConn` its object. `Tcpv4TxConserve` proves that no bundle
is lost or reported twice. `Tcpv4Stream`, `Tcpv4TxStream`, `Tcpv4Window` and `Tcpv4Honest`
lead to `Tcpv4EndToEnd`, where two ends are joined by FIFO channels; `Tcpv4Abandon` and
`Tcpv4Abandoned` say why a sender abandons a transfer. `Tcpv4EmptyBundle`, `Tcpv4Interleaved`
and `Tcpv4TwoBehind` are single runs. `Tcpv4Verdict` and
`Tcpv4Reported` say what the sender reports in such a run, `Tcpv4Told` what it reports against
any peer, `Tcpv4Healthy` that a sender within the limits is never refused, `Tcpv4Progress` that
no thread waits for nothing. `Tcpv4TxWire` puts a bufferful on the wire, through `Tcpv4Tls`
where there is TLS, and `Tcpv4Bytes` leads from the machines to the octets and back;
`Tcpv4Layout` says which octets the messages are. `Tcpv4Term` is the end of a session,
`Tcpv4X509` the walk over a certificate's extensions.

**QUICCL (draft-caini-dtn-quiccl).** `QuicMsg` is the codec, `QuicLayout` its octets.
`QuicStream` and `QuicConn` are the reliable path, `QuicDatagram` and `QuicDgConn` the
unreliable one; `QuicUdp` is UDP segmentation offload and its inverse.

**The others.** `MailB64`, `MailText`, `MailMsg` and `MailBuild` are the mail message builder
and parser, `Bpsh` the reorder buffer of bpsh, `MysqlClo` the MySQL output batcher.

## How the code is rendered

- An object whose methods update its fields is a class; what the method of a class does is
  said by a function, and properties are proved about the function. A method of a class that
  several threads share is one critical section; it takes the rest of the machine's state as a
  ghost argument and is proved to be one of its steps.
- Threads are atomic steps at the points where a mutex or a condition lets another thread run.
  A run is any list of steps that are possible one after another, so a lemma about all runs is
  about all interleavings.
- What the code cannot decide itself is a parameter: how much a read or write takes, whether
  BP or a callback accepts a bundle, what a system call or a database answers, when a timer
  fires. The results hold for every choice.
- Fixed widths are written out where they matter: the 64-bit segment count of `frameBundle`,
  the 32-bit offset of `dgReassemble`, the 32-bit accumulator of the base64 decoder, the
  255-character limit of `snprintf`.
- The log of a receiver holds what it did about the stream: a reply is logged when the step
  that writes it is taken, whether or not the octets leave. `WriteRefuse` is such a step because
  the code goes on after a failed XFER_REFUSE; `WriteAck(false)` and `DlvAck(false)` log an
  acknowledgment that failed, after which the session ends.

## Where the code differs from what one would expect

- A bundle of length 0 is accepted for transmission, but no segment is written for it
  (`CLA/tcpv4/src/tcpv4tx.c:283`), so it stays at the head of the window until the session ends
  and every later acknowledgment is judged unexpected. `Tcpv4EndToEnd.UnexpectedExactlyWhen`
  is the exact condition, `Tcpv4EmptyBundle.EmptyBundleBlocks` a run of the model.
- A sender abandons a refused transfer without an END segment (`CLA/tcpv4/src/tcpv4tx.c:311`);
  the receiver then takes the next START for an interleaved transfer and ends the session
  (`CLA/tcpv4/src/tcpv4rx.c:274`), although neither end has broken a limit.
  `Tcpv4Interleaved.NextBundleEndsSession` is a run of the model: one end begins to end the
  session, which refuses a transfer, before its SESS_TERM is written
  (`CLA/tcpv4/src/tcpv4session.c:592`). `Tcpv4Abandoned.SessionEndsExactlyWhenRefused` says
  exactly when it happens.
- The three sites that send a SESS_TERM for want of resources do not look whether one has been
  sent, so an end can send two. `Tcpv4Term.TwoTerms` is a run of the model,
  `Tcpv4Term.TwoExactlyWhen` the exact condition over runs and `Tcpv4Term.SecondExactlyWhen`
  the one at the site.
- The mail parser skips empty bundles, so the round trips return the non-empty ones.
- While the delivery thread works on one bundle another may be complete and waiting to be
  handed over, so BP can be two behind, not one (`Tcpv4TwoBehind.TwoBehind`), exactly at such
  moments (`Tcpv4Rx.AtMostOneBehind`).

## Model

| member | source | states |
|---|---|---|
| Tcpv4EndToEnd.SuccessMeansDelivered | CLA/tcpv4/src/tcpv4rx.c:428-497 | In every run of two ends over FIFO channels, under every interleaving of their threads, a bundle the sender reports as delivered is one the receiver has given to BP octet for octet, directly before it acknowledged the whole of it |
| Tcpv4Reported.ReportedExactlyWhen | CLA/tcpv4/src/tcpv4sessint.h:152-160 | In every run of two ends a bundle is reported as delivered if and only if the acknowledgment of the whole of it has been handled, this end did not give it up, and no empty bundle was accepted before it; else it is reported as not delivered |
| Tcpv4Told.ToldExactlyWhen | CLA/tcpv4/src/tcpv4sessint.h:152-160 | For the sender alone, whatever the peer replies and however the threads interleave: BP is told that a bundle was delivered if and only if the peer refused it, on the window, because it has all of it, or acknowledged the whole of it at the head of the window and no other refusal, impossible length or local failure spoiled it |
| Tcpv4Healthy.NothingRefused | CLA/tcpv4/src/tcpv4rx.c:245-426 | While a sender keeps to the receiver's limits and the receiver's end does not begin to end the session, in every run nothing is refused, no segment ends the session, and every transfer whose END has come has been given to BP or is about to be, unless a thread has given up |
| Tcpv4EndToEnd.UnexpectedExactlyWhen | CLA/tcpv4/src/tcpv4rx.c:448-473 | The next acknowledgment of this receiver is judged unexpected if and only if an empty bundle was accepted before its transfer, or this end had given up the transfer after a local failure; the property that none is ever unexpected is false of the code, and this is its exact condition |
| Tcpv4EmptyBundle.EmptyBundleBlocks | CLA/tcpv4/src/tcpv4tx.c:269-325 | A run of the model with bundles [] and [7] after which the acknowledgment of the second is judged unexpected: no segment of the empty one is ever written, so nothing takes it off the window |
| Tcpv4EndToEnd.RetiredInOrder | CLA/tcpv4/src/tcpv4rx.c:448-488 | With no empty bundle and no local failure, what is left on the window are always the latest transfers, without a gap: transfers leave it in the order sent |
| Tcpv4Abandoned.SessionEndsExactlyWhenRefused | CLA/tcpv4/src/tcpv4rx.c:245-363 | In every run of two ends the next segment ends the receiver's session if and only if it is longer than the Segment MRU, or is the START that follows a transfer which this receiver refused and the sender, having heard so, left unfinished |
| Tcpv4Abandoned.AbandonedWasRefused | CLA/tcpv4/src/tcpv4tx.c:309-321 | In every run, where a START follows an unfinished transfer a refusal of that transfer is among the replies the sender has handled: a sender abandons nothing else |
| Tcpv4Interleaved.NextBundleEndsSession | CLA/tcpv4/src/tcpv4tx.c:309-321 | A run of two ends that take all the other sends: whatever 65537 octets go first, the receiver refuses them because its end is ending the session, the sender hears so after the first bufferful, and the START of its next bundle ends the session |
| Tcpv4EndToEnd.SessionEndsExactlyWhen | CLA/tcpv4/src/tcpv4rx.c:245-363 | The same condition without its cause: longer than the Segment MRU, or a START behind an unfinished transfer |
| Tcpv4EndToEnd.RepliesAlwaysInOrder | CLA/tcpv4/src/tcpv4rx.c:66-94 | In every run of two ends the replies written are in transfer order, each covers more of its transfer than the last, and whole acknowledgments directly follow the delivery of that bundle |
| Tcpv4EndToEnd.RepliesInOrder | CLA/tcpv4/src/tcpv4rx.c:66-94 | The same of every state that satisfies the joint invariant, and how far the sender has heard them |
| Tcpv4EndToEnd.Always | CLA/tcpv4/src/tcpv4rx.c:428-642 | The invariant of the composition: streams well formed, machine refines reference, window follows the replies, marks of success earned |
| Tcpv4Stream.StreamAnswered | CLA/tcpv4/src/tcpv4rx.c:245-426 | For every stream a sender can write, whatever the receiver refuses, its answers are in transfer order and acknowledge a whole transfer only after delivering it |
| Tcpv4Stream.AnswersInOrder | CLA/tcpv4/src/tcpv4rx.c:245-426 | One more segment of such a stream: the answer is in order and state and replies stay where the stream is |
| Tcpv4TxStream.AlwaysWellSent | CLA/tcpv4/src/tcpv4tx.c:327-412 | Whatever the peer replies, transfers are numbered in order of acceptance and the segments written are a well-formed stream of the bundles begun |
| Tcpv4TxStream.CutFollows | CLA/tcpv4/src/tcpv4tx.c:174-263 | A segment cut at the transmit thread's position continues the stream: right octets, START and END flags, length extension |
| Tcpv4Window.UnexpectedIff | CLA/tcpv4/src/tcpv4rx.c:448-473 | In any state in step with the replies, exactly when an acknowledgment is unexpected |
| Tcpv4Window.AckShape | CLA/tcpv4/src/tcpv4rx.c:448-488 | An acknowledgment in order keeps the window in step, concluded in flight, or blocked by an empty transfer |
| Tcpv4Window.RefuseShape | CLA/tcpv4/src/tcpv4rx.c:518-558 | The same of a refusal, wherever on the window its transfer is |
| Tcpv4Window.LetGoShape | CLA/tcpv4/src/tcpv4tx.c:385-392 | The same when the transmit thread lets go of a transfer |
| Tcpv4Honest.AckHonest | CLA/tcpv4/src/tcpv4rx.c:448-473 | A transfer is marked as acknowledged only on a delivery that happened |
| Tcpv4Honest.SenderStepHonest | CLA/tcpv4/src/tcpv4tx.c:327-412 | No step of the sender's own reports a success that was not earned |
| Tcpv4TxConserve.NeverLostNeverTwice | CLA/tcpv4/src/tcpv4sessint.h:152-160 | In every reachable state, whatever the peer sends, each accepted bundle is in exactly one place: queue, window, a thread about to report it, the drained list, or the reports; the counters agree with the lists |
| Tcpv4TxConserve.AllReportedOnce | CLA/tcpv4/src/tcpv4tx.c:117-165 | Once a session is drained each bundle it accepted has been reported, once |
| Tcpv4TxConserve.NeverOverfull | CLA/tcpv4/src/tcpv4tx.c:512-586 | A session never holds more transfers than its window, nor more octets unless they are a single transfer's |
| Tcpv4TxConserve.RoomExactlyWhen | CLA/tcpv4/src/tcpv4tx.c:512-577 | In every run a bundle is taken if and only if the session is not stopping, the bundle is within the Transfer MTU, and the session is empty or has room for one more transfer and its octets |
| Tcpv4TxConserve.DrainedOrder | CLA/tcpv4/src/tcpv4tx.c:131-152 | What is drained is reported newest first, the window before the queue |
| Tcpv4Progress.TransmitGoes | CLA/tcpv4/src/tcpv4tx.c:327-412 | In every run, whatever the peer replies, the transmit thread can go on without failing unless it has nothing to send or has ended |
| Tcpv4Progress.NoneAfterStop | CLA/tcpv4/src/tcpv4tx.c:104-115 | Once a session is told to stop, no bundle is accepted and no transfer begins, in any continuation of any run |
| Tcpv4TxConn.TxConn.Finished | CLA/tcpv4/src/tcpv4tx.c:76-102 | Unlinks a transfer if it is finished, and with it the counters and the running length of the head |
| Tcpv4TxConn.TxConn.HandleXferAck | CLA/tcpv4/src/tcpv4rx.c:448-473 | The section under txMutex has exactly the effect of the machine's step, and says whether the acknowledgment was unexpected |
| Tcpv4TxConn.TxConn.HandleXferRefuse | CLA/tcpv4/src/tcpv4rx.c:518-558 | The same, with the search of the window |
| Tcpv4TxConn.TxConn.QueueXfer | CLA/tcpv4/src/tcpv4tx.c:569-577 | The same for a bundle that is accepted |
| Tcpv4TxConn.TxConn.BeginNext | CLA/tcpv4/src/tcpv4tx.c:347-377 | The transmit thread moves the next transfer to the window, unless stopping |
| Tcpv4TxConn.TxConn.LetGo | CLA/tcpv4/src/tcpv4tx.c:385-392 | The transmit thread lets go of a transfer and retires it if it is finished |
| Tcpv4TxConn.TxConn.Drain | CLA/tcpv4/src/tcpv4tx.c:131-152 | Everything left is spliced out in the order in which it is then reported |
| Tcpv4TxWire.SendSegments | CLA/tcpv4/src/tcpv4tx.c:174-263 | A bufferful goes out as its segments, headers encoded and up to sixteen in one write, octet for octet and in order, or a first part of these octets does and -1 is returned |
| Tcpv4Bytes.BufferfulWritten | CLA/tcpv4/src/tcpv4tx.c:174-263 | The steps of the sender's machine up to the end of a bufferful write exactly the segments that sendSegments puts on the wire |
| Tcpv4Bytes.ReceiveWritten | CLA/tcpv4/src/tcpv4rx.c:735-866 | From the octets of all segments written in any run, in any chunks, the message loop at the other end hands out exactly those segments, in order, with the payloads that are kept |
| Tcpv4Bytes.AllMade | CLA/tcpv4/src/tcpv4tx.c:183-238 | No segment written in any run exceeds the Segment MTU, or its header the buffer for it |
| Tcpv4TxWire.CutIsLongest | CLA/tcpv4/src/tcpv4tx.c:183-238 | A segment stops only at the Segment MTU, at the end of the 64 KiB read at a time, or at the end of the bundle |
| Tcpv4TxWire.CutsCarryAll | CLA/tcpv4/src/tcpv4tx.c:183-238 | The segments of a bufferful concatenate to it |
| Tcpv4Rx.NothingOutOfOrder | CLA/tcpv4/src/tcpv4rx.c:66-132 | Under every interleaving of receiver and delivery threads, what has been delivered and replied is a prefix of what one thread handling one segment at a time would do |
| Tcpv4Rx.BundlesGivenToBP | CLA/tcpv4/src/tcpv4rx.c:586-642 | The bundles given to BP are whole transfers of the inbound stream, in order, once each, the concatenation of their segments, within the Transfer MRU |
| Tcpv4Rx.AtMostOneBehind | CLA/tcpv4/src/tcpv4rx.c:101-132 | Unless the session failed or is stopped, BP is at most one bundle behind the completed transfers, except that it is two behind if and only if one is in the slot undelivered and the receiver thread is taking the end of another or has it to hand over |
| Tcpv4Progress.NeverStuck | CLA/tcpv4/src/tcpv4rx.c:66-132 | In every run, while the receiver thread is handling a segment it can go on, or it waits for the slot and the delivery thread can: the two never block each other |
| Tcpv4Progress.SlotIsServed | CLA/tcpv4/src/tcpv4rx.c:586-642 | In every run, while a bundle is in the slot the delivery thread can go on |
| Tcpv4TwoBehind.TwoBehind | CLA/tcpv4/src/tcpv4rx.c:101-132 | A run of the model in which it is two behind |
| Tcpv4Rx.LogIsAboutTransfers | CLA/tcpv4/src/tcpv4rx.c:350-423 | Under every interleaving each acknowledgment written names its own transfer and carries the running sum of its segments up to one of them, each refusal has its reason in that transfer, and each bundle given to BP is all of one transfer |
| Tcpv4Rx.EndAckAfterDelivery | CLA/tcpv4/src/tcpv4rx.c:609-621 | The acknowledgment of an END segment directly follows the delivery of a bundle of the acknowledged length |
| Tcpv4Rx.Always | CLA/tcpv4/src/tcpv4rx.c:245-426 | The invariant of the two threads: done so far plus still owed is what the reference does |
| Tcpv4Rx.StepKeeps | CLA/tcpv4/src/tcpv4rx.c:66-132 | Every step of either thread keeps it |
| Tcpv4Receive.RepliesAreRunningSums | CLA/tcpv4/src/tcpv4rx.c:350-423 | Within one transfer acknowledged lengths are the running sums of its segments, and the bundle goes to BP before the last of them |
| Tcpv4Receive.SilentAfterRefusal | CLA/tcpv4/src/tcpv4rx.c:350-370 | A transfer is refused at most once, and nothing is said about it afterwards |
| Tcpv4Receive.RefusedExactlyWhen | CLA/tcpv4/src/tcpv4rx.c:285-363 | A transfer of any stream is refused if and only if it starts while the session is ending, its extension list is broken or has a CRITICAL item, it declares a length above the Transfer MRU, or its segments add up to more than that |
| Tcpv4Receive.DeliveredExactlyWhen | CLA/tcpv4/src/tcpv4rx.c:285-426 | At its END a transfer is given to BP and acknowledged if and only if none of these holds |
| Tcpv4Receive.RefusedForReason | CLA/tcpv4/src/tcpv4rx.c:285-363 | Reason 6 is given only for a START while the session is ending, 5 only for an extension list that is broken or CRITICAL, 2 only for a declared or actual length above the Transfer MRU |
| Tcpv4Receive.UnrefusedIsDelivered | CLA/tcpv4/src/tcpv4rx.c:392-426 | A transfer that has not been refused by its END is delivered there |
| Tcpv4Receive.BundlesAreTransfers | CLA/tcpv4/src/tcpv4rx.c:245-426 | For any segments at all, the delivered bundles are distinct whole transfers in stream order |
| Tcpv4Conn.Conn.RxReserve | CLA/tcpv4/src/tcpv4rx.c:20-56 | Room for more octets, keeping those held; the old buffer is given up only for a fresh one, never the one being delivered |
| Tcpv4Conn.Conn.JudgeSegment | CLA/tcpv4/src/tcpv4rx.c:257-363 | The header checks have the outcome that the reference gives them; which transfers that refuses, and why, is said by Tcpv4Receive.RefusedExactlyWhen and RefusedForReason |
| Tcpv4Conn.Conn.BeginSegment | CLA/tcpv4/src/tcpv4rx.c:245-370 | The object does what the machine does when a segment begins |
| Tcpv4Conn.Conn.TakeSegment | CLA/tcpv4/src/tcpv4rx.c:366-426 | It does what the machine does with the payload, and leaves the buffer being delivered alone |
| Tcpv4Conn.Conn.RxAwaitDelivery | CLA/tcpv4/src/tcpv4rx.c:66-79 | What follows the wait for the hand-off to drain |
| Tcpv4Conn.Conn.HandOverTransfer | CLA/tcpv4/src/tcpv4rx.c:101-132 | The buffers change places, they are not copied; the filled one is the one that is then delivered |
| Tcpv4Conn.Conn.DeliverToBP | CLA/tcpv4/src/tcpv4rx.c:613-614 | BP is offered exactly the octets handed over |
| Tcpv4Conn.Conn.SettleDelivery | CLA/tcpv4/src/tcpv4rx.c:623-631 | The slot is empty again, or the session has failed |
| Tcpv4Loop.MessageLoop | CLA/tcpv4/src/tcpv4rx.c:735-866 | Whatever chunks the stream comes in, and whatever handlers decide, they are handed exactly the messages of the stream and the payloads they keep, in order, up to the first that ends the session; of any stream they are handed only messages of the kinds a session takes, and no segment above the Segment MRU |
| Tcpv4Loop.RecvSegmentHdr | CLA/tcpv4/src/tcpv4rx.c:161-220 | Read a field at a time, a header within the limits is decoded to itself and nothing behind it is consumed |
| Tcpv4Loop.ReadSegment | CLA/tcpv4/src/tcpv4rx.c:366-390 | Kept or drained, a payload is consumed to its last octet |
| Tcpv4Loop.DrainOctets | CLA/tcpv4/src/tcpv4rx.c:137-155 | Draining consumes exactly the octets it is told to |
| Tcpv4Loop.HeaderDecodes | CLA/tcpv4/src/tcpv4rx.c:208-217 | What was read a field at a time always decodes completely |
| Tcpv4Io.Reading.Recv | CLA/tcpv4/src/tcpv4io.c:133-193 | Every successful read returns the next octets of the stream, through the buffer, past it, or unbuffered; none is lost, repeated or reordered, and reads fail only when the stream does or is too short |
| Tcpv4Io.Reading.RecvExactly | CLA/tcpv4/src/tcpv4io.c:32-55 | An exact read over arbitrary chunks |
| Tcpv4Io.Reading.Refill | CLA/tcpv4/src/tcpv4io.c:175-190 | One stream read into the buffer, of which the caller gets what it wants |
| Tcpv4Io.Reading.StartBuffering | CLA/tcpv4/src/tcpv4io.c:101-122 | Switching to buffered reading loses no octet |
| Tcpv4Io.Writing.SendIov | CLA/tcpv4/src/tcpv4io.c:232-320 | Through TLS or not, and whatever part of it each write takes, the vector goes out whole and in order, or a first part of it does and the call fails |
| Tcpv4Io.Writing.SendCorked | CLA/tcpv4/src/tcpv4io.c:242-269 | The TLS branch: the buffers that are not empty, corked together, leave as their concatenation |
| Tcpv4Tls.TlsConn.Send | CLA/tcpv4/src/tcpv4tls_mbedtls.c:787-824 | What is sent comes behind what is gathered, across any number of flushes of the cork buffer; on failure a first part has left and nothing is gathered |
| Tcpv4Tls.TlsConn.Uncork | CLA/tcpv4/src/tcpv4tls_mbedtls.c:837-846 | All that is gathered leaves, or a first part of it does and the call fails |
| Tcpv4Io.Writing.Advance | CLA/tcpv4/src/tcpv4io.c:296-316 | Dropping what was sent off the front of the vector leaves exactly the rest |
| Tcpv4Msg.DecodeInvertsEncode | CLA/tcpv4/src/tcpv4msg.c:144-396 | For every message, decoding its encoding followed by anything returns the same fields and the exact length |
| Tcpv4Msg.PrefixAsksForMore | CLA/tcpv4/src/tcpv4msg.c:144-396 | Every strict prefix of an encoding asks for more |
| Tcpv4Msg.PrefixFree | CLA/tcpv4/src/tcpv4msg.c:144-396 | No octets begin with two different messages |
| Tcpv4Layout.EncIsLaidOut | CLA/tcpv4/src/tcpv4msg.c:144-396 | The octets of every message are exactly those that have each field at its place, with its type octet, most significant octet first |
| Tcpv4Layout.ItemLaidOut | CLA/tcpv4/src/tcpv4msg.c:444-471 | The same of an extension item |
| Tcpv4Layout.LengthItemLaidOut | CLA/tcpv4/src/tcpv4msg.c:400-410 | The length item is 0, 0 1, 0 8 and eight octets of the length |
| Tcpv4Layout.FlagBits | CLA/tcpv4/src/tcpv4msg.c:221-238 | END is the lowest bit of a segment's flags, START the next |
| Octets.PlaceValues | CLA/tcpv4/src/tcpv4msg.c:55-135 | A number on the wire is worth what its octets are worth, most significant first |
| Tcpv4Msg.EncodeContact | CLA/tcpv4/src/tcpv4msg.c:146-155 | Writes the message, or fails exactly when the capacity is below its length; nothing past the capacity is touched |
| Tcpv4Msg.EncodeSessInit | CLA/tcpv4/src/tcpv4msg.c:177-191 | The same |
| Tcpv4Msg.EncodeXferSegment | CLA/tcpv4/src/tcpv4msg.c:221-238 | The same |
| Tcpv4Msg.EncodeXferAck | CLA/tcpv4/src/tcpv4msg.c:271-281 | The same; Tcpv4Layout.EncIsLaidOut says where its fields are |
| Tcpv4Msg.EncodeXferRefuse | CLA/tcpv4/src/tcpv4msg.c:302-311 | The same |
| Tcpv4Msg.EncodeKeepalive | CLA/tcpv4/src/tcpv4msg.c:331-338 | The same |
| Tcpv4Msg.EncodeSessTerm | CLA/tcpv4/src/tcpv4msg.c:342-351 | The same |
| Tcpv4Msg.EncodeMsgReject | CLA/tcpv4/src/tcpv4msg.c:371-380 | The same |
| Tcpv4Msg.DecodeContact | CLA/tcpv4/src/tcpv4msg.c:157-173 | A positive result is the message the buffer begins with; 0 means that none is complete; -1 exactly that the octets are of another kind |
| Tcpv4Msg.DecodeSessInit | CLA/tcpv4/src/tcpv4msg.c:193-217 | The same |
| Tcpv4Msg.DecodeXferSegment | CLA/tcpv4/src/tcpv4msg.c:240-267 | The same |
| Tcpv4Msg.DecodeXferAck | CLA/tcpv4/src/tcpv4msg.c:283-298 | The same; Tcpv4Layout.EncIsLaidOut says where its fields are |
| Tcpv4Msg.DecodeXferRefuse | CLA/tcpv4/src/tcpv4msg.c:313-327 | The same |
| Tcpv4Msg.DecodeSessTerm | CLA/tcpv4/src/tcpv4msg.c:353-367 | The same |
| Tcpv4Msg.DecodeMsgReject | CLA/tcpv4/src/tcpv4msg.c:382-396 | The same |
| Tcpv4Ext.NextExtItem | CLA/tcpv4/src/tcpv4msg.c:444-471 | The item that stands at the offset, the end exactly at the list's length, or an item that runs past it; the offset strictly grows |
| Tcpv4Ext.WalkInvertsEncode | CLA/tcpv4/src/tcpv4msg.c:444-471 | Walking an encoded extension list gives its items back one for one |
| Tcpv4Ext.SegmentHasCriticalExt | CLA/tcpv4/src/tcpv4rx.c:226-243 | False exactly for the lists that are a sequence of whole items without the CRITICAL flag |
| Tcpv4Ext.FindXferLength | CLA/tcpv4/src/tcpv4msg.c:412-442 | The first length item of the list, if there is one before the list breaks off |
| Tcpv4Ext.EncodeXferLengthExt | CLA/tcpv4/src/tcpv4msg.c:400-410 | Writes the length item, or fails exactly when it does not fit |
| Tcpv4Ext.LengthExtUnderstood | CLA/tcpv4/src/tcpv4msg.c:400-442 | The receiver finds in it the length that was declared, and nothing critical |
| Wire.Writer.Bytes | CLA/tcpv4/src/tcpv4msg.c:55-68 | Appends all or nothing and keeps the sticky flag exact |
| Wire.Reader.Bytes | CLA/tcpv4/src/tcpv4msg.c:122-135 | Hands out the next octets, or clears the sticky flag |
| Tcpv4Term.TwoExactlyWhen | CLA/tcpv4/src/tcpv4session.c:584-594 | In every run a session sends two SESS_TERMs, or has sent one and owes one, if and only if one of the four guards of termSent (clock, reject, reply, shutdown) was passed and the receiver ran out of a resource as well; the property that it sends at most one is false of the code, and this is its exact condition |
| Tcpv4Term.SecondExactlyWhen | CLA/tcpv4/src/tcpv4rx.c:257-268 | At a site that runs out of a resource: its SESS_TERM is the second if and only if termSent is set there; while the engine is being stopped, if and only if it was set before the engine set it or the engine found the session established |
| Tcpv4Term.TermsCounted | CLA/tcpv4/src/tcpv4session.c:584-594 | The SESS_TERMs sent and owed are one for a guard passed and one for a resource that ran out |
| Tcpv4Term.AtMostOneTerm | CLA/tcpv4/src/tcpv4session.c:584-594 | Under every interleaving the four sites that look at termSent together send at most one SESS_TERM, and all sites at most two; Tcpv4Term.TwoExactlyWhen says when two |
| Tcpv4Term.AnsweredWhenAsked | CLA/tcpv4/src/tcpv4rx.c:683-730 | An end that has heard a SESS_TERM which is no answer has sent exactly one of its own, or is about to, unless its engine is being stopped |
| Tcpv4Term.AnswersExactlyWhen | CLA/tcpv4/src/tcpv4rx.c:683-730 | In every run a SESS_TERM with the mark of an answer is written, or about to be, if and only if one without it came in and found none sent |
| Tcpv4Term.HearsAtMostTwo | CLA/tcpv4/src/tcpv4rx.c:683-730 | An end hears at most two SESS_TERMs, and listens on after one only if that was no answer and it has answered it |
| Tcpv4Term.TwoTerms | CLA/tcpv4/src/tcpv4rx.c:257-268 | A run of the model with two: a site that runs out of resources does not look whether a SESS_TERM was sent |
| Tcpv4Term.NeverBackwards | CLA/tcpv4/src/tcpv4rx.c:664-730 | The session state never moves backwards |
| Tcpv4Term.TwoEnds | CLA/tcpv4/src/tcpv4rx.c:683-730 | Two ends exchange at most two SESS_TERMs, even when they cross, and one more for each end that ran out of a resource (Tcpv4Term.TwoExactlyWhen); an answer answers one that was not itself an answer, and both answer only if both ran out of a resource |
| Tcpv4Term.Flags.StartTermination | CLA/tcpv4/src/tcpv4rx.c:664-678 | The section under the engine's lock has the effect of the machine's step |
| Tcpv4Term.Flags.HandleSessTerm | CLA/tcpv4/src/tcpv4rx.c:701-706 | The same, and says whether to answer |
| Tcpv4Term.Flags.IdleTick | CLA/tcpv4/src/tcpv4session.c:584-594 | The same for the idle check |
| Tcpv4Term.Flags.Collect | CLA/tcpv4/src/tcpv4session.c:1039-1051 | The same for the sessions worth a SESS_TERM when the engine stops |
| Tcpv4X509.FoundExactlyWhen | CLA/tcpv4/src/tcpv4x509.c:126-189 | For every well-formed extension list, bare or with its header, in short or long length forms, the lookup is true exactly when some entry carries the OID |
| Tcpv4X509.WalkExactlyWhen | CLA/tcpv4/src/tcpv4x509.c:157-189 | For any octets whatever, the walk finds an OID if and only if they begin with well-formed entries of which one carries it |
| Tcpv4X509.HasExtension | CLA/tcpv4/src/tcpv4x509.c:126-189 | The loop computes that lookup for any octets, terminates, and reads only inside them |
| Tcpv4X509.DerTlv | CLA/tcpv4/src/tcpv4x509.c:13-55 | Reads an element only if it has the tag and ends by the limit |
| Tcpv4X509.TlvThere | CLA/tcpv4/src/tcpv4x509.c:13-55 | An element that is there is read, in either length form |
| Tcpv4X509.TlvIsThere | CLA/tcpv4/src/tcpv4x509.c:13-55 | Only an element that is there, and ends by the limit, is read |
| Tcpv4X509.BundleEid | CLA/tcpv4/src/tcpv4x509.c:57-100 | Computes the text of the name for any octets |
| Tcpv4X509.EidRead | CLA/tcpv4/src/tcpv4x509.c:57-100 | The text is read, bare or wrapped, exactly when it is not empty, fits, and holds no NUL |
| QuicMsg.DecodeInvertsEncode | CLA/quic/src/quicmsg.c:144-381 | For every message, decoding its encoding followed by anything returns the same fields and the exact length |
| QuicMsg.PrefixAsksForMore | CLA/quic/src/quicmsg.c:144-381 | Every strict prefix of an encoding asks for more |
| QuicMsg.PrefixFree | CLA/quic/src/quicmsg.c:144-381 | No octets begin with two different messages |
| QuicLayout.EncIsLaidOut | CLA/quic/src/quicmsg.c:144-381 | The octets of every message are exactly those that have each field at its place, with its type octet, most significant octet first |
| QuicMsg.EncodeSessInit | CLA/quic/src/quicmsg.c:146-161 | Writes the message, or fails exactly when the capacity is below its length |
| QuicMsg.EncodeXferSegmentHdr | CLA/quic/src/quicmsg.c:192-213 | The same |
| QuicMsg.EncodeXferAck | CLA/quic/src/quicmsg.c:250-261 | The same |
| QuicMsg.EncodeXferRefuse | CLA/quic/src/quicmsg.c:283-292 | The same |
| QuicMsg.EncodeKeepalive | CLA/quic/src/quicmsg.c:312-319 | The same |
| QuicMsg.EncodeSessTerm | CLA/quic/src/quicmsg.c:323-334 | The same |
| QuicMsg.EncodeMsgReject | CLA/quic/src/quicmsg.c:356-365 | The same |
| QuicMsg.DecodeSessInit | CLA/quic/src/quicmsg.c:163-188 | A positive result is the message the buffer begins with; 0 means that none is complete; -1 exactly that the octets are of another kind |
| QuicMsg.DecodeXferSegmentHdr | CLA/quic/src/quicmsg.c:215-246 | The same |
| QuicMsg.DecodeXferAck | CLA/quic/src/quicmsg.c:263-279 | The same |
| QuicMsg.DecodeXferRefuse | CLA/quic/src/quicmsg.c:294-308 | The same |
| QuicMsg.DecodeSessTerm | CLA/quic/src/quicmsg.c:336-352 | The same |
| QuicMsg.DecodeMsgReject | CLA/quic/src/quicmsg.c:367-381 | The same |
| QuicStream.StreamRoundTrip | CLA/quic/src/quicsession.c:573-812 | For any bundles up to the buffer limit, any peer Segment MRU and any cutting of the stream into pieces, the callback receives exactly those bundles in order and nothing is left over |
| QuicStream.FeedIsParse | CLA/quic/src/quicsession.c:749-812 | For any octets whatever, where the stream is cut does not matter |
| QuicStream.ParseFrames | CLA/quic/src/quicsession.c:661-747 | Well-formed frames, replies among them, are recognised one by one |
| QuicStream.GotExactlyWhen | CLA/quic/src/quicsession.c:661-735 | Of any octets: a frame is found if and only if they begin with it and it is within the limits |
| QuicStream.BadExactlyWhen | CLA/quic/src/quicsession.c:661-735 | Of any octets: they end the session if and only if they begin with another type, or with a segment header of a length above 256 KiB |
| QuicStream.TakeFrom | CLA/quic/src/quicsession.c:573-655 | The segments of a framed bundle are reassembled to it |
| QuicStream.TransferTaken | CLA/quic/src/quicsession.c:573-655 | Of any stream of frames a transfer is handed up if and only if its segments add up to the length its START declared and the callback takes it; all fails as soon as they add up to more, or at an END with less |
| QuicStream.StrayFails | CLA/quic/src/quicsession.c:588-591 | A segment outside any transfer fails all |
| QuicStream.FramesSay | CLA/quic/src/quicsession.c:1998-2036 | The segments of a framed bundle are numbered from 0, say how many they are, of which transfer and how long a bundle, mark the first and the last, and all but the last fill the Segment MRU |
| QuicStream.FramesCarryAll | CLA/quic/src/quicsession.c:1998-2036 | Their data concatenate to the bundle |
| QuicStream.SegmentsJustEnough | CLA/quic/src/quicsession.c:1976-1991 | Even where the 64-bit sum wraps around, the segment count is just enough |
| QuicConn.FrameBundle | CLA/quic/src/quicsession.c:1976-2042 | Whenever the capacity computed for it is an int, the framed bundle fits it and is the sequence of its segments |
| QuicConn.DataRx.RecvStreamData | CLA/quic/src/quicsession.c:769-807 | Appending what arrives and taking what is complete has the effect of the parser on what was left plus what came |
| QuicConn.DataRx.DeliverBundles | CLA/quic/src/quicsession.c:661-747 | The loop takes every complete frame and moves the rest to the front |
| QuicConn.DataRx.XferReassemble | CLA/quic/src/quicsession.c:573-655 | One segment: the growing buffer holds the transfer so far, a mismatch or a refused bundle fails |
| QuicConn.FindFrame | CLA/quic/src/quicsession.c:665-735 | What the loop makes of the front of the buffer |
| QuicDatagram.HandedUpWasSent | CLA/quic/src/quicsession.c:824-944 | For any arrivals of segments of sent bundles, reordered, lost, duplicated and mixed, what is handed up is a bundle that was sent |
| QuicDatagram.HandedUpExactlyWhen | CLA/quic/src/quicsession.c:840-941 | A bundle is handed up exactly when an arrival completes the segments that came since its START, with no other transfer or START in between |
| QuicDatagram.OnePerStart | CLA/quic/src/quicsession.c:840-941 | Two deliveries were begun by two different START arrivals |
| QuicDatagram.DeliveredOnce | CLA/quic/src/quicsession.c:840-941 | With START first and the rest in any order, with duplicates, the bundle is handed up exactly once |
| QuicDatagram.PaintAt | CLA/quic/src/quicsession.c:902-921 | For arbitrary segments each octet comes from the last one accepted since the reset that covers it, and is zero where none does |
| QuicDatagram.OffsetExact | CLA/quic/src/quicsession.c:913-916 | For segments that fit a datagram the 64-bit product and the 32-bit offset are exact |
| QuicDatagram.SegmentFacts | CLA/quic/src/quicsession.c:2079-2146 | What each datagram of a bundle says of itself: its number, the total, the transfer, its marks, and where it belongs; it fits the frame limit |
| QuicDgConn.DgRx.DgReassemble | CLA/quic/src/quicsession.c:824-944 | For any segment whose end an int can hold, buffer, bitmap and count together have the effect of remembering the segments accepted since the reset, the count is the number of bits set, and the result is that of the callback |
| QuicDgConn.DgRx.Mark | CLA/quic/src/quicsession.c:925-929 | Only the first arrival of a segment sets a bit and counts |
| QuicDgConn.DgRx.RecvDatagram | CLA/quic/src/quicsession.c:946-965 | Malformed and incomplete datagrams change nothing; any other is placed |
| QuicDgConn.SendDatagrams | CLA/quic/src/quicsession.c:2079-2146 | Each datagram fits the frame limit and carries exactly its segment |
| QuicUdp.WriteConn | CLA/quic/src/quicsession.c:1094-1249 | For every producer that keeps to its limit: it is asked until it has no more, and when all goes well exactly the produced packets leave, in order; when a send blocks or fails a proper first part of them does, and the result tells which |
| QuicUdp.TxBatch.Commit | CLA/quic/src/quicudp.c:204-223 | Nothing is lost, repeated or reordered between what left, what is gathered and the new packet |
| QuicUdp.TxBatch.Flush | CLA/quic/src/quicudp.c:166-179 | The flushed batch, at most 44 packets, leaves as the packets it was made of |
| QuicUdp.TxBatch.SendBatch | CLA/quic/src/quicudp.c:94-152 | The same datagrams leave whether the kernel cuts, the fallback does, or offload fails at run time; 1 and -1 tell whether the last call would have blocked or failed; offload is given up exactly when the kernel refuses it |
| QuicUdp.TxBatch.SendPerDatagram | CLA/quic/src/quicudp.c:51-89 | One datagram and one call per segment, up to the first that does not succeed; 1 and -1 tell whether it would have blocked or failed |
| QuicUdp.TxBatch.Reserve | CLA/quic/src/quicudp.c:181-189 | There is always room for one more packet of the largest size |
| QuicUdp.SplitOfTrain | CLA/quic/src/quicudp.c:288-306 | Cutting a train at its segment size gives its packets back |
| QuicUdp.ForEachPacket | CLA/quic/src/quicudp.c:288-306 | The callback is given exactly the packets of the read, until it refuses one; together they are the read |
| MailMsg.AttachRoundTrip | CLA/mail/src/mailmsg.c:428-506 | Bundles sent as attachments come back exactly, leaving out empty ones, for single-line fields without a boundary declaration, truncated or not |
| MailMsg.Base64RoundTrip | CLA/mail/src/mailmsg.c:508-578 | Bundles sent as base64 bodies come back exactly, leaving out empty ones |
| MailMsg.RawRoundTrip | CLA/mail/src/mailmsg.c:508-578 | Bundles sent raw come back exactly if and only if none of them contains the separator |
| MailMsg.BodyFound | CLA/mail/src/mailmsg.c:342-362 | The first blank line of a built message is the one that ends its headers |
| MailMsg.BoundaryFound | CLA/mail/src/mailmsg.c:365-397 | The boundary found is the one that was declared |
| MailMsg.AnyBoundaryFound | CLA/mail/src/mailmsg.c:365-397 | A boundary that another mailer declares is found too, quoted or up to a blank, a semicolon or the end of the line |
| MailMsg.HeaderSays | CLA/mail/src/mailmsg.c:258-270 | A built message begins with its From, To, Subject, MIME-Version, encoding and count lines, each with its own value |
| MailMsg.PartsRoundTrip | CLA/mail/src/mailmsg.c:453-503 | Part by part, the attachments come back |
| MailMsg.PlainRoundTrip | CLA/mail/src/mailmsg.c:508-578 | Chunk by chunk, the bundles of a plain body come back |
| MailMsg.ChunksLackSeparator | CLA/mail/src/mailmsg.c:520-575 | No chunk contains a separator |
| MailBuild.BuildMessage | CLA/mail/src/mailmsg.c:236-318 | The builder produces that message, and fails exactly for no bundles |
| MailBuild.Buf.Append | CLA/mail/src/mailmsg.c:182-193 | The growable buffer holds what was appended |
| MailBuild.Buf.AppendText | CLA/mail/src/mailmsg.c:201-234 | Base64 is appended in lines of 76 columns |
| MailBuild.ParseMessage | CLA/mail/src/mailmsg.c:580-594 | The callback is given exactly the bundles of the message in order, until it refuses one |
| MailBuild.ParseParts | CLA/mail/src/mailmsg.c:453-503 | The same of the parts of a multipart body |
| MailBuild.ParseBody | CLA/mail/src/mailmsg.c:508-578 | The same of a plain body |
| MailText.Memfind | CLA/mail/src/mailmsg.c:322-339 | The first occurrence, or none |
| MailB64.EncodeTo | CLA/mail/src/mailmsg.c:41-85 | Fails exactly when the buffer is too small, and else writes the base64 of the octets |
| MailB64.DecodeTo | CLA/mail/src/mailmsg.c:97-146 | Decodes or rejects exactly as with an unbounded accumulator, its wrap-around at 32 bits changing no octet, and rejects what does not fit the buffer |
| MailB64.AccumulatorStep | CLA/mail/src/mailmsg.c:126-137 | Why: only low bits of the accumulator are ever used |
| MailB64.DecodeInvertsEncode | CLA/mail/src/mailmsg.c:41-146 | Decoding an encoding gives the octets back |
| MailB64.EncodeSays | CLA/mail/src/mailmsg.c:41-85 | Four digits say the 24 bits of three octets, most significant first; what is left over is filled with zero bits and padded |
| MailB64.DigitIsLetter | CLA/mail/src/mailmsg.c:41-94 | The alphabet is A to Z, a to z, 0 to 9, + and / |
| MailB64.WrapAt | CLA/mail/src/mailmsg.c:201-234 | A line end follows every 76th octet and the last, and nothing else moves |
| MailB64.TextRoundTrip | CLA/mail/src/mailmsg.c:97-234 | So does decoding the wrapped text, or any of it that leaves out only blanks |
| Bpsh.Reorder.RecvOrderedFrame | APP/bpsh/src/bpsh.c:251-318 | The frame returned is of the session and, unless it is an error, carries the next number, a pending one at once; none is returned only when bpsh is to stop, or when no frame comes and the first number not received is the next one, all below it having been returned; the errors returned are exactly the ERROR frames of the session received, in order; every frame received is exactly one of returned, freed and pending |
| Bpsh.Reorder.Waits | APP/bpsh/src/bpsh.c:251-318 | Whenever the head of the list is not the next frame, the next number has not been received and every number below it has been returned |
| Bpsh.Reorder.TakeHead | APP/bpsh/src/bpsh.c:258-266 | The head of the list is returned when its turn has come |
| Bpsh.Reorder.Place | APP/bpsh/src/bpsh.c:274-315 | A frame that came in is returned if and only if it is of the session and is an ERROR frame or the next one; else it is freed or put in its place |
| Bpsh.Reorder.Buffer | APP/bpsh/src/bpsh.c:299-315 | The list stays strictly sorted above the next number, and keeps the first frame of each |
| Bpsh.Reorder.Link | APP/bpsh/src/bpsh.c:299-315 | The links of the list after an insertion |
| Bpsh.BooksInsert | APP/bpsh/src/bpsh.c:299-315 | Of every number the first frame received is the one that is kept |
| MysqlClo.SettledInOrder | CLA/mysql/src/mysqlclo.c:112-245 | Under every interleaving the batch never exceeds its size, what is settled is the first bundles buffered, each once and in order, and success is reported only for what was committed |
| MysqlClo.ToldAsInserted | CLA/mysql/src/mysqlclo.c:112-245 | In every run BP is told of each bundle what its own transaction said, no more and no less: success if and only if insertBatch succeeded |
| MysqlClo.FullIsTaken | CLA/mysql/src/mysqlclo.c:138-451 | In every run a bundle waits for room only while the batch is full, and the flush thread takes all of a batch that is full, or the last one, as soon as it looks |
| MysqlClo.NoneRemain | CLA/mysql/src/mysqlclo.c:138-462 | When the flush thread has ended nothing is left, and nothing more can come |
| MysqlClo.NoDeadlock | CLA/mysql/src/mysqlclo.c:138-451 | In every run some thread can change the state, unless the flush thread has ended, or the batch is empty and both threads wait for BP to have a bundle; and exactly then none can |
| MysqlClo.Always | CLA/mysql/src/mysqlclo.c:112-245 | The invariant of the monitor |
| MysqlClo.CloState.Put | CLA/mysql/src/mysqlclo.c:441-451 | The dequeuing thread's section stays inside the batch and has the effect of the machine's step |
| MysqlClo.CloState.Decide | CLA/mysql/src/mysqlclo.c:138-179 | What the flush thread does at the head of its loop |
| MysqlClo.Database.InsertBatch | CLA/mysql/src/mysqlclo.c:68-110 | It succeeds if and only if the server accepts all of its statements; the whole batch is stored if and only if it accepts all but the COMMIT and carries that out, and else nothing is |

## Left out

- TLS but for the corking of writes with Mbed TLS (GnuTLS corks by itself), sockets,
  certificates' policy, contact header and SESS_INIT negotiation, keepalives, dialling and
  back-off, session lists and their reaping: not modelled.
- ION itself: BP, the SDR and ZCOs are callbacks that accept or refuse.
- Allocation failure: every allocation succeeds. The resource sites of the receiver appear in
  `Tcpv4Term` as steps that may happen at any time.
- A peer that advertises a Segment MRU of 0: the cutting loop of the sender would not advance.
  The end-to-end results assume at least 1, which both ends of this implementation advertise.
- Transfer numbers: a session begins fewer than 2^64 transfers (`Tcpv4Tx.Apply`), bpsh sees
  fewer than 2^64 frames.
- Liveness: that a thread can go on is proved (`Tcpv4Progress`, `MysqlClo.NoDeadlock`), that a
  condition variable wakes it in the end is not stated.
- tcpv4ConnRecv: a TLS stream that ends inside an exact read behind no buffered octets is
  reported as an orderly end; the model returns what the code returns and states nothing more.
- tcpv4X509IsNodeId, quicMsgType, name tables and the like: single tests that would only add
  easy members.
- QuicConn.DataRx.RecvStreamData: buffer lengths up to 2^31 - 1, because the code counts them
  in an int.
- QuicDgConn.DgRx.DgReassemble: segments whose end an int can hold, because the sum is undefined
  in C otherwise; what comes in one datagram always is (`QuicDatagram.EndIsSmall`).
- QuicConn.FrameBundle: capacities that an int can hold, for the same reason.
- The QUICCL signalling stream, XFER_ACKs in answer, retransmission, streams that interleave
  and connection set-up: these belong to ngtcp2 or are plumbing.
- QuicUdp.TxBatch.Reserve: the flush inside it is never reached, as the contract shows.
- MailBuild.BuildMessage: null arguments and the default subject, which callers pass as a subject.
- The session wrapper that retries and reconnects in mysqlclo, its sleep times, and bundles
  refused before they are buffered: not modelled. A COMMIT may be carried out although its
  answer is lost; then failure is reported for stored bundles.
- bpsh's shell session, its line editor and history, and the frame codec: not modelled.

# Go-Back-N sender: a verified Dafny model

This project models the sender side of a Go-Back-N ARQ file transfer. The
sender cuts a file into datagrams of at most 255 bytes and numbers them from 1.
It keeps at most 10 of them outstanding in a ring buffer indexed by
`seqNum % WINDOW_SIZE`. It advances its window on cumulative ACKs and resends
the whole outstanding window when its single timer expires. When everything is
read and acknowledged, it sends one zero-length end-of-file datagram.

The model has four modules:

- `Datagrams` (`datagrams.dfy`): the datagram record, the constants
  `WINDOW_SIZE` = 10 and `MAX_PAYLOAD_LENGTH` = 255, and the checksum
  collaborator. `computeChecksum` is an arbitrary function supplied by the
  caller. `validateChecksum` is assumed to recompute the checksum with the
  checksum field zeroed and compare; `datagram.h` is not part of this model.
- `Packetizer` (`packetizer.dfy`): the `read`/`gcount` pair on the input file,
  what the k-th read returns, how many data datagrams a file produces, and
  that their payloads reassemble the file.
- `GoBackN` (`gobackn.dfy`): the sender as a state machine over a
  `SenderState` value. There is one function per step of the loop body: send,
  receive, timeout. `Run` is the loop over a finite sequence of ticks, and
  `Finish` sends the end-of-file datagram. The invariant `Inv` and the lemmas
  about these functions live here too.
- `Sender` (`sender.dfy`): the class `GbnSender`. Its fields are the loop's
  locals, the ring buffer `sndpkt` as an array, and the timer's armed flag.
  Its methods update them in place, one per step, plus the `Transfer` loop
  itself. Each method is proved to produce exactly the state the matching
  `GoBackN` function describes.

`base` and `nextseqnum` are `uint16_t` in the sender, and the model writes
their wrap-around out: `nextseqnum++` and `base = ackNum + 1` are taken modulo
65536. The invariant `Inv` holds under two conditions:

- the file is shorter than 65534 × 255 bytes (`MAX_FILE_LENGTH`), so
  `nextseqnum` never wraps;
- every accepted ACK has `ackNum < nextseqnum`, meaning the receiver never
  acknowledges a datagram that was not sent (`AckInWindow`).

The sender itself checks neither condition. `SendWrapsBelowBase` and
`AckBeyondNextSeqBreaksInv` show what happens when one fails.

`Inv` has these parts:

- `base <= nextSeq <= base + WINDOW_SIZE`, with `base >= 1`;
- the timer is armed iff something is outstanding;
- each outstanding slot holds the datagram originally built for its sequence
  number;
- the read position agrees with `nextSeq` and `allSent`;
- every logged transmission is the original datagram for an already assigned
  sequence number;
- every assigned sequence number has been transmitted at least once.

The code does not keep `base <= nextseqnum <= base + WINDOW_SIZE` on its own:
a valid ACK with `ackNum >= nextseqnum` (main.cpp:116-118) or the 16-bit wrap
of `nextseqnum++` (main.cpp:106) breaks it.

## Model

| member | source | states |
|---|---|---|
| Datagrams.Seal | main.cpp:91 | a sealed datagram passes `validateChecksum` and differs from the unsealed one only in its checksum field |
| Datagrams.ChecksumValid | main.cpp:116 | `validateChecksum` accepts a datagram exactly when it equals what sealing its other fields produces |
| Packetizer.Read | main.cpp:89-90 | a read returns the next bytes of the file, at most 255 of them, and is short exactly when it reaches the end of the file |
| Packetizer.ChunkLength | main.cpp:107-110 | every read before the last is full (255 bytes); the last carries `|file| % 255` bytes and is the only short one, so `allSent` is set after exactly `|file| / 255 + 1` data datagrams |
| Packetizer.ExactMultipleEndsWithEmptyChunk | main.cpp:107-110 | the last data payload is empty iff the file length is a multiple of 255 |
| Packetizer.AssembledIsPrefix | main.cpp:89-90 | the first n payloads, concatenated, are the first min(255·n, \|file\|) bytes of the file |
| Packetizer.ChunksReassemble | main.cpp:84-110 | the payloads of all data datagrams, in sequence order, concatenate to the whole file |
| GoBackN.Init | main.cpp:69-77 | the loop starts with an empty ring buffer of WINDOW_SIZE slots, nothing read, and not Done, so the loop body runs |
| GoBackN.EndPacket | main.cpp:148-151 | the end-of-file datagram carries the given sequence number, payload length 0, no data and a valid checksum |
| GoBackN.DataPacket | main.cpp:85-91 | the datagram built for sequence number n carries n, ackNum 0, the (n-1)-th read as payload with its length (at most 255), and a valid checksum |
| GoBackN.CanSend | main.cpp:84 | the send step's guard (window room and data left); under the window bounds the slot it writes holds no outstanding datagram |
| GoBackN.Done | main.cpp:82 | the negated loop condition; once it holds no further send can fire, and with the timer invariant the timer is stopped |
| GoBackN.Accepted | main.cpp:116 | an ACK is acted on only if it validates and is not older than `base`; an accepted ACK below 65535 moves `base` strictly forward |
| GoBackN.TimerExpired | main.cpp:134 | `timer.timeout()` is true only when the duration elapsed while armed; with the timer invariant, expiry implies data is outstanding |
| GoBackN.Send | main.cpp:84-111 | the send step keeps the ring buffer at WINDOW_SIZE slots and the read position inside the file |
| GoBackN.Receive | main.cpp:114-131 | the receive step never reads, never sends and never changes `nextseqnum`, `allSent` or `sndpkt`; it changes the state only for a datagram that validates and has `ackNum >= base` |
| GoBackN.Window | main.cpp:136-139 | the retransmitted sequence has `nextseqnum - base` entries (none if `base >= nextseqnum`); entry k is `sndpkt[(base + k) % WINDOW_SIZE]` |
| GoBackN.Timeout | main.cpp:134-141 | a timeout changes only the send log (the timer was armed and stays armed); without expiry nothing changes |
| GoBackN.Finish | main.cpp:148-152 | after the loop exactly one datagram is added to the log and nothing else changes |
| GoBackN.Step | main.cpp:84-141 | one loop iteration (send, receive, timeout) keeps the state well formed |
| GoBackN.Run | main.cpp:82-145 | the loop keeps the state well formed and does not run its body once the state is Done (`allSent && base == nextseqnum`) |
| GoBackN.Transfer | main.cpp:82-152 | if the loop completed, the only datagram sent after it is the end-of-file datagram numbered with the final `nextseqnum`; otherwise nothing is sent after the loop |
| GoBackN.InitInv | main.cpp:69-77 | the initial state satisfies the invariant |
| GoBackN.SlotsDistinct | main.cpp:94 | two sequence numbers less than WINDOW_SIZE apart use different ring-buffer slots, so a send inside the window never overwrites an outstanding datagram |
| GoBackN.SendEffects | main.cpp:84-110 | the send step fires iff `nextseqnum < base + WINDOW_SIZE && !allSent`; it transmits once the datagram built for `nextseqnum` and stores it in slot `nextseqnum % WINDOW_SIZE`; it increments `nextseqnum` by one (mod 2^16) and leaves `base` alone; it starts the timer when `base == nextseqnum`; it sets `allSent` iff the payload is short |
| GoBackN.SmallFileNeverWraps | main.cpp:106 | for a file shorter than MAX_FILE_LENGTH, `nextseqnum` is below 65535 while data remains, so the increment never wraps |
| GoBackN.SendWrapsBelowBase | main.cpp:106 | a send with `nextseqnum` = 65535 (only possible for a file of at least MAX_FILE_LENGTH bytes) wraps `nextseqnum` to 0, below `base`, and breaks the invariant |
| GoBackN.SendPreservesInv | main.cpp:84-111 | the send step preserves the invariant: window bounds, timer armed iff outstanding, slots holding the originals, read position, faithful and complete log |
| GoBackN.ReceiveEffects | main.cpp:116-130 | an accepted ACK sets `base = (ackNum + 1) mod 2^16`, which is a strict increase when `ackNum < 65535`; the timer is then armed iff `base != nextseqnum`; an ACK with a bad checksum or `ackNum < base` changes nothing |
| GoBackN.ReceivePreservesInv | main.cpp:116-127 | the receive step preserves the invariant when every accepted ACK is below `nextseqnum` |
| GoBackN.AckBeyondNextSeqBreaksInv | main.cpp:116-118 | a valid ACK with `ackNum >= nextseqnum` is accepted anyway; it pushes `base` past `nextseqnum` (or wraps it to 0 for ackNum 65535) and breaks the invariant |
| GoBackN.TimeoutResendsWindow | main.cpp:134-141 | on expiry, exactly the datagrams built for `base .. nextseqnum-1` are resent, in increasing order, each identical to its original; only the log changes and the timer stays armed |
| GoBackN.WrappedBaseResendsUnwrittenSlot | main.cpp:134-139 | after one send, a valid ACK numbered 65535 wraps `base` to 0 with the timer armed, and the next timeout resends slot 0, which no send has written |
| GoBackN.TimeoutPreservesInv | main.cpp:134-141 | the timeout step preserves the invariant |
| GoBackN.StepPreservesInv | main.cpp:84-141 | one full loop iteration preserves the invariant |
| GoBackN.RunPreservesInv | main.cpp:82-145 | every state the loop reaches satisfies the invariant |
| GoBackN.FinishSendsEndOfFile | main.cpp:147-152 | at loop exit the timer is stopped and the whole file is read; `nextseqnum` is DataCount(file) + 1; data datagrams 1 .. DataCount(file) have all been transmitted and their payloads reassemble the file; exactly one end-of-file datagram with that number and length 0 follows |
| GoBackN.TransferEndsWithEndOfFile | main.cpp:82-152 | from the initial state, the loop keeps the invariant; if it completes, every data datagram has gone out and the last transmission is the end-of-file datagram numbered DataCount(file) + 1 |
| GoBackN.ExactMultipleSendsEmptyDataPacket | main.cpp:89-110 | the last data datagram, numbered DataCount(file), is empty iff the file length is a multiple of 255, so such a file sends an empty data datagram before the end-of-file one |
| Sender.GbnSender.constructor | main.cpp:64-77 | the set-up gives the initial state (`base` and `nextseqnum` at 1, timer stopped), which satisfies the invariant |
| Sender.GbnSender.SendStep | main.cpp:84-111 | the in-place send step leaves exactly the state `GoBackN.Send` gives |
| Sender.GbnSender.ReceiveStep | main.cpp:114-131 | the in-place receive step leaves exactly the state `GoBackN.Receive` gives |
| Sender.GbnSender.TimeoutStep | main.cpp:134-141 | the retransmission `for` loop sends `sndpkt[i % WINDOW_SIZE]` for `i = base .. nextseqnum-1` in order and restarts the timer, which is exactly `GoBackN.Timeout` |
| Sender.GbnSender.SendEndOfFile | main.cpp:148-152 | appends exactly `GoBackN.EndPacket(nextseqnum)` to the log |
| Sender.GbnSender.Transfer | main.cpp:82-153 | the `while` loop followed by the end-of-file datagram gives exactly the state of `GoBackN.Run`, plus `GoBackN.Finish` when it completed |

## Left out

- Command-line parsing with `getopt`/`std::stoi` and its usage and error exits (main.cpp:22-47): argument plumbing with no protocol meaning.
- Logging (`TRACE`, `DEBUG`, `INFO`, `WARNING`, `FATAL`, `toString`): output only.
- Opening and closing the input file, and the exit with status 1 when it cannot be opened (main.cpp:56-60, 155): the model starts with the file's bytes in hand.
- `unreliableTransportC` (`unreliableTransport.h` is not part of this model): `udt_send` appends to a ghost log `sent`. Each loop iteration takes `udt_receive`'s result as an `Option<Datagram>` input.
- `timerC` (`timerC.h` is not part of this model): the timer is an armed flag. `timer.timeout()` is modelled as "armed and the duration has elapsed", with the elapsed flag an input of each iteration. The timer's duration (10) and clock are not modelled.
- `computeChecksum` / `validateChecksum` (`datagram.h` is not part of this model): the checksum is an arbitrary caller-supplied function, and `validateChecksum` is assumed to recompute the checksum with the checksum field zeroed and compare.
- The unused tail of `datagramS::data` (zero bytes after the payload) is not represented. The ring buffer's initial contents are modelled as empty datagrams; while `Inv` holds, no slot is read before a send has written it.
- GoBackN.WrappedBaseResendsUnwrittenSlot: after a valid ACK numbered 65535 wraps `base` to 0, the source resends an uninitialised slot of `sndpkt` (main.cpp:74, 136-137), where the model resends an empty datagram.
- Termination and liveness: the source loop has no bound and can run forever under total loss. The model runs it over a finite sequence of ticks (`Run`, `Sender.GbnSender.Transfer`), and a run whose ticks are exhausted before Done sends no end-of-file datagram. No lemma states that a fair channel leads to Done.
- GoBackN.SendPreservesInv: proved only for files shorter than MAX_FILE_LENGTH (65534 × 255 bytes). Beyond that, `nextseqnum` wraps and the invariant fails (GoBackN.SendWrapsBelowBase).
- GoBackN.ReceivePreservesInv: proved only when every accepted ACK is below `nextseqnum`. The source accepts larger ones (GoBackN.AckBeyondNextSeqBreaksInv).
- GoBackN.StepPreservesInv: carries both conditions above.
- GoBackN.RunPreservesInv: carries both conditions above, at every iteration.
- GoBackN.TransferEndsWithEndOfFile: carries both conditions above, at every iteration.

/**
 * The Go-Back-N sender as a state machine over values: one function per step
 * of the sender's loop (send, receive an ACK, handle a timeout), the loop
 * itself over a finite sequence of ticks, the end-of-file datagram, and the
 * invariant that the steps keep.
 *
 * `base` and `nextSeq` are `uint16_t` in the sender; their wrap-around is
 * written out. The invariant is proved for files small enough that
 * `nextseqnum` never wraps and for receivers that never acknowledge a
 * sequence number that was not sent; two lemmas show what breaks otherwise.
 */
module GoBackN {
  import opened Datagrams
  import opened Packetizer

  /**
   * Smallest file length at which `nextseqnum++` wraps; every shorter file
   * numbers all its datagrams, the end-of-file one included, below 65536.
   */
  const MAX_FILE_LENGTH: nat := (SEQ_MODULUS - 2) * MAX_PAYLOAD_LENGTH

  /**
   * Everything the sender loop keeps: the read position of the input stream,
   * `base` and `nextSeq`, the end-of-data flag, the ring buffer `sndpkt`, the
   * timer's armed state, and the log of every datagram handed to `udt_send`.
   */
  datatype SenderState = SenderState(
    pos: nat,
    base: u16,
    nextSeq: u16,
    allSent: bool,
    slots: seq<Datagram>,
    timerArmed: bool,
    sent: seq<Datagram>)

  /** What one loop iteration receives from its collaborators: at most one incoming datagram, and whether the timer's duration has elapsed. */
  datatype Tick = Tick(received: Option<Datagram>, elapsed: bool)

  predicate WellFormed(file: seq<byte>, s: SenderState)
  {
    |s.slots| == WINDOW_SIZE && s.pos <= |file|
  }

  /** The state just before the loop: `base` and `nextSeq` at 1, nothing read, timer stopped. */
  function Init(): (s: SenderState)
    ensures |s.slots| == WINDOW_SIZE && s.pos == 0 && !Done(s)
  {
    SenderState(0, 1, 1, false, seq(WINDOW_SIZE, _ => EmptyDatagram), false, [])
  }

  /** The datagram the sender builds for sequence number `seqNum`: the (`seqNum` - 1)-th read of the file, sealed with its checksum. */
  function DataPacket(file: seq<byte>, computeChecksum: Datagram -> nat, seqNum: u16): (p: Datagram)
    requires seqNum >= 1
    ensures p.seqNum == seqNum && p.ackNum == 0
    ensures p.payloadLength == |p.data| <= MAX_PAYLOAD_LENGTH && p.data == Chunk(file, seqNum - 1)
    ensures ChecksumValid(computeChecksum, p)
  {
    var chunk := Chunk(file, seqNum - 1);
    Seal(computeChecksum, Datagram(seqNum, 0, 0, |chunk|, chunk))
  }

  /** The zero-length datagram that marks the end of the file. */
  function EndPacket(computeChecksum: Datagram -> nat, seqNum: u16): (p: Datagram)
    ensures p.seqNum == seqNum && p.payloadLength == 0 && p.data == []
    ensures ChecksumValid(computeChecksum, p)
  {
    Seal(computeChecksum, Datagram(seqNum, 0, 0, 0, []))
  }

  /** Guard of the send step: the window has room and the file has not been exhausted. */
  predicate CanSend(s: SenderState)
    ensures CanSend(s) && WindowBounds(s) ==>
      forall i :: s.base <= i < s.nextSeq ==> i % WINDOW_SIZE != s.nextSeq % WINDOW_SIZE
  {
    s.nextSeq < s.base + WINDOW_SIZE && !s.allSent
  }

  /** The loop condition's negation: all data read and every datagram acknowledged. */
  predicate Done(s: SenderState)
    ensures Done(s) ==> !CanSend(s)
    ensures Done(s) && TimerTracksOutstanding(s) ==> !s.timerArmed
  {
    s.allSent && s.base == s.nextSeq
  }

  /** An incoming datagram the receive step acts upon: it validates and is not older than `base`. */
  predicate Accepted(computeChecksum: Datagram -> nat, s: SenderState, ack: Datagram)
    ensures Accepted(computeChecksum, s, ack) && ack.ackNum < SEQ_MODULUS - 1 ==> (ack.ackNum + 1) % SEQ_MODULUS > s.base
    ensures !ChecksumValid(computeChecksum, ack) ==> !Accepted(computeChecksum, s, ack)
  {
    ChecksumValid(computeChecksum, ack) && ack.ackNum >= s.base
  }

  /**
   * Send step: read the next chunk, build and seal a datagram numbered
   * `nextSeq`, store it in its ring-buffer slot, transmit it, start the
   * timer if nothing was outstanding, advance `nextSeq` (modulo 2^16), and
   * note a short read.
   */
  function Send(file: seq<byte>, computeChecksum: Datagram -> nat, s: SenderState): (r: SenderState)
    requires WellFormed(file, s)
    ensures WellFormed(file, r)
  {
    if CanSend(s) then
      var chunk := Read(file, s.pos);
      var packet := Seal(computeChecksum, Datagram(s.nextSeq, 0, 0, |chunk|, chunk));
      s.(pos := s.pos + |chunk|,
         slots := s.slots[s.nextSeq % WINDOW_SIZE := packet],
         sent := s.sent + [packet],
         timerArmed := if s.base == s.nextSeq then true else s.timerArmed,
         nextSeq := (s.nextSeq + 1) % SEQ_MODULUS,
         allSent := if |chunk| < MAX_PAYLOAD_LENGTH then true else s.allSent)
    else
      s
  }

  /**
   * Receive step: an accepted ACK moves `base` past `ackNum` (modulo 2^16)
   * and stops the timer if nothing remains outstanding, else restarts it;
   * anything else is ignored. The step never reads the file, never sends and
   * never touches `nextSeq`, `allSent` or the ring buffer.
   */
  function Receive(computeChecksum: Datagram -> nat, s: SenderState, received: Option<Datagram>): (r: SenderState)
    ensures r.pos == s.pos && r.nextSeq == s.nextSeq && r.allSent == s.allSent
    ensures r.slots == s.slots && r.sent == s.sent
    ensures r != s ==> received.Some? && Accepted(computeChecksum, s, received.value)
  {
    match received
    case None => s
    case Some(ack) =>
      if Accepted(computeChecksum, s, ack) then
        var newBase := (ack.ackNum + 1) % SEQ_MODULUS;
        s.(base := newBase, timerArmed := newBase != s.nextSeq)
      else
        s
  }

  /**
   * The stored datagrams for sequence numbers `lo` up to but excluding `hi`,
   * in increasing order, each read from slot `i % WINDOW_SIZE`.
   */
  function Window(slots: seq<Datagram>, lo: int, hi: int): (w: seq<Datagram>)
    requires |slots| == WINDOW_SIZE && lo >= 0
    ensures |w| == if lo < hi then hi - lo else 0
    ensures forall k :: 0 <= k < |w| ==> w[k] == slots[(lo + k) % WINDOW_SIZE]
    decreases hi - lo
  {
    if lo < hi then Window(slots, lo, hi - 1) + [slots[(hi - 1) % WINDOW_SIZE]] else []
  }

  /** `timer.timeout()`: the timer reports expiry only while it is armed. */
  predicate TimerExpired(s: SenderState, elapsed: bool)
    ensures TimerExpired(s, elapsed) && TimerTracksOutstanding(s) ==> s.base != s.nextSeq
    ensures !elapsed ==> !TimerExpired(s, elapsed)
  {
    s.timerArmed && elapsed
  }

  /** Timeout step: on expiry, retransmit the stored window `base` .. `nextSeq` - 1 and restart the timer. */
  function Timeout(s: SenderState, elapsed: bool): (r: SenderState)
    requires |s.slots| == WINDOW_SIZE
    ensures r.(sent := s.sent) == s
    ensures !TimerExpired(s, elapsed) ==> r == s
  {
    if TimerExpired(s, elapsed) then
      s.(sent := s.sent + Window(s.slots, s.base, s.nextSeq), timerArmed := true)
    else
      s
  }

  /** After the loop: send one end-of-file datagram numbered `nextSeq`. */
  function Finish(computeChecksum: Datagram -> nat, s: SenderState): (r: SenderState)
    ensures r.(sent := s.sent) == s && |r.sent| == |s.sent| + 1
  {
    s.(sent := s.sent + [EndPacket(computeChecksum, s.nextSeq)])
  }

  /** One iteration of the loop body: send step, receive step, timeout step. */
  function Step(file: seq<byte>, computeChecksum: Datagram -> nat, s: SenderState, t: Tick): (r: SenderState)
    requires WellFormed(file, s)
    ensures WellFormed(file, r)
  {
    Timeout(Receive(computeChecksum, Send(file, computeChecksum, s), t.received), t.elapsed)
  }

  /**
   * The loop `while (!allSent || base != nextseqnum)`, run for at most
   * `|ticks|` iterations: it stops as soon as the state is Done, and otherwise
   * when the ticks run out.
   */
  function Run(file: seq<byte>, computeChecksum: Datagram -> nat, s: SenderState, ticks: seq<Tick>): (r: SenderState)
    requires WellFormed(file, s)
    ensures WellFormed(file, r)
    ensures Done(s) ==> r == s
    decreases |ticks|
  {
    if Done(s) || ticks == [] then s
    else Run(file, computeChecksum, Step(file, computeChecksum, s, ticks[0]), ticks[1..])
  }

  /** The whole transfer: the loop from the initial state and, if it reached Done, the end-of-file datagram. */
  function Transfer(file: seq<byte>, computeChecksum: Datagram -> nat, ticks: seq<Tick>): (r: SenderState)
    ensures var loop := Run(file, computeChecksum, Init(), ticks);
      && (Done(loop) ==> r.sent == loop.sent + [EndPacket(computeChecksum, loop.nextSeq)])
      && (!Done(loop) ==> r == loop)
  {
    var r := Run(file, computeChecksum, Init(), ticks);
    if Done(r) then Finish(computeChecksum, r) else r
  }

  // ---------------------------------------------------------------------------
  // The invariant

  /** `base <= nextSeq <= base + WINDOW_SIZE`, and `base` never falls to 0. */
  predicate WindowBounds(s: SenderState)
  {
    1 <= s.base <= s.nextSeq <= s.base + WINDOW_SIZE
  }

  /** The timer runs exactly while some datagram is outstanding. */
  predicate TimerTracksOutstanding(s: SenderState)
  {
    s.timerArmed <==> s.base != s.nextSeq
  }

  /** Every outstanding sequence number's ring-buffer slot holds the datagram built for it. */
  predicate SlotsHoldOriginals(file: seq<byte>, computeChecksum: Datagram -> nat, s: SenderState)
    requires |s.slots| == WINDOW_SIZE && WindowBounds(s)
  {
    forall i: int :: s.base <= i < s.nextSeq ==> s.slots[i % WINDOW_SIZE] == DataPacket(file, computeChecksum, i)
  }

  /**
   * Before the short read, every read was full and the stream sits right
   * after the last one; after it, the whole file is consumed and exactly
   * DataCount(file) sequence numbers are used.
   */
  predicate ReadPositionMatches(file: seq<byte>, s: SenderState)
  {
    if s.allSent then s.pos == |file| && s.nextSeq == DataCount(file) + 1
    else s.pos == MAX_PAYLOAD_LENGTH * (s.nextSeq - 1)
  }

  /** Every transmission so far is the datagram built for an assigned sequence number (retransmissions are verbatim copies). */
  predicate LogFaithful(file: seq<byte>, computeChecksum: Datagram -> nat, s: SenderState)
  {
    forall j :: 0 <= j < |s.sent| ==>
      1 <= s.sent[j].seqNum < s.nextSeq && s.sent[j] == DataPacket(file, computeChecksum, s.sent[j].seqNum)
  }

  /** Every assigned sequence number has been transmitted at least once. */
  predicate LogComplete(file: seq<byte>, computeChecksum: Datagram -> nat, s: SenderState)
    requires 1 <= s.nextSeq
  {
    forall i: int :: 1 <= i < s.nextSeq ==> DataPacket(file, computeChecksum, i) in s.sent
  }

  predicate Inv(file: seq<byte>, computeChecksum: Datagram -> nat, s: SenderState)
  {
    WellFormed(file, s) && WindowBounds(s) && TimerTracksOutstanding(s)
    && SlotsHoldOriginals(file, computeChecksum, s) && ReadPositionMatches(file, s)
    && LogFaithful(file, computeChecksum, s) && LogComplete(file, computeChecksum, s)
  }

  /** The receiver acknowledges only sequence numbers it can have received: an accepted ACK is below `nextSeq`. */
  predicate AckInWindow(computeChecksum: Datagram -> nat, s: SenderState, received: Option<Datagram>)
  {
    received.Some? && Accepted(computeChecksum, s, received.value) ==> received.value.ackNum < s.nextSeq
  }

  /** AckInWindow holds at every receive step of the run over `ticks`. */
  predicate AcksInWindowAlong(file: seq<byte>, computeChecksum: Datagram -> nat, s: SenderState, ticks: seq<Tick>)
    requires WellFormed(file, s)
    decreases |ticks|
  {
    Done(s) || ticks == [] ||
    (AckInWindow(computeChecksum, Send(file, computeChecksum, s), ticks[0].received)
     && AcksInWindowAlong(file, computeChecksum, Step(file, computeChecksum, s, ticks[0]), ticks[1..]))
  }

  // ---------------------------------------------------------------------------
  // Lemmas

  lemma InitInv(file: seq<byte>, computeChecksum: Datagram -> nat)
    ensures Inv(file, computeChecksum, Init())
  {
  }

  /** Two sequence numbers less than WINDOW_SIZE apart use different slots. */
  lemma SlotsDistinct(i: int, j: int)
    requires 0 <= i < j < i + WINDOW_SIZE
    ensures i % WINDOW_SIZE != j % WINDOW_SIZE
  {
  }

  /**
   * The send step's guard and effects: it fires exactly when CanSend holds;
   * then the new datagram carries `nextSeq`, sits in slot `nextSeq %
   * WINDOW_SIZE`, is transmitted once, is the datagram built for `nextSeq`,
   * and `nextSeq` grows by one (modulo 2^16); the timer is started exactly
   * when nothing was outstanding; `allSent` is set exactly on a short read.
   */
  lemma SendEffects(file: seq<byte>, computeChecksum: Datagram -> nat, s: SenderState)
    requires Inv(file, computeChecksum, s)
    ensures var r := Send(file, computeChecksum, s);
      && (!CanSend(s) <==> r == s)
      && (CanSend(s) ==>
            && r.sent == s.sent + [DataPacket(file, computeChecksum, s.nextSeq)]
            && r.slots[s.nextSeq % WINDOW_SIZE] == DataPacket(file, computeChecksum, s.nextSeq)
            && r.nextSeq == (s.nextSeq + 1) % SEQ_MODULUS
            && r.base == s.base
            && (s.base == s.nextSeq ==> r.timerArmed)
            && (s.base != s.nextSeq ==> r.timerArmed == s.timerArmed)
            && (r.allSent <==> DataPacket(file, computeChecksum, s.nextSeq).payloadLength < MAX_PAYLOAD_LENGTH))
  {
  }

  /** For a file shorter than MAX_FILE_LENGTH, `nextSeq` is below 65535 whenever data remains, so `nextseqnum++` cannot wrap. */
  lemma SmallFileNeverWraps(file: seq<byte>, computeChecksum: Datagram -> nat, s: SenderState)
    requires Inv(file, computeChecksum, s) && |file| < MAX_FILE_LENGTH && !s.allSent
    ensures s.nextSeq < SEQ_MODULUS - 1
  {
  }

  /**
   * What the wrap does for a larger file: sending with `nextSeq` = 65535
   * leaves `nextSeq` = 0, below `base`, and the window bounds no longer hold.
   */
  lemma SendWrapsBelowBase(file: seq<byte>, computeChecksum: Datagram -> nat, s: SenderState)
    requires Inv(file, computeChecksum, s) && CanSend(s) && s.nextSeq == SEQ_MODULUS - 1
    ensures |file| >= MAX_FILE_LENGTH
    ensures Send(file, computeChecksum, s).nextSeq == 0 < Send(file, computeChecksum, s).base
    ensures !Inv(file, computeChecksum, Send(file, computeChecksum, s))
  {
  }

  lemma SendPreservesInv(file: seq<byte>, computeChecksum: Datagram -> nat, s: SenderState)
    requires Inv(file, computeChecksum, s) && |file| < MAX_FILE_LENGTH
    ensures Inv(file, computeChecksum, Send(file, computeChecksum, s))
  {
    if CanSend(s) {
      var r := Send(file, computeChecksum, s);
      var n := s.nextSeq;
      var chunk := Read(file, s.pos);
      var packet := DataPacket(file, computeChecksum, n);
      assert chunk == Chunk(file, n - 1);
      assert r.nextSeq == n + 1;
      forall i: int | r.base <= i < r.nextSeq
        ensures r.slots[i % WINDOW_SIZE] == DataPacket(file, computeChecksum, i)
      {
        if i < n {
          SlotsDistinct(i, n);
        }
      }
      if |chunk| < MAX_PAYLOAD_LENGTH {
        assert |file| == MAX_PAYLOAD_LENGTH * (n - 1) + |chunk|;
        assert |file| / MAX_PAYLOAD_LENGTH == n - 1;
      }
      forall i: int | 1 <= i < r.nextSeq
        ensures DataPacket(file, computeChecksum, i) in r.sent
      {
        if i < n {
          assert DataPacket(file, computeChecksum, i) in s.sent;
        } else {
          assert r.sent[|s.sent|] == packet;
        }
      }
      assert LogFaithful(file, computeChecksum, r) by {
        forall j | 0 <= j < |r.sent|
          ensures 1 <= r.sent[j].seqNum < r.nextSeq && r.sent[j] == DataPacket(file, computeChecksum, r.sent[j].seqNum)
        {
          if j < |s.sent| {
            assert r.sent[j] == s.sent[j];
          }
        }
      }
    }
  }

  /**
   * An accepted ACK moves `base` to `ackNum` + 1, strictly forward when
   * `ackNum` < 65535 (and to 0 when it is 65535); the timer is stopped
   * exactly when that catches up with `nextSeq`, and restarted otherwise. An
   * ACK that fails the checksum or is older than `base` changes nothing.
   */
  lemma ReceiveEffects(computeChecksum: Datagram -> nat, s: SenderState, ack: Datagram)
    ensures var r := Receive(computeChecksum, s, Some(ack));
      && (Accepted(computeChecksum, s, ack) ==>
            && r.base == (ack.ackNum + 1) % SEQ_MODULUS
            && (ack.ackNum < SEQ_MODULUS - 1 ==> r.base == ack.ackNum + 1 > s.base)
            && (r.timerArmed <==> r.base != s.nextSeq))
      && (!ChecksumValid(computeChecksum, ack) || ack.ackNum < s.base ==> r == s)
  {
  }

  lemma ReceivePreservesInv(file: seq<byte>, computeChecksum: Datagram -> nat, s: SenderState, received: Option<Datagram>)
    requires Inv(file, computeChecksum, s) && AckInWindow(computeChecksum, s, received)
    ensures Inv(file, computeChecksum, Receive(computeChecksum, s, received))
  {
  }

  /**
   * Without AckInWindow the invariant is lost: an accepted ACK with `ackNum`
   * >= `nextSeq` moves `base` past `nextSeq` (or, for `ackNum` = 65535, wraps
   * it to 0).
   */
  lemma AckBeyondNextSeqBreaksInv(file: seq<byte>, computeChecksum: Datagram -> nat, s: SenderState, ack: Datagram)
    requires Inv(file, computeChecksum, s) && ChecksumValid(computeChecksum, ack) && ack.ackNum >= s.nextSeq
    ensures var r := Receive(computeChecksum, s, Some(ack));
      && (ack.ackNum < SEQ_MODULUS - 1 ==> r.base > r.nextSeq)
      && (ack.ackNum == SEQ_MODULUS - 1 ==> r.base == 0)
      && !Inv(file, computeChecksum, r)
  {
  }

  /**
   * Under the invariant, a timeout retransmits exactly the datagrams built for
   * `base` .. `nextSeq` - 1, in increasing order, each identical to its
   * original transmission, and changes nothing but the log and the timer.
   */
  lemma TimeoutResendsWindow(file: seq<byte>, computeChecksum: Datagram -> nat, s: SenderState, elapsed: bool)
    requires Inv(file, computeChecksum, s) && TimerExpired(s, elapsed)
    ensures var r, w := Timeout(s, elapsed), Window(s.slots, s.base, s.nextSeq);
      && r.sent == s.sent + w
      && |w| == s.nextSeq - s.base
      && (forall k :: 0 <= k < |w| ==>
            w[k] == DataPacket(file, computeChecksum, s.base + k) && w[k].seqNum == s.base + k)
      && r.(sent := s.sent) == s
  {
  }

  lemma TimeoutPreservesInv(file: seq<byte>, computeChecksum: Datagram -> nat, s: SenderState, elapsed: bool)
    requires Inv(file, computeChecksum, s)
    ensures Inv(file, computeChecksum, Timeout(s, elapsed))
  {
  }

  lemma StepPreservesInv(file: seq<byte>, computeChecksum: Datagram -> nat, s: SenderState, t: Tick)
    requires Inv(file, computeChecksum, s) && |file| < MAX_FILE_LENGTH
    requires AckInWindow(computeChecksum, Send(file, computeChecksum, s), t.received)
    ensures Inv(file, computeChecksum, Step(file, computeChecksum, s, t))
  {
    var s1 := Send(file, computeChecksum, s);
    SendPreservesInv(file, computeChecksum, s);
    var s2 := Receive(computeChecksum, s1, t.received);
    ReceivePreservesInv(file, computeChecksum, s1, t.received);
    TimeoutPreservesInv(file, computeChecksum, s2, t.elapsed);
  }

  /** Every state the loop reaches satisfies the invariant, given a small file and a receiver that acks only what was sent. */
  lemma {:induction false} RunPreservesInv(file: seq<byte>, computeChecksum: Datagram -> nat, s: SenderState, ticks: seq<Tick>)
    requires Inv(file, computeChecksum, s) && |file| < MAX_FILE_LENGTH
    requires AcksInWindowAlong(file, computeChecksum, s, ticks)
    ensures Inv(file, computeChecksum, Run(file, computeChecksum, s, ticks))
    decreases |ticks|
  {
    if !Done(s) && ticks != [] {
      StepPreservesInv(file, computeChecksum, s, ticks[0]);
      RunPreservesInv(file, computeChecksum, Step(file, computeChecksum, s, ticks[0]), ticks[1..]);
    }
  }

  /**
   * When the loop exits, nothing is outstanding and the timer is stopped;
   * exactly one more datagram is sent, the zero-length end-of-file datagram
   * numbered DataCount(file) + 1; by then every data datagram 1 ..
   * DataCount(file) has been transmitted, and their payloads in sequence
   * order reassemble the file.
   */
  lemma FinishSendsEndOfFile(file: seq<byte>, computeChecksum: Datagram -> nat, s: SenderState)
    requires Inv(file, computeChecksum, s) && Done(s)
    ensures !s.timerArmed && s.pos == |file|
    ensures s.nextSeq == DataCount(file) + 1
    ensures Finish(computeChecksum, s).sent == s.sent + [EndPacket(computeChecksum, s.nextSeq)]
    ensures forall i: int :: 1 <= i <= DataCount(file) ==> DataPacket(file, computeChecksum, i) in s.sent
    ensures forall i: int :: 1 <= i <= DataCount(file) ==> DataPacket(file, computeChecksum, i).data == Chunk(file, i - 1)
    ensures Assembled(file, DataCount(file)) == file
  {
    ChunksReassemble(file);
  }

  /**
   * The whole transfer from the initial state: the loop keeps the invariant,
   * and if it completes, the last transmission is the end-of-file datagram
   * numbered DataCount(file) + 1, after every data datagram has gone out.
   */
  lemma TransferEndsWithEndOfFile(file: seq<byte>, computeChecksum: Datagram -> nat, ticks: seq<Tick>)
    requires |file| < MAX_FILE_LENGTH
    requires AcksInWindowAlong(file, computeChecksum, Init(), ticks)
    ensures var r := Run(file, computeChecksum, Init(), ticks);
      && Inv(file, computeChecksum, r)
      && (Done(r) ==>
            && Transfer(file, computeChecksum, ticks).sent == r.sent + [EndPacket(computeChecksum, DataCount(file) + 1)]
            && forall i: int :: 1 <= i <= DataCount(file) ==> DataPacket(file, computeChecksum, i) in r.sent)
  {
    InitInv(file, computeChecksum);
    RunPreservesInv(file, computeChecksum, Init(), ticks);
    var r := Run(file, computeChecksum, Init(), ticks);
    if Done(r) {
      FinishSendsEndOfFile(file, computeChecksum, r);
    }
  }

  /**
   * A file whose length is a multiple of MAX_PAYLOAD_LENGTH (including the
   * empty file) ends with an empty data datagram, numbered DataCount(file),
   * before the end-of-file datagram numbered one higher; otherwise the last
   * data datagram is not empty.
   */
  lemma ExactMultipleSendsEmptyDataPacket(file: seq<byte>, computeChecksum: Datagram -> nat)
    requires |file| < MAX_FILE_LENGTH
    ensures var last := DataPacket(file, computeChecksum, DataCount(file));
      && last.seqNum == DataCount(file)
      && (last.payloadLength == 0 <==> |file| % MAX_PAYLOAD_LENGTH == 0)
  {
    ExactMultipleEndsWithEmptyChunk(file);
  }

  /**
   * The ring buffer's initial contents can be resent: after the first send,
   * a valid ACK numbered 65535 wraps `base` to 0 and restarts the timer, and
   * the next timeout resends slot 0, which no send has written. The model
   * holds an EmptyDatagram there, where the sender's array is uninitialised.
   */
  lemma WrappedBaseResendsUnwrittenSlot(file: seq<byte>, computeChecksum: Datagram -> nat)
    ensures var s1 := Send(file, computeChecksum, Init());
      var s2 := Receive(computeChecksum, s1, Some(Seal(computeChecksum, Datagram(0, SEQ_MODULUS - 1, 0, 0, []))));
      var s3 := Timeout(s2, true);
      && s1.nextSeq == 2 && s2.base == 0 && s2.timerArmed
      && |s3.sent| == |s1.sent| + 2 && s3.sent[|s1.sent|] == EmptyDatagram
  {
    var s1 := Send(file, computeChecksum, Init());
    assert s1.slots[0] == Init().slots[0] == EmptyDatagram;
  }
}

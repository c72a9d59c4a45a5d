/**
 * The sender loop as it runs: local variables `base`, `nextseqnum`,
 * `allSent`, the ring buffer `sndpkt` and the timer, updated in place by one
 * method per step. Each method is proved to do what the corresponding
 * function of GoBackN says, so the invariant lemmas there apply to it.
 *
 * The input stream is the file's bytes with a read position; `udt_send`
 * appends to the ghost log `sent`; `udt_receive` and the timer's clock are
 * inputs of the steps.
 */
module Sender {
  import opened Datagrams
  import opened Packetizer
  import opened GoBackN

  class GbnSender {
    const file: seq<byte>
    const computeChecksum: Datagram -> nat
    const sndpkt: array<Datagram>
    var pos: nat
    var base: u16
    var nextSeq: u16
    var allSent: bool
    var timerArmed: bool
    ghost var sent: seq<Datagram>

    ghost predicate Valid()
      reads this
    {
      sndpkt.Length == WINDOW_SIZE && pos <= |file|
    }

    /** The sender's state as a value. */
    ghost function State(): (s: SenderState)
      reads this, sndpkt
      requires Valid()
      ensures WellFormed(file, s)
    {
      SenderState(pos, base, nextSeq, allSent, sndpkt[..], timerArmed, sent)
    }

    /** Set-up before the loop: `base` and `nextSeq` at 1, an empty ring buffer, the timer stopped. */
    constructor (file: seq<byte>, computeChecksum: Datagram -> nat)
      ensures Valid() && fresh(sndpkt)
      ensures this.file == file && this.computeChecksum == computeChecksum
      ensures State() == Init()
      ensures Inv(file, computeChecksum, State())
    {
      this.file := file;
      this.computeChecksum := computeChecksum;
      sndpkt := new Datagram[WINDOW_SIZE](_ => EmptyDatagram);
      pos := 0;
      base := 1;
      nextSeq := 1;
      allSent := false;
      timerArmed := false;
      sent := [];
      new;
      assert sndpkt[..] == seq(WINDOW_SIZE, _ => EmptyDatagram);
      InitInv(file, computeChecksum);
    }

    /** Send step of one loop iteration. */
    method SendStep()
      requires Valid()
      modifies this, sndpkt
      ensures Valid()
      ensures State() == Send(file, computeChecksum, old(State()))
    {
      if nextSeq < base + WINDOW_SIZE && !allSent {
        var chunk := Read(file, pos);
        pos := pos + |chunk|;
        var packet := Datagram(nextSeq, 0, 0, |chunk|, chunk);
        packet := packet.(checksum := computeChecksum(packet));
        sndpkt[nextSeq % WINDOW_SIZE] := packet;
        sent := sent + [packet];
        if base == nextSeq {
          timerArmed := true;
        }
        nextSeq := (nextSeq + 1) % SEQ_MODULUS;
        if packet.payloadLength < MAX_PAYLOAD_LENGTH {
          allSent := true;
        }
      }
    }

    /** Receive step: `received` is what `udt_receive` delivered this iteration, if anything. */
    method ReceiveStep(received: Option<Datagram>)
      requires Valid()
      modifies this
      ensures Valid()
      ensures State() == Receive(computeChecksum, old(State()), received)
    {
      if received.Some? {
        var ack := received.value;
        if ChecksumValid(computeChecksum, ack) && ack.ackNum >= base {
          base := (ack.ackNum + 1) % SEQ_MODULUS;
          if base == nextSeq {
            timerArmed := false;
          } else {
            timerArmed := true;
          }
        }
      }
    }

    /** Timeout step: `elapsed` says whether the timer's duration has passed since its last start. */
    method TimeoutStep(elapsed: bool)
      requires Valid()
      modifies this
      ensures Valid()
      ensures State() == Timeout(old(State()), elapsed)
    {
      if timerArmed && elapsed {
        var i: int := base;
        while i < nextSeq
          invariant base <= i && (i <= nextSeq || i == base)
          invariant sent == old(sent) + Window(sndpkt[..], base, i)
          modifies this`sent
          decreases nextSeq - i
        {
          sent := sent + [sndpkt[i % WINDOW_SIZE]];
          i := i + 1;
        }
        timerArmed := true;
      }
    }

    /** The end-of-file datagram sent once after the loop. */
    method SendEndOfFile()
      requires Valid()
      modifies this
      ensures Valid()
      ensures State() == Finish(computeChecksum, old(State()))
    {
      var endPacket := Datagram(nextSeq, 0, 0, 0, []);
      endPacket := endPacket.(checksum := computeChecksum(endPacket));
      sent := sent + [endPacket];
    }

    /**
     * The loop, for at most `|ticks|` iterations, followed by the end-of-file
     * datagram if it completed: `done` says whether it did.
     */
    method Transfer(ticks: seq<Tick>) returns (done: bool)
      requires Valid()
      modifies this, sndpkt
      ensures Valid()
      ensures var r := Run(file, computeChecksum, old(State()), ticks);
        done == Done(r) && State() == if done then Finish(computeChecksum, r) else r
    {
      var t := 0;
      while (!allSent || base != nextSeq) && t < |ticks|
        invariant Valid() && t <= |ticks|
        invariant Run(file, computeChecksum, State(), ticks[t..]) == Run(file, computeChecksum, old(State()), ticks)
        decreases |ticks| - t
      {
        ghost var before := State();
        assert ticks[t..][1..] == ticks[t + 1..];
        SendStep();
        ReceiveStep(ticks[t].received);
        TimeoutStep(ticks[t].elapsed);
        assert State() == Step(file, computeChecksum, before, ticks[t]);
        t := t + 1;
      }
      done := allSent && base == nextSeq;
      if done {
        SendEndOfFile();
      }
    }
  }
}

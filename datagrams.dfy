/**
 * The datagram that travels between sender and receiver, the constants of the
 * sender, and the checksum collaborator.
 *
 * `datagram.h` is not part of this model. The checksum is an arbitrary
 * function supplied by the caller, and `validateChecksum` is assumed to
 * recompute the checksum with the checksum field zeroed and compare it with
 * the carried value.
 */
module Datagrams {

  /** `uint16_t`, the type of sequence and acknowledgement numbers. */
  type u16 = x: int | 0 <= x < 0x1_0000

  /** One byte of file content. */
  type byte = x: int | 0 <= x < 0x100

  /** Number of distinct `uint16_t` values; `x++` and `x = y + 1` wrap modulo this. */
  const SEQ_MODULUS: nat := 0x1_0000

  /** `#define WINDOW_SIZE 10`: capacity of the ring buffer and of the window. */
  const WINDOW_SIZE: nat := 10

  /** `#define MAX_PAYLOAD_LENGTH 255`: bytes requested by every read. */
  const MAX_PAYLOAD_LENGTH: nat := 255

  datatype Option<T> = None | Some(value: T)

  /**
   * `datagramS`. `data` holds the `payloadLength` bytes actually read; the
   * zero bytes after them in the fixed-size C array are not represented.
   */
  datatype Datagram = Datagram(
    seqNum: u16,
    ackNum: u16,
    checksum: nat,
    payloadLength: nat,
    data: seq<byte>)

  /** A value-initialised datagram (`datagramS packet = {}`). */
  const EmptyDatagram: Datagram := Datagram(0, 0, 0, 0, [])

  /**
   * `validateChecksum`: a datagram validates exactly when it is what sealing
   * its other fields would produce.
   */
  predicate ChecksumValid(computeChecksum: Datagram -> nat, d: Datagram)
    ensures var unsealed := d.(checksum := 0);
      ChecksumValid(computeChecksum, d) <==> d == unsealed.(checksum := computeChecksum(unsealed))
  {
    d.checksum == computeChecksum(d.(checksum := 0))
  }

  /**
   * `packet.checksum = computeChecksum(packet)` on a packet whose checksum
   * field is still zero: the result validates and differs from the input in
   * the checksum field only.
   */
  function Seal(computeChecksum: Datagram -> nat, d: Datagram): (r: Datagram)
    ensures ChecksumValid(computeChecksum, r)
    ensures r.(checksum := d.checksum) == d
  {
    var unsealed := d.(checksum := 0);
    unsealed.(checksum := computeChecksum(unsealed))
  }
}

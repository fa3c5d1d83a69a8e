/** Bytes and node identities (src/vpn/identity.rs). */
module Identity {
  type byte = b: int | 0 <= b < 256

  const ID_LENGTH: nat := 32

  const ZERO_ID: seq<byte> := [
    0, 0, 0, 0, 0, 0, 0, 0, 0, 0, 0, 0, 0, 0, 0, 0,
    0, 0, 0, 0, 0, 0, 0, 0, 0, 0, 0, 0, 0, 0, 0, 0]

  /** A node id is a 32-byte string; how it is derived from a key does not matter here. */
  type NodeId = id: seq<byte> | |id| == ID_LENGTH witness ZERO_ID

  /** The big-endian number a byte string spells. */
  function Number(s: seq<byte>): nat {
    if s == [] then 0 else Number(s[..|s| - 1]) * 256 + s[|s| - 1]
  }
}

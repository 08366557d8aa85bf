/** Values that travel between the two peers: octets, optional results and UDP datagrams. */
module Wire {

  /** An octet, as carried in a UDP payload or produced by UTF-8 encoding. */
  type Byte = x: int | 0 <= x < 256

  datatype Option<+T> = None | Some(value: T)

  /** One UDP datagram as a peer observes it: the destination port and the payload. */
  datatype Datagram = Datagram(port: int, payload: seq<Byte>)

  /** The end-of-message marker, the payload b'FIN'. */
  const FinMarker: seq<Byte> := [70, 73, 78]

  /** The content-free payload b'X' that accompanies every symbol. */
  const Filler: seq<Byte> := [88]

  /** The first byte of a slash command, the UTF-8 encoding of '/'. */
  const Slash: Byte := 47
}

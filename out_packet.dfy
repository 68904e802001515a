/** The fixed 4-byte replies the host can send to the scale (OutPacket.java). */
module OutPacket {
  import opened JavaBytes

  /** The five replies, in the order of their code digit. */
  datatype Reply =
    | Refused               // keep the measurement in memory and power down
    | Accepted              // accept the measure and disconnect
    | AcceptedConfig        // accept the measure and enter configuration mode
    | AcceptedDeleteAll     // accept the measure and delete all the data in memory
    | AcceptedNoDisconnect  // accept the measure and keep the connection open

  const REFUSED: seq<JByte> := [0x50, 0x57, 0x41, 0x30]
  const ACCEPTED: seq<JByte> := [0x50, 0x57, 0x41, 0x31]
  const ACCEPTED_CONFIG: seq<JByte> := [0x50, 0x57, 0x41, 0x32]
  const ACCEPTED_DELETE_ALL: seq<JByte> := [0x50, 0x57, 0x41, 0x33]
  const ACCEPTED_NO_DISCONNECT: seq<JByte> := [0x50, 0x57, 0x41, 0x34]

  /** The code digit that ends each reply. */
  function CodeDigit(r: Reply): char
  {
    match r
    case Refused => '0'
    case Accepted => '1'
    case AcceptedConfig => '2'
    case AcceptedDeleteAll => '3'
    case AcceptedNoDisconnect => '4'
  }

  /** The constant of OutPacket that carries reply `r`: ASCII "PWA" followed by its code digit. */
  function Bytes(r: Reply): (bs: seq<JByte>)
    ensures |bs| == 4
    ensures bs[..3] == AsciiBytes("PWA")
    ensures bs[3] == CodeDigit(r) as int
  {
    match r
    case Refused => REFUSED
    case Accepted => ACCEPTED
    case AcceptedConfig => ACCEPTED_CONFIG
    case AcceptedDeleteAll => ACCEPTED_DELETE_ALL
    case AcceptedNoDisconnect => ACCEPTED_NO_DISCONNECT
  }

  /** The five replies are pairwise distinct, and the last byte alone tells them apart. */
  lemma CodeByteIdentifiesReply(r1: Reply, r2: Reply)
    ensures Bytes(r1)[3] == Bytes(r2)[3] <==> r1 == r2
    ensures Bytes(r1) == Bytes(r2) <==> r1 == r2
  {
  }
}

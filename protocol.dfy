/** The wire constants of the launcher protocol: the command keywords, the
    message-type codes, and the fixed-size packet header. */
module Protocol {
  import opened Bytes

  newtype uint16 = x: int | 0 <= x < 0x1_0000
  newtype uint32 = x: int | 0 <= x < 0x1_0000_0000

  /** Size in bytes of a packed `PacketHeader`. */
  const PACKET_HEADER_SIZE: uint32 := 8

  datatype MessageType =
    | Unknown
    | GetNotice
    | NoticeResponse
    | GetFile
    | FileResponse
    | ErrorResponse

  /** The `uint16_t` value of each enumerator. */
  function Code(t: MessageType): (c: uint16)
    ensures c == 999 <==> t.ErrorResponse?
    ensures !t.ErrorResponse? ==> c <= 4
  {
    match t
    case Unknown => 0
    case GetNotice => 1
    case NoticeResponse => 2
    case GetFile => 3
    case FileResponse => 4
    case ErrorResponse => 999
  }

  /** The enumerator a `uint16_t` value stands for, if any. */
  function FromCode(c: uint16): (r: Option<MessageType>)
    ensures forall t :: r == Some(t) <==> Code(t) == c
  {
    if c == 0 then Some(Unknown)
    else if c == 1 then Some(GetNotice)
    else if c == 2 then Some(NoticeResponse)
    else if c == 3 then Some(GetFile)
    else if c == 4 then Some(FileResponse)
    else if c == 999 then Some(ErrorResponse)
    else None
  }

  /** Distinct enumerators have distinct codes. */
  lemma CodesDistinct(s: MessageType, t: MessageType)
    requires s != t
    ensures Code(s) != Code(t)
  {
  }

  /** The header: a message type, the length of the body after it, and the
      protocol version, laid out under `#pragma pack(1)`. */
  datatype PacketHeader = PacketHeader(messageType: uint16, bodyLength: uint32, version: uint16)

  /** The default constructor. */
  function DefaultHeader(): (h: PacketHeader)
    ensures h.messageType == Code(Unknown) && h.bodyLength == 0 && h.version == 1
  {
    PacketHeader(0, 0, 1)
  }

  function Le16(x: uint16): (b: Bytes)
  {
    [(x as int % 0x100) as byte, (x as int / 0x100) as byte]
  }

  function Le32(x: uint32): (b: Bytes)
  {
    Le16((x as int % 0x1_0000) as uint16) + Le16((x as int / 0x1_0000) as uint16)
  }

  /** The bytes of a header in memory: fields packed without padding, in
      declaration order, each little-endian (the x86 byte order of the
      server's Windows target). */
  function Pack(h: PacketHeader): (b: Bytes)
    ensures |b| == PACKET_HEADER_SIZE as int
    ensures b[0..2] == Le16(h.messageType)
    ensures b[2..6] == Le32(h.bodyLength)
    ensures b[6..8] == Le16(h.version)
  {
    Le16(h.messageType) + Le32(h.bodyLength) + Le16(h.version)
  }

  /** Reads a header back from `PACKET_HEADER_SIZE` bytes. */
  function Unpack(b: Bytes): (r: Option<PacketHeader>)
    ensures r.Some? <==> |b| == PACKET_HEADER_SIZE as int
  {
    if |b| != PACKET_HEADER_SIZE as int then None
    else
      Some(PacketHeader(
        (b[0] as int + 0x100 * b[1] as int) as uint16,
        (b[2] as int + 0x100 * b[3] as int + 0x1_0000 * b[4] as int + 0x100_0000 * b[5] as int) as uint32,
        (b[6] as int + 0x100 * b[7] as int) as uint16))
  }

  lemma Le16RoundTrip(x: uint16)
    ensures Le16(x)[0] as int + 0x100 * Le16(x)[1] as int == x as int
  {
  }

  lemma Le32RoundTrip(x: uint32)
    ensures var b := Le32(x);
      b[0] as int + 0x100 * b[1] as int + 0x1_0000 * b[2] as int + 0x100_0000 * b[3] as int == x as int
  {
    var low, high := (x as int % 0x1_0000) as uint16, (x as int / 0x1_0000) as uint16;
    Le16RoundTrip(low);
    Le16RoundTrip(high);
    assert x as int == low as int + 0x1_0000 * high as int;
  }

  lemma UnpackPack(h: PacketHeader)
    ensures Unpack(Pack(h)) == Some(h)
  {
    Le16RoundTrip(h.messageType);
    Le32RoundTrip(h.bodyLength);
    Le16RoundTrip(h.version);
  }

  lemma Le16OfBytes(lo: byte, hi: byte)
    ensures Le16((lo as int + 0x100 * hi as int) as uint16) == [lo, hi]
  {
  }

  lemma Le32OfBytes(b0: byte, b1: byte, b2: byte, b3: byte)
    ensures Le32((b0 as int + 0x100 * b1 as int + 0x1_0000 * b2 as int + 0x100_0000 * b3 as int) as uint32)
            == [b0, b1, b2, b3]
  {
    var low, high := b0 as int + 0x100 * b1 as int, b2 as int + 0x100 * b3 as int;
    var x := low + 0x1_0000 * high;
    assert x % 0x1_0000 == low && x / 0x1_0000 == high;
    Le16OfBytes(b0, b1);
    Le16OfBytes(b2, b3);
  }

  /** Every eight bytes are the packed form of the header read from them. */
  lemma PackUnpack(b: Bytes)
    requires |b| == PACKET_HEADER_SIZE as int
    ensures Pack(Unpack(b).value) == b
  {
    Le16OfBytes(b[0], b[1]);
    Le32OfBytes(b[2], b[3], b[4], b[5]);
    Le16OfBytes(b[6], b[7]);
    assert b == [b[0], b[1]] + [b[2], b[3], b[4], b[5]] + [b[6], b[7]];
  }

  /** A default header occupies eight bytes: type 0, length 0, version 1. */
  lemma DefaultHeaderBytes()
    ensures DefaultHeader().messageType == 0 && DefaultHeader().bodyLength == 0 && DefaultHeader().version == 1
    ensures Pack(DefaultHeader()) == [0, 0, 0, 0, 0, 0, 1, 0]
  {
  }

  // The command keywords of the bare-keyword protocol.
  const GET_NOTICE: Bytes := Ascii("GET_NOTICE")
  const INIT_SERVER_INFO: Bytes := Ascii("INIT_SERVER_INFO")
  const GET_FILE: Bytes := Ascii("GET_FILE")
  const GET_SERVER_INFO: Bytes := Ascii("GET_SERVER_INFO")

  function Commands(): (cs: seq<Bytes>)
    ensures |cs| == 4
  {
    [GET_NOTICE, INIT_SERVER_INFO, GET_FILE, GET_SERVER_INFO]
  }

  /** A keyword that a line-framed request can carry: non-empty, without a
      line feed or a carriage return, and not ending in a space. */
  predicate SingleLine(c: Bytes)
  {
    |c| > 0 && LF !in c && CR !in c && c[|c| - 1] != SPACE
  }

  /** The four keywords are pairwise distinct and each is a single line. */
  lemma CommandsWellFormed()
    ensures forall i, j :: 0 <= i < j < 4 ==> Commands()[i] != Commands()[j]
    ensures forall c :: c in Commands() ==> SingleLine(c)
  {
    assert |GET_NOTICE| == 10 && |INIT_SERVER_INFO| == 16 && |GET_FILE| == 8 && |GET_SERVER_INFO| == 15;
    assert SingleLine(GET_NOTICE);
    assert SingleLine(INIT_SERVER_INFO);
    assert SingleLine(GET_FILE);
    assert SingleLine(GET_SERVER_INFO);
  }
}

/** The fixed 20-byte frame header and the limits of the wire format. */
module Headers {
  import opened Bytes
  import opened FieldIds

  const HEADER_LEN := 20
  const MAX_PAYLOAD_SIZE := 1024 * 1024
  const MAX_FRAME_DATA := 32 * 1024

  datatype TransactionError =
    | InvalidFlags
    | PayloadTooLarge
    | SizeMismatch
    | HeaderMismatch
    | DuplicateField(code: u16)
    | ShortBuffer
    | MissingField(missing: FieldId)
    | InvalidParamValue(field: FieldId)
    | UnexpectedEof

  datatype FrameHeader = FrameHeader(
    flags: byte,
    isReply: byte,
    ty: u16,
    id: u32,
    error: u32,
    totalSize: u32,
    dataSize: u32)

  /** The header of a reassembled transaction: all payload bytes in one frame. */
  function Normalised(h: FrameHeader): FrameHeader {
    h.(dataSize := h.totalSize)
  }

  function HeaderBytes(h: FrameHeader): (b: bytes)
    ensures |b| == HEADER_LEN
  {
    [h.flags, h.isReply] + U16Bytes(h.ty) + U32Bytes(h.id) + U32Bytes(h.error)
    + U32Bytes(h.totalSize) + U32Bytes(h.dataSize)
  }

  function HeaderOf(b: bytes): FrameHeader
    requires |b| == HEADER_LEN
  {
    FrameHeader(b[0], b[1], U16Of(b[2..4]), U32Of(b[4..8]), U32Of(b[8..12]),
                U32Of(b[12..16]), U32Of(b[16..20]))
  }

  lemma HeaderSlices(h: FrameHeader)
    ensures var w := HeaderBytes(h);
            w[0] == h.flags && w[1] == h.isReply && w[2..4] == U16Bytes(h.ty) && w[4..8] == U32Bytes(h.id)
            && w[8..12] == U32Bytes(h.error) && w[12..16] == U32Bytes(h.totalSize)
            && w[16..20] == U32Bytes(h.dataSize)
  {
    hide U16Bytes, U32Bytes;
  }

  /** Reading a written header returns it, and writing a read header restores its bytes. */
  lemma HeaderRoundTrip(h: FrameHeader, b: bytes)
    requires |b| == HEADER_LEN
    ensures HeaderOf(HeaderBytes(h)) == h
    ensures HeaderBytes(HeaderOf(b)) == b
  {
    hide U16Bytes, U32Bytes, U16Of, U32Of;
    HeaderSlices(h);
    U16RoundTrip(h.ty, b[2..4]);
    U32RoundTrip(h.id, b[4..8]);
    U32RoundTrip(h.error, b[8..12]);
    U32RoundTrip(h.totalSize, b[12..16]);
    U32RoundTrip(h.dataSize, b[16..20]);
    assert b == [b[0], b[1]] + b[2..4] + b[4..8] + b[8..12] + b[12..16] + b[16..20];
  }

  /** Where each field stands and which of its bytes counts most. */
  lemma HeaderLayout(b: bytes)
    requires |b| == HEADER_LEN
    ensures HEADER_LEN == 20
    ensures var h := HeaderOf(b);
            h.flags == b[0] && h.isReply == b[1] && h.ty == BigEndian(b[2..4])
            && h.id == BigEndian(b[4..8]) && h.error == BigEndian(b[8..12])
            && h.totalSize == BigEndian(b[12..16]) && h.dataSize == BigEndian(b[16..20])
  {
    hide U16Of, U32Of;
    ReadBigEndian(b[2..4]);
    ReadBigEndian(b[4..8]);
    ReadBigEndian(b[8..12]);
    ReadBigEndian(b[12..16]);
    ReadBigEndian(b[16..20]);
  }

  /** Copies `src` into `buf` from position `at`, as a slice copy does. */
  method CopyInto(buf: array<byte>, at: nat, src: bytes)
    requires at + |src| <= buf.Length
    modifies buf
    ensures buf[..] == old(buf[..at]) + src + old(buf[at + |src|..])
  {
    for i := 0 to |src|
      invariant buf[..] == old(buf[..at]) + src[..i] + old(buf[at + i..])
    {
      buf[at + i] := src[i];
    }
  }

  /** Fills a caller's 20-byte buffer with the header, whatever it held before. */
  method WriteBytes(h: FrameHeader, buf: array<byte>)
    requires buf.Length == HEADER_LEN
    modifies buf
    ensures buf[..] == HeaderBytes(h)
    ensures HeaderOf(buf[..]) == h
  {
    buf[0] := h.flags;
    buf[1] := h.isReply;
    CopyInto(buf, 2, U16Bytes(h.ty));
    CopyInto(buf, 4, U32Bytes(h.id));
    CopyInto(buf, 8, U32Bytes(h.error));
    CopyInto(buf, 12, U32Bytes(h.totalSize));
    CopyInto(buf, 16, U32Bytes(h.dataSize));
    HeaderRoundTrip(h, buf[..]);
  }
}

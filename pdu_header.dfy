/**
 * The `CHANNEL_PDU_HEADER` of section 2.2.6.1.1 of [MS-RDPBCGR] that starts every virtual-channel
 * chunk: a little-endian u32 total length followed by a little-endian u32 flags field, and the
 * classification of the flags into the four fragment kinds the reader accepts.
 */
module PduHeader {
  import opened Common

  /** `u32::from_le_bytes` on four bytes. */
  function DecodeU32Le(b: seq<byte>): (x: u32)
    requires |b| == 4
  {
    b[0] as int + 0x100 * (b[1] as int) + 0x1_0000 * (b[2] as int) + 0x100_0000 * (b[3] as int)
  }

  /** `u32::to_le_bytes`: least significant byte first, each byte the remainder of a division by 256. */
  function EncodeU32Le(x: u32): (b: seq<byte>)
    ensures |b| == 4
  {
    var x1 := x / 0x100;
    var x2 := x1 / 0x100;
    [x % 0x100, x1 % 0x100, x2 % 0x100, x2 / 0x100]
  }

  /** One byte and the value above it are recovered by division and remainder by 256. */
  lemma ByteSplit(lo: int, hi: nat)
    requires 0 <= lo < 0x100
    ensures (lo + 0x100 * hi) / 0x100 == hi && (lo + 0x100 * hi) % 0x100 == lo
  {
  }

  /** Decoding the encoding of a u32 gives it back. */
  lemma DecodeEncodeU32(x: u32)
    ensures DecodeU32Le(EncodeU32Le(x)) == x
  {
    var x1 := x / 0x100;
    var x2 := x1 / 0x100;
    assert x == x % 0x100 + 0x100 * x1;
    assert x1 == x1 % 0x100 + 0x100 * x2;
    assert x2 == x2 % 0x100 + 0x100 * (x2 / 0x100);
  }

  /** Encoding the decoding of four bytes gives them back. */
  lemma EncodeDecodeU32(b: seq<byte>)
    requires |b| == 4
    ensures EncodeU32Le(DecodeU32Le(b)) == b
  {
    var hi2 := b[2] as int + 0x100 * (b[3] as int);
    var hi1 := b[1] as int + 0x100 * hi2;
    assert DecodeU32Le(b) == b[0] as int + 0x100 * hi1;
    ByteSplit(b[0] as int, hi1);
    ByteSplit(b[1] as int, hi2);
    ByteSplit(b[2] as int, b[3] as int);
  }

  /** The two fields of a `CHANNEL_PDU_HEADER`. */
  datatype ChannelPduHeader = ChannelPduHeader(length: u32, flags: u32)

  /** Reads the header from the first eight bytes of a fragment buffer. */
  function DecodeHeader(buf: seq<byte>): (h: ChannelPduHeader)
    requires |buf| >= PDU_HEADER_LENGTH
  {
    ChannelPduHeader(DecodeU32Le(buf[..4]), DecodeU32Le(buf[4..8]))
  }

  /** The eight header bytes that carry `h`. */
  function EncodeHeader(h: ChannelPduHeader): (b: seq<byte>)
    ensures |b| == PDU_HEADER_LENGTH
  {
    EncodeU32Le(h.length) + EncodeU32Le(h.flags)
  }

  /** The header a fragment carries is the one that was encoded at its front. */
  lemma DecodeEncodeHeader(h: ChannelPduHeader, payload: seq<byte>)
    ensures DecodeHeader(EncodeHeader(h) + payload) == h
  {
    var buf := EncodeHeader(h) + payload;
    assert buf[..4] == EncodeU32Le(h.length);
    assert buf[4..8] == EncodeU32Le(h.flags);
    DecodeEncodeU32(h.length);
    DecodeEncodeU32(h.flags);
  }

  /** Every eight-byte header is the encoding of what it decodes to. */
  lemma EncodeDecodeHeader(b: seq<byte>)
    requires |b| == PDU_HEADER_LENGTH
    ensures EncodeHeader(DecodeHeader(b)) == b
  {
    EncodeDecodeU32(b[..4]);
    EncodeDecodeU32(b[4..8]);
    assert b == b[..4] + b[4..8];
  }

  /** Only bytes 0 to 7 of a buffer decide its header. */
  lemma DecodeHeaderPrefix(buf: seq<byte>, other: seq<byte>)
    requires |buf| >= PDU_HEADER_LENGTH && |other| >= PDU_HEADER_LENGTH
    requires buf[..PDU_HEADER_LENGTH] == other[..PDU_HEADER_LENGTH]
    ensures DecodeHeader(buf) == DecodeHeader(other)
  {
    assert buf[..4] == buf[..8][..4] && other[..4] == other[..8][..4];
    assert buf[4..8] == buf[..8][4..8] && other[4..8] == other[..8][4..8];
  }

  /** `CHANNEL_FLAG_FIRST` and `CHANNEL_FLAG_LAST`, the two bits the reader looks at. */
  const CHANNEL_FLAG_FIRST: u32 := 0x1
  const CHANNEL_FLAG_LAST: u32 := 0x2

  /** The four fragment kinds: ONLY (FIRST|LAST), FIRST, MIDDLE (no bit) and LAST. */
  datatype FragmentKind = Only | First | Middle | Last {
    /** The loop stops after a fragment of this kind. */
    predicate Terminal() { this == Only || this == Last }
    predicate HasFirstBit() { this == Only || this == First }
    predicate HasLastBit() { this == Only || this == Last }
  }

  /** The flags value that denotes a kind. */
  function FlagsOf(k: FragmentKind): (flags: u32)
    ensures flags < 4
  {
    match k
    case Only => 0x3
    case First => CHANNEL_FLAG_FIRST
    case Middle => 0x0
    case Last => CHANNEL_FLAG_LAST
  }

  /** The match on the flags field; any value other than the four kinds is unsupported. */
  function ClassifyFlags(flags: u32): (k: Option<FragmentKind>)
    ensures k.None? <==> flags >= 4
    ensures k.Some? ==> FlagsOf(k.value) == flags
    ensures k.Some? ==> (k.value.HasFirstBit() <==> flags % 2 == 1)
    ensures k.Some? ==> (k.value.HasLastBit() <==> flags / 2 == 1)
  {
    if flags == 0x3 then Some(Only)
    else if flags == CHANNEL_FLAG_LAST then Some(Last)
    else if flags == CHANNEL_FLAG_FIRST then Some(First)
    else if flags == 0x0 then Some(Middle)
    else None
  }

  /** Each kind is recognised from its own flags value. */
  lemma ClassifyFlagsOf(k: FragmentKind)
    ensures ClassifyFlags(FlagsOf(k)) == Some(k)
  {
  }

  /** A kind is terminal exactly when its flags value has the LAST bit. */
  lemma TerminalIffLastBit(flags: u32)
    requires ClassifyFlags(flags).Some?
    ensures ClassifyFlags(flags).value.Terminal() <==> flags / 2 == 1
  {
  }
}

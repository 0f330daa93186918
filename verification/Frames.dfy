/**
 The wire format: a 24-byte little-endian header followed by the payload, and
 the frame streams built from it.
 */
module Frames {
  import opened Base

  const MAGIC: seq<Byte> := [0x52, 0x53, 0x44, 0x42] // "RSDB"
  const PROTOCOL_VERSION: U16 := 2
  const HEADER_LEN: nat := 24
  const MAX_PAYLOAD_LEN: nat := 16 * 1024 * 1024
  const STREAM_EOF_FLAG: nat := 0x8000_0000
  const STREAM_CHANNEL_MASK: nat := 0xff
  const DEFAULT_STREAM_CHUNK_SIZE: nat := 64 * 1024

  /** The one request id a client connection uses. */
  const REQUEST_ID: U32 := 1

  type U16 = x: int | 0 <= x < 0x1_0000
  type U32 = x: int | 0 <= x < 0x1_0000_0000

  datatype FrameKind = Request | Response | Event | Stream
  datatype StreamChannel = File | Stdin | Stdout | Stderr

  datatype ProtocolError =
    | UnexpectedEof
    | InvalidMagic(found: seq<Byte>)
    | UnsupportedVersion(version: nat)
    | UnknownFrameKind(code: nat)
    | UnknownStreamChannel(code: nat)
    | PayloadTooLarge(len: nat)
    | UnexpectedFrameKind(expected: FrameKind, actual: FrameKind)

  datatype FrameHeader = FrameHeader(version: U16, kind: FrameKind, flags: U32, requestId: U32, payloadLen: U32)
  datatype Frame = Frame(header: FrameHeader, payload: seq<Byte>)
  datatype StreamHeader = StreamHeader(requestId: U32, channel: StreamChannel, eof: bool)

  // ---------------------------------------------------------------------
  // Bits and little-endian integers
  // ---------------------------------------------------------------------

  function BitAnd(a: nat, b: nat): nat
    decreases a
  {
    if a == 0 then 0 else (if a % 2 == 1 && b % 2 == 1 then 1 else 0) + 2 * BitAnd(a / 2, b / 2)
  }

  function BitOr(a: nat, b: nat): nat
    decreases a + b
  {
    if a == 0 && b == 0 then 0
    else (if a % 2 == 1 || b % 2 == 1 then 1 else 0) + 2 * BitOr(a / 2, b / 2)
  }

  function Pow2(k: nat): nat {
    if k == 0 then 1 else 2 * Pow2(k - 1)
  }

  lemma BitAndHalves(a: nat, b: nat)
    ensures BitAnd(a, 2 * b) == 2 * BitAnd(a / 2, b)
    ensures BitAnd(a, 2 * b + 1) == a % 2 + 2 * BitAnd(a / 2, b)
  {
    if a == 0 {
      assert BitAnd(0, b) == 0;
    }
  }

  lemma Pow2Step(k: nat)
    ensures k > 0 ==> Pow2(k) == 2 * Pow2(k - 1)
    ensures Pow2(0) == 1
  {
  }

  /** Masking with 2^k - 1 keeps the low k bits; masking with 2^k tests bit k. */
  lemma {:induction false} BitAndMask(a: nat, k: nat)
    ensures Pow2(k) >= 1
    ensures BitAnd(a, Pow2(k) - 1) == a % Pow2(k)
    ensures BitAnd(a, Pow2(k)) == a / Pow2(k) % 2 * Pow2(k)
    decreases k
  {
    hide *;
    Pow2Step(k);
    if k == 0 {
      MaskLowest(a);
    } else {
      var h := Pow2(k - 1);
      BitAndMask(a / 2, k - 1);
      BitAndHalves(a, h);
      BitAndHalves(a, h - 1);
      HalfMod(a, h);
      DoubleTimes(a / 2 / h % 2, h);
    }
  }

  lemma MaskLowest(a: nat)
    ensures BitAnd(a, 0) == 0 && BitAnd(a, 1) == a % 2
  {
    BitAndZero(a);
    BitAndZero(a / 2);
  }

  lemma DoubleTimes(q: nat, h: nat)
    ensures 2 * (q * h) == q * (2 * h)
  {
  }

  lemma {:induction false} BitAndZero(a: nat)
    ensures BitAnd(a, 0) == 0
  {
    if a != 0 {
      BitAndZero(a / 2);
    }
  }

  lemma HalfMod(a: nat, h: nat)
    requires h >= 1
    ensures a % (2 * h) == a % 2 + 2 * (a / 2 % h)
    ensures a / (2 * h) == a / 2 / h
  {
    var q, r := a / 2 / h, a / 2 % h;
    assert a / 2 == h * q + r;
    assert a == (2 * h) * q + (2 * r + a % 2);
    DivModUnique(a, 2 * h, q, 2 * r + a % 2);
  }

  lemma DivModUnique(a: nat, d: nat, q: nat, r: nat)
    requires a == d * q + r && r < d
    ensures a / d == q && a % d == r
  {
    var q' := a / d;
    if q' != q {
      var gap := if q' < q then q - q' else q' - q;
      MulAtLeast(d, gap);
      MulDistributes(d, q, q');
    }
  }

  lemma MulDistributes(d: nat, q: nat, p: nat)
    ensures d * (q - p) == d * q - d * p && d * (p - q) == d * p - d * q
  {
  }

  lemma MulAtLeast(d: nat, x: nat)
    requires x >= 1
    ensures d * x >= d
  {
    assert d * x == d + d * (x - 1);
  }

  /** Or-ing bit k into a value below 2^k adds it. */
  lemma {:induction false} BitOrDisjoint(a: nat, k: nat)
    requires a < Pow2(k)
    ensures BitOr(a, Pow2(k)) == a + Pow2(k)
    decreases k
  {
    if k == 0 {
      assert BitOr(0, 0) == 0;
    } else {
      BitOrDisjoint(a / 2, k - 1);
    }
  }

  function LittleEndian(v: nat, width: nat): (bytes: seq<Byte>)
    ensures |bytes| == width
  {
    if width == 0 then [] else [v % 256] + LittleEndian(v / 256, width - 1)
  }

  function FromLittleEndian(bytes: seq<Byte>): nat {
    if bytes == [] then 0 else bytes[0] + 256 * FromLittleEndian(bytes[1..])
  }

  function Pow256(k: nat): nat {
    if k == 0 then 1 else 256 * Pow256(k - 1)
  }

  lemma {:induction false} LittleEndianRoundTrip(v: nat, width: nat)
    requires v < Pow256(width)
    ensures FromLittleEndian(LittleEndian(v, width)) == v
  {
    if width != 0 {
      LittleEndianRoundTrip(v / 256, width - 1);
      assert LittleEndian(v, width)[1..] == LittleEndian(v / 256, width - 1);
    }
  }

  lemma {:induction false} FromLittleEndianRoundTrip(bytes: seq<Byte>)
    ensures FromLittleEndian(bytes) < Pow256(|bytes|)
    ensures LittleEndian(FromLittleEndian(bytes), |bytes|) == bytes
  {
    if bytes != [] {
      FromLittleEndianRoundTrip(bytes[1..]);
      assert FromLittleEndian(bytes) / 256 == FromLittleEndian(bytes[1..]);
    }
  }

  lemma Widths()
    ensures Pow256(2) == 0x1_0000 && Pow256(4) == 0x1_0000_0000
  {
    assert Pow256(1) == 256;
    assert Pow256(3) == 0x100_0000;
  }

  // ---------------------------------------------------------------------
  // Headers
  // ---------------------------------------------------------------------

  function KindCode(kind: FrameKind): U16 {
    match kind
    case Request => 1
    case Response => 2
    case Event => 3
    case Stream => 4
  }

  function KindFromCode(code: nat): Result<FrameKind, ProtocolError> {
    if code == 1 then Ok(Request)
    else if code == 2 then Ok(Response)
    else if code == 3 then Ok(Event)
    else if code == 4 then Ok(Stream)
    else Err(UnknownFrameKind(code))
  }

  lemma KindCodes(code: nat)
    ensures KindFromCode(code).Ok? ==> KindCode(KindFromCode(code).value) == code
  {
  }

  function ChannelCode(channel: StreamChannel): nat {
    match channel
    case File => 1
    case Stdin => 2
    case Stdout => 3
    case Stderr => 4
  }

  function ChannelFromCode(code: nat): Result<StreamChannel, ProtocolError> {
    if code == 1 then Ok(File)
    else if code == 2 then Ok(Stdin)
    else if code == 3 then Ok(Stdout)
    else if code == 4 then Ok(Stderr)
    else Err(UnknownStreamChannel(code))
  }

  /** The header's meaningful bytes: everything but the reserved last word. */
  function HeaderFields(h: FrameHeader): (bytes: seq<Byte>)
    ensures |bytes| == 20
  {
    MAGIC + LittleEndian(h.version, 2) + LittleEndian(KindCode(h.kind), 2) + LittleEndian(h.flags, 4)
    + LittleEndian(h.requestId, 4) + LittleEndian(h.payloadLen, 4)
  }

  function EncodeHeader(h: FrameHeader): (bytes: seq<Byte>)
    ensures |bytes| == HEADER_LEN
  {
    HeaderFields(h) + LittleEndian(0, 4)
  }

  function DecodeHeader(bytes: seq<Byte>): Result<FrameHeader, ProtocolError>
    requires |bytes| == HEADER_LEN
  {
    if bytes[0..4] != MAGIC then Err(InvalidMagic(bytes[0..4]))
    else
      var version := FromLittleEndian(bytes[4..6]);
      var kind :- KindFromCode(FromLittleEndian(bytes[6..8]));
      var flags := FromLittleEndian(bytes[8..12]);
      var requestId := FromLittleEndian(bytes[12..16]);
      var payloadLen := FromLittleEndian(bytes[16..20]);
      if version != PROTOCOL_VERSION then Err(UnsupportedVersion(version))
      else if payloadLen > MAX_PAYLOAD_LEN then Err(PayloadTooLarge(payloadLen))
      else
        Word32(bytes[8..12]);
        Word32(bytes[12..16]);
        Ok(FrameHeader(version, kind, flags, requestId, payloadLen))
  }

  lemma Word32(bytes: seq<Byte>)
    requires |bytes| == 4
    ensures FromLittleEndian(bytes) < 0x1_0000_0000
  {
    FromLittleEndianRoundTrip(bytes);
    Widths();
  }

  /** `bytes[|done|..|done| + |field|].copy_from_slice(field)`, with `done` already in place. */
  method CopyNext(bytes: array<Byte>, ghost done: seq<Byte>, at: nat, field: seq<Byte>)
    requires at == |done| && at + |field| <= bytes.Length
    requires bytes[..at] == done
    modifies bytes
    ensures bytes[..at + |field|] == done + field
  {
    for i := 0 to |field|
      invariant bytes[..at + i] == done + field[..i]
    {
      bytes[at + i] := field[i];
      assert bytes[..at + i + 1] == bytes[..at + i] + [field[i]];
    }
  }

  method Encode(h: FrameHeader) returns (bytes: array<Byte>)
    ensures fresh(bytes)
    ensures bytes[..] == EncodeHeader(h)
  {
    bytes := new Byte[HEADER_LEN](_ => 0);
    CopyNext(bytes, [], 0, MAGIC);
    CopyNext(bytes, bytes[..4], 4, LittleEndian(h.version, 2));
    CopyNext(bytes, bytes[..6], 6, LittleEndian(KindCode(h.kind), 2));
    CopyNext(bytes, bytes[..8], 8, LittleEndian(h.flags, 4));
    CopyNext(bytes, bytes[..12], 12, LittleEndian(h.requestId, 4));
    CopyNext(bytes, bytes[..16], 16, LittleEndian(h.payloadLen, 4));
    CopyNext(bytes, bytes[..20], 20, LittleEndian(0, 4));
    assert bytes[..] == bytes[..24];
  }

  /** The decoder undoes the encoder, and says which field it refuses. */
  lemma HeaderRoundTrip(h: FrameHeader)
    ensures DecodeHeader(EncodeHeader(h)) ==
            if h.version != PROTOCOL_VERSION then Err(UnsupportedVersion(h.version))
            else if h.payloadLen > MAX_PAYLOAD_LEN then Err(PayloadTooLarge(h.payloadLen))
            else Ok(h)
  {
    Widths();
    var bytes := EncodeHeader(h);
    assert bytes[4..6] == LittleEndian(h.version, 2);
    assert bytes[6..8] == LittleEndian(KindCode(h.kind), 2);
    assert bytes[8..12] == LittleEndian(h.flags, 4);
    assert bytes[12..16] == LittleEndian(h.requestId, 4);
    assert bytes[16..20] == LittleEndian(h.payloadLen, 4);
    LittleEndianRoundTrip(h.version, 2);
    LittleEndianRoundTrip(KindCode(h.kind), 2);
    LittleEndianRoundTrip(h.flags, 4);
    LittleEndianRoundTrip(h.requestId, 4);
    LittleEndianRoundTrip(h.payloadLen, 4);
  }

  lemma SameFields(a: seq<Byte>, b: seq<Byte>)
    requires |a| == |b| == HEADER_LEN && a[..20] == b[..20]
    ensures DecodeHeader(a) == DecodeHeader(b)
  {
    assert a[0..4] == a[..20][0..4] == b[0..4];
    assert a[4..6] == a[..20][4..6] == b[4..6];
    assert a[6..8] == a[..20][6..8] == b[6..8];
    assert a[8..12] == a[..20][8..12] == b[8..12];
    assert a[12..16] == a[..20][12..16] == b[12..16];
    assert a[16..20] == a[..20][16..20] == b[16..20];
  }

  /** Exactly which 24-byte strings are accepted, and as what: the reserved word is ignored. */
  lemma DecodeAccepts(bytes: seq<Byte>, h: FrameHeader)
    requires |bytes| == HEADER_LEN
    ensures DecodeHeader(bytes) == Ok(h) <==>
            h.version == PROTOCOL_VERSION && h.payloadLen <= MAX_PAYLOAD_LEN && bytes[..20] == HeaderFields(h)
  {
    if bytes[..20] == HeaderFields(h) {
      SameFields(bytes, EncodeHeader(h));
      HeaderRoundTrip(h);
    }
    if DecodeHeader(bytes) == Ok(h) {
      DecodedFields(bytes, h);
    }
  }

  lemma DecodedFields(bytes: seq<Byte>, h: FrameHeader)
    requires |bytes| == HEADER_LEN && DecodeHeader(bytes) == Ok(h)
    ensures bytes[..20] == HeaderFields(h)
  {
    hide FromLittleEndian, LittleEndian;
    KindCodes(FromLittleEndian(bytes[6..8]));
    FromLittleEndianRoundTrip(bytes[4..6]);
    FromLittleEndianRoundTrip(bytes[6..8]);
    FromLittleEndianRoundTrip(bytes[8..12]);
    FromLittleEndianRoundTrip(bytes[12..16]);
    FromLittleEndianRoundTrip(bytes[16..20]);
    assert bytes[..20] == bytes[0..4] + bytes[4..6] + bytes[6..8] + bytes[8..12] + bytes[12..16] + bytes[16..20];
  }

  /** Four bytes, the lowest first. */
  function Word(a: int, b: int, c: int, d: int): int {
    a + 0x100 * b + 0x1_0000 * c + 0x100_0000 * d
  }

  /** A little-endian word, byte by byte. */
  lemma LittleEndianBytes(v: nat)
    ensures v < 0x1_0000 ==> v == Word(LittleEndian(v, 2)[0], LittleEndian(v, 2)[1], 0, 0)
    ensures v < 0x1_0000_0000 ==>
              var b := LittleEndian(v, 4);
              v == Word(b[0], b[1], b[2], b[3])
  {
    var b, x, y, z := LittleEndian(v, 4), v / 256, v / 256 / 256, v / 256 / 256 / 256;
    assert LittleEndian(v, 2)[1..] == LittleEndian(x, 1);
    assert b[1..] == LittleEndian(x, 3) && b[1..][1..] == LittleEndian(y, 2) && b[1..][1..][1..] == LittleEndian(z, 1);
    assert b[0] == v % 256 && b[1] == x % 256 && b[2] == y % 256 && b[3] == z % 256;
  }

  lemma HeaderSlices(h: FrameHeader)
    ensures var b := EncodeHeader(h);
            b[0..4] == MAGIC && b[4..6] == LittleEndian(h.version, 2) && b[6..8] == LittleEndian(KindCode(h.kind), 2) &&
            b[8..12] == LittleEndian(h.flags, 4) && b[12..16] == LittleEndian(h.requestId, 4) &&
            b[16..20] == LittleEndian(h.payloadLen, 4) && b[20..24] == LittleEndian(0, 4)
  {
    hide LittleEndian;
  }

  lemma WordAt(bytes: seq<Byte>, at: nat, v: nat)
    requires at + 4 <= |bytes| && v < 0x1_0000_0000 && bytes[at..at + 4] == LittleEndian(v, 4)
    ensures v == Word(bytes[at], bytes[at + 1], bytes[at + 2], bytes[at + 3])
  {
    LittleEndianBytes(v);
    hide LittleEndian;
    var b := bytes[at..at + 4];
    assert b[0] == bytes[at] && b[1] == bytes[at + 1] && b[2] == bytes[at + 2] && b[3] == bytes[at + 3];
  }

  lemma HalfWordAt(bytes: seq<Byte>, at: nat, v: nat)
    requires at + 2 <= |bytes| && v < 0x1_0000 && bytes[at..at + 2] == LittleEndian(v, 2)
    ensures v == Word(bytes[at], bytes[at + 1], 0, 0)
  {
    LittleEndianBytes(v);
    hide LittleEndian;
    var b := bytes[at..at + 2];
    assert b[0] == bytes[at] && b[1] == bytes[at + 1];
  }

  lemma MagicAt(bytes: seq<Byte>)
    requires |bytes| >= 4 && bytes[0..4] == MAGIC
    ensures bytes[0] == 'R' as int && bytes[1] == 'S' as int && bytes[2] == 'D' as int && bytes[3] == 'B' as int
  {
    var b := bytes[0..4];
    assert b[0] == bytes[0] && b[1] == bytes[1] && b[2] == bytes[2] && b[3] == bytes[3];
  }

  /** What every byte of a header is. */
  lemma HeaderLayout(h: FrameHeader)
    ensures var b := EncodeHeader(h);
            |b| == 24 && b[0] == 'R' as int && b[1] == 'S' as int && b[2] == 'D' as int && b[3] == 'B' as int &&
            h.version == Word(b[4], b[5], 0, 0) &&
            b[6] == (match h.kind case Request => 1 case Response => 2 case Event => 3 case Stream => 4) && b[7] == 0 &&
            h.flags == Word(b[8], b[9], b[10], b[11]) && h.requestId == Word(b[12], b[13], b[14], b[15]) &&
            h.payloadLen == Word(b[16], b[17], b[18], b[19]) && b[20] == b[21] == b[22] == b[23] == 0
  {
    hide *;
    var b := EncodeHeader(h);
    HeaderSlices(h);
    HeaderLength(h);
    MagicAt(b);
    HalfWordAt(b, 4, h.version);
    KindAt(b, h.kind);
    WordAt(b, 8, h.flags);
    WordAt(b, 12, h.requestId);
    WordAt(b, 16, h.payloadLen);
    ZeroAt(b);
  }

  lemma HeaderLength(h: FrameHeader)
    ensures |EncodeHeader(h)| == 24
  {
  }

  lemma KindAt(bytes: seq<Byte>, kind: FrameKind)
    requires |bytes| >= 8 && bytes[6..8] == LittleEndian(KindCode(kind), 2)
    ensures bytes[6] == (match kind case Request => 1 case Response => 2 case Event => 3 case Stream => 4) && bytes[7] == 0
  {
    HalfWordAt(bytes, 6, KindCode(kind));
    SmallWord(bytes[6], bytes[7]);
    hide LittleEndian, Word;
  }

  lemma SmallWord(low: Byte, high: Byte)
    ensures Word(low, high, 0, 0) < 256 ==> high == 0 && Word(low, high, 0, 0) == low
  {
  }

  lemma ZeroAt(bytes: seq<Byte>)
    requires |bytes| >= 24 && bytes[20..24] == LittleEndian(0, 4)
    ensures bytes[20] == bytes[21] == bytes[22] == bytes[23] == 0
  {
    WordAt(bytes, 20, 0);
  }

  // ---------------------------------------------------------------------
  // Stream headers packed into the flags word
  // ---------------------------------------------------------------------

  function StreamFlags(channel: StreamChannel, eof: bool): nat {
    if eof then BitOr(ChannelCode(channel), STREAM_EOF_FLAG) else ChannelCode(channel)
  }

  function DecodeStreamHeader(h: FrameHeader): Result<StreamHeader, ProtocolError> {
    if h.kind != Stream then Err(UnexpectedFrameKind(Stream, h.kind))
    else
      var channel :- ChannelFromCode(BitAnd(h.flags, STREAM_CHANNEL_MASK));
      Ok(StreamHeader(h.requestId, channel, BitAnd(h.flags, STREAM_EOF_FLAG) != 0))
  }

  lemma BitPositions()
    ensures Pow2(8) - 1 == STREAM_CHANNEL_MASK && Pow2(31) == STREAM_EOF_FLAG
  {
    assert Pow2(8) == 256 by {
      assert Pow2(4) == 16;
    }
    assert Pow2(16) == 0x1_0000 by {
      assert Pow2(12) == 16 * Pow2(8);
    }
    assert Pow2(24) == 0x100_0000 by {
      assert Pow2(20) == 16 * Pow2(16);
    }
    assert Pow2(28) == 16 * Pow2(24);
  }

  /** What the packed bits mean: the low byte names the channel, bit 31 is EOF, the rest is ignored. */
  lemma StreamFlagBits(h: FrameHeader)
    requires h.kind == Stream
    ensures DecodeStreamHeader(h) ==
            match ChannelFromCode(h.flags % 256)
            case Err(e) => Err(e)
            case Ok(channel) => Ok(StreamHeader(h.requestId, channel, h.flags >= STREAM_EOF_FLAG))
  {
    BitPositions();
    BitAndMask(h.flags, 8);
    BitAndMask(h.flags, 31);
    assert h.flags / STREAM_EOF_FLAG == if h.flags >= STREAM_EOF_FLAG then 1 else 0;
  }

  lemma StreamFlagsValue(channel: StreamChannel, eof: bool)
    ensures StreamFlags(channel, eof) == ChannelCode(channel) + if eof then STREAM_EOF_FLAG else 0
    ensures StreamFlags(channel, eof) < 0x1_0000_0000
  {
    BitPositions();
    BitOrDisjoint(ChannelCode(channel), 31);
  }

  /** The flags of a stream frame: the channel's number, and bit 31 for EOF. */
  lemma StreamFlagsExact(channel: StreamChannel, eof: bool)
    ensures StreamFlags(channel, eof) ==
            (match channel case File => 1 case Stdin => 2 case Stdout => 3 case Stderr => 4) + if eof then 0x8000_0000 else 0
  {
    StreamFlagsValue(channel, eof);
  }

  // ---------------------------------------------------------------------
  // Frames
  // ---------------------------------------------------------------------

  /** A frame the writers below can put on the wire. */
  predicate Sendable(f: Frame) {
    f.header.version == PROTOCOL_VERSION && f.header.payloadLen == |f.payload| <= MAX_PAYLOAD_LEN
  }

  function ControlFrame(kind: FrameKind, requestId: U32, payload: seq<Byte>): (f: Frame)
    requires |payload| <= MAX_PAYLOAD_LEN
    ensures Sendable(f)
  {
    Frame(FrameHeader(PROTOCOL_VERSION, kind, 0, requestId, |payload|), payload)
  }

  function StreamFrame(requestId: U32, channel: StreamChannel, eof: bool, payload: seq<Byte>): (f: Frame)
    requires |payload| <= MAX_PAYLOAD_LEN
    ensures Sendable(f)
  {
    StreamFlagsValue(channel, eof);
    Frame(FrameHeader(PROTOCOL_VERSION, Stream, StreamFlags(channel, eof), requestId, |payload|), payload)
  }

  lemma StreamHeaderRoundTrip(requestId: U32, channel: StreamChannel, eof: bool, payload: seq<Byte>)
    requires |payload| <= MAX_PAYLOAD_LEN
    ensures DecodeStreamHeader(StreamFrame(requestId, channel, eof, payload).header)
         == Ok(StreamHeader(requestId, channel, eof))
  {
    hide BitOr, BitAnd, DecodeStreamHeader;
    StreamFlagsValue(channel, eof);
    UnpackFlags(StreamFrame(requestId, channel, eof, payload).header, channel, eof);
  }

  lemma UnpackFlags(h: FrameHeader, channel: StreamChannel, eof: bool)
    requires h.kind == Stream && h.flags == ChannelCode(channel) + if eof then STREAM_EOF_FLAG else 0
    ensures DecodeStreamHeader(h) == Ok(StreamHeader(h.requestId, channel, eof))
  {
    hide BitAnd;
    StreamFlagBits(h);
    assert ChannelFromCode(h.flags % 256) == Ok(channel);
  }

  function EncodeFrame(f: Frame): seq<Byte> {
    EncodeHeader(f.header) + f.payload
  }

  /** The bytes of a run of frames. */
  function Wire(frames: seq<Frame>): seq<Byte> {
    if frames == [] then [] else EncodeFrame(frames[0]) + Wire(frames[1..])
  }

  /** One frame off the front of `input`, with what is left. */
  function ReadFrame(input: seq<Byte>): (r: Result<(Frame, seq<Byte>), ProtocolError>)
    ensures r.Ok? ==> |r.value.1| + HEADER_LEN + |r.value.0.payload| == |input|
  {
    if |input| < HEADER_LEN then Err(UnexpectedEof)
    else
      var header :- DecodeHeader(input[..HEADER_LEN]);
      var end := HEADER_LEN + header.payloadLen;
      if |input| < end then Err(UnexpectedEof)
      else Ok((Frame(header, input[HEADER_LEN..end]), input[end..]))
  }

  datatype Incoming = Incoming(frames: seq<Frame>, error: ProtocolError)

  /** Everything a reader that keeps reading gets: the good frames, then the error that stops it. */
  function ReadAll(input: seq<Byte>): Incoming
    decreases |input|
  {
    match ReadFrame(input)
    case Err(e) => Incoming([], e)
    case Ok((frame, rest)) =>
      var later := ReadAll(rest);
      Incoming([frame] + later.frames, later.error)
  }

  lemma ReadFrameEncoded(f: Frame, tail: seq<Byte>)
    requires Sendable(f)
    ensures ReadFrame(EncodeFrame(f) + tail) == Ok((f, tail))
  {
    HeaderRoundTrip(f.header);
    var input := EncodeFrame(f) + tail;
    assert input[..HEADER_LEN] == EncodeHeader(f.header);
    assert input[HEADER_LEN..HEADER_LEN + |f.payload|] == f.payload;
    assert input[HEADER_LEN + |f.payload|..] == tail;
  }

  /** Reading past one encoded frame. */
  lemma ReadAllStep(f: Frame, tail: seq<Byte>)
    requires Sendable(f)
    ensures ReadAll(EncodeFrame(f) + tail) == Incoming([f] + ReadAll(tail).frames, ReadAll(tail).error)
  {
    ReadFrameEncoded(f, tail);
  }

  lemma {:induction false} ReadAllWire(frames: seq<Frame>, tail: seq<Byte>)
    requires forall f | f in frames :: Sendable(f)
    ensures ReadAll(Wire(frames) + tail) == Incoming(frames + ReadAll(tail).frames, ReadAll(tail).error)
  {
    hide ReadAll, EncodeFrame, Sendable;
    if frames == [] {
      assert Wire(frames) + tail == tail;
      assert frames + ReadAll(tail).frames == ReadAll(tail).frames;
    } else {
      var later := Wire(frames[1..]) + tail;
      assert Wire(frames) + tail == EncodeFrame(frames[0]) + later;
      ReadAllStep(frames[0], later);
      ReadAllWire(frames[1..], tail);
      assert [frames[0]] + (frames[1..] + ReadAll(tail).frames) == frames + ReadAll(tail).frames;
    }
  }

  lemma WireOne(f: Frame)
    ensures Wire([f]) == EncodeFrame(f)
  {
    assert [f][1..] == [];
    assert EncodeFrame(f) + [] == EncodeFrame(f);
  }

  lemma {:induction false} WireAppend(a: seq<Frame>, b: seq<Frame>)
    ensures Wire(a + b) == Wire(a) + Wire(b)
  {
    if a == [] {
      assert a + b == b;
    } else {
      assert (a + b)[1..] == a[1..] + b;
      WireAppend(a[1..], b);
    }
  }

  /** How many leading frames lie wholly within the first `n` bytes. */
  function WholeFrames(frames: seq<Frame>, n: nat): (k: nat)
    ensures k <= |frames|
  {
    if frames == [] || n < |EncodeFrame(frames[0])| then 0
    else 1 + WholeFrames(frames[1..], n - |EncodeFrame(frames[0])|)
  }

  /** The count is right: those frames fit within the bytes and one more would not. */
  lemma {:induction false} WholeFramesFit(frames: seq<Frame>, n: nat)
    ensures var k := WholeFrames(frames, n);
            |Wire(frames[..k])| <= n && (k < |frames| ==> n < |Wire(frames[..k + 1])|)
  {
    hide EncodeFrame;
    var k := WholeFrames(frames, n);
    if k == 0 {
      assert frames != [] ==> frames[..1][1..] == [];
    } else {
      WholeFramesFit(frames[1..], n - |EncodeFrame(frames[0])|);
      assert frames[..k][1..] == frames[1..][..k - 1];
      assert k < |frames| ==> frames[..k + 1][1..] == frames[1..][..k];
    }
  }

  lemma ReadAllNothing()
    ensures ReadAll([]) == Incoming([], UnexpectedEof)
  {
  }

  lemma ReadAllCutFirst(f: Frame, input: seq<Byte>)
    requires Sendable(f)
    requires |input| < |EncodeFrame(f)| && input == EncodeFrame(f)[..|input|]
    ensures ReadAll(input) == Incoming([], UnexpectedEof)
  {
    if |input| >= HEADER_LEN {
      assert input[..HEADER_LEN] == EncodeHeader(f.header);
      HeaderRoundTrip(f.header);
    }
  }

  /** A stream cut after any number of bytes yields the frames before the cut, then UnexpectedEof. */
  lemma {:induction false} ReadAllCut(frames: seq<Frame>, n: nat)
    requires forall f | f in frames :: Sendable(f)
    requires n <= |Wire(frames)|
    ensures ReadAll(Wire(frames)[..n]) == Incoming(frames[..WholeFrames(frames, n)], UnexpectedEof)
  {
    hide ReadAll, EncodeFrame, Sendable;
    if frames == [] {
      ReadAllNothing();
      assert Wire(frames)[..n] == [];
    } else {
      var first := EncodeFrame(frames[0]);
      var input := Wire(frames)[..n];
      if n < |first| {
        assert input == first[..n];
        ReadAllCutFirst(frames[0], input);
      } else {
        var rest := Wire(frames[1..])[..n - |first|];
        assert input == first + rest;
        ReadAllStep(frames[0], rest);
        ReadAllCut(frames[1..], n - |first|);
      }
    }
  }

  // ---------------------------------------------------------------------
  // Reading and writing against connection state
  // ---------------------------------------------------------------------

  /** What is out and what is buffered after writing `bytes` through a buffer. */
  function Put(capacity: nat, output: seq<Byte>, buffer: seq<Byte>, bytes: seq<Byte>): (seq<Byte>, seq<Byte>) {
    var (out, held) := if |buffer| + |bytes| > capacity then (output + buffer, []) else (output, buffer);
    if |bytes| >= capacity then (out + bytes, held) else (out, held + bytes)
  }

  /** A frame is written in two pieces. */
  function PutFrame(capacity: nat, output: seq<Byte>, buffer: seq<Byte>, f: Frame): (seq<Byte>, seq<Byte>) {
    var (out, held) := Put(capacity, output, buffer, EncodeHeader(f.header));
    Put(capacity, out, held, f.payload)
  }

  /** The write half of a connection, possibly behind a buffer of some capacity. */
  class Writer {
    var output: seq<Byte>
    var buffer: seq<Byte>
    var capacity: nat

    constructor ()
      ensures output == [] && buffer == [] && capacity == 0
    {
      output, buffer, capacity := [], [], 0;
    }

    /** Everything written, whether or not it has left the buffer. */
    ghost function All(): seq<Byte>
      reads this
    {
      output + buffer
    }

    /** A write that does not fit empties the buffer first; one as large as the buffer goes around it. */
    method WriteAll(bytes: seq<Byte>)
      modifies this`output, this`buffer
      ensures (output, buffer) == Put(capacity, old(output), old(buffer), bytes)
      ensures All() == old(All()) + bytes
      ensures output == old(output) || output == old(All()) || (output == All() && buffer == [])
      ensures capacity == 0 ==> buffer == []
    {
      if |buffer| + |bytes| > capacity {
        Flush();
      }
      if |bytes| >= capacity {
        output := output + bytes;
      } else {
        buffer := buffer + bytes;
        assert output + buffer == old(output + buffer) + bytes;
      }
    }

    method Flush()
      modifies this`output, this`buffer
      ensures output == old(output) + old(buffer) && buffer == []
    {
      output, buffer := output + buffer, [];
    }

    /** Dropping an unflushed buffer loses what it holds. */
    method Drop()
      modifies this`buffer, this`capacity
      ensures buffer == [] && capacity == 0
    {
      buffer, capacity := [], 0;
    }
  }

  /** The read half of a connection: what has not been read yet. */
  class Reader {
    var input: seq<Byte>

    constructor (bytes: seq<Byte>)
      ensures input == bytes
    {
      input := bytes;
    }
  }

  /** A growable byte buffer that callers reuse. */
  class Buffer {
    var bytes: seq<Byte>

    constructor ()
      ensures bytes == []
    {
      bytes := [];
    }

    method Resize(len: nat)
      modifies this
      ensures |bytes| == len
    {
      bytes := if len <= |bytes| then bytes[..len] else bytes + seq(len - |bytes|, _ => 0);
    }
  }

  /** What a frame write may leave on the connection: nothing new, all but this frame, up to its header, or all. */
  ghost predicate CutAtWrites(output0: seq<Byte>, all0: seq<Byte>, f: Frame, output: seq<Byte>, all: seq<Byte>) {
    output == output0 || output == all0 || output == all0 + EncodeHeader(f.header) || output == all
  }

  method WriteFrame(writer: Writer, kind: FrameKind, requestId: U32, payload: seq<Byte>)
    returns (r: Result<(), ProtocolError>)
    modifies writer`output, writer`buffer
    ensures |payload| > MAX_PAYLOAD_LEN ==> r == Err(PayloadTooLarge(|payload|)) && writer.All() == old(writer.All())
    ensures |payload| <= MAX_PAYLOAD_LEN ==>
              var f := ControlFrame(kind, requestId, payload);
              r == Ok(()) && writer.All() == old(writer.All()) + EncodeFrame(f) &&
              CutAtWrites(old(writer.output), old(writer.All()), f, writer.output, writer.All())
    ensures r.Ok? && writer.capacity == 0 ==> writer.buffer == []
  {
    if |payload| > MAX_PAYLOAD_LEN {
      return Err(PayloadTooLarge(|payload|));
    }
    var header := Encode(FrameHeader(PROTOCOL_VERSION, kind, 0, requestId, |payload|));
    writer.WriteAll(header[..]);
    writer.WriteAll(payload);
    r := Ok(());
  }

  method WriteStreamFrame(writer: Writer, requestId: U32, channel: StreamChannel, eof: bool, payload: seq<Byte>)
    returns (r: Result<(), ProtocolError>)
    modifies writer`output, writer`buffer
    ensures |payload| > MAX_PAYLOAD_LEN ==> r == Err(PayloadTooLarge(|payload|)) && writer.All() == old(writer.All())
    ensures |payload| <= MAX_PAYLOAD_LEN ==>
              var f := StreamFrame(requestId, channel, eof, payload);
              r == Ok(()) && writer.All() == old(writer.All()) + EncodeFrame(f) &&
              CutAtWrites(old(writer.output), old(writer.All()), f, writer.output, writer.All()) &&
              (writer.output, writer.buffer) == PutFrame(writer.capacity, old(writer.output), old(writer.buffer), f)
    ensures r.Ok? && writer.capacity == 0 ==> writer.buffer == []
  {
    hide BitOr, EncodeHeader;
    var flags := ChannelCode(channel);
    if eof {
      flags := BitOr(flags, STREAM_EOF_FLAG);
    }
    if |payload| > MAX_PAYLOAD_LEN {
      return Err(PayloadTooLarge(|payload|));
    }
    StreamFlagsValue(channel, eof);
    var header := Encode(FrameHeader(PROTOCOL_VERSION, Stream, flags, requestId, |payload|));
    writer.WriteAll(header[..]);
    writer.WriteAll(payload);
    r := Ok(());
  }

  /** Overwrites the whole buffer from the stream; a short stream leaves a partial fill and fails. */
  method ReadExact(reader: Reader, buffer: Buffer) returns (r: Result<(), ProtocolError>)
    modifies reader, buffer
    ensures |old(reader.input)| < |old(buffer.bytes)| ==> r == Err(UnexpectedEof) && reader.input == []
    ensures |old(reader.input)| >= |old(buffer.bytes)| ==>
              r == Ok(()) && buffer.bytes == old(reader.input)[..|old(buffer.bytes)|] &&
              reader.input == old(reader.input)[|old(buffer.bytes)|..]
  {
    var len := |buffer.bytes|;
    if |reader.input| < len {
      buffer.bytes := reader.input + buffer.bytes[|reader.input|..];
      reader.input := [];
      return Err(UnexpectedEof);
    }
    buffer.bytes := reader.input[..len];
    reader.input := reader.input[len..];
    r := Ok(());
  }

  /** Whatever the reused buffer held before, the outcome is that of ReadFrame. */
  method ReadFrameInto(reader: Reader, payload: Buffer) returns (r: Result<FrameHeader, ProtocolError>)
    modifies reader, payload
    ensures match ReadFrame(old(reader.input))
            case Ok((frame, rest)) => r == Ok(frame.header) && payload.bytes == frame.payload && reader.input == rest
            case Err(e) => r == Err(e)
  {
    var headerBytes := new Buffer();
    headerBytes.Resize(HEADER_LEN);
    var got := ReadExact(reader, headerBytes);
    if got.Err? {
      return Err(got.error);
    }
    r := DecodeHeader(headerBytes.bytes);
    if r.Err? {
      return;
    }
    payload.Resize(r.value.payloadLen);
    got := ReadExact(reader, payload);
    if got.Err? {
      return Err(got.error);
    }
  }
}

/**
 * The frame codec of the market-data client: decoding one 17-byte record frame into a
 * StockTickerData record, the big-endian int32 reader it uses, and the two request payloads
 * the client writes (stream-all and resend). Encoders are the server's side of the wire
 * format; they are here only so that the decoders can be proved against their inverse.
 */
module FrameCodec {
  import opened Wrappers

  /** A C# `byte`: an unsigned 8-bit value. */
  type byte = b: int | 0 <= b < 0x100

  /** A C# `int`: a signed 32-bit two's-complement value. */
  type int32 = x: int | -0x8000_0000 <= x < 0x8000_0000

  /** Size of one record frame: 4 symbol bytes, 1 side byte, three 4-byte integers. */
  const FrameLength: nat := 17

  /** What one read of the record stream delivers: a whole frame. */
  type Frame = s: seq<byte> | |s| == 17 witness seq(17, _ => 0)

  /**
   * One trade record. Symbol and side are kept as the raw bytes the frame carries
   * (the client turns them into ASCII strings).
   */
  datatype StockTickerData = StockTickerData(
    Symbol: seq<byte>,
    BuySellIndicator: seq<byte>,
    Quantity: int32,
    Price: int32,
    PacketSequence: int32)

  /** A record that can travel in one frame: a 4-byte symbol and a 1-byte side. */
  predicate WellFormed(r: StockTickerData) {
    |r.Symbol| == 4 && |r.BuySellIndicator| == 1
  }

  /** The unsigned number four bytes spell, most significant first. */
  function BigEndianValue(b0: byte, b1: byte, b2: byte, b3: byte): nat {
    b0 * 0x100_0000 + b1 * 0x1_0000 + b2 * 0x100 + b3
  }

  /**
   * `Utility.ToInt32BigEndian`: `(buf[i] << 24) | (buf[i+1] << 16) | (buf[i+2] << 8) | buf[i+3]`
   * in C# `int` arithmetic. The four shifted bytes occupy disjoint bits, so the `|` is a sum;
   * a top byte of 0x80 or more lands in the sign bit, so the 32-bit pattern is read as two's complement.
   */
  function ToInt32BigEndian(buf: seq<byte>, i: nat): (r: int32)
    requires i + 4 <= |buf|
    ensures (r - BigEndianValue(buf[i], buf[i + 1], buf[i + 2], buf[i + 3])) % 0x1_0000_0000 == 0
    ensures r < 0 <==> buf[i] >= 0x80
  {
    var u := BigEndianValue(buf[i], buf[i + 1], buf[i + 2], buf[i + 3]);
    if u < 0x8000_0000 then u else u - 0x1_0000_0000
  }

  /** The server's side: the four bytes of a two's-complement int32, most significant first. */
  function EncodeInt32BigEndian(x: int32): (b: seq<byte>)
    ensures |b| == 4
  {
    var u := if x < 0 then x + 0x1_0000_0000 else x;
    [u / 0x100_0000, u / 0x1_0000 % 0x100, u / 0x100 % 0x100, u % 0x100]
  }

  /** Reading back the encoding of any int32 gives the same value. */
  lemma Int32RoundTrip(x: int32)
    ensures ToInt32BigEndian(EncodeInt32BigEndian(x), 0) == x
  {
    var u := if x < 0 then x + 0x1_0000_0000 else x;
    var b := EncodeInt32BigEndian(x);
    DigitsOf(u);
    assert BigEndianValue(b[0], b[1], b[2], b[3]) == u;
  }

  /** Encoding the value of any four bytes gives back those bytes. */
  lemma BytesRoundTrip(b: seq<byte>)
    requires |b| == 4
    ensures EncodeInt32BigEndian(ToInt32BigEndian(b, 0)) == b
  {
    var u := BigEndianValue(b[0], b[1], b[2], b[3]);
    ValueOfDigits(b[0], b[1], b[2], b[3]);
    var e := EncodeInt32BigEndian(ToInt32BigEndian(b, 0));
    assert e[0] == b[0] && e[1] == b[1] && e[2] == b[2] && e[3] == b[3];
  }

  /** A number below 2^32 is the big-endian value of its four base-256 digits. */
  lemma DigitsOf(u: nat)
    requires u < 0x1_0000_0000
    ensures u / 0x100_0000 < 0x100
    ensures BigEndianValue(u / 0x100_0000, u / 0x1_0000 % 0x100, u / 0x100 % 0x100, u % 0x100) == u
  {
    var q1 := u / 0x100;
    var q2 := q1 / 0x100;
    var q3 := q2 / 0x100;
    assert u == q1 * 0x100 + u % 0x100;
    assert q1 == q2 * 0x100 + q1 % 0x100;
    assert q2 == q3 * 0x100 + q2 % 0x100;
    assert u / 0x1_0000 == q2;
    assert u / 0x100_0000 == q3;
  }

  /** The base-256 digits of a big-endian value are the bytes it was built from. */
  lemma ValueOfDigits(b0: byte, b1: byte, b2: byte, b3: byte)
    ensures var u := BigEndianValue(b0, b1, b2, b3);
      u / 0x100_0000 == b0 && u / 0x1_0000 % 0x100 == b1 && u / 0x100 % 0x100 == b2 && u % 0x100 == b3
  {
    var u := BigEndianValue(b0, b1, b2, b3);
    assert u == ((b0 * 0x100 + b1) * 0x100 + b2) * 0x100 + b3;
    assert u / 0x100 == (b0 * 0x100 + b1) * 0x100 + b2;
    assert u / 0x1_0000 == b0 * 0x100 + b1;
    assert u / 0x100_0000 == b0;
  }

  /**
   * `Utility.ExtractStockDataFromBuffer`: no record for a null buffer or one shorter than a
   * frame; otherwise symbol from bytes 0-3, side from byte 4, and quantity, price and sequence
   * as big-endian int32 from bytes 5-8, 9-12 and 13-16. Bytes past the frame are not read.
   */
  function ExtractStockDataFromBuffer(buffer: Option<seq<byte>>): (r: Option<StockTickerData>)
    ensures r.None? <==> buffer.None? || |buffer.value| < FrameLength
    ensures r.Some? ==> WellFormed(r.value)
  {
    if buffer.None? || |buffer.value| < FrameLength then None
    else
      var buf := buffer.value;
      Some(StockTickerData(
        buf[0..4],
        buf[4..5],
        ToInt32BigEndian(buf, 5),
        ToInt32BigEndian(buf, 9),
        ToInt32BigEndian(buf, 13)))
  }

  /** The server's side: the frame that carries a record. */
  function EncodeFrame(r: StockTickerData): (f: Frame)
    requires WellFormed(r)
  {
    r.Symbol + r.BuySellIndicator
      + EncodeInt32BigEndian(r.Quantity) + EncodeInt32BigEndian(r.Price) + EncodeInt32BigEndian(r.PacketSequence)
  }

  /** Decoding the frame of a record gives that record back. */
  lemma FrameRoundTrip(r: StockTickerData)
    requires WellFormed(r)
    ensures ExtractStockDataFromBuffer(Some(EncodeFrame(r))) == Some(r)
  {
    var f := EncodeFrame(r);
    Int32RoundTrip(r.Quantity);
    Int32RoundTrip(r.Price);
    Int32RoundTrip(r.PacketSequence);
    assert f[5..9] == EncodeInt32BigEndian(r.Quantity);
    assert f[9..13] == EncodeInt32BigEndian(r.Price);
    assert f[13..17] == EncodeInt32BigEndian(r.PacketSequence);
    assert ToInt32BigEndian(f, 5) == ToInt32BigEndian(f[5..9], 0);
    assert ToInt32BigEndian(f, 9) == ToInt32BigEndian(f[9..13], 0);
    assert ToInt32BigEndian(f, 13) == ToInt32BigEndian(f[13..17], 0);
    assert f[0..4] == r.Symbol && f[4..5] == r.BuySellIndicator;
  }

  /**
   * Every buffer of at least a frame's length decodes to the record whose frame is exactly its
   * first 17 bytes: the fields come from fixed byte ranges and the bytes after them are ignored.
   */
  lemma FrameReencode(buf: seq<byte>)
    requires |buf| >= FrameLength
    ensures var r := ExtractStockDataFromBuffer(Some(buf));
      r.Some? && EncodeFrame(r.value) == buf[..FrameLength]
  {
    FieldReencodes(buf, 5);
    FieldReencodes(buf, 9);
    FieldReencodes(buf, 13);
    assert buf[..FrameLength] == buf[0..4] + buf[4..5] + buf[5..9] + buf[9..13] + buf[13..17];
  }

  /** The integer field at offset i re-encodes to the four bytes it was read from. */
  lemma FieldReencodes(buf: seq<byte>, i: nat)
    requires i + 4 <= |buf|
    ensures EncodeInt32BigEndian(ToInt32BigEndian(buf, i)) == buf[i..i + 4]
  {
    BytesRoundTrip(buf[i..i + 4]);
    assert ToInt32BigEndian(buf, i) == ToInt32BigEndian(buf[i..i + 4], 0);
  }

  /** Two buffers that agree on their first 17 bytes decode to the same record. */
  lemma ExtractIgnoresTrailingBytes(a: seq<byte>, b: seq<byte>)
    requires |a| >= FrameLength && |b| >= FrameLength
    requires a[..FrameLength] == b[..FrameLength]
    ensures ExtractStockDataFromBuffer(Some(a)) == ExtractStockDataFromBuffer(Some(b))
  {
    FrameReencode(a);
    FrameReencode(b);
    var ra := ExtractStockDataFromBuffer(Some(a)).value;
    var rb := ExtractStockDataFromBuffer(Some(b)).value;
    FrameRoundTrip(ra);
    FrameRoundTrip(rb);
  }

  /**
   * The byte a C# `(byte)` cast keeps: the low eight bits of the two's-complement pattern,
   * which is the one byte value congruent to x modulo 256.
   */
  function LowByte(x: int): (b: byte)
    ensures (x - b) % 0x100 == 0
  {
    var b := x % 0x100;
    assert x - b == (x / 0x100) * 0x100;
    b
  }

  /** Two numbers differ by a multiple of 256 exactly when their low bytes agree. */
  lemma SameLowByte(x: int, y: int)
    ensures (x - y) % 0x100 == 0 <==> LowByte(x) == LowByte(y)
  {
    var lowX: int, lowY: int := LowByte(x), LowByte(y);
    var p: int, q: int := (x - lowX) / 0x100, (y - lowY) / 0x100;
    assert x - lowX == p * 0x100;
    assert y - lowY == q * 0x100;
    var m: int := (x - y) / 0x100;
    assert x - y == m * 0x100 + (x - y) % 0x100;
    assert x - y == (p - q) * 0x100 + (lowX - lowY);
  }

  /**
   * `Utility.GetMostSignificantByte`: splits the number into its four bytes, most significant
   * first (an arithmetic `>>` is a floor division), and returns the LAST one, the low-order byte.
   */
  function GetMostSignificantByte(number: int32): (r: byte)
    ensures (number - r) % 0x100 == 0
  {
    var bytes := [LowByte(number / 0x100_0000), LowByte(number / 0x1_0000), LowByte(number / 0x100), LowByte(number)];
    bytes[3]
  }

  /** The byte the function's name promises: the top byte of the two's-complement pattern. */
  function MostSignificantByte(number: int32): byte {
    LowByte(number / 0x100_0000)
  }

  /** The selector is the number itself exactly when the number fits in one unsigned byte. */
  lemma SelectorIsExactOnlyForBytes(number: int32)
    ensures GetMostSignificantByte(number) == number <==> 0 <= number < 0x100
  {
  }

  /** Two numbers get the same selector exactly when they are congruent modulo 256. */
  lemma SelectorsCollide(s: int32, t: int32)
    ensures GetMostSignificantByte(s) == GetMostSignificantByte(t) <==> (s - t) % 0x100 == 0
  {
    SameLowByte(s, t);
  }

  /** The name is not what the code does: for 300 (0x0000012C) the selector is 44, the top byte 0. */
  lemma SelectorOf300()
    ensures GetMostSignificantByte(300) == 44
    ensures MostSignificantByte(300) == 0
  {
  }

  /** Opcode 1, no payload: ask the server to stream every record. */
  const StreamAllRequest: seq<byte> := [1]

  /**
   * Opcode 2 and a one-byte selector: ask the server to resend one record. The selector is
   * the sequence number modulo 256.
   */
  function ResendRequest(sequence: int32): (r: seq<byte>)
    ensures |r| == 2 && r[0] == 2
    ensures (sequence - r[1]) % 0x100 == 0
  {
    [2, GetMostSignificantByte(sequence)]
  }

  /** The request for a sequence names it exactly when the sequence fits in the selector byte. */
  lemma ResendRequestNamesSequence(sequence: int32)
    ensures ResendRequest(sequence) == [2, sequence] <==> 0 <= sequence < 0x100
  {
    SelectorIsExactOnlyForBytes(sequence);
  }

  /** Two sequences are requested with the same bytes exactly when they agree modulo 256. */
  lemma ResendRequestsCollide(s: int32, t: int32)
    ensures ResendRequest(s) == ResendRequest(t) <==> (s - t) % 0x100 == 0
  {
    SelectorsCollide(s, t);
  }
}

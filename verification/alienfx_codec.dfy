/**
 * The AlienFX M11x command codec: the four fixed 9-byte commands of the
 * driver and the encoder that fills the shared set-colour buffer.
 *
 * The driver computes bytes with C shifts and masks on `int` values. Here a
 * C `int` is read through its 32-bit two's-complement pattern (`Bits32`), so
 * the byte fields come out exactly as the shifts produce them, negative
 * colours included. This relies on the compiler the kernel is built with
 * (GCC): `>>` on a negative `int` is arithmetic, and `<<` of a negative
 * `int` yields its two's-complement pattern shifted. ISO C leaves the first
 * implementation-defined and the second undefined.
 */
module AlienFxCodec {
  import opened Wrappers
  import opened Bytes

  /** A command buffer as handed to the transport. */
  type Packet = seq<uint8>

  /** Every AlienFX command is one 9-byte output report. */
  const PacketSize: nat := 9

  /** Byte 0 of every command: the report id. */
  const ReportId: uint8 := 0x02

  const OpSetColor: uint8 := 0x03
  const OpLoop: uint8 := 0x04
  const OpTrExec: uint8 := 0x05
  const OpReset: uint8 := 0x07

  /** `CMD_RESET`: reset with argument 0x04 (all lights on). */
  const CmdReset: Packet := [0x02, 0x07, 0x04, 0x00, 0x00, 0x00, 0x00, 0x00, 0x00]

  /** `CMD_TR_EXEC`: commit the accumulated transaction. */
  const CmdTrExec: Packet := [0x02, 0x05, 0x00, 0x00, 0x00, 0x00, 0x00, 0x00, 0x00]

  /** `CMD_LOOP`: end of one zone's colour definition. */
  const CmdLoop: Packet := [0x02, 0x04, 0x00, 0x00, 0x00, 0x00, 0x00, 0x00, 0x00]

  /** Initial contents of the global `CMD_SET_COL` buffer. */
  const CmdSetColInit: Packet := [0x02, 0x03, 0x00, 0x00, 0x00, 0x00, 0x00, 0x00, 0x00]

  /** The 32-bit two's-complement pattern of a C `int`, read as unsigned. */
  function Bits32(x: int): (r: nat)
    ensures r < 0x1_0000_0000
    ensures 0 <= x < 0x1_0000_0000 ==> r == x
    ensures -0x8000_0000 <= x < 0 ==> r == x + 0x1_0000_0000
  {
    x % 0x1_0000_0000
  }

  /** `(region >> 16) & 0xff` */
  function RegionHi(region: int): uint8 {
    (Bits32(region) / 0x1_0000) % 0x100
  }

  /** `(region >> 8) & 0xff` */
  function RegionMid(region: int): uint8 {
    (Bits32(region) / 0x100) % 0x100
  }

  /** `region & 0xff` */
  function RegionLo(region: int): uint8 {
    Bits32(region) % 0x100
  }

  /** `(color >> 4) & 0xff`: colour bits 4..11. */
  function ColorHi(color: int): uint8 {
    (Bits32(color) / 0x10) % 0x100
  }

  /** `(color << 4) & 0xf0`: colour bits 0..3, moved to the high nibble. */
  function ColorLo(color: int): uint8 {
    (Bits32(color) % 0x10) * 0x10
  }

  /** The 24-bit region read back from bytes 3, 4 and 5 (big-endian). */
  function RegionOf(hi: uint8, mid: uint8, lo: uint8): nat {
    hi * 0x1_0000 + mid * 0x100 + lo
  }

  /**
   * The 12-bit colour read back from bytes 6 and 7, `(b6 << 4) | (b7 >> 4)`;
   * the two parts occupy disjoint bits, so the bitwise or is a sum.
   */
  function ColorOf(b6: uint8, b7: uint8): nat {
    b6 * 0x10 + b7 / 0x10
  }

  /** Quotient and remainder by 2^16 are determined by any decomposition with a remainder in range. */
  lemma DivMod16Bits(x: nat, q: nat, r: nat)
    requires x == 0x1_0000 * q + r && r < 0x1_0000
    ensures x / 0x1_0000 == q && x % 0x1_0000 == r
  {
  }

  /** Quotient and remainder by 2^24 are determined by any decomposition with a remainder in range. */
  lemma DivMod24Bits(x: nat, q: nat, r: nat)
    requires x == 0x100_0000 * q + r && r < 0x100_0000
    ensures x / 0x100_0000 == q && x % 0x100_0000 == r
  {
  }

  /** Splitting a number into three bytes, and reading them back big-endian. */
  lemma ThreeByteDigits(x: nat)
    ensures RegionOf((x / 0x1_0000) % 0x100, (x / 0x100) % 0x100, x % 0x100) == x % 0x100_0000
  {
    var lo, q := x % 0x100, x / 0x100;
    var mid, h := q % 0x100, q / 0x100;
    var hi, top := h % 0x100, h / 0x100;
    assert x == 0x100 * q + lo;
    assert q == 0x100 * h + mid;
    assert h == 0x100 * top + hi;
    DivMod16Bits(x, h, 0x100 * mid + lo);
    DivMod24Bits(x, top, RegionOf(hi, mid, lo));
  }

  /** Bytes 3-5 carry exactly the low 24 bits of the region, big-endian. */
  lemma RegionPacking(region: int)
    ensures RegionOf(RegionHi(region), RegionMid(region), RegionLo(region)) == Bits32(region) % 0x100_0000
  {
    ThreeByteDigits(Bits32(region));
  }

  /** Splitting a number into its low nibble and the next byte, and reading them back. */
  lemma NibbleByteDigits(x: nat)
    ensures ((x / 0x10) % 0x100) * 0x10 + ((x % 0x10) * 0x10) / 0x10 == x % 0x1000
  {
    var low, q := x % 0x10, x / 0x10;
    var byte, top := q % 0x100, q / 0x100;
    assert x == 0x10 * q + low;
    assert q == 0x100 * top + byte;
    assert (low * 0x10) / 0x10 == low;
    assert x == 0x1000 * top + (byte * 0x10 + low);
  }

  /** Bytes 6-7 carry exactly the low 12 bits of the colour; byte 7's low nibble is zero. */
  lemma ColorPacking(color: int)
    ensures ColorOf(ColorHi(color), ColorLo(color)) == Bits32(color) % 0x1000
    ensures ColorLo(color) % 0x10 == 0
  {
    NibbleByteDigits(Bits32(color));
  }

  /** A colour in 0..4095 survives the packing unchanged. */
  lemma ColorRoundTrip(color: int)
    requires 0 <= color < 0x1000
    ensures ColorOf(ColorHi(color), ColorLo(color)) == color
  {
    ColorPacking(color);
  }

  /** For any LED brightness (at most 65535), only the low 12 bits reach the packet. */
  lemma ColorTruncation(color: int)
    requires 0 <= color <= 0xffff
    ensures ColorOf(ColorHi(color), ColorLo(color)) == color % 0x1000
  {
    ColorPacking(color);
  }

  /** The "nothing pending" sentinel -1 packs to `FF F0`. */
  lemma SentinelColorBytes()
    ensures ColorHi(-1) == 0xff && ColorLo(-1) == 0xf0
  {
  }

  /**
   * The shape the global `CMD_SET_COL` buffer always has: 9 bytes, header
   * `02 03`, and bytes 2 and 8 never written, so still zero.
   */
  predicate SetColShape(buf: Packet) {
    |buf| == PacketSize && buf[0] == ReportId && buf[1] == OpSetColor && buf[2] == 0 && buf[8] == 0
  }

  /**
   * `alienfx_send_color_cmd` up to the send: the shared buffer after bytes 3-7
   * are overwritten with the region and the packed colour. `block` is accepted
   * and ignored, as in the driver.
   */
  function WriteSetColor(buf: Packet, region: int, block: int, color: int): (r: Packet)
    requires |buf| == PacketSize
    ensures |r| == PacketSize
    ensures r[0] == buf[0] && r[1] == buf[1] && r[2] == buf[2] && r[8] == buf[8]
    ensures RegionOf(r[3], r[4], r[5]) == Bits32(region) % 0x100_0000
    ensures ColorOf(r[6], r[7]) == Bits32(color) % 0x1000 && r[7] % 0x10 == 0
  {
    RegionPacking(region);
    ColorPacking(color);
    buf[3 := RegionHi(region)][4 := RegionMid(region)][5 := RegionLo(region)]
       [6 := ColorHi(color)][7 := ColorLo(color)]
  }

  /** The set-colour command for a region and colour, as a fresh packet. */
  function EncodeSetColor(region: int, color: int): (p: Packet)
    ensures |p| == PacketSize
    ensures p[0] == ReportId && p[1] == OpSetColor && p[2] == 0 && p[8] == 0
    ensures RegionOf(p[3], p[4], p[5]) == Bits32(region) % 0x100_0000
    ensures ColorOf(p[6], p[7]) == Bits32(color) % 0x1000 && p[7] % 0x10 == 0
  {
    WriteSetColor(CmdSetColInit, region, 0, color)
  }

  /** The set-colour packet byte by byte: `02 03 00 <region: 3 bytes> <colour: 2 bytes> 00`. */
  lemma EncodeSetColorBytes(region: int, color: int)
    ensures EncodeSetColor(region, color)
            == [ReportId, OpSetColor, 0x00, RegionHi(region), RegionMid(region), RegionLo(region),
                ColorHi(color), ColorLo(color), 0x00]
  {
  }

  /**
   * Reusing the global buffer leaks nothing: from any buffer of the right
   * shape, a write produces the same packet as a fresh encoding of (region,
   * color), whatever `block` is, and leaves the buffer in shape for the next call.
   */
  lemma SetColorBufferNoLeak(buf: Packet, region: int, block: int, color: int)
    requires SetColShape(buf)
    ensures WriteSetColor(buf, region, block, color) == EncodeSetColor(region, color)
    ensures SetColShape(WriteSetColor(buf, region, block, color))
  {
  }

  /** The four commands of the protocol. */
  datatype Command = Reset | TrExec | Loop | SetColor(region: int, color: int)

  /** Commands whose fields fit the packet: a 24-bit region and a 12-bit colour. */
  predicate WellFormed(c: Command) {
    c.SetColor? ==> 0 <= c.region < 0x100_0000 && 0 <= c.color < 0x1000
  }

  /** The wire form of a command. */
  function Encode(c: Command): (p: Packet)
    ensures |p| == PacketSize && p[0] == ReportId
    ensures p[1] == (match c
                     case Reset => OpReset
                     case TrExec => OpTrExec
                     case Loop => OpLoop
                     case SetColor(_, _) => OpSetColor)
    ensures p[2] == (if c == Reset then 0x04 else 0x00)
    ensures !c.SetColor? ==> forall k :: 3 <= k < PacketSize ==> p[k] == 0
  {
    match c
    case Reset => CmdReset
    case TrExec => CmdTrExec
    case Loop => CmdLoop
    case SetColor(region, color) => EncodeSetColor(region, color)
  }

  /** Reads a packet back as a command; `None` for anything the encoder cannot produce. */
  function Decode(p: Packet): Option<Command> {
    if p == CmdReset then Some(Reset)
    else if p == CmdTrExec then Some(TrExec)
    else if p == CmdLoop then Some(Loop)
    else if |p| == PacketSize && p[0] == ReportId && p[1] == OpSetColor && p[2] == 0 && p[8] == 0
            && p[7] % 0x10 == 0
    then Some(SetColor(RegionOf(p[3], p[4], p[5]), ColorOf(p[6], p[7])))
    else None
  }

  /** Reading three bytes as a region and splitting it again gives the same three bytes. */
  lemma RegionUnpack(hi: uint8, mid: uint8, lo: uint8)
    ensures RegionHi(RegionOf(hi, mid, lo)) == hi
    ensures RegionMid(RegionOf(hi, mid, lo)) == mid
    ensures RegionLo(RegionOf(hi, mid, lo)) == lo
  {
    var x := RegionOf(hi, mid, lo);
    assert x / 0x100 == hi * 0x100 + mid;
    assert x / 0x1_0000 == hi;
  }

  /** Reading two colour bytes (byte 7 with a clean low nibble) and splitting again gives the same bytes. */
  lemma ColorUnpack(b6: uint8, b7: uint8)
    requires b7 % 0x10 == 0
    ensures ColorHi(ColorOf(b6, b7)) == b6
    ensures ColorLo(ColorOf(b6, b7)) == b7
  {
    var x := ColorOf(b6, b7);
    assert x / 0x10 == b6;
    assert x % 0x10 == b7 / 0x10;
  }

  /** A packet of set-colour shape with a clean low nibble in byte 7 decodes to its fields. */
  lemma DecodeSetColorPacket(p: Packet)
    requires SetColShape(p) && p[7] % 0x10 == 0
    ensures Decode(p) == Some(SetColor(RegionOf(p[3], p[4], p[5]), ColorOf(p[6], p[7])))
  {
    assert p[1] != CmdReset[1] && p[1] != CmdTrExec[1] && p[1] != CmdLoop[1];
  }

  /** The fixed commands decode to themselves. */
  lemma DecodeFixed()
    ensures Decode(CmdReset) == Some(Reset)
    ensures Decode(CmdTrExec) == Some(TrExec)
    ensures Decode(CmdLoop) == Some(Loop)
  {
    assert CmdTrExec[1] != CmdReset[1];
    assert CmdLoop[1] != CmdReset[1] && CmdLoop[1] != CmdTrExec[1];
  }

  /** A 24-bit region and a 12-bit colour lose nothing to the truncation of the packing. */
  lemma FitsUnchanged(region: int, color: int)
    requires 0 <= region < 0x100_0000 && 0 <= color < 0x1000
    ensures Bits32(region) % 0x100_0000 == region
    ensures Bits32(color) % 0x1000 == color
  {
  }

  /** A set-colour packet with a 24-bit region and a 12-bit colour carries them unchanged. */
  lemma EncodeSetColorFields(region: int, color: int)
    requires 0 <= region < 0x100_0000 && 0 <= color < 0x1000
    ensures SetColShape(EncodeSetColor(region, color)) && EncodeSetColor(region, color)[7] % 0x10 == 0
    ensures RegionOf(EncodeSetColor(region, color)[3], EncodeSetColor(region, color)[4],
                     EncodeSetColor(region, color)[5]) == region
    ensures ColorOf(EncodeSetColor(region, color)[6], EncodeSetColor(region, color)[7]) == color
  {
    FitsUnchanged(region, color);
  }

  /** A set-colour packet with a 24-bit region and a 12-bit colour decodes to them. */
  lemma DecodeEncodeSetColor(region: int, color: int)
    requires 0 <= region < 0x100_0000 && 0 <= color < 0x1000
    ensures Decode(EncodeSetColor(region, color)) == Some(SetColor(region, color))
  {
    EncodeSetColorFields(region, color);
    DecodeSetColorPacket(EncodeSetColor(region, color));
  }

  /** Encoding a well-formed command and decoding it gives the command back. */
  lemma DecodeEncode(c: Command)
    requires WellFormed(c)
    ensures Decode(Encode(c)) == Some(c)
  {
    DecodeFixed();
    if c.SetColor? {
      DecodeEncodeSetColor(c.region, c.color);
    }
  }

  /** Every packet that decodes is the encoding of a well-formed command. */
  lemma EncodeDecode(p: Packet)
    requires Decode(p).Some?
    ensures WellFormed(Decode(p).value)
    ensures Encode(Decode(p).value) == p
  {
    var c := Decode(p).value;
    if c.SetColor? {
      RegionUnpack(p[3], p[4], p[5]);
      ColorUnpack(p[6], p[7]);
      var e := Encode(c);
      assert forall k :: 0 <= k < PacketSize ==> e[k] == p[k];
    }
  }
}

/** The status packet record of `Packet.h`: the rotation constants, the
    nineteen fixed-width fields and the documented width and word of each. */
module PacketLayout {
  import opened Uint

  /** Degrees per angle-step (`ROTATION_STEP`): 360 / 2^18. */
  const ROTATION_STEP: real := 0.001373291015625

  /** Angle-steps in a full revolution (`ROTATION_FULL`): 2^18. */
  const ROTATION_FULL: int := 262144

  /** Number of 32-bit words in an encoded packet, the documented value of
      the packet-length field. */
  const PACKET_WORDS: int := 6

  /** Documented width of the packet number (word 1, above the 8-bit length). */
  const PACKET_NUMBER_LIMIT: int := 0x100_0000

  /** The documented widths of the eleven word-4 flags, in field order:
      transmitter, phasing, integration, range scale, channel select,
      antenna mode, mode switch, PRI select, mode-M select, AFC, AGC. */
  const WORD4_WIDTHS: seq<nat> := [1, 1, 1, 2, 3, 3, 2, 1, 2, 1, 1]

  /** The bit offsets at which the conversion places those flags. */
  const WORD4_OFFSETS: seq<nat> := [1, 2, 3, 4, 6, 9, 12, 14, 16, 18, 19]

  /** The record; field names follow the C++ members. */
  datatype Packet = Packet(
    systemId: u16,          // word 0, 16 bits
    modeSetting: u16,       // word 0, 16 bits
    packetLength: u8,       // word 1, 8 bits (documented = 6)
    packetNumber: u32,      // word 1, 24 bits
    irigTime: u32,          // word 2, 32 bits, LSB = 1 ms
    antennaPosition: u32,   // word 3, 32 bits, LSB = 360/2^18 degree
    transmitterOnOff: u8,   // word 4, 1 bit
    antennaPhasing: u8,     // word 4, 1 bit
    integrationFp: u8,      // word 4, 1 bit
    rangeScale: u8,         // word 4, 2 bits
    channelSelect: u8,      // word 4, 3 bits
    antennaMode: u8,        // word 4, 3 bits
    modeSwitch: u8,         // word 4, 2 bits
    priSelect: u8,          // word 4, 1 bit
    modeMSelect: u8,        // word 4, 2 bits
    afcOnOff: u8,           // word 4, 1 bit
    agcOnOff: u8,           // word 4, 1 bit
    mgcVoltage: u8,         // word 5, 8 bits
    adjRangeScale: u8       // word 5, 8 bits
  )

  /** The word-4 flags of a packet, in field order. */
  function Word4Flags(p: Packet): (fs: seq<u8>)
    ensures |fs| == |WORD4_WIDTHS|
  {
    [p.transmitterOnOff, p.antennaPhasing, p.integrationFp, p.rangeScale,
     p.channelSelect, p.antennaMode, p.modeSwitch, p.priSelect,
     p.modeMSelect, p.afcOnOff, p.agcOnOff]
  }

  /** Every field holds a value within its documented width. The 8-, 16- and
      32-bit fields do so by their type; the packet number and the word-4
      flags are stored in wider C++ types. */
  predicate FitsWidths(p: Packet)
  {
    && p.packetNumber as int < PACKET_NUMBER_LIMIT
    && p.transmitterOnOff < 2
    && p.antennaPhasing < 2
    && p.integrationFp < 2
    && p.rangeScale < 4
    && p.channelSelect < 8
    && p.antennaMode < 8
    && p.modeSwitch < 4
    && p.priSelect < 2
    && p.modeMSelect < 4
    && p.afcOnOff < 2
    && p.agcOnOff < 2
  }

  function Pow2(n: nat): (r: nat)
    ensures r >= 1
  {
    if n == 0 then 1 else 2 * Pow2(n - 1)
  }

  /** FitsWidths says exactly that each word-4 flag is below 2^width. */
  lemma FitsWidthsIsWord4Widths(p: Packet)
    requires p.packetNumber as int < PACKET_NUMBER_LIMIT
    ensures FitsWidths(p) <==>
      forall i :: 0 <= i < |WORD4_WIDTHS| ==> Word4Flags(p)[i] as int < Pow2(WORD4_WIDTHS[i])
  {
    assert Pow2(1) == 2 && Pow2(2) == 4 && Pow2(3) == 8;
    var fs := Word4Flags(p);
    if forall i :: 0 <= i < |WORD4_WIDTHS| ==> fs[i] as int < Pow2(WORD4_WIDTHS[i]) {
      assert fs[0] < 2 && fs[1] < 2 && fs[2] < 2 && fs[3] < 4 && fs[4] < 8 && fs[5] < 8;
      assert fs[6] < 4 && fs[7] < 2 && fs[8] < 4 && fs[9] < 2 && fs[10] < 2;
    }
  }

  /** The word-4 flags, laid out from bit 1 in field order with a single
      unused bit before mode-M select, occupy exactly the offsets used by the
      conversion and end at bit 20. Word 0 (16 + 16), word 1 (8 + 24) and
      word 5 (8 + 8) need no such table. */
  lemma Word4OffsetsFollowWidths()
    ensures |WORD4_OFFSETS| == |WORD4_WIDTHS|
    ensures WORD4_OFFSETS[0] == 1
    ensures forall i :: 0 <= i < |WORD4_WIDTHS| - 1 ==>
      WORD4_OFFSETS[i + 1] == WORD4_OFFSETS[i] + WORD4_WIDTHS[i] + (if i == 7 then 1 else 0)
    ensures WORD4_OFFSETS[10] + WORD4_WIDTHS[10] == 20
  {
  }

  /** ROTATION_FULL is 2^18, which divides 2^32, and the two rotation
      constants agree: 2^18 steps of ROTATION_STEP degrees make 360 degrees. */
  lemma RotationConstantsAgree()
    ensures ROTATION_FULL == 0x4_0000 && TWO_TO_32 % ROTATION_FULL == 0
    ensures ROTATION_STEP * ROTATION_FULL as real == 360.0
    ensures ROTATION_STEP == 360.0 / ROTATION_FULL as real
  {
  }
}

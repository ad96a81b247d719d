/** The operations of `Packet.cpp` on the status packet: construction, the
    antenna-position rules, and the conversion into six 32-bit words, with a
    field decoder for the documented layout as the conversion's partner. */
module PacketCodec {
  import opened Uint
  import opened PacketLayout

  // ---------------------------------------------------------------------
  // Construction
  // ---------------------------------------------------------------------

  /** The constructor as its author evidently intended: every argument is
      copied into the field of the same position, PRI select included. */
  function Construct(sysid: u16, mode: u16, length: u8, number: u32,
                     irig: u32, position: u32, transmitter: u8, phasing: u8,
                     integration: u8, range: u8, channel: u8, antmode: u8,
                     mswitch: u8, pri: u8, modeM: u8, afc: u8, agc: u8,
                     mgc: u8, adjRange: u8): (p: Packet)
    ensures p.systemId == sysid && p.modeSetting == mode
    ensures p.packetLength == length && p.packetNumber == number
    ensures p.irigTime == irig && p.antennaPosition == position
    ensures p.transmitterOnOff == transmitter && p.antennaPhasing == phasing
    ensures p.integrationFp == integration && p.rangeScale == range
    ensures p.channelSelect == channel && p.antennaMode == antmode
    ensures p.modeSwitch == mswitch && p.priSelect == pri
    ensures p.modeMSelect == modeM && p.afcOnOff == afc && p.agcOnOff == agc
    ensures p.mgcVoltage == mgc && p.adjRangeScale == adjRange
  {
    Packet(sysid, mode, length, number, irig, position, transmitter, phasing,
           integration, range, channel, antmode, mswitch, pri, modeM, afc,
           agc, mgc, adjRange)
  }

  /** The constructor as written: `PRI_select` is assigned from itself, so it
      keeps whatever indeterminate value the storage held, given here as
      `stalePri`; the `pri` argument is never read. */
  function ConstructAsWritten(sysid: u16, mode: u16, length: u8, number: u32,
                              irig: u32, position: u32, transmitter: u8,
                              phasing: u8, integration: u8, range: u8,
                              channel: u8, antmode: u8, mswitch: u8, pri: u8,
                              modeM: u8, afc: u8, agc: u8, mgc: u8,
                              adjRange: u8, stalePri: u8): (p: Packet)
    ensures p.priSelect == stalePri
    ensures p == Construct(sysid, mode, length, number, irig, position,
                           transmitter, phasing, integration, range, channel,
                           antmode, mswitch, p.priSelect, modeM, afc, agc,
                           mgc, adjRange)
  {
    Packet(sysid, mode, length, number, irig, position, transmitter, phasing,
           integration, range, channel, antmode, mswitch, stalePri, modeM,
           afc, agc, mgc, adjRange)
  }

  /** The corrected constructor rebuilds every packet from its own fields:
      construction and field projection are inverse. */
  lemma ConstructFromFields(p: Packet)
    ensures Construct(p.systemId, p.modeSetting, p.packetLength,
                      p.packetNumber, p.irigTime, p.antennaPosition,
                      p.transmitterOnOff, p.antennaPhasing, p.integrationFp,
                      p.rangeScale, p.channelSelect, p.antennaMode,
                      p.modeSwitch, p.priSelect, p.modeMSelect, p.afcOnOff,
                      p.agcOnOff, p.mgcVoltage, p.adjRangeScale) == p
  {
  }

  /** The constructor as written does not: a PRI select of 1 passed in comes
      out as whatever the storage held, here 0. */
  lemma ConstructAsWrittenDropsPri()
    ensures ConstructAsWritten(0, 0, 0, 0, 0, 0, 0, 0, 0, 0, 0, 0, 0, 1, 0, 0,
                               0, 0, 0, 0).priSelect != 1
  {
  }

  /** The packet of the default constructor `Packet()`: every argument
      defaults to 0, but the constructor body is the one written, so PRI
      select keeps the stale byte `stalePri` of its storage. */
  function DefaultPacket(stalePri: u8): (p: Packet)
    ensures p.priSelect == stalePri
    ensures p == Construct(0, 0, 0, 0, 0, 0, 0, 0, 0, 0, 0, 0, 0, stalePri, 0, 0, 0, 0, 0)
  {
    ConstructAsWritten(0, 0, 0, 0, 0, 0, 0, 0, 0, 0, 0, 0, 0, 0, 0, 0, 0, 0, 0, stalePri)
  }

  /** A default packet declares a length of 0 words, not the documented 6,
      and sits at position 0, whatever its stale PRI byte. */
  lemma DefaultPacketLength(stalePri: u8)
    ensures DefaultPacket(stalePri).packetLength as int != PACKET_WORDS
    ensures DefaultPacket(stalePri).antennaPosition == 0
  {
  }

  /** The stale PRI byte of a default packet reaches the wire: word 4 is the
      byte placed at bit 14 and nothing else, and with bit 1 of the byte set,
      bit 15 (the unused bit) is set. */
  lemma StalePriInWord4(stalePri: u8)
    ensures Encode(DefaultPacket(stalePri))[4] as int == stalePri as int * 0x4000
    ensures (stalePri as int / 2) % 2 == 1 ==> (Encode(DefaultPacket(stalePri))[4] as int / 0x8000) % 2 == 1
  {
    DefaultWord4(stalePri);
    var b := stalePri as int;
    if (b / 2) % 2 == 1 {
      assert b * 0x4000 == (b % 2) * 0x4000 + 0x8000 * (1 + 2 * ((b / 2) / 2));
      FieldAt(b * 0x4000, (b % 2) * 0x4000, 1, (b / 2) / 2, 0x8000, 2);
    }
  }

  /** A default packet fits the documented widths only when its stale PRI
      byte is 0 or 1, and a byte of 4 is read back as mode-M select 1. */
  lemma StalePriOverflows(stalePri: u8)
    ensures FitsWidths(DefaultPacket(stalePri)) <==> stalePri < 2
    ensures Decode(Encode(DefaultPacket(4))).modeMSelect == 1
  {
    var w := Encode(DefaultPacket(4));
    DefaultWord4(4);
    assert w[4] as int / 0x1_0000 == 1;
  }

  /** Word 4 of a default packet is its PRI byte at bit 14. */
  lemma DefaultWord4(stalePri: u8)
    ensures Encode(DefaultPacket(stalePri))[4] as int == stalePri as int * 0x4000
  {
    assert Word4Sum(DefaultPacket(stalePri)) == stalePri as int * 0x4000;
  }

  // ---------------------------------------------------------------------
  // Antenna position
  // ---------------------------------------------------------------------

  /** `setAntPos(rotstart)`: the argument is never read; the stored position
      is only reduced modulo ROTATION_FULL. */
  function SetAntPos(p: Packet, rotstart: real): (r: Packet)
    ensures r.antennaPosition as int == p.antennaPosition as int % ROTATION_FULL
    ensures r == p.(antennaPosition := r.antennaPosition)
  {
    p.(antennaPosition := (p.antennaPosition as int % ROTATION_FULL) as u32)
  }

  /** setAntPos does not depend on its argument, is idempotent, and leaves a
      position that is already wrapped as it is. */
  lemma SetAntPosProperties(p: Packet, a: real, b: real)
    ensures SetAntPos(p, a) == SetAntPos(p, b)
    ensures SetAntPos(SetAntPos(p, a), b) == SetAntPos(p, a)
    ensures p.antennaPosition as int < ROTATION_FULL <==> SetAntPos(p, a) == p
  {
  }

  /** `updateAntPos`: `antenna_position += delta` in `uint32_t` arithmetic,
      then `antenna_position %= ROTATION_FULL`. The step count `delta` is the
      caller's `(uint32_t)(clkrate * rotrate / ROTATION_STEP)`. Because 2^18
      divides 2^32, the 32-bit overflow has no effect on the result. */
  function UpdateAntPos(p: Packet, delta: u32): (r: Packet)
    ensures r.antennaPosition as int == (p.antennaPosition as int + delta as int) % ROTATION_FULL
    ensures r.antennaPosition as int < ROTATION_FULL
    ensures r == p.(antennaPosition := r.antennaPosition)
  {
    var advanced := AddWrap(p.antennaPosition, delta as int);
    Wrap32Mod18(p.antennaPosition as int + delta as int);
    p.(antennaPosition := (advanced as int % ROTATION_FULL) as u32)
  }

  /** The step count of `updateAntPos` computed in exact real arithmetic:
      the largest whole number of angle-steps not above the rotation covered
      in one period. The cast to `uint32_t` is defined only for values below
      2^32, which the caller must ensure. */
  function StepCount(rotrate: real, clkrate: real): (d: u32)
    requires 0.0 <= rotrate && 0.0 <= clkrate
    requires clkrate * rotrate / ROTATION_STEP < TWO_TO_32 as real
    ensures d as real <= clkrate * rotrate / ROTATION_STEP < d as real + 1.0
  {
    (clkrate * rotrate / ROTATION_STEP).Floor as u32
  }

  /** A rotation rate of 360 degrees per second over a one-second period is
      exactly one revolution of steps, and advancing by it returns the
      antenna to its wrapped starting position. */
  lemma FullRevolution(p: Packet)
    ensures StepCount(360.0, 1.0) as int == ROTATION_FULL
    ensures UpdateAntPos(p, StepCount(360.0, 1.0)) == SetAntPos(p, 0.0)
  {
    assert 1.0 * 360.0 / ROTATION_STEP == 262144.0;
  }

  /** A rotation rate of 0 gives a step count of 0 whatever the period. */
  lemma NoRotationNoSteps(clkrate: real)
    requires 0.0 <= clkrate
    ensures StepCount(0.0, clkrate) == 0
  {
    assert clkrate * 0.0 / ROTATION_STEP == 0.0;
  }

  /** Two advances by d1 and d2 are one advance by their 32-bit sum. */
  lemma UpdateAntPosComposes(p: Packet, d1: u32, d2: u32)
    ensures UpdateAntPos(UpdateAntPos(p, d1), d2) == UpdateAntPos(p, Wrap32(d1 as int + d2 as int))
    ensures UpdateAntPos(UpdateAntPos(p, d1), d2).antennaPosition as int
         == (p.antennaPosition as int + d1 as int + d2 as int) % ROTATION_FULL
  {
    var x := p.antennaPosition as int + d1 as int;
    ModAddLeft(x, d2 as int, ROTATION_FULL);
    Wrap32Mod18(d1 as int + d2 as int);
    ModAddLeft(d1 as int + d2 as int, p.antennaPosition as int, ROTATION_FULL);
    assert (Wrap32(d1 as int + d2 as int) as int + p.antennaPosition as int) % ROTATION_FULL
        == (d1 as int + d2 as int + p.antennaPosition as int) % ROTATION_FULL by {
      ModAddLeft(Wrap32(d1 as int + d2 as int) as int, p.antennaPosition as int, ROTATION_FULL);
      ModAddLeft(d1 as int + d2 as int, p.antennaPosition as int, ROTATION_FULL);
    }
  }

  /** n successive advances by the same step count, as the generation loop
      performs them. */
  function Iterate(p: Packet, delta: u32, n: nat): Packet
    decreases n
  {
    if n == 0 then p else UpdateAntPos(Iterate(p, delta, n - 1), delta)
  }

  /** Advancing never touches a field other than the antenna position. */
  lemma {:induction false} IterateOnlyMovesPosition(p: Packet, delta: u32, n: nat)
    ensures Iterate(p, delta, n) == p.(antennaPosition := Iterate(p, delta, n).antennaPosition)
  {
    if n > 0 {
      IterateOnlyMovesPosition(p, delta, n - 1);
    }
  }

  /** The total step count of n advances by delta, accumulated as the
      generation loop does; it equals n * delta (OffsetIsProduct). */
  function Offset(n: nat, delta: u32): int
  {
    if n == 0 then 0 else Offset(n - 1, delta) + delta as int
  }

  lemma {:induction false} OffsetIsProduct(n: nat, delta: u32)
    ensures Offset(n, delta) == n * delta as int
  {
    if n > 0 {
      OffsetIsProduct(n - 1, delta);
      assert n * delta as int == (n - 1) * delta as int + delta as int;
    }
  }

  /** From a wrapped start, n advances leave the position at
      (start + Offset(n, delta)) mod 2^18. */
  lemma {:induction false} IterateOffset(p: Packet, delta: u32, n: nat)
    requires p.antennaPosition as int < ROTATION_FULL
    ensures Iterate(p, delta, n).antennaPosition as int
         == (p.antennaPosition as int + Offset(n, delta)) % ROTATION_FULL
  {
    if n > 0 {
      IterateOffset(p, delta, n - 1);
      AdvanceReduced(Iterate(p, delta, n - 1), p.antennaPosition as int + Offset(n - 1, delta), delta);
    }
  }

  /** Advancing a position that holds x mod 2^18 gives (x + delta) mod 2^18. */
  lemma AdvanceReduced(p: Packet, x: int, delta: u32)
    requires p.antennaPosition as int == x % ROTATION_FULL
    ensures UpdateAntPos(p, delta).antennaPosition as int == (x + delta as int) % ROTATION_FULL
  {
    ModAddLeft(x, delta as int, ROTATION_FULL);
  }

  /** After n advances by delta from a wrapped position, the position is
      (start + n * delta) mod 2^18, and no other field has changed. */
  lemma {:induction false} IteratePosition(p: Packet, delta: u32, n: nat)
    requires p.antennaPosition as int < ROTATION_FULL
    ensures Iterate(p, delta, n).antennaPosition as int
         == (p.antennaPosition as int + n * delta as int) % ROTATION_FULL
    ensures Iterate(p, delta, n) == p.(antennaPosition := Iterate(p, delta, n).antennaPosition)
  {
    IterateOnlyMovesPosition(p, delta, n);
    IterateOffset(p, delta, n);
    OffsetIsProduct(n, delta);
  }

  /** From any start, n >= 1 advances leave the position at
      (start + Offset(n, delta)) mod 2^18. */
  lemma {:induction false} IterateFromAnyPosition(p: Packet, delta: u32, n: nat)
    requires n >= 1
    ensures Iterate(p, delta, n).antennaPosition as int
         == (p.antennaPosition as int + Offset(n, delta)) % ROTATION_FULL
  {
    var q := UpdateAntPos(p, delta);
    IterateFromWrapped(p, delta, n);
    IterateOffset(q, delta, n - 1);
    ModAddLeft(p.antennaPosition as int + delta as int, Offset(n - 1, delta), ROTATION_FULL);
  }

  /** n advances by delta are one advance by the 32-bit product n * delta
      (for n >= 1; with n = 0 the position is not re-wrapped). */
  lemma IterateIsOneAdvance(p: Packet, delta: u32, n: nat)
    requires n >= 1 || p.antennaPosition as int < ROTATION_FULL
    ensures Iterate(p, delta, n) == UpdateAntPos(p, Wrap32(n * delta as int))
  {
    IterateOnlyMovesPosition(p, delta, n);
    OffsetIsProduct(n, delta);
    if n == 0 {
      assert Wrap32(Offset(n, delta)) == 0;
    } else {
      IterateFromAnyPosition(p, delta, n);
      AdvanceByWrapped(p, Offset(n, delta));
    }
  }

  /** An advance by the uint32 wrap of t moves the position by t, mod 2^18. */
  lemma AdvanceByWrapped(p: Packet, t: int)
    ensures UpdateAntPos(p, Wrap32(t)).antennaPosition as int
         == (p.antennaPosition as int + t) % ROTATION_FULL
  {
    var pos := p.antennaPosition as int;
    Wrap32Mod18(t);
    ModAddLeft(Wrap32(t) as int, pos, ROTATION_FULL);
    ModAddLeft(t, pos, ROTATION_FULL);
  }

  /** Peeling the first advance off an iteration. */
  lemma {:induction false} IterateFromWrapped(p: Packet, delta: u32, n: nat)
    requires n >= 1
    ensures Iterate(p, delta, n) == Iterate(UpdateAntPos(p, delta), delta, n - 1)
  {
    if n > 1 {
      IterateFromWrapped(p, delta, n - 1);
    }
  }

  // ---------------------------------------------------------------------
  // Conversion into words
  // ---------------------------------------------------------------------

  /** `x << k` in the conversion, where `factor` is 2^k: the shifted value
      taken as a `uint32_t`. */
  function ShiftLeft(x: int, factor: int): u32
  {
    Wrap32(x * factor)
  }

  /** The word-4 flags placed at their shift offsets, before the 32-bit
      reduction. */
  function Word4Sum(p: Packet): int
  {
    p.transmitterOnOff as int * 0x2
    + p.antennaPhasing as int * 0x4
    + p.integrationFp as int * 0x8
    + p.rangeScale as int * 0x10
    + p.channelSelect as int * 0x40
    + p.antennaMode as int * 0x200
    + p.modeSwitch as int * 0x1000
    + p.priSelect as int * 0x4000
    + p.modeMSelect as int * 0x1_0000
    + p.afcOnOff as int * 0x4_0000
    + p.agcOnOff as int * 0x8_0000
  }

  /** The flags from index i on, each times 2 to the power of its offset,
      summed. */
  function PlacedSum(flags: seq<u8>, offsets: seq<nat>, i: nat): int
    requires |flags| == |offsets| && i <= |flags|
    decreases |flags| - i
  {
    if i == |flags| then 0
    else flags[i] as int * Pow2(offsets[i]) + PlacedSum(flags, offsets, i + 1)
  }

  /** The powers of two at the word-4 offsets, one doubling at a time. */
  lemma Word4Powers()
    ensures Pow2(1) == 0x2 && Pow2(2) == 0x4 && Pow2(3) == 0x8 && Pow2(4) == 0x10
    ensures Pow2(6) == 0x40 && Pow2(9) == 0x200 && Pow2(12) == 0x1000
    ensures Pow2(14) == 0x4000 && Pow2(16) == 0x1_0000
    ensures Pow2(18) == 0x4_0000 && Pow2(19) == 0x8_0000
  {
    assert Pow2(1) == 0x2;
    assert Pow2(2) == 0x4;
    assert Pow2(3) == 0x8;
    assert Pow2(4) == 0x10;
    assert Pow2(5) == 0x20;
    assert Pow2(6) == 0x40;
    assert Pow2(7) == 0x80;
    assert Pow2(8) == 0x100;
    assert Pow2(9) == 0x200;
    assert Pow2(10) == 0x400;
    assert Pow2(11) == 0x800;
    assert Pow2(12) == 0x1000;
    assert Pow2(13) == 0x2000;
    assert Pow2(14) == 0x4000;
    assert Pow2(15) == 0x8000;
    assert Pow2(16) == 0x1_0000;
    assert Pow2(17) == 0x2_0000;
    assert Pow2(18) == 0x4_0000;
    assert Pow2(19) == 0x8_0000;
  }

  /** The hand-written factors of Word4Sum are the powers of two at the
      documented offsets: word 4 places each flag at its entry of
      WORD4_OFFSETS. */
  lemma Word4SumPlacesFlags(p: Packet)
    ensures Word4Sum(p) == PlacedSum(Word4Flags(p), WORD4_OFFSETS, 0)
  {
    Word4Powers();
    var fs := Word4Flags(p);
    var os := WORD4_OFFSETS;
    assert PlacedSum(fs, os, 11) == 0;
    assert PlacedSum(fs, os, 10) == fs[10] as int * 0x8_0000 + PlacedSum(fs, os, 11);
    assert PlacedSum(fs, os, 9) == fs[9] as int * 0x4_0000 + PlacedSum(fs, os, 10);
    assert PlacedSum(fs, os, 8) == fs[8] as int * 0x1_0000 + PlacedSum(fs, os, 9);
    assert PlacedSum(fs, os, 7) == fs[7] as int * 0x4000 + PlacedSum(fs, os, 8);
    assert PlacedSum(fs, os, 6) == fs[6] as int * 0x1000 + PlacedSum(fs, os, 7);
    assert PlacedSum(fs, os, 5) == fs[5] as int * 0x200 + PlacedSum(fs, os, 6);
    assert PlacedSum(fs, os, 4) == fs[4] as int * 0x40 + PlacedSum(fs, os, 5);
    assert PlacedSum(fs, os, 3) == fs[3] as int * 0x10 + PlacedSum(fs, os, 4);
    assert PlacedSum(fs, os, 2) == fs[2] as int * 0x8 + PlacedSum(fs, os, 3);
    assert PlacedSum(fs, os, 1) == fs[1] as int * 0x4 + PlacedSum(fs, os, 2);
    assert PlacedSum(fs, os, 0) == fs[0] as int * 0x2 + PlacedSum(fs, os, 1);
  }

  /** The six words of a packet: every field shifted to its offset and added
      into its word, modulo 2^32. */
  function Encode(p: Packet): (w: seq<u32>)
    ensures |w| == PACKET_WORDS
    ensures w[2] == p.irigTime && w[3] == p.antennaPosition
  {
    [ Wrap32(p.systemId as int + p.modeSetting as int * 0x1_0000),
      Wrap32(p.packetLength as int + p.packetNumber as int * 0x100),
      p.irigTime,
      p.antennaPosition,
      Wrap32(Word4Sum(p)),
      Wrap32(p.mgcVoltage as int + p.adjRangeScale as int * 0x100) ]
  }

  /** Word 4 holds only the flags: moving the antenna leaves it as it is. */
  lemma Word4IgnoresPosition(p: Packet, position: u32)
    ensures Encode(p.(antennaPosition := position))[4] == Encode(p)[4]
  {
    assert Word4Sum(p.(antennaPosition := position)) == Word4Sum(p);
  }

  /** `arr[i] += x << k` on a `uint32_t` array element, where `factor` is
      2^k (1 for an unshifted field): the shifted value is taken modulo 2^32,
      then the sum is. */
  method AddInto(arr: array<u32>, i: nat, x: int, factor: int)
    requires i < arr.Length
    modifies arr
    ensures arr[i] as int == (old(arr[i]) as int + x * factor) % TWO_TO_32
    ensures 0 <= old(arr[i]) as int + x * factor < TWO_TO_32 ==>
              arr[i] as int == old(arr[i]) as int + x * factor
    ensures forall k :: 0 <= k < arr.Length && k != i ==> arr[k] == old(arr[k])
  {
    ModAddLeft(x * factor, arr[i] as int, TWO_TO_32);
    arr[i] := AddWrap(arr[i], ShiftLeft(x, factor) as int);
  }

  /** The word-4 block of `convert`: each flag shifted to its offset and
      added into `arr[4]`, which holds 0 beforehand. */
  method AddWord4Flags(p: Packet, arr: array<u32>)
    requires arr.Length >= PACKET_WORDS && arr[4] == 0
    modifies arr
    ensures arr[4] == Encode(p)[4]
    ensures forall k :: 0 <= k < arr.Length && k != 4 ==> arr[k] == old(arr[k])
  {
    // Every partial sum stays below 2^28, so no addition wraps.
    ghost var placed := 0;
    AddInto(arr, 4, p.transmitterOnOff as int, 0x2);
    placed := placed + p.transmitterOnOff as int * 0x2;
    assert arr[4] as int == placed;
    AddInto(arr, 4, p.antennaPhasing as int, 0x4);
    placed := placed + p.antennaPhasing as int * 0x4;
    assert arr[4] as int == placed;
    AddInto(arr, 4, p.integrationFp as int, 0x8);
    placed := placed + p.integrationFp as int * 0x8;
    assert arr[4] as int == placed;
    AddInto(arr, 4, p.rangeScale as int, 0x10);
    placed := placed + p.rangeScale as int * 0x10;
    assert arr[4] as int == placed;
    AddInto(arr, 4, p.channelSelect as int, 0x40);
    placed := placed + p.channelSelect as int * 0x40;
    assert arr[4] as int == placed;
    AddInto(arr, 4, p.antennaMode as int, 0x200);
    placed := placed + p.antennaMode as int * 0x200;
    assert arr[4] as int == placed;
    AddInto(arr, 4, p.modeSwitch as int, 0x1000);
    placed := placed + p.modeSwitch as int * 0x1000;
    assert arr[4] as int == placed;
    AddInto(arr, 4, p.priSelect as int, 0x4000);
    placed := placed + p.priSelect as int * 0x4000;
    assert arr[4] as int == placed;
    AddInto(arr, 4, p.modeMSelect as int, 0x1_0000);
    placed := placed + p.modeMSelect as int * 0x1_0000;
    assert arr[4] as int == placed;
    AddInto(arr, 4, p.afcOnOff as int, 0x4_0000);
    placed := placed + p.afcOnOff as int * 0x4_0000;
    assert arr[4] as int == placed;
    AddInto(arr, 4, p.agcOnOff as int, 0x8_0000);
    placed := placed + p.agcOnOff as int * 0x8_0000;
    assert arr[4] as int == placed;
  }

  /** `convert(arr)`: zero the six words, then add each shifted field into
      its word. The words beyond the sixth are not touched. */
  method Convert(p: Packet, arr: array<u32>)
    requires arr.Length >= PACKET_WORDS
    modifies arr
    ensures arr[..PACKET_WORDS] == Encode(p)
    ensures arr[PACKET_WORDS..] == old(arr[PACKET_WORDS..])
  {
    for i := 0 to PACKET_WORDS
      invariant forall k :: 0 <= k < i ==> arr[k] == 0
      invariant arr[PACKET_WORDS..] == old(arr[PACKET_WORDS..])
    {
      arr[i] := 0;
    }

    AddInto(arr, 0, p.systemId as int, 1);
    AddInto(arr, 0, p.modeSetting as int, 0x1_0000);
    assert arr[0] == Encode(p)[0];

    AddInto(arr, 1, p.packetLength as int, 1);
    assert arr[1] as int == p.packetLength as int;
    AddInto(arr, 1, p.packetNumber as int, 0x100);
    assert arr[1] == Encode(p)[1];

    AddInto(arr, 2, p.irigTime as int, 1);
    AddInto(arr, 3, p.antennaPosition as int, 1);

    AddWord4Flags(p, arr);
    assert arr[4] == Encode(p)[4];

    AddInto(arr, 5, p.mgcVoltage as int, 1);
    assert arr[5] as int == p.mgcVoltage as int;
    AddInto(arr, 5, p.adjRangeScale as int, 0x100);
    assert arr[5] == Encode(p)[5];

    assert arr[0] == Encode(p)[0] && arr[1] == Encode(p)[1] && arr[2] == Encode(p)[2];
    assert arr[3] == Encode(p)[3] && arr[4] == Encode(p)[4];
    assert arr[..PACKET_WORDS] == Encode(p);
  }

  /** Reads each field back out of six words by the documented bit ranges
      (a shift right and a mask, written as division and remainder by
      powers of two). */
  function Decode(w: seq<u32>): (p: Packet)
    requires |w| == PACKET_WORDS
    ensures FitsWidths(p)
  {
    Packet(
      systemId := (w[0] as int % 0x1_0000) as u16,
      modeSetting := (w[0] as int / 0x1_0000) as u16,
      packetLength := (w[1] as int % 0x100) as u8,
      packetNumber := (w[1] as int / 0x100) as u32,
      irigTime := w[2],
      antennaPosition := w[3],
      transmitterOnOff := ((w[4] as int / 0x2) % 0x2) as u8,
      antennaPhasing := ((w[4] as int / 0x4) % 0x2) as u8,
      integrationFp := ((w[4] as int / 0x8) % 0x2) as u8,
      rangeScale := ((w[4] as int / 0x10) % 0x4) as u8,
      channelSelect := ((w[4] as int / 0x40) % 0x8) as u8,
      antennaMode := ((w[4] as int / 0x200) % 0x8) as u8,
      modeSwitch := ((w[4] as int / 0x1000) % 0x4) as u8,
      priSelect := ((w[4] as int / 0x4000) % 0x2) as u8,
      modeMSelect := ((w[4] as int / 0x1_0000) % 0x4) as u8,
      afcOnOff := ((w[4] as int / 0x4_0000) % 0x2) as u8,
      agcOnOff := ((w[4] as int / 0x8_0000) % 0x2) as u8,
      mgcVoltage := (w[5] as int % 0x100) as u8,
      adjRangeScale := ((w[5] as int / 0x100) % 0x100) as u8)
  }

  /** Round trip: when every field fits its documented width, decoding the
      encoding recovers the packet exactly. */
  lemma DecodeEncode(p: Packet)
    requires FitsWidths(p)
    ensures Decode(Encode(p)) == p
  {
    var w := Encode(p);
    PairedWords(p);
    DivModUnique(w[0] as int, 0x1_0000, p.modeSetting as int, p.systemId as int);
    assert w[1] as int == p.packetLength as int + 0x100 * p.packetNumber as int;
    DivModUnique(w[1] as int, 0x100, p.packetNumber as int, p.packetLength as int);
    FieldAt(w[5] as int, 0, p.mgcVoltage as int, p.adjRangeScale as int, 1, 0x100);
    FieldAt(w[5] as int, p.mgcVoltage as int, p.adjRangeScale as int, 0, 0x100, 0x100);
    Word4Fields(p);
  }

  /** Word 4 of a packet whose flags fit: each flag sits in its own bit range,
      and bit 0, bit 15 and every bit from 20 up are zero. */
  lemma Word4Fields(p: Packet)
    requires FitsWidths(p)
    ensures var w4 := Encode(p)[4] as int;
      && w4 == Word4Sum(p)
      && w4 < 0x10_0000 && w4 % 2 == 0 && (w4 / 0x8000) % 2 == 0
      && (w4 / 0x2) % 0x2 == p.transmitterOnOff as int
      && (w4 / 0x4) % 0x2 == p.antennaPhasing as int
      && (w4 / 0x8) % 0x2 == p.integrationFp as int
      && (w4 / 0x10) % 0x4 == p.rangeScale as int
      && (w4 / 0x40) % 0x8 == p.channelSelect as int
      && (w4 / 0x200) % 0x8 == p.antennaMode as int
      && (w4 / 0x1000) % 0x4 == p.modeSwitch as int
      && (w4 / 0x4000) % 0x2 == p.priSelect as int
      && (w4 / 0x1_0000) % 0x4 == p.modeMSelect as int
      && (w4 / 0x4_0000) % 0x2 == p.afcOnOff as int
      && (w4 / 0x8_0000) % 0x2 == p.agcOnOff as int
  {
    var w4 := Encode(p)[4] as int;
    assert w4 == Word4Sum(p);
    Word4FieldsLow(p, w4);
    Word4FieldsHigh(p, w4);
  }

  // FieldAt(w, lower bits, field, higher bits / (unit * 2^width), unit, 2^width)

  lemma Word4FieldsLow(p: Packet, w4: int)
    requires FitsWidths(p) && w4 == Word4Sum(p)
    ensures w4 % 2 == 0
    ensures (w4 / 0x2) % 0x2 == p.transmitterOnOff as int
    ensures (w4 / 0x4) % 0x2 == p.antennaPhasing as int
    ensures (w4 / 0x8) % 0x2 == p.integrationFp as int
    ensures (w4 / 0x10) % 0x4 == p.rangeScale as int
    ensures (w4 / 0x40) % 0x8 == p.channelSelect as int
  {
    var tx, ph, ig, rs := p.transmitterOnOff as int, p.antennaPhasing as int, p.integrationFp as int, p.rangeScale as int;
    var cs, am, ms, pr := p.channelSelect as int, p.antennaMode as int, p.modeSwitch as int, p.priSelect as int;
    var mm, af, ag := p.modeMSelect as int, p.afcOnOff as int, p.agcOnOff as int;
    var above := am + 0x8 * ms + 0x20 * pr + 0x80 * mm + 0x200 * af + 0x400 * ag;
    assert w4 == 0x2 * tx + 0x4 * ph + 0x8 * ig + 0x10 * rs + 0x40 * cs + 0x200 * above;
    FieldAt(w4, 0, 0, tx + 0x2 * ph + 0x4 * ig + 0x8 * rs + 0x20 * cs + 0x100 * above, 1, 2);
    FieldAt(w4, 0, tx, ph + 0x2 * ig + 0x4 * rs + 0x10 * cs + 0x80 * above, 0x2, 2);
    FieldAt(w4, 0x2 * tx, ph, ig + 0x2 * rs + 0x8 * cs + 0x40 * above, 0x4, 2);
    FieldAt(w4, 0x2 * tx + 0x4 * ph, ig, rs + 0x4 * cs + 0x20 * above, 0x8, 2);
    FieldAt(w4, 0x2 * tx + 0x4 * ph + 0x8 * ig, rs, cs + 0x8 * above, 0x10, 4);
    FieldAt(w4, 0x2 * tx + 0x4 * ph + 0x8 * ig + 0x10 * rs, cs, above, 0x40, 8);
  }

  lemma Word4FieldsHigh(p: Packet, w4: int)
    requires FitsWidths(p) && w4 == Word4Sum(p)
    ensures w4 < 0x10_0000 && (w4 / 0x8000) % 2 == 0
    ensures (w4 / 0x200) % 0x8 == p.antennaMode as int
    ensures (w4 / 0x1000) % 0x4 == p.modeSwitch as int
    ensures (w4 / 0x4000) % 0x2 == p.priSelect as int
    ensures (w4 / 0x1_0000) % 0x4 == p.modeMSelect as int
    ensures (w4 / 0x4_0000) % 0x2 == p.afcOnOff as int
    ensures (w4 / 0x8_0000) % 0x2 == p.agcOnOff as int
  {
    var am, ms, pr := p.antennaMode as int, p.modeSwitch as int, p.priSelect as int;
    var mm, af, ag := p.modeMSelect as int, p.afcOnOff as int, p.agcOnOff as int;
    var below := w4 % 0x200;
    assert 0 <= below < 0x200 && w4 == below + 0x200 * (am + 0x8 * ms + 0x20 * pr + 0x80 * mm + 0x200 * af + 0x400 * ag) by {
      Word4FieldsLow(p, w4);
      var low := 0x2 * p.transmitterOnOff as int + 0x4 * p.antennaPhasing as int + 0x8 * p.integrationFp as int
               + 0x10 * p.rangeScale as int + 0x40 * p.channelSelect as int;
      DivModUnique(w4, 0x200, am + 0x8 * ms + 0x20 * pr + 0x80 * mm + 0x200 * af + 0x400 * ag, low);
    }
    FieldAt(w4, below, am, ms + 0x4 * pr + 0x10 * mm + 0x40 * af + 0x80 * ag, 0x200, 8);
    FieldAt(w4, below + 0x200 * am, ms, pr + 0x4 * mm + 0x10 * af + 0x20 * ag, 0x1000, 4);
    FieldAt(w4, below + 0x200 * am + 0x1000 * ms, pr, 0x2 * mm + 0x8 * af + 0x10 * ag, 0x4000, 2);
    FieldAt(w4, below + 0x200 * am + 0x1000 * ms + 0x4000 * pr, 0, mm + 0x4 * af + 0x8 * ag, 0x8000, 2);
    FieldAt(w4, below + 0x200 * am + 0x1000 * ms + 0x4000 * pr, mm, af + 0x2 * ag, 0x10000, 4);
    FieldAt(w4, below + 0x200 * am + 0x1000 * ms + 0x4000 * pr + 0x10000 * mm, af, ag, 0x40000, 2);
    FieldAt(w4, below + 0x200 * am + 0x1000 * ms + 0x4000 * pr + 0x10000 * mm + 0x40000 * af, ag, 0, 0x80000, 2);
  }

  /** Division by a > 0 has a unique quotient and remainder. */
  lemma DivModUnique(w: int, a: int, q: int, r: int)
    requires a > 0 && 0 <= r < a && w == a * q + r
    ensures w / a == q && w % a == r
  {
    var q', r' := w / a, w % a;
    assert a * (q - q') == r' - r;
    if q - q' > 0 {
      MulAtLeast(a, q - q');
    } else if q - q' < 0 {
      MulAtLeast(a, q' - q);
    }
  }

  /** A field x of width b placed at unit a, with lower bits lo and higher
      bits hi, is recovered by a shift right and a mask. */
  lemma FieldAt(w: int, lo: int, x: int, hi: int, a: int, b: int)
    requires a > 0 && b > 0 && 0 <= lo < a && 0 <= x < b
    requires w == lo + a * (x + b * hi)
    ensures (w / a) % b == x
  {
    DivModUnique(w, a, x + b * hi, lo);
    DivModUnique(x + b * hi, b, hi, x);
  }

  /** Within the documented widths the encoding is injective. */
  lemma EncodeInjective(p: Packet, q: Packet)
    requires FitsWidths(p) && FitsWidths(q)
    ensures Encode(p) == Encode(q) <==> p == q
  {
    if Encode(p) == Encode(q) {
      DecodeEncode(p);
      DecodeEncode(q);
    }
  }

  /** Word 1 keeps only the low 24 bits of the packet number: the top 8 bits
      are shifted out of the word. */
  lemma PacketNumberTopBitsDropped(p: Packet)
    ensures Encode(p.(packetNumber := (p.packetNumber as int % PACKET_NUMBER_LIMIT) as u32)) == Encode(p)
  {
    var n := p.packetNumber as int;
    var low := n % PACKET_NUMBER_LIMIT;
    assert n * 0x100 == TWO_TO_32 * (n / PACKET_NUMBER_LIMIT) + low * 0x100;
    ModShift(p.packetLength as int + low * 0x100, n / PACKET_NUMBER_LIMIT, TWO_TO_32);
  }

  /** Placement is by addition, not by bitwise OR: out of its width, one flag
      carries into its neighbour, so two different packets share an
      encoding. */
  lemma OverwideFlagCollides()
    ensures DefaultPacket(0).(transmitterOnOff := 2) != DefaultPacket(0).(antennaPhasing := 1)
    ensures Encode(DefaultPacket(0).(transmitterOnOff := 2)) == Encode(DefaultPacket(0).(antennaPhasing := 1))
  {
  }

  /** Words 0 and 5 are the two halves of each pair without overflow, and
      word 5 fits in 16 bits whatever the field values. */
  lemma PairedWords(p: Packet)
    ensures Encode(p)[0] as int == p.systemId as int + p.modeSetting as int * 0x1_0000
    ensures Encode(p)[5] as int == p.mgcVoltage as int + p.adjRangeScale as int * 0x100
    ensures Encode(p)[5] as int < 0x1_0000
  {
  }
}

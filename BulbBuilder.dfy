/**
 * The bulb record decoder (LightifyMe/Core/Builders/BulbBuilder.cs): a pure decoding of the
 * fixed little-endian record layout, and the accumulate-then-build object around it.
 *
 * Record layout, offsets in bytes:
 *   0..2 id, 2..10 MAC address (byte 9 doubles as the bulb type), 10..14 firmware version,
 *   14 available flag, 15..17 group id, 17 on flag, 18 brightness, 19..21 colour temperature
 *   (signed), 21 red, 22 green, 23 blue, 24 alpha, 25.. name.
 */
module Builders {
  import opened Wrappers
  import opened Bytes
  import opened Bulbs

  /** Offset of the name, and so the least number of bytes a record can have. */
  const NameOffset := 25

  /** The record is too short for the reads at fixed offsets (the source's index exception). */
  datatype BuildError = RecordTooShort

  /** BitConverter.ToUInt16: two bytes, least significant first. */
  function U16At(d: seq<Byte>, off: nat): UInt16
    requires off + 2 <= |d|
  {
    d[off] as int + 0x100 * d[off + 1] as int
  }

  /** BitConverter.ToUInt32: four bytes, least significant first. */
  function U32At(d: seq<Byte>, off: nat): UInt32
    requires off + 4 <= |d|
  {
    U16At(d, off) + 0x1_0000 * U16At(d, off + 2)
  }

  /** BitConverter.ToUInt64: eight bytes, least significant first. */
  function U64At(d: seq<Byte>, off: nat): UInt64
    requires off + 8 <= |d|
  {
    U32At(d, off) + 0x1_0000_0000 * U32At(d, off + 4)
  }

  /** The fixed-width readers agree with the general little-endian value of the same bytes. */
  lemma U16AtIsLeValue(d: seq<Byte>, off: nat)
    requires off + 2 <= |d|
    ensures U16At(d, off) == LeValue(d[off..off + 2])
  {
    var s := d[off..off + 2];
    assert s[1..][1..] == [];
  }

  lemma U32AtIsLeValue(d: seq<Byte>, off: nat)
    requires off + 4 <= |d|
    ensures U32At(d, off) == LeValue(d[off..off + 4])
  {
    var s := d[off..off + 4];
    LeValueSplit(s, 2);
    assert s[..2] == d[off..off + 2] && s[2..] == d[off + 2..off + 4];
    U16AtIsLeValue(d, off);
    U16AtIsLeValue(d, off + 2);
    Pow256Widths();
  }

  lemma U64AtIsLeValue(d: seq<Byte>, off: nat)
    requires off + 8 <= |d|
    ensures U64At(d, off) == LeValue(d[off..off + 8])
  {
    var s := d[off..off + 8];
    LeValueSplit(s, 4);
    assert s[..4] == d[off..off + 4] && s[4..] == d[off + 4..off + 8];
    U32AtIsLeValue(d, off);
    U32AtIsLeValue(d, off + 4);
    Pow256Widths();
  }

  /** Each reader gives back a value written with LeBytes at the same width. */
  lemma U16AtOfLeBytes(d: seq<Byte>, off: nat, x: UInt16)
    requires off + 2 <= |d| && d[off..off + 2] == LeBytes(x, 2)
    ensures U16At(d, off) == x
  {
    U16AtIsLeValue(d, off);
    Pow256Widths();
    LeValueOfLeBytes(x, 2);
  }

  lemma U32AtOfLeBytes(d: seq<Byte>, off: nat, x: UInt32)
    requires off + 4 <= |d| && d[off..off + 4] == LeBytes(x, 4)
    ensures U32At(d, off) == x
  {
    U32AtIsLeValue(d, off);
    Pow256Widths();
    LeValueOfLeBytes(x, 4);
  }

  lemma U64AtOfLeBytes(d: seq<Byte>, off: nat, x: UInt64)
    requires off + 8 <= |d| && d[off..off + 8] == LeBytes(x, 8)
    ensures U64At(d, off) == x
  {
    U64AtIsLeValue(d, off);
    Pow256Widths();
    LeValueOfLeBytes(x, 8);
  }

  /** Writing back what a reader read reproduces the bytes it read. */
  lemma LeBytesOfU16At(d: seq<Byte>, off: nat)
    requires off + 2 <= |d|
    ensures LeBytes(U16At(d, off), 2) == d[off..off + 2]
  {
    U16AtIsLeValue(d, off);
    LeBytesOfLeValue(d[off..off + 2]);
  }

  lemma LeBytesOfU32At(d: seq<Byte>, off: nat)
    requires off + 4 <= |d|
    ensures LeBytes(U32At(d, off), 4) == d[off..off + 4]
  {
    U32AtIsLeValue(d, off);
    LeBytesOfLeValue(d[off..off + 4]);
  }

  lemma LeBytesOfU64At(d: seq<Byte>, off: nat)
    requires off + 8 <= |d|
    ensures LeBytes(U64At(d, off), 8) == d[off..off + 8]
  {
    U64AtIsLeValue(d, off);
    LeBytesOfLeValue(d[off..off + 8]);
  }

  /** Every field read at its fixed offset; byte 9 is read both as the type and as the MAC's top byte. */
  function DecodeFields(d: seq<Byte>): (b: BulbState)
    requires |d| >= NameOffset
    ensures |b.name| == |d| - NameOffset
  {
    BulbState(
      id := U16At(d, 0),
      macAddress := U64At(d, 2),
      bulbType := d[9],
      firmwareVersion := U32At(d, 10),
      isAvailable := d[14] != 0,
      groupId := U16At(d, 15),
      isOn := d[17] != 0,
      brightness := d[18],
      temperature := ToInt16(U16At(d, 19)),
      color := Color(a := d[24], r := d[21], g := d[22], b := d[23]),
      name := d[25..])
  }

  /**
   * What Build makes of a buffer: an error when it is too short, no bulb when the MAC
   * address reads as zero, otherwise the decoded bulb.
   */
  function Decode(d: seq<Byte>): (r: Result<Option<BulbState>, BuildError>)
    ensures r.Failure? <==> |d| < NameOffset
    ensures r.Success? && r.value.Some? ==> r.value.value.macAddress != 0
  {
    if |d| < NameOffset then Failure(RecordTooShort)
    else
      var b := DecodeFields(d);
      if b.macAddress == 0 then Success(None) else Success(Some(b))
  }

  /** The bulb type always equals the MAC address shifted right by 56 bits: both come from byte 9. */
  lemma TypeIsMacTopByte(d: seq<Byte>)
    requires |d| >= NameOffset
    ensures DecodeFields(d).bulbType == DecodeFields(d).macAddress / 0x100_0000_0000_0000
  {
    U64AtIsLeValue(d, 2);
    TopByteOfU64(d[2..10]);
  }

  /** Build yields no bulb exactly when the eight MAC bytes 2..10 are all zero. */
  lemma DecodeAbsentIffMacBytesZero(d: seq<Byte>)
    requires |d| >= NameOffset
    ensures Decode(d) == Success(None) <==> forall i :: 2 <= i < 10 ==> d[i] == 0
  {
    var mac := d[2..10];
    U64AtIsLeValue(d, 2);
    LeValueZero(mac);
    assert forall i :: 2 <= i < 10 ==> d[i] == mac[i - 2];
  }

  /** A bulb state the record format can carry: the type byte must be the MAC's top byte. */
  predicate Encodable(b: BulbState)
  {
    b.bulbType == b.macAddress / 0x100_0000_0000_0000
  }

  /** The record layout written out: the independent reference the decoder is checked against. */
  function EncodeRecord(b: BulbState): (d: seq<Byte>)
    ensures |d| == NameOffset + |b.name|
  {
    LeBytes(b.id, 2) + LeBytes(b.macAddress, 8) + LeBytes(b.firmwareVersion, 4)
    + [if b.isAvailable then 1 else 0] + LeBytes(b.groupId, 2) + [if b.isOn then 1 else 0]
    + [b.brightness] + LeBytes(FromInt16(b.temperature), 2)
    + [b.color.r, b.color.g, b.color.b, b.color.a] + b.name
  }

  /** Decoding an encoded record reproduces every field of a bulb with a non-zero MAC address. */
  lemma DecodeEncode(b: BulbState)
    requires Encodable(b) && b.macAddress != 0
    ensures Decode(EncodeRecord(b)) == Success(Some(b))
  {
    var d := EncodeRecord(b);
    assert d[0..2] == LeBytes(b.id, 2);
    assert d[2..10] == LeBytes(b.macAddress, 8);
    assert d[10..14] == LeBytes(b.firmwareVersion, 4);
    assert d[15..17] == LeBytes(b.groupId, 2);
    assert d[19..21] == LeBytes(FromInt16(b.temperature), 2);
    assert d[25..] == b.name;
    U16AtOfLeBytes(d, 0, b.id);
    U64AtOfLeBytes(d, 2, b.macAddress);
    U32AtOfLeBytes(d, 10, b.firmwareVersion);
    U16AtOfLeBytes(d, 15, b.groupId);
    U16AtOfLeBytes(d, 19, FromInt16(b.temperature));
    TypeIsMacTopByte(d);
  }

  /** Encoding a decoded record gives the record back when both flag bytes are 0 or 1. */
  lemma EncodeDecode(d: seq<Byte>)
    requires |d| >= NameOffset && d[14] <= 1 && d[17] <= 1
    ensures Encodable(DecodeFields(d))
    ensures EncodeRecord(DecodeFields(d)) == d
  {
    var b := DecodeFields(d);
    TypeIsMacTopByte(d);
    assert LeBytes(b.id, 2) == d[0..2] by {
      LeBytesOfU16At(d, 0);
    }
    assert LeBytes(b.macAddress, 8) == d[2..10] by {
      LeBytesOfU64At(d, 2);
    }
    assert LeBytes(b.firmwareVersion, 4) == d[10..14] by {
      LeBytesOfU32At(d, 10);
    }
    assert LeBytes(b.groupId, 2) == d[15..17] by {
      LeBytesOfU16At(d, 15);
    }
    assert LeBytes(FromInt16(b.temperature), 2) == d[19..21] by {
      LeBytesOfU16At(d, 19);
    }
    assert [if b.isAvailable then 1 else 0] == [d[14]];
    assert [if b.isOn then 1 else 0] == [d[17]];
    assert [b.color.r, b.color.g, b.color.b, b.color.a] == d[21..25];
    assert d == d[0..2] + d[2..10] + d[10..14] + [d[14]] + d[15..17] + [d[17]] + [d[18]]
              + d[19..21] + d[21..25] + d[25..];
  }

  /** Accumulates record bytes and decodes them into a bulb (one accumulate-then-build cycle). */
  class BulbBuilder {
    /** The bytes added since the last Build that cleared the buffer. */
    var pending: seq<Byte>

    constructor ()
      ensures pending == []
    {
      pending := [];
    }

    /** Appends the bytes, in order, and returns this builder for chaining. */
    method AddBytes(bytes: seq<Byte>) returns (self: BulbBuilder)
      modifies this
      ensures pending == old(pending) + bytes
      ensures self == this
    {
      pending := pending + bytes;
      self := this;
    }

    /**
     * Decodes the pending bytes. A short buffer fails before the buffer is cleared; otherwise
     * the buffer is emptied and the result is null for a zero MAC address or a fresh bulb.
     */
    method Build() returns (r: Result<Bulb?, BuildError>)
      modifies this
      ensures r.Failure? <==> Decode(old(pending)).Failure?
      ensures r.Failure? ==> r.error == RecordTooShort && pending == old(pending)
      ensures r.Success? ==>
        && pending == []
        && (r.value == null <==> Decode(old(pending)) == Success(None))
        && (r.value != null ==> fresh(r.value) && Decode(old(pending)) == Success(Some(r.value.State())))
    {
      var bulbData := pending;
      if |bulbData| < NameOffset {
        return Failure(RecordTooShort);
      }
      var bulb := new Bulb(DecodeFields(bulbData));

      pending := [];

      if bulb.macAddress == 0 {
        return Success(null);
      }
      return Success(bulb);
    }
  }
}

/**
 * The request frames GatewayController (LightifyMe/Core/GatewayController.cs) sends.
 * Every frame starts with its own length minus two and a zero byte, then two command bytes;
 * all but the broadcast frames follow with the session id and the bulb's MAC address,
 * little-endian.
 */
module Frames {
  import opened Bytes
  import opened Bulbs
  import opened Builders

  /** The frame's first two bytes state the length of the rest of the frame after them. */
  predicate LengthPrefixed(f: seq<Byte>)
  {
    |f| >= 2 && f[0] == |f| - 2 && f[1] == 0
  }

  function OnOffByte(on: bool): Byte
  {
    if on then 0x01 else 0x00
  }

  /** Discovery request: asks first for the bulb count, then (with the next id) for the records. */
  function DiscoveryFrame(session: Int32): (f: seq<Byte>)
    ensures |f| == 13 && LengthPrefixed(f)
  {
    [0x0B, 0x00, 0x00, 0x13] + Int32Bytes(session) + [0x01, 0x00, 0x00, 0x00, 0x00]
  }

  /** Broadcast on/off: a literal frame with no session id, addressed to MAC ff..ff. */
  function AllFrame(on: bool): (f: seq<Byte>)
    ensures |f| == 17 && LengthPrefixed(f)
  {
    [0x0f, 0x00, 0x00, 0x32, 0x01, 0x00, 0x00, 0x00,
     0xff, 0xff, 0xff, 0xff, 0xff, 0xff, 0xff, 0xff, OnOffByte(on)]
  }

  function OnOffFrame(session: Int32, mac: UInt64, on: bool): (f: seq<Byte>)
    ensures |f| == 17 && LengthPrefixed(f)
  {
    [0x0F, 0x00, 0x00, 0x32] + Int32Bytes(session) + LeBytes(mac, 8) + [OnOffByte(on)]
  }

  function BrightnessFrame(session: Int32, mac: UInt64, pct: Byte): (f: seq<Byte>)
    ensures |f| == 19 && LengthPrefixed(f)
  {
    [0x11, 0x00, 0x00, 0x31] + Int32Bytes(session) + LeBytes(mac, 8) + [pct] + [0x00, 0x00]
  }

  /** The colour goes on the wire as alpha, blue, green, red. */
  function ColorFrame(session: Int32, mac: UInt64, c: Color): (f: seq<Byte>)
    ensures |f| == 22 && LengthPrefixed(f)
  {
    [0x14, 0x00, 0x00, 0x36] + Int32Bytes(session) + LeBytes(mac, 8)
    + [c.a, c.b, c.g, c.r] + [0x00, 0x00]
  }

  /** The two broadcast frames are the same literal except for the final on/off byte. */
  lemma AllFramesDifferOnlyInLastByte()
    ensures AllFrame(true)[..16] == AllFrame(false)[..16]
    ensures AllFrame(true)[16] == 0x01 && AllFrame(false)[16] == 0x00
  {
  }

  /** Bytes 4..8 of every addressed frame carry the session id, recoverable as a C# int. */
  lemma SessionField(session: Int32, mac: UInt64, on: bool, pct: Byte, c: Color)
    ensures DiscoveryFrame(session)[4..8] == Int32Bytes(session)
    ensures OnOffFrame(session, mac, on)[4..8] == Int32Bytes(session)
    ensures BrightnessFrame(session, mac, pct)[4..8] == Int32Bytes(session)
    ensures ColorFrame(session, mac, c)[4..8] == Int32Bytes(session)
    ensures ToInt32(LeValue(Int32Bytes(session))) == session
  {
    var id := Int32Bytes(session);
    var m := LeBytes(mac, 8);
    assert DiscoveryFrame(session)[4..8] == id by {
      SliceOfMiddle([0x0B, 0x00, 0x00, 0x13], id, [0x01, 0x00, 0x00, 0x00, 0x00]);
    }
    assert OnOffFrame(session, mac, on)[4..8] == id by {
      var h := [0x0F, 0x00, 0x00, 0x32];
      SliceOfMiddle(h, id, m);
      SliceOfPrefix(h + id + m, [OnOffByte(on)], 4, 8);
    }
    assert BrightnessFrame(session, mac, pct)[4..8] == id by {
      var h := [0x11, 0x00, 0x00, 0x31];
      SliceOfMiddle(h, id, m);
      SliceOfPrefix(h + id + m, [pct], 4, 8);
      SliceOfPrefix(h + id + m + [pct], [0x00, 0x00], 4, 8);
    }
    assert ColorFrame(session, mac, c)[4..8] == id by {
      var h := [0x14, 0x00, 0x00, 0x36];
      SliceOfMiddle(h, id, m);
      SliceOfPrefix(h + id + m, [c.a, c.b, c.g, c.r], 4, 8);
      SliceOfPrefix(h + id + m + [c.a, c.b, c.g, c.r], [0x00, 0x00], 4, 8);
    }
    Int32BytesRoundTrip(session);
  }

  /**
   * The two discovery requests of one GetBulbs call carry the id and the incremented id: read
   * back as 32-bit wire values, the second is the first plus one, wrapping at 2^32.
   */
  lemma DiscoveryIdsConsecutive(session: Int32)
    ensures LeValue(DiscoveryFrame(Inc32(session))[4..8])
         == (LeValue(DiscoveryFrame(session)[4..8]) + 1) % 0x1_0000_0000
  {
    SessionField(session, 0, false, 0, Color(0, 0, 0, 0));
    SessionField(Inc32(session), 0, false, 0, Color(0, 0, 0, 0));
    Int32BytesRoundTrip(session);
    Int32BytesRoundTrip(Inc32(session));
  }

  /** Bytes 8..16 of every per-bulb frame carry the MAC address, recoverable as a 64-bit value. */
  lemma MacField(session: Int32, mac: UInt64, on: bool, pct: Byte, c: Color)
    ensures OnOffFrame(session, mac, on)[8..16] == LeBytes(mac, 8)
    ensures BrightnessFrame(session, mac, pct)[8..16] == LeBytes(mac, 8)
    ensures ColorFrame(session, mac, c)[8..16] == LeBytes(mac, 8)
    ensures LeValue(LeBytes(mac, 8)) == mac
  {
    var m := LeBytes(mac, 8);
    assert OnOffFrame(session, mac, on)[8..16] == m by {
      SliceOfMiddle([0x0F, 0x00, 0x00, 0x32] + Int32Bytes(session), m, [OnOffByte(on)]);
    }
    assert BrightnessFrame(session, mac, pct)[8..16] == m by {
      SliceOfMiddle([0x11, 0x00, 0x00, 0x31] + Int32Bytes(session), m, [pct] + [0x00, 0x00]);
    }
    assert ColorFrame(session, mac, c)[8..16] == m by {
      SliceOfMiddle([0x14, 0x00, 0x00, 0x36] + Int32Bytes(session), m, [c.a, c.b, c.g, c.r] + [0x00, 0x00]);
    }
    Pow256Widths();
    LeValueOfLeBytes(mac, 8);
  }

  /** A slice within the first part of a concatenation is a slice of that part. */
  lemma SliceOfPrefix(p: seq<Byte>, z: seq<Byte>, i: nat, j: nat)
    requires i <= j <= |p|
    ensures (p + z)[i..j] == p[i..j]
  {
  }

  /** The middle part of a three-part concatenation is found at its own offsets. */
  lemma SliceOfMiddle(a: seq<Byte>, m: seq<Byte>, z: seq<Byte>)
    ensures (a + m + z)[|a|..|a| + |m|] == m
  {
  }

  /** What each per-bulb command carries after the MAC address. */
  lemma PayloadField(session: Int32, mac: UInt64, on: bool, pct: Byte, c: Color)
    ensures OnOffFrame(session, mac, on)[16] == (if on then 0x01 else 0x00)
    ensures BrightnessFrame(session, mac, pct)[16..] == [pct, 0x00, 0x00]
    ensures ColorFrame(session, mac, c)[16..] == [c.a, c.b, c.g, c.r, 0x00, 0x00]
  {
  }

  /** A command addressed to a decoded bulb repeats the record's MAC bytes 2..10 verbatim. */
  lemma FrameMacMatchesRecord(d: seq<Byte>, session: Int32, on: bool, pct: Byte, c: Color)
    requires |d| >= NameOffset
    ensures OnOffFrame(session, DecodeFields(d).macAddress, on)[8..16] == d[2..10]
    ensures BrightnessFrame(session, DecodeFields(d).macAddress, pct)[8..16] == d[2..10]
    ensures ColorFrame(session, DecodeFields(d).macAddress, c)[8..16] == d[2..10]
  {
    U64AtIsLeValue(d, 2);
    LeBytesOfLeValue(d[2..10]);
  }

  /** Sending a decoded bulb's colour back puts its four record bytes 21..25 on the wire in reverse. */
  lemma ColorFrameReversesRecord(d: seq<Byte>, session: Int32, mac: UInt64)
    requires |d| >= NameOffset
    ensures ColorFrame(session, mac, DecodeFields(d).color)[16..20] == [d[24], d[23], d[22], d[21]]
  {
  }
}

/** The bulb entity (LightifyMe/Core/Bulb.cs) and its four-channel colour. */
module Bulbs {
  import opened Bytes

  /** A colour as alpha, red, green and blue bytes (the part of System.Drawing.Color the system uses). */
  datatype Color = Color(a: Byte, r: Byte, g: Byte, b: Byte)

  /** A snapshot of every field of a bulb. */
  datatype BulbState = BulbState(
    id: UInt16,
    macAddress: UInt64,
    bulbType: Byte,
    firmwareVersion: UInt32,
    isAvailable: bool,
    groupId: UInt16,
    isOn: bool,
    brightness: Byte,
    temperature: Int16,
    color: Color,
    name: seq<Byte>)

  /** A bulb whose fields the gateway controller updates after each command. */
  class Bulb {
    var id: UInt16
    var macAddress: UInt64
    var bulbType: Byte
    var firmwareVersion: UInt32
    var isAvailable: bool
    var groupId: UInt16
    var isOn: bool
    var brightness: Byte
    var temperature: Int16
    var color: Color
    var name: seq<Byte>

    function State(): BulbState
      reads this
    {
      BulbState(id, macAddress, bulbType, firmwareVersion, isAvailable, groupId,
                isOn, brightness, temperature, color, name)
    }

    /** A bulb holding the given field values (Build fills every field of a new bulb). */
    constructor (s: BulbState)
      ensures State() == s
    {
      id, macAddress, bulbType, firmwareVersion := s.id, s.macAddress, s.bulbType, s.firmwareVersion;
      isAvailable, groupId, isOn, brightness := s.isAvailable, s.groupId, s.isOn, s.brightness;
      temperature, color, name := s.temperature, s.color, s.name;
    }
  }
}

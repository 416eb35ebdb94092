/** The protocol adapter for Corsair Void headsets: its registration
    record, the sidetone, notification-sound and lights commands, and the
    battery request with the decoding of its reply. */
module CorsairVoid {
  import opened Hid
  import opened Utility
  import opened Devices

  // Product ids of the headsets this adapter claims.
  const IdCorsairVoidWireless: Uint16 := 0x1b27
  const IdCorsairVoidPro: Uint16 := 0x0a14
  const IdCorsairVoidProR2: Uint16 := 0x0a16
  const IdCorsairVoidProUsb: Uint16 := 0x0a17
  const IdCorsairVoidProWireless: Uint16 := 0x0a1a
  const IdCorsairVoidRgbUsb: Uint16 := 0x1b2a
  const IdCorsairVoidRgbUsb2: Uint16 := 0x1b23
  const IdCorsairVoidRgbWired: Uint16 := 0x1b1c
  const IdCorsairVoidEliteWireless: Uint16 := 0x0a55
  const IdCorsairVoidRgbEliteWireless: Uint16 := 0x0a51
  /** Defined beside the others but not claimed by this adapter. */
  const IdCorsairVirtuosoRgbWireless: Uint16 := 0x0a44

  /** The product list registered for the adapter, in registration order. */
  const ProductIds: seq<Uint16> := [
    IdCorsairVoidRgbWired,
    IdCorsairVoidWireless,
    IdCorsairVoidPro,
    IdCorsairVoidProR2,
    IdCorsairVoidProUsb,
    IdCorsairVoidProWireless,
    IdCorsairVoidRgbUsb,
    IdCorsairVoidRgbUsb2,
    IdCorsairVoidEliteWireless,
    IdCorsairVoidRgbEliteWireless
  ]

  const UsagePage: Uint16 := 0xff00
  const Usage: Uint16 := 0x1
  const DeviceName: string := "Corsair Void (Pro)"

  /** All four capabilities. */
  const VoidCapabilities: set<Capability> := {Sidetone, BatteryStatus, NotificationSound, Lights}

  /** The product list has ten ids, none twice, and the Virtuoso is not among them. */
  lemma ProductIdsWellFormed()
    ensures |ProductIds| == 10 && NoDuplicates(ProductIds)
    ensures IdCorsairVirtuosoRgbWireless !in ProductIds
    ensures IdCorsairVoidWireless in ProductIds
  {
  }

  /** void_init: fills in the adapter's static record and hands it back. */
  method VoidInit(deviceVoid: Device) returns (device: Device)
    modifies deviceVoid
    ensures device == deviceVoid
    ensures device.idVendor == VendorCorsair
    ensures device.idProductsSupported == ProductIds && device.numIdProducts == 10
    ensures device.idUsagePage == 0xff00 && device.idUsage == 0x1
    ensures device.deviceName == DeviceName
    ensures device.capabilities == VoidCapabilities
    ensures device.sendSidetone == Some(VoidSendSidetone)
    ensures device.requestBattery == Some(VoidRequestBattery)
    ensures device.notificationSound == Some(VoidNotificationSound)
    ensures device.switchLights == Some(VoidLights)
    ensures device.Valid()
  {
    deviceVoid.idVendor := VendorCorsair;
    deviceVoid.idProductsSupported := ProductIds;
    deviceVoid.numIdProducts := |ProductIds|;
    deviceVoid.idUsagePage := UsagePage;
    deviceVoid.idUsage := Usage;
    deviceVoid.deviceName := DeviceName;
    deviceVoid.capabilities := VoidCapabilities;
    deviceVoid.sendSidetone := Some(VoidSendSidetone);
    deviceVoid.requestBattery := Some(VoidRequestBattery);
    deviceVoid.notificationSound := Some(VoidNotificationSound);
    deviceVoid.switchLights := Some(VoidLights);
    ProductIdsWellFormed();
    device := deviceVoid;
  }

  // ---------------------------------------------------------------- sidetone

  /** MSG_SIZE: the sidetone feature report is always this long. */
  const SidetoneReportSize := 64

  /** The command header that precedes the level byte. */
  const SidetoneHeader: seq<bv8> := [0xFF, 0x0B, 0x00, 0xFF, 0x04, 0x0E, 0xFF, 0x05, 0x01, 0x04, 0x00]

  /** The level byte: the requested level remapped from [0, 128] onto the
      headset's range [200, 255] and stored back into a uint8. */
  function SidetoneLevel(num: bv8): (b: bv8)
    ensures num as int <= 128 ==> 200 <= b as int <= 255 && b as int == Map(num as int, 0, 128, 200, 255)
    ensures num == 0 ==> b == 200
    ensures num == 128 ==> b == 255
  {
    ToUint8(Map(num as int, 0, 128, 200, 255))
  }

  /** A higher requested level never gives a lower level byte. */
  lemma SidetoneLevelMonotone(a: bv8, b: bv8)
    requires a as int <= b as int <= 128
    ensures SidetoneLevel(a) as int <= SidetoneLevel(b) as int
  {
    MapMonotone(a as int, b as int, 0, 128, 200, 255);
  }

  /** `r` is the sidetone report for level `num`: 64 bytes, the header,
      the level byte at index 11 and zeros after it. */
  predicate IsSidetoneReport(r: seq<bv8>, num: bv8)
    ensures IsSidetoneReport(r, num) ==>
      |r| == SidetoneReportSize && (num as int <= 128 ==> 200 <= r[11] as int <= 255)
  {
    && |r| == SidetoneReportSize
    && r[..11] == SidetoneHeader
    && r[11] == SidetoneLevel(num)
    && forall i :: 12 <= i < |r| ==> r[i] == 0
  }

  /** The layout above leaves no byte open: there is one report per level. */
  lemma SidetoneReportUnique(r: seq<bv8>, s: seq<bv8>, num: bv8)
    requires IsSidetoneReport(r, num) && IsSidetoneReport(s, num)
    ensures r == s
  {
    forall i | 0 <= i < |r|
      ensures r[i] == s[i]
    {
      if i < 11 {
        assert r[i] == r[..11][i] == s[..11][i] == s[i];
      }
    }
  }

  /** Builds the sidetone buffer with the statements of the C code: the
      initialised leading bytes, then every byte from index 16 on cleared.
      In C a partly initialised array is zero-filled, so the loop changes
      nothing there; a new array here has unknown contents, so here the
      loop is what clears bytes 16..63. Only the final buffer is claimed to
      match. */
  method SidetoneBuffer(num: bv8) returns (buf: seq<bv8>)
    ensures IsSidetoneReport(buf, num)
  {
    var level := SidetoneLevel(num);
    var init := SidetoneHeader + [level, 0, 0, 0, 0];
    var data := new bv8[SidetoneReportSize];
    forall i | 0 <= i < |init| {
      data[i] := init[i];
    }
    for i := 16 to SidetoneReportSize
      invariant data[..16] == init
      invariant forall j :: 16 <= j < i ==> data[j] == 0
    {
      data[i] := 0;
    }
    buf := data[..];
    assert buf[..11] == init[..11];
  }

  /** void_send_sidetone: one feature report of exactly 64 bytes carrying
      the level, and nothing else on the wire. */
  method SendSidetone(dev: HidDevice, num: bv8) returns (r: int)
    modifies dev`log
    ensures |dev.log| == |old(dev.log)| + 1 && dev.log[..|old(dev.log)|] == old(dev.log)
    ensures dev.log[|old(dev.log)|].kind == FeatureReportCall
    ensures dev.log[|old(dev.log)|].length == SidetoneReportSize
    ensures IsSidetoneReport(dev.log[|old(dev.log)|].bytes, num)
    ensures r == dev.featureResult
  {
    var data := SidetoneBuffer(num);
    r := dev.SendFeatureReport(data, SidetoneReportSize);
    assert data[..SidetoneReportSize] == data;
  }

  // ----------------------------------------------------------------- battery

  /** What a battery request yields: the headset is charging, a level
      reading, an indeterminate status (HSC_ERROR), or the negative result
      of a failed transport call, passed through unchanged. */
  datatype BatteryResult = Charging | Level(percent: int) | Error | TransportError(code: int)

  /** VOID_BATTERY_MICUP: set in the level byte while the microphone is raised. */
  const BatteryMicUp: bv8 := 128

  /** The two-byte battery status request. */
  const BatteryRequest: seq<bv8> := [0xC9, 0x64]

  /** The reply is five bytes: level at index 2, status at index 4. */
  const BatteryReplySize := 5

  /** Decodes the battery reply. Status 0, 4 or 5 means charging whatever
      the level byte holds; status 1 means the level byte holds the
      percentage, with the microphone flag ignored; anything else is an
      indeterminate status. A reply never decodes to a transport error. */
  function DecodeBattery(reply: seq<bv8>): (r: BatteryResult)
    requires |reply| == BatteryReplySize
    ensures r.Charging? <==> reply[4] in {0, 4, 5}
    ensures r.Level? <==> reply[4] == 1
    ensures r.Error? <==> reply[4] !in {0, 1, 4, 5}
    ensures r.Level? ==> r.percent == reply[2] as int % 128
    ensures !r.TransportError?
  {
    var status, level := reply[4], reply[2];
    if status == 0 || status == 4 || status == 5 then
      Charging
    else if status == 1 then
      if level & BatteryMicUp != 0 then Level((level & !BatteryMicUp) as int) else Level(level as int)
    else
      Error
  }

  /** A raised microphone does not change the reading. */
  lemma MicUpIgnored(reply: seq<bv8>)
    requires |reply| == BatteryReplySize
    ensures DecodeBattery(reply[2 := reply[2] | BatteryMicUp]) == DecodeBattery(reply)
  {
  }

  /** A reading is always in 0..127, and a zero level byte is a valid 0 reading. */
  lemma LevelRange(reply: seq<bv8>)
    requires |reply| == BatteryReplySize
    ensures DecodeBattery(reply).Level? ==> 0 <= DecodeBattery(reply).percent <= 127
    ensures reply[4] == 1 && reply[2] & !BatteryMicUp == 0 ==> DecodeBattery(reply) == Level(0)
  {
  }

  /** Example replies: 75 % with and without the microphone flag, and the
      reply shape of the packet comment (byte 0 is 100, byte 3 is 177,
      status 1 normally and 5 while charging). */
  lemma BatteryExamples()
    ensures DecodeBattery([0xC9, 0x00, 0x4B, 0xB1, 0x01]) == Level(75)
    ensures DecodeBattery([0xC9, 0x00, 0xCB, 0xB1, 0x01]) == Level(75)
    ensures DecodeBattery([100, 0, 75, 177, 1]) == Level(75)
    ensures DecodeBattery([100, 0, 75, 177, 5]) == Charging
  {
  }

  /** void_request_battery: writes the request once; a failed write is
      returned as is with nothing read; otherwise reads five bytes once; a
      failed read is returned as is; otherwise the reply is decoded. */
  method RequestBattery(dev: HidDevice) returns (r: BatteryResult)
    requires BatteryReplySize <= |dev.reply|
    modifies dev`log
    ensures dev.writeResult < 0 ==>
      dev.log == old(dev.log) + [Call(WriteCall, BatteryRequest, 2)] && r == TransportError(dev.writeResult)
    ensures dev.writeResult >= 0 ==>
      dev.log == old(dev.log) + [Call(WriteCall, BatteryRequest, 2), Call(ReadCall, [], BatteryReplySize)]
    ensures dev.writeResult >= 0 && dev.readResult < 0 ==> r == TransportError(dev.readResult)
    ensures dev.writeResult >= 0 && dev.readResult >= 0 ==> r == DecodeBattery(dev.reply[..BatteryReplySize])
  {
    var n := dev.Write(BatteryRequest, 2);
    assert BatteryRequest[..2] == BatteryRequest;
    if n < 0 {
      return TransportError(n);
    }
    var dataRead;
    n, dataRead := dev.Read(BatteryReplySize);
    if n < 0 {
      return TransportError(n);
    }
    r := DecodeBattery(dataRead);
  }

  // ------------------------------------------------- notification and lights

  /** The three bytes of the notification-sound command. */
  function NotificationPacket(soundId: bv8): (p: seq<bv8>)
    ensures |p| == 3 && p[2] == soundId
  {
    [0xCA, 0x02, soundId]
  }

  /** Different sounds are different commands on the wire. */
  lemma NotificationPacketInjective(a: bv8, b: bv8)
    ensures |NotificationPacket(a)| == 3
    ensures NotificationPacket(a) == NotificationPacket(b) <==> a == b
  {
    if NotificationPacket(a) == NotificationPacket(b) {
      assert NotificationPacket(a)[2] == NotificationPacket(b)[2];
    }
  }

  /** void_notification_sound: exactly one write of three bytes from a
      five-byte buffer, and no read. */
  method PlayNotificationSound(dev: HidDevice, soundId: bv8) returns (r: int)
    modifies dev`log
    ensures dev.log == old(dev.log) + [Call(WriteCall, NotificationPacket(soundId), 3)]
    ensures r == dev.writeResult
  {
    var data: seq<bv8> := [0xCA, 0x02, soundId, 0, 0];
    r := dev.Write(data, 3);
    assert data[..3] == NotificationPacket(soundId);
  }

  /** The three bytes of the lights command; byte 1 is 0x00 for on and
      0x01 for off. */
  function LightsPacket(on: bv8): (p: seq<bv8>)
    ensures |p| == 3 && (p[1] == 0x00 <==> on != 0)
  {
    [0xC8, if on != 0 then 0x00 else 0x01, 0x00]
  }

  /** The inversion of the on/off byte, and that the command tells on from
      off and nothing more about `on`. */
  lemma LightsPacketInverted(a: bv8, b: bv8)
    ensures |LightsPacket(a)| == 3
    ensures LightsPacket(a)[1] == 0x00 <==> a != 0
    ensures LightsPacket(a)[1] == 0x01 <==> a == 0
    ensures LightsPacket(a) == LightsPacket(b) <==> (a != 0 <==> b != 0)
  {
    if LightsPacket(a) == LightsPacket(b) {
      assert LightsPacket(a)[1] == LightsPacket(b)[1];
    }
  }

  /** void_lights: exactly one write of the three-byte command, and no read. */
  method SwitchLights(dev: HidDevice, on: bv8) returns (r: int)
    modifies dev`log
    ensures dev.log == old(dev.log) + [Call(WriteCall, LightsPacket(on), 3)]
    ensures r == dev.writeResult
  {
    var data: seq<bv8> := [0xC8, if on != 0 then 0x00 else 0x01, 0x00];
    r := dev.Write(data, 3);
    assert data[..3] == data;
  }
}

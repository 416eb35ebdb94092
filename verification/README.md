# Corsair Void protocol adapter (HeadsetControl), modelled in Dafny

HeadsetControl drives USB headsets of many makers through one capability
interface. Each device family has a protocol adapter. The adapter fills in a
device record at registration. That record holds the vendor id, the product
ids it claims, the HID usage page and usage, a capability mask, and one
operation slot per capability. Each operation encodes a command into bytes
for the hidapi transport and, for the battery query, decodes the reply.

This project models the adapter for the Corsair Void family
(`src/devices/corsair_void.c`):

- `hid.dfy`, module `Hid`. The hidapi handle is a class, `HidDevice`, that
  records every call as a (kind, bytes, length) entry in `log`. It answers
  each kind of call with a result fixed when the handle is created, and it
  answers reads with a fixed `reply`.
- `utility.dfy`, module `Utility`. This holds C's truncating division, the
  storing of an int into a `uint8`, and `map`, the linear range remapping the
  sidetone command uses.
- `devices.dfy`, module `Devices`. The device record (`struct device`) is a
  class, `Device`. The capability mask is a set of `Capability` values. The
  four function-pointer slots hold `Handler` values. `Device.Valid` is what
  registration establishes and what a dispatcher calling through the slots
  would require: a non-empty, duplicate-free product list with the right
  count, and an operation behind every advertised capability.
- `corsair_void.dfy`, module `CorsairVoid`. This holds the product ids,
  `VoidInit`, the sidetone report (built in an array and cleared by a loop, as
  the C code does), the battery request, and the notification-sound and
  lights commands.

Bytes are `bv8`, so the mic-up mask is the same bit operation the C code
performs. The battery query returns a `BatteryResult`: `Charging`,
`Level(percent)`, `Error` (HSC_ERROR) or `TransportError(code)`. In the C code
these are all one `int`. The datatype keeps the four outcomes apart.

Two details of the code that its comments do not say:

- The comment at `corsair_void.c:114` says the level is 0 - 100. The code
  only clears bit 0x80, so a reading lies in 0..127.
- The initializer at `corsair_void.c:68` already zeroes bytes 12..15 of the
  sidetone report, and C zero-fills the rest of a partly initialised array,
  so the loop at `corsair_void.c:70-71` that clears bytes 16..63 changes
  nothing in C. In the model the new array has unknown contents, so there
  the loop does the clearing; only the finished buffer is claimed to match.

`device.h`, `utility.h` and hidapi are not part of this model. They enter the
model as follows:

- `VENDOR_CORSAIR` is given the assumed value 0x1b1c, Corsair's USB vendor
  id. No contract depends on the value, only on it being the one registered.
- The `CAP_*` bits are the four `Capability` values.
- `BATTERY_CHARGING` and `HSC_ERROR` are constructors of `BatteryResult`.
- `map` is written as the linear integer formula
  `(x - in_min) * (out_max - out_min) / (in_max - in_min) + out_min`. This
  formula is an assumption. `Utility.Map`'s contract gives the endpoints and
  the range: input 0 gives 200, input 128 gives 255, and inputs in 0..128
  give a value in [200, 255]. Monotonicity (`MapMonotone`,
  `SidetoneLevelMonotone`) and every interior value follow from the assumed
  formula, not from that contract.

## Model

| member | source | states |
|---|---|---|
| CorsairVoid.ProductIdsWellFormed | src/devices/corsair_void.c:13-36 | the product list has exactly the ten listed ids, none twice; the Void Wireless id is among them and the Virtuoso RGB Wireless id (0x0a44) is not |
| CorsairVoid.VoidInit | src/devices/corsair_void.c:43-60 | registration fills the static record and returns it: vendor Corsair, the ten product ids with count 10, usage page 0xff00, usage 0x1, the name, all four capabilities, each slot pointing at the adapter's operation for it; the record satisfies `Device.Valid` (every advertised capability has its operation) |
| Utility.CDivTruncates | src/devices/corsair_void.c:66 | the division inside `map` is C's: the remainder is smaller than the divisor in magnitude and, when nonzero, has the sign of the dividend |
| Utility.Map | src/devices/corsair_void.c:65-66 | remapping sends the lower input bound to the lower output bound and the upper to the upper, and an input inside an increasing range to a value inside the output range (assumed contract of utility.h's `map`) |
| Utility.MapMonotone | src/devices/corsair_void.c:65-66 | the remap never reverses the order of two inputs inside the input range |
| Utility.ToUint8 | src/devices/corsair_void.c:66 | storing the remapped value back into the `uint8` level keeps it unchanged when it fits in 0..255 |
| CorsairVoid.SidetoneLevel | src/devices/corsair_void.c:65-66 | for a requested level in 0..128 the level byte is the remapped value, in [200, 255]; level 0 gives 200 and level 128 gives 255 |
| CorsairVoid.SidetoneLevelMonotone | src/devices/corsair_void.c:65-66 | a higher requested level (up to 128) never gives a lower level byte |
| CorsairVoid.IsSidetoneReport | src/devices/corsair_void.c:68-71 | the report layout: 64 bytes, the header, the level byte at index 11 and zeros from 12 to 63; for a level in 0..128 its byte 11 lies in [200, 255]. `SidetoneReportUnique` shows the layout fixes every byte, and `SidetoneBuffer` shows the C buffer meets it |
| CorsairVoid.SidetoneReportUnique | src/devices/corsair_void.c:68-71 | the report layout (length 64, header `FF 0B 00 FF 04 0E FF 05 01 04 00`, level at index 11, zeros from 12 to 63) fixes every byte: two reports for the same level are equal |
| CorsairVoid.SidetoneBuffer | src/devices/corsair_void.c:64-71 | the buffer built from the initializer and the clearing loop is exactly the 64-byte sidetone report for the level |
| CorsairVoid.SendSidetone | src/devices/corsair_void.c:62-74 | exactly one transport call, a feature report of length 64 carrying the sidetone report; its result is returned unchanged |
| CorsairVoid.DecodeBattery | src/devices/corsair_void.c:103-117 | status byte 0, 4 or 5 gives Charging whatever the level byte holds; status 1 gives a Level equal to the level byte modulo 128 (mic-up bit cleared); any other status gives Error; a decode never gives a transport error |
| CorsairVoid.MicUpIgnored | src/devices/corsair_void.c:107-114 | setting the mic-up bit 0x80 in the level byte never changes the decoded result |
| CorsairVoid.LevelRange | src/devices/corsair_void.c:107-114 | a level reading lies in 0..127, and a level byte of 0 (with or without the mic-up bit) is a valid reading of 0, not an error |
| CorsairVoid.BatteryExamples | src/devices/corsair_void.c:80-83 | reply `C9 00 4B B1 01` decodes to 75, and `C9 00 CB B1 01` (mic raised) also decodes to 75; in the shape of the packet comment, `[100, 0, 75, 177, 1]` decodes to 75 and `[100, 0, 75, 177, 5]` to Charging |
| CorsairVoid.RequestBattery | src/devices/corsair_void.c:76-118 | writes the two bytes `C9 64` once; a negative write result is returned unchanged with no read; otherwise reads five bytes once; a negative read result is returned unchanged; otherwise the result is the decoded reply |
| CorsairVoid.NotificationPacket | src/devices/corsair_void.c:123 | the notification command is three bytes ending in the sound id; `NotificationPacketInjective` shows different sound ids give different commands |
| CorsairVoid.NotificationPacketInjective | src/devices/corsair_void.c:123 | the notification command is three bytes, and different sound ids give different commands |
| CorsairVoid.PlayNotificationSound | src/devices/corsair_void.c:120-126 | exactly one write, of the three bytes `CA 02 soundid`, and no read; the write result is returned unchanged |
| CorsairVoid.LightsPacket | src/devices/corsair_void.c:130 | the lights command is three bytes whose byte 1 is 0x00 exactly when `on` is nonzero (the inverted on/off byte); `LightsPacketInverted` gives the rest of its meaning |
| CorsairVoid.LightsPacketInverted | src/devices/corsair_void.c:130 | the lights command is three bytes; byte 1 is 0x00 exactly when `on` is nonzero and 0x01 exactly when it is zero; two commands are equal exactly when both values are on or both are off |
| CorsairVoid.SwitchLights | src/devices/corsair_void.c:128-132 | exactly one write, of the three bytes `C8, 00 if on else 01, 00`, and no read; the write result is returned unchanged |
| Hid.HidDevice.Write | src/devices/corsair_void.c:90 | hid_write logs one write of the first `length` bytes and returns the chosen write result |
| Hid.HidDevice.Read | src/devices/corsair_void.c:98 | hid_read logs one read of `length` bytes and returns the chosen read result and the reply bytes |
| Hid.HidDevice.SendFeatureReport | src/devices/corsair_void.c:73 | hid_send_feature_report logs one feature report of the first `length` bytes and returns the chosen result |

## Left out

- hidapi itself (`hid_write`, `hid_read`, `hid_send_feature_report`) is foreign code. It is modelled only as the logging `HidDevice`. That stub returns one chosen result per kind of call, not a different result for each call.
- Short reads are left out. `RequestBattery` requires the stub to hold at least five reply bytes and decodes exactly five. The C code reads `data_read[4]` even when `hid_read` returned fewer than five bytes, and then that byte may be uninitialised.
- Utility.Map: the endpoint and range properties rely only on its contract. `MapMonotone`, `SidetoneLevelMonotone` and every interior level byte rely on the assumed formula, not on a verified copy of utility.h. The formula's C `int` overflow is not modelled; it cannot arise for `uint8` inputs.
- CorsairVoid.SidetoneLevel: says nothing about requested levels above 128. For those, the C code stores the remapped value modulo 256 into `num`, which the model does too (`ToUint8`), but no property is stated about it.
- The numeric values of `BATTERY_CHARGING`, `HSC_ERROR` and the `CAP_*` bits are in device.h, which is not part of this model. They are distinct constructors here. The C `int` return type could confuse a negative transport code with a sentinel; the model does not.
- The device name is recorded as a constant string. The `strncpy` bound, which depends on the size of the name field in device.h, is not modelled.
- The note that Windows uses usage page 0xffc5 is a comment in the source, not behaviour.
- The comment that the sound id "can be 0 or 1" is not enforced by the code. The model accepts any byte, as the code does.
- The device registry, the router and the capability dispatcher are not in this file and are not modelled. Neither is the requirement that callers serialise the calls made on one handle.

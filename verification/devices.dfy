/** The device record every adapter fills in at registration (`struct
    device`): which physical devices it claims, which capabilities it
    offers, and one operation slot per capability. */
module Devices {

  type Uint16 = x: int | 0 <= x < 0x1_0000

  /** VENDOR_CORSAIR: Corsair's USB vendor id. The value is assumed (it is
      defined in device.h); no contract depends on it beyond identity. */
  const VendorCorsair: Uint16 := 0x1b1c

  datatype Option<+T> = None | Some(value: T)

  /** The capability flags (CAP_* bits); the mask is modelled as a set. */
  datatype Capability = Sidetone | BatteryStatus | NotificationSound | Lights

  /** The operation implementations the slots can point to: the four
      functions of the Corsair Void adapter. */
  datatype Handler = VoidSendSidetone | VoidRequestBattery | VoidNotificationSound | VoidLights

  /** Which capability each operation implements. */
  function Implements(h: Handler): (c: Capability)
  {
    match h
    case VoidSendSidetone => Sidetone
    case VoidRequestBattery => BatteryStatus
    case VoidNotificationSound => NotificationSound
    case VoidLights => Lights
  }

  /** No value occurs twice in `s`. */
  predicate NoDuplicates<T(==)>(s: seq<T>)
  {
    forall i, j :: 0 <= i < j < |s| ==> s[i] != s[j]
  }

  class Device {
    var idVendor: Uint16
    var idProductsSupported: seq<Uint16>
    var numIdProducts: nat
    var idUsagePage: Uint16
    var idUsage: Uint16
    var deviceName: string
    var capabilities: set<Capability>
    var sendSidetone: Option<Handler>
    var requestBattery: Option<Handler>
    var notificationSound: Option<Handler>
    var switchLights: Option<Handler>

    /** Static storage for a record, before any adapter fills it in. */
    constructor ()
      ensures capabilities == {} && idProductsSupported == [] && numIdProducts == 0
      ensures sendSidetone == None && requestBattery == None
      ensures notificationSound == None && switchLights == None
    {
      capabilities := {};
      idProductsSupported := [];
      numIdProducts := 0;
      sendSidetone, requestBattery := None, None;
      notificationSound, switchLights := None, None;
    }

    /** The operation slot that serves capability `c`. */
    function Slot(c: Capability): (h: Option<Handler>)
      reads this
    {
      match c
      case Sidetone => sendSidetone
      case BatteryStatus => requestBattery
      case NotificationSound => notificationSound
      case Lights => switchLights
    }

    /** A registered record: the product list is non-empty, duplicate-free
        and its count is right, and every advertised capability has an
        operation of that capability in its slot. Registration establishes
        it; it is what a dispatcher calling through the slots would require.
        Empty static storage does not satisfy it. */
    predicate Valid()
      reads this
    {
      && numIdProducts == |idProductsSupported| > 0
      && NoDuplicates(idProductsSupported)
      && forall c :: c in capabilities ==> Slot(c).Some? && Implements(Slot(c).value) == c
    }
  }
}

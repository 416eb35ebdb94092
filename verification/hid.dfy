/** The hidapi primitives the adapter calls (hid_write, hid_read,
    hid_send_feature_report), as a stub that records every call and
    answers with results chosen when it is created. */
module Hid {

  /** Which hidapi primitive a call went to. */
  datatype CallKind = WriteCall | ReadCall | FeatureReportCall

  /** One transport call: its kind, the bytes handed to the device
      (empty for a read) and the length argument of the call. */
  datatype Call = Call(kind: CallKind, bytes: seq<bv8>, length: nat)

  /** An open hid_device handle. */
  class HidDevice {
    /** Every call made on this handle, oldest first. */
    var log: seq<Call>
    /** What hid_write returns: bytes written, or a negative error code. */
    var writeResult: int
    /** What hid_read returns: bytes read, or a negative error code. */
    var readResult: int
    /** What hid_send_feature_report returns. */
    var featureResult: int
    /** The bytes the device answers a read with. */
    var reply: seq<bv8>

    constructor (writeResult: int, readResult: int, featureResult: int, reply: seq<bv8>)
      ensures log == []
      ensures this.writeResult == writeResult && this.readResult == readResult
      ensures this.featureResult == featureResult && this.reply == reply
    {
      log := [];
      this.writeResult := writeResult;
      this.readResult := readResult;
      this.featureResult := featureResult;
      this.reply := reply;
    }

    /** hid_write(dev, data, length): sends the first `length` bytes of `data`. */
    method Write(data: seq<bv8>, length: nat) returns (r: int)
      requires length <= |data|
      modifies this`log
      ensures log == old(log) + [Call(WriteCall, data[..length], length)]
      ensures r == writeResult
    {
      log := log + [Call(WriteCall, data[..length], length)];
      r := writeResult;
    }

    /** hid_read(dev, data, length): fills a buffer of `length` bytes. */
    method Read(length: nat) returns (r: int, data: seq<bv8>)
      requires length <= |reply|
      modifies this`log
      ensures log == old(log) + [Call(ReadCall, [], length)]
      ensures r == readResult && data == reply[..length]
    {
      log := log + [Call(ReadCall, [], length)];
      r := readResult;
      data := reply[..length];
    }

    /** hid_send_feature_report(dev, data, length). */
    method SendFeatureReport(data: seq<bv8>, length: nat) returns (r: int)
      requires length <= |data|
      modifies this`log
      ensures log == old(log) + [Call(FeatureReportCall, data[..length], length)]
      ensures r == featureResult
    {
      log := log + [Call(FeatureReportCall, data[..length], length)];
      r := featureResult;
    }
  }
}

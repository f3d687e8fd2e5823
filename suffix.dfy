/** `Suffix`: the DFU file suffix of the USB DFU 1.1 class specification,
    without its final CRC: firmware version, product and
    vendor ids, the DFU version, the "UFD" signature and the suffix length. */
module Suffix {
  import opened Bytes
  import opened Io

  /** `Suffix::size()`: the suffix without its CRC. */
  const Size: nat := 12

  /** bcdDFU, the DFU specification release 1.1a. */
  const DfuVersion: u16 := 0x011A

  /** The signature bytes, "UFD" in ASCII. */
  const Signature: seq<u8> := [0x55, 0x46, 0x44]

  /** bLength: the suffix length, CRC included. */
  const Length: u8 := 16

  datatype Suffix = Suffix(fwVersion: u16, usbPid: u16, usbVid: u16) {

    /** The bytes `write_to` appends: the three ids and the DFU version
        little-endian, the signature, the length. */
    function Encode(): (r: seq<u8>)
      ensures |r| == Size
      ensures DecodeLe16(r[..2]) == fwVersion && DecodeLe16(r[2..4]) == usbPid
      ensures DecodeLe16(r[4..6]) == usbVid
      ensures r[6..8] == [0x1A, 0x01] && r[8..11] == Signature && r[11] == Length
    {
      Le16(fwVersion) + Le16(usbPid) + Le16(usbVid) + Le16(DfuVersion) + Signature + [Length]
    }

    /** Where each field's bytes end in the encoding. */
    lemma Cuts()
      ensures var e := Encode();
        && e[..2] == e[..0] + Le16(fwVersion)
        && e[..4] == e[..2] + Le16(usbPid)
        && e[..6] == e[..4] + Le16(usbVid)
        && e[..8] == e[..6] + Le16(DfuVersion)
        && e[..11] == e[..8] + Signature
        && e[..Size] == e[..11] + [Length]
        && e[..Size] == e
    {
    }

    /** `write_to`: four `write_u16::<LittleEndian>`, a `write_all` of the
        signature and a `write_u8` of the length; the first failing write ends
        it with that error. */
    method WriteTo(buf: Sink) returns (r: IoResult<()>)
      modifies buf
      ensures r.Ok? ==> buf.bytes == old(buf.bytes) + Encode()
      ensures r.Err? ==> PartialWrite(old(buf.bytes), buf.bytes, Encode())
      ensures buf.growable ==> r.Ok?
    {
      var enc := Encode();
      Cuts();
      ghost var base := buf.bytes;
      ghost var mid := buf.bytes;
      r := buf.WriteU16Le(fwVersion);
      Extend(base, mid, buf.bytes, enc, 0, Le16(fwVersion));
      if r.Err? {
        return;
      }
      mid := buf.bytes;
      r := buf.WriteU16Le(usbPid);
      Extend(base, mid, buf.bytes, enc, 2, Le16(usbPid));
      if r.Err? {
        return;
      }
      mid := buf.bytes;
      r := buf.WriteU16Le(usbVid);
      Extend(base, mid, buf.bytes, enc, 4, Le16(usbVid));
      if r.Err? {
        return;
      }
      mid := buf.bytes;
      r := buf.WriteU16Le(DfuVersion);
      Extend(base, mid, buf.bytes, enc, 6, Le16(DfuVersion));
      if r.Err? {
        return;
      }
      mid := buf.bytes;
      r := buf.WriteAll(Signature);
      Extend(base, mid, buf.bytes, enc, 8, Signature);
      if r.Err? {
        return;
      }
      mid := buf.bytes;
      r := buf.WriteU8(Length);
      Extend(base, mid, buf.bytes, enc, 11, [Length]);
    }
  }

  /** `Suffix::new()`: every id 0xFFFF, so the suffix reads FF FF FF FF FF FF 1A 01 55 46 44 10. */
  function New(): (s: Suffix)
    ensures s.Encode() == [0xFF, 0xFF, 0xFF, 0xFF, 0xFF, 0xFF, 0x1A, 0x01, 0x55, 0x46, 0x44, 0x10]
  {
    Suffix(0xFFFF, 0xFFFF, 0xFFFF)
  }

  /** The encoding determines the suffix. */
  lemma EncodeInjective(s: Suffix, t: Suffix)
    requires s.Encode() == t.Encode()
    ensures s == t
  {
    assert s.fwVersion == DecodeLe16(s.Encode()[..2]);
    assert s.usbPid == DecodeLe16(s.Encode()[2..4]);
    assert s.usbVid == DecodeLe16(s.Encode()[4..6]);
  }

  /** Firmware 0x3344, product 0x4433, vendor 0xFF00 give 44 33 33 44 00 FF 1A 01 55 46 44 10. */
  lemma EncodeExample()
    ensures Suffix(0x3344, 0x4433, 0xFF00).Encode()
      == [0x44, 0x33, 0x33, 0x44, 0x00, 0xFF, 0x1A, 0x01, 0x55, 0x46, 0x44, 0x10]
  {
  }
}

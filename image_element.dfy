/** `ImageElement`: one contiguous piece of firmware, with its start address. */
module ImageElement {
  import opened Bytes
  import opened Io

  /** `ImageElement::new(start_adress, data)`. */
  datatype ImageElement = ImageElement(startAddress: u32, data: seq<u8>) {

    /** `size()`: eight header bytes and the data. */
    function Size(): nat
    {
      8 + |data|
    }

    /** The bytes `write_to` appends: the address big-endian, the data length
        (cast to `u32`, so kept modulo 2^32) big-endian, then the data. */
    function Encode(): (r: seq<u8>)
      ensures |r| == Size()
      ensures DecodeBe32(r[..4]) == startAddress && DecodeBe32(r[4..8]) == Trunc32(|data|)
      ensures r[8..] == data
    {
      Be32(startAddress) + Be32(Trunc32(|data|)) + data
    }

    /** Where each field's bytes end in the encoding. */
    lemma Cuts()
      ensures var e := Encode();
        && e[..4] == e[..0] + Be32(startAddress)
        && e[..8] == e[..4] + Be32(Trunc32(|data|))
        && e[..Size()] == e[..8] + data
        && e[..Size()] == e
    {
    }

    /** `write_to`: the address and the length with `write_u32::<BigEndian>`,
        then the data one byte at a time; the first failing write ends it with
        that error. */
    method WriteTo(buf: Sink) returns (r: IoResult<()>)
      modifies buf
      ensures r.Ok? ==> buf.bytes == old(buf.bytes) + Encode()
      ensures r.Err? ==> PartialWrite(old(buf.bytes), buf.bytes, Encode())
      ensures buf.growable ==> r.Ok?
    {
      var enc := Encode();
      Cuts();
      ghost var base := buf.bytes;
      ghost var mid := buf.bytes;
      r := buf.WriteU32(BigEndian, startAddress);
      Extend(base, mid, buf.bytes, enc, 0, Be32(startAddress));
      if r.Err? {
        return;
      }
      mid := buf.bytes;
      r := buf.WriteU32(BigEndian, Trunc32(|data|));
      Extend(base, mid, buf.bytes, enc, 4, Be32(Trunc32(|data|)));
      if r.Err? {
        return;
      }
      mid := buf.bytes;
      r := buf.WriteEach(data);
      Extend(base, mid, buf.bytes, enc, 8, data);
    }
  }

  /** The encoding determines the element. */
  lemma EncodeInjective(e: ImageElement, f: ImageElement)
    requires e.Encode() == f.Encode()
    ensures e == f
  {
    assert e.startAddress == DecodeBe32(e.Encode()[..4]);
    assert e.data == e.Encode()[8..];
  }

  /** Address 0x008CFFFF with data 33 44 55 gives 00 8C FF FF 00 00 00 03 33 44 55. */
  lemma EncodeExample()
    ensures ImageElement(0x008C_FFFF, [0x33, 0x44, 0x55]).Encode()
      == [0x00, 0x8C, 0xFF, 0xFF, 0x00, 0x00, 0x00, 0x03, 0x33, 0x44, 0x55]
  {
  }
}

/** `Prefix`: the 11-byte DfuSe file header (signature, version, file size,
    number of images). */
module Prefix {
  import opened Bytes
  import opened Io

  /** `Prefix::size()`. */
  const Size: nat := 11

  /** "DfuSe" in ASCII. */
  const Signature: seq<u8> := [0x44, 0x66, 0x75, 0x53, 0x65]

  /** The format version byte. */
  const Version: u8 := 0x01

  /** `Prefix::new(size, nb_images)`. */
  datatype Prefix = Prefix(size: u32, nbImages: u8) {

    /** The bytes `write_to` appends: the signature, the version, `size`
        little-endian and `nb_images`. */
    function Encode(): (r: seq<u8>)
      ensures |r| == Size
      ensures r[..5] == Signature && r[5] == Version
      ensures DecodeLe32(r[6..10]) == size && r[10] == nbImages
    {
      Signature + [Version] + Le32(size) + [nbImages]
    }

    /** Where each field's bytes end in the encoding. */
    lemma Cuts()
      ensures var e := Encode();
        && e[..5] == e[..0] + Signature
        && e[..6] == e[..5] + [Version]
        && e[..10] == e[..6] + Le32(size)
        && e[..Size] == e[..10] + [nbImages]
        && e[..Size] == e
    {
    }

    /** `write_to`: the signature byte by byte, then the version, the size and
        the image count, each with `write_u8`/`write_u32`; the first failing
        write ends it with that error. */
    method WriteTo(buf: Sink) returns (r: IoResult<()>)
      modifies buf
      ensures r.Ok? ==> buf.bytes == old(buf.bytes) + Encode()
      ensures r.Err? ==> PartialWrite(old(buf.bytes), buf.bytes, Encode())
      ensures buf.growable ==> r.Ok?
    {
      var enc := Encode();
      Cuts();
      ghost var base := buf.bytes;
      ghost var mid := buf.bytes;
      r := buf.WriteEach(Signature);
      Extend(base, mid, buf.bytes, enc, 0, Signature);
      if r.Err? {
        return;
      }
      mid := buf.bytes;
      r := buf.WriteU8(Version);
      Extend(base, mid, buf.bytes, enc, 5, [Version]);
      if r.Err? {
        return;
      }
      mid := buf.bytes;
      r := buf.WriteU32(LittleEndian, size);
      Extend(base, mid, buf.bytes, enc, 6, Le32(size));
      if r.Err? {
        return;
      }
      mid := buf.bytes;
      r := buf.WriteU8(nbImages);
      Extend(base, mid, buf.bytes, enc, 10, [nbImages]);
    }
  }

  /** The header determines the prefix: different prefixes never encode alike. */
  lemma EncodeInjective(p: Prefix, q: Prefix)
    requires p.Encode() == q.Encode()
    ensures p == q
  {
    assert p.size == DecodeLe32(p.Encode()[6..10]);
  }

  /** Size 0x00FFAA55 with 0x33 images gives "DfuSe" 01 55 AA FF 00 33: the size
      is written least significant byte first. */
  lemma EncodeExample()
    ensures Prefix(0x00FF_AA55, 0x33).Encode()
      == [0x44, 0x66, 0x75, 0x53, 0x65, 0x01, 0x55, 0xAA, 0xFF, 0x00, 0x33]
  {
  }
}

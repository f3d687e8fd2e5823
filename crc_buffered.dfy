/** `BufWriterWithCRC`: a writer that feeds every byte its inner writer
    accepts to a CRC-32/JAMCRC engine, and can append the checksum.

    The `Sink` stands for the `BufWriter` layer itself: its bytes are the
    bytes the `BufWriter` has accepted, whether still in its buffer or
    already handed to the destination. */
module CrcBuffered {
  import opened Bytes
  import opened Io
  import opened Crc

  /** The four bytes of a finished checksum in byte order `order`. */
  function CrcBytes(order: ByteOrder, v: bv32): (r: seq<u8>)
    ensures |r| == 4
    ensures order == LittleEndian ==> DecodeLe32(r) as int == v as int
    ensures order == BigEndian ==> DecodeBe32(r) as int == v as int
  {
    U32Bytes(order, v as int as u32)
  }

  class BufWriterWithCrc {
    /** The destination (`buf: BufWriter<W>`). */
    const buf: Sink
    /** The checksum engine (`crc: CRC32`). */
    const crc: Crc32
    /** The bytes fed to the checksum since the last reset, in order. */
    ghost var hashed: seq<u8>

    /** The engine is a JAM engine with its table filled, and its register is
        the register of the bytes fed since the last reset. */
    ghost predicate Valid()
      reads this, crc, crc.table
    {
      crc.Valid() && crc.Params() == Jam && crc.value == AddBytes(Jam, Jam.initial, hashed)
    }

    /** `new`: wraps `inner`; the engine is `CRC32::new_jam()`, so its register
        holds the initial value 0xFFFFFFFF. */
    constructor New(inner: Sink)
      ensures buf == inner && fresh(crc) && fresh(crc.table)
      ensures crc.value == Jam.initial
      ensures Valid() && hashed == []
    {
      buf := inner;
      crc := new Crc32.NewJam();
      hashed := [];
    }

    /** `write`: the inner writer's result, unchanged; on `Ok(i)` exactly the
        first `i` bytes of `data`, in order, go into the checksum, and on an
        error the checksum does not change. */
    method Write(data: seq<u8>) returns (r: IoResult<nat>)
      requires Valid()
      modifies this, buf, crc`value
      ensures Valid()
      ensures r.Ok? ==> r.value <= |data| && buf.bytes == old(buf.bytes) + data[..r.value]
      ensures r.Ok? ==> hashed == old(hashed) + data[..r.value]
      ensures r.Ok? ==> crc.value == AddBytes(Jam, old(crc.value), data[..r.value])
      ensures r.Err? ==> buf.bytes == old(buf.bytes) && hashed == old(hashed) && crc.value == old(crc.value)
      ensures buf.growable ==> r == Ok(|data|)
    {
      r := buf.Write(data);
      if r.Ok? {
        Hash(data[..r.value]);
      }
    }

    /** The loop of `write`: `add` on each accepted byte, in order. */
    method Hash(bytes: seq<u8>)
      requires Valid()
      modifies this, crc`value
      ensures Valid()
      ensures hashed == old(hashed) + bytes
      ensures crc.value == AddBytes(Jam, old(crc.value), bytes)
    {
      var i := 0;
      while i < |bytes|
        invariant i <= |bytes| && crc.Valid() && crc.Params() == Jam
        invariant crc.value == AddBytes(Jam, old(crc.value), bytes[..i])
        modifies crc`value
      {
        crc.Add(bytes[i]);
        assert bytes[..i + 1][..i] == bytes[..i];
        i := i + 1;
      }
      assert bytes[..i] == bytes;
      AddBytesAppend(Jam, Jam.initial, hashed, bytes);
      hashed := hashed + bytes;
    }

    /** `write_crc::<T>`: takes the finished checksum and resets the engine
        (before writing, so even when the write fails), then writes its four
        bytes in byte order `T` with `write_all`; those bytes do not go into
        the checksum. */
    method WriteCrc(order: ByteOrder) returns (r: IoResult<()>)
      requires Valid()
      modifies this, buf, crc`value
      ensures Valid() && hashed == [] && crc.value == Jam.initial
      ensures r.Ok? ==> buf.bytes == old(buf.bytes) + CrcBytes(order, JamCrc(old(hashed)))
      ensures r.Err? ==> PartialWrite(old(buf.bytes), buf.bytes, CrcBytes(order, JamCrc(old(hashed))))
      ensures buf.growable ==> r.Ok?
    {
      var v := crc.GetAndReset();
      hashed := [];
      r := buf.WriteAll(CrcBytes(order, v));
    }

    /** `reset_crc`: the register back to the initial value; nothing is written. */
    method ResetCrc()
      requires Valid()
      modifies this, crc`value
      ensures Valid() && hashed == [] && crc.value == Jam.initial
    {
      crc.Reset();
      hashed := [];
    }

    /** `flush`: the inner flush; the checksum does not change. */
    method Flush() returns (r: IoResult<()>)
      modifies buf
      ensures buf.bytes == old(buf.bytes)
      ensures buf.growable ==> r.Ok?
    {
      r := buf.Flush();
    }
  }
}

/** The byte destinations the encoders write into.

    The Rust encoders are generic over `std::io::Write` (through
    `byteorder::WriteBytesExt`). Two kinds of destination matter here:
    a growable `Vec<u8>`, whose writes always take every byte, and an
    arbitrary writer, which may take only part of a buffer or fail. The
    arbitrary writer is modelled by nondeterministic choice, so every
    property proved of it holds whatever the real device does. */
module Io {
  import opened Bytes

  /** The outcome of an I/O call; the error kinds of `std::io` are not modelled. */
  datatype IoResult<T> = Ok(value: T) | Err

  /** After a failed `write_all`: `after` is `before` followed by a strict
      initial part of `buf` (the bytes that did get through before the error). */
  predicate PartialWrite(before: seq<u8>, after: seq<u8>, buf: seq<u8>)
  {
    |before| <= |after| < |before| + |buf| && after == before + buf[..|after| - |before|]
  }

  /** A failed write after `i` bytes of `enc` got through is a partial write of `enc`. */
  lemma PartialAt(base: seq<u8>, enc: seq<u8>, i: nat)
    requires i < |enc|
    ensures PartialWrite(base, base + enc[..i], enc)
  {
  }

  /** One piece of an encoding `enc`, written after the part of `enc` before it:
      written in full, it extends that part; written partially, the whole write
      of `enc` is partial. */
  lemma Extend(base: seq<u8>, mid: seq<u8>, after: seq<u8>, enc: seq<u8>, p: nat, piece: seq<u8>)
    requires p + |piece| <= |enc| && enc[..p + |piece|] == enc[..p] + piece
    requires mid == base + enc[..p]
    ensures after == mid + piece ==> after == base + enc[..p + |piece|]
    ensures PartialWrite(mid, after, piece) ==> PartialWrite(base, after, enc)
  {
    if PartialWrite(mid, after, piece) {
      var j := |after| - |mid|;
      assert enc[..p + j] == enc[..p] + piece[..j] by {
        assert enc[..p + j] == enc[..p + |piece|][..p + j];
      }
    }
  }

  /** A partial write of `piece`, after `before` got through, is a partial
      write of `all` when `piece` sits in `all` right after `before`. */
  lemma PartialInside(base: seq<u8>, before: seq<u8>, piece: seq<u8>, rest: seq<u8>, all: seq<u8>, after: seq<u8>)
    requires all == before + piece + rest
    requires PartialWrite(base + before, after, piece)
    ensures PartialWrite(base, after, all)
  {
    var j := |after| - |base + before|;
    assert all[..|before| + j] == before + piece[..j];
  }

  /** Appending `x` then `y` is appending `x + y`. */
  lemma AppendAssoc(base: seq<u8>, x: seq<u8>, y: seq<u8>)
    ensures base + x + y == base + (x + y)
  {
  }

  class Sink {
    /** Every byte the destination has accepted, in order. */
    var bytes: seq<u8>
    /** True for a `Vec<u8>`: every write takes the whole buffer and succeeds. */
    const growable: bool

    /** An empty `Vec<u8>` (`Vec::new()` or `Vec::with_capacity(n)`). */
    constructor Vec()
      ensures bytes == [] && growable
    {
      bytes := [];
      growable := true;
    }

    /** `Write::write`: takes some initial part of `buf` and reports how many
        bytes it took, or fails having taken none. */
    method Write(buf: seq<u8>) returns (r: IoResult<nat>)
      modifies this
      ensures r.Ok? ==> r.value <= |buf| && bytes == old(bytes) + buf[..r.value]
      ensures r.Err? ==> bytes == old(bytes)
      ensures growable ==> r == Ok(|buf|)
    {
      if growable {
        bytes := bytes + buf;
        r := Ok(|buf|);
      } else {
        var fails: bool :| true;
        if fails {
          r := Err;
        } else {
          var n: nat :| n <= |buf|;
          bytes := bytes + buf[..n];
          r := Ok(n);
        }
      }
    }

    /** `Write::write_all`: calls `write` until the whole buffer is taken; a
        write that takes nothing of a non-empty rest is an error (`WriteZero`). */
    method WriteAll(buf: seq<u8>) returns (r: IoResult<()>)
      modifies this
      ensures r.Ok? ==> bytes == old(bytes) + buf
      ensures r.Err? ==> PartialWrite(old(bytes), bytes, buf)
      ensures growable ==> r.Ok?
    {
      var done := 0;
      while done < |buf|
        invariant done <= |buf|
        invariant bytes == old(bytes) + buf[..done]
        decreases |buf| - done
      {
        var w := Write(buf[done..]);
        if w.Err? || w.value == 0 {
          return Err;
        }
        assert buf[..done + w.value] == buf[..done] + buf[done..][..w.value];
        done := done + w.value;
      }
      assert buf[..done] == buf;
      r := Ok(());
    }

    /** `Write::flush`: pushes out buffered bytes; the accepted bytes do not change. */
    method Flush() returns (r: IoResult<()>)
      modifies this
      ensures bytes == old(bytes)
      ensures growable ==> r.Ok?
    {
      if growable {
        r := Ok(());
      } else {
        var fails: bool :| true;
        r := if fails then Err else Ok(());
      }
    }

    /** `WriteBytesExt::write_u8`: `write_all` of one byte. */
    method WriteU8(b: u8) returns (r: IoResult<()>)
      modifies this
      ensures r.Ok? ==> bytes == old(bytes) + [b]
      ensures r.Err? ==> bytes == old(bytes)
      ensures growable ==> r.Ok?
    {
      r := WriteAll([b]);
    }

    /** `for b in s { try!(buf.write_u8(*b)) }`: the bytes of `s` one at a time;
        the first failing write ends the loop with that error. */
    method WriteEach(s: seq<u8>) returns (r: IoResult<()>)
      modifies this
      ensures r.Ok? ==> bytes == old(bytes) + s
      ensures r.Err? ==> PartialWrite(old(bytes), bytes, s)
      ensures growable ==> r.Ok?
    {
      r := Ok(());
      for k := 0 to |s|
        invariant bytes == old(bytes) + s[..k]
        invariant r.Ok?
      {
        r := WriteU8(s[k]);
        if r.Err? {
          PartialAt(old(bytes), s, k);
          return;
        }
        assert s[..k + 1] == s[..k] + [s[k]];
      }
      assert s[..|s|] == s;
    }

    /** `WriteBytesExt::write_u16::<LittleEndian>`. */
    method WriteU16Le(x: u16) returns (r: IoResult<()>)
      modifies this
      ensures r.Ok? ==> bytes == old(bytes) + Le16(x)
      ensures r.Err? ==> PartialWrite(old(bytes), bytes, Le16(x))
      ensures growable ==> r.Ok?
    {
      r := WriteAll(Le16(x));
    }

    /** `WriteBytesExt::write_u32::<T>` for the byte order `order`. */
    method WriteU32(order: ByteOrder, x: u32) returns (r: IoResult<()>)
      modifies this
      ensures r.Ok? ==> bytes == old(bytes) + U32Bytes(order, x)
      ensures r.Err? ==> PartialWrite(old(bytes), bytes, U32Bytes(order, x))
      ensures growable ==> r.Ok?
    {
      r := WriteAll(U32Bytes(order, x));
    }
  }
}

/** Fixed-width integers and the byte orders used by the DfuSe records.

    The Rust code writes its fields with the `byteorder` crate
    (`write_u16::<LittleEndian>`, `write_u32::<BigEndian>`, ...); the
    functions here give the bytes each of those calls produces, and the
    decoders that undo them. Integer casts (`as u32`, `as u8`) in the source
    truncate, and are written out as `Trunc32` and `Trunc8`. */
module Bytes {

  newtype u8 = x: int | 0 <= x < 0x100
  newtype u16 = x: int | 0 <= x < 0x1_0000
  newtype u32 = x: int | 0 <= x < 0x1_0000_0000

  /** Rust's `Option`. */
  datatype Option<T> = None | Some(value: T)

  /** The two byte orders a `ByteOrder` type parameter can stand for. */
  datatype ByteOrder = BigEndian | LittleEndian

  /** Little-endian decoding of two bytes. */
  function DecodeLe16(s: seq<u8>): u16
    requires |s| == 2
  {
    (s[0] as int + 0x100 * s[1] as int) as u16
  }

  /** Little-endian decoding of four bytes. */
  function DecodeLe32(s: seq<u8>): u32
    requires |s| == 4
  {
    (s[0] as int + 0x100 * (s[1] as int + 0x100 * (s[2] as int + 0x100 * s[3] as int))) as u32
  }

  /** Big-endian decoding of four bytes. */
  function DecodeBe32(s: seq<u8>): u32
    requires |s| == 4
  {
    DecodeLe32([s[3], s[2], s[1], s[0]])
  }

  /** Splitting `lo + 0x100 * hi` back into its two parts. */
  lemma DivMod256(lo: int, hi: int)
    requires 0 <= lo < 0x100 && 0 <= hi
    ensures (lo + 0x100 * hi) % 0x100 == lo && (lo + 0x100 * hi) / 0x100 == hi
  {
  }

  /** `write_u16::<LittleEndian>`: least significant byte first. */
  function Le16(x: u16): (r: seq<u8>)
    ensures |r| == 2 && DecodeLe16(r) == x
    ensures r[0] as int == x as int % 0x100
  {
    [(x % 0x100) as u8, (x / 0x100) as u8]
  }

  /** `write_u32::<LittleEndian>`: least significant byte first. */
  function Le32(x: u32): (r: seq<u8>)
    ensures |r| == 4 && DecodeLe32(r) == x
    ensures r[0] as int == x as int % 0x100
  {
    var q1 := x as int / 0x100;
    var q2 := q1 / 0x100;
    var q3 := q2 / 0x100;
    [(x as int % 0x100) as u8, (q1 % 0x100) as u8, (q2 % 0x100) as u8, q3 as u8]
  }

  /** `write_u32::<BigEndian>`: most significant byte first. */
  function Be32(x: u32): (r: seq<u8>)
    ensures |r| == 4 && DecodeBe32(r) == x
    ensures r[3] as int == x as int % 0x100
  {
    var le := Le32(x);
    [le[3], le[2], le[1], le[0]]
  }

  /** `T::write_u32` for a byte order `T`. */
  function U32Bytes(order: ByteOrder, x: u32): (r: seq<u8>)
    ensures |r| == 4
    ensures order == LittleEndian ==> DecodeLe32(r) == x
    ensures order == BigEndian ==> DecodeBe32(r) == x
  {
    match order
    case BigEndian => Be32(x)
    case LittleEndian => Le32(x)
  }

  /** Every four bytes are the encoding of their decoding: the encoders are bijections. */
  lemma Le32OfDecode(s: seq<u8>)
    requires |s| == 4
    ensures Le32(DecodeLe32(s)) == s
  {
    var t2 := s[2] as int + 0x100 * s[3] as int;
    var t1 := s[1] as int + 0x100 * t2;
    DivMod256(s[0] as int, t1);
    DivMod256(s[1] as int, t2);
    DivMod256(s[2] as int, s[3] as int);
  }

  lemma Be32OfDecode(s: seq<u8>)
    requires |s| == 4
    ensures Be32(DecodeBe32(s)) == s
  {
    Le32OfDecode([s[3], s[2], s[1], s[0]]);
  }

  lemma Le16OfDecode(s: seq<u8>)
    requires |s| == 2
    ensures Le16(DecodeLe16(s)) == s
  {
    DivMod256(s[0] as int, s[1] as int);
  }

  /** Rust's `n as u32` on a `usize`: keeps the low 32 bits. */
  function Trunc32(n: nat): (r: u32)
    ensures r as int == n % 0x1_0000_0000
    ensures n < 0x1_0000_0000 ==> r as int == n
  {
    (n % 0x1_0000_0000) as u32
  }

  /** Rust's `n as u8` on a `usize`: keeps the low 8 bits. */
  function Trunc8(n: nat): (r: u8)
    ensures r as int == n % 0x100
    ensures n < 0x100 ==> r as int == n
  {
    (n % 0x100) as u8
  }

  /** `a` is an initial segment of `b`. */
  predicate IsPrefix(a: seq<u8>, b: seq<u8>)
  {
    |a| <= |b| && b[..|a|] == a
  }

  /** The byte strings of `parts`, one after the other. */
  function Concat(parts: seq<seq<u8>>): seq<u8>
  {
    if parts == [] then [] else Concat(parts[..|parts| - 1]) + parts[|parts| - 1]
  }

  /** Concatenating two lists of byte strings one after the other. */
  lemma {:induction false} ConcatAppend(a: seq<seq<u8>>, b: seq<seq<u8>>)
    ensures Concat(a + b) == Concat(a) + Concat(b)
  {
    if b == [] {
      assert a + b == a;
    } else {
      var init := b[..|b| - 1];
      assert (a + b)[..|a + b| - 1] == a + init;
      ConcatAppend(a, init);
    }
  }

  /** Part `k` sits between the parts before it and those after it. */
  lemma {:induction false} ConcatSplit(parts: seq<seq<u8>>, k: nat)
    requires k < |parts|
    ensures Concat(parts[..k + 1]) == Concat(parts[..k]) + parts[k]
    ensures Concat(parts) == Concat(parts[..k]) + parts[k] + Concat(parts[k + 1..])
  {
    var pre, post := parts[..k + 1], parts[k + 1..];
    assert pre[..|pre| - 1] == parts[..k];
    assert Concat(pre) == Concat(parts[..k]) + parts[k];
    assert parts == pre + post;
    ConcatAppend(pre, post);
  }
}

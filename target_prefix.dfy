/** `TargetPrefix`: the 274-byte header in front of the elements of one image
    (signature, alternate setting, named flag, 255-byte name field, image
    size, number of elements). */
module TargetPrefix {
  import opened Bytes
  import opened Io

  /** `TargetPrefix::size()`. */
  const Size: nat := 274

  /** "Target" in ASCII. */
  const Signature: seq<u8> := [0x54, 0x61, 0x72, 0x67, 0x65, 0x74]

  /** The name field runs from offset 11 up to offset 266. */
  const NameStart: nat := 11
  const NameEnd: nat := 266
  const NameLength: nat := 255

  /** `n` zero bytes. */
  function Zeros(n: nat): (r: seq<u8>)
    ensures |r| == n && forall k :: 0 <= k < n ==> r[k] == 0
  {
    seq(n, _ => 0)
  }

  /** The part of a name that fits: its first 255 bytes. */
  function Kept(n: seq<u8>): (r: seq<u8>)
    ensures |r| <= NameLength && IsPrefix(r, n)
    ensures |n| <= NameLength ==> r == n
  {
    if |n| <= NameLength then n else n[..NameLength]
  }

  /** The name field: the kept part of the name, then zeros up to 255 bytes;
      all zeros for an unnamed target. */
  function NameField(name: Option<seq<u8>>): (r: seq<u8>)
    ensures |r| == NameLength
    ensures name.None? ==> forall k :: 0 <= k < NameLength ==> r[k] == 0
    ensures name.Some? ==> forall k :: 0 <= k < NameLength ==>
      r[k] == if k < |name.value| then name.value[k] else 0
  {
    match name
    case None => Zeros(NameLength)
    case Some(n) => Kept(n) + Zeros(NameLength - |Kept(n)|)
  }

  /** The named flag, a `u32`: 1 for a named target, 0 otherwise. */
  function NamedFlag(name: Option<seq<u8>>): (r: u32)
    ensures r <= 1 && (r == 1 <==> name.Some?)
  {
    if name.Some? then 1 else 0
  }

  /** `TargetPrefix::new(name, alternate, image_size, nb_elements)`; the name is
      the byte string `as_bytes()` gives. */
  datatype TargetPrefix = TargetPrefix(name: Option<seq<u8>>, alternate: u8, imageSize: u32, nbElements: u32) {

    /** The bytes `write_to` appends. */
    function Encode(): (r: seq<u8>)
      ensures |r| == Size
      ensures r[..6] == Signature && r[6] == alternate
      ensures DecodeBe32(r[7..NameStart]) == NamedFlag(name)
      ensures r[NameStart..NameEnd] == NameField(name)
      ensures DecodeLe32(r[NameEnd..270]) == imageSize && DecodeLe32(r[270..]) == nbElements
    {
      Signature + [alternate] + Be32(NamedFlag(name)) + NameField(name) + Le32(imageSize) + Le32(nbElements)
    }

    /** Where each field's bytes end in the encoding. */
    lemma Cuts()
      ensures var e := Encode();
        && e[..6] == e[..0] + Signature
        && e[..7] == e[..6] + [alternate]
        && e[..NameStart] == e[..7] + Be32(NamedFlag(name))
        && e[..NameEnd] == e[..NameStart] + NameField(name)
        && e[..270] == e[..NameEnd] + Le32(imageSize)
        && e[..Size] == e[..270] + Le32(nbElements)
        && e[..Size] == e
    {
    }

    /** `write_to`: the signature and the alternate setting byte by byte, the
        flag big-endian, the name field, then the two counts little-endian.
        The first failing write ends it with that error. */
    method WriteTo(buf: Sink) returns (r: IoResult<()>)
      modifies buf
      ensures r.Ok? ==> buf.bytes == old(buf.bytes) + Encode()
      ensures r.Err? ==> PartialWrite(old(buf.bytes), buf.bytes, Encode())
      ensures buf.growable ==> r.Ok?
    {
      var enc := Encode();
      Cuts();
      ghost var base := buf.bytes;
      ghost var mid := buf.bytes;
      r := buf.WriteEach(Signature);
      Extend(base, mid, buf.bytes, enc, 0, Signature);
      if r.Err? {
        return;
      }
      mid := buf.bytes;
      r := buf.WriteU8(alternate);
      Extend(base, mid, buf.bytes, enc, 6, [alternate]);
      if r.Err? {
        return;
      }
      mid := buf.bytes;
      r := buf.WriteU32(BigEndian, NamedFlag(name));
      Extend(base, mid, buf.bytes, enc, 7, Be32(NamedFlag(name)));
      if r.Err? {
        return;
      }
      mid := buf.bytes;
      r := WriteNameField(buf, name);
      Extend(base, mid, buf.bytes, enc, NameStart, NameField(name));
      if r.Err? {
        return;
      }
      mid := buf.bytes;
      r := buf.WriteU32(LittleEndian, imageSize);
      Extend(base, mid, buf.bytes, enc, NameEnd, Le32(imageSize));
      if r.Err? {
        return;
      }
      mid := buf.bytes;
      r := buf.WriteU32(LittleEndian, nbElements);
      Extend(base, mid, buf.bytes, enc, 270, Le32(nbElements));
    }
  }

  /** The name part of `write_to`, with its position counter `i` running from 11
      to 266: for a named target, name bytes while they last and `i < 266`, then
      zeros up to 266; for an unnamed one, zeros for `11..266`. */
  method WriteNameField(buf: Sink, name: Option<seq<u8>>) returns (r: IoResult<()>)
    modifies buf
    ensures r.Ok? ==> buf.bytes == old(buf.bytes) + NameField(name)
    ensures r.Err? ==> PartialWrite(old(buf.bytes), buf.bytes, NameField(name))
    ensures buf.growable ==> r.Ok?
  {
    var field := NameField(name);
    ghost var base := buf.bytes;
    r := Ok(());
    var i := NameStart;
    match name {
      case Some(txt) =>
        var k := 0;
        while k < |txt|
          invariant k <= |txt| && i == NameStart + k && i <= NameEnd
          invariant buf.bytes == base + field[..i - NameStart] && r.Ok?
        {
          if i < NameEnd {
            r := buf.WriteU8(txt[k]);
            if r.Err? {
              PartialAt(base, field, i - NameStart);
              return;
            }
            assert field[..k + 1] == field[..k] + [txt[k]];
            i := i + 1;
            k := k + 1;
          } else {
            break;
          }
        }
        while i < NameEnd
          invariant NameStart <= i <= NameEnd && (i - NameStart >= |txt| || i == NameEnd)
          invariant buf.bytes == base + field[..i - NameStart] && r.Ok?
        {
          r := buf.WriteU8(0);
          if r.Err? {
            PartialAt(base, field, i - NameStart);
            return;
          }
          assert field[..i - NameStart + 1] == field[..i - NameStart] + [0];
          i := i + 1;
        }
      case None =>
        while i < NameEnd
          invariant NameStart <= i <= NameEnd
          invariant buf.bytes == base + field[..i - NameStart] && r.Ok?
        {
          r := buf.WriteU8(0);
          if r.Err? {
            PartialAt(base, field, i - NameStart);
            return;
          }
          assert field[..i - NameStart + 1] == field[..i - NameStart] + [0];
          i := i + 1;
        }
    }
    assert field[..NameLength] == field;
  }

  /** Only the first 255 bytes of a name reach the file: two names that agree
      on them give the same header. */
  lemma SameKeptSameEncoding(t: TargetPrefix, u: TargetPrefix)
    requires t.name.Some? && u.name.Some? && Kept(t.name.value) == Kept(u.name.value)
    requires t.alternate == u.alternate && t.imageSize == u.imageSize && t.nbElements == u.nbElements
    ensures t.Encode() == u.Encode()
  {
    assert NameField(t.name) == NameField(u.name);
  }

  /** A name of 255 bytes or more fills the field: no zero terminator is left. */
  lemma LongNameFillsField(t: TargetPrefix)
    requires t.name.Some? && |t.name.value| >= NameLength
    ensures t.Encode()[NameStart..NameEnd] == t.name.value[..NameLength]
  {
  }

  /** The field cannot tell a name from the same name with zero bytes added
      (as long as it still fits): the two encode alike. */
  lemma TrailingZerosInvisible(t: TargetPrefix, extra: nat)
    requires t.name.Some? && |t.name.value| + extra <= NameLength
    ensures t.(name := Some(t.name.value + Zeros(extra))).Encode() == t.Encode()
  {
    var u := t.(name := Some(t.name.value + Zeros(extra)));
    assert NameField(u.name) == NameField(t.name);
  }

  /** Every field but the name is recovered from the header; the name is
      recovered up to its kept part and trailing zeros. */
  lemma EncodeDeterminesFields(t: TargetPrefix, u: TargetPrefix)
    requires t.Encode() == u.Encode()
    ensures t.alternate == u.alternate && t.imageSize == u.imageSize && t.nbElements == u.nbElements
    ensures t.name.Some? <==> u.name.Some?
    ensures NameField(t.name) == NameField(u.name)
  {
    assert DecodeBe32(t.Encode()[7..NameStart]) == NamedFlag(t.name);
    assert DecodeLe32(t.Encode()[NameEnd..270]) == t.imageSize;
    assert DecodeLe32(t.Encode()[270..]) == t.nbElements;
  }

  /** Name "ABCD", alternate 0xAB, image size 0x00FFFF00 and 0x3355AA00 elements:
      the flag reads 00 00 00 01, the name field starts "ABCD" and a zero, and
      the two counts are written least significant byte first. */
  lemma EncodeExample()
    ensures var e := TargetPrefix(Some([0x41, 0x42, 0x43, 0x44]), 0xAB, 0x00FF_FF00, 0x3355_AA00).Encode();
      && e[..7] == Signature + [0xAB]
      && e[7..NameStart] == [0x00, 0x00, 0x00, 0x01]
      && e[NameStart..NameStart + 5] == [0x41, 0x42, 0x43, 0x44, 0x00]
      && e[NameEnd..] == [0x00, 0xFF, 0xFF, 0x00, 0x00, 0xAA, 0x55, 0x33]
  {
    var t := TargetPrefix(Some([0x41, 0x42, 0x43, 0x44]), 0xAB, 0x00FF_FF00, 0x3355_AA00);
    var field := NameField(t.name);
    assert field[..5] == [0x41, 0x42, 0x43, 0x44, 0x00];
    var e := t.Encode();
    var head := Signature + [0xAB] + Be32(1);
    assert e == head + field + (Le32(0x00FF_FF00) + Le32(0x3355_AA00));
    assert e[NameStart..NameStart + 5] == field[..5];
  }
}

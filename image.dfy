/** `Image`: one firmware image for one alternate setting, a target prefix
    followed by its elements. */
module Image {
  import opened Bytes
  import opened Io
  import TargetPrefix
  import ImageElement

  type Element = ImageElement.ImageElement

  /** `elements_size`: the element sizes summed from the left, as the fold does. */
  function ElementsSize(es: seq<Element>): (r: nat)
    ensures r >= 8 * |es|
  {
    if es == [] then 0 else ElementsSize(es[..|es| - 1]) + es[|es| - 1].Size()
  }

  /** Each element's encoding, in list order. */
  function Encodings(es: seq<Element>): (r: seq<seq<u8>>)
    ensures |r| == |es|
  {
    seq(|es|, i requires 0 <= i < |es| => es[i].Encode())
  }

  /** The elements' encodings, one after the other in list order. */
  function EncodeElements(es: seq<Element>): seq<u8>
  {
    Concat(Encodings(es))
  }

  /** The elements take `elements_size` bytes. */
  lemma {:induction false} EncodeElementsLength(es: seq<Element>)
    ensures |EncodeElements(es)| == ElementsSize(es)
  {
    if es != [] {
      var init := es[..|es| - 1];
      assert Encodings(es)[..|es| - 1] == Encodings(init);
      EncodeElementsLength(init);
    }
  }

  /** Encoding two lists one after the other is encoding their concatenation. */
  lemma EncodeElementsAppend(a: seq<Element>, b: seq<Element>)
    ensures EncodeElements(a + b) == EncodeElements(a) + EncodeElements(b)
  {
    assert Encodings(a + b) == Encodings(a) + Encodings(b);
    ConcatAppend(Encodings(a), Encodings(b));
  }

  /** Element `k` sits between the elements before it and those after it. */
  lemma ElementsSplit(es: seq<Element>, k: nat)
    requires k < |es|
    ensures EncodeElements(es[..k + 1]) == EncodeElements(es[..k]) + Encodings(es)[k]
    ensures EncodeElements(es) == EncodeElements(es[..k]) + Encodings(es)[k] + EncodeElements(es[k + 1..])
  {
    var parts := Encodings(es);
    assert parts[..k] == Encodings(es[..k]);
    assert parts[..k + 1] == Encodings(es[..k + 1]);
    assert parts[k + 1..] == Encodings(es[k + 1..]);
    ConcatSplit(parts, k);
  }

  /** `Image { name, alternate, elements }`. */
  datatype Image = Image(name: Option<seq<u8>>, alternate: u8, elements: seq<Element>) {

    /** `size()`: the target prefix and the elements. */
    function Size(): (r: nat)
      ensures r >= TargetPrefix.Size + 8 * |elements|
    {
      TargetPrefix.Size + ElementsSize(elements)
    }

    /** The target prefix `write_to` builds: the image size field holds
        `elements_size() as u32` (the header is not counted), the element count
        `elements.len() as u32`. */
    function Target(): TargetPrefix.TargetPrefix
    {
      TargetPrefix.TargetPrefix(name, alternate, Trunc32(ElementsSize(elements)), Trunc32(|elements|))
    }

    /** The bytes `write_to` appends: the target prefix, then every element in order. */
    function Encode(): (r: seq<u8>)
      ensures |r| == Size()
    {
      EncodeElementsLength(elements);
      Target().Encode() + EncodeElements(elements)
    }

    /** Where the target prefix ends in the encoding. */
    lemma Cuts()
      ensures var e := Encode();
        && e[..0 + TargetPrefix.Size] == e[..0] + Target().Encode()
        && e[..TargetPrefix.Size + ElementsSize(elements)] == e[..TargetPrefix.Size] + EncodeElements(elements)
        && e[..TargetPrefix.Size + ElementsSize(elements)] == e
    {
      EncodeElementsLength(elements);
    }

    /** `write_to`: the target prefix, then the elements; the first failing
        write ends it with that error. */
    method WriteTo(buf: Sink) returns (r: IoResult<()>)
      modifies buf
      ensures r.Ok? ==> buf.bytes == old(buf.bytes) + Encode()
      ensures r.Err? ==> PartialWrite(old(buf.bytes), buf.bytes, Encode())
      ensures buf.growable ==> r.Ok?
    {
      var enc := Encode();
      Cuts();
      ghost var base := buf.bytes;
      ghost var mid := buf.bytes;
      var target := Target();
      r := target.WriteTo(buf);
      Extend(base, mid, buf.bytes, enc, 0, target.Encode());
      if r.Err? {
        return;
      }
      mid := buf.bytes;
      r := WriteElements(buf, elements);
      Extend(base, mid, buf.bytes, enc, TargetPrefix.Size, EncodeElements(elements));
    }
  }

  /** The loop of `Image::write_to`: each element's `write_to` on the same
      writer, in list order; the first failing write ends it with that error. */
  method WriteElements(buf: Sink, elements: seq<Element>) returns (r: IoResult<()>)
    modifies buf
    ensures r.Ok? ==> buf.bytes == old(buf.bytes) + EncodeElements(elements)
    ensures r.Err? ==> PartialWrite(old(buf.bytes), buf.bytes, EncodeElements(elements))
    ensures buf.growable ==> r.Ok?
  {
    ghost var base := buf.bytes;
    r := Ok(());
    for k := 0 to |elements|
      invariant buf.bytes == base + EncodeElements(elements[..k])
      invariant r.Ok?
    {
      ElementsSplit(elements, k);
      r := elements[k].WriteTo(buf);
      if r.Err? {
        PartialInside(base, EncodeElements(elements[..k]), Encodings(elements)[k],
          EncodeElements(elements[k + 1..]), EncodeElements(elements), buf.bytes);
        return;
      }
      AppendAssoc(base, EncodeElements(elements[..k]), Encodings(elements)[k]);
    }
    assert elements[..|elements|] == elements;
  }

  /** The image size field of the header counts the elements only (modulo 2^32),
      not the 274 header bytes, and the element count field counts the elements. */
  lemma HeaderFields(img: Image)
    ensures var e := img.Encode();
      && DecodeLe32(e[TargetPrefix.NameEnd..270]) as int == (img.Size() - TargetPrefix.Size) % 0x1_0000_0000
      && DecodeLe32(e[270..TargetPrefix.Size]) as int == |img.elements| % 0x1_0000_0000
  {
    var e := img.Encode();
    var h := img.Target().Encode();
    assert e[TargetPrefix.NameEnd..270] == h[TargetPrefix.NameEnd..270];
    assert e[270..TargetPrefix.Size] == h[270..];
  }
}

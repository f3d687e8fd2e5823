/** `DfuseFile`: a DfuSe file under construction, a list of images that grows
    one image at a time, and the byte construction of `write_to`. */
module DfuseFile {
  import opened Bytes
  import opened Io
  import Prefix
  import ImageElement
  import Image
  import TargetPrefix

  /** `Suffix::size()` of the `Suffix` stub the file uses (16); the 12-byte
      suffix record is never written by the file. */
  const StubSuffixSize: nat := 16

  /** The image sizes summed from the left, as the fold in `size()` does. */
  function ImagesSize(images: seq<Image.Image>): (r: nat)
    ensures r >= TargetPrefix.Size * |images|
  {
    if images == [] then 0 else ImagesSize(images[..|images| - 1]) + images[|images| - 1].Size()
  }

  /** `size()`: the prefix, the suffix stub, and every image. */
  function FileSize(images: seq<Image.Image>): (r: nat)
    ensures r >= Prefix.Size + StubSuffixSize + TargetPrefix.Size * |images|
  {
    Prefix.Size + StubSuffixSize + ImagesSize(images)
  }

  /** The prefix `write_to` builds: `size() as u32` and `images.len() as u8`. */
  function Header(images: seq<Image.Image>): (r: Prefix.Prefix)
    ensures r.size as int == FileSize(images) % 0x1_0000_0000
    ensures r.nbImages as int == |images| % 0x100
  {
    Prefix.Prefix(Trunc32(FileSize(images)), Trunc8(|images|))
  }

  /** Each image's encoding, in insertion order. */
  function ImageEncodings(images: seq<Image.Image>): (r: seq<seq<u8>>)
    ensures |r| == |images|
  {
    seq(|images|, i requires 0 <= i < |images| => images[i].Encode())
  }

  /** The images' encodings, one after the other in insertion order. */
  function EncodeImages(images: seq<Image.Image>): seq<u8>
  {
    Concat(ImageEncodings(images))
  }

  /** The bytes `write_to` gathers in `data` and hands to the writer. */
  function FileBytes(images: seq<Image.Image>): seq<u8>
  {
    Header(images).Encode() + EncodeImages(images)
  }

  /** The images take `ImagesSize` bytes. */
  lemma {:induction false} EncodeImagesLength(images: seq<Image.Image>)
    ensures |EncodeImages(images)| == ImagesSize(images)
  {
    if images != [] {
      var init := images[..|images| - 1];
      assert ImageEncodings(images)[..|images| - 1] == ImageEncodings(init);
      EncodeImagesLength(init);
    }
  }

  /** Image `k` sits between the images added before it and those added after it. */
  lemma ImagesSplit(images: seq<Image.Image>, k: nat)
    requires k < |images|
    ensures ImageEncodings(images)[k] == images[k].Encode()
    ensures EncodeImages(images[..k + 1]) == EncodeImages(images[..k]) + images[k].Encode()
    ensures EncodeImages(images) == EncodeImages(images[..k]) + images[k].Encode() + EncodeImages(images[k + 1..])
  {
    var parts := ImageEncodings(images);
    assert parts[..k] == ImageEncodings(images[..k]);
    assert parts[..k + 1] == ImageEncodings(images[..k + 1]);
    assert parts[k + 1..] == ImageEncodings(images[k + 1..]);
    ConcatSplit(parts, k);
  }

  /** The bytes written are 16 short of `size()`: the size counts a suffix
      that is never written. */
  lemma EmittedLength(images: seq<Image.Image>)
    ensures |FileBytes(images)| + StubSuffixSize == FileSize(images)
  {
    EncodeImagesLength(images);
  }

  /** The header's size field holds `size()` modulo 2^32, suffix stub included,
      and its image count holds the number of images modulo 256. */
  lemma HeaderFields(images: seq<Image.Image>)
    ensures var e := FileBytes(images);
      && |e| >= Prefix.Size
      && e[..5] == Prefix.Signature
      && DecodeLe32(e[6..10]) as int == FileSize(images) % 0x1_0000_0000
      && e[10] as int == |images| % 0x100
  {
    var e := FileBytes(images);
    var h := Header(images).Encode();
    assert e[..5] == h[..5];
    assert e[6..10] == h[6..10];
  }

  /** Adding an image adds its size to the file size. */
  lemma FileSizeAppend(images: seq<Image.Image>, img: Image.Image)
    ensures FileSize(images + [img]) == FileSize(images) + img.Size()
  {
    assert (images + [img])[..|images|] == images;
  }

  /** An unnamed image holding one element of `data` takes 274 + 8 + |data| bytes. */
  lemma UnnamedImageSize(alternate: u8, startAddress: u32, data: seq<u8>)
    ensures Image.Image(None, alternate, [ImageElement.ImageElement(startAddress, data)]).Size()
      == 274 + 8 + |data|
  {
    var es := [ImageElement.ImageElement(startAddress, data)];
    assert es[..0] == [];
    assert Image.ElementsSize(es) == Image.ElementsSize([]) + es[0].Size();
  }

  /** `DfuseFile { images }`. */
  class DfuseFile {
    /** The images, in the order they were added. */
    var images: seq<Image.Image>

    /** `DfuseFile::new()`: no images. */
    constructor New()
      ensures images == []
    {
      images := [];
    }

    /** `add_unamed_image`: appends one unnamed image for `alternate` with a
        single element at `startAddress`; the images already there stay. */
    method AddUnnamedImage(alternate: u8, startAddress: u32, data: seq<u8>)
      modifies this
      ensures images == old(images) + [Image.Image(None, alternate, [ImageElement.ImageElement(startAddress, data)])]
    {
      var element := ImageElement.ImageElement(startAddress, data);
      var image := Image.Image(None, alternate, [element]);
      images := images + [image];
    }

    /** `size()`. */
    function Size(): nat
      reads this
    {
      FileSize(images)
    }

    /** `write_to`: the prefix and then every image into a fresh `Vec` (where
        no write can fail), then that `Vec` to `buf` through a `BufWriter`
        with `write_all`. The `BufWriter` is dropped without `flush`: bytes it
        still holds are flushed on drop and an error there is discarded, so
        `Ok` promises only a prefix of the file, and all of it on a `Vec`. */
    method WriteTo(buf: Sink) returns (r: IoResult<()>)
      modifies buf
      ensures r.Ok? ==> buf.bytes == old(buf.bytes) + FileBytes(images) || PartialWrite(old(buf.bytes), buf.bytes, FileBytes(images))
      ensures r.Err? ==> PartialWrite(old(buf.bytes), buf.bytes, FileBytes(images))
      ensures buf.growable ==> r.Ok? && buf.bytes == old(buf.bytes) + FileBytes(images)
    {
      var data := new Sink.Vec();
      var prefix := Prefix.Prefix(Trunc32(Size()), Trunc8(|images|));
      assert prefix == Header(images);
      // The `try!`s around these two writes never return early: `data` is a `Vec`.
      var w := prefix.WriteTo(data);
      assert w.Ok?;
      w := WriteImages(data, images);
      assert w.Ok?;
      ghost var bytes := FileBytes(images);
      assert data.bytes == bytes;
      r := buf.WriteAll(data.bytes);
      if r.Err? {
        // Either `write_all` itself reported the error, or it only filled the
        // `BufWriter`'s buffer and the failure came in the flush on drop.
        var inDrop: bool :| true;
        if inDrop {
          r := Ok(());
        }
      }
    }
  }

  /** The loop of `write_to`: each image's `write_to` on the same writer, in
      insertion order; the first failing write ends it with that error. */
  method WriteImages(buf: Sink, images: seq<Image.Image>) returns (r: IoResult<()>)
    modifies buf
    ensures r.Ok? ==> buf.bytes == old(buf.bytes) + EncodeImages(images)
    ensures r.Err? ==> PartialWrite(old(buf.bytes), buf.bytes, EncodeImages(images))
    ensures buf.growable ==> r.Ok?
  {
    ghost var base := buf.bytes;
    r := Ok(());
    for k := 0 to |images|
      invariant buf.bytes == base + EncodeImages(images[..k])
      invariant r.Ok?
    {
      ImagesSplit(images, k);
      r := images[k].WriteTo(buf);
      if r.Err? {
        PartialInside(base, EncodeImages(images[..k]), images[k].Encode(),
          EncodeImages(images[k + 1..]), EncodeImages(images), buf.bytes);
        return;
      }
      AppendAssoc(base, EncodeImages(images[..k]), images[k].Encode());
    }
    assert images[..|images|] == images;
  }
}

# dfuse-rs in Dafny

A model of the core of `dfuse`, a Rust library that builds DfuSe firmware
files: the extension by STMicroelectronics of the USB DFU 1.1 file format.
A DfuSe file is an 11-byte prefix ("DfuSe", version, file size, image
count) followed by images. Each image is a 274-byte target prefix
("Target", alternate setting, named flag, 255-byte name, image size,
element count) followed by its elements. Each element is a start address,
a length and the data. A complete file ends in a DFU suffix and a
CRC-32/JAMCRC checksum.

The model follows the code as written, in the code's own form:

- Each record (`Prefix`, `TargetPrefix`, `ImageElement`, `Image`, `Suffix`)
  is a Dafny `datatype` with a pure `Encode()` giving its bytes, and a
  `WriteTo` method. `WriteTo` appends to a mutable writer (`Io.Sink`) step by
  step, with the loops the Rust code has. Each `WriteTo` is proved to append
  exactly `Encode()` when it succeeds, a strict initial part of it when a
  write fails, and always to succeed on a `Vec`.
- `Crc.Crc32` is a class over the Rust struct's fields and its 256-entry
  table (an `array`). Its table-driven `add` is proved equal to a bitwise
  reference, `Crc.AddByte`: eight steps of polynomial division per byte.
  The check value of CRC-32/JAMCRC ("123456789" gives 0x340BC6D9, the
  test in `src/tools/crc.rs`) is proved of that reference.
- `CrcBuffered.BufWriterWithCrc` feeds exactly the bytes its writer accepts
  into the checksum, and `WriteCrc` appends the JAMCRC of all bytes written
  since the last reset.
- `src/lib.rs:34-38` declares no `mod tools`, so `src/tools/crc.rs`,
  `src/tools/crc_buffered.rs` and the test inside them are not compiled into
  the crate. The model covers those two files as written.
- `DfuseFile.DfuseFile` is a class whose image list grows by
  `AddUnnamedImage`. Its `WriteTo` builds the prefix and the images in a
  fresh `Vec`, then hands them to the caller's writer.

Byte orders follow the code, not the tests marked `#[ignore]`. The prefix's
size and the target prefix's two counts are written little-endian, although
those ignored tests expect big-endian; `Prefix.EncodeExample` and
`TargetPrefix.EncodeExample` state the bytes the code produces for the tests'
inputs.

The file writer follows the code, not the format's design. A complete DfuSe
file ends in the suffix and its CRC, and its size field counts them. The code
does two things instead:

- `size()` counts 11 bytes of prefix, a 16-byte stub suffix
  (`src/elements/mod.rs:23-30`) and the images.
- `write_to` writes the prefix and the images only.

So the bytes written are 16 short of the size recorded in the header
(`DfuseFile.EmittedLength`, `DfuseFile.HeaderFields`).

## Model

| member | source | states |
|---|---|---|
| Bytes.Le16 | src/elements/suffix.rs:35-40 | `write_u16::<LittleEndian>` gives two bytes, low byte first, that decode back to the value |
| Bytes.Le32 | src/elements/prefix.rs:38 | `write_u32::<LittleEndian>` gives four bytes, low byte first, that decode back to the value |
| Bytes.Be32 | src/elements/image_element.rs:31-32 | `write_u32::<BigEndian>` gives four bytes, high byte first, that decode back to the value |
| Bytes.U32Bytes | src/tools/crc_buffered.rs:31-33 | `T::write_u32` for either byte order gives four bytes that decode back in that order |
| Bytes.Le16OfDecode | src/elements/suffix.rs:35-37 | every two bytes are the little-endian encoding of their decoding, so the 16-bit encoder is onto |
| Bytes.Le32OfDecode | src/elements/prefix.rs:38 | every four bytes are the little-endian encoding of their decoding |
| Bytes.Be32OfDecode | src/elements/image_element.rs:31-32 | every four bytes are the big-endian encoding of their decoding |
| Bytes.Trunc32 | src/elements/image_element.rs:32 | `as u32` on a length keeps it modulo 2^32, and keeps it unchanged below 2^32 |
| Bytes.Trunc8 | src/file.rs:69 | `as u8` on the image count keeps it modulo 256, and unchanged below 256 |
| Io.Sink.Write | src/tools/crc_buffered.rs:46 | `write` takes an initial part of the buffer and reports its length, or fails having taken nothing; a `Vec` takes all of it |
| Io.Sink.WriteAll | src/elements/suffix.rs:43 | `write_all` appends the whole buffer, or fails after a strict initial part; a `Vec` never fails |
| Io.Sink.Flush | src/tools/crc_buffered.rs:62-64 | `flush` changes no accepted byte and succeeds on a `Vec` |
| Io.Sink.WriteU8 | src/elements/prefix.rs:37 | `write_u8` appends one byte or nothing |
| Io.Sink.WriteEach | src/elements/prefix.rs:34-36 | the byte-at-a-time loop appends all of the bytes, or stops at the first failure after an initial part |
| Io.Sink.WriteU16Le | src/elements/suffix.rs:35 | `write_u16::<LittleEndian>` appends `Le16(x)` or a strict initial part of it |
| Io.Sink.WriteU32 | src/elements/prefix.rs:38 | `write_u32` appends the four bytes of `x` in the given order, or a strict initial part of them |
| Io.Sink.Vec | src/file.rs:67 | a new `Vec` is empty and growable |
| Crc.Reflect8 | src/tools/crc.rs:14-21 | bit `pos` of the input is bit `7 - pos` of the result, for every bit |
| Crc.Reflect32 | src/tools/crc.rs:23-30 | bit `pos` of the input is bit `31 - pos` of the result, for every bit |
| Crc.Reflect8Involutive | src/tools/crc.rs:14-21 | reflecting a byte twice gives it back |
| Crc.Reflect32Involutive | src/tools/crc.rs:23-30 | reflecting a word twice gives it back |
| Crc.Swap8 | src/tools/crc.rs:14-21 | `swap8`'s loop over the eight bit positions returns the reflected byte |
| Crc.Swap32 | src/tools/crc.rs:23-30 | `swap32`'s loop over the 32 bit positions returns the reflected word |
| Crc.AddByte | src/tools/crc.rs:92-101 | the reference for `add`: the input byte (reflected when `ref_in`) XORed into the register's top byte, then eight steps of polynomial division |
| Crc.AddBytes | src/tools/crc_buffered.rs:50-52 | the register after `add` on each byte of the data, in order |
| Crc.AddBytesAppend | src/tools/crc_buffered.rs:50-52 | feeding two byte strings one after the other gives the register of feeding their concatenation |
| Crc.Finalized | src/tools/crc.rs:103-111 | `_finalize`: the register reflected when `ref_out`, then XOR `xor_out` |
| Crc.FinalizedInvertible | src/tools/crc.rs:103-111 | finalizing loses nothing: undoing the XOR and then the reflection gives the register back |
| Crc.JamCrc | src/tools/crc.rs:45-57 | the CRC-32/JAMCRC checksum: the JAM parameters from 0xFFFFFFFF over the data, finalized |
| Crc.TableOfSplit | src/tools/crc.rs:65-79 | eight division steps on a register split into its top byte `b` and the rest `lo` equal table entry `b` XOR `lo` shifted left by a byte |
| Crc.TableAddIsSteps | src/tools/crc.rs:98-100 | the table lookup at the top byte of register XOR input, XOR the register shifted left by 8, equals eight division steps on register XOR input |
| Crc.AddByteByTable | src/tools/crc.rs:92-101 | `add`'s table formula equals the bitwise reference `AddByte`, reflected input included |
| Crc.Crc32.NewJam | src/tools/crc.rs:45-57 | `new_jam` gives the JAMCRC parameters, a table holding every entry, and the register at 0xFFFFFFFF |
| Crc.Crc32.Init | src/tools/crc.rs:59-63 | `_new` leaves a full table and the register at `initial` |
| Crc.Crc32.InitTable | src/tools/crc.rs:65-79 | after `_init_table`, entry `i` is byte `i` in the top byte after eight division steps, for all 256 entries |
| Crc.Crc32.Reset | src/tools/crc.rs:87-89 | `reset` sets the register to `initial` and changes nothing else |
| Crc.Crc32.Add | src/tools/crc.rs:92-101 | `add` moves the register to `AddByte` of the old register and the byte |
| Crc.Crc32.Finalize | src/tools/crc.rs:103-115 | `finalize` returns the register reflected when `ref_out`, XOR `xor_out` |
| Crc.Crc32.GetAndReset | src/tools/crc.rs:117-121 | `get_and_reset` returns the finalized old register and leaves the register at `initial` |
| Crc.CheckRegisters | src/tools/crc.rs:128-140 | the register after each byte of "123456789" |
| Crc.JamFinal | src/tools/crc.rs:104-111 | finalizing the last register of the check gives 0x340BC6D9 |
| Crc.JamCheckValue | src/tools/crc.rs:128-140 | the JAMCRC of "123456789" is 0x340BC6D9 |
| CrcBuffered.CrcBytes | src/tools/crc_buffered.rs:32-33 | the checksum's four bytes decode back to it in the chosen byte order |
| CrcBuffered.BufWriterWithCrc.New | src/tools/crc_buffered.rs:23-28 | `new` wraps the given writer with a fresh JAM engine whose register is 0xFFFFFFFF, and nothing hashed yet |
| CrcBuffered.BufWriterWithCrc.Write | src/tools/crc_buffered.rs:45-59 | the inner result is returned; on `Ok(i)` exactly the first `i` bytes reach the writer and the checksum, in order; on an error neither changes |
| CrcBuffered.BufWriterWithCrc.Hash | src/tools/crc_buffered.rs:50-52 | the loop of `write`: each accepted byte goes into the checksum, in order, and joins the bytes hashed since the last reset |
| CrcBuffered.BufWriterWithCrc.WriteCrc | src/tools/crc_buffered.rs:31-35 | the JAMCRC of exactly the bytes written since the last reset is written in the chosen order (all four bytes, or an initial part on failure), and the engine is reset even when that write fails |
| CrcBuffered.BufWriterWithCrc.ResetCrc | src/tools/crc_buffered.rs:38-40 | `reset_crc` puts the register back to 0xFFFFFFFF and forgets the bytes hashed so far |
| CrcBuffered.BufWriterWithCrc.Flush | src/tools/crc_buffered.rs:62-64 | `flush` changes no accepted byte |
| Prefix.Prefix.Encode | src/elements/prefix.rs:27-43 | the prefix is `size()` = 11 bytes: "DfuSe", version 1, the size little-endian, the image count |
| Prefix.Prefix.WriteTo | src/elements/prefix.rs:31-43 | `write_to` appends the encoding, or a strict initial part of it on the first failing write |
| Prefix.EncodeInjective | src/elements/prefix.rs:31-43 | different prefixes never encode to the same bytes |
| Prefix.EncodeExample | src/elements/prefix.rs:61-88 | size 0x00FFAA55 with 0x33 images encodes as "DfuSe" 01 55 AA FF 00 33 |
| TargetPrefix.NameField | src/elements/target_prefix.rs:46-74 | the name field is 255 bytes: byte `k` is name byte `k` while the name lasts and zero after it; all zeros for an unnamed target |
| TargetPrefix.Kept | src/elements/target_prefix.rs:52-60 | the name bytes that fit in the field: at most 255, an initial part of the name, all of it when it fits |
| TargetPrefix.NamedFlag | src/elements/target_prefix.rs:46-69 | the named flag is 1 exactly when there is a name, and 0 otherwise |
| TargetPrefix.TargetPrefix.Encode | src/elements/target_prefix.rs:35-80 | the header is `size()` = 274 bytes: "Target", the alternate, the named flag big-endian, the name field, the two counts little-endian |
| TargetPrefix.TargetPrefix.WriteTo | src/elements/target_prefix.rs:39-80 | `write_to` appends the encoding, or a strict initial part of it on the first failing write |
| TargetPrefix.WriteNameField | src/elements/target_prefix.rs:46-74 | the counter loops (name bytes while `i < 266`, then zero padding, or 255 zeros when unnamed) append exactly the name field |
| TargetPrefix.SameKeptSameEncoding | src/elements/target_prefix.rs:52-60 | names that agree on their first 255 bytes give the same header |
| TargetPrefix.LongNameFillsField | src/elements/target_prefix.rs:52-60 | a name of 255 bytes or more fills the field with its first 255 bytes, with no zero terminator |
| TargetPrefix.TrailingZerosInvisible | src/elements/target_prefix.rs:61-64 | a name and the same name with zero bytes added (still fitting) give the same header |
| TargetPrefix.EncodeDeterminesFields | src/elements/target_prefix.rs:39-80 | equal headers have equal alternates, counts, named flags and name fields |
| TargetPrefix.EncodeExample | src/elements/target_prefix.rs:112-146 | for "ABCD", 0xAB, 0x00FFFF00, 0x3355AA00: flag 00 00 00 01, name "ABCD" then zero, counts 00 FF FF 00 and 00 AA 55 33 |
| ImageElement.ImageElement.Encode | src/elements/image_element.rs:26-39 | an element is `size()` = 8 + len bytes: address big-endian, length modulo 2^32 big-endian, the data |
| ImageElement.ImageElement.Size | src/elements/image_element.rs:26-28 | `size()`: the 8 header bytes plus the data length |
| ImageElement.ImageElement.WriteTo | src/elements/image_element.rs:30-39 | `write_to` appends the encoding, or a strict initial part of it on the first failing write |
| ImageElement.EncodeInjective | src/elements/image_element.rs:30-39 | different elements never encode to the same bytes |
| ImageElement.EncodeExample | src/elements/image_element.rs:60-83 | address 0x008CFFFF with data 33 44 55 encodes as 00 8C FF FF 00 00 00 03 33 44 55 |
| Suffix.Suffix.Encode | src/elements/suffix.rs:30-48 | the suffix is `size()` = 12 bytes: the three ids little-endian, 1A 01, "UFD", 16 |
| Suffix.Suffix.WriteTo | src/elements/suffix.rs:34-48 | `write_to` appends the encoding, or a strict initial part of it on the first failing write |
| Suffix.New | src/elements/suffix.rs:22-28 | `new()` sets every id to 0xFFFF, so it encodes as FF FF FF FF FF FF 1A 01 55 46 44 10 |
| Suffix.EncodeInjective | src/elements/suffix.rs:34-48 | different suffixes never encode to the same bytes |
| Suffix.EncodeExample | src/elements/suffix.rs:74-115 | ids 0x3344, 0x4433, 0xFF00 encode as 44 33 33 44 00 FF 1A 01 55 46 44 10 |
| Image.EncodeElementsLength | src/elements/image.rs:28-30 | the elements' bytes total `elements_size()`, the fold of their sizes |
| Image.ElementsSize | src/elements/image.rs:28-30 | `elements_size()`: the element sizes summed from the left, at least 8 per element |
| Image.Image.Size | src/elements/image.rs:24-26 | `size()`: the 274-byte target prefix plus `elements_size()`, so at least 274 + 8 per element |
| Image.Image.Target | src/elements/image.rs:33-37 | the target prefix `write_to` builds: the name, the alternate, `elements_size() as u32` and `len() as u32` |
| Image.EncodeElementsAppend | src/elements/image.rs:39-41 | the bytes of two element lists in turn are the bytes of their concatenation |
| Image.ElementsSplit | src/elements/image.rs:39-41 | element `k`'s bytes sit right after those of the elements before it |
| Image.Image.Encode | src/elements/image.rs:24-43 | an image is `size()` = 274 + `elements_size()` bytes |
| Image.Image.Cuts | src/elements/image.rs:32-43 | the image's bytes are the target prefix's bytes, then the elements' bytes |
| Image.Image.WriteTo | src/elements/image.rs:32-43 | `write_to` appends the target prefix and then every element, or a strict initial part on the first failing write |
| Image.WriteElements | src/elements/image.rs:39-41 | the element loop appends every element in order, or stops at the first failure after an initial part |
| Image.HeaderFields | src/elements/image.rs:33-36 | the header's image size is `elements_size()` modulo 2^32 (the 274 header bytes are not counted), its element count the number of elements |
| DfuseFile.EncodeImagesLength | src/file.rs:60-62 | the images' bytes total the sum of their sizes |
| DfuseFile.ImagesSize | src/file.rs:60-62 | the image sizes summed from the left, at least 274 per image |
| DfuseFile.FileSize | src/file.rs:60-62 | `size()`: 11 for the prefix, 16 for the stub suffix, and the images, so at least 27 + 274 per image |
| DfuseFile.Header | src/file.rs:69 | the prefix `write_to` builds holds `size()` modulo 2^32 and the image count modulo 256 |
| DfuseFile.FileBytes | src/file.rs:67-74 | the bytes `write_to` gathers in `data`: the prefix, then each image in insertion order |
| DfuseFile.ImagesSplit | src/file.rs:72-74 | image `k`'s bytes sit right after those of the images added before it |
| DfuseFile.EmittedLength | src/file.rs:60-77 | the bytes written are `size()` minus 16: the stub suffix is counted but never written |
| DfuseFile.HeaderFields | src/file.rs:67-70 | the file header is "DfuSe" ..., with `size()` modulo 2^32 (stub suffix included) and the image count modulo 256 |
| DfuseFile.FileSizeAppend | src/file.rs:60-62 | adding an image adds its size to `size()` |
| DfuseFile.UnnamedImageSize | src/file.rs:45-58 | an unnamed image of one element takes 274 + 8 + len bytes |
| DfuseFile.DfuseFile.New | src/file.rs:40-42 | `new()` has no images |
| DfuseFile.DfuseFile.AddUnnamedImage | src/file.rs:45-58 | exactly one image is appended, unnamed, with the given alternate and a single element; earlier images stay |
| DfuseFile.DfuseFile.Size | src/file.rs:60-62 | `size()` of the file's current images |
| DfuseFile.DfuseFile.WriteTo | src/file.rs:64-79 | the prefix of (`size() as u32`, `len as u8`) and every image in order reach the writer; on a failing writer only a strict initial part, possibly reported `Ok` (see below) |
| DfuseFile.WriteImages | src/file.rs:72-74 | the image loop appends every image in order, or stops at the first failure after an initial part |

## Left out

- The `std::io` error kinds: an error is one value, `Err`.
- `BufWriter` buffering is not modelled byte by byte. In `BufWriterWithCrc`,
  the writer stands for the `BufWriter` itself: its bytes are the ones the
  `BufWriter` accepted, whether still buffered or handed on.
- DfuseFile.DfuseFile.WriteTo: its `Ok` promises only that the writer holds
  a prefix of the file bytes (all of them on a `Vec`). The `BufWriter` is
  dropped without `flush`, and an error in the flush on drop is discarded,
  so this contract is as weak as the code's guarantee.
- The `println!` of every table entry in `_init_table`: console output.
- The `crc` crate digest in `write_to` (`src/file.rs:17-19, 66, 76`): a
  foreign call whose result is discarded.
- `tests/create_dfufile.rs`: it writes a file on disk.
- `src/lib.rs` and the module wiring of `src/elements/mod.rs`: only the
  stub `Suffix::size()` of 16 is kept, as `DfuseFile.StubSuffixSize`.
  `suffix.rs` is modelled on its own, though nothing in the wiring uses it.
- Names are byte strings, the bytes `as_bytes()` gives: UTF-8 encoding of a
  Rust `String` is not modelled.
- Sizes are unbounded naturals: `usize` overflow of the size folds is not
  modelled. Casts to `u32` and `u8` are modelled with `Trunc32` and `Trunc8`.
- `finalize` consumes the engine in Rust. `Crc.Crc32.Finalize` leaves it
  unchanged instead, which no caller can observe.

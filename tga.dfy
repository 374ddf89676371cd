/**
 * The TGA codec of the image module (Truevision TGA File Format
 * Specification, version 2.0): the 18-byte header's ID length (field 1),
 * image type (field 3) and image specification (fields 5.3 to 5.6), the
 * uncompressed and run-length encoded pixel data of image types 2, 3, 10
 * and 11, and the choice of codec by file-name extension. Files are byte
 * sequences; a failed check in the source is an `Err` here.
 */
module Tga {
  import opened Indexing
  import opened Images

  /** The checks of the loader, in the order it makes them. */
  datatype Error =
    | ShortHeader      // fewer than 18 bytes
    | BadDimensions    // width or height is 0
    | BadDepth         // pixel depth is not 8, 24 or 32
    | BadIdLength      // an image ID field is present
    | BadImageType     // neither uncompressed (2, 3) nor run-length encoded (10, 11)
    | ShortData        // the file ends before the pixel data does
    | PacketOverrun    // a run-length packet runs past the end of the buffer
    | UnknownFormat    // the file name does not end in ".tga"

  datatype Result<T> = Ok(value: T) | Err(error: Error)

  const HeaderSize := 18

  /** What the header says about the image. */
  datatype Layout = Layout(width: int, height: int, channels: int, rle: bool, descriptor: byte)

  /** A decoded image: its size and its pixel bytes in buffer order. */
  datatype Decoded = Decoded(width: int, height: int, channels: int, pixels: seq<byte>)

  /** A little-endian 16-bit field: lsb | msb << 8. */
  function Field16(lsb: byte, msb: byte): (v: int)
    ensures 0 <= v < 65536
  {
    lsb + msb * 256
  }

  /** The header checks of load_tga: enough bytes, a non-empty size, a depth of 8, 24 or 32, no ID field, a known type. */
  function ParseHeader(file: seq<byte>): (r: Result<Layout>)
    ensures r.Ok? ==> |file| >= HeaderSize
    ensures r.Ok? ==> 1 <= r.value.width < 65536 && 1 <= r.value.height < 65536
    ensures r.Ok? ==> r.value.channels in {1, 3, 4} && r.value.channels * 8 == file[16]
    ensures r.Ok? ==> file[0] == 0 && r.value.descriptor == file[17]
    ensures r.Ok? ==> (r.value.rle <==> file[2] in {10, 11}) && file[2] in {2, 3, 10, 11}
    ensures r.Ok? ==> r.value.width == Field16(file[12], file[13]) && r.value.height == Field16(file[14], file[15])
    ensures (|file| >= HeaderSize && Field16(file[12], file[13]) > 0 && Field16(file[14], file[15]) > 0 &&
             file[16] in {8, 24, 32} && file[0] == 0 && file[2] in {2, 3, 10, 11}) ==> r.Ok?
    ensures r == Err(ShortHeader) <==> |file| < HeaderSize
  {
    if |file| < HeaderSize then Err(ShortHeader)
    else
      var width := Field16(file[12], file[13]);
      var height := Field16(file[14], file[15]);
      var depth := file[16];
      if !(width > 0 && height > 0) then Err(BadDimensions)
      else if !(depth == 8 || depth == 24 || depth == 32) then Err(BadDepth)
      else if file[0] != 0 then Err(BadIdLength)
      else if file[2] == 2 || file[2] == 3 then Ok(Layout(width, height, depth / 8, false, file[17]))
      else if file[2] == 10 || file[2] == 11 then Ok(Layout(width, height, depth / 8, true, file[17]))
      else Err(BadImageType)
  }

  /** Bit 7 of a packet header: a run-length packet rather than a raw one. */
  predicate RunPacket(h: byte)
  {
    h >= 128
  }

  /** (header & 0x7F) + 1: the number of pixels in a packet. */
  function PacketCount(h: byte): (c: int)
    ensures 1 <= c <= 128
  {
    h % 128 + 1
  }

  /** `p` written `n` times in a row. */
  function Repeat(p: seq<byte>, n: nat): (s: seq<byte>)
    ensures |s| == n * |p|
  {
    if n == 0 then [] else MulSucc(n - 1, |p|); Repeat(p, n - 1) + p
  }

  /** `prefix` followed by the result, or the same error. */
  function Prepend(prefix: seq<byte>, r: Result<seq<byte>>): Result<seq<byte>>
  {
    match r
    case Ok(s) => Ok(prefix + s)
    case Err(e) => Err(e)
  }

  lemma PrependPrepend(a: seq<byte>, b: seq<byte>, r: Result<seq<byte>>)
    ensures Prepend(a, Prepend(b, r)) == Prepend(a + b, r)
  {
    if r.Ok? {
      assert a + (b + r.value) == (a + b) + r.value;
    }
  }

  /**
   * The run-length data for `remaining` more bytes of an image with `ch`
   * channels, read from position `pos` of the file. Each packet is a
   * header byte and then either one pixel, repeated, or that many pixels.
   */
  function DecodeRle(file: seq<byte>, pos: nat, ch: int, remaining: int): (r: Result<seq<byte>>)
    requires ch >= 1
    ensures r.Ok? ==> |r.value| == if remaining < 0 then 0 else remaining
    ensures r.Err? ==> remaining > 0 && r.error in {ShortData, PacketOverrun}
    decreases remaining
  {
    if remaining <= 0 then Ok([])
    else if pos >= |file| then Err(ShortData)
    else
      var h := file[pos];
      var count := PacketCount(h);
      if count * ch > remaining then Err(PacketOverrun)
      else if RunPacket(h) then
        if pos + 1 + ch > |file| then Err(ShortData)
        else Prepend(Repeat(file[pos + 1..pos + 1 + ch], count), DecodeRle(file, pos + 1 + ch, ch, remaining - count * ch))
      else
        if pos + 1 + count * ch > |file| then Err(ShortData)
        else Prepend(file[pos + 1..pos + 1 + count * ch], DecodeRle(file, pos + 1 + count * ch, ch, remaining - count * ch))
  }

  /** Bit `bit` (a power of two) of the image descriptor. */
  predicate DescriptorBit(d: byte, bit: int)
    requires bit > 0
  {
    d / bit % 2 == 1
  }

  /**
   * load_tga on the bytes of a file: the header, the pixel data (raw or
   * run-length) and the flips the descriptor asks for (bit 5 top to
   * bottom, then bit 4 left to right).
   */
  function Decode(file: seq<byte>): (r: Result<Decoded>)
    ensures r.Ok? ==> ParseHeader(file).Ok? && r.value.width == ParseHeader(file).value.width
    ensures r.Ok? ==> r.value.height == ParseHeader(file).value.height && r.value.channels == ParseHeader(file).value.channels
    ensures r.Ok? ==> |r.value.pixels| == BufferSize(r.value.width, r.value.height, r.value.channels)
  {
    match ParseHeader(file)
    case Err(e) => Err(e)
    case Ok(l) =>
      var size := BufferSize(l.width, l.height, l.channels);
      assert size > 0 by {
        MulLeq(1, l.width, l.height);
        MulLeq(1, l.width * l.height, l.channels);
      }
      var data :=
        if l.rle then DecodeRle(file, HeaderSize, l.channels, size)
        else if |file| - HeaderSize >= size then Ok(file[HeaderSize..HeaderSize + size])
        else Err(ShortData);
      match data
      case Err(e) => Err(e)
      case Ok(px) =>
        var v := if DescriptorBit(l.descriptor, 0x20) then FlipVOf(px, l.width, l.height, l.channels) else px;
        var f := if DescriptorBit(l.descriptor, 0x10) then FlipHOf(v, l.width, l.height, l.channels) else v;
        Ok(Decoded(l.width, l.height, l.channels, f))
  }

  /** The header save_tga writes: zero except type, width, height and depth. */
  function EncodeHeader(w: int, h: int, ch: int): (hd: seq<byte>)
    requires w >= 0 && h >= 0 && 1 <= ch <= 4
    ensures |hd| == HeaderSize
  {
    [0, 0, if ch == 1 then 3 else 2, 0, 0, 0, 0, 0, 0, 0, 0, 0,
     w % 256, w / 256 % 256, h % 256, h / 256 % 256, ch * 8 % 256, 0]
  }

  /** The file save_tga writes: the header, then the buffer as it is. */
  function Encode(w: int, h: int, ch: int, buffer: seq<byte>): (file: seq<byte>)
    requires w >= 0 && h >= 0 && 1 <= ch <= 4
    ensures |file| == HeaderSize + |buffer|
  {
    EncodeHeader(w, h, ch) + buffer
  }

  /** Saving and loading again gives back the image, for 1, 3 and 4 channels and at most 65535 pixels per side. */
  lemma SaveLoad(w: int, h: int, ch: int, buffer: seq<byte>)
    requires 0 < w < 65536 && 0 < h < 65536 && ch in {1, 3, 4} && |buffer| == BufferSize(w, h, ch)
    ensures Decode(Encode(w, h, ch, buffer)) == Ok(Decoded(w, h, ch, buffer))
  {
    var file := Encode(w, h, ch, buffer);
    EncodedHeaderParses(w, h, ch, buffer);
    DecodePlain(file, Layout(w, h, ch, false, 0));
    assert file[HeaderSize..HeaderSize + |buffer|] == buffer;
  }

  /** An uncompressed file with descriptor 0 decodes to the bytes after the header, unflipped. */
  lemma DecodePlain(file: seq<byte>, l: Layout)
    requires ParseHeader(file) == Ok(l) && !l.rle && l.descriptor == 0
    requires |file| - HeaderSize >= BufferSize(l.width, l.height, l.channels)
    ensures Decode(file) == Ok(Decoded(l.width, l.height, l.channels, file[HeaderSize..HeaderSize + BufferSize(l.width, l.height, l.channels)]))
  {
    assert !DescriptorBit(l.descriptor, 0x20) && !DescriptorBit(l.descriptor, 0x10);
  }

  /** The header save_tga writes passes the header checks of load_tga with the image's own layout. */
  lemma EncodedHeaderParses(w: int, h: int, ch: int, buffer: seq<byte>)
    requires 0 < w < 65536 && 0 < h < 65536 && ch in {1, 3, 4}
    ensures ParseHeader(Encode(w, h, ch, buffer)) == Ok(Layout(w, h, ch, false, 0))
  {
    var file := Encode(w, h, ch, buffer);
    FieldRoundTrip(w);
    FieldRoundTrip(h);
    assert file[12] == w % 256 && file[13] == w / 256 % 256;
    assert file[14] == h % 256 && file[15] == h / 256 % 256;
    assert file[16] == ch * 8 && file[16] / 8 == ch;
    assert file[0] == 0 && file[17] == 0 && (file[2] == 2 || file[2] == 3);
  }

  /** A number below 65536 written as two bytes reads back as itself. */
  lemma FieldRoundTrip(v: int)
    requires 0 <= v < 65536
    ensures Field16(v % 256, v / 256 % 256) == v
  {
  }

  /** A two-channel image is saved with depth 16, which the loader rejects. */
  lemma SaveLoadTwoChannels(w: int, h: int, buffer: seq<byte>)
    requires 0 < w < 65536 && 0 < h < 65536
    ensures Decode(Encode(w, h, 2, buffer)) == Err(BadDepth)
  {
    var file := Encode(w, h, 2, buffer);
    FieldRoundTrip(w);
    FieldRoundTrip(h);
    assert file[12] == w % 256 && file[13] == w / 256 % 256;
    assert file[14] == h % 256 && file[15] == h / 256 % 256;
  }

  /** A side of 65536 pixels or more is saved modulo 65536: the loader sees the truncated size. */
  lemma SaveTruncatesSize(w: int, h: int, ch: int, buffer: seq<byte>)
    requires w >= 0 && h >= 0 && 1 <= ch <= 4
    ensures Field16(Encode(w, h, ch, buffer)[12], Encode(w, h, ch, buffer)[13]) == w % 65536
    ensures Field16(Encode(w, h, ch, buffer)[14], Encode(w, h, ch, buffer)[15]) == h % 65536
  {
    ByteSplit(w);
    ByteSplit(h);
  }

  /** The low and the second byte of a number make up its value modulo 65536. */
  lemma ByteSplit(v: int)
    requires v >= 0
    ensures v % 65536 == v % 256 + v / 256 % 256 * 256
  {
    var q, r := v / 256, v % 256;
    var a, b := q / 256, q % 256;
    assert v == 65536 * a + (256 * b + r);
  }

  /** A run packet of n copies of one pixel followed by nothing else decodes to those copies. */
  lemma RunPacketDecodes(p: seq<byte>, n: int)
    requires 1 <= |p| <= 4 && 1 <= n <= 128
    ensures DecodeRle([(n - 1 + 128) as byte] + p, 0, |p|, n * |p|) == Ok(Repeat(p, n))
  {
    var file := [(n - 1 + 128) as byte] + p;
    var m := n * |p|;
    assert PacketCount(file[0]) == n && RunPacket(file[0]);
    assert file[1..1 + |p|] == p;
    assert DecodeRle(file, 1 + |p|, |p|, m - m) == Ok([]);
    assert DecodeRle(file, 0, |p|, m) == Prepend(Repeat(p, n), Ok([]));
    assert Repeat(p, n) + [] == Repeat(p, n);
  }

  /** A raw packet of n pixels followed by nothing else decodes to those pixels. */
  lemma RawPacketDecodes(q: seq<byte>, n: int, ch: int)
    requires 1 <= ch <= 4 && 1 <= n <= 128 && |q| == n * ch
    ensures DecodeRle([(n - 1) as byte] + q, 0, ch, n * ch) == Ok(q)
  {
    var file := [(n - 1) as byte] + q;
    assert PacketCount(file[0]) == n && !RunPacket(file[0]);
    assert file[1..1 + n * ch] == q;
    assert DecodeRle(file, 1 + n * ch, ch, n * ch - n * ch) == Ok([]);
    assert q + [] == q;
  }

  /** extract_extension: the text after the last '.', or "" when there is none. */
  function ExtractExtension(name: string): (ext: string)
    ensures '.' !in ext
  {
    if |name| == 0 || name[|name| - 1] == '.' then ""
    else
      var init := name[..|name| - 1];
      if '.' in init then ExtractExtension(init) + [name[|name| - 1]] else ""
  }

  /**
   * The extension is what follows the last '.' of the name, and it is
   * empty exactly when the name has no '.' or ends with one.
   */
  lemma {:induction false} ExtensionAfterLastDot(name: string)
    ensures var ext := ExtractExtension(name);
      ('.' in name ==> |ext| < |name| && name[|name| - |ext| - 1] == '.' && ext == name[|name| - |ext|..]) &&
      ('.' !in name ==> ext == "")
  {
    if |name| > 0 && name[|name| - 1] != '.' {
      var init, last := name[..|name| - 1], name[|name| - 1];
      assert name == init + [last];
      if '.' in init {
        ExtensionAfterLastDot(init);
        var e := ExtractExtension(init);
        var k := |init| - |e|;
        assert name[k - 1] == init[k - 1];
        assert name[k..] == init[k..] + [last];
      }
    }
  }


  // ---------------------------------------------------------------------
  // The loader and the saver
  // ---------------------------------------------------------------------

  /** load_tga_rle: fill the image's buffer from run-length packets starting at position `start`. */
  method LoadTgaRle(image: Image, file: seq<byte>, start: nat) returns (r: Result<()>)
    requires image.Valid()
    modifies image.buffer
    ensures r.Ok? <==> DecodeRle(file, start, image.channels, image.buffer.Length).Ok?
    ensures r.Ok? ==> image.buffer[..] == DecodeRle(file, start, image.channels, image.buffer.Length).value
    ensures r.Err? ==> r.error == DecodeRle(file, start, image.channels, image.buffer.Length).error
  {
    var bufferSize := BufferSize(image.width, image.height, image.channels);
    var elemCount := 0;
    var pos: nat := start;
    assert Prepend([], DecodeRle(file, pos, image.channels, bufferSize)) == DecodeRle(file, start, image.channels, bufferSize) by {
      var d := DecodeRle(file, pos, image.channels, bufferSize);
      if d.Ok? {
        assert [] + d.value == d.value;
      }
    }
    while elemCount < bufferSize
      invariant 0 <= elemCount <= bufferSize
      invariant DecodeRle(file, start, image.channels, bufferSize) ==
        Prepend(image.buffer[..elemCount], DecodeRle(file, pos, image.channels, bufferSize - elemCount))
      decreases bufferSize - elemCount
    {
      r, pos, elemCount := LoadPacket(image, file, pos, elemCount);
      if r.Err? {
        return;
      }
    }
    assert image.buffer[..elemCount] == image.buffer[..];
    r := Ok(());
  }

  /**
   * One pass of the loop of load_tga_rle: the packet at `pos` written from
   * `elemCount` on. The decoding still to do is the packet, then the rest.
   */
  method LoadPacket(image: Image, file: seq<byte>, pos: nat, elemCount: int) returns (r: Result<()>, pos': nat, elemCount': int)
    requires image.Valid() && 0 <= elemCount < image.buffer.Length
    modifies image.buffer
    ensures r.Ok? ==> elemCount < elemCount' <= image.buffer.Length
    ensures r.Ok? ==>
      Prepend(old(image.buffer[..elemCount]), DecodeRle(file, pos, image.channels, image.buffer.Length - elemCount)) ==
      Prepend(image.buffer[..elemCount'], DecodeRle(file, pos', image.channels, image.buffer.Length - elemCount'))
    ensures r.Err? ==> DecodeRle(file, pos, image.channels, image.buffer.Length - elemCount) == Err(r.error)
  {
    if pos >= |file| {
      return Err(ShortData), pos, elemCount;
    }
    var header := file[pos];
    var pixelCount := PacketCount(header);
    if elemCount + pixelCount * image.channels > image.buffer.Length {
      return Err(PacketOverrun), pos + 1, elemCount;
    }
    if RunPacket(header) {
      r, pos' := LoadRunPacket(image, file, pos, elemCount);
    } else {
      r, pos' := LoadRawPacket(image, file, pos, elemCount);
    }
    elemCount' := elemCount + pixelCount * image.channels;
  }

  /** A run packet: one pixel read, then written PacketCount times. */
  method LoadRunPacket(image: Image, file: seq<byte>, pos: nat, elemCount: int) returns (r: Result<()>, pos': nat)
    requires image.Valid() && 0 <= elemCount && pos < |file| && RunPacket(file[pos])
    requires elemCount + PacketCount(file[pos]) * image.channels <= image.buffer.Length
    modifies image.buffer
    ensures r.Ok? ==>
      Prepend(old(image.buffer[..elemCount]), DecodeRle(file, pos, image.channels, image.buffer.Length - elemCount)) ==
      Prepend(image.buffer[..elemCount + PacketCount(file[pos]) * image.channels],
              DecodeRle(file, pos', image.channels, image.buffer.Length - elemCount - PacketCount(file[pos]) * image.channels))
    ensures r.Err? ==> DecodeRle(file, pos, image.channels, image.buffer.Length - elemCount) == Err(r.error)
  {
    ghost var done := image.buffer[..elemCount];
    ghost var remaining := image.buffer.Length - elemCount;
    var channels := image.channels;
    var pixelCount := PacketCount(file[pos]);
    var pixel;
    pixel, pos' := ReadPixel(file, pos + 1, channels);
    if |pixel| < channels {
      RunPacketShort(file, pos, channels, remaining);
      return Err(ShortData), pos';
    }
    ghost var n := pixelCount * channels;
    WriteRun(image, elemCount, pixel, pixelCount);
    ghost var packet := Repeat(pixel, pixelCount);
    assert image.buffer[..elemCount + n] == done + packet;
    RunPacketUnfold(file, pos, channels, remaining, pixel);
    ghost var rest := DecodeRle(file, pos', channels, remaining - n);
    PrependPrepend(done, packet, rest);
    assert Prepend(done, DecodeRle(file, pos, channels, remaining)) == Prepend(done + packet, rest);
    r := Ok(());
  }

  /** A run packet whose pixel is cut off by the end of the file is short data. */
  lemma RunPacketShort(file: seq<byte>, pos: nat, ch: int, remaining: int)
    requires ch >= 1 && pos < |file| && RunPacket(file[pos])
    requires 0 < PacketCount(file[pos]) * ch <= remaining && pos + 1 + ch > |file|
    ensures DecodeRle(file, pos, ch, remaining) == Err(ShortData)
  {
  }

  /** A run packet whose pixel is in the file decodes to that pixel repeated, then the rest. */
  lemma RunPacketUnfold(file: seq<byte>, pos: nat, ch: int, remaining: int, pixel: seq<byte>)
    requires ch >= 1 && pos < |file| && RunPacket(file[pos])
    requires 0 < PacketCount(file[pos]) * ch <= remaining && pos + 1 + ch <= |file|
    requires pixel == file[pos + 1..pos + 1 + ch]
    ensures DecodeRle(file, pos, ch, remaining) ==
            Prepend(Repeat(pixel, PacketCount(file[pos])), DecodeRle(file, pos + 1 + ch, ch, remaining - PacketCount(file[pos]) * ch))
  {
  }

  /** A raw packet: PacketCount pixels read and written as they are. */
  method LoadRawPacket(image: Image, file: seq<byte>, pos: nat, elemCount: int) returns (r: Result<()>, pos': nat)
    requires image.Valid() && 0 <= elemCount && pos < |file| && !RunPacket(file[pos])
    requires elemCount + PacketCount(file[pos]) * image.channels <= image.buffer.Length
    modifies image.buffer
    ensures r.Ok? ==>
      Prepend(old(image.buffer[..elemCount]), DecodeRle(file, pos, image.channels, image.buffer.Length - elemCount)) ==
      Prepend(image.buffer[..elemCount + PacketCount(file[pos]) * image.channels],
              DecodeRle(file, pos', image.channels, image.buffer.Length - elemCount - PacketCount(file[pos]) * image.channels))
    ensures r.Err? ==> DecodeRle(file, pos, image.channels, image.buffer.Length - elemCount) == Err(r.error)
  {
    ghost var done := image.buffer[..elemCount];
    ghost var remaining := image.buffer.Length - elemCount;
    var channels := image.channels;
    var pixelCount := PacketCount(file[pos]);
    MulLeq(1, pixelCount, channels);
    pos' := WriteRaw(image, elemCount, file, pos + 1, pixelCount * channels);
    if pos' < pos + 1 + pixelCount * channels {
      return Err(ShortData), pos';
    }
    ghost var packet := file[pos + 1..pos'];
    assert DecodeRle(file, pos, channels, remaining) ==
           Prepend(packet, DecodeRle(file, pos', channels, remaining - pixelCount * channels));
    PrependPrepend(done, packet, DecodeRle(file, pos', channels, remaining - pixelCount * channels));
    r := Ok(());
  }

  /** The `ch` bytes of one pixel, one read_byte each; fewer when the file ends first. */
  method ReadPixel(file: seq<byte>, pos: nat, ch: int) returns (pixel: seq<byte>, pos': nat)
    requires 1 <= ch <= 4 && pos <= |file|
    ensures |pixel| <= ch
    ensures |pixel| == ch <==> pos + ch <= |file|
    ensures |pixel| == ch ==> pixel == file[pos..pos + ch] && pos' == pos + ch
  {
    pixel, pos' := [], pos;
    var j := 0;
    while j < ch && pos' < |file|
      invariant 0 <= j <= ch && pos' == pos + j <= |file|
      invariant pixel == file[pos..pos']
    {
      pixel := pixel + [file[pos']];
      pos', j := pos' + 1, j + 1;
    }
  }

  /** The repeated pixel of a run packet, written `count` times from position `at`. */
  method WriteRun(image: Image, at: int, pixel: seq<byte>, count: int)
    requires image.Valid() && 0 <= at && |pixel| == image.channels && 1 <= count
    requires at + count * |pixel| <= image.buffer.Length
    modifies image.buffer
    ensures image.buffer[..at + count * |pixel|] == old(image.buffer[..at]) + Repeat(pixel, count)
  {
    ghost var done := image.buffer[..at];
    var elemCount := at;
    var i := 0;
    while i < count
      invariant 0 <= i <= count && elemCount == at + i * |pixel|
      invariant image.buffer[..elemCount] == done + Repeat(pixel, i)
    {
      MulSucc(i, |pixel|);
      MulLeq(i + 1, count, |pixel|);
      WritePixel(image, elemCount, pixel);
      assert Repeat(pixel, i + 1) == Repeat(pixel, i) + pixel;
      elemCount := elemCount + |pixel|;
      i := i + 1;
    }
  }

  /** One copy of the run's pixel, channel by channel, from position `at`. */
  method WritePixel(image: Image, at: int, pixel: seq<byte>)
    requires image.Valid() && 0 <= at && at + |pixel| <= image.buffer.Length
    modifies image.buffer
    ensures image.buffer[..at + |pixel|] == old(image.buffer[..at]) + pixel
  {
    ghost var done := image.buffer[..at];
    var j := 0;
    while j < |pixel|
      invariant 0 <= j <= |pixel|
      invariant image.buffer[..at + j] == done + pixel[..j]
    {
      image.buffer[at + j] := pixel[j];
      assert image.buffer[..at + j + 1] == image.buffer[..at + j] + [pixel[j]];
      j := j + 1;
    }
    assert pixel[..j] == pixel;
  }

  /** A raw packet: `n` bytes copied from the file, one read_byte each, stopping early when the file ends. */
  method WriteRaw(image: Image, at: int, file: seq<byte>, pos: nat, n: int) returns (pos': nat)
    requires image.Valid() && 0 <= at && 0 <= n && at + n <= image.buffer.Length && pos <= |file|
    modifies image.buffer
    ensures pos' == pos + n <==> pos + n <= |file|
    ensures pos' <= pos + n
    ensures pos' == pos + n ==> image.buffer[..at + n] == old(image.buffer[..at]) + file[pos..pos + n]
  {
    ghost var done := image.buffer[..at];
    pos' := pos;
    var elemCount := at;
    while elemCount < at + n && pos' < |file|
      invariant at <= elemCount <= at + n && pos' == pos + elemCount - at <= |file|
      invariant image.buffer[..elemCount] == done + file[pos..pos']
    {
      image.buffer[elemCount] := file[pos'];
      assert image.buffer[..elemCount + 1] == image.buffer[..elemCount] + [file[pos']];
      elemCount, pos' := elemCount + 1, pos' + 1;
    }
  }

  /** load_tga: a new image with the decoded size and pixels, or the first check that failed. */
  method LoadTga(file: seq<byte>) returns (r: Result<Image>)
    ensures r.Ok? <==> Decode(file).Ok?
    ensures r.Err? ==> r.error == Decode(file).error
    ensures r.Ok? ==> fresh(r.value) && fresh(r.value.buffer) && r.value.Valid()
    ensures r.Ok? ==> r.value.width == Decode(file).value.width && r.value.height == Decode(file).value.height
    ensures r.Ok? ==> r.value.channels == Decode(file).value.channels && r.value.buffer[..] == Decode(file).value.pixels
  {
    var layout := ParseHeader(file);
    if layout.Err? {
      return Err(layout.error);
    }
    var l := layout.value;
    var image := new Image(l.width, l.height, l.channels);
    var size := BufferSize(l.width, l.height, l.channels);
    if !l.rle {
      if |file| - HeaderSize < size {
        return Err(ShortData);
      }
      forall i | 0 <= i < size {
        image.buffer[i] := file[HeaderSize + i];
      }
      assert image.buffer[..] == file[HeaderSize..HeaderSize + size];
    } else {
      var status := LoadTgaRle(image, file, HeaderSize);
      if status.Err? {
        return Err(status.error);
      }
    }
    ghost var px := image.buffer[..];
    if DescriptorBit(l.descriptor, 0x20) {
      image.FlipV();
    }
    ghost var v := image.buffer[..];
    if DescriptorBit(l.descriptor, 0x10) {
      image.FlipH();
    }
    r := Ok(image);
  }

  /** save_tga: the header array filled field by field, then the buffer. */
  method SaveTga(image: Image) returns (file: seq<byte>)
    requires image.Valid()
    ensures file == Encode(image.width, image.height, image.channels, image.buffer[..])
  {
    var header := new byte[HeaderSize](_ => 0);
    header[2] := if image.channels == 1 then 3 else 2;
    header[12] := image.width % 256;
    header[13] := image.width / 256 % 256;
    header[14] := image.height % 256;
    header[15] := image.height / 256 % 256;
    header[16] := image.channels * 8 % 256;
    file := header[..] + image.buffer[..];
  }

  /** image_load: only a ".tga" file name is loaded. */
  method ImageLoad(filename: string, file: seq<byte>) returns (r: Result<Image>)
    ensures ExtractExtension(filename) != "tga" ==> r == Err(UnknownFormat)
    ensures ExtractExtension(filename) == "tga" ==> (r.Ok? <==> Decode(file).Ok?)
    ensures ExtractExtension(filename) == "tga" && r.Err? ==> r.error == Decode(file).error
    ensures ExtractExtension(filename) == "tga" && r.Ok? ==>
      fresh(r.value) && fresh(r.value.buffer) && r.value.Valid() &&
      r.value.width == Decode(file).value.width && r.value.height == Decode(file).value.height &&
      r.value.channels == Decode(file).value.channels && r.value.buffer[..] == Decode(file).value.pixels
  {
    var extension := ExtractExtension(filename);
    if extension == "tga" {
      r := LoadTga(file);
    } else {
      r := Err(UnknownFormat);
    }
  }

  /** image_save: only a ".tga" file name is written. */
  method ImageSave(image: Image, filename: string) returns (r: Result<seq<byte>>)
    requires image.Valid()
    ensures ExtractExtension(filename) != "tga" ==> r == Err(UnknownFormat)
    ensures ExtractExtension(filename) == "tga" ==>
      r == Ok(Encode(image.width, image.height, image.channels, image.buffer[..]))
  {
    var extension := ExtractExtension(filename);
    if extension == "tga" {
      var file := SaveTga(image);
      r := Ok(file);
    } else {
      r := Err(UnknownFormat);
    }
  }
}

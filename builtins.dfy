/**
  The formats the package registers at start-up, in the order its `init`
  registers them, and what sniffing makes of typical streams with that table.
*/
module Builtins {
  import opened Wrappers
  import opened Stream
  import opened Magic
  import opened Imaging

  /** `"BM????\x00\x00\x00\x00"`: BMP signature, file size, reserved zero bytes. */
  const BmpMagic: seq<byte> := [0x42, 0x4D, 0x3F, 0x3F, 0x3F, 0x3F, 0x00, 0x00, 0x00, 0x00]
  /** `"II\x2A\x00"`: little-endian TIFF header. */
  const TiffLittleEndianMagic: seq<byte> := [0x49, 0x49, 0x2A, 0x00]
  /** `"MM\x00\x2A"`: big-endian TIFF header. */
  const TiffBigEndianMagic: seq<byte> := [0x4D, 0x4D, 0x00, 0x2A]
  /** `"RIFF????WEBPVP8"`: fifteen bytes, the chunk size left open. */
  const WebpMagic: seq<byte> := [0x52, 0x49, 0x46, 0x46, 0x3F, 0x3F, 0x3F, 0x3F, 0x57, 0x45, 0x42, 0x50, 0x56, 0x50, 0x38]
  /** `"GIF8?a"`: GIF header, the version digit left open. */
  const GifMagic: seq<byte> := [0x47, 0x49, 0x46, 0x38, 0x3F, 0x61]
  /** `"\xff\xd8"`: the JPEG start-of-image marker. */
  const JpegMagic: seq<byte> := [0xFF, 0xD8]
  /** `"\x89PNG\r\n\x1a\n"`: the PNG signature. */
  const PngMagic: seq<byte> := [0x89, 0x50, 0x4E, 0x47, 0x0D, 0x0A, 0x1A, 0x0A]

  /** `"GIF87a"` and `"GIF89a"`. */
  const Gif87a: seq<byte> := [0x47, 0x49, 0x46, 0x38, 0x37, 0x61]
  const Gif89a: seq<byte> := [0x47, 0x49, 0x46, 0x38, 0x39, 0x61]

  /** A codec package's two entry points, which the model does not look into. */
  datatype Codec = Codec(decode: DecodeFn, decodeConfig: ConfigFn)

  /** The six codec packages the imaging package depends on. */
  datatype Codecs = Codecs(bmp: Codec, tiff: Codec, webp: Codec, gif: Codec, jpeg: Codec, png: Codec)

  function Entry(name: string, magic: seq<byte>, c: Codec): Format
  {
    Format(name, magic, Some(c.decode), Some(c.decodeConfig))
  }

  /**
    The registration table of `init`, in order: every entry carries its
    codec's two decoders, and `tiff` appears twice, the little-endian header
    first.
  */
  function Table(c: Codecs): (t: seq<Format>)
    ensures |t| == 7
    ensures t[0].name == "bmp" && t[0].magic == BmpMagic && t[0].decode == Some(c.bmp.decode)
      && t[0].decodeConfig == Some(c.bmp.decodeConfig)
    ensures t[1].name == "tiff" && t[1].magic == TiffLittleEndianMagic && t[1].decode == Some(c.tiff.decode)
      && t[1].decodeConfig == Some(c.tiff.decodeConfig)
    ensures t[2].name == "tiff" && t[2].magic == TiffBigEndianMagic && t[2].decode == Some(c.tiff.decode)
      && t[2].decodeConfig == Some(c.tiff.decodeConfig)
    ensures t[3].name == "webp" && t[3].magic == WebpMagic && t[3].decode == Some(c.webp.decode)
      && t[3].decodeConfig == Some(c.webp.decodeConfig)
    ensures t[4].name == "gif" && t[4].magic == GifMagic && t[4].decode == Some(c.gif.decode)
      && t[4].decodeConfig == Some(c.gif.decodeConfig)
    ensures t[5].name == "jpeg" && t[5].magic == JpegMagic && t[5].decode == Some(c.jpeg.decode)
      && t[5].decodeConfig == Some(c.jpeg.decodeConfig)
    ensures t[6].name == "png" && t[6].magic == PngMagic && t[6].decode == Some(c.png.decode)
      && t[6].decodeConfig == Some(c.png.decodeConfig)
  {
    [ Entry("bmp", BmpMagic, c.bmp),
      Entry("tiff", TiffLittleEndianMagic, c.tiff),
      Entry("tiff", TiffBigEndianMagic, c.tiff),
      Entry("webp", WebpMagic, c.webp),
      Entry("gif", GifMagic, c.gif),
      Entry("jpeg", JpegMagic, c.jpeg),
      Entry("png", PngMagic, c.png) ]
  }

  /** `init`: seven registrations, appended in table order after whatever the registry held. */
  method Init(r: Registry, c: Codecs)
    modifies r
    ensures r.formats == old(r.formats) + Table(c)
  {
    r.RegisterFormat("bmp", BmpMagic, Some(c.bmp.decode), Some(c.bmp.decodeConfig));
    r.RegisterFormat("tiff", TiffLittleEndianMagic, Some(c.tiff.decode), Some(c.tiff.decodeConfig));
    r.RegisterFormat("tiff", TiffBigEndianMagic, Some(c.tiff.decode), Some(c.tiff.decodeConfig));
    r.RegisterFormat("webp", WebpMagic, Some(c.webp.decode), Some(c.webp.decodeConfig));
    r.RegisterFormat("gif", GifMagic, Some(c.gif.decode), Some(c.gif.decodeConfig));
    r.RegisterFormat("jpeg", JpegMagic, Some(c.jpeg.decode), Some(c.jpeg.decodeConfig));
    r.RegisterFormat("png", PngMagic, Some(c.png.decode), Some(c.png.decodeConfig));
  }

  /** Sniffing the start-up table selects nothing when none of its seven entries claims the stream. */
  lemma NoEntryOfSevenClaims(t: seq<Format>, s: seq<byte>)
    requires |t| == 7
    requires !Hits(t[0], s) && !Hits(t[1], s) && !Hits(t[2], s) && !Hits(t[3], s)
    requires !Hits(t[4], s) && !Hits(t[5], s) && !Hits(t[6], s)
    ensures FirstMatch(t, s) == None
  {
  }

  /**
    With the start-up table followed by any later registrations, a stream
    that begins with the JPEG marker is handed to the JPEG decoder.
  */
  lemma SniffJpeg(c: Codecs, more: seq<Format>, s: seq<byte>)
    requires |s| >= 2 && s[..2] == JpegMagic
    ensures FirstMatch(Table(c) + more, s) == Some(5)
    ensures Dispatch(Table(c) + more, s) == Decoded(c.jpeg.decode(s).img, "jpeg", c.jpeg.decode(s).err)
  {
    var t := Table(c);
    assert s[0] == 0xFF && s[1] == 0xD8;
    MismatchAt(t[0], s, 0);
    MismatchAt(t[1], s, 0);
    MismatchAt(t[2], s, 0);
    MismatchAt(t[3], s, 0);
    MismatchAt(t[4], s, 0);
    PrefixHits(t[5], s);
    FirstMatchIs(t, s, 5);
    RegisterKeepsEarlierMatch(t, more, s);
  }

  /** `GIF87a` and `GIF89a` streams go to the GIF decoder, whatever is registered later. */
  lemma SniffGif(c: Codecs, more: seq<Format>, s: seq<byte>)
    requires |s| >= 6 && (s[..6] == Gif87a || s[..6] == Gif89a)
    ensures FirstMatch(Table(c) + more, s) == Some(4)
    ensures Dispatch(Table(c) + more, s) == Decoded(c.gif.decode(s).img, "gif", c.gif.decode(s).err)
  {
    var t := Table(c);
    assert s[0] == 0x47 && s[1] == 0x49 && s[2] == 0x46 && s[3] == 0x38 && s[5] == 0x61;
    MismatchAt(t[0], s, 0);
    MismatchAt(t[1], s, 0);
    MismatchAt(t[2], s, 0);
    MismatchAt(t[3], s, 0);
    PrefixHits(t[4], s);
    FirstMatchIs(t, s, 4);
    RegisterKeepsEarlierMatch(t, more, s);
  }

  /**
    A little-endian TIFF stream is claimed by the first of the two `tiff`
    entries; a big-endian one falls through to the second.
  */
  lemma SniffTiff(c: Codecs, more: seq<Format>, s: seq<byte>)
    requires |s| >= 4 && (s[..4] == TiffLittleEndianMagic || s[..4] == TiffBigEndianMagic)
    ensures FirstMatch(Table(c) + more, s) == if s[..4] == TiffLittleEndianMagic then Some(1) else Some(2)
    ensures Dispatch(Table(c) + more, s) == Decoded(c.tiff.decode(s).img, "tiff", c.tiff.decode(s).err)
  {
    var t := Table(c);
    MismatchAt(t[0], s, 0);
    if s[..4] == TiffLittleEndianMagic {
      assert s[0] == 0x49 && s[1] == 0x49 && s[2] == 0x2A && s[3] == 0x00;
      PrefixHits(t[1], s);
      FirstMatchIs(t, s, 1);
    } else {
      assert s[0] == 0x4D && s[1] == 0x4D && s[2] == 0x00 && s[3] == 0x2A;
      MismatchAt(t[1], s, 0);
      PrefixHits(t[2], s);
      FirstMatchIs(t, s, 2);
    }
    RegisterKeepsEarlierMatch(t, more, s);
  }

  /** A stream that begins with the PNG signature goes to the PNG decoder. */
  lemma SniffPng(c: Codecs, more: seq<Format>, s: seq<byte>)
    requires |s| >= 8 && s[..8] == PngMagic
    ensures FirstMatch(Table(c) + more, s) == Some(6)
    ensures Dispatch(Table(c) + more, s) == Decoded(c.png.decode(s).img, "png", c.png.decode(s).err)
  {
    var t := Table(c);
    forall i | 0 <= i < 8 ensures s[i] == PngMagic[i] {
      assert s[..8][i] == s[i];
    }
    MismatchAt(t[0], s, 0);
    MismatchAt(t[1], s, 0);
    MismatchAt(t[2], s, 0);
    MismatchAt(t[3], s, 0);
    MismatchAt(t[4], s, 0);
    MismatchAt(t[5], s, 0);
    PrefixHits(t[6], s);
    FirstMatchIs(t, s, 6);
    RegisterKeepsEarlierMatch(t, more, s);
  }

  /** A BMP stream with zero reserved bytes goes to the BMP decoder, whatever the file-size bytes hold. */
  lemma SniffBmp(c: Codecs, more: seq<Format>, s: seq<byte>)
    requires |s| >= 10 && s[..2] == [0x42, 0x4D] && s[6..10] == [0, 0, 0, 0]
    ensures FirstMatch(Table(c) + more, s) == Some(0)
    ensures Dispatch(Table(c) + more, s) == Decoded(c.bmp.decode(s).img, "bmp", c.bmp.decode(s).err)
  {
    var t := Table(c);
    PrefixHits(t[0], s);
    FirstMatchIs(t, s, 0);
    RegisterKeepsEarlierMatch(t, more, s);
  }

  /** A RIFF stream carrying `WEBPVP8` at offset 8 goes to the WebP decoder, whatever the chunk size. */
  lemma SniffWebp(c: Codecs, more: seq<Format>, s: seq<byte>)
    requires |s| >= 15 && s[..4] == WebpMagic[..4] && s[8..15] == WebpMagic[8..]
    ensures FirstMatch(Table(c) + more, s) == Some(3)
    ensures Dispatch(Table(c) + more, s) == Decoded(c.webp.decode(s).img, "webp", c.webp.decode(s).err)
  {
    var t := Table(c);
    forall i | 0 <= i < 15 && (i < 4 || 8 <= i) ensures s[i] == WebpMagic[i] {
      if i < 4 {
        assert s[..4][i] == s[i];
      } else {
        assert s[8..15][i - 8] == s[i];
      }
    }
    MismatchAt(t[0], s, 0);
    MismatchAt(t[1], s, 0);
    MismatchAt(t[2], s, 0);
    PrefixHits(t[3], s);
    FirstMatchIs(t, s, 3);
    RegisterKeepsEarlierMatch(t, more, s);
  }

  /**
    A twelve-byte `RIFF`, size, `WEBP` header is not enough, whatever its
    size bytes: the WebP magic string is fifteen bytes long, so the peek
    comes back short and nothing matches.
  */
  lemma ShortWebpUnrecognized(c: Codecs, s: seq<byte>)
    requires |s| == 12 && s[..4] == WebpMagic[..4] && s[8..12] == WebpMagic[8..12]
    ensures FirstMatch(Table(c), s) == None
    ensures Dispatch(Table(c), s) == Decoded(None, "", Some(ErrFormat))
  {
    var t := Table(c);
    assert s[0] == s[..4][0];
    MismatchAt(t[0], s, 0);
    MismatchAt(t[1], s, 0);
    MismatchAt(t[2], s, 0);
    MismatchAt(t[3], s, 12);
    MismatchAt(t[4], s, 0);
    MismatchAt(t[5], s, 0);
    MismatchAt(t[6], s, 0);
    NoEntryOfSevenClaims(t, s);
  }

  /** Four zero bytes are not recognised: decoding reports the format error. */
  lemma FourZeroBytesUnrecognized(c: Codecs)
    ensures FirstMatch(Table(c), [0, 0, 0, 0]) == None
    ensures Dispatch(Table(c), [0, 0, 0, 0]) == Decoded(None, "", Some(ErrFormat))
  {
    var t := Table(c);
    var s: seq<byte> := [0, 0, 0, 0];
    MismatchAt(t[0], s, 0);
    MismatchAt(t[1], s, 0);
    MismatchAt(t[2], s, 0);
    MismatchAt(t[3], s, 0);
    MismatchAt(t[4], s, 0);
    MismatchAt(t[5], s, 0);
    MismatchAt(t[6], s, 0);
    NoEntryOfSevenClaims(t, s);
  }

  /** No built-in magic string begins with `A`, so no built-in entry claims a stream that does. */
  lemma NoBuiltinClaimsLetterA(c: Codecs, s: seq<byte>)
    requires |s| >= 1 && s[0] == 0x41
    ensures FirstMatch(Table(c), s) == None
  {
    var t := Table(c);
    MismatchAt(t[0], s, 0);
    MismatchAt(t[1], s, 0);
    MismatchAt(t[2], s, 0);
    MismatchAt(t[3], s, 0);
    MismatchAt(t[4], s, 0);
    MismatchAt(t[5], s, 0);
    MismatchAt(t[6], s, 0);
    NoEntryOfSevenClaims(t, s);
  }

  /**
    A format registered after start-up receives every stream beginning with
    `A` that it claims: no built-in entry claims such a stream.
  */
  lemma LaterRegistrationClaimsLetterA(c: Codecs, plugin: Format, s: seq<byte>)
    requires |s| >= 1 && s[0] == 0x41 && Hits(plugin, s)
    ensures FirstMatch(Table(c) + [plugin], s) == Some(7)
    ensures Sniffed(Table(c) + [plugin], s) == plugin
  {
    NoBuiltinClaimsLetterA(c, s);
    RegisterFillsOnlyGaps(Table(c), plugin, s);
  }

  /** In particular a plugin with magic `AB??` receives a stream beginning `AB`. */
  lemma PluginAfterBuiltins(c: Codecs, plugin: Format, s: seq<byte>)
    requires plugin.magic == [0x41, 0x42, Wildcard, Wildcard]
    requires |s| >= 4 && s[0] == 0x41 && s[1] == 0x42
    ensures Sniffed(Table(c) + [plugin], s) == plugin
  {
    PrefixHits(plugin, s);
    LaterRegistrationClaimsLetterA(c, plugin, s);
  }

  /**
    A freshly loaded package (empty registry, then `init`) decodes four zero
    bytes to the format error and an empty name.
  */
  method DecodeFourZeroBytes(c: Codecs) returns (img: Option<Image>, name: string, err: Option<Error>)
    ensures img == None && name == "" && err == Some(ErrFormat)
  {
    var r := new Registry();
    Init(r, c);
    FourZeroBytesUnrecognized(c);
    img, name, err := r.DecodeNamed([0, 0, 0, 0]);
  }
}

/**
  The format registry, sniffing and decode dispatch of the imaging package.

  A format binds a name and a magic string to two decoder functions. The
  registry is an ordered list, only ever appended to. Sniffing walks it in
  registration order, peeks as many bytes as each magic string is long and
  stops at the first entry that matches; decoding hands the unconsumed
  stream to that entry's decoder.
*/
module Imaging {
  import opened Wrappers
  import opened Stream
  import opened Magic

  /** Stand-in for a decoded `image.Image`; the pixels are the codecs' business. */
  datatype Image = Image(width: nat, height: nat, pix: seq<byte>)

  /** Stand-in for `image.Config`. */
  datatype Config = Config(width: nat, height: nat)

  /** `image.ErrFormat`, or whatever error a codec reports. */
  datatype Error = ErrFormat | CodecError(reason: string)

  /** The `(image.Image, error)` pair a codec's decoder returns. */
  datatype ImageResult = ImageResult(img: Option<Image>, err: Option<Error>)

  /** The `(image.Config, error)` pair a codec's config decoder returns. */
  datatype ConfigResult = ConfigResult(config: Config, err: Option<Error>)

  /** A codec's decoder, as a function of every byte it may read. */
  type DecodeFn = seq<byte> -> ImageResult

  type ConfigFn = seq<byte> -> ConfigResult

  /** A registered format; a `None` decoder is Go's nil function value. */
  datatype Format = Format(name: string, magic: seq<byte>, decode: Option<DecodeFn>, decodeConfig: Option<ConfigFn>)

  /** The zero `format{}` that sniffing returns when nothing matches. */
  const NoFormat: Format := Format("", [], None, None)

  /** What `decode` returns: image, format name, error. */
  datatype Decoded = Decoded(img: Option<Image>, name: string, err: Option<Error>)

  /**
    Entry `f` claims stream `s`: peeking `len(f.magic)` bytes succeeds and the
    peeked bytes match. A short stream is a plain non-match.
  */
  predicate Hits(f: Format, s: seq<byte>)
  {
    var p := Peek(s, |f.magic|);
    p.err.None? && Matches(f.magic, p.bytes)
  }

  /**
    The index of the entry sniffing selects: the first one, in registration
    order, that claims the stream; `None` when no entry does.
  */
  function FirstMatch(formats: seq<Format>, s: seq<byte>): (r: Option<nat>)
    ensures r.Some? ==> r.value < |formats| && Hits(formats[r.value], s)
    ensures r.Some? ==> forall j :: 0 <= j < r.value ==> !Hits(formats[j], s)
    ensures r.None? ==> forall j :: 0 <= j < |formats| ==> !Hits(formats[j], s)
    decreases |formats|
  {
    if formats == [] then None
    else if Hits(formats[0], s) then Some(0)
    else
      match FirstMatch(formats[1..], s)
      case Some(i) => Some(i + 1)
      case None => None
  }

  /** The format `sniff` returns. */
  function Sniffed(formats: seq<Format>, s: seq<byte>): Format
  {
    match FirstMatch(formats, s)
    case Some(i) => formats[i]
    case None => NoFormat
  }

  /**
    The outcome of `decode`: the format error when the sniffed entry has no
    decoder, otherwise the decoder's own image and error, applied to the whole
    stream, together with the entry's name.
  */
  function Dispatch(formats: seq<Format>, s: seq<byte>): (d: Decoded)
    ensures FirstMatch(formats, s).None? ==> d == Decoded(None, "", Some(ErrFormat))
    ensures FirstMatch(formats, s).Some? ==>
      var f := formats[FirstMatch(formats, s).value];
      d == if f.decode.None? then Decoded(None, "", Some(ErrFormat))
           else Decoded(f.decode.value(s).img, f.name, f.decode.value(s).err)
  {
    var f := Sniffed(formats, s);
    if f.decode.None? then Decoded(None, "", Some(ErrFormat))
    else
      var r := f.decode.value(s);
      Decoded(r.img, f.name, r.err)
  }

  /**
    Whether an entry claims a stream depends only on the stream's first
    `len(magic)` bytes. The `err == nil` test of `sniff` never decides
    anything: bytes from a short peek are shorter than the magic string, so
    they cannot match.
  */
  lemma HitsIffPrefixMatches(f: Format, s: seq<byte>)
    ensures Hits(f, s) <==> |f.magic| <= |s| && Matches(f.magic, s[..|f.magic|])
    ensures Hits(f, s) <==> Matches(f.magic, Peek(s, |f.magic|).bytes)
  {
  }

  /** An entry is rejected by one fixed byte of its magic string that the stream lacks or contradicts. */
  lemma MismatchAt(f: Format, s: seq<byte>, i: nat)
    requires i < |f.magic| && f.magic[i] != Wildcard
    requires i < |s| ==> s[i] != f.magic[i]
    ensures !Hits(f, s)
  {
    var p := Peek(s, |f.magic|);
    if p.err.None? {
      assert !AcceptsAt(f.magic, p.bytes, i);
    }
  }

  /** Helper for concrete streams: long enough and agreeing at every fixed magic byte means claimed. */
  lemma PrefixHits(f: Format, s: seq<byte>)
    requires |f.magic| <= |s|
    requires forall i :: 0 <= i < |f.magic| ==> f.magic[i] == Wildcard || f.magic[i] == s[i]
    ensures Hits(f, s)
  {
  }

  /** The first-match property determines the selected index. */
  lemma FirstMatchIs(formats: seq<Format>, s: seq<byte>, k: nat)
    requires k < |formats| && Hits(formats[k], s)
    requires forall j :: 0 <= j < k ==> !Hits(formats[j], s)
    ensures FirstMatch(formats, s) == Some(k)
  {
  }

  /** A stream shorter than every registered magic string is not recognised. */
  lemma ShortStreamUnrecognized(formats: seq<Format>, s: seq<byte>)
    requires forall j :: 0 <= j < |formats| ==> |s| < |formats[j].magic|
    ensures FirstMatch(formats, s) == None
    ensures Dispatch(formats, s) == Decoded(None, "", Some(ErrFormat))
  {
  }

  /**
    An entry whose magic string repeats an earlier entry's is never selected:
    the earlier one claims every stream the later one would.
  */
  lemma LaterDuplicateNeverSelected(formats: seq<Format>, s: seq<byte>, j: nat, k: nat)
    requires j < k < |formats| && formats[j].magic == formats[k].magic
    ensures FirstMatch(formats, s) != Some(k)
  {
  }

  /** Registering more formats never changes the outcome for a stream an earlier entry already claims. */
  lemma RegisterKeepsEarlierMatch(formats: seq<Format>, more: seq<Format>, s: seq<byte>)
    requires FirstMatch(formats, s).Some?
    ensures FirstMatch(formats + more, s) == FirstMatch(formats, s)
  {
    var k := FirstMatch(formats, s).value;
    assert (formats + more)[k] == formats[k];
    forall j | 0 <= j < k ensures !Hits((formats + more)[j], s) {
      assert (formats + more)[j] == formats[j];
    }
    FirstMatchIs(formats + more, s, k);
  }

  /** A newly registered format is selected exactly for the streams no earlier entry claims and it does. */
  lemma RegisterFillsOnlyGaps(formats: seq<Format>, g: Format, s: seq<byte>)
    requires FirstMatch(formats, s).None?
    ensures FirstMatch(formats + [g], s) == if Hits(g, s) then Some(|formats|) else None
    ensures Sniffed(formats + [g], s) == if Hits(g, s) then g else NoFormat
  {
    var fs := formats + [g];
    forall j | 0 <= j < |formats| ensures !Hits(fs[j], s) {
      assert fs[j] == formats[j];
    }
    assert fs[|formats|] == g;
    if Hits(g, s) {
      FirstMatchIs(fs, s, |formats|);
    }
  }

  /**
    The process-wide list of registered formats. Registration appends; all
    lookups read the list in registration order.
  */
  class Registry {
    var formats: seq<Format>

    /** The package's `formats` slice before any registration: empty. */
    constructor ()
      ensures formats == []
    {
      formats := [];
    }

    /** `RegisterFormat`: appends one entry, with no check for duplicates or overlaps. */
    method RegisterFormat(name: string, magic: seq<byte>, decode: Option<DecodeFn>, decodeConfig: Option<ConfigFn>)
      modifies this
      ensures formats == old(formats) + [Format(name, magic, decode, decodeConfig)]
    {
      formats := formats + [Format(name, magic, decode, decodeConfig)];
    }

    /** `sniff`: the registry walk with a non-consuming peek per entry and an early return. */
    method Sniff(s: seq<byte>) returns (f: Format)
      ensures f == Sniffed(formats, s)
    {
      for k := 0 to |formats|
        invariant forall j :: 0 <= j < k ==> !Hits(formats[j], s)
      {
        var g := formats[k];
        var p := Peek(s, |g.magic|);
        if p.err.None? {
          var ok := Match(g.magic, p.bytes);
          if ok {
            FirstMatchIs(formats, s, k);
            return g;
          }
        }
      }
      return NoFormat;
    }

    /** `decode`: sniff, then run the selected decoder on the same, unconsumed stream. */
    method DecodeNamed(s: seq<byte>) returns (img: Option<Image>, name: string, err: Option<Error>)
      ensures Decoded(img, name, err) == Dispatch(formats, s)
    {
      var f := Sniff(s);
      if f.decode.None? {
        return None, "", Some(ErrFormat);
      }
      var r := f.decode.value(s);
      return r.img, f.name, r.err;
    }

    /**
      `Decode`: the dispatcher's error, if any, with no image; otherwise the
      normalised image and no error. `normalize` stands for `toNRGBA`.
    */
    method Decode(s: seq<byte>, normalize: Option<Image> -> Option<Image>) returns (img: Option<Image>, err: Option<Error>)
      ensures var d := Dispatch(formats, s);
        if d.err.Some? then img == None && err == d.err
        else img == normalize(d.img) && err == None
    {
      var m, _, e := DecodeNamed(s);
      if e.Some? {
        return None, e;
      }
      return normalize(m), None;
    }
  }
}

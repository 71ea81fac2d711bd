# Image format sniffing and decode dispatch

A Dafny model of the dispatch core of the `imaging` package (`decode.go`).
That core has four parts:

- a registry of image formats, each with a name, a magic string and two decoder functions;
- a wildcard matcher for magic strings;
- a sniffer that peeks at the start of a stream and picks the first registered format whose magic string matches;
- the `decode` / `Decode` entry points, which run the picked format's decoder on the same stream.

Modules:

- `Stream`: the byte type and a buffered reader's `Peek`. The bytes not yet read are a value `seq<byte>`. `Peek(s, n)` returns the first `n` bytes and no error. When fewer than `n` bytes remain, it returns all of them with an end-of-input error. Peeking is a function of the stream value, so it cannot consume anything. The decoder is then handed that same value, starting at byte 0.
- `Magic`: `match`, the method `Match`, proved against the predicate `Matches`. The byte `?` (0x3F) matches any one byte.
- `Imaging`: the `format` record, the registry class `Registry` with `RegisterFormat`, `sniff`, `decode` and `Decode`. It also holds the specification functions:
  - `Hits`: whether an entry claims a stream, the per-entry test of `sniff` (the peek of `len(magic)` bytes succeeds and the peeked bytes match);
  - `FirstMatch`: the index of the first entry that claims a stream;
  - `Sniffed`: the format `sniff` returns;
  - `Dispatch`: what `decode` returns.
  Lemmas about registration order sit beside them.
- `Builtins`: the magic strings and the seven-entry table that `init` registers, in registration order. Scenario lemmas cover each built-in format.

Go's nil decoder is `None`. The zero `format{}` is `NoFormat`: empty name, empty magic string, no decoders. `decode` tests whether the sniffed entry has a decoder, not whether it has a name, and the model does the same. So an entry registered with no decoder also yields `ErrFormat` when it is selected.

Facts about `decode.go` that the model keeps:

- The WebP magic string is fifteen bytes (`RIFF????WEBPVP8`, decode.go:37). `Builtins.ShortWebpUnrecognized` shows that a twelve-byte `RIFF`, size, `WEBP` header is recognised by no built-in entry, whatever its size bytes.
- decode.go has no `DecodeConfig` entry point. The config decoders are stored in each entry but never called.
- `Decode` returns only the image and the error (decode.go:17-25). The format name is returned only by the lower-case `decode`.
- The registry has no locking.
- Another package's `init` runs after this one's, so a format it registers comes after the seven built-ins. The plugin lemmas therefore append the plugin after `Table(c)`.

## Model

| member | source | states |
|---|---|---|
| Magic.Match | decode.go:78-88 | the result is true exactly when the lengths are equal and every position of the magic string is `?` or equal to the slice's byte |
| Magic.LengthMismatchNeverMatches | decode.go:79-81 | a slice whose length differs from the magic string's never matches |
| Magic.WildcardByteIrrelevant | decode.go:82-87 | changing the byte under a `?` never changes whether the slice matches |
| Magic.FixedByteDecides | decode.go:82-87 | changing the byte under a non-`?` position to any other value makes the match fail |
| Magic.MatchesExactlyInstantiations | decode.go:77-88 | every filling of the wildcards with arbitrary bytes matches, and every matching slice is such a filling |
| Stream.Peek | decode.go:93 | peeking `n` bytes succeeds exactly when at least `n` remain; the bytes returned are a prefix of the stream, of length `n` or everything that remains |
| Imaging.HitsIffPrefixMatches | decode.go:93-94 | an entry claims a stream exactly when the stream is at least as long as the magic string and its prefix of that length matches; the peek-error test never decides, since a short peek's bytes cannot match |
| Imaging.MismatchAt | decode.go:93-94 | one fixed magic byte that the stream lacks or contradicts rejects the entry |
| Imaging.FirstMatch | decode.go:91-99 | the selected index claims the stream and no earlier entry does; no index is selected exactly when no entry claims the stream |
| Imaging.FirstMatchIs | decode.go:92-97 | a claiming entry with no claiming entry before it is the one selected |
| Imaging.ShortStreamUnrecognized | decode.go:93-98 | a stream shorter than every magic string selects nothing and decoding reports `ErrFormat`, not a peek error |
| Imaging.LaterDuplicateNeverSelected | decode.go:92-97 | an entry whose magic string repeats an earlier entry's is never selected |
| Imaging.RegisterKeepsEarlierMatch | decode.go:59-61 | appending formats never changes the selection for a stream an existing entry already claims |
| Imaging.RegisterFillsOnlyGaps | decode.go:59-61 | an appended format is selected exactly for the streams it claims and no earlier entry claims |
| Imaging.Dispatch | decode.go:105-113 | with no selected entry, or one without a decoder, the outcome is `ErrFormat` with no image and an empty name; otherwise it is the selected decoder's image and error on the whole stream, with the entry's name |
| Imaging.Registry.constructor | decode.go:50-51 | the registry starts empty |
| Imaging.Registry.RegisterFormat | decode.go:59-61 | exactly one entry is appended at the end; earlier entries and their order are unchanged; nothing is validated |
| Imaging.Registry.Sniff | decode.go:91-99 | the registry walk returns the first entry, in registration order, that claims the stream, or the zero format |
| Imaging.Registry.DecodeNamed | decode.go:105-113 | returns the outcome `Dispatch` specifies; no other format is tried after the selected decoder fails |
| Imaging.Registry.Decode | decode.go:17-25 | on an error, returns no image and that error unchanged; otherwise the normalised image and no error |
| Builtins.Table | decode.go:34-40 | the start-up table has seven entries in `init` order, each with its name, byte-exact magic string and its codec's decoders; `tiff` appears twice, little-endian header first |
| Builtins.Init | decode.go:33-41 | start-up appends the seven built-in entries in table order |
| Builtins.SniffBmp | decode.go:34 | a stream `BM` + any four bytes + four zero bytes goes to the BMP decoder, whatever is registered later |
| Builtins.SniffTiff | decode.go:35-36 | a little-endian TIFF header selects the first `tiff` entry and a big-endian one the second; both go to the TIFF decoder |
| Builtins.SniffWebp | decode.go:37 | `RIFF` + any four bytes + `WEBPVP8` goes to the WebP decoder |
| Builtins.ShortWebpUnrecognized | decode.go:37 | every twelve-byte stream `RIFF` + any four size bytes + `WEBP` is recognised by no built-in entry, and decoding reports `ErrFormat` |
| Builtins.SniffGif | decode.go:38 | `GIF87a` and `GIF89a` streams go to the GIF decoder |
| Builtins.SniffJpeg | decode.go:39 | a stream beginning `FF D8` goes to the JPEG decoder, whose image and error are returned as they are, with the name `jpeg` |
| Builtins.SniffPng | decode.go:40 | a stream beginning with the PNG signature goes to the PNG decoder |
| Builtins.FourZeroBytesUnrecognized | decode.go:33-41 | four zero bytes are recognised by no built-in entry, and decoding reports `ErrFormat` |
| Builtins.NoBuiltinClaimsLetterA | decode.go:33-41 | no built-in entry claims a stream that begins with `A` |
| Builtins.LaterRegistrationClaimsLetterA | decode.go:59-61 | a format registered after start-up receives every stream beginning with `A` that it claims |
| Builtins.PluginAfterBuiltins | decode.go:59-61 | a plugin with magic `AB??` registered after start-up receives every stream of four or more bytes that begins `AB` |
| Builtins.DecodeFourZeroBytes | decode.go:105-113 | a freshly loaded package decodes four zero bytes to `ErrFormat` with an empty name and no image |

## Left out

- The codecs (`bmp`, `tiff`, `webp`, `gif`, `jpeg`, `png` and their `Decode` / `DecodeConfig`) belong to other packages. They are parameters: functions from the stream's bytes to an image or config result. `Image` and `Config` are stand-in records.
- `toNRGBA` is defined outside `decode.go`. It is a parameter `normalize` of `Registry.Decode`.
- The two `fmt.Println` diagnostics in `Decode` have no effect on the results, so they are left out.
- `asReader` and `bufio.NewReader` are reduced to the stream value and `Peek`. Wrapping never changes which bytes a reader would deliver. Three details are not modelled:
  - bufio's `ErrBufferFull` for a peek beyond its buffer. The built-in magic strings are 2 to 15 bytes long. A plugin magic string longer than bufio's buffer never matches in Go but can in the model;
  - a read error from the underlying reader other than end of input;
  - the type assertion that reuses a reader which can already peek.
- Concurrent registration and lookup are not modelled; the registry is a single-threaded object. The code itself has no locking.
- The order in which Go runs package `init` functions is not modelled. `Builtins.Init` appends the table to whatever the registry already holds.

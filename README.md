# FLV container parser, modelled in Dafny

This project models the FLV container parser of the `flvparser` crate, found in `src/parse/mod.rs`. That parser follows Annex E ("FLV file format") of Adobe's Video File Format Specification, version 10.1. It covers:

- the 9-byte file header: the "FLV" signature, version, flags and the 32-bit header length;
- the 11-byte tag header: the type byte, the 24-bit data size, the 24-bit timestamp with its extension byte, and the 24-bit stream id;
- the tag parser, which hands the data region to the audio, video or script sub-parser chosen by the type byte;
- the body: the first previous-tag-size field, then a run of (tag, previous-tag-size) pairs;
- the file parser: the header, then the body.

Every parser is a pure function from the unconsumed input (`seq<byte>`) to nom's three-way result `IResult`: `Done(rest, value)`, `Incomplete` or `Error`. The slices the source borrows from its input are subsequences of that input. The nom combinators the source is built from are modelled in `nom.dfy` with nom 5's streaming behaviour. They are `tag!`, `be_u8`, `be_u24`, `be_u32`, `map!`, `complete!` and `many0!`. `do_parse!` and `tuple!` are sequences of `:-` steps. These are in `Flv.ParseTagAndSize` for the tag/size pair and in each parser for `do_parse!`. The one `switch!` is `Flv.ParseTagType`.

The audio, video and script sub-grammars live in `src/parse/audio.rs`, `script.rs` and `video.rs`, which are not part of this model. The parsers take them as a parameter, `TagDataParsers`. Each sub-parser is any function of the input and a size that either consumes exactly `size` bytes or returns `Incomplete`/`Error` (`SizedParser`). Their results are the type parameters `A`, `V`, `S`.

Files:

- `bytes.dfy`: bytes, `u32`, and `BeValue`/`EncodeBe`. These are the big-endian reference reading and encoding the field readers are proved against.
- `nom.dfy`: `IResult` and the combinators.
- `flv.dfy`: the parsers of `mod.rs`.
- `flv_properties.dfy`: properties that relate several calls. These are encoders the parsers invert, the tag stream as the longest chain of complete pairs, where the stream stops, and independence from the header's data offset.

Points where the code's behaviour is easy to misread:

- **Empty or short input gives `Incomplete`, not `Error`.** nom's streaming `tag!` compares only the bytes that are present. So an empty input, or a correct prefix of "FLV" shorter than three bytes, gives `Incomplete`. Only a byte that is present and differs from the signature gives `Error`; a missing byte never does (`Flv.ParseFileHeader`, `FlvProperties.EmptyInputAsksForMore`).
- **An unknown tag type ends the body; it does not fail the file.** The tag header parser fails permanently on a type byte other than 8, 9 or 18. Inside the body that failure only ends the tag list. The body and the file parse succeed, and the bad tag's bytes are left as remaining input (`FlvProperties.UnknownTagTypeEndsStream`).
- **The tag loop stops on any failure, not only on a short input.** `complete!` turns `Incomplete` into `Error`, and `many0!` stops cleanly on `Error`.
- **Sub-parsers get the whole remaining input, not a slice.** The source passes the rest of the input plus the data size. It does not pass a slice cut to `data_size` bytes. The model therefore requires the size discipline of the sub-parsers (`ConsumesExactly`).
- **The body starts right after byte 9.** The file parser never seeks to `data_offset` (`FlvProperties.DataOffsetNotUsed`).

## Model

| member | source | states |
|---|---|---|
| `Bytes.BeValue` | src/parse/mod.rs:14 | the big-endian value of n bytes is below 256^n |
| `Bytes.BeValueOfEncode` | src/parse/mod.rs:14 | reading an n-byte big-endian encoding gives back any value below 256^n |
| `Bytes.EncodeOfBeValue` | src/parse/mod.rs:14 | encoding the value of a byte string in its own length gives that byte string back |
| `Nom.BeU8` | src/parse/mod.rs:74-76 | an absent byte gives Incomplete, never Error; otherwise one byte is consumed and its value is the byte |
| `Nom.BeU24` | src/parse/mod.rs:188-194 | fewer than 3 bytes gives Incomplete; otherwise exactly 3 bytes are consumed and the value is their big-endian reading, below 2^24 |
| `Nom.BeU32` | src/parse/mod.rs:78 | fewer than 4 bytes gives Incomplete; otherwise exactly 4 bytes are consumed and the value is their big-endian reading |
| `Nom.BeU24OfEncode` | src/parse/mod.rs:188 | a 24-bit field written big-endian reads back as the value written, leaving what follows |
| `Nom.BeU32OfEncode` | src/parse/mod.rs:78 | a 32-bit field written big-endian reads back as the value written, leaving what follows |
| `Nom.Compare` | src/parse/mod.rs:72 | mismatch exactly when some byte present in both differs; match exactly when none differs and the input is long enough; otherwise too short |
| `Nom.Tag` | src/parse/mod.rs:72 | Error exactly when a present byte differs from the tag; Incomplete exactly when the present bytes agree but are too few; on success the input starts with the tag and the rest follows it |
| `Nom.Complete` | src/parse/mod.rs:110 | never Incomplete; succeeds exactly when the wrapped parse does, with the same result |
| `Nom.Map` | src/parse/mod.rs:225-227 | keeps the outcome and the remaining input and applies the function to the value |
| `Nom.Many0` | src/parse/mod.rs:110 | a success is a chain of consuming steps, in input order, after which the next step fails with Error |
| `Nom.Many0Unique` | src/parse/mod.rs:110 | every chain whose next step fails is exactly what many0 returns, so the values are the longest run of consuming successes |
| `Nom.Many0Succeeds` | src/parse/mod.rs:110 | with a step that never asks for more input and always consumes on success, many0 always succeeds; its no-progress error never fires |
| `Nom.ChainLayout` | src/parse/mod.rs:110 | when each step consumes the width of its value, the chain's values lie back to back and the rest starts after their total width |
| `Flv.HasAudio` | src/parse/mod.rs:84 | `flags & 4 == 4` holds exactly when bit 2 of the flags byte is set |
| `Flv.HasVideo` | src/parse/mod.rs:85 | `flags & 1 == 1` holds exactly when bit 0 of the flags byte is set |
| `Flv.ParseFileHeader` | src/parse/mod.rs:68-89 | Error exactly when a present signature byte is wrong; Incomplete exactly when the signature agrees and fewer than 9 bytes are present; on success: signature "FLV", the 9 bytes consumed, version byte 3, flags byte 4 stored unchanged, presence bits from bits 2 and 0, data offset the big-endian value of bytes 5..8 |
| `Flv.TagTypeCode` | src/parse/mod.rs:182-186 | the code the parser maps each tag type to (8 audio, 9 video, 18 script) fits the 5-bit TagType field |
| `Flv.ParseTagType` | src/parse/mod.rs:182-186 | an empty input gives Incomplete; a type byte other than 8, 9 or 18 gives Error; otherwise one byte is consumed and it is the code of the decoded type (8 audio, 9 video, 18 script) |
| `Flv.ExtendedTimestamp` | src/parse/mod.rs:199 | the sum cannot overflow 32 bits; its high byte is the extension byte and its low 24 bits the 24-bit timestamp, i.e. it equals `(ext << 24) \| ts24` |
| `Flv.ParseTagHeader` | src/parse/mod.rs:178-203 | the type byte decides first (Error if illegal, Incomplete if absent); a legal type with fewer than 11 bytes gives Incomplete; a success consumes exactly 11 bytes; data size and stream id are the 24-bit big-endian fields, below 2^24; the timestamp is `ext * 2^24 + ts24` |
| `Flv.ParseTagData` | src/parse/mod.rs:219-229 | the tag type picks the sub-parser: 8 audio, 9 video, 18 script; that sub-parser's success, request for more input or error passes through, its value wrapped in the matching data variant; a success consumed exactly `size` bytes |
| `Flv.ParseTag` | src/parse/mod.rs:133-143 | header failures pass through unchanged; otherwise the outcome is the dispatcher run on the bytes after the header with the header's own type and data size; a success carries that header and consumes exactly 11 + data size bytes; its data variant matches its type |
| `Flv.ParseTagAndSize` | src/parse/mod.rs:110 | never Incomplete; succeeds exactly when the tag parses and 4 more bytes follow it; the size field is the big-endian value of those 4 bytes and the rest follows them |
| `Flv.TagAndSizeParser` | src/parse/mod.rs:110 | the pair parser as a parser value, consuming the pair's width (tag header, data size and 4) |
| `Flv.ParseTags` | src/parse/mod.rs:110 | always succeeds; its pairs are a chain of complete pairs from the front of the input, and no complete pair follows the rest |
| `Flv.ParseFileBody` | src/parse/mod.rs:104-114 | never Error; Incomplete exactly when fewer than 4 bytes are present; the first size field is bytes 0..3, unchecked; the tags are the chain of complete pairs after it, ending where no complete pair follows |
| `Flv.ParseFile` | src/parse/mod.rs:33-43 | Error exactly on a wrong present signature byte; Incomplete exactly when fewer than 13 bytes agree with the signature; on success the header is the header parse and the body and rest are the body parse of the input after byte 9 |
| `FlvProperties.FileHeaderRoundTrip` | src/parse/mod.rs:68-89 | for every version, each of the 256 flag values and every header length, the 9 header bytes parse back to those fields, with the presence bits from bits 2 and 0 |
| `FlvProperties.WrongFirstByteIsPermanent` | src/parse/mod.rs:72 | an input whose first byte is not 0x46 fails permanently however long it is |
| `FlvProperties.EmptyInputAsksForMore` | src/parse/mod.rs:72 | an empty input makes the file parser ask for more input |
| `FlvProperties.TagTypeCodeRoundTrip` | src/parse/mod.rs:182-186 | the code of every tag type is legal and decodes back to that type |
| `FlvProperties.EnumDiscriminant` | src/parse/mod.rs:167-174 | the enum's discriminants (0x08, 0x09, 0x18) equal the parser's codes exactly for audio and video, not for script |
| `FlvProperties.ScriptDiscriminantRejected` | src/parse/mod.rs:167-174 | the enum discriminant matches the parser's code for audio and video; the script discriminant 0x18 differs from 18 and the tag parser rejects it |
| `FlvProperties.TagHeaderRoundTrip` | src/parse/mod.rs:178-203 | every tag header whose 24-bit fields fit parses back unchanged from its 11 encoded bytes, including every 32-bit timestamp split into low 24 bits and extension byte |
| `FlvProperties.TimestampExample` | src/parse/mod.rs:199 | timestamp 0xABCDEF with extension 0x01 is 0x01ABCDEF, both alone and as read from a tag header |
| `FlvProperties.TagChainLayout` | src/parse/mod.rs:110 | the pairs of a chain lie back to back in input order, each taking 11 + data size + 4 bytes, and the rest is what follows them |
| `FlvProperties.ParseTagsUnique` | src/parse/mod.rs:110 | every chain of complete pairs that ends where no complete pair follows is exactly the tag list the body loop returns |
| `FlvProperties.TruncatedTagEndsStream` | src/parse/mod.rs:104-114 | a tag whose declared data size runs past the input ends the list after the tags before it, and stays unconsumed |
| `FlvProperties.UnknownTagTypeEndsStream` | src/parse/mod.rs:182-186 | a tag whose type byte is not 8, 9 or 18 is an Error of the tag header parser, and in the body it only ends the list, keeping the tags before it |
| `FlvProperties.DataOffsetNotUsed` | src/parse/mod.rs:33-43 | inputs that differ only in the four data-offset bytes succeed together, with the same body, the same rest, version and flags |
| `FlvProperties.RawPairRoundTrip` | src/parse/mod.rs:133-143 | with sub-parsers that keep the data as raw bytes, a tag header, its data and a size field parse back as that one pair |
| `FlvProperties.RawTagsChain` | src/parse/mod.rs:110 | N written tags followed by anything form a chain of exactly their N pairs |
| `FlvProperties.RawTagsRoundTrip` | src/parse/mod.rs:104-114 | a stream of N well-formed tags, each followed by its size, then bytes that are not a complete pair, yields exactly those N tags, in order, and leaves those bytes |

## Findings

| source | as written | input that shows it | evidently intended | confidence | as-written member | corrected member |
|---|---|---|---|---|---|---|
| src/parse/mod.rs:173 | the enum discriminant is `Script = 0x18` (24) | `FlvTagType::Script as u8` gives 24, a type byte the tag parser at src/parse/mod.rs:182-186 rejects | `Script = 18` (0x12), the code the parser decodes at src/parse/mod.rs:185 and the doc comments at src/parse/mod.rs:127 and src/parse/mod.rs:155 give | medium, not executed | `FlvProperties.ScriptDiscriminantRejected` | `FlvProperties.TagTypeCodeRoundTrip` |

`FlvProperties.EnumDiscriminant` models the discriminants as written. The rest of the model decodes tag types through `Flv.TagTypeCode`, which is the parser's own mapping, so nothing else depends on the discriminant.

## Left out

- The audio, video and script sub-grammars (`mod audio`, `mod script`, `mod video`). Their source is not part of this model. They are parameters bound only by the size contract `ConsumesExactly`. The AMF value grammar is not modelled, and neither are the sub-headers of audio and video data.
- nom's `Needed` size hints in `Incomplete` and its error kinds. They carry no behaviour the parsers here depend on, and both collapse to bare `Incomplete` and `Error`.
- nom's third error outcome, `Err::Failure`. None of the parsers shown produces it. If a sub-parser raised it, `many0!` would pass it on and the body would fail. The sub-parsers here cannot raise it.
- The `#[cfg(...)]` import of `Vec`, the `derive`s and the Rust lifetimes. They have no behaviour. Borrowed slices are subsequences of the input, so aliasing and the lifetime relation between result and buffer are not modelled.
- I/O, buffering and re-invoking the parser with more input. These belong to the caller.
- `header.data_size as usize`. The widening from `u32` to the platform's `usize` is the identity on the values involved and is modelled as `nat`.

/** The FLV container parser of `src/parse/mod.rs`: the file header, the tag header, the
    tag and its type-dispatched data, the tag stream of the body, and the whole file, as
    laid out in Annex E ("FLV file format") of Adobe's Video File Format Specification,
    version 10.1. Every parser takes the unconsumed input and returns a nom `IResult`;
    the views the source borrows from its input are subsequences of that input here.

    The audio, video and script sub-grammars are not part of this model. They enter as
    parameters: any parser that, given the input and a size, either consumes exactly
    `size` bytes or asks for more or fails. Their results are the type parameters A, V, S. */
module Flv {
  import opened Bytes
  import opened Nom

  /** The three signature bytes, "FLV". */
  const FLV_HEADER_SIGNATURE: seq<byte> := [0x46, 0x4c, 0x56]

  /** Bytes in a file header: signature, version, flags and the 32-bit header length. */
  const FILE_HEADER_SIZE: nat := 9

  /** Bytes in a tag header: type, 24-bit size, 24-bit timestamp, extension, 24-bit stream id. */
  const TAG_HEADER_SIZE: nat := 11

  /** Bytes in a previous-tag-size field. */
  const TAG_SIZE_FIELD_SIZE: nat := 4

  datatype FlvFile<A, V, S> = FlvFile(header: FlvFileHeader, body: FlvFileBody<A, V, S>)

  datatype FlvFileHeader = FlvFileHeader(
    signature: seq<byte>,
    version: byte,
    flags: byte,
    hasAudio: bool,
    hasVideo: bool,
    dataOffset: u32)

  /** The leading previous-tag-size field, then each tag with the size field after it. */
  datatype FlvFileBody<A, V, S> = FlvFileBody(
    firstPreviousTagSize: u32,
    tags: seq<(FlvTag<A, V, S>, u32)>)

  datatype FlvTag<A, V, S> = FlvTag(header: FlvTagHeader, data: FlvTagData<A, V, S>)

  datatype FlvTagHeader = FlvTagHeader(
    tagType: FlvTagType,
    dataSize: u32,
    timestamp: u32,
    streamId: u32)

  datatype FlvTagType = Audio | Video | Script

  datatype FlvTagData<A, V, S> = AudioData(audio: A) | VideoData(video: V) | ScriptData(script: S)
  {
    /** The tag type whose sub-parser produced this data. */
    function TagType(): FlvTagType {
      match this
      case AudioData(_) => Audio
      case VideoData(_) => Video
      case ScriptData(_) => Script
    }
  }

  /** The contract of the tag-data sub-parsers: success consumes exactly `size` bytes. */
  ghost predicate ConsumesExactly<T>(parse: (seq<byte>, nat) -> IResult<T>) {
    forall input: seq<byte>, size: nat ::
      parse(input, size).Done? ==> size <= |input| && parse(input, size).rest == input[size..]
  }

  /** A sub-parser that honours `ConsumesExactly`, as `AudioTag::parse`, `VideoTag::parse`
      and `ScriptTag::parse` are called with the input and the tag's data size. */
  type SizedParser<T> = parse: (seq<byte>, nat) -> IResult<T> | ConsumesExactly(parse)
    witness (input: seq<byte>, size: nat) => Incomplete

  /** The three sub-grammars the tag-data dispatcher routes to. */
  datatype TagDataParsers<A, V, S> = TagDataParsers(
    audio: SizedParser<A>,
    video: SizedParser<V>,
    script: SizedParser<S>)

  // ---------------------------------------------------------------- file header

  /** `flags & 4 == 4`: bit 2 of the flags byte, "audio tags are present". */
  function HasAudio(flags: byte): (b: bool)
    ensures b <==> (flags / 4) % 2 == 1
  {
    (flags as bv8) & 4 == 4
  }

  /** `flags & 1 == 1`: bit 0 of the flags byte, "video tags are present". */
  function HasVideo(flags: byte): (b: bool)
    ensures b <==> flags % 2 == 1
  {
    (flags as bv8) & 1 == 1
  }

  /** `FlvFileHeader::parse`: the signature (a wrong byte among those present is a
      permanent error, a correct but short prefix asks for more), then version, flags and
      the header length. It reads nine bytes and nothing else. */
  function ParseFileHeader(input: seq<byte>): (r: IResult<FlvFileHeader>)
    ensures r.Error? <==> Differs(input, FLV_HEADER_SIGNATURE)
    ensures r.Incomplete? <==> !Differs(input, FLV_HEADER_SIGNATURE) && |input| < FILE_HEADER_SIZE
    ensures r.Done? ==>
      && |input| >= FILE_HEADER_SIZE
      && input[..3] == FLV_HEADER_SIGNATURE
      && r.rest == input[FILE_HEADER_SIZE..]
      && r.value.signature == FLV_HEADER_SIGNATURE
      && r.value.version == input[3]
      && r.value.flags == input[4]
      && (r.value.hasAudio <==> (input[4] / 4) % 2 == 1)
      && (r.value.hasVideo <==> input[4] % 2 == 1)
      && r.value.dataOffset == BeValue(input[5..9])
  {
    var (afterSignature, _) :- Tag(input, FLV_HEADER_SIGNATURE);
    var (afterVersion, version) :- BeU8(afterSignature);
    var (afterFlags, flags) :- BeU8(afterVersion);
    var (afterOffset, dataOffset) :- BeU32(afterFlags);
    assert afterFlags[..4] == input[5..9];
    Done(afterOffset, FlvFileHeader(
      FLV_HEADER_SIGNATURE, version, flags, HasAudio(flags), HasVideo(flags), dataOffset))
  }

  // ---------------------------------------------------------------- tag header

  /** The type byte the parser maps to each tag type: 8 audio, 9 video, 18 script. Each
      fits the 5-bit TagType field of the type byte. */
  function TagTypeCode(t: FlvTagType): (c: byte)
    ensures c < 0x20
  {
    match t
    case Audio => 8
    case Video => 9
    case Script => 18
  }

  /** The legal tag-type bytes. */
  const TAG_TYPE_CODES: set<byte> := {8, 9, 18}

  /** `switch!(be_u8, 8 => Audio | 9 => Video | 18 => Script)`: an absent byte asks for
      more, any other byte value is a permanent error. */
  function ParseTagType(input: seq<byte>): (r: IResult<FlvTagType>)
    ensures r.Incomplete? <==> |input| == 0
    ensures r.Error? <==> |input| > 0 && input[0] !in TAG_TYPE_CODES
    ensures r.Done? ==> r.rest == input[1..] && TagTypeCode(r.value) == input[0]
  {
    var (rest, code) :- BeU8(input);
    if code == 8 then Done(rest, Audio)
    else if code == 9 then Done(rest, Video)
    else if code == 18 then Done(rest, Script)
    else Error
  }

  /** `(u32::from(extended) << 24) + low`: the shift keeps the low 32 bits and the sum
      has to fit in 32 bits. The result's high byte is the extension byte and its low 24
      bits are the 24-bit timestamp, i.e. it equals `(extended << 24) | low`. */
  function ExtendedTimestamp(low: u32, extended: byte): (t: u32)
    requires low < TWO_24
    ensures t / TWO_24 == extended && t % TWO_24 == low
  {
    var shifted := (extended * TWO_24) % TWO_32;
    shifted + low
  }

  /** `FlvTagHeader::parse`: the type byte is checked before anything else is read; after
      it, eleven bytes in all are read, each 24-bit field big-endian. */
  function ParseTagHeader(input: seq<byte>): (r: IResult<FlvTagHeader>)
    ensures r.Error? <==> |input| > 0 && input[0] !in TAG_TYPE_CODES
    ensures r.Incomplete? <==> |input| == 0 || (input[0] in TAG_TYPE_CODES && |input| < TAG_HEADER_SIZE)
    ensures r.Done? ==>
      && |input| >= TAG_HEADER_SIZE
      && r.rest == input[TAG_HEADER_SIZE..]
      && TagTypeCode(r.value.tagType) == input[0]
      && r.value.dataSize == BeValue(input[1..4]) < TWO_24
      && r.value.timestamp == input[7] * TWO_24 + BeValue(input[4..7])
      && r.value.streamId == BeValue(input[8..11]) < TWO_24
  {
    var (afterType, tagType) :- ParseTagType(input);
    var (afterSize, dataSize) :- BeU24(afterType);
    var (afterTimestamp, timestamp) :- BeU24(afterSize);
    var (afterExtension, timestampExtended) :- BeU8(afterTimestamp);
    var (afterStreamId, streamId) :- BeU24(afterExtension);
    assert afterType[..3] == input[1..4];
    assert afterSize[..3] == input[4..7];
    assert afterExtension[..3] == input[8..11];
    Done(afterStreamId,
      FlvTagHeader(tagType, dataSize, ExtendedTimestamp(timestamp, timestampExtended), streamId))
  }

  // ---------------------------------------------------------------- tag

  /** `FlvTagData::parse`: route to the sub-parser of `tagType` with the size bound. A
      success has consumed exactly `size` bytes and holds the variant of `tagType`. */
  function ParseTagData<A, V, S>(parsers: TagDataParsers<A, V, S>, input: seq<byte>,
                                 tagType: FlvTagType, size: nat): (r: IResult<FlvTagData<A, V, S>>)
    ensures r.Done? ==> size <= |input| && r.rest == input[size..] && r.value.TagType() == tagType
    ensures tagType == Audio ==>
      && r.Done? == parsers.audio(input, size).Done? && r.Error? == parsers.audio(input, size).Error?
      && (r.Done? ==> r.value.audio == parsers.audio(input, size).value)
    ensures tagType == Video ==>
      && r.Done? == parsers.video(input, size).Done? && r.Error? == parsers.video(input, size).Error?
      && (r.Done? ==> r.value.video == parsers.video(input, size).value)
    ensures tagType == Script ==>
      && r.Done? == parsers.script(input, size).Done? && r.Error? == parsers.script(input, size).Error?
      && (r.Done? ==> r.value.script == parsers.script(input, size).value)
  {
    match tagType
    case Audio => Map(parsers.audio(input, size), (a: A) => AudioData(a))
    case Video => Map(parsers.video(input, size), (v: V) => VideoData(v))
    case Script => Map(parsers.script(input, size), (s: S) => ScriptData(s))
  }

  /** Bytes a tag with this header occupies: the header and the data region. */
  function TagLength(header: FlvTagHeader): nat {
    TAG_HEADER_SIZE + header.dataSize
  }

  /** `FlvTag::parse`: the tag header, then the data region handed to the dispatcher with
      the header's own type and data size. */
  function ParseTag<A, V, S>(parsers: TagDataParsers<A, V, S>, input: seq<byte>): (r: IResult<FlvTag<A, V, S>>)
    ensures ParseTagHeader(input).Error? ==> r.Error?
    ensures ParseTagHeader(input).Incomplete? ==> r.Incomplete?
    ensures ParseTagHeader(input).Done? ==>
      var header := ParseTagHeader(input).value;
      var data := ParseTagData(parsers, input[TAG_HEADER_SIZE..], header.tagType, header.dataSize);
      r == (if data.Done? then Done(data.rest, FlvTag(header, data.value)) else data.PropagateFailure())
    ensures r.Done? ==>
      && ParseTagHeader(input).Done?
      && r.value.header == ParseTagHeader(input).value
      && |input| >= TagLength(r.value.header)
      && r.rest == input[TagLength(r.value.header)..]
      && r.value.data.TagType() == r.value.header.tagType
  {
    var (afterHeader, header) :- ParseTagHeader(input);
    var (afterData, data) :- ParseTagData(parsers, afterHeader, header.tagType, header.dataSize);
    Done(afterData, FlvTag(header, data))
  }

  // ---------------------------------------------------------------- body

  /** Bytes a tag occupies together with the previous-tag-size field after it. */
  function PairWidth<A, V, S>(pair: (FlvTag<A, V, S>, u32)): nat {
    TagLength(pair.0.header) + TAG_SIZE_FIELD_SIZE
  }

  /** `complete!(tuple!(call!(FlvTag::parse), be_u32))`: one tag and the previous-tag-size
      field after it, where running out of input counts as a failure. */
  function ParseTagAndSize<A, V, S>(parsers: TagDataParsers<A, V, S>, input: seq<byte>)
    : (r: IResult<(FlvTag<A, V, S>, u32)>)
    ensures !r.Incomplete?
    ensures r.Done? <==>
      ParseTag(parsers, input).Done?
      && |input| >= TagLength(ParseTag(parsers, input).value.header) + TAG_SIZE_FIELD_SIZE
    ensures r.Done? ==>
      var tag := ParseTag(parsers, input).value;
      var end := TagLength(tag.header);
      && r.value.0 == tag
      && r.value.1 == BeValue(input[end..end + TAG_SIZE_FIELD_SIZE])
      && r.rest == input[end + TAG_SIZE_FIELD_SIZE..]
  {
    Complete(
      var (afterTag, tag) :- ParseTag(parsers, input);
      var (afterSize, size) :- BeU32(afterTag);
      assert afterTag[..4] == input[TagLength(tag.header)..TagLength(tag.header) + 4];
      Done(afterSize, (tag, size)))
  }

  /** The pair parser as the parser value `many0!` repeats. */
  function TagAndSizeParser<A, V, S>(parsers: TagDataParsers<A, V, S>): (p: Parser<(FlvTag<A, V, S>, u32)>)
    ensures forall input: seq<byte> {:trigger p(input)} :: p(input) == ParseTagAndSize(parsers, input)
    ensures ConsumesWidth(p, PairWidth)
  {
    (input: seq<byte>) => ParseTagAndSize(parsers, input)
  }

  /** `many0!(...)` over `ParseTagAndSize`: the pairs read one after another from the
      front of `input`, ending, without failing, at the first place where no complete pair
      follows, whose bytes stay unconsumed. */
  function ParseTags<A, V, S>(parsers: TagDataParsers<A, V, S>, input: seq<byte>)
    : (r: IResult<seq<(FlvTag<A, V, S>, u32)>>)
    ensures r.Done?
    ensures Chain(TagAndSizeParser(parsers), input, r.value, r.rest)
    ensures !ParseTagAndSize(parsers, r.rest).Done?
  {
    var parse := TagAndSizeParser(parsers);
    assert forall i: seq<byte> :: !parse(i).Incomplete? && (parse(i).Done? ==> parse(i).rest != i) by {
      forall i: seq<byte> ensures !parse(i).Incomplete? && (parse(i).Done? ==> parse(i).rest != i) {
        assert parse(i) == ParseTagAndSize(parsers, i);
        if parse(i).Done? {
          assert |parse(i).rest| < |i|;
        }
      }
    }
    Many0Succeeds(parse, input);
    Many0(parse, input)
  }

  /** `FlvFileBody::parse`: the first previous-tag-size field, then the tag stream. Only
      a missing first field asks for more; the body never fails. */
  function ParseFileBody<A, V, S>(parsers: TagDataParsers<A, V, S>, input: seq<byte>)
    : (r: IResult<FlvFileBody<A, V, S>>)
    ensures !r.Error?
    ensures r.Incomplete? <==> |input| < TAG_SIZE_FIELD_SIZE
    ensures r.Done? ==>
      && r.value.firstPreviousTagSize == BeValue(input[..TAG_SIZE_FIELD_SIZE])
      && Chain(TagAndSizeParser(parsers), input[TAG_SIZE_FIELD_SIZE..], r.value.tags, r.rest)
      && !ParseTagAndSize(parsers, r.rest).Done?
  {
    var (afterFirst, first) :- BeU32(input);
    var tags := ParseTags(parsers, afterFirst);
    Done(tags.rest, FlvFileBody(first, tags.value))
  }

  // ---------------------------------------------------------------- file

  /** `FlvFile::parse`: the header, then the body on exactly what the header left. The
      only permanent failure is a wrong signature byte. */
  function ParseFile<A, V, S>(parsers: TagDataParsers<A, V, S>, input: seq<byte>)
    : (r: IResult<FlvFile<A, V, S>>)
    ensures r.Error? <==> Differs(input, FLV_HEADER_SIGNATURE)
    ensures r.Incomplete? <==>
      !Differs(input, FLV_HEADER_SIGNATURE) && |input| < FILE_HEADER_SIZE + TAG_SIZE_FIELD_SIZE
    ensures r.Done? ==>
      && ParseFileHeader(input).Done?
      && r.value.header == ParseFileHeader(input).value
      && ParseFileBody(parsers, input[FILE_HEADER_SIZE..]) == Done(r.rest, r.value.body)
  {
    var (afterHeader, header) :- ParseFileHeader(input);
    var (rest, body) :- ParseFileBody(parsers, afterHeader);
    Done(rest, FlvFile(header, body))
  }
}

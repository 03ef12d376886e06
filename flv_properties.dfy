/** Properties of the FLV parser that relate several calls: encoders the parsers invert,
    the tag stream as the longest chain of complete pairs, where the stream stops, the
    file parser's independence from the header's data offset, and the mismatch between
    the tag-type enum's discriminant and the byte the parser accepts. */
module FlvProperties {
  import opened Bytes
  import opened Nom
  import opened Flv

  // ---------------------------------------------------------------- file header

  /** The nine header bytes of a file with this version, flags and header length. */
  function EncodeFileHeader(version: byte, flags: byte, dataOffset: u32): (s: seq<byte>)
    ensures |s| == FILE_HEADER_SIZE
  {
    FLV_HEADER_SIGNATURE + [version, flags] + EncodeBe(dataOffset, 4)
  }

  /** For every version, every one of the 256 flag values and every header length, the
      header parser reads back exactly those fields, stores the flags unchanged, derives
      the two presence bits from bits 2 and 0, and leaves everything after byte 9. */
  lemma FileHeaderRoundTrip(version: byte, flags: byte, dataOffset: u32, rest: seq<byte>)
    ensures ParseFileHeader(EncodeFileHeader(version, flags, dataOffset) + rest)
         == Done(rest, FlvFileHeader(FLV_HEADER_SIGNATURE, version, flags,
                                     (flags / 4) % 2 == 1, flags % 2 == 1, dataOffset))
  {
    var input := EncodeFileHeader(version, flags, dataOffset) + rest;
    assert input[..3] == FLV_HEADER_SIGNATURE;
    assert !Differs(input, FLV_HEADER_SIGNATURE);
    assert input[5..9] == EncodeBe(dataOffset, 4);
    assert input[9..] == rest;
    BeValueOfEncode(dataOffset, 4);
  }

  /** No input, however long, that starts with the wrong byte can ever become a file:
      the file parser fails permanently rather than asking for more. */
  lemma WrongFirstByteIsPermanent<A, V, S>(parsers: TagDataParsers<A, V, S>, input: seq<byte>)
    requires |input| > 0 && input[0] != 0x46
    ensures ParseFile(parsers, input).Error?
  {
    assert input[0] != FLV_HEADER_SIGNATURE[0];
  }

  /** An empty input has no wrong signature byte yet, so the file parser asks for more. */
  lemma EmptyInputAsksForMore<A, V, S>(parsers: TagDataParsers<A, V, S>)
    ensures ParseFile(parsers, []).Incomplete?
  {
  }

  // ---------------------------------------------------------------- tag header

  /** The tag-type byte decodes to the type it encodes, and only the three codes decode. */
  lemma TagTypeCodeRoundTrip(t: FlvTagType, rest: seq<byte>)
    ensures ParseTagType([TagTypeCode(t)] + rest) == Done(rest, t)
    ensures TagTypeCode(t) in TAG_TYPE_CODES
  {
    assert ([TagTypeCode(t)] + rest)[1..] == rest;
  }

  /** The discriminants the source gives the tag-type enum (`Audio = 0x08`,
      `Video = 0x09`, `Script = 0x18`), which is what `FlvTagType as u8` yields. */
  function EnumDiscriminant(t: FlvTagType): (d: byte)
    ensures d == TagTypeCode(t) <==> !t.Script?
  {
    match t
    case Audio => 0x08
    case Video => 0x09
    case Script => 0x18
  }

  /** The enum's discriminant agrees with the parser's code for audio and video but not
      for script: the byte `Script as u8` gives (24) is one the tag parser rejects. */
  lemma ScriptDiscriminantRejected(rest: seq<byte>)
    ensures EnumDiscriminant(Audio) == TagTypeCode(Audio)
    ensures EnumDiscriminant(Video) == TagTypeCode(Video)
    ensures EnumDiscriminant(Script) != TagTypeCode(Script)
    ensures ParseTagType([EnumDiscriminant(Script)] + rest) == Error
  {
  }

  /** The eleven bytes of a tag header: the timestamp's low 24 bits, then its high byte. */
  function EncodeTagHeader(header: FlvTagHeader): (s: seq<byte>)
    requires header.dataSize < TWO_24 && header.streamId < TWO_24
    ensures |s| == TAG_HEADER_SIZE
  {
    [TagTypeCode(header.tagType)]
      + EncodeBe(header.dataSize, 3)
      + EncodeBe(header.timestamp % TWO_24, 3)
      + [header.timestamp / TWO_24]
      + EncodeBe(header.streamId, 3)
  }

  /** Every tag header whose 24-bit fields fit is read back unchanged from its encoding,
      after exactly eleven bytes; in particular the split timestamp is put back together
      exactly, for all 32-bit timestamps. */
  lemma TagHeaderRoundTrip(header: FlvTagHeader, rest: seq<byte>)
    requires header.dataSize < TWO_24 && header.streamId < TWO_24
    ensures ParseTagHeader(EncodeTagHeader(header) + rest) == Done(rest, header)
  {
    var input := EncodeTagHeader(header) + rest;
    var low := header.timestamp % TWO_24;
    assert input[0] == TagTypeCode(header.tagType);
    assert input[1..4] == EncodeBe(header.dataSize, 3);
    assert input[4..7] == EncodeBe(low, 3);
    assert input[7] == header.timestamp / TWO_24;
    assert input[8..11] == EncodeBe(header.streamId, 3);
    assert input[11..] == rest;
    BeValueOfEncode(header.dataSize, 3);
    BeValueOfEncode(low, 3);
    BeValueOfEncode(header.streamId, 3);
    var r := ParseTagHeader(input);
    assert r.value.tagType == header.tagType by {
      TagTypeCodeRoundTrip(header.tagType, input[1..]);
      assert input == [input[0]] + input[1..];
    }
  }

  /** A 24-bit timestamp 0xABCDEF with extension byte 0x01 is the
      32-bit timestamp 0x01ABCDEF. */
  lemma TimestampExample()
    ensures ExtendedTimestamp(0xAB_CDEF, 0x01) == 0x01AB_CDEF
    ensures ParseTagHeader([9, 0, 0, 0, 0xAB, 0xCD, 0xEF, 0x01, 0, 0, 0]).value.timestamp
         == 0x01AB_CDEF
  {
    var input: seq<byte> := [9, 0, 0, 0, 0xAB, 0xCD, 0xEF, 0x01, 0, 0, 0];
    assert input[4..7] == [0xAB, 0xCD, 0xEF];
    assert [0xAB, 0xCD, 0xEF][..2] == [0xAB, 0xCD];
    assert [0xAB, 0xCD][..1] == [0xAB];
  }

  // ---------------------------------------------------------------- tag stream

  /** A chain of pairs lies back to back at the front of the input, in input order:
      each pair takes its tag header, its declared data size and four bytes, and what is
      left is the input after them. */
  lemma TagChainLayout<A, V, S>(parsers: TagDataParsers<A, V, S>, input: seq<byte>,
                                pairs: seq<(FlvTag<A, V, S>, u32)>, rest: seq<byte>)
    requires Chain(TagAndSizeParser(parsers), input, pairs, rest)
    ensures |input| == TotalWidth(PairWidth, pairs) + |rest|
    ensures rest == input[TotalWidth(PairWidth, pairs)..]
  {
    ChainLayout(TagAndSizeParser(parsers), PairWidth, input, pairs, rest);
  }

  /** The tag stream is determined by its chain: any chain of complete pairs that ends
      where no further complete pair can be read is exactly what the body's tag loop
      returns. With the loop's own contract, the list of tags is precisely the longest
      sequence of complete pairs at the front of the input, in input order. */
  lemma ParseTagsUnique<A, V, S>(parsers: TagDataParsers<A, V, S>, input: seq<byte>,
                                 pairs: seq<(FlvTag<A, V, S>, u32)>, rest: seq<byte>)
    requires Chain(TagAndSizeParser(parsers), input, pairs, rest)
    requires !ParseTagAndSize(parsers, rest).Done?
    ensures ParseTags(parsers, input) == Done(rest, pairs)
  {
    var parse := TagAndSizeParser(parsers);
    assert parse(rest).Error? by {
      assert parse(rest) == ParseTagAndSize(parsers, rest);
    }
    Many0Unique(parse, input, pairs, rest);
  }

  /** A tag whose declared data size runs past the end of the input ends the stream after
      the tags before it; the body does not fail and the truncated tag stays unconsumed. */
  lemma TruncatedTagEndsStream<A, V, S>(parsers: TagDataParsers<A, V, S>, input: seq<byte>,
                                        pairs: seq<(FlvTag<A, V, S>, u32)>, rest: seq<byte>)
    requires Chain(TagAndSizeParser(parsers), input, pairs, rest)
    requires ParseTagHeader(rest).Done?
    requires TAG_HEADER_SIZE + ParseTagHeader(rest).value.dataSize > |rest|
    ensures ParseTags(parsers, input) == Done(rest, pairs)
  {
    ParseTagsUnique(parsers, input, pairs, rest);
  }

  /** A tag whose type byte is not 8, 9 or 18 is a permanent error of the tag header
      parser, but in the stream it only ends the list: the tags before it are kept and
      the bad tag's bytes are left unconsumed. */
  lemma UnknownTagTypeEndsStream<A, V, S>(parsers: TagDataParsers<A, V, S>, input: seq<byte>,
                                          pairs: seq<(FlvTag<A, V, S>, u32)>, rest: seq<byte>)
    requires Chain(TagAndSizeParser(parsers), input, pairs, rest)
    requires |rest| > 0 && rest[0] !in TAG_TYPE_CODES
    ensures ParseTagHeader(rest).Error?
    ensures ParseTags(parsers, input) == Done(rest, pairs)
  {
    ParseTagsUnique(parsers, input, pairs, rest);
  }

  // ---------------------------------------------------------------- file

  /** The file parser never seeks to the header's data offset: two inputs that differ
      only in the four data-offset bytes parse to the same body and remaining input. */
  lemma DataOffsetNotUsed<A, V, S>(parsers: TagDataParsers<A, V, S>, a: seq<byte>, b: seq<byte>)
    requires |a| >= FILE_HEADER_SIZE && |b| >= FILE_HEADER_SIZE
    requires a[..5] == b[..5] && a[FILE_HEADER_SIZE..] == b[FILE_HEADER_SIZE..]
    ensures ParseFile(parsers, a).Done? <==> ParseFile(parsers, b).Done?
    ensures ParseFile(parsers, a).Done? ==>
      && ParseFile(parsers, a).rest == ParseFile(parsers, b).rest
      && ParseFile(parsers, a).value.body == ParseFile(parsers, b).value.body
      && ParseFile(parsers, a).value.header.flags == ParseFile(parsers, b).value.header.flags
      && ParseFile(parsers, a).value.header.version == ParseFile(parsers, b).value.header.version
  {
    assert Differs(a, FLV_HEADER_SIGNATURE) <==> Differs(b, FLV_HEADER_SIGNATURE) by {
      assert a[..3] == b[..3];
      assert forall i :: 0 <= i < 3 ==> a[i] == b[i];
    }
    assert a[3] == b[3] && a[4] == b[4];
  }

  // ---------------------------------------------------------------- written tags

  /** A sub-parser that keeps a tag's data region as an uninterpreted block of bytes. */
  function RawBlock(): SizedParser<seq<byte>> {
    (input: seq<byte>, size: nat) => if size <= |input| then Done(input[size..], input[..size]) else Incomplete
  }

  /** The raw-block sub-parsers for all three tag types. */
  function RawParsers(): TagDataParsers<seq<byte>, seq<byte>, seq<byte>> {
    TagDataParsers(RawBlock(), RawBlock(), RawBlock())
  }

  /** The data a raw-block sub-parser gives for a tag of type `t`. */
  function RawData(t: FlvTagType, block: seq<byte>): FlvTagData<seq<byte>, seq<byte>, seq<byte>> {
    match t
    case Audio => AudioData(block)
    case Video => VideoData(block)
    case Script => ScriptData(block)
  }

  /** With raw-block sub-parsers, a tag header, exactly `dataSize` bytes of data and a
      size field are read back as one pair, leaving what follows. */
  lemma RawPairRoundTrip(header: FlvTagHeader, block: seq<byte>, size: u32, rest: seq<byte>)
    requires header.dataSize < TWO_24 && header.streamId < TWO_24
    requires |block| == header.dataSize
    ensures ParseTagAndSize(RawParsers(), EncodeTagHeader(header) + block + EncodeBe(size, 4) + rest)
         == Done(rest, (FlvTag(header, RawData(header.tagType, block)), size))
  {
    var parsers := RawParsers();
    var afterBlock := EncodeBe(size, 4) + rest;
    var afterHeader := block + afterBlock;
    var input := EncodeTagHeader(header) + block + EncodeBe(size, 4) + rest;
    var tag := FlvTag(header, RawData(header.tagType, block));
    assert input == EncodeTagHeader(header) + afterHeader;
    assert input[TAG_HEADER_SIZE..] == afterHeader;
    assert ParseTagHeader(input) == Done(afterHeader, header) by {
      TagHeaderRoundTrip(header, afterHeader);
    }
    assert ParseTagData(parsers, afterHeader, header.tagType, header.dataSize)
        == Done(afterBlock, RawData(header.tagType, block)) by {
      assert afterHeader[..|block|] == block && afterHeader[|block|..] == afterBlock;
    }
    assert ParseTag(parsers, input) == Done(afterBlock, tag);
    var end := TagLength(header);
    assert input[end..end + TAG_SIZE_FIELD_SIZE] == EncodeBe(size, 4);
    assert input[end + TAG_SIZE_FIELD_SIZE..] == rest;
    BeValueOfEncode(size, 4);
  }

  /** One tag as written to a file: its header, its data block and the size field after it. */
  datatype RawTag = RawTag(header: FlvTagHeader, block: seq<byte>, size: u32)

  /** The header's 24-bit fields fit, and the block is as long as the header declares. */
  predicate WellFormed(t: RawTag) {
    t.header.dataSize < TWO_24 && t.header.streamId < TWO_24 && |t.block| == t.header.dataSize
  }

  /** The tags written back to back, each followed by its size field. */
  function EncodeRawTags(tags: seq<RawTag>): (s: seq<byte>)
    requires forall i :: 0 <= i < |tags| ==> WellFormed(tags[i])
  {
    if tags == [] then []
    else
      assert WellFormed(tags[0]);
      EncodeTagHeader(tags[0].header) + tags[0].block + EncodeBe(tags[0].size, 4) + EncodeRawTags(tags[1..])
  }

  /** The pair the body parser should produce for `t` with raw-block sub-parsers. */
  function RawPair(t: RawTag): (FlvTag<seq<byte>, seq<byte>, seq<byte>>, u32) {
    (FlvTag(t.header, RawData(t.header.tagType, t.block)), t.size)
  }

  /** The pairs for a list of written tags, in order. */
  function RawPairs(tags: seq<RawTag>): (pairs: seq<(FlvTag<seq<byte>, seq<byte>, seq<byte>>, u32)>)
    ensures |pairs| == |tags|
    ensures forall i :: 0 <= i < |tags| ==> pairs[i] == RawPair(tags[i])
  {
    if tags == [] then [] else [RawPair(tags[0])] + RawPairs(tags[1..])
  }

  /** A written tag followed by anything is one consuming step of the pair parser. */
  lemma RawTagStep(t: RawTag, after: seq<byte>)
    requires WellFormed(t)
    ensures TagAndSizeParser(RawParsers())(EncodeTagHeader(t.header) + t.block + EncodeBe(t.size, 4) + after)
            == Done(after, RawPair(t))
  {
    RawPairRoundTrip(t.header, t.block, t.size, after);
  }

  /** Written tags followed by anything form a chain of exactly their pairs. */
  lemma {:induction false} RawTagsChain(tags: seq<RawTag>, tail: seq<byte>)
    requires forall i :: 0 <= i < |tags| ==> WellFormed(tags[i])
    ensures Chain(TagAndSizeParser(RawParsers()), EncodeRawTags(tags) + tail, RawPairs(tags), tail)
    decreases |tags|
  {
    if tags != [] {
      var t := tags[0];
      assert WellFormed(t);
      var after := EncodeRawTags(tags[1..]) + tail;
      var input := EncodeRawTags(tags) + tail;
      assert input == EncodeTagHeader(t.header) + t.block + EncodeBe(t.size, 4) + after;
      RawTagStep(t, after);
      assert after != input by {
        assert |after| < |input|;
      }
      RawTagsChain(tags[1..], tail);
      assert RawPairs(tags)[1..] == RawPairs(tags[1..]);
    }
  }

  /** A body holding N well-formed tags, each followed by its size field, and then bytes
      that do not make a complete pair, yields exactly those N tags in order and leaves
      those bytes. */
  lemma RawTagsRoundTrip(tags: seq<RawTag>, tail: seq<byte>)
    requires forall i :: 0 <= i < |tags| ==> WellFormed(tags[i])
    requires !ParseTagAndSize(RawParsers(), tail).Done?
    ensures ParseTags(RawParsers(), EncodeRawTags(tags) + tail) == Done(tail, RawPairs(tags))
    ensures |ParseTags(RawParsers(), EncodeRawTags(tags) + tail).value| == |tags|
  {
    RawTagsChain(tags, tail);
    ParseTagsUnique(RawParsers(), EncodeRawTags(tags) + tail, RawPairs(tags), tail);
  }
}

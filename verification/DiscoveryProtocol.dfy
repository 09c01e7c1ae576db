/** Discovery packets: requests and responses built from tags, and their classification by the tags found in them. */
module DiscoveryProtocol {
  import opened Words
  import opened ByteEncoding
  import opened SpeedwireHeaders

  const MULTICAST_REQUEST: seq<U8> := [
    0x53, 0x4d, 0x41, 0x00,
    0x00, 0x04, 0x02, 0xa0, 0xff, 0xff, 0xff, 0xff,
    0x00, 0x00, 0x00, 0x20,
    0x00, 0x00, 0x00, 0x00
  ]

  const UNICAST_PAYLOAD: seq<U8> := [
    0x60, 0x65, 0x09, 0xa0, 0xff, 0xff, 0xff, 0xff, 0xff, 0xff, 0x00, 0x00, 0x7d, 0x00, 0x52, 0xbe,
    0x28, 0x3a, 0x00, 0x00, 0x00, 0x00, 0x00, 0x00, 0x01, 0x80, 0x00, 0x02, 0x00, 0x00, 0x00, 0x00,
    0x00, 0x00, 0x00, 0x00, 0x00, 0x00
  ]

  const UNICAST_REQUEST: seq<U8> :=
    [0x53, 0x4d, 0x41, 0x00] + [0x00, 0x04, 0x02, 0xa0, 0x00, 0x00, 0x00, 0x01]
    + ([0x00, 0x26, 0x00, 0x10] + UNICAST_PAYLOAD) + [0x00, 0x00, 0x00, 0x00]

  const DEFAULT_RESPONSE_LENGTH: nat := 57

  /** The tags that the constructor of a discovery protocol object looks up. */
  datatype KnownTags = KnownTags(tag0: Option<nat>, data2: Option<nat>, discovery: Option<nat>, ipAddress: Option<nat>)

  function TagsOf(b: seq<U8>): KnownTags {
    KnownTags(FirstTag(b, SMA_TAG_GROUP_ID), FirstTag(b, SMA_TAG_DATA2), FirstTag(b, SMA_TAG_DISCOVERY),
              FirstTag(b, SMA_TAG_IP_ADDRESS))
  }

  predicate IsMulticastRequest(known: KnownTags) {
    known.tag0.Some? && known.data2 == None && known.discovery.Some? && known.ipAddress == None
  }

  predicate IsMulticastResponse(known: KnownTags) {
    known.tag0.Some? && known.data2.Some? && known.discovery.Some? && known.ipAddress.Some?
  }

  /** The check of discovery packets, which is weaker than the one of the packet header. */
  predicate IsDiscoveryPacket(b: seq<U8>, known: KnownTags) {
    HasSignature(b) && (IsMulticastRequest(known) || IsMulticastResponse(known))
  }

  /** The address in network byte order; 0 if there is none of four bytes. */
  function IPv4Address(b: seq<U8>, known: KnownTags): U32
    requires known.ipAddress.Some? ==> Fits(b, known.ipAddress.value)
  {
    if known.ipAddress.Some? && TagLength(b, known.ipAddress.value) == 4
    then GetUint32LittleEndian(b, known.ipAddress.value + TAG_HEADER_LENGTH)
    else 0
  }

  // ----- classification of encoded packets -----

  /** A packet built from any tags is classified by the ids among them, whatever follows it in the buffer. */
  lemma ClassifiedByTags(tags: seq<TagPacket>, rest: seq<U8>)
    requires EncodableTags(tags)
    ensures var known := TagsOf(PacketBytes(tags) + rest);
            && (IsMulticastRequest(known) <==>
                  && Contains(tags, SMA_TAG_GROUP_ID) && !Contains(tags, SMA_TAG_DATA2)
                  && Contains(tags, SMA_TAG_DISCOVERY) && !Contains(tags, SMA_TAG_IP_ADDRESS))
            && (IsMulticastResponse(known) <==>
                  && Contains(tags, SMA_TAG_GROUP_ID) && Contains(tags, SMA_TAG_DATA2)
                  && Contains(tags, SMA_TAG_DISCOVERY) && Contains(tags, SMA_TAG_IP_ADDRESS))
            && !(IsMulticastRequest(known) && IsMulticastResponse(known))
            && (IsDiscoveryPacket(PacketBytes(tags) + rest, known) <==>
                  IsMulticastRequest(known) || IsMulticastResponse(known))
  {
    hide FirstTag, PacketBytes, Contains;
    PacketRoundTrip(tags, rest, SMA_TAG_GROUP_ID);
    FirstOfTags(tags, rest, SMA_TAG_GROUP_ID, 0);
    FirstOfTags(tags, rest, SMA_TAG_DATA2, 0);
    FirstOfTags(tags, rest, SMA_TAG_DISCOVERY, 0);
    FirstOfTags(tags, rest, SMA_TAG_IP_ADDRESS, 0);
  }

  /** The address of a packet built from any tags is that of its first address tag, if that has four bytes. */
  lemma AddressOfTags(tags: seq<TagPacket>, rest: seq<U8>, k: nat)
    requires EncodableTags(tags) && k < |tags| && tags[k].id == SMA_TAG_IP_ADDRESS
    requires forall j :: 0 <= j < k ==> tags[j].id != SMA_TAG_IP_ADDRESS
    ensures var b := PacketBytes(tags) + rest;
            IPv4Address(b, TagsOf(b)) == if |tags[k].payload| == 4 then GetUint32LittleEndian(tags[k].payload, 0) else 0
  {
    hide FirstTag, PacketBytes, PositionOf, OffsetOf, DecodedTags, EndOf, Tags, GetUint32LittleEndian;
    var b := PacketBytes(tags) + rest;
    PacketRoundTrip(tags, rest, SMA_TAG_IP_ADDRESS);
    PositionExact(tags, SMA_TAG0_OFFSET, SMA_TAG_IP_ADDRESS, k);
    var at := SMA_TAG0_OFFSET + OffsetOf(tags, k);
    assert TagAt(b, at) == tags[k];
    if |tags[k].payload| == 4 {
      SameBytesSameValue(b, at + TAG_HEADER_LENGTH, tags[k].payload, 0, 4);
    }
  }

  /** Bytes that do not begin with the signature pass none of the checks, whatever tags are found in them. */
  lemma SignatureRequired(b: seq<U8>, known: KnownTags)
    requires |b| < 4 || b[..4] != [0x53, 0x4d, 0x41, 0x00]
    ensures !IsDiscoveryPacket(b, known) && !IsValidDiscovery(b) && !IsFullData2(b) && !HasGroupTag(b)
  {
    hide FirstTag;
  }

  function RequestTags(): seq<TagPacket> {
    [TagPacket(SMA_TAG_GROUP_ID, [0xff, 0xff, 0xff, 0xff]), TagPacket(SMA_TAG_DISCOVERY, [])]
  }

  lemma RequestIsEncoding()
    ensures EncodableTags(RequestTags()) && PacketBytes(RequestTags()) == MULTICAST_REQUEST
  {
    hide TagsBytes, BigEndian16;
    var first, second := RequestTags()[0], RequestTags()[1];
    OneTag(first);
    TagsBytesAppended([first], second);
    assert [first] + [second] == RequestTags();
    RequestParts();
  }

  lemma OneTag(t: TagPacket)
    requires Encodable(t) && t != END_OF_DATA
    ensures EncodableTags([t]) && TagsBytes([t]) == TagBytes(t)
  {
    hide TagBytes;
    TagsBytesAppended([], t);
    assert [] + [t] == [t];
  }

  lemma RequestParts()
    ensures MULTICAST_REQUEST == SMA_SIGNATURE + (TagBytes(RequestTags()[0]) + TagBytes(RequestTags()[1])) + TagBytes(END_OF_DATA)
  {
    assert TagBytes(RequestTags()[0]) == [0x00, 0x04, 0x02, 0xa0, 0xff, 0xff, 0xff, 0xff];
    assert TagBytes(RequestTags()[1]) == [0x00, 0x00, 0x00, 0x20];
    assert TagBytes(END_OF_DATA) == [0x00, 0x00, 0x00, 0x00];
  }

  /** The multicast request is recognised as a request, and by no one as a response. */
  lemma RequestClassified(rest: seq<U8>)
    ensures var b := MULTICAST_REQUEST + rest;
            IsMulticastRequest(TagsOf(b)) && !IsMulticastResponse(TagsOf(b)) && IsDiscoveryPacket(b, TagsOf(b))
  {
    hide FirstTag, PacketBytes;
    RequestIsEncoding();
    var tags := RequestTags();
    ClassifiedByTags(tags, rest);
    PacketRoundTrip(tags, rest, SMA_TAG_GROUP_ID);
    assert tags[0].id == SMA_TAG_GROUP_ID && tags[1].id == SMA_TAG_DISCOVERY;
  }

  /** The unicast request is an inverter packet that the full check accepts, whose long words count its 38 payload
      bytes, and neither a multicast request nor a multicast response. */
  lemma UnicastRequestClassified()
    ensures var b := UNICAST_REQUEST;
            && |b| == 58 && IsFullData2(b) && FirstTag(b, SMA_TAG_DATA2) == Some(12) && TagLength(b, 12) == 38
            && IsInverterProtocolId(ProtocolId(b, 12)) && LongWords(b, 12) == 38 / 4
            && !IsMulticastRequest(TagsOf(b)) && !IsMulticastResponse(TagsOf(b))
  {
    hide IsFullData2, ProtocolId, LongWords, FirstTag, TagLength, PacketBytes, Data2Tags, TagsOf;
    UnicastRequestIsEncoding();
    EncodedUnicast([0x00, 0x00, 0x00, 0x01], UNICAST_PAYLOAD);
    assert UNICAST_PAYLOAD[0] == 0x60 && UNICAST_PAYLOAD[1] == 0x65;
  }

  lemma UnicastRequestIsEncoding()
    ensures |UNICAST_PAYLOAD| == 38 && |UNICAST_REQUEST| == 58
    ensures UNICAST_REQUEST == PacketBytes(Data2Tags([0x00, 0x00, 0x00, 0x01], UNICAST_PAYLOAD))
  {
    var group := [0x00, 0x00, 0x00, 0x01];
    Data2PacketBytes(group, UNICAST_PAYLOAD);
    UnicastHeaders(group);
  }

  lemma UnicastHeaders(group: seq<U8>)
    requires group == [0x00, 0x00, 0x00, 0x01]
    ensures TagBytes(TagPacket(SMA_TAG_GROUP_ID, group)) == [0x00, 0x04, 0x02, 0xa0, 0x00, 0x00, 0x00, 0x01]
    ensures TagHeader(38, SMA_TAG_DATA2) == [0x00, 0x26, 0x00, 0x10]
    ensures TagBytes(END_OF_DATA) == [0x00, 0x00, 0x00, 0x00]
  {
  }

  /** A packet that consists of a data2 tag behind the group tag. */
  lemma EncodedUnicast(group: seq<U8>, payload: seq<U8>)
    requires |group| == 4 && 4 <= |payload| < TWO_16
    ensures var b := PacketBytes(Data2Tags(group, payload));
            && IsFullData2(b) && FirstTag(b, SMA_TAG_DATA2) == Some(12) && TagLength(b, 12) == |payload|
            && ProtocolId(b, 12) == payload[0] as int * 0x100 + payload[1] && LongWords(b, 12) == payload[2]
            && !IsMulticastRequest(TagsOf(b)) && !IsMulticastResponse(TagsOf(b))
  {
    hide FirstTag, PacketBytes, Data2Tags, Contains, FirstHasSpace, IsFullData2;
    var b := PacketBytes(Data2Tags(group, payload));
    assert b + [] == b;
    EncodedPacketAccepted(group, payload, []);
    TagsBehindGroup(b, SMA_TAG_DATA2);
    FirstOfTags(Data2Tags(group, payload), [], SMA_TAG_DISCOVERY, 0);
    NoDiscoveryTag(group, payload);
    assert TagAt(b, 12).payload == b[16..16 + |payload|] == payload;
    assert b[16] == payload[0] && b[17] == payload[1] && b[18] == payload[2];
  }

  lemma NoDiscoveryTag(group: seq<U8>, payload: seq<U8>)
    requires |group| == 4 && |payload| < TWO_16
    ensures !Contains(Data2Tags(group, payload), SMA_TAG_DISCOVERY)
  {
  }

  // ----- the default response -----

  function ResponseTags(group: U32, ip: U32): (tags: seq<TagPacket>)
    ensures EncodableTags(tags) && |tags| == 7
  {
    [TagPacket(SMA_TAG_GROUP_ID, BigEndian32(group)),
     TagPacket(0x0000, [0x00, 0x01]),
     TagPacket(SMA_TAG_DATA2, [0x00, 0x01, 0x00, 0x03]),
     TagPacket(SMA_TAG_DISCOVERY, [0x00, 0x00, 0x00, 0x01]),
     TagPacket(SMA_TAG_IP_ADDRESS, LittleEndian32(ip)),
     TagPacket(0x0070, [0xef, 0x0c]),
     TagPacket(0x0080, [0x00])]
  }

  lemma ResponseOffsets(group: U32, ip: U32)
    ensures var tags := ResponseTags(group, ip);
            && OffsetOf(tags, 0) == 0 && OffsetOf(tags, 1) == 8 && OffsetOf(tags, 2) == 14 && OffsetOf(tags, 3) == 22
            && OffsetOf(tags, 4) == 30 && OffsetOf(tags, 5) == 38 && OffsetOf(tags, 6) == 44 && OffsetOf(tags, 7) == 49
  {
  }

  /** The answer of an inverter with the address 192.168.178.22. */
  const SAMPLE_RESPONSE: seq<U8> :=
    [0x53, 0x4d, 0x41, 0x00]
    + ([0x00, 0x04, 0x02, 0xa0, 0x00, 0x00, 0x00, 0x01]
       + [0x00, 0x02, 0x00, 0x00, 0x00, 0x01]
       + [0x00, 0x04, 0x00, 0x10, 0x00, 0x01, 0x00, 0x03]
       + [0x00, 0x04, 0x00, 0x20, 0x00, 0x00, 0x00, 0x01]
       + [0x00, 0x04, 0x00, 0x30, 0xc0, 0xa8, 0xb2, 0x16]
       + [0x00, 0x02, 0x00, 0x70, 0xef, 0x0c]
       + [0x00, 0x01, 0x00, 0x80, 0x00])
    + [0x00, 0x00, 0x00, 0x00]

  /** The first number of the address is in the lowest byte of the parameter. */
  lemma ResponseIsSample()
    ensures PacketBytes(ResponseTags(1, 0x16b2_a8c0)) == SAMPLE_RESPONSE
  {
    hide TagBytes, TagsBytes, ResponseTags;
    var tags := ResponseTags(1, 0x16b2_a8c0);
    SampleTags(tags);
    OneTag(tags[0]);
    TagsBytesAppended(tags[..1], tags[1]);
    TagsBytesAppended(tags[..2], tags[2]);
    TagsBytesAppended(tags[..3], tags[3]);
    TagsBytesAppended(tags[..4], tags[4]);
    TagsBytesAppended(tags[..5], tags[5]);
    TagsBytesAppended(tags[..6], tags[6]);
    assert tags[..1] == [tags[0]] && tags[..1] + [tags[1]] == tags[..2] && tags[..2] + [tags[2]] == tags[..3];
    assert tags[..3] + [tags[3]] == tags[..4] && tags[..4] + [tags[4]] == tags[..5];
    assert tags[..5] + [tags[5]] == tags[..6] && tags[..6] + [tags[6]] == tags;
  }

  lemma SampleTags(tags: seq<TagPacket>)
    requires tags == ResponseTags(1, 0x16b2_a8c0)
    ensures TagBytes(tags[0]) == [0x00, 0x04, 0x02, 0xa0, 0x00, 0x00, 0x00, 0x01]
    ensures TagBytes(tags[1]) == [0x00, 0x02, 0x00, 0x00, 0x00, 0x01]
    ensures TagBytes(tags[2]) == [0x00, 0x04, 0x00, 0x10, 0x00, 0x01, 0x00, 0x03]
    ensures TagBytes(tags[3]) == [0x00, 0x04, 0x00, 0x20, 0x00, 0x00, 0x00, 0x01]
    ensures TagBytes(tags[4]) == [0x00, 0x04, 0x00, 0x30, 0xc0, 0xa8, 0xb2, 0x16]
    ensures TagBytes(tags[5]) == [0x00, 0x02, 0x00, 0x70, 0xef, 0x0c]
    ensures TagBytes(tags[6]) == [0x00, 0x01, 0x00, 0x80, 0x00]
    ensures TagBytes(END_OF_DATA) == [0x00, 0x00, 0x00, 0x00]
  {
  }

  predicate TagAtIs(b: seq<U8>, o: nat, t: TagPacket) {
    Fits(b, o) && TagAt(b, o) == t
  }

  /**
   * The default response parses back, whatever follows it in the buffer: the tags stand where they
   * were put, and the end-of-data tag closes at byte 57 although a tag with id 0 stands at byte 12.
   */
  lemma ResponseParsesBack(group: U32, ip: U32, rest: seq<U8>)
    ensures var tags := ResponseTags(group, ip);
            var b := PacketBytes(tags) + rest;
            && |PacketBytes(tags)| == DEFAULT_RESPONSE_LENGTH
            && DecodedTags(b, SMA_TAG0_OFFSET) == tags
            && TagsOf(b) == KnownTags(Some(4), Some(18), Some(26), Some(34))
            && FirstTag(b, SMA_TAG_END_OF_DATA) == Some(12)
            && EndOf(b, Tags(b, SMA_TAG0_OFFSET)) == Some(DEFAULT_RESPONSE_LENGTH - TAG_HEADER_LENGTH)
            && HasSignature(b)
            && TagAtIs(b, 4, tags[0]) && TagAtIs(b, 34, tags[4])
  {
    hide FirstTag, PacketBytes, BigEndian32, LittleEndian32, OffsetOf, PositionOf, DecodedTags, EndOf, Tags, Fits, TagAt;
    var tags := ResponseTags(group, ip);
    ResponseOffsets(group, ip);
    assert tags[1].id == SMA_TAG_END_OF_DATA && tags[0].id == SMA_TAG_GROUP_ID;
    ResponseTag(tags, rest, 0);
    ResponseTag(tags, rest, 1);
    ResponseTag(tags, rest, 2);
    ResponseTag(tags, rest, 3);
    ResponseTag(tags, rest, 4);
  }

  lemma ResponseTag(tags: seq<TagPacket>, rest: seq<U8>, k: nat)
    requires EncodableTags(tags) && k < |tags| && forall j :: 0 <= j < k ==> tags[j].id != tags[k].id
    ensures var b := PacketBytes(tags) + rest;
            && FirstTag(b, tags[k].id) == Some(SMA_TAG0_OFFSET + OffsetOf(tags, k))
            && DecodedTags(b, SMA_TAG0_OFFSET) == tags
            && EndOf(b, Tags(b, SMA_TAG0_OFFSET)) == Some(SMA_TAG0_OFFSET + OffsetOf(tags, |tags|))
            && |PacketBytes(tags)| == SMA_TAG0_OFFSET + OffsetOf(tags, |tags|) + TAG_HEADER_LENGTH
            && HasSignature(b)
            && var at := SMA_TAG0_OFFSET + OffsetOf(tags, k);
            && Fits(b, at) && TagAt(b, at) == tags[k]
  {
    hide FirstTag, PacketBytes, OffsetOf, PositionOf, DecodedTags, EndOf, Tags, Fits, TagAt;
    PacketRoundTrip(tags, rest, tags[k].id);
    PositionExact(tags, SMA_TAG0_OFFSET, tags[k].id, k);
  }

  /** It is a multicast response that both validity checks accept, and its address and group are the ones given. */
  lemma ResponseAccepted(group: U32, ip: U32, rest: seq<U8>)
    ensures var b := PacketBytes(ResponseTags(group, ip)) + rest;
            && IsMulticastResponse(TagsOf(b)) && !IsMulticastRequest(TagsOf(b))
            && IsDiscoveryPacket(b, TagsOf(b)) && IsValidDiscovery(b)
            && IPv4Address(b, TagsOf(b)) == ip
            && GetUint32BigEndian(b, 8) == group
  {
    hide FirstTag, PacketBytes, BigEndian32, LittleEndian32, DecodedTags, EndOf, Tags, TagLength, TagId;
    var b := PacketBytes(ResponseTags(group, ip)) + rest;
    ResponseParsesBack(group, ip, rest);
    assert b[8..12] == BigEndian32(group) && b[38..42] == LittleEndian32(ip);
    BigEndianValue(group);
    LittleEndianValue(ip);
    SameBytesSameValue(b, 8, BigEndian32(group), 0, 4);
    SameBytesSameValue(b, 38, LittleEndian32(ip), 0, 4);
  }

  lemma ResponseLength(group: U32, ip: U32)
    ensures |PacketBytes(ResponseTags(group, ip))| == DEFAULT_RESPONSE_LENGTH
  {
    ResponseParsesBack(group, ip, []);
  }

  /** `b` is `before` with the signature and the tags `done` written at its begin, up to `next`. */
  ghost predicate Done(b: seq<U8>, before: seq<U8>, done: seq<TagPacket>, next: nat) {
    && EncodableTags(done)
    && next == SMA_TAG0_OFFSET + |TagsBytes(done)| <= |before|
    && b == Overwritten(before, 0, SMA_SIGNATURE + TagsBytes(done))
  }

  lemma DoneLength(b: seq<U8>, before: seq<U8>, done: seq<TagPacket>, next: nat)
    requires Done(b, before, done, next)
    ensures |b| == |before|
  {
  }

  lemma DoneFirst(before: seq<U8>, t: TagPacket)
    requires Encodable(t) && t != END_OF_DATA && SMA_TAG0_OFFSET + TAG_HEADER_LENGTH + |t.payload| <= |before|
    ensures Done(Overwritten(before, 0, SMA_SIGNATURE + TagBytes(t)), before, [t],
                 SMA_TAG0_OFFSET + TAG_HEADER_LENGTH + |t.payload|)
  {
  }

  lemma DoneNext(b: seq<U8>, before: seq<U8>, done: seq<TagPacket>, next: nat, t: TagPacket, c: seq<U8>)
    requires Done(b, before, done, next) && EncodableTags(done + [t]) && Encodable(t)
    requires next + TAG_HEADER_LENGTH + |t.payload| <= |before| == |b| && c == Overwritten(b, next, TagBytes(t))
    ensures Done(c, before, done + [t], next + TAG_HEADER_LENGTH + |t.payload|)
  {
    hide TagBytes, TagsBytes, Overwritten;
    TagsBytesAppended(done, t);
    Appended(before, 0, SMA_SIGNATURE + TagsBytes(done), b, TagBytes(t), c);
    assert SMA_SIGNATURE + TagsBytes(done) + TagBytes(t) == SMA_SIGNATURE + (TagsBytes(done) + TagBytes(t));
  }

  lemma DoneEnd(b: seq<U8>, before: seq<U8>, done: seq<TagPacket>, next: nat, c: seq<U8>)
    requires Done(b, before, done, next) && next + TAG_HEADER_LENGTH <= |before| == |b|
    requires c == Overwritten(b, next, TagHeader(0, SMA_TAG_END_OF_DATA))
    ensures c == PacketBytes(done) + before[next + TAG_HEADER_LENGTH..]
  {
  }

  // ----- a discovery packet in a buffer -----

  class SpeedwireDiscoveryProtocol {
    const header: SpeedwireHeader
    const known: KnownTags

    /** The tags are looked up once, in the bytes that the buffer holds then. */
    constructor (header: SpeedwireHeader)
      ensures this.header == header && known == TagsOf(header.Bytes())
    {
      var tag0 := header.FindTagPacket(SMA_TAG_GROUP_ID);
      var data2 := header.FindTagPacket(SMA_TAG_DATA2);
      var discovery := header.FindTagPacket(SMA_TAG_DISCOVERY);
      var ipAddress := header.FindTagPacket(SMA_TAG_IP_ADDRESS);
      this.header := header;
      known := KnownTags(tag0, data2, discovery, ipAddress);
    }

    method SetMulticastRequestPacket()
      requires header.udp.Length >= |MULTICAST_REQUEST|
      modifies header.udp
      ensures header.Bytes() == MULTICAST_REQUEST + old(header.Bytes())[|MULTICAST_REQUEST|..]
    {
      CopyBytes(header.udp, 0, MULTICAST_REQUEST);
    }

    /** Writes the header and the payload of a tag. */
    method PutTag(tag: nat, t: TagPacket) returns (next: nat)
      requires Encodable(t) && header.udp.Length >= tag + TAG_HEADER_LENGTH + |t.payload|
      modifies header.udp
      ensures next == tag + TAG_HEADER_LENGTH + |t.payload|
      ensures header.Bytes() == Overwritten(old(header.Bytes()), tag, TagBytes(t))
    {
      hide TagHeader, TotalLength;
      SetTagHeader(header.udp, tag, |t.payload|, t.id);
      ghost var b2 := header.udp[..];
      CopyBytes(header.udp, tag + TAG_HEADER_LENGTH, t.payload);
      ghost var b3 := header.udp[..];
      Appended(old(header.udp[..]), tag, TagHeader(|t.payload|, t.id), b2, t.payload, b3);
      assert b3[tag..tag + TAG_HEADER_LENGTH] == TagHeader(|t.payload|, t.id);
      LengthRead(b3, tag, |t.payload|, t.id);
      next := tag + TotalLength(header.udp[..], tag);
    }

    /** Writes a tag behind the tags that are done. */
    method PutNext(tag: nat, t: TagPacket, ghost before: seq<U8>, ghost done: seq<TagPacket>) returns (next: nat)
      requires EncodableTags(done + [t]) && Encodable(t) && Done(header.Bytes(), before, done, tag)
      requires |before| >= tag + TAG_HEADER_LENGTH + |t.payload|
      modifies header.udp
      ensures next == tag + TAG_HEADER_LENGTH + |t.payload|
      ensures Done(header.Bytes(), before, done + [t], next)
    {
      hide Done;
      DoneLength(header.Bytes(), before, done, tag);
      ghost var b1 := header.udp[..];
      next := PutTag(tag, t);
      DoneNext(b1, before, done, tag, t, header.udp[..]);
    }

    method SetDefaultResponsePacket(group: U32, ip: U32)
      requires header.udp.Length >= DEFAULT_RESPONSE_LENGTH
      modifies header.udp
      ensures |PacketBytes(ResponseTags(group, ip))| == DEFAULT_RESPONSE_LENGTH
      ensures header.Bytes() == PacketBytes(ResponseTags(group, ip)) + old(header.Bytes())[DEFAULT_RESPONSE_LENGTH..]
    {
      hide TagsBytes, BigEndian32, LittleEndian32, TagBytes, Done, PacketBytes;
      ghost var before, tags := header.udp[..], ResponseTags(group, ip);
      ResponseLength(group, ip);
      var nullTag := header.SetSignatureAndGroup(group);
      DoneFirst(before, tags[0]);
      var data2 := PutNext(nullTag, TagPacket(0x0000, [0x00, 0x01]), before, [tags[0]]);
      assert [tags[0]] + [tags[1]] == tags[..2];
      var discovery := PutNext(data2, TagPacket(SMA_TAG_DATA2, [0x00, 0x01, 0x00, 0x03]), before, tags[..2]);
      assert tags[..2] + [tags[2]] == tags[..3];
      var ipAddress := PutNext(discovery, TagPacket(SMA_TAG_DISCOVERY, [0x00, 0x00, 0x00, 0x01]), before, tags[..3]);
      assert tags[..3] + [tags[3]] == tags[..4];
      var seventy := PutNext(ipAddress, TagPacket(SMA_TAG_IP_ADDRESS, LittleEndian32(ip)), before, tags[..4]);
      assert tags[..4] + [tags[4]] == tags[..5];
      var eighty := PutNext(seventy, TagPacket(0x0070, [0xef, 0x0c]), before, tags[..5]);
      assert tags[..5] + [tags[5]] == tags[..6];
      var eod := PutNext(eighty, TagPacket(0x0080, [0x00]), before, tags[..6]);
      assert tags[..6] + [tags[6]] == tags;
      ghost var b1 := header.udp[..];
      SetTagHeader(header.udp, eod, 0, SMA_TAG_END_OF_DATA);
      DoneEnd(b1, before, tags, eod, header.udp[..]);
    }
  }

  /** Builds a response in a buffer of 128 zero bytes and looks for its end-of-data tag. */
  method GetDefaultResponsePacketLength() returns (length: nat)
    ensures length == DEFAULT_RESPONSE_LENGTH
    ensures length == |PacketBytes(ResponseTags(1, 0))|
  {
    hide PacketBytes, ResponseTags, IsEarliest, EndOf, Tags;
    var buffer := new U8[128](_ => 0);
    var header := new SpeedwireHeader(buffer);
    var packet := new SpeedwireDiscoveryProtocol(header);
    packet.SetDefaultResponsePacket(1, 0);
    var tag := header.FindEodTagPacket();
    ResponseParsesBack(1, 0, header.Bytes()[DEFAULT_RESPONSE_LENGTH..]);
    length := tag.value + TAG_HEADER_LENGTH;
  }
}

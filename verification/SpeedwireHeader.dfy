/**
 * The speedwire packet: a signature followed by a sequence of tag packets, each a two-byte length, a two-byte
 * id and a payload. A packet is a buffer of bytes; a pointer into it is the offset from its first byte.
 */
module SpeedwireHeaders {
  import opened Words
  import opened ByteEncoding

  const SMA_SIGNATURE: seq<U8> := [0x53, 0x4d, 0x41, 0x00]
  const SMA_TAG0_OFFSET: nat := 4
  const TAG_HEADER_LENGTH: nat := 4
  const SMA_PROTOCOL_OFFSET: nat := 4
  const SMA_LONG_WORDS_OFFSET: nat := 6
  const SMA_CONTROL_OFFSET: nat := 7

  const SMA_TAG_GROUP_ID: U16 := 0x02a0
  const SMA_TAG_DATA2: U16 := 0x0010
  const SMA_TAG_DISCOVERY: U16 := 0x0020
  const SMA_TAG_IP_ADDRESS: U16 := 0x0030
  const SMA_TAG_END_OF_DATA: U16 := 0x0000

  const SMA_EXTENDED_EMETER_PROTOCOL_ID: U16 := 0x6081
  const SMA_INVERTER_PROTOCOL_ID: U16 := 0x6065

  // ----- tags of a packet -----

  predicate HasSignature(b: seq<U8>) {
    |b| >= 4 && b[..4] == SMA_SIGNATURE
  }

  function TagLength(b: seq<U8>, o: nat): U16
    requires o + TAG_HEADER_LENGTH <= |b|
  {
    GetUint16BigEndian(b, o)
  }

  function TagId(b: seq<U8>, o: nat): U16
    requires o + TAG_HEADER_LENGTH <= |b|
  {
    GetUint16BigEndian(b, o + 2)
  }

  function TotalLength(b: seq<U8>, o: nat): nat
    requires o + TAG_HEADER_LENGTH <= |b|
  {
    TAG_HEADER_LENGTH + TagLength(b, o)
  }

  /** The tag at `o` lies inside the packet, with its header and its payload. */
  predicate Fits(b: seq<U8>, o: nat) {
    o + TAG_HEADER_LENGTH <= |b| && o + TotalLength(b, o) <= |b|
  }

  predicate IsEndOfData(b: seq<U8>, o: nat)
    requires o + TAG_HEADER_LENGTH <= |b|
  {
    TagId(b, o) == SMA_TAG_END_OF_DATA && TagLength(b, o) == 0
  }

  predicate HasId(b: seq<U8>, o: nat, id: U16) {
    Fits(b, o) && TagId(b, o) == id
  }

  /** The offsets of the tags of the parse that starts at `o`; the end-of-data tag is the last one. */
  function Tags(b: seq<U8>, o: nat): seq<nat>
    decreases |b| - o
  {
    if !Fits(b, o) then []
    else if IsEndOfData(b, o) then [o]
    else [o] + Tags(b, o + TotalLength(b, o))
  }

  /** `next` is where the parse goes on behind the tag at `o`. */
  predicate Follows(b: seq<U8>, o: nat, next: nat) {
    Fits(b, o) && !IsEndOfData(b, o) && next == o + TotalLength(b, o)
  }

  /** The parse stops with the tag at `o`: it is the end-of-data tag, or no other tag fits behind it. */
  predicate Stops(b: seq<U8>, o: nat) {
    Fits(b, o) && (IsEndOfData(b, o) || !Fits(b, o + TotalLength(b, o)))
  }

  /** A gapless run of tags from `o`: each inside the packet, each behind the payload of the one before it. */
  ghost predicate IsParse(b: seq<U8>, o: nat, tags: seq<nat>) {
    if tags == [] then !Fits(b, o)
    else
      && tags[0] == o
      && (forall j, k :: 0 <= j < k < |tags| && k == j + 1 ==> Follows(b, tags[j], tags[k]))
      && Stops(b, tags[|tags| - 1])
  }

  /** There is exactly one such run, on arbitrary bytes. */
  lemma {:induction false} ParseExact(b: seq<U8>, o: nat, tags: seq<nat>)
    ensures IsParse(b, o, tags) <==> tags == Tags(b, o)
    decreases |b| - o
  {
    hide TagLength, TagId, Follows, Stops;
    if tags == [] {
    } else if tags[0] != o || !Fits(b, o) {
      NoParse(b, o, tags);
    } else if IsEndOfData(b, o) {
      ParseEnd(b, o, tags);
    } else {
      var next := o + TotalLength(b, o);
      ParseExact(b, next, tags[1..]);
      ParseHead(b, o, next, tags);
      assert tags == [o] + tags[1..];
    }
  }

  lemma NoParse(b: seq<U8>, o: nat, tags: seq<nat>)
    requires tags != [] && (tags[0] != o || !Fits(b, o))
    ensures !IsParse(b, o, tags) && tags != Tags(b, o)
  {
    hide TagLength, TagId;
    assert IsParse(b, o, tags) && |tags| >= 2 ==> Follows(b, tags[0], tags[1]);
  }

  lemma ParseEnd(b: seq<U8>, o: nat, tags: seq<nat>)
    requires Fits(b, o) && IsEndOfData(b, o) && tags != [] && tags[0] == o
    ensures IsParse(b, o, tags) <==> tags == [o]
  {
    hide TagLength, TagId;
    assert IsParse(b, o, tags) && |tags| >= 2 ==> Follows(b, tags[0], tags[1]);
  }

  lemma ParseHead(b: seq<U8>, o: nat, next: nat, tags: seq<nat>)
    requires Follows(b, o, next) && tags != [] && tags[0] == o
    ensures IsParse(b, o, tags) <==> IsParse(b, next, tags[1..])
  {
  }

  /** The first tag of the parse from `o` that has the given id. */
  function FirstFrom(b: seq<U8>, o: nat, id: U16): (tag: Option<nat>)
    ensures tag.Some? ==> o <= tag.value && HasId(b, tag.value, id)
    decreases |b| - o
  {
    if !Fits(b, o) then None
    else if TagId(b, o) == id then Some(o)
    else if IsEndOfData(b, o) then None
    else FirstFrom(b, o + TotalLength(b, o), id)
  }

  function FirstTag(b: seq<U8>, id: U16): Option<nat> {
    FirstFrom(b, SMA_TAG0_OFFSET, id)
  }

  /** `found` is the earliest of the tags with the given id; None if there is no such tag. */
  ghost predicate IsEarliest(b: seq<U8>, tags: seq<nat>, id: U16, found: Option<nat>) {
    match found
    case None => forall k :: 0 <= k < |tags| ==> !HasId(b, tags[k], id)
    case Some(o) =>
      exists k :: 0 <= k < |tags| && tags[k] == o && HasId(b, tags[k], id)
                  && forall j :: 0 <= j < k ==> !HasId(b, tags[j], id)
  }

  lemma {:induction false} FirstFromExact(b: seq<U8>, o: nat, id: U16)
    ensures IsEarliest(b, Tags(b, o), id, FirstFrom(b, o, id))
    decreases |b| - o
  {
    hide TagLength, TagId;
    if !Fits(b, o) {
    } else {
      assert Tags(b, o)[0] == o;
      if TagId(b, o) != id && !IsEndOfData(b, o) {
        var next := o + TotalLength(b, o);
        FirstFromExact(b, next, id);
        EarliestBehind(b, o, Tags(b, next), id, FirstFrom(b, next, id));
      }
    }
  }

  lemma EarliestBehind(b: seq<U8>, o: nat, rest: seq<nat>, id: U16, found: Option<nat>)
    requires !HasId(b, o, id) && IsEarliest(b, rest, id, found)
    ensures IsEarliest(b, [o] + rest, id, found)
  {
    hide HasId;
    var tags := [o] + rest;
    if found.Some? {
      var k :| 0 <= k < |rest| && rest[k] == found.value && HasId(b, rest[k], id)
               && forall j :: 0 <= j < k ==> !HasId(b, rest[j], id);
      assert tags[k + 1] == rest[k];
      assert forall j :: 0 <= j < k + 1 ==> !HasId(b, tags[j], id);
    }
  }

  /** The end-of-data tag of a run of tags: its last one, if that is an end-of-data tag. */
  function EndOf(b: seq<U8>, tags: seq<nat>): Option<nat> {
    if tags != [] && Fits(b, tags[|tags| - 1]) && IsEndOfData(b, tags[|tags| - 1]) then Some(tags[|tags| - 1])
    else None
  }

  /** No end-of-data tag comes before the last tag, so the one found is the only one. */
  lemma {:induction false} OnlyLastEnds(b: seq<U8>, o: nat, k: nat)
    requires k < |Tags(b, o)|
    ensures Fits(b, Tags(b, o)[k])
    ensures IsEndOfData(b, Tags(b, o)[k]) <==> EndOf(b, Tags(b, o)) == Some(Tags(b, o)[k])
    ensures k + 1 < |Tags(b, o)| ==> Tags(b, o)[k] < Tags(b, o)[k + 1]
    decreases |b| - o
  {
    hide TagLength, TagId;
    if !Fits(b, o) || IsEndOfData(b, o) {
    } else {
      var next := o + TotalLength(b, o);
      var rest := Tags(b, next);
      if k > 0 {
        OnlyLastEnds(b, next, k - 1);
      } else if rest != [] {
        TagsAscend(b, next, |rest| - 1);
      }
    }
  }

  lemma {:induction false} TagsAscend(b: seq<U8>, o: nat, k: nat)
    requires k < |Tags(b, o)|
    ensures Tags(b, o)[0] == o && o + TAG_HEADER_LENGTH * k <= Tags(b, o)[k] <= |b| - TAG_HEADER_LENGTH
    decreases |b| - o
  {
    hide TagLength, TagId;
    if k == 0 {
    } else {
      TagsAscend(b, o + TotalLength(b, o), k - 1);
    }
  }

  // ----- encoding of tags -----

  datatype TagPacket = TagPacket(id: U16, payload: seq<U8>)

  predicate Encodable(t: TagPacket) {
    |t.payload| < TWO_16
  }

  const END_OF_DATA: TagPacket := TagPacket(SMA_TAG_END_OF_DATA, [])

  function TagHeader(length: U16, id: U16): (b: seq<U8>)
    ensures |b| == TAG_HEADER_LENGTH
  {
    BigEndian16(length) + BigEndian16(id)
  }

  function TagBytes(t: TagPacket): (b: seq<U8>)
    requires Encodable(t)
    ensures |b| == TAG_HEADER_LENGTH + |t.payload|
  {
    TagHeader(|t.payload|, t.id) + t.payload
  }

  /** Tags that can stand in front of the end-of-data tag. */
  predicate EncodableTags(tags: seq<TagPacket>) {
    forall k :: 0 <= k < |tags| ==> Encodable(tags[k]) && tags[k] != END_OF_DATA
  }

  function TagsBytes(tags: seq<TagPacket>): seq<U8>
    requires EncodableTags(tags)
  {
    if tags == [] then [] else TagBytes(tags[0]) + TagsBytes(tags[1..])
  }

  /** A whole packet: the signature, the tags, and the end-of-data tag. */
  function PacketBytes(tags: seq<TagPacket>): seq<U8>
    requires EncodableTags(tags)
  {
    SMA_SIGNATURE + TagsBytes(tags) + TagBytes(END_OF_DATA)
  }

  function TagAt(b: seq<U8>, o: nat): (t: TagPacket)
    requires Fits(b, o)
    ensures Encodable(t)
  {
    TagPacket(TagId(b, o), b[o + TAG_HEADER_LENGTH..o + TotalLength(b, o)])
  }

  /** The tags that the parse from `o` visits, without the end-of-data tag. */
  function DecodedTags(b: seq<U8>, o: nat): seq<TagPacket>
    decreases |b| - o
  {
    if !Fits(b, o) || IsEndOfData(b, o) then []
    else [TagAt(b, o)] + DecodedTags(b, o + TotalLength(b, o))
  }

  /** Where the first of the tags with the given id begins, the first tag being at `o`. */
  function PositionOf(tags: seq<TagPacket>, o: nat, id: U16): Option<nat> {
    if tags == [] then (if id == SMA_TAG_END_OF_DATA then Some(o) else None)
    else if tags[0].id == id then Some(o)
    else PositionOf(tags[1..], o + TAG_HEADER_LENGTH + |tags[0].payload|, id)
  }

  lemma TagRead(b: seq<U8>, o: nat, t: TagPacket)
    requires Encodable(t) && o + TAG_HEADER_LENGTH + |t.payload| <= |b|
    requires b[o..o + TAG_HEADER_LENGTH + |t.payload|] == TagBytes(t)
    ensures Fits(b, o) && TagAt(b, o) == t && TotalLength(b, o) == TAG_HEADER_LENGTH + |t.payload|
    ensures TagId(b, o) == t.id && (IsEndOfData(b, o) <==> t == END_OF_DATA)
  {
    var bytes := TagBytes(t);
    assert bytes[0] == b[o] && bytes[1] == b[o + 1] && bytes[2] == b[o + 2] && bytes[3] == b[o + 3];
    assert b[o + TAG_HEADER_LENGTH..o + TotalLength(b, o)] == bytes[TAG_HEADER_LENGTH..] == t.payload;
  }

  /**
   * Reading what was written: the parse of encoded tags behind any bytes and in front of any bytes visits
   * these tags, finds each id where the tag was put, and ends at the end-of-data tag.
   */
  lemma {:induction false} TagsRoundTrip(b: seq<U8>, o: nat, tags: seq<TagPacket>, id: U16)
    requires EncodableTags(tags) && o + |TagsBytes(tags)| + TAG_HEADER_LENGTH <= |b|
    requires b[o..o + |TagsBytes(tags)|] == TagsBytes(tags)
    requires b[o + |TagsBytes(tags)|..o + |TagsBytes(tags)| + TAG_HEADER_LENGTH] == TagBytes(END_OF_DATA)
    ensures DecodedTags(b, o) == tags
    ensures FirstFrom(b, o, id) == PositionOf(tags, o, id)
    ensures EndOf(b, Tags(b, o)) == Some(o + |TagsBytes(tags)|)
    decreases |tags|
  {
    hide TagBytes, TotalLength, TagLength, TagId, TagAt, IsEndOfData, Fits, EndOf, Tags;
    if tags == [] {
      TagRead(b, o, END_OF_DATA);
      EndStep(b, o);
    } else {
      SliceOfSum(b, o, TagBytes(tags[0]), TagsBytes(tags[1..]));
      TagRead(b, o, tags[0]);
      TagsRoundTrip(b, o + TAG_HEADER_LENGTH + |tags[0].payload|, tags[1..], id);
      EndStep(b, o);
    }
  }

  lemma EndStep(b: seq<U8>, o: nat)
    requires Fits(b, o)
    ensures IsEndOfData(b, o) ==> EndOf(b, Tags(b, o)) == Some(o)
    ensures var next := EndOf(b, Tags(b, o + TotalLength(b, o)));
            !IsEndOfData(b, o) && next.Some? ==> EndOf(b, Tags(b, o)) == next
  {
  }

  lemma SliceOfSum(b: seq<U8>, o: nat, first: seq<U8>, rest: seq<U8>)
    requires o + |first| + |rest| <= |b| && b[o..o + |first| + |rest|] == first + rest
    ensures b[o..o + |first|] == first
    ensures b[o + |first|..o + |first| + |rest|] == rest
  {
    var both := b[o..o + |first| + |rest|];
    assert both[..|first|] == first && both[|first|..] == rest;
  }

  lemma {:induction false} TagsBytesAppended(tags: seq<TagPacket>, t: TagPacket)
    requires EncodableTags(tags + [t])
    ensures EncodableTags(tags) && Encodable(t) && TagsBytes(tags + [t]) == TagsBytes(tags) + TagBytes(t)
  {
    hide TagBytes;
    assert (tags + [t])[|tags|] == t;
    assert forall k :: 0 <= k < |tags| ==> (tags + [t])[k] == tags[k];
    if tags != [] {
      assert (tags + [t])[1..] == tags[1..] + [t];
      TagsBytesAppended(tags[1..], t);
    } else {
      assert tags + [t] == [t];
      assert TagsBytes([t][1..]) == [];
    }
  }

  /** The number of bytes of the first `k` tags. */
  function OffsetOf(tags: seq<TagPacket>, k: nat): nat
    requires k <= |tags|
  {
    if k == 0 then 0 else OffsetOf(tags, k - 1) + TAG_HEADER_LENGTH + |tags[k - 1].payload|
  }

  lemma {:induction false} OffsetBehindFirst(tags: seq<TagPacket>, k: nat)
    requires k < |tags|
    ensures OffsetOf(tags, k + 1) == TAG_HEADER_LENGTH + |tags[0].payload| + OffsetOf(tags[1..], k)
  {
    if k == 0 {
    } else {
      OffsetBehindFirst(tags, k - 1);
    }
  }

  lemma {:induction false} BytesLength(tags: seq<TagPacket>)
    requires EncodableTags(tags)
    ensures |TagsBytes(tags)| == OffsetOf(tags, |tags|)
  {
    hide TagBytes;
    if tags == [] {
    } else {
      BytesLength(tags[1..]);
      assert TagsBytes(tags) == TagBytes(tags[0]) + TagsBytes(tags[1..]);
      OffsetBehindFirst(tags, |tags| - 1);
    }
  }

  /** The first tag with an id stands behind all tags before it; an id that no tag has is not found. */
  lemma {:induction false} PositionExact(tags: seq<TagPacket>, o: nat, id: U16, k: nat)
    requires k <= |tags| && (forall j :: 0 <= j < k ==> tags[j].id != id)
    ensures k < |tags| && tags[k].id == id ==> PositionOf(tags, o, id) == Some(o + OffsetOf(tags, k))
    ensures k == |tags| && id != SMA_TAG_END_OF_DATA ==> PositionOf(tags, o, id) == None
    decreases k
  {
    if k == 0 {
    } else {
      PositionExact(tags[1..], o + TAG_HEADER_LENGTH + |tags[0].payload|, id, k - 1);
      OffsetBehindFirst(tags, k - 1);
    }
  }

  lemma {:induction false} TagPlaced(b: seq<U8>, o: nat, tags: seq<TagPacket>, k: nat)
    requires EncodableTags(tags) && k < |tags| && o + |TagsBytes(tags)| <= |b|
    requires b[o..o + |TagsBytes(tags)|] == TagsBytes(tags)
    ensures var at := o + OffsetOf(tags, k); Fits(b, at) && TagAt(b, at) == tags[k]
    decreases k
  {
    hide TagBytes, Fits, TagAt;
    SliceOfSum(b, o, TagBytes(tags[0]), TagsBytes(tags[1..]));
    if k == 0 {
      TagRead(b, o, tags[0]);
    } else {
      OffsetBehindFirst(tags, k - 1);
      TagPlaced(b, o + TAG_HEADER_LENGTH + |tags[0].payload|, tags[1..], k - 1);
    }
  }

  /** The round trip of a whole packet with anything behind it. */
  lemma PacketRoundTrip(tags: seq<TagPacket>, rest: seq<U8>, id: U16)
    requires EncodableTags(tags)
    ensures var b := PacketBytes(tags) + rest;
            && HasSignature(b)
            && DecodedTags(b, SMA_TAG0_OFFSET) == tags
            && FirstTag(b, id) == PositionOf(tags, SMA_TAG0_OFFSET, id)
            && EndOf(b, Tags(b, SMA_TAG0_OFFSET)) == Some(SMA_TAG0_OFFSET + OffsetOf(tags, |tags|))
            && |PacketBytes(tags)| == SMA_TAG0_OFFSET + OffsetOf(tags, |tags|) + TAG_HEADER_LENGTH
    ensures forall k :: 0 <= k < |tags| ==>
              var b, at := PacketBytes(tags) + rest, SMA_TAG0_OFFSET + OffsetOf(tags, k);
              Fits(b, at) && TagAt(b, at) == tags[k]
  {
    hide TagBytes, DecodedTags, EndOf, Tags, TagsBytes, Fits, TagAt, OffsetOf, PositionOf, FirstFrom;
    var b := PacketBytes(tags) + rest;
    var end := SMA_TAG0_OFFSET + |TagsBytes(tags)|;
    assert b[..4] == SMA_SIGNATURE;
    assert b[4..end] == TagsBytes(tags);
    assert b[end..end + TAG_HEADER_LENGTH] == TagBytes(END_OF_DATA);
    TagsRoundTrip(b, SMA_TAG0_OFFSET, tags, id);
    BytesLength(tags);
    forall k | 0 <= k < |tags|
      ensures var at := SMA_TAG0_OFFSET + OffsetOf(tags, k); Fits(b, at) && TagAt(b, at) == tags[k]
    {
      TagPlaced(b, SMA_TAG0_OFFSET, tags, k);
    }
  }

  // ----- packets with a data2 tag -----

  /** The packet starts with the signature and a group id tag of four bytes. */
  predicate HasGroupTag(b: seq<U8>) {
    HasSignature(b) && HasId(b, SMA_TAG0_OFFSET, SMA_TAG_GROUP_ID) && TagLength(b, SMA_TAG0_OFFSET) == 4
  }

  /** There is a data2 tag, and the first one has space for the protocol id. */
  predicate HasData2Tag(b: seq<U8>) {
    FirstTag(b, SMA_TAG_DATA2).Some? && TagLength(b, FirstTag(b, SMA_TAG_DATA2).value) >= 2
  }

  /** Signature, group tag, data2 tag and end-of-data tag follow each other, and no further tag fits. */
  predicate IsFullData2(b: seq<U8>) {
    && HasGroupTag(b)
    && HasId(b, 12, SMA_TAG_DATA2)
    && TagLength(b, 12) >= 2
    && var end := 12 + TotalLength(b, 12);
    && Fits(b, end) && IsEndOfData(b, end) && !Fits(b, end + TAG_HEADER_LENGTH)
  }

  /** There is a discovery tag, and the first ip address tag, if there is one, has space for an address. */
  predicate IsValidDiscovery(b: seq<U8>) {
    && HasGroupTag(b)
    && FirstTag(b, SMA_TAG_DISCOVERY).Some?
    && (FirstTag(b, SMA_TAG_IP_ADDRESS).Some? ==> TagLength(b, FirstTag(b, SMA_TAG_IP_ADDRESS).value) >= 4)
  }

  // ----- validity of encoded packets -----

  /** The first tag is a group id tag of four bytes. */
  predicate StartsWithGroup(tags: seq<TagPacket>) {
    tags != [] && tags[0].id == SMA_TAG_GROUP_ID && |tags[0].payload| == 4
  }

  /** There is a tag with the id. */
  ghost predicate Contains(tags: seq<TagPacket>, id: U16) {
    exists k :: 0 <= k < |tags| && tags[k].id == id
  }

  /** The first tag with the id, if there is one, has at least `length` payload bytes. */
  ghost predicate FirstHasSpace(tags: seq<TagPacket>, id: U16, length: nat) {
    forall k :: 0 <= k < |tags| && tags[k].id == id && (forall j :: 0 <= j < k ==> tags[j].id != id) ==>
      |tags[k].payload| >= length
  }

  /** What the checks say about a packet built from any tags, with anything behind it: a data2 packet starts with the
      group tag and has a data2 tag with space for the protocol id; a discovery packet starts with the group tag and
      has a discovery tag, and its address tag has space for an address. */
  lemma EncodedTagsAccepted(tags: seq<TagPacket>, rest: seq<U8>)
    requires EncodableTags(tags)
    ensures var b := PacketBytes(tags) + rest;
            && (HasGroupTag(b) && HasData2Tag(b) <==>
                  && StartsWithGroup(tags) && Contains(tags, SMA_TAG_DATA2)
                  && FirstHasSpace(tags, SMA_TAG_DATA2, 2))
            && (IsValidDiscovery(b) <==>
                  && StartsWithGroup(tags) && Contains(tags, SMA_TAG_DISCOVERY)
                  && FirstHasSpace(tags, SMA_TAG_IP_ADDRESS, 4))
  {
    hide FirstTag, PacketBytes, Contains, FirstHasSpace, Fits, TagId, TagLength, TagAt;
    GroupOfTags(tags, rest);
    FirstOfTags(tags, rest, SMA_TAG_DATA2, 2);
    FirstOfTags(tags, rest, SMA_TAG_DISCOVERY, 0);
    FirstOfTags(tags, rest, SMA_TAG_IP_ADDRESS, 4);
  }

  lemma GroupOfTags(tags: seq<TagPacket>, rest: seq<U8>)
    requires EncodableTags(tags)
    ensures HasGroupTag(PacketBytes(tags) + rest) <==> StartsWithGroup(tags)
  {
    hide PacketBytes, FirstTag, DecodedTags;
    PacketRoundTrip(tags, rest, SMA_TAG_GROUP_ID);
    DecodedHead(PacketBytes(tags) + rest, SMA_TAG0_OFFSET);
  }

  lemma DecodedHead(b: seq<U8>, o: nat)
    ensures Fits(b, o) && !IsEndOfData(b, o) ==> DecodedTags(b, o) != [] && DecodedTags(b, o)[0] == TagAt(b, o)
    ensures !Fits(b, o) || IsEndOfData(b, o) ==> DecodedTags(b, o) == []
  {
  }

  /** The search finds a tag exactly if there is one, and the length of the first one. */
  lemma FirstOfTags(tags: seq<TagPacket>, rest: seq<U8>, id: U16, length: nat)
    requires EncodableTags(tags) && id != SMA_TAG_END_OF_DATA
    ensures var b := PacketBytes(tags) + rest;
            var found := FirstTag(b, id);
            && (found.Some? <==> Contains(tags, id))
            && (found.Some? ==> (TagLength(b, found.value) >= length <==> FirstHasSpace(tags, id, length)))
            && (found.None? ==> FirstHasSpace(tags, id, length))
  {
    hide FirstTag, PacketBytes, PositionOf, OffsetOf, DecodedTags, EndOf, Tags;
    var b := PacketBytes(tags) + rest;
    PacketRoundTrip(tags, rest, id);
    var k := FirstIndex(tags, id);
    PositionExact(tags, SMA_TAG0_OFFSET, id, k);
    if k < |tags| {
      var at := SMA_TAG0_OFFSET + OffsetOf(tags, k);
      assert TagAt(b, at) == tags[k];
      assert TagLength(b, at) == |tags[k].payload|;
      FirstIs(tags, id, length, k);
    }
  }

  lemma FirstIs(tags: seq<TagPacket>, id: U16, length: nat, k: nat)
    requires k < |tags| && tags[k].id == id && forall j :: 0 <= j < k ==> tags[j].id != id
    ensures FirstHasSpace(tags, id, length) <==> |tags[k].payload| >= length
  {
  }

  lemma {:induction false} FirstIndex(tags: seq<TagPacket>, id: U16) returns (k: nat)
    ensures k <= |tags| && (forall j :: 0 <= j < k ==> tags[j].id != id)
    ensures k < |tags| ==> tags[k].id == id
  {
    k := 0;
    while k < |tags| && tags[k].id != id
      invariant k <= |tags| && forall j :: 0 <= j < k ==> tags[j].id != id
    {
      k := k + 1;
    }
  }

  predicate IsExtendedEmeterProtocolId(id: U16) { id == SMA_EXTENDED_EMETER_PROTOCOL_ID }

  predicate IsInverterProtocolId(id: U16) { id == SMA_INVERTER_PROTOCOL_ID }

  function ProtocolId(b: seq<U8>, data2: nat): U16
    requires data2 + 6 <= |b|
  {
    GetUint16BigEndian(b, data2 + SMA_PROTOCOL_OFFSET)
  }

  function LongWords(b: seq<U8>, data2: nat): U8
    requires data2 + 8 <= |b|
  {
    b[data2 + SMA_LONG_WORDS_OFFSET]
  }

  function Control(b: seq<U8>, data2: nat): U8
    requires data2 + 8 <= |b|
  {
    b[data2 + SMA_CONTROL_OFFSET]
  }

  /** Where the functional payload begins, counted from the data2 tag header. */
  function PayloadOffset(id: U16): nat {
    if id == SMA_EXTENDED_EMETER_PROTOCOL_ID || id == SMA_INVERTER_PROTOCOL_ID then 8 else 6
  }

  /** A tag of a packet is the encoding of its id and payload. */
  lemma TagWritten(b: seq<U8>, o: nat)
    requires Fits(b, o)
    ensures b[o..o + TotalLength(b, o)] == TagBytes(TagAt(b, o))
  {
  }

  function Data2Tags(group: seq<U8>, payload: seq<U8>): (tags: seq<TagPacket>)
    requires |group| == 4 && |payload| < TWO_16
    ensures EncodableTags(tags)
  {
    [TagPacket(SMA_TAG_GROUP_ID, group), TagPacket(SMA_TAG_DATA2, payload)]
  }

  lemma Data2PacketBytes(group: seq<U8>, payload: seq<U8>)
    requires |group| == 4 && |payload| < TWO_16
    ensures PacketBytes(Data2Tags(group, payload)) ==
            SMA_SIGNATURE + TagBytes(TagPacket(SMA_TAG_GROUP_ID, group))
            + TagBytes(TagPacket(SMA_TAG_DATA2, payload)) + TagBytes(END_OF_DATA)
    ensures |PacketBytes(Data2Tags(group, payload))| == 20 + |payload|
  {
    hide TagBytes;
    var tags := Data2Tags(group, payload);
    var second := TagsBytes(tags[1..]);
    assert tags[1..][0] == tags[1];
    assert TagsBytes(tags[1..][1..]) == [];
    assert second == TagBytes(tags[1]);
  }

  /** The full check accepts an encoded packet with anything behind it exactly if no tag fits in what is behind. */
  lemma EncodedPacketAccepted(group: seq<U8>, payload: seq<U8>, rest: seq<U8>)
    requires |group| == 4 && |payload| < TWO_16
    ensures var b := PacketBytes(Data2Tags(group, payload)) + rest;
            && HasGroupTag(b) && HasId(b, 12, SMA_TAG_DATA2)
            && TagAt(b, 12) == TagPacket(SMA_TAG_DATA2, payload) && TotalLength(b, 12) == TAG_HEADER_LENGTH + |payload|
            && (IsFullData2(b) <==> |payload| >= 2 && !Fits(rest, 0))
            && (|rest| < TAG_HEADER_LENGTH ==> !Fits(rest, 0))
  {
    hide TagBytes, TagLength, TagId, IsEndOfData;
    var b := PacketBytes(Data2Tags(group, payload)) + rest;
    var end := 16 + |payload|;
    Data2PacketBytes(group, payload);
    assert b[..4] == SMA_SIGNATURE;
    assert b[4..12] == TagBytes(TagPacket(SMA_TAG_GROUP_ID, group));
    assert b[12..end] == TagBytes(TagPacket(SMA_TAG_DATA2, payload));
    assert b[end..end + 4] == TagBytes(END_OF_DATA);
    TagRead(b, 4, TagPacket(SMA_TAG_GROUP_ID, group));
    TagRead(b, 12, TagPacket(SMA_TAG_DATA2, payload));
    TagRead(b, end, END_OF_DATA);
    FitsBehind(b, rest, end + 4);
  }

  lemma FitsBehind(b: seq<U8>, rest: seq<U8>, o: nat)
    requires o <= |b| && b[o..] == rest
    ensures Fits(b, o) <==> Fits(rest, 0)
  {
  }

  /** Conversely, whatever the full check accepts is such an encoded packet with no complete tag behind it. */
  lemma AcceptedPacketEncoded(b: seq<U8>)
    requires IsFullData2(b)
    ensures var end := 12 + TotalLength(b, 12);
            && b == PacketBytes(Data2Tags(b[8..12], b[16..end])) + b[end + 4..]
            && !Fits(b[end + 4..], 0)
  {
    hide TagBytes, TagLength, TagId, PacketBytes, Data2Tags;
    var end := 12 + TotalLength(b, 12);
    TagWritten(b, 4);
    TagWritten(b, 12);
    TagWritten(b, end);
    FitsBehind(b, b[end + 4..], end + 4);
    Data2PacketBytes(b[8..12], b[16..end]);
    assert b[..4] + b[4..12] + b[12..end] + b[end..end + 4] + b[end + 4..] == b;
  }

  /** The search for any other id goes on behind the group tag. */
  lemma TagsBehindGroup(b: seq<U8>, id: U16)
    requires HasGroupTag(b) && id != SMA_TAG_GROUP_ID
    ensures FirstTag(b, id) == FirstFrom(b, 12, id)
    ensures HasId(b, 12, id) ==> FirstTag(b, id) == Some(12)
  {
  }

  // ----- the default header -----

  /** The data2 fields behind the protocol id that the default header sets. */
  function DefaultFields(length: U16, protocolId: U16): (fields: seq<U8>)
    ensures |fields| <= 2
  {
    if IsExtendedEmeterProtocolId(protocolId) then [0, 3]
    else if IsInverterProtocolId(protocolId) then [length / 4 % 0x100, 0]
    else []
  }

  function Headers(group: U32, length: U16): (headers: seq<U8>)
    ensures |headers| == 16
  {
    SMA_SIGNATURE + TagBytes(TagPacket(SMA_TAG_GROUP_ID, BigEndian32(group))) + TagHeader(length, SMA_TAG_DATA2)
  }

  function DefaultHead(group: U32, length: U16, protocolId: U16): (head: seq<U8>)
    ensures |head| == 18 + |DefaultFields(length, protocolId)|
  {
    Headers(group, length) + (BigEndian16(protocolId) + DefaultFields(length, protocolId))
  }

  /** `b` with the head at its begin and the end-of-data tag behind `length` payload bytes, which is written last. */
  function DefaultHeader(b: seq<U8>, group: U32, length: U16, protocolId: U16): (r: seq<U8>)
    requires |b| >= 20 + length
    ensures |r| == |b|
  {
    Overwritten(Overwritten(b, 0, DefaultHead(group, length, protocolId)), 16 + length, TagBytes(END_OF_DATA))
  }

  /** Signature, group tag, data2 tag with `length` payload bytes, and end-of-data tag. */
  function DefaultTotalLength(length: U16): nat {
    |SMA_SIGNATURE| + TAG_HEADER_LENGTH + 4 + TAG_HEADER_LENGTH + length + TAG_HEADER_LENGTH
  }

  /** The parts of the default header; with less than two payload bytes the end-of-data tag covers the protocol id. */
  lemma DefaultHeaderParts(b: seq<U8>, group: U32, length: U16, protocolId: U16)
    requires |b| >= 20 + length
    ensures var r := DefaultHeader(b, group, length, protocolId);
            var fields, end := DefaultFields(length, protocolId), 16 + length;
            && r[..4] == SMA_SIGNATURE
            && r[4..12] == TagBytes(TagPacket(SMA_TAG_GROUP_ID, BigEndian32(group)))
            && r[12..16] == TagHeader(length, SMA_TAG_DATA2)
            && (length >= 2 ==> r[16..18] == BigEndian16(protocolId))
            && (length >= 4 ==> r[18..18 + |fields|] == fields && r[18 + |fields|..end] == b[18 + |fields|..end])
            && r[end..end + 4] == TagBytes(END_OF_DATA)
            && r[end + 4..] == b[end + 4..]
  {
    hide BigEndian32, BigEndian16, DefaultFields, DefaultHead;
    var head, fields := DefaultHead(group, length, protocolId), DefaultFields(length, protocolId);
    var w := Overwritten(b, 0, head);
    var r := DefaultHeader(b, group, length, protocolId);
    HeadParts(head, group, length, protocolId);
    assert w[..|head|] == head;
    assert r[..4] == head[..4] && r[4..12] == head[4..12] && r[12..16] == head[12..16];
    if length >= 2 {
      assert r[16..18] == head[16..18];
    }
    if length >= 4 {
      assert r[18..18 + |fields|] == head[18..];
    }
  }

  /** The layout of the default header: an encoded packet in front of what was behind it in the buffer. */
  lemma DefaultHeaderLayout(b: seq<U8>, group: U32, length: U16, protocolId: U16)
    requires |b| >= 20 + length
    ensures var r := DefaultHeader(b, group, length, protocolId);
            r == PacketBytes(Data2Tags(BigEndian32(group), r[16..16 + length])) + b[20 + length..]
  {
    hide DefaultHeader, DefaultFields, DefaultHead, BigEndian32, BigEndian16, PacketBytes, Data2Tags;
    var r := DefaultHeader(b, group, length, protocolId);
    var end := 16 + length;
    DefaultHeaderParts(b, group, length, protocolId);
    assert r[12..end] == r[12..16] + r[16..end];
    Data2PacketBytes(BigEndian32(group), r[16..end]);
    assert r == r[..4] + r[4..12] + r[12..end] + r[end..end + 4] + r[end + 4..];
  }

  /**
   * The full check accepts the default header exactly if there is space for the protocol id and no tag fits
   * behind it, in particular in every buffer of the default total length; the fields then read back.
   */
  lemma DefaultHeaderAccepted(b: seq<U8>, group: U32, length: U16, protocolId: U16)
    requires |b| >= 20 + length
    ensures var r := DefaultHeader(b, group, length, protocolId);
            && FirstTag(r, SMA_TAG_DATA2) == Some(12)
            && (IsFullData2(r) <==> length >= 2 && !Fits(b[20 + length..], 0))
            && (|b| == DefaultTotalLength(length) ==> (IsFullData2(r) <==> length >= 2))
            && (length >= 2 ==> ProtocolId(r, 12) == protocolId)
            && (length >= 4 && IsInverterProtocolId(protocolId) ==>
                  LongWords(r, 12) == length / 4 % 0x100 && Control(r, 12) == 0)
            && (length >= 4 && IsExtendedEmeterProtocolId(protocolId) ==> LongWords(r, 12) == 0 && Control(r, 12) == 3)
  {
    hide DefaultHeader, BigEndian32, PacketBytes, Data2Tags, IsFullData2, TagLength, TagId, TagAt, Fits;
    var r := DefaultHeader(b, group, length, protocolId);
    DefaultHeaderParts(b, group, length, protocolId);
    DefaultHeaderLayout(b, group, length, protocolId);
    EncodedPacketAccepted(BigEndian32(group), r[16..16 + length], b[20 + length..]);
    TagsBehindGroup(r, SMA_TAG_DATA2);
    if length >= 2 {
      BigEndianValue16(protocolId);
      SameBytesSameValue(r, 16, BigEndian16(protocolId), 0, 2);
    }
    if length >= 4 && |DefaultFields(length, protocolId)| == 2 {
      assert r[18] == r[18..20][0] && r[19] == r[18..20][1];
    }
  }

  lemma HeadParts(head: seq<U8>, group: U32, length: U16, protocolId: U16)
    requires head == DefaultHead(group, length, protocolId)
    ensures head[..4] == SMA_SIGNATURE
    ensures head[4..12] == TagBytes(TagPacket(SMA_TAG_GROUP_ID, BigEndian32(group)))
    ensures head[12..16] == TagHeader(length, SMA_TAG_DATA2)
    ensures head[16..18] == BigEndian16(protocolId)
    ensures head[18..] == DefaultFields(length, protocolId)
  {
  }

  /** Sets the length and the id of a tag; the length is then what its total length is computed from. */
  method SetTagHeader(a: array<U8>, tag: nat, length: U16, id: U16)
    requires tag + TAG_HEADER_LENGTH <= a.Length
    modifies a
    ensures a[..] == Overwritten(old(a[..]), tag, TagHeader(length, id))
    ensures TotalLength(a[..], tag) == TAG_HEADER_LENGTH + length
  {
    SetUint16BigEndian(a, tag, length);
    ghost var c := a[..];
    SetUint16BigEndian(a, tag + 2, id);
    Appended(old(a[..]), tag, BigEndian16(length), c, BigEndian16(id), a[..]);
    LengthRead(a[..], tag, length, id);
  }

  lemma LengthRead(b: seq<U8>, tag: nat, length: U16, id: U16)
    requires tag + TAG_HEADER_LENGTH <= |b| && b[tag..tag + TAG_HEADER_LENGTH] == TagHeader(length, id)
    ensures TotalLength(b, tag) == TAG_HEADER_LENGTH + length && TagId(b, tag) == id
  {
  }

  /** The data2 tag is found as soon as the headers of the group tag and of the data2 tag are written. */
  lemma Data2Found(b: seq<U8>, group: U32, length: U16)
    requires |b| >= DefaultTotalLength(length)
    requires b[..4] == SMA_SIGNATURE && b[4..12] == TagBytes(TagPacket(SMA_TAG_GROUP_ID, BigEndian32(group)))
    requires b[12..16] == TagHeader(length, SMA_TAG_DATA2)
    ensures FirstTag(b, SMA_TAG_DATA2) == Some(12)
  {
    hide TagHeader, TagLength, TagId, BigEndian32;
    TagRead(b, 4, TagPacket(SMA_TAG_GROUP_ID, BigEndian32(group)));
    LengthRead(b, 12, length, SMA_TAG_DATA2);
    TagsBehindGroup(b, SMA_TAG_DATA2);
  }

  lemma HeadersRead(b: seq<U8>, group: U32, length: U16, fields: seq<U8>)
    requires |b| >= DefaultTotalLength(length) && |fields| <= 4
    ensures TotalLength(Overwritten(b, 0, Headers(group, length) + fields), 12) == TAG_HEADER_LENGTH + length
  {
  }

  /** The protocol id and, for inverters and extended emeters, the fields behind it. */
  method SetData2Fields(a: array<U8>, data2: nat, length: U16, protocolId: U16)
    requires data2 + 8 <= a.Length
    modifies a
    ensures a[..] == Overwritten(old(a[..]), data2 + SMA_PROTOCOL_OFFSET,
                                 BigEndian16(protocolId) + DefaultFields(length, protocolId))
  {
    hide BigEndian16;
    ghost var b0 := a[..];
    SetUint16BigEndian(a, data2 + SMA_PROTOCOL_OFFSET, protocolId);
    ghost var b1 := a[..];
    if IsExtendedEmeterProtocolId(protocolId) {
      SetLongWordsAndControl(a, data2, 0, 3);
    } else if IsInverterProtocolId(protocolId) {
      SetLongWordsAndControl(a, data2, length / 4 % 0x100, 0);
    }
    Appended(b0, data2 + SMA_PROTOCOL_OFFSET, BigEndian16(protocolId), b1, DefaultFields(length, protocolId), a[..]);
  }

  method SetLongWordsAndControl(a: array<U8>, data2: nat, longWords: U8, control: U8)
    requires data2 + 8 <= a.Length
    modifies a
    ensures a[..] == Overwritten(old(a[..]), data2 + SMA_LONG_WORDS_OFFSET, [longWords, control])
  {
    SetUint8(a, data2 + SMA_LONG_WORDS_OFFSET, longWords);
    SetUint8(a, data2 + SMA_CONTROL_OFFSET, control);
  }

  lemma DefaultHeaderIs(b0: seq<U8>, group: U32, length: U16, protocolId: U16, b2: seq<U8>, b3: seq<U8>)
    requires |b0| >= DefaultTotalLength(length)
    requires b2 == Overwritten(b0, 0, Headers(group, length) + (BigEndian16(protocolId) + DefaultFields(length, protocolId)))
    requires b3 == Overwritten(b2, 16 + length, TagHeader(0, SMA_TAG_END_OF_DATA))
    ensures b3 == DefaultHeader(b0, group, length, protocolId)
  {
    hide Headers, BigEndian16, DefaultFields, Overwritten, TagHeader;
    assert TagBytes(END_OF_DATA) == TagHeader(0, SMA_TAG_END_OF_DATA);
  }

  class SpeedwireHeader {
    const udp: array<U8>

    constructor (packet: array<U8>)
      ensures udp == packet
    {
      udp := packet;
    }

    function Bytes(): (b: seq<U8>)
      reads udp
    {
      udp[..]
    }

    /** The first tag of the parse with the given id, on arbitrary bytes. */
    method FindTagPacket(id: U16) returns (tag: Option<nat>)
      ensures tag == FirstTag(Bytes(), id)
      ensures IsEarliest(Bytes(), Tags(Bytes(), SMA_TAG0_OFFSET), id, tag)
    {
      FirstFromExact(Bytes(), SMA_TAG0_OFFSET, id);
      tag := GetFirstTagPacket();
      while tag.Some?
        invariant tag.Some? ==> Fits(Bytes(), tag.value)
        invariant FirstTag(Bytes(), id) == if tag.Some? then FirstFrom(Bytes(), tag.value, id) else None
        decreases if tag.Some? then udp.Length - tag.value + 1 else 0
      {
        if TagId(Bytes(), tag.value) == id {
          return;
        }
        if IsEndOfData(Bytes(), tag.value) {
          return None;
        }
        tag := GetNextTagPacket(tag.value);
      }
    }

    method GetFirstTagPacket() returns (tag: Option<nat>)
      ensures tag == if Fits(Bytes(), SMA_TAG0_OFFSET) then Some(SMA_TAG0_OFFSET) else None
    {
      tag := if Fits(udp[..], SMA_TAG0_OFFSET) then Some(SMA_TAG0_OFFSET) else None;
    }

    method GetNextTagPacket(current: nat) returns (tag: Option<nat>)
      ensures tag.Some? <==> Fits(Bytes(), current) && Fits(Bytes(), current + TotalLength(Bytes(), current))
      ensures tag.Some? ==> tag.value == current + TotalLength(Bytes(), current)
    {
      if Fits(udp[..], current) {
        var next := current + TotalLength(udp[..], current);
        if Fits(udp[..], next) {
          return Some(next);
        }
      }
      return None;
    }

    /** The end-of-data tag of the parse, which is its last tag. */
    method FindEodTagPacket() returns (tag: Option<nat>)
      ensures tag == EndOf(Bytes(), Tags(Bytes(), SMA_TAG0_OFFSET))
    {
      hide TagLength, TagId;
      tag := GetFirstTagPacket();
      while tag.Some?
        invariant tag.Some? ==> Fits(Bytes(), tag.value)
        invariant EndOf(Bytes(), Tags(Bytes(), SMA_TAG0_OFFSET)) ==
                  if tag.Some? then EndOf(Bytes(), Tags(Bytes(), tag.value)) else None
        decreases if tag.Some? then udp.Length - tag.value + 1 else 0
      {
        if IsEndOfData(Bytes(), tag.value) {
          return;
        }
        tag := GetNextTagPacket(tag.value);
      }
    }

    method IsValidData2Packet(fullcheck: bool) returns (valid: bool)
      ensures valid <==> if fullcheck then IsFullData2(Bytes()) else HasGroupTag(Bytes()) && HasData2Tag(Bytes())
    {
      hide IsEarliest, TagLength, TagId;
      if !HasSignature(udp[..]) {
        return false;
      }
      var tag0 := FindTagPacket(SMA_TAG_GROUP_ID);
      if tag0 != Some(SMA_TAG0_OFFSET) || TagLength(udp[..], tag0.value) != 4 {
        return false;
      }
      var data2 := FindTagPacket(SMA_TAG_DATA2);
      TagsBehindGroup(udp[..], SMA_TAG_DATA2);
      if data2 == None || TagLength(udp[..], data2.value) < 2 {
        return false;
      }
      if fullcheck {
        if tag0.value + TotalLength(udp[..], tag0.value) != data2.value {
          return false;
        }
        var eod := GetNextTagPacket(data2.value);
        if eod == None {
          return false;
        }
        if TagLength(udp[..], eod.value) != 0 || TagId(udp[..], eod.value) != 0 {
          return false;
        }
        if data2.value + TotalLength(udp[..], data2.value) != eod.value {
          return false;
        }
        var noMore := GetNextTagPacket(eod.value);
        if noMore != None {
          return false;
        }
      }
      return true;
    }

    method IsValidDiscoveryPacket() returns (valid: bool)
      ensures valid <==> IsValidDiscovery(Bytes())
    {
      hide IsEarliest, TagLength, TagId;
      if !HasSignature(udp[..]) {
        return false;
      }
      var tag0 := FindTagPacket(SMA_TAG_GROUP_ID);
      if tag0 != Some(SMA_TAG0_OFFSET) || TagLength(udp[..], tag0.value) != 4 {
        return false;
      }
      var discovery := FindTagPacket(SMA_TAG_DISCOVERY);
      if discovery == None {
        return false;
      }
      var ipAddress := FindTagPacket(SMA_TAG_IP_ADDRESS);
      if ipAddress.Some? && TagLength(udp[..], ipAddress.value) < 4 {
        return false;
      }
      return true;
    }

    /** The signature and the group tag, with which every packet starts. */
    method SetSignatureAndGroup(group: U32) returns (next: nat)
      requires udp.Length >= 12
      modifies udp
      ensures Bytes() == Overwritten(old(Bytes()), 0,
                                     SMA_SIGNATURE + TagBytes(TagPacket(SMA_TAG_GROUP_ID, BigEndian32(group))))
      ensures next == 12
    {
      hide BigEndian16, BigEndian32, TotalLength;
      ghost var b0 := udp[..];
      CopyBytes(udp, 0, SMA_SIGNATURE);
      ghost var b1 := udp[..];
      var tag0 := |SMA_SIGNATURE|;
      SetTagHeader(udp, tag0, 4, SMA_TAG_GROUP_ID);
      ghost var b2 := udp[..];
      SetUint32BigEndian(udp, tag0 + TAG_HEADER_LENGTH, group);
      Appended(b1, tag0, TagHeader(4, SMA_TAG_GROUP_ID), b2, BigEndian32(group), udp[..]);
      Appended(b0, 0, SMA_SIGNATURE, b1, TagBytes(TagPacket(SMA_TAG_GROUP_ID, BigEndian32(group))), udp[..]);
      LengthRead(udp[..], tag0, 4, SMA_TAG_GROUP_ID);
      next := tag0 + TotalLength(udp[..], tag0);
    }

    /** The headers of the group tag and of the data2 tag behind the signature. */
    method SetHeaders(group: U32, length: U16) returns (data2: nat)
      requires udp.Length >= DefaultTotalLength(length)
      modifies udp
      ensures Bytes() == Overwritten(old(Bytes()), 0, Headers(group, length))
      ensures data2 == 12 && FirstTag(Bytes(), SMA_TAG_DATA2) == Some(data2)
    {
      hide BigEndian32, TagBytes, TagHeader, FirstTag;
      ghost var b0, start := udp[..], SMA_SIGNATURE + TagBytes(TagPacket(SMA_TAG_GROUP_ID, BigEndian32(group)));
      data2 := SetSignatureAndGroup(group);
      ghost var b1 := udp[..];
      SetTagHeader(udp, data2, length, SMA_TAG_DATA2);
      Appended(b0, 0, start, b1, TagHeader(length, SMA_TAG_DATA2), udp[..]);
      Data2Found(udp[..], group, length);
    }

    /** The default header of a packet with `length` bytes in its data2 tag. */
    method SetDefaultHeader(group: U32, length: U16, protocolId: U16)
      requires udp.Length >= DefaultTotalLength(length)
      modifies udp
      ensures Bytes() == DefaultHeader(old(Bytes()), group, length, protocolId)
    {
      hide BigEndian16, IsEarliest, TotalLength, FirstTag, DefaultFields, Headers, DefaultHeader, TagHeader, Overwritten, Tags;
      ghost var fields := BigEndian16(protocolId) + DefaultFields(length, protocolId);
      ghost var b0 := udp[..];
      var data2 := SetHeaders(group, length);
      var packet := FindTagPacket(SMA_TAG_DATA2);
      ghost var b1 := udp[..];
      SetData2Fields(udp, packet.value, length, protocolId);
      Appended(b0, 0, Headers(group, length), b1, fields, udp[..]);
      HeadersRead(b0, group, length, fields);
      var eod := data2 + TotalLength(udp[..], data2);
      ghost var b2 := udp[..];
      SetTagHeader(udp, eod, 0, SMA_TAG_END_OF_DATA);
      DefaultHeaderIs(b0, group, length, protocolId, b2, udp[..]);
    }
  }
}

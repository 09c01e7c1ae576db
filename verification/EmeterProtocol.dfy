/**
 * The emeter part of a packet: susy id, serial number and time, followed by OBIS elements of four header bytes
 * (channel, index, type, tariff) and a value whose size the header determines.
 */
module EmeterProtocol {
  import opened Words
  import opened ByteEncoding
  import opened SpeedwireHeaders

  const SMA_SUSY_ID_OFFSET: nat := 0
  const SMA_SERIAL_NUMBER_OFFSET: nat := 2
  const SMA_TIME_OFFSET: nat := 6
  const SMA_FIRST_OBIS_OFFSET: nat := 10
  const SMA_FIRMWARE_VERSION_CHANNEL: U8 := 144
  const OBIS_HEADER_LENGTH: nat := 4

  // ----- OBIS elements in a payload -----

  function ObisChannel(p: seq<U8>, o: nat): U8
    requires o + OBIS_HEADER_LENGTH <= |p|
  {
    p[o]
  }

  function ObisType(p: seq<U8>, o: nat): U8
    requires o + OBIS_HEADER_LENGTH <= |p|
  {
    p[o + 2]
  }

  /** The type is the size of the value; the firmware version has type 0 but a value of four bytes. */
  function ObisLength(p: seq<U8>, o: nat): (length: nat)
    requires o + OBIS_HEADER_LENGTH <= |p|
    ensures OBIS_HEADER_LENGTH <= length < OBIS_HEADER_LENGTH + 0x100
  {
    if ObisChannel(p, o) == SMA_FIRMWARE_VERSION_CHANNEL then 8 else OBIS_HEADER_LENGTH + ObisType(p, o)
  }

  predicate Complete(p: seq<U8>, o: nat) {
    o + OBIS_HEADER_LENGTH <= |p| && o + ObisLength(p, o) <= |p|
  }

  /** The first element begins at a fixed offset; that it is complete is not checked. */
  function FirstObis(p: seq<U8>): Option<nat> {
    if SMA_FIRST_OBIS_OFFSET > |p| then None else Some(SMA_FIRST_OBIS_OFFSET)
  }

  /** The element behind the one at `o`, if it is complete. */
  function NextObis(p: seq<U8>, o: nat): (next: Option<nat>)
    requires o + OBIS_HEADER_LENGTH <= |p|
    ensures next.Some? ==> next.value >= o + OBIS_HEADER_LENGTH && Complete(p, next.value)
  {
    var next := o + ObisLength(p, o);
    if next + OBIS_HEADER_LENGTH > |p| then None
    else if next + ObisLength(p, next) > |p| then None
    else Some(next)
  }

  /** The offsets that a walk hands out, from an element whose header is inside the payload to where there is no
      next element. The first element may be cut by the end of the payload. */
  function Walk(p: seq<U8>, o: nat): (offsets: seq<nat>)
    requires o + OBIS_HEADER_LENGTH <= |p|
    ensures offsets != [] && offsets[0] == o
    decreases |p| - o
  {
    [o] + if NextObis(p, o).Some? then Walk(p, NextObis(p, o).value) else []
  }

  /** On arbitrary bytes: every step advances by at least four bytes, every header is inside the payload, and every
      element is complete except that the first one may be cut. */
  lemma {:induction false} WalkBounded(p: seq<U8>, o: nat, k: nat)
    requires o + OBIS_HEADER_LENGTH <= |p| && k < |Walk(p, o)|
    ensures o + OBIS_HEADER_LENGTH * k <= Walk(p, o)[k] <= |p| - OBIS_HEADER_LENGTH
    ensures Complete(p, Walk(p, o)[k]) <==> k > 0 || Complete(p, o)
    decreases k
  {
    hide ObisLength;
    if k == 0 {
    } else {
      var next := NextObis(p, o).value;
      WalkBounded(p, next, k - 1);
      assert Walk(p, o)[k] == Walk(p, next)[k - 1];
    }
  }

  /** On arbitrary bytes: the elements follow each other without gap or overlap, until no complete one is left. */
  lemma {:induction false} WalkExact(p: seq<U8>, o: nat, k: nat)
    requires o + OBIS_HEADER_LENGTH <= |p| && k < |Walk(p, o)|
    requires Walk(p, o)[k] + OBIS_HEADER_LENGTH <= |p|
    ensures var end := Walk(p, o)[k] + ObisLength(p, Walk(p, o)[k]);
            if k + 1 < |Walk(p, o)| then Walk(p, o)[k + 1] == end else !Complete(p, end)
    decreases k
  {
    hide ObisLength;
    if k == 0 {
    } else {
      WalkExact(p, NextObis(p, o).value, k - 1);
    }
  }

  /** No element that a walk over the payload hands out, from the first one on, goes beyond the payload. */
  ghost predicate WalkStaysInside(p: seq<U8>) {
    match FirstObis(p)
    case None => true
    case Some(o) =>
      && o + OBIS_HEADER_LENGTH <= |p|
      && forall k :: 0 <= k < |Walk(p, o)| ==> Complete(p, Walk(p, o)[k])
  }

  /** The exact condition: the payload is too short for a first element, or it contains the header of the first
      element and as many value bytes as this header announces. Payloads of 10 to 13 bytes never meet it. */
  lemma WalkStaysInsideExactly(p: seq<U8>)
    ensures WalkStaysInside(p) <==>
            || |p| < 10
            || (|p| >= 14 && |p| >= if p[10] == SMA_FIRMWARE_VERSION_CHANNEL then 18 else 14 + p[12] as int)
  {
    hide Walk;
    var o := SMA_FIRST_OBIS_OFFSET;
    if |p| >= 14 {
      forall k | 0 <= k < |Walk(p, o)|
        ensures Complete(p, Walk(p, o)[k]) <==> k > 0 || Complete(p, o)
      {
        WalkBounded(p, o, k);
      }
      assert Walk(p, o)[0] == o;
    }
  }

  /** The elements of a walk from a complete first element. */
  function Elements(p: seq<U8>, o: nat): (elements: seq<seq<U8>>)
    requires Complete(p, o)
    decreases |p| - o
  {
    [p[o..o + ObisLength(p, o)]] + if NextObis(p, o).Some? then Elements(p, NextObis(p, o).value) else []
  }

  /** They are what stands at the offsets of the walk. */
  lemma {:induction false} ElementsOfWalk(p: seq<U8>, o: nat, k: nat)
    requires Complete(p, o) && k < |Walk(p, o)|
    ensures |Elements(p, o)| == |Walk(p, o)| && Complete(p, Walk(p, o)[k])
    ensures var at := Walk(p, o)[k]; Elements(p, o)[k] == p[at..at + ObisLength(p, at)]
    decreases |p| - o
  {
    hide ObisLength;
    if NextObis(p, o).None? {
    } else {
      var next := NextObis(p, o).value;
      ElementsOfWalk(p, next, if k == 0 then 0 else k - 1);
    }
  }

  /** An element whose own header gives its size. */
  predicate IsElement(e: seq<U8>) {
    |e| >= OBIS_HEADER_LENGTH && |e| == ObisLength(e, 0)
  }

  /** The element that `obis` begins with. */
  function Trimmed(obis: seq<U8>): (e: seq<U8>)
    requires Complete(obis, 0)
    ensures IsElement(e) && |e| == ObisLength(obis, 0)
  {
    obis[..ObisLength(obis, 0)]
  }

  predicate AreElements(es: seq<seq<U8>>) {
    forall k :: 0 <= k < |es| ==> IsElement(es[k])
  }

  function Joined(es: seq<seq<U8>>): seq<U8> {
    if es == [] then [] else es[0] + Joined(es[1..])
  }

  lemma ElementsStep(p: seq<U8>, o: nat)
    requires Complete(p, o)
    ensures var next := o + ObisLength(p, o);
            Elements(p, o) == [p[o..next]] + if Complete(p, next) then Elements(p, next) else []
  {
  }

  /** The walk takes well-formed elements that are, one after the other, the bytes of the payload up to where no
      complete element is left. */
  lemma {:induction false} ElementsExact(p: seq<U8>, o: nat)
    requires Complete(p, o)
    ensures AreElements(Elements(p, o))
    ensures var end := o + |Joined(Elements(p, o))|;
            end <= |p| && p[o..end] == Joined(Elements(p, o)) && !Complete(p, end)
    decreases |p| - o
  {
    hide Elements, ObisLength;
    var next := o + ObisLength(p, o);
    var first := p[o..next];
    assert first[0..OBIS_HEADER_LENGTH] == p[o..o + OBIS_HEADER_LENGTH];
    SameElement(p, o, first, 0);
    ElementsStep(p, o);
    if Complete(p, next) {
      ElementsExact(p, next);
      JoinedBehind(first, Elements(p, next));
      assert p[o..next + |Joined(Elements(p, next))|] == first + p[next..next + |Joined(Elements(p, next))|];
    } else {
      JoinedBehind(first, []);
    }
  }

  lemma JoinedBehind(e: seq<U8>, es: seq<seq<U8>>)
    ensures Joined([e] + es) == e + Joined(es)
  {
  }

  lemma SameElement(p: seq<U8>, o: nat, q: seq<U8>, i: nat)
    requires o + OBIS_HEADER_LENGTH <= |p| && i + OBIS_HEADER_LENGTH <= |q|
    requires p[o..o + OBIS_HEADER_LENGTH] == q[i..i + OBIS_HEADER_LENGTH]
    ensures ObisLength(p, o) == ObisLength(q, i)
  {
    var header := p[o..o + OBIS_HEADER_LENGTH];
    assert header[0] == p[o] == q[i] && header[2] == p[o + 2] == q[i + 2];
  }

  // ----- writing elements -----

  datatype Written = Written(payload: seq<U8>, next: nat)

  /** The element written at `o`, and where the next one goes; None if it does not fit. */
  function SetObis(p: seq<U8>, o: nat, e: seq<U8>): Option<Written>
    requires IsElement(e)
  {
    if o + |e| > |p| then None else Some(Written(Overwritten(p, o, e), o + |e|))
  }

  /** Elements written one after the other, each where the one before it ended. */
  function SetAll(p: seq<U8>, o: nat, es: seq<seq<U8>>): Option<Written>
    requires AreElements(es)
    decreases |es|
  {
    if es == [] then Some(Written(p, o))
    else
      match SetObis(p, o, es[0])
      case None => None
      case Some(w) => SetAll(w.payload, w.next, es[1..])
  }

  lemma NothingWritten(p: seq<U8>, o: nat)
    requires o <= |p|
    ensures Overwritten(p, o, []) == p
  {
  }

  /** The chain of writes succeeds exactly if all elements fit, and leaves every other byte as it was. */
  lemma {:induction false} ChainExact(p: seq<U8>, o: nat, es: seq<seq<U8>>)
    requires AreElements(es) && o <= |p|
    ensures SetAll(p, o, es).Some? <==> o + |Joined(es)| <= |p|
    ensures SetAll(p, o, es).Some? ==>
              SetAll(p, o, es) == Some(Written(Overwritten(p, o, Joined(es)), o + |Joined(es)|))
    decreases |es|
  {
    hide ObisLength, IsElement, Overwritten;
    if es == [] {
      NothingWritten(p, o);
    } else if o + |es[0]| <= |p| {
      var q, next := Overwritten(p, o, es[0]), o + |es[0]|;
      ChainExact(q, next, es[1..]);
      if next + |Joined(es[1..])| <= |p| {
        Appended(p, o, es[0], q, Joined(es[1..]), Overwritten(q, next, Joined(es[1..])));
      }
    }
  }

  /**
   * Reading what was written: the walk over a payload that holds the elements yields exactly these elements,
   * and goes on behind them exactly if a complete element happens to be there.
   */
  lemma {:induction false} ElementsRoundTrip(p: seq<U8>, o: nat, es: seq<seq<U8>>)
    requires AreElements(es) && es != [] && o + |Joined(es)| <= |p|
    requires p[o..o + |Joined(es)|] == Joined(es)
    ensures var end := o + |Joined(es)|;
            Complete(p, o) && Elements(p, o) == es + if Complete(p, end) then Elements(p, end) else []
    decreases |es|
  {
    hide Elements, ObisLength;
    var e, rest := es[0], es[1..];
    SliceOfSum(p, o, e, Joined(rest));
    FirstElement(p, o, e);
    ElementsStep(p, o);
    if rest == [] {
      assert es == [e] && Joined(rest) == [];
    } else {
      ElementsRoundTrip(p, o + |e|, rest);
      assert es == [e] + rest;
    }
  }

  lemma FirstElement(p: seq<U8>, o: nat, e: seq<U8>)
    requires IsElement(e) && o + |e| <= |p| && p[o..o + |e|] == e
    ensures Complete(p, o) && ObisLength(p, o) == |e|
  {
  }

  // ----- values of elements -----

  function Element4(channel: U8, index: U8, obisType: U8, tariff: U8, value: U32): (e: seq<U8>)
    ensures |e| == 8
  {
    [channel, index, obisType, tariff] + BigEndian32(value)
  }

  function Element8(channel: U8, index: U8, obisType: U8, tariff: U8, value: U64): (e: seq<U8>)
    ensures |e| == 12
  {
    [channel, index, obisType, tariff] + BigEndian64(value)
  }

  function ObisValue4(p: seq<U8>, o: nat): U32
    requires o + OBIS_HEADER_LENGTH + 4 <= |p|
  {
    GetUint32BigEndian(p, o + OBIS_HEADER_LENGTH)
  }

  function ObisValue8(p: seq<U8>, o: nat): U64
    requires o + OBIS_HEADER_LENGTH + 8 <= |p|
  {
    GetUint64BigEndian(p, o + OBIS_HEADER_LENGTH)
  }

  /** Which headers announce a value of four and of eight bytes. */
  lemma ValueSizes(channel: U8, index: U8, obisType: U8, tariff: U8, v: U32, w: U64)
    ensures IsElement(Element4(channel, index, obisType, tariff, v)) <==>
            channel == SMA_FIRMWARE_VERSION_CHANNEL || obisType == 4
    ensures IsElement(Element8(channel, index, obisType, tariff, w)) <==>
            channel != SMA_FIRMWARE_VERSION_CHANNEL && obisType == 8
  {
  }

  /** A value reads back wherever its element stands in a payload. */
  lemma ValuesReadBack(p: seq<U8>, o: nat, channel: U8, index: U8, obisType: U8, tariff: U8, v: U32, w: U64)
    ensures o + 8 <= |p| && p[o..o + 8] == Element4(channel, index, obisType, tariff, v) ==> ObisValue4(p, o) == v
    ensures o + 12 <= |p| && p[o..o + 12] == Element8(channel, index, obisType, tariff, w) ==> ObisValue8(p, o) == w
  {
    hide BigEndian32, BigEndian64, GetUint32BigEndian, GetUint64BigEndian;
    if o + 8 <= |p| && p[o..o + 8] == Element4(channel, index, obisType, tariff, v) {
      assert p[o + 4..o + 8] == p[o..o + 8][4..] == BigEndian32(v);
      SameBytesSameValue(p, o + 4, BigEndian32(v), 0, 4);
      BigEndianValue(v);
    }
    if o + 12 <= |p| && p[o..o + 12] == Element8(channel, index, obisType, tariff, w) {
      assert p[o + 4..o + 12] == p[o..o + 12][4..] == BigEndian64(w);
      SameBytesSameValue(p, o + 4, BigEndian64(w), 0, 8);
      RoundTrip64(BigEndian64(w), 0, w);
      assert Overwritten(BigEndian64(w), 0, BigEndian64(w)) == BigEndian64(w);
    }
  }

  // ----- a whole emeter packet -----

  /** The payload after the identification, the time and a chain of elements were set. */
  function FilledPayload(p: seq<U8>, susyId: U16, serialNumber: U32, time: U32, es: seq<seq<U8>>): Option<Written>
    requires |p| >= SMA_FIRST_OBIS_OFFSET && AreElements(es)
  {
    var p1 := Overwritten(p, SMA_SUSY_ID_OFFSET, BigEndian16(susyId));
    var p2 := Overwritten(p1, SMA_SERIAL_NUMBER_OFFSET, BigEndian32(serialNumber));
    var p3 := Overwritten(p2, SMA_TIME_OFFSET, BigEndian32(time));
    SetAll(p3, SMA_FIRST_OBIS_OFFSET, es)
  }

  /** Elements that exactly fill the payload read back, one by one and no more, next to the other fields. */
  lemma FilledPayloadReadsBack(p: seq<U8>, susyId: U16, serialNumber: U32, time: U32, es: seq<seq<U8>>)
    requires AreElements(es) && es != [] && |p| == SMA_FIRST_OBIS_OFFSET + |Joined(es)|
    ensures FilledPayload(p, susyId, serialNumber, time, es).Some?
    ensures var r := FilledPayload(p, susyId, serialNumber, time, es).value.payload;
            && |r| == |p|
            && FirstObis(r) == Some(10) && Complete(r, 10) && Elements(r, 10) == es
            && GetUint16BigEndian(r, 0) == susyId
            && GetUint32BigEndian(r, 2) == serialNumber
            && GetUint32BigEndian(r, 6) == time
  {
    hide BigEndian16, BigEndian32, GetUint16BigEndian, GetUint32BigEndian, Elements, SetAll, ObisLength, Joined, AreElements;
    var p1 := Overwritten(p, SMA_SUSY_ID_OFFSET, BigEndian16(susyId));
    var p2 := Overwritten(p1, SMA_SERIAL_NUMBER_OFFSET, BigEndian32(serialNumber));
    var p3 := Overwritten(p2, SMA_TIME_OFFSET, BigEndian32(time));
    ChainExact(p3, SMA_FIRST_OBIS_OFFSET, es);
    var r := FilledPayload(p, susyId, serialNumber, time, es).value.payload;
    ElementsRoundTrip(r, SMA_FIRST_OBIS_OFFSET, es);
    assert r[0..2] == p1[0..2] == BigEndian16(susyId);
    assert r[2..6] == p2[2..6] == BigEndian32(serialNumber);
    assert r[6..10] == p3[6..10] == BigEndian32(time);
    BigEndianValue16(susyId);
    BigEndianValue(serialNumber);
    BigEndianValue(time);
    SameBytesSameValue(r, 0, BigEndian16(susyId), 0, 2);
    SameBytesSameValue(r, 2, BigEndian32(serialNumber), 0, 4);
    SameBytesSameValue(r, 6, BigEndian32(time), 0, 4);
  }

  /**
   * Whatever is written to the payload behind a default header, of either emeter protocol or any other, the packet
   * stays one that the full check accepts exactly if no tag fits behind it; the protocol id and the fields behind it
   * are kept, and the payload is found where it was written.
   */
  lemma PayloadKeepsHeader(b: seq<U8>, group: U32, length: U16, protocolId: U16, payload: seq<U8>)
    requires |b| >= DefaultTotalLength(length)
    requires TAG_HEADER_LENGTH + length == PayloadOffset(protocolId) + |payload|
    ensures var at, fields := 12 + PayloadOffset(protocolId), DefaultFields(length, protocolId);
            var r := Overwritten(DefaultHeader(b, group, length, protocolId), at, payload);
            && (IsFullData2(r) <==> !Fits(b[20 + length..], 0))
            && FirstTag(r, SMA_TAG_DATA2) == Some(12) && TotalLength(r, 12) == TAG_HEADER_LENGTH + length
            && ProtocolId(r, 12) == protocolId
            && r[18..at] == fields
            && r[at..12 + TotalLength(r, 12)] == payload
  {
    hide DefaultHeader, BigEndian32, PacketBytes, Data2Tags, IsFullData2, TagBytes, BigEndian16, Fits, ProtocolId;
    var at, fields, rest := 12 + PayloadOffset(protocolId), DefaultFields(length, protocolId), b[20 + length..];
    var h := DefaultHeader(b, group, length, protocolId);
    var r := Overwritten(h, at, payload);
    var inner := BigEndian16(protocolId) + fields + payload;
    DefaultHeaderParts(b, group, length, protocolId);
    Data2PacketBytes(BigEndian32(group), inner);
    assert at == 18 + |fields|;
    DataTagBytes(r, h, length, BigEndian16(protocolId) + fields, payload);
    assert r[..4] == h[..4] && r[4..12] == h[4..12] && r[16 + length..] == h[16 + length..];
    PacketFromParts(r, length, BigEndian32(group), inner, rest);
    EncodedPacketAccepted(BigEndian32(group), inner, rest);
    TagsBehindGroup(r, SMA_TAG_DATA2);
    assert r[16..18] == r[16..at][..2] == BigEndian16(protocolId);
    ProtocolIdRead(r, protocolId);
    assert r[18..at] == r[16..at][2..] == fields;
  }

  lemma ProtocolIdRead(r: seq<U8>, protocolId: U16)
    requires |r| >= 18 && r[16..18] == BigEndian16(protocolId)
    ensures ProtocolId(r, 12) == protocolId
  {
    BigEndianValue16(protocolId);
    SameBytesSameValue(r, 16, BigEndian16(protocolId), 0, 2);
  }

  lemma PacketFromParts(r: seq<U8>, length: U16, group: seq<U8>, inner: seq<U8>, rest: seq<U8>)
    requires |r| >= DefaultTotalLength(length) && |group| == 4 && |inner| == length
    requires r[..4] == SMA_SIGNATURE && r[4..12] == TagBytes(TagPacket(SMA_TAG_GROUP_ID, group))
    requires r[12..16 + length] == TagBytes(TagPacket(SMA_TAG_DATA2, inner))
    requires r[16 + length..20 + length] == TagBytes(END_OF_DATA) && r[20 + length..] == rest
    ensures r == PacketBytes(Data2Tags(group, inner)) + rest
  {
    hide PacketBytes, Data2Tags, TagBytes;
    Data2PacketBytes(group, inner);
    assert r == r[..4] + r[4..12] + r[12..16 + length] + r[16 + length..20 + length] + r[20 + length..];
  }

  lemma DataTagBytes(r: seq<U8>, h: seq<U8>, length: U16, front: seq<U8>, payload: seq<U8>)
    requires 16 + length <= |h| && |front| + |payload| == length && h[12..16] == TagHeader(length, SMA_TAG_DATA2)
    requires h[16..16 + |front|] == front && r == Overwritten(h, 16 + |front|, payload)
    ensures r[12..16 + length] == TagBytes(TagPacket(SMA_TAG_DATA2, front + payload)) && r[16..16 + |front|] == front
  {
    hide TagHeader;
    assert r[12..16] == h[12..16] && r[16..16 + |front|] == h[16..16 + |front|];
    assert r[12..16 + length] == r[12..16] + (r[16..16 + |front|] + r[16 + |front|..16 + length]);
  }

  // ----- an emeter payload in a packet buffer -----

  /** `b` with `bytes` written at `o` of the payload, which begins at `start` and has `size` bytes. */
  lemma PayloadOverwritten(b: seq<U8>, start: nat, size: nat, o: nat, bytes: seq<U8>)
    requires start + size <= |b| && o + |bytes| <= size
    ensures var c := Overwritten(b, start + o, bytes);
            && c[start..start + size] == Overwritten(b[start..start + size], o, bytes)
            && c[..start] == b[..start] && c[start + size..] == b[start + size..]
  {
  }

  class SpeedwireEmeterProtocol {
    const udp: array<U8>
    const start: nat
    const size: nat

    predicate Valid() {
      start + size <= udp.Length
    }

    function Payload(): (p: seq<U8>)
      requires Valid()
      reads udp
      ensures |p| == size
    {
      udp[start..start + size]
    }

    /** No byte outside the payload changed. */
    twostate predicate OnlyPayload()
      requires Valid()
      reads udp
    {
      udp[..start] == old(udp[..start]) && udp[start + size..] == old(udp[start + size..])
    }

    /** The payload begins behind the header fields of the first data2 tag and ends with the tag. If the tag has no
        space for the fields, its size wraps around. */
    constructor (header: SpeedwireHeader)
      requires HasData2Tag(header.Bytes())
      ensures udp == header.udp
      ensures var data2 := FirstTag(header.Bytes(), SMA_TAG_DATA2).value;
              var payloadOffset := PayloadOffset(ProtocolId(header.Bytes(), data2));
              && start == data2 + payloadOffset
              && (payloadOffset <= TotalLength(header.Bytes(), data2) ==>
                    Valid() && start + size == data2 + TotalLength(header.Bytes(), data2))
              && (header.udp.Length < TWO_63 ==> (Valid() <==> payloadOffset <= TotalLength(header.Bytes(), data2)))
    {
      var data2 := header.FindTagPacket(SMA_TAG_DATA2);
      var payloadOffset := PayloadOffset(ProtocolId(header.udp[..], data2.value));
      udp := header.udp;
      start := data2.value + payloadOffset;
      size := (TotalLength(header.udp[..], data2.value) - payloadOffset) % TWO_64;
    }

    method SetSusyId(susyId: U16)
      requires Valid() && size >= SMA_SUSY_ID_OFFSET + 2
      modifies udp
      ensures Payload() == Overwritten(old(Payload()), SMA_SUSY_ID_OFFSET, BigEndian16(susyId)) && OnlyPayload()
    {
      hide BigEndian16;
      PayloadOverwritten(udp[..], start, size, SMA_SUSY_ID_OFFSET, BigEndian16(susyId));
      SetUint16BigEndian(udp, start + SMA_SUSY_ID_OFFSET, susyId);
    }

    method SetSerialNumber(serialNumber: U32)
      requires Valid() && size >= SMA_SERIAL_NUMBER_OFFSET + 4
      modifies udp
      ensures Payload() == Overwritten(old(Payload()), SMA_SERIAL_NUMBER_OFFSET, BigEndian32(serialNumber)) && OnlyPayload()
    {
      hide BigEndian32;
      PayloadOverwritten(udp[..], start, size, SMA_SERIAL_NUMBER_OFFSET, BigEndian32(serialNumber));
      SetUint32BigEndian(udp, start + SMA_SERIAL_NUMBER_OFFSET, serialNumber);
    }

    method SetTime(time: U32)
      requires Valid() && size >= SMA_TIME_OFFSET + 4
      modifies udp
      ensures Payload() == Overwritten(old(Payload()), SMA_TIME_OFFSET, BigEndian32(time)) && OnlyPayload()
    {
      hide BigEndian32;
      PayloadOverwritten(udp[..], start, size, SMA_TIME_OFFSET, BigEndian32(time));
      SetUint32BigEndian(udp, start + SMA_TIME_OFFSET, time);
    }

    method GetFirstObisElement() returns (first: Option<nat>)
      requires Valid()
      ensures first == FirstObis(Payload())
    {
      first := if SMA_FIRST_OBIS_OFFSET > size then None else Some(SMA_FIRST_OBIS_OFFSET);
    }

    method GetNextObisElement(current: nat) returns (next: Option<nat>)
      requires Valid() && current + OBIS_HEADER_LENGTH <= size
      ensures next == NextObis(Payload(), current)
    {
      var element := current + ObisLength(Payload(), current);
      if element + OBIS_HEADER_LENGTH > size {
        return None;
      }
      if element + ObisLength(Payload(), element) > size {
        return None;
      }
      return Some(element);
    }

    method PutBytes(o: nat, bytes: seq<U8>)
      requires Valid() && o + |bytes| <= size
      modifies udp
      ensures Payload() == Overwritten(old(Payload()), o, bytes) && OnlyPayload()
    {
      hide Overwritten;
      PayloadOverwritten(udp[..], start, size, o, bytes);
      CopyBytes(udp, start + o, bytes);
    }

    /** Copies an element to `current`; `obis` may be longer than the element that it begins with. */
    method SetObisElement(current: nat, obis: seq<U8>) returns (next: Option<nat>)
      requires Valid() && Complete(obis, 0)
      modifies udp
      ensures OnlyPayload()
      ensures match SetObis(old(Payload()), current, Trimmed(obis))
              case None => next == None && Payload() == old(Payload())
              case Some(w) => next == Some(w.next) && Payload() == w.payload
    {
      hide ObisLength, IsElement, Complete;
      var element := Trimmed(obis);
      if current + |element| > size {
        return None;
      }
      PutBytes(current, element);
      return Some(current + |element|);
    }
  }
}

/**
 * Packet ids, the repository of tokens for commands that wait for their reply, and the life of a token in
 * a synchronous query. Time, socket results and received packets are parameters.
 */
module CommandTokens {
  import opened Words
  import opened Sequences
  import opened Division

  // ----- packet ids -----

  /** The bitwise or with 0x8000, for values below 0x10000. */
  function SetBit15(x: nat): nat
    requires x < 0x1_0000
  {
    if x < 0x8000 then x + 0x8000 else x
  }

  /** (packet_id + 1) | 0x8000, truncated to 16 bits: the carry out of bit 15 is lost, bit 15 is set. */
  function IncrementedPacketID(id: U16): U16 {
    SetBit15((id + 1) % 0x1_0000)
  }

  /** The id with sequence number n; the initial id 0x8001 has number 1. */
  function PacketID(n: nat): U16 { 0x8000 + n % 0x8000 }

  /** The id after `k` increments. */
  function Increments(id: U16, k: nat): U16 {
    if k == 0 then id else IncrementedPacketID(Increments(id, k - 1))
  }

  lemma IncrementIsNext(n: nat)
    ensures IncrementedPacketID(PacketID(n)) == PacketID(n + 1)
  {
  }

  lemma {:induction false} IncrementsAreNumbered(n: nat, k: nat)
    ensures Increments(PacketID(n), k) == PacketID(n + k)
  {
    if k == 0 {
    } else {
      IncrementsAreNumbered(n, k - 1);
      IncrementIsNext(n + k - 1);
    }
  }

  /** From any id in 0x8000 .. 0xffff the ids come back after 32768 increments and not before, and on the
      way they take every value in that range. */
  lemma IncrementsCycle(id: U16, k: nat, other: U16)
    requires id >= 0x8000 && other >= 0x8000
    ensures Increments(id, k) >= 0x8000
    ensures Increments(id, k) == id <==> k % 0x8000 == 0
    ensures Increments(id, (other - id) % 0x8000) == other
  {
    hide Increments;
    var n := id - 0x8000;
    assert PacketID(n) == id;
    IncrementsAreNumbered(n, k);
    IncrementsAreNumbered(n, (other - id) % 0x8000);
    AroundTheCycle(n, k);
    HalfwayAroundTheCycle(n, other - 0x8000);
  }

  lemma AroundTheCycle(n: nat, k: nat)
    requires n < 0x8000
    ensures (n + k) % 0x8000 == n <==> k % 0x8000 == 0
  {
  }

  lemma HalfwayAroundTheCycle(n: nat, m: nat)
    requires n < 0x8000 && m < 0x8000
    ensures (n + (m - n) % 0x8000) % 0x8000 == m
  {
  }

  // ----- tokens -----

  datatype Token = Token(
    susyid: U16,
    serialnumber: U32,
    packetid: U16,
    peerIp: string,
    command: U32,
    createTime: U32)

  predicate TokenMatches(t: Token, susyid: U16, serialnumber: U32, packetid: U16) {
    t.susyid == susyid && t.serialnumber == serialnumber && t.packetid == SetBit15(packetid)
  }

  /** The first matching token, or -1. */
  function FindIndex(tokens: seq<Token>, susyid: U16, serialnumber: U32, packetid: U16): (index: int)
    ensures -1 <= index < |tokens|
    ensures index >= 0 ==> TokenMatches(tokens[index], susyid, serialnumber, packetid)
    ensures forall j :: 0 <= j < (if index >= 0 then index else |tokens|) ==>
              !TokenMatches(tokens[j], susyid, serialnumber, packetid)
  {
    if tokens == [] then -1
    else if TokenMatches(tokens[0], susyid, serialnumber, packetid) then 0
    else
      var rest := FindIndex(tokens[1..], susyid, serialnumber, packetid);
      if rest < 0 then -1 else rest + 1
  }

  function Removed<T>(s: seq<T>, index: int): seq<T> {
    if 0 <= index < |s| then s[..index] + s[index + 1..] else s
  }

  /** Putting the removed element back restores the sequence; outside the sequence there is nothing to remove. */
  lemma RemovedExact<T>(s: seq<T>, index: int)
    ensures var r := Removed(s, index);
            if 0 <= index < |s| then |r| == |s| - 1 && r[..index] + [s[index]] + r[index..] == s else r == s
  {
  }

  predicate IsExpired(t: Token, now: U32, timeout: U32) { (now - t.createTime) % TWO_32 > timeout }

  /** A token is expired if and only if it is older than the timeout, unless it is 2^32 milliseconds old or more and its
      age modulo 2^32 is within the timeout: then it is kept. */
  lemma ExpiryExact(t: Token, created: int, now: int, timeout: U32)
    requires t.createTime == created % TWO_32 && created <= now
    ensures (IsExpired(t, now % TWO_32, timeout) <==> now - created > timeout)
       <==> now - created < TWO_32 || (now - created) % TWO_32 > timeout
  {
    AddMultiple(now - created, created / TWO_32 - now / TWO_32, TWO_32);
    assert now % TWO_32 - t.createTime == now - created + TWO_32 * (created / TWO_32 - now / TWO_32);
  }

  /** All tokens that are not expired, in order. */
  function Unexpired(tokens: seq<Token>, now: U32, timeout: U32): (r: seq<Token>)
    ensures |r| <= |tokens|
  {
    if tokens == [] then []
    else (if IsExpired(tokens[0], now, timeout) then [] else [tokens[0]]) + Unexpired(tokens[1..], now, timeout)
  }

  /** By their true age: of tokens that were created less than 2^32 milliseconds ago, those that are not older than the
      timeout remain. */
  lemma {:induction false} UnexpiredByAge(tokens: seq<Token>, created: seq<int>, now: int, timeout: U32, t: Token)
    requires |created| == |tokens|
    requires forall i :: 0 <= i < |tokens| ==>
               tokens[i].createTime == created[i] % TWO_32 && 0 <= now - created[i] < TWO_32
    ensures t in Unexpired(tokens, now % TWO_32, timeout) <==>
            exists i :: 0 <= i < |tokens| && tokens[i] == t && now - created[i] <= timeout
  {
    hide IsExpired;
    if tokens == [] {
    } else {
      ExpiryExact(tokens[0], created[0], now, timeout);
      UnexpiredByAge(tokens[1..], created[1..], now, timeout, t);
      assert forall i :: 0 < i < |tokens| ==> tokens[i] == tokens[1..][i - 1];
    }
  }

  // ----- every run of the repository -----

  /** A packet id may be issued without a token, for example for a discovery request. */
  datatype Operation =
    | Issue
    | Open(susyid: U16, serialnumber: U32, peerIp: string, command: U32, now: U32)
    | Remove(index: int)
    | Expire(now: U32, timeout: U32)
    | Clear

  /** The tokens, the sequence numbers of their packet ids, and the number of the last issued id. */
  datatype Repository = Repository(tokens: seq<Token>, numbers: seq<nat>, issued: nat)

  function Surviving(tokens: seq<Token>, numbers: seq<nat>, now: U32, timeout: U32): seq<nat>
    requires |tokens| == |numbers|
  {
    if tokens == [] then []
    else (if IsExpired(tokens[0], now, timeout) then [] else [numbers[0]])
         + Surviving(tokens[1..], numbers[1..], now, timeout)
  }

  function Apply(r: Repository, op: Operation): Repository
    requires |r.tokens| == |r.numbers|
  {
    match op
    case Issue => r.(issued := r.issued + 1)
    case Open(susyid, serialnumber, peerIp, command, now) =>
      var n := r.issued + 1;
      Repository(r.tokens + [Token(susyid, serialnumber, PacketID(n), peerIp, command, now)], r.numbers + [n], n)
    case Remove(index) => r.(tokens := Removed(r.tokens, index), numbers := Removed(r.numbers, index))
    case Expire(now, timeout) =>
      r.(tokens := Unexpired(r.tokens, now, timeout), numbers := Surviving(r.tokens, r.numbers, now, timeout))
    case Clear => r.(tokens := [], numbers := [])
  }

  class TokenRepository {
    var token: seq<Token>
    var needsLogin: bool
    ghost var numbers: seq<nat>   // the sequence numbers of the packet ids of the tokens
    ghost var issued: nat         // the sequence number of the last packet id that was issued

    ghost predicate Valid()
      reads this
    {
      |numbers| == |token|
    }

    ghost function Snapshot(): Repository
      reads this
    {
      Repository(token, numbers, issued)
    }

    constructor (ghost issued: nat)
      ensures Valid() && Snapshot() == Repository([], [], issued) && !needsLogin
    {
      token, needsLogin, numbers, this.issued := [], false, [], issued;
    }

    /** The token is for the packet id that was issued last. */
    method Add(susyid: U16, serialnumber: U32, packetid: U16, peerIp: string, command: U32, now: U32) returns (index: int)
      requires Valid()
      modifies `token, `numbers
      ensures Valid() && index == |old(token)|
      ensures token == old(token) + [Token(susyid, serialnumber, packetid, peerIp, command, now)]
      ensures numbers == old(numbers) + [issued]
    {
      token, numbers := token + [Token(susyid, serialnumber, packetid, peerIp, command, now)], numbers + [issued];
      index := |token| - 1;
    }

    method Remove(index: int)
      requires Valid()
      modifies `token, `numbers
      ensures Valid() && Snapshot() == Apply(old(Snapshot()), Operation.Remove(index))
    {
      for i := 0 to |token|
        invariant Snapshot() == old(Snapshot()) && !(0 <= index < i)
      {
        if i == index {
          token, numbers := token[..i] + token[i + 1..], numbers[..i] + numbers[i + 1..];
          break;
        }
      }
    }

    method Find(susyid: U16, serialnumber: U32, packetid: U16) returns (index: int)
      ensures index == FindIndex(token, susyid, serialnumber, packetid)
    {
      for i := 0 to |token|
        invariant forall j :: 0 <= j < i ==> !TokenMatches(token[j], susyid, serialnumber, packetid)
      {
        var t := token[i];
        if t.susyid == susyid && t.serialnumber == serialnumber && t.packetid == SetBit15(packetid) {
          return i;
        }
      }
      return -1;
    }

    method Clear()
      requires Valid()
      modifies `token, `numbers
      ensures Valid() && Snapshot() == Apply(old(Snapshot()), Operation.Clear)
    {
      token, numbers := [], [];
    }

    method Expire(timeoutInMs: int, now: U32) returns (count: nat)
      requires Valid()
      modifies `token, `numbers
      ensures Valid() && Snapshot() == Apply(old(Snapshot()), Operation.Expire(now, timeoutInMs % TWO_32))
      ensures count == |old(token)| - |token|
    {
      hide IsExpired, Unexpired, Surviving;
      var timeout := timeoutInMs % TWO_32;
      count := 0;
      var i := 0;
      assert token[0..] == token && numbers[0..] == numbers;
      while i < |token|
        invariant 0 <= i <= |token| && Valid()
        invariant token[..i] + Unexpired(token[i..], now, timeout) == Unexpired(old(token), now, timeout)
        invariant numbers[..i] + Surviving(token[i..], numbers[i..], now, timeout)
               == Surviving(old(token), old(numbers), now, timeout)
        invariant count == |old(token)| - |token|
        decreases |token| - i
      {
        ghost var t, ns := token[i..], numbers[i..];
        FirstSurvives(token[..i], numbers[..i], t, ns, now, timeout);
        if IsExpired(token[i], now, timeout) {
          token, numbers := token[..i] + token[i + 1..], numbers[..i] + numbers[i + 1..];
          assert token[i..] == t[1..] && numbers[i..] == ns[1..];
          count := count + 1;
        } else {
          assert token[..i + 1] == token[..i] + [t[0]] && numbers[..i + 1] == numbers[..i] + [ns[0]];
          i := i + 1;
        }
      }
      NoneSurvives(token[i..], numbers[i..], now, timeout);
    }
  }

  lemma NoneSurvives(tokens: seq<Token>, numbers: seq<nat>, now: U32, timeout: U32)
    requires tokens == [] && numbers == []
    ensures Unexpired(tokens, now, timeout) == [] && Surviving(tokens, numbers, now, timeout) == []
  {
  }

  /** Whether the first of the tokens stays behind those that were kept already. */
  lemma FirstSurvives(kept: seq<Token>, keptNumbers: seq<nat>, tokens: seq<Token>, numbers: seq<nat>,
                      now: U32, timeout: U32)
    requires tokens != [] && |tokens| == |numbers|
    ensures var stay := !IsExpired(tokens[0], now, timeout);
            && kept + Unexpired(tokens, now, timeout)
               == (if stay then kept + [tokens[0]] else kept) + Unexpired(tokens[1..], now, timeout)
            && keptNumbers + Surviving(tokens, numbers, now, timeout)
               == (if stay then keptNumbers + [numbers[0]] else keptNumbers)
                  + Surviving(tokens[1..], numbers[1..], now, timeout)
  {
    hide IsExpired;
    Regroup(kept, [tokens[0]], Unexpired(tokens[1..], now, timeout));
    Regroup(keptNumbers, [numbers[0]], Surviving(tokens[1..], numbers[1..], now, timeout));
  }

  /** Tokens are in the order of their packet ids. */
  ghost predicate Numbered(r: Repository) {
    && |r.tokens| == |r.numbers|
    && (forall i :: 0 <= i < |r.tokens| ==> r.tokens[i].packetid == PacketID(r.numbers[i]) && r.numbers[i] <= r.issued)
    && (forall i, j :: 0 <= i < j < |r.numbers| ==> r.numbers[i] < r.numbers[j])
  }

  lemma {:induction false} SurvivorsNumbered(r: Repository, now: U32, timeout: U32)
    requires Numbered(r)
    ensures Numbered(Repository(Unexpired(r.tokens, now, timeout), Surviving(r.tokens, r.numbers, now, timeout), r.issued))
    ensures forall n :: n in Surviving(r.tokens, r.numbers, now, timeout) ==> n in r.numbers
    decreases |r.tokens|
  {
    hide IsExpired, PacketID;
    if r.tokens == [] {
    } else {
      var rest := Repository(r.tokens[1..], r.numbers[1..], r.issued);
      SurvivorsNumbered(rest, now, timeout);
      var left := Repository(Unexpired(rest.tokens, now, timeout), Surviving(rest.tokens, rest.numbers, now, timeout),
                             r.issued);
      AllLater(r, left.numbers);
      if !IsExpired(r.tokens[0], now, timeout) {
        FirstNumbered(r.tokens[0], r.numbers[0], left);
      }
    }
  }

  lemma AllLater(r: Repository, numbers: seq<nat>)
    requires Numbered(r) && r.numbers != [] && forall n :: n in numbers ==> n in r.numbers[1..]
    ensures forall j :: 0 <= j < |numbers| ==> r.numbers[0] < numbers[j]
  {
    forall j | 0 <= j < |numbers|
      ensures r.numbers[0] < numbers[j]
    {
      assert numbers[j] in numbers;
      var k :| 0 <= k < |r.numbers| - 1 && r.numbers[1..][k] == numbers[j];
      assert r.numbers[k + 1] == numbers[j];
    }
  }

  lemma FirstNumbered(t: Token, n: nat, rest: Repository)
    requires Numbered(rest) && t.packetid == PacketID(n) && n <= rest.issued
    requires forall j :: 0 <= j < |rest.numbers| ==> n < rest.numbers[j]
    ensures Numbered(Repository([t] + rest.tokens, [n] + rest.numbers, rest.issued))
  {
    hide PacketID;
  }

  lemma ApplyNumbered(r: Repository, op: Operation)
    requires Numbered(r)
    ensures Numbered(Apply(r, op))
  {
    if op.Expire? {
      SurvivorsNumbered(r, op.now, op.timeout);
    }
  }

  function Run(r: Repository, ops: seq<Operation>): (after: Repository)
    requires Numbered(r)
    ensures Numbered(after)
  {
    if ops == [] then r else
      var before := Run(r, ops[..|ops| - 1]);
      ApplyNumbered(before, ops[|ops| - 1]);
      Apply(before, ops[|ops| - 1])
  }

  predicate SameDevice(s: Token, t: Token) { s.susyid == t.susyid && s.serialnumber == t.serialnumber }

  /** A reply to token j, with or without bit 15 in its packet id, is matched to token j if and only if no
      older open token of the same device was issued a multiple of 32768 ids before. */
  lemma ReplyFindsTokenExact(r: Repository, j: nat, replyID: U16)
    requires Numbered(r) && j < |r.tokens| && SetBit15(replyID) == r.tokens[j].packetid
    ensures FindIndex(r.tokens, r.tokens[j].susyid, r.tokens[j].serialnumber, replyID) == j
       <==> forall i :: 0 <= i < j && SameDevice(r.tokens[i], r.tokens[j]) ==>
              (r.numbers[j] - r.numbers[i]) % 0x8000 != 0
  {
    var t := r.tokens[j];
    assert TokenMatches(t, t.susyid, t.serialnumber, replyID);
    forall i | 0 <= i < j
      ensures TokenMatches(r.tokens[i], t.susyid, t.serialnumber, replyID) <==>
              SameDevice(r.tokens[i], t) && (r.numbers[j] - r.numbers[i]) % 0x8000 == 0
    {
      SamePacketID(r.numbers[i], r.numbers[j]);
    }
  }

  lemma SamePacketID(m: nat, n: nat)
    ensures PacketID(m) == PacketID(n) <==> (n - m) % 0x8000 == 0
  {
  }

  lemma ReplyFindsOwnToken(r: Repository, j: nat, replyID: U16)
    requires Numbered(r) && j < |r.tokens| && SetBit15(replyID) == r.tokens[j].packetid
    requires r.issued - r.numbers[0] < 0x8000
    ensures FindIndex(r.tokens, r.tokens[j].susyid, r.tokens[j].serialnumber, replyID) == j
  {
    hide FindIndex, PacketID;
    ReplyFindsTokenExact(r, j, replyID);
    forall i | 0 <= i < j
      ensures (r.numbers[j] - r.numbers[i]) % 0x8000 != 0
    {
      assert 0 < r.numbers[j] - r.numbers[i] < 0x8000;
    }
  }

  /** As long as fewer than 32768 ids were issued since the oldest open token, after any run of operations,
      every reply is matched to its own token. */
  lemma ReplyFindsToken(start: Repository, ops: seq<Operation>, j: nat, replyID: U16)
    requires Numbered(start)
    requires var r := Run(start, ops);
             j < |r.tokens| && SetBit15(replyID) == r.tokens[j].packetid && r.issued - r.numbers[0] < 0x8000
    ensures var r := Run(start, ops);
            FindIndex(r.tokens, r.tokens[j].susyid, r.tokens[j].serialnumber, replyID) == j
  {
    hide Run, FindIndex;
    ReplyFindsOwnToken(Run(start, ops), j, replyID);
  }

  /** Removing twice by the same index harms nobody if and only if the token was the last one. */
  lemma RemoveTwiceExact<T>(s: seq<T>, index: nat)
    requires index < |s|
    ensures Removed(Removed(s, index), index) == Removed(s, index) <==> index == |s| - 1
  {
  }

  /** Opening a token and removing it, once or twice, amounts to issuing its packet id. */
  lemma OpenThenRemove(r: Repository, op: Operation)
    requires |r.tokens| == |r.numbers| && op.Open?
    ensures var withToken, issued, remove := Apply(r, op), Apply(r, Issue), Operation.Remove(|r.tokens|);
            && |withToken.tokens| == |withToken.numbers| == |r.tokens| + 1 && |issued.tokens| == |issued.numbers|
            && withToken.tokens[|r.tokens|] ==
               Token(op.susyid, op.serialnumber, PacketID(r.issued + 1), op.peerIp, op.command, op.now)
            && withToken.issued == r.issued + 1
            && Apply(withToken, remove) == issued && Apply(issued, remove) == issued
  {
    hide PacketID;
  }

  // ----- the synchronous query -----

  /** A received packet, as far as the query looks at it. `formatOk` stands for the length, destination and
      peer address checks. */
  datatype Reply = Reply(
    validData2: bool,
    inverter: bool,
    srcSusyID: U16,
    srcSerialNumber: U32,
    packetID: U16,
    formatOk: bool,
    errorCode: U16)

  /** One round of the receive loop. */
  datatype Poll = Timeout | Failure | NothingReadable | Received(nbytes: int, reply: Reply)

  /** The command of the device type query. */
  const DEVICE_QUERY: U32 := 0x5800_0200

  predicate CheckReply(t: Token, r: Reply) {
    && r.inverter && r.formatOk
    && (r.srcSusyID == t.susyid || t.susyid == 0xffff)
    && (r.srcSerialNumber == t.serialnumber || t.serialnumber == 0xffff_ffff)
    && SetBit15(r.packetID) == t.packetid
  }

  predicate IsAccepted(t: Token, p: Poll) {
    p.Received? && p.reply.validData2 && p.reply.inverter && CheckReply(t, p.reply)
  }

  /** The round ends the wait without an accepted reply. */
  predicate GivesUp(t: Token, p: Poll) {
    p.Timeout? || p.Failure? || (p.Received? && p.nbytes == 0 && !IsAccepted(t, p))
  }

  /** The first round that ends the wait; the number of rounds if the socket stays silent from then on. */
  function LastRound(t: Token, polls: seq<Poll>): (k: nat)
    ensures k <= |polls|
    ensures forall j :: 0 <= j < k ==> !IsAccepted(t, polls[j]) && !GivesUp(t, polls[j])
    ensures k < |polls| ==> IsAccepted(t, polls[k]) || GivesUp(t, polls[k])
  {
    if polls == [] || IsAccepted(t, polls[0]) || GivesUp(t, polls[0]) then 0 else 1 + LastRound(t, polls[1..])
  }

  /** A reply to the token arrives before the wait ends. */
  predicate Answered(t: Token, polls: seq<Poll>) {
    LastRound(t, polls) < |polls| && IsAccepted(t, polls[LastRound(t, polls)])
  }

  /** The number of bytes that the wait returns. */
  function ReceivedBytes(t: Token, polls: seq<Poll>): int {
    var k := LastRound(t, polls);
    if k == |polls| then 0
    else match polls[k] case Timeout => 0 case Failure => -1 case Received(n, _) => n case NothingReadable => 0
  }

  /** The accepted reply, if any. */
  function Answer(t: Token, polls: seq<Poll>): (p: Option<Poll>)
    ensures p.Some? ==> p.value.Received? && p.value in polls && IsAccepted(t, p.value)
  {
    if Answered(t, polls) then Some(polls[LastRound(t, polls)]) else None
  }

  lemma BytesComeWithAnswer(t: Token, polls: seq<Poll>)
    ensures Answer(t, polls).None? ==> ReceivedBytes(t, polls) <= 0
    ensures Answer(t, polls).Some? ==> ReceivedBytes(t, polls) == Answer(t, polls).value.nbytes
  {
  }

  // ----- which replies answer a request -----

  /** The reply is a complete inverter packet from the addressed device, or from any if the request was a broadcast,
      and its packet id is that of the request, up to bit 15. */
  predicate IsReplyTo(t: Token, p: Poll) {
    && p.Received? && p.reply.validData2 && p.reply.inverter && p.reply.formatOk
    && (t.susyid == p.reply.srcSusyID || t.susyid == 0xffff)
    && (t.serialnumber == p.reply.srcSerialNumber || t.serialnumber == 0xffff_ffff)
    && (t.packetid - p.reply.packetID) % 0x8000 == 0
  }

  lemma AcceptedExactly(t: Token, p: Poll)
    requires t.packetid >= 0x8000
    ensures IsAccepted(t, p) <==> IsReplyTo(t, p)
  {
  }

  /** Nothing has arrived, or something that is not empty. */
  predicate KeepsWaiting(p: Poll) {
    p.NothingReadable? || (p.Received? && p.nbytes != 0)
  }

  /** Round `k` answers the request if and only if it brings a reply to it and all rounds before bring nothing, or other
      packets that are not empty. */
  lemma AnsweredExactly(t: Token, polls: seq<Poll>, k: nat)
    requires t.packetid >= 0x8000 && k < |polls|
    ensures Answered(t, polls) && LastRound(t, polls) == k <==>
            IsReplyTo(t, polls[k]) && forall j :: 0 <= j < k ==> KeepsWaiting(polls[j]) && !IsReplyTo(t, polls[j])
  {
    hide IsAccepted, IsReplyTo, LastRound;
    forall j | 0 <= j < |polls|
      ensures IsAccepted(t, polls[j]) <==> IsReplyTo(t, polls[j])
    {
      AcceptedExactly(t, polls[j]);
    }
    if IsReplyTo(t, polls[k]) && forall j :: 0 <= j < k ==> KeepsWaiting(polls[j]) && !IsReplyTo(t, polls[j]) {
      LastRoundIs(t, polls, k);
    }
  }

  /** The wait fails exactly if a poll fails before anything else ends it. */
  lemma FailsExactly(t: Token, polls: seq<Poll>)
    requires t.packetid >= 0x8000
    ensures Answer(t, polls).None? ==> ReceivedBytes(t, polls) == 0 || ReceivedBytes(t, polls) == -1
    ensures Answer(t, polls).None? && ReceivedBytes(t, polls) == -1 <==>
            exists k :: 0 <= k < |polls| && polls[k].Failure?
                        && forall j :: 0 <= j < k ==> KeepsWaiting(polls[j]) && !IsReplyTo(t, polls[j])
  {
    hide IsAccepted, IsReplyTo, LastRound;
    forall j | 0 <= j < |polls|
      ensures IsAccepted(t, polls[j]) <==> IsReplyTo(t, polls[j])
    {
      AcceptedExactly(t, polls[j]);
    }
    if k: nat :| k < |polls| && polls[k].Failure?
                 && forall j :: 0 <= j < k ==> KeepsWaiting(polls[j]) && !IsReplyTo(t, polls[j]) {
      LastRoundIs(t, polls, k);
      NotAccepted(t, polls[k]);
    }
  }

  lemma NotAccepted(t: Token, p: Poll)
    ensures !p.Received? ==> !IsAccepted(t, p)
  {
  }

  /** A request with sequence number `n` is answered only by a reply that carries its number up to a multiple of 32768,
      and unless it was a broadcast, only by the device that it was sent to. */
  predicate IsOwnReply(t: Token, n: nat, r: Reply) {
    && (r.packetID - n) % 0x8000 == 0
    && (t.susyid != 0xffff ==> r.srcSusyID == t.susyid)
    && (t.serialnumber != 0xffff_ffff ==> r.srcSerialNumber == t.serialnumber)
  }

  lemma AnswerIsOwn(t: Token, n: nat, polls: seq<Poll>)
    requires t.packetid == PacketID(n) && Answer(t, polls).Some?
    ensures IsOwnReply(t, n, Answer(t, polls).value.reply)
  {
    hide Answer;
    var p := Answer(t, polls).value;
    AcceptedExactly(t, p);
    assert (t.packetid - n) % 0x8000 == 0;
    Congruent(t.packetid, p.reply.packetID, n);
  }

  lemma Congruent(x: int, y: int, n: int)
    requires (x - y) % 0x8000 == 0 && (x - n) % 0x8000 == 0
    ensures (y - n) % 0x8000 == 0
  {
  }

  /** Without a token the wait ends with the first round that times out, fails or receives nothing; a valid inverter
      packet before that makes it read a token that does not exist. */
  predicate ReadsToken(polls: seq<Poll>) {
    polls != [] &&
    match polls[0]
    case Timeout => false
    case Failure => false
    case NothingReadable => ReadsToken(polls[1..])
    case Received(n, r) => (r.validData2 && r.inverter) || (n != 0 && ReadsToken(polls[1..]))
  }

  predicate IsInverterPacket(p: Poll) { p.Received? && p.reply.validData2 && p.reply.inverter }

  /** ... that is, if and only if the wait gets to a valid inverter packet. */
  lemma {:induction false} ReadsTokenExactly(polls: seq<Poll>)
    ensures ReadsToken(polls) <==>
            exists k :: 0 <= k < |polls| && IsInverterPacket(polls[k])
                        && forall j :: 0 <= j < k ==> KeepsWaiting(polls[j])
  {
    if polls == [] {
    } else {
      var rest := polls[1..];
      ReadsTokenExactly(rest);
      if ReadsToken(rest) && KeepsWaiting(polls[0]) {
        var k :| 0 <= k < |rest| && IsInverterPacket(rest[k]) && forall j :: 0 <= j < k ==> KeepsWaiting(rest[j]);
        assert IsInverterPacket(polls[k + 1]) && forall j :: 0 <= j < k + 1 ==> KeepsWaiting(polls[j]);
      }
      if k: nat :| k < |polls| && IsInverterPacket(polls[k]) && forall j :: 0 <= j < k ==> KeepsWaiting(polls[j]) {
        if k > 0 {
          assert KeepsWaiting(polls[0]) && IsInverterPacket(rest[k - 1]);
          assert forall j :: 0 <= j < k - 1 ==> rest[j] == polls[j + 1];
        } else {
          assert IsInverterPacket(polls[0]);
        }
      }
    }
  }

  class SpeedwireCommand {
    var packetId: U16
    const tokens: TokenRepository

    /** The packet id is the last one that was issued, and the tokens are in the order of their ids. */
    ghost predicate Valid()
      reads this, tokens
    {
      tokens.Valid() && Numbered(tokens.Snapshot()) && packetId == PacketID(tokens.issued)
    }

    ghost function Snapshot(): Repository
      reads tokens
    {
      tokens.Snapshot()
    }

    constructor ()
      ensures fresh(tokens) && Valid() && Snapshot() == Repository([], [], 1)
      ensures packetId == 0x8001 && !tokens.needsLogin
    {
      packetId := 0x8001;
      tokens := new TokenRepository(1);
    }

    method GetIncrementedPacketID() returns (id: U16)
      requires Valid()
      modifies `packetId, tokens`issued
      ensures Valid() && Snapshot() == Apply(old(Snapshot()), Issue)
      ensures id == packetId == IncrementedPacketID(old(packetId))
    {
      IncrementIsNext(tokens.issued);
      packetId := IncrementedPacketID(packetId);
      tokens.issued := tokens.issued + 1;
      id := packetId;
    }

    /** As long as fewer than 32768 ids were issued since the oldest open token, whatever the object went through,
        an inverter reply to the request of token `j` is matched to this token. */
    method FindCommandToken(reply: Reply) returns (index: int)
      requires Valid()
      ensures index == if reply.validData2 && reply.inverter
                       then FindIndex(tokens.token, reply.srcSusyID, reply.srcSerialNumber, reply.packetID) else -1
      ensures forall j ::
                (&& 0 <= j < |tokens.token| && reply.validData2 && reply.inverter
                 && TokenMatches(tokens.token[j], reply.srcSusyID, reply.srcSerialNumber, reply.packetID)
                 && tokens.issued - tokens.numbers[0] < 0x8000)
                ==> index == j
    {
      if reply.validData2 {
        if reply.inverter {
          forall j | 0 <= j < |tokens.token| && tokens.issued - tokens.numbers[0] < 0x8000
                     && TokenMatches(tokens.token[j], reply.srcSusyID, reply.srcSerialNumber, reply.packetID)
            ensures FindIndex(tokens.token, reply.srcSusyID, reply.srcSerialNumber, reply.packetID) == j
          {
            ReplyFindsOwnToken(Snapshot(), j, reply.packetID);
          }
          index := tokens.Find(reply.srcSusyID, reply.srcSerialNumber, reply.packetID);
          return;
        }
      }
      return -1;
    }

    /** A token is added if the request could be sent; a packet id is issued in any case. */
    method SendQueryRequest(susyid: U16, serialnumber: U32, peerIp: string, command: U32, socketOk: bool, sent: int,
                            now: U32)
      returns (index: int)
      requires Valid()
      modifies `packetId, tokens
      ensures Valid() && tokens.needsLogin == old(tokens.needsLogin)
      ensures Snapshot() == Apply(old(Snapshot()), if socketOk && sent > 0
                                                   then Open(susyid, serialnumber, peerIp, command, now) else Issue)
      ensures index == if socketOk && sent > 0 then |old(tokens.token)| else -1
    {
      var id := GetIncrementedPacketID();
      if !socketOk {
        return -1;
      }
      if sent <= 0 {
        return -1;
      }
      index := tokens.Add(susyid, serialnumber, id, peerIp, command, now);
    }

    /** The token is removed exactly when a reply to it is accepted. Besides the number of bytes, the caller
        sees the error code in the receive buffer. The index is not checked: `defined` tells whether the wait keeps
        from reading a token that does not exist, where the model stops. */
    method ReceiveResponse(index: int, polls: seq<Poll>) returns (nbytes: int, errorCode: U16, ghost defined: bool)
      requires Valid()
      modifies tokens
      ensures Valid() && tokens.needsLogin == old(tokens.needsLogin)
      ensures defined <==> 0 <= index < |old(tokens.token)| || !ReadsToken(polls)
      ensures 0 <= index < |old(tokens.token)| ==>
                var t := old(tokens.token)[index];
                && Snapshot() == (if Answer(t, polls).Some? then Apply(old(Snapshot()), Operation.Remove(index))
                                  else old(Snapshot()))
                && nbytes == ReceivedBytes(t, polls)
                && (Answer(t, polls).Some? ==>
                      && errorCode == Answer(t, polls).value.reply.errorCode
                      && IsOwnReply(t, old(tokens.numbers)[index], Answer(t, polls).value.reply))
      ensures !(0 <= index < |old(tokens.token)|) ==> Snapshot() == old(Snapshot())
    {
      ghost var inRange := 0 <= index < |tokens.token|;
      ghost var t := if inRange then tokens.token[index] else Token(0, 0, 0, "", 0, 0);
      if inRange && Answer(t, polls).Some? {
        AnswerIsOwn(t, tokens.numbers[index], polls);
      }
      hide Numbered, PacketID, IsOwnReply;
      nbytes, errorCode, defined := -1, 0, true;
      var valid := false;
      var round := 0;
      assert polls[0..] == polls;
      while !valid && nbytes != 0
        invariant 0 <= round <= |polls| && defined
        invariant Valid() && tokens.needsLogin == old(tokens.needsLogin)
        invariant !valid ==> Snapshot() == old(Snapshot())
        invariant !inRange ==> !valid
        invariant !inRange && nbytes != 0 ==> ReadsToken(polls[round..]) == ReadsToken(polls)
        invariant !inRange && nbytes == 0 ==> !ReadsToken(polls)
        invariant inRange && !valid && nbytes != 0 ==>
                    forall j :: 0 <= j < round ==> !IsAccepted(t, polls[j]) && !GivesUp(t, polls[j])
        invariant inRange && (valid || nbytes == 0) ==>
                    && round > 0 && LastRound(t, polls) == round - 1 && polls[round - 1].Received?
                    && nbytes == polls[round - 1].nbytes && (valid <==> IsAccepted(t, polls[round - 1]))
                    && errorCode == polls[round - 1].reply.errorCode
        invariant valid ==> Snapshot() == Apply(old(Snapshot()), Operation.Remove(index))
        decreases |polls| - round, !valid && nbytes != 0
      {
        if inRange {
          LastRoundIs(t, polls, round);
        }
        if round == |polls| || polls[round].Timeout? {
          return 0, errorCode, true;
        }
        if polls[round].Failure? {
          return -1, errorCode, true;
        }
        assert polls[round..][1..] == polls[round + 1..];
        if polls[round].Received? {
          var reply := polls[round].reply;
          nbytes, errorCode := polls[round].nbytes, reply.errorCode;
          if reply.validData2 {
            if reply.inverter {
              if !(0 <= index < |tokens.token|) {
                return nbytes, errorCode, false;
              }
              if CheckReply(tokens.token[index], reply) {
                valid := true;
                ApplyNumbered(Snapshot(), Operation.Remove(index));
                tokens.Remove(index);
              }
            }
          }
        }
        round := round + 1;
      }
    }

    /** A query leaves no token behind if and only if its request could not be sent or was answered; the
        second removal after an answer has no effect. Unanswered requests stay in the repository. */
    method Query(susyid: U16, serialnumber: U32, peerIp: string, command: U32, socketOk: bool, sent: int, now: U32,
                 polls: seq<Poll>)
      returns (result: int)
      requires Valid()
      modifies `packetId, tokens
      ensures Valid()
      ensures !socketOk ==> Snapshot() == old(Snapshot())
      ensures socketOk && sent <= 0 ==> Snapshot() == Apply(old(Snapshot()), Issue)
      ensures !(socketOk && sent > 0) ==> result == -1 && tokens.needsLogin == old(tokens.needsLogin)
      ensures socketOk && sent > 0 ==>
                (var t := Token(susyid, serialnumber, packetId, peerIp, command, now);
                 match Answer(t, polls)
                 case None =>
                   && Snapshot() == Apply(old(Snapshot()), Open(susyid, serialnumber, peerIp, command, now))
                   && result == -1 && tokens.needsLogin == old(tokens.needsLogin)
                 case Some(p) =>
                   && Snapshot() == Apply(old(Snapshot()), Issue)
                   && IsOwnReply(t, tokens.issued, p.reply)
                   && result == (if p.nbytes > 0 && p.reply.errorCode == 0 then p.nbytes else -1)
                   && tokens.needsLogin == (old(tokens.needsLogin) || (p.nbytes > 0 && p.reply.errorCode == 0x0017)))
    {
      if !socketOk {
        return -1;
      }
      var index := SendQueryRequest(susyid, serialnumber, peerIp, command, socketOk, sent, now);
      if index < 0 {
        return -1;
      }
      hide Answer, ReceivedBytes, Numbered, Removed, Apply, PacketID, IsOwnReply;
      OpenThenRemove(old(Snapshot()), Open(susyid, serialnumber, peerIp, command, now));
      ghost var t := tokens.token[index];
      BytesComeWithAnswer(t, polls);
      var nbytes, errorCode, _ := ReceiveResponse(index, polls);
      if nbytes <= 0 {
        return -1;
      }
      if errorCode != 0 {
        if errorCode == 0x0017 {
          tokens.needsLogin := true;
        }
        tokens.Remove(index);
        return -1;
      }
      tokens.Remove(index);
      return nbytes;
    }

    /** The device type query goes on to wait after a failed send: it reads a token that does not exist exactly if a
        valid inverter packet is received then. Otherwise it treats its token like a query does. */
    method QueryDeviceType(susyid: U16, serialnumber: U32, peerIp: string, socketOk: bool, sent: int, now: U32,
                           polls: seq<Poll>)
      returns (nbytes: int, ghost defined: bool)
      requires Valid()
      modifies `packetId, tokens
      ensures Valid() && tokens.needsLogin == old(tokens.needsLogin)
      ensures defined <==> !(socketOk && sent <= 0 && ReadsToken(polls))
      ensures !(socketOk && sent > 0) ==> Snapshot() == Apply(old(Snapshot()), Issue)
      ensures socketOk && sent > 0 ==>
                var t := Token(susyid, serialnumber, packetId, peerIp, DEVICE_QUERY, now);
                && nbytes == ReceivedBytes(t, polls)
                && (Answer(t, polls).Some? ==> IsOwnReply(t, tokens.issued, Answer(t, polls).value.reply))
                && Snapshot() == Apply(old(Snapshot()), if Answer(t, polls).Some? then Issue
                                                        else Open(susyid, serialnumber, peerIp, DEVICE_QUERY, now))
    {
      hide Answer, ReceivedBytes, Numbered, ReadsToken, IsOwnReply;
      var index := SendQueryRequest(susyid, serialnumber, peerIp, DEVICE_QUERY, socketOk, sent, now);
      if !socketOk {
        return 0, true;
      }
      var errorCode;
      nbytes, errorCode, defined := ReceiveResponse(index, polls);
    }
  }

  lemma LastRoundIs(t: Token, polls: seq<Poll>, k: nat)
    requires k <= |polls|
    requires forall j :: 0 <= j < k ==> !IsAccepted(t, polls[j]) && !GivesUp(t, polls[j])
    ensures k == |polls| || IsAccepted(t, polls[k]) || GivesUp(t, polls[k]) ==> LastRound(t, polls) == k
  {
  }
}

/**
 * The discovery state machine: multicast requests, requests to the registered placeholders, and a scan of
 * all hosts in the subnets of the local interfaces, driven by four counters.
 */
module DiscoveryScans {
  import opened Words
  import opened Sequences
  import opened Division

  /** A local interface: its IPv4 address in host byte order and the length of its network prefix. */
  datatype Interface = Interface(address: U32, prefixLength: nat)

  datatype Counters = Counters(broadcast: nat, prereg: nat, subnet: nat, socket: nat)

  /** What a step sends: to all interfaces, to all placeholders, or from one interface to one host. */
  datatype Sent = Multicast | ToPlaceholders | ToHost(interface: nat, address: U32)

  // ----- subnets -----

  lemma {:induction false} Power2Monotone(j: nat, k: nat)
    requires j <= k
    ensures Power2(j) <= Power2(k)
    decreases k
  {
    if j == k {
    } else {
      Power2Monotone(j, k - 1);
    }
  }

  predicate IsInterface(i: Interface) { 1 <= i.prefixLength <= 32 }

  /** The number of addresses in the subnet. */
  function SubnetSize(i: Interface): nat
    requires IsInterface(i)
  {
    Power2(32 - i.prefixLength)
  }

  /** The prefix bits and the host bits make up the 32 bits of an address. */
  lemma SubnetSizeExact(i: Interface)
    requires IsInterface(i)
    ensures SubnetSize(i) * Power2(i.prefixLength) == TWO_32
  {
    Power2Is32();
    SubnetsDivide(32 - i.prefixLength, 32);
  }

  /** Two addresses agree in their first `prefixLength` bits. */
  predicate SameSubnet(prefixLength: nat, a: U32, b: U32)
    requires prefixLength <= 32
  {
    a / Power2(32 - prefixLength) == b / Power2(32 - prefixLength)
  }

  /** The address with the given host part in the subnet of an interface. The source clears the host bits
      with the mask ~(2^k - 1); that is subtracting the remainder modulo 2^k. */
  function HostAddress(i: Interface, host: nat): (a: U32)
    requires IsInterface(i) && host < SubnetSize(i)
    ensures SameSubnet(i.prefixLength, a, i.address)
    ensures a % Power2(32 - i.prefixLength) == host
  {
    var size := SubnetSize(i);
    HostPart(i.address, host, size);
    HostInRange(i, host);
    i.address - i.address % size + host
  }

  lemma HostPart(address: nat, host: nat, size: nat)
    requires host < size
    ensures (address - address % size + host) / size == address / size
    ensures (address - address % size + host) % size == host
    ensures address - address % size == address / size * size
  {
    Decomposed(address, size);
    DivisionUnique(address - address % size + host, address / size, host, size);
  }

  lemma {:induction false} SubnetsDivide(k: nat, m: nat)
    requires k <= m
    ensures Power2(m) == Power2(k) * Power2(m - k)
    decreases m - k
  {
    if k == m {
    } else {
      SubnetsDivide(k, m - 1);
      assert Power2(k) * (2 * Power2(m - k - 1)) == 2 * (Power2(k) * Power2(m - k - 1));
    }
  }

  lemma HostInRange(i: Interface, host: nat)
    requires IsInterface(i) && host < SubnetSize(i)
    ensures 0 <= i.address / SubnetSize(i) * SubnetSize(i) + host < TWO_32
  {
    hide Power2;
    var size, count := SubnetSize(i), Power2(i.prefixLength);
    Power2Is32();
    SubnetsDivide(32 - i.prefixLength, 32);
    Decomposed(i.address, size);
    NextMultiple(i.address / size, i.address % size, host, size, count);
  }

  lemma NextMultiple(q: int, r: nat, host: nat, size: nat, count: nat)
    requires q >= 0 && host < size && q * size + r < size * count
    ensures 0 <= q * size + host < size * count
  {
    Monotone(count, q, size);
    Monotone(q + 1, count, size);
  }

  lemma Power2Is32()
    ensures Power2(32) == TWO_32
  {
    assert Power2(4) == 16;
    assert Power2(8) == 256;
    SubnetsDivide(8, 16);
    SubnetsDivide(16, 32);
  }

  lemma Monotone(p: int, q: int, size: nat)
    ensures p <= q ==> size * p <= size * q
  {
  }

  // ----- one step -----

  type Interfaces = s: seq<Interface> | forall i :: 0 <= i < |s| ==> IsInterface(s[i])

  function MaxSubnetCounter(i: Interface): nat
    requires IsInterface(i)
  {
    SubnetSize(i) - 1
  }

  /** The counters after a step, and what the step sends; None if there is nothing left to do. A step that
      moves on to the next interface sends nothing. */
  datatype StepResult = Done(counters: Counters) | Step(counters: Counters, sent: seq<Sent>)

  function ScanStep(ifs: Interfaces, c: Counters): StepResult
    requires c.socket < |ifs|
  {
    var i := ifs[c.socket];
    var max := MaxSubnetCounter(i);
    var subnet := if max > 0xff then max else c.subnet;
    if subnet < max then
      Step(c.(subnet := subnet + 1), [ToHost(c.socket, HostAddress(i, subnet))])
    else
      Step(c.(subnet := 1, socket := c.socket + 1), [])
  }

  function NextStep(ifs: Interfaces, c: Counters): StepResult {
    if c.broadcast < |ifs| then Step(c.(broadcast := |ifs|), [Multicast])
    else if c.prereg < |ifs| then Step(c.(prereg := |ifs|), [ToPlaceholders])
    else if c.socket < |ifs| then ScanStep(ifs, c)
    else Done(c)
  }

  // ----- what is sent from now on, without reference to steps -----

  /** Requests to the hosts of interface `k` from host number `from` up to the last one. */
  function Hosts(ifs: Interfaces, k: nat, from: nat): (s: seq<Sent>)
    requires k < |ifs|
    decreases SubnetSize(ifs[k]) - from
  {
    if MaxSubnetCounter(ifs[k]) > 0xff || from >= MaxSubnetCounter(ifs[k]) then []
    else [ToHost(k, HostAddress(ifs[k], from))] + Hosts(ifs, k, from + 1)
  }

  function Scan(ifs: Interfaces, k: nat): seq<Sent>
    decreases |ifs| - k
  {
    if k >= |ifs| then [] else Hosts(ifs, k, 1) + Scan(ifs, k + 1)
  }

  function ScanSteps(ifs: Interfaces, k: nat): nat
    decreases |ifs| - k
  {
    if k >= |ifs| then 0 else |Hosts(ifs, k, 1)| + 1 + ScanSteps(ifs, k + 1)
  }

  function Requests(ifs: Interfaces, c: Counters): seq<Sent> {
    (if c.broadcast < |ifs| then [Multicast] else []) + (if c.prereg < |ifs| then [ToPlaceholders] else [])
  }

  /** Everything that is sent from these counters on. */
  function Remaining(ifs: Interfaces, c: Counters): seq<Sent> {
    Requests(ifs, c) + if c.socket < |ifs| then Hosts(ifs, c.socket, c.subnet) + Scan(ifs, c.socket + 1) else []
  }

  /** The number of successful steps from these counters on. */
  function StepsLeft(ifs: Interfaces, c: Counters): nat {
    |Requests(ifs, c)|
    + if c.socket < |ifs| then |Hosts(ifs, c.socket, c.subnet)| + 1 + ScanSteps(ifs, c.socket + 1) else 0
  }

  /** Every step sends the head of what remains, and there is a step as long as anything remains to be done. */
  lemma StepSendsNext(ifs: Interfaces, c: Counters)
    ensures var r := NextStep(ifs, c);
            match r
            case Done(d) => d == c && Remaining(ifs, c) == [] && StepsLeft(ifs, c) == 0
            case Step(d, sent) =>
              && Remaining(ifs, c) == sent + Remaining(ifs, d)
              && StepsLeft(ifs, c) == StepsLeft(ifs, d) + 1
  {
    hide Hosts, Scan, ScanSteps, ScanStep, HostAddress, SubnetSize;
    var r := NextStep(ifs, c);
    if c.broadcast >= |ifs| && c.prereg >= |ifs| && c.socket < |ifs| {
      ScanStepSendsNext(ifs, c);
    }
  }

  lemma ScanStepSendsNext(ifs: Interfaces, c: Counters)
    requires c.socket < |ifs|
    ensures var r := ScanStep(ifs, c);
            var d := r.counters;
            && r.Step? && d.broadcast == c.broadcast && d.prereg == c.prereg
            && Hosts(ifs, c.socket, c.subnet) + Scan(ifs, c.socket + 1) ==
               r.sent + (if d.socket < |ifs| then Hosts(ifs, d.socket, d.subnet) + Scan(ifs, d.socket + 1) else [])
            && |Hosts(ifs, c.socket, c.subnet)| + 1 + ScanSteps(ifs, c.socket + 1) ==
               1 + if d.socket < |ifs| then |Hosts(ifs, d.socket, d.subnet)| + 1 + ScanSteps(ifs, d.socket + 1) else 0
  {
    hide HostAddress, SubnetSize;
    var r := ScanStep(ifs, c);
    if r.sent != [] {
      assert Hosts(ifs, c.socket, c.subnet) == r.sent + Hosts(ifs, c.socket, c.subnet + 1);
    } else {
      assert Hosts(ifs, c.socket, c.subnet) == [];
    }
  }

  // ----- the hosts of the scan -----

  /** The address is that of a host in the subnet: neither the network nor the broadcast address. */
  predicate IsHostOf(i: Interface, address: U32)
    requires IsInterface(i)
  {
    && SameSubnet(i.prefixLength, address, i.address)
    && 1 <= address % Power2(32 - i.prefixLength) <= Power2(32 - i.prefixLength) - 2
  }

  lemma SmallSubnet(i: Interface)
    requires IsInterface(i)
    ensures MaxSubnetCounter(i) > 0xff <==> i.prefixLength < 24
  {
    assert Power2(4) == 16;
    assert Power2(8) == 256;
    assert Power2(9) == 512;
    if i.prefixLength < 24 {
      Power2Monotone(9, 32 - i.prefixLength);
    } else {
      Power2Monotone(32 - i.prefixLength, 8);
    }
  }

  lemma {:induction false} HostCount(ifs: Interfaces, k: nat, from: nat)
    requires k < |ifs|
    ensures |Hosts(ifs, k, from)| ==
            if ifs[k].prefixLength < 24 then 0 else Max(0, Power2(32 - ifs[k].prefixLength) - 1 - from)
    decreases SubnetSize(ifs[k]) - from
  {
    hide HostAddress;
    SmallSubnet(ifs[k]);
    if MaxSubnetCounter(ifs[k]) > 0xff || from >= MaxSubnetCounter(ifs[k]) {
    } else {
      HostCount(ifs, k, from + 1);
    }
  }

  lemma {:induction false} HostAt(ifs: Interfaces, k: nat, from: nat, j: nat)
    requires k < |ifs| && j < |Hosts(ifs, k, from)|
    ensures from + j < SubnetSize(ifs[k]) && Hosts(ifs, k, from)[j] == ToHost(k, HostAddress(ifs[k], from + j))
    decreases j
  {
    hide HostAddress, SubnetSize;
    if j == 0 {
    } else {
      HostAt(ifs, k, from + 1, j - 1);
    }
  }

  /** The scan of an interface with a prefix of p >= 24 bits asks exactly the hosts of its subnet, which are
      2^(32-p) - 2, or none for p = 32. */
  lemma HostsExact(ifs: Interfaces, k: nat, x: Sent)
    requires k < |ifs|
    ensures |Hosts(ifs, k, 1)| ==
            if ifs[k].prefixLength < 24 then 0 else Max(0, Power2(32 - ifs[k].prefixLength) - 2)
    ensures x in Hosts(ifs, k, 1) <==> IsHostRequest(ifs, k, x)
  {
    hide HostAddress;
    var i, hosts := ifs[k], Hosts(ifs, k, 1);
    HostCount(ifs, k, 1);
    if x in hosts {
      var j :| 0 <= j < |hosts| && hosts[j] == x;
      HostAt(ifs, k, 1, j);
    }
    if x.ToHost? && x.interface == k && i.prefixLength >= 24 && IsHostOf(i, x.address) {
      var host := x.address % SubnetSize(i);
      SameAddress(i, x.address, host);
      HostAt(ifs, k, 1, host - 1);
    }
  }

  /** A step of the scan asks at most one host, and only one in the subnet of its interface. */
  lemma StepAsksHost(ifs: Interfaces, c: Counters)
    requires c.socket < |ifs| && c.subnet >= 1
    ensures forall x :: x in ScanStep(ifs, c).sent ==> IsHostRequest(ifs, c.socket, x)
  {
    hide HostAddress;
    SmallSubnet(ifs[c.socket]);
  }

  /** A request to a host in the subnet of interface `k`, which has a prefix of at least 24 bits. */
  predicate IsHostRequest(ifs: Interfaces, k: nat, x: Sent)
    requires k < |ifs|
  {
    x.ToHost? && x.interface == k && ifs[k].prefixLength >= 24 && IsHostOf(ifs[k], x.address)
  }

  lemma SameAddress(i: Interface, address: U32, host: nat)
    requires IsInterface(i) && host < SubnetSize(i) && address % SubnetSize(i) == host
    requires address / SubnetSize(i) == i.address / SubnetSize(i)
    ensures HostAddress(i, host) == address
  {
  }

  /** The scan as a whole asks exactly the hosts of the subnets with a prefix of at least 24 bits. */
  lemma {:induction false} ScanExact(ifs: Interfaces, k: nat, x: Sent)
    ensures x in Scan(ifs, k) <==>
              x.ToHost? && k <= x.interface < |ifs| && IsHostRequest(ifs, x.interface, x)
    decreases |ifs| - k
  {
    if k >= |ifs| {
    } else {
      hide IsHostOf, Hosts;
      HostsExact(ifs, k, x);
      ScanExact(ifs, k + 1, x);
    }
  }

  lemma HostsDiffer(ifs: Interfaces, k: nat, i: nat, j: nat)
    requires k < |ifs| && i < j < |Hosts(ifs, k, 1)|
    ensures Hosts(ifs, k, 1)[i] != Hosts(ifs, k, 1)[j]
  {
    hide Hosts, HostAddress, SubnetSize;
    HostAt(ifs, k, 1, i);
    HostAt(ifs, k, 1, j);
  }

  /** ... and asks none of them twice. */
  lemma {:induction false} ScanWithoutRepetition(ifs: Interfaces, k: nat)
    ensures forall i, j :: 0 <= i < j < |Scan(ifs, k)| ==> Scan(ifs, k)[i] != Scan(ifs, k)[j]
    decreases |ifs| - k
  {
    if k >= |ifs| {
    } else {
      hide HostAddress, Hosts, SubnetSize, IsHostOf;
      var hosts, rest, scan := Hosts(ifs, k, 1), Scan(ifs, k + 1), Scan(ifs, k);
      ScanWithoutRepetition(ifs, k + 1);
      forall i, j | 0 <= i < j < |scan|
        ensures scan[i] != scan[j]
      {
        if j < |hosts| {
          HostsDiffer(ifs, k, i, j);
        } else if i < |hosts| {
          HostAt(ifs, k, 1, i);
          assert scan[j] == rest[j - |hosts|] && scan[j] in rest;
          ScanExact(ifs, k + 1, scan[j]);
        } else {
          assert scan[i] == rest[i - |hosts|] && scan[j] == rest[j - |hosts|];
        }
      }
    }
  }

  // ----- the retry loop -----

  /** The requests of one pass over the counters, without the scan. */
  function Pass(ifs: Interfaces): seq<Sent> {
    if ifs == [] then [] else [Multicast, ToPlaceholders]
  }

  function Passes(ifs: Interfaces, n: nat): seq<Sent> {
    if n == 0 then [] else Pass(ifs) + Passes(ifs, n - 1)
  }

  /** What discoverDevices sends: three passes, the first one followed by the scan if there is one. */
  function AllSent(ifs: Interfaces, fullScan: bool): seq<Sent> {
    Pass(ifs) + (if fullScan then Scan(ifs, 0) else []) + Passes(ifs, 2)
  }

  function AllSteps(ifs: Interfaces, fullScan: bool): nat {
    |Passes(ifs, 3)| + if fullScan then ScanSteps(ifs, 0) else 0
  }

  /** What is still to be sent with `retries` attempts left. */
  function Future(ifs: Interfaces, c: Counters, retries: nat): seq<Sent> {
    if retries == 0 then [] else Remaining(ifs, c) + Passes(ifs, retries - 1)
  }

  function FutureSteps(ifs: Interfaces, c: Counters, retries: nat): nat {
    if retries == 0 then 0 else StepsLeft(ifs, c) + |Passes(ifs, retries - 1)|
  }

  class DiscoveryScanner {
    const interfaces: Interfaces
    ghost var log: seq<Sent>
    ghost var steps: nat        // successful steps

    constructor (interfaces: Interfaces)
      ensures this.interfaces == interfaces && log == [] && steps == 0
    {
      this.interfaces := interfaces;
      log := [];
      steps := 0;
    }

    method SendUnicastDiscoveryRequestToSockets(c: Counters) returns (d: Counters, more: bool)
      requires c.socket < |interfaces|
      modifies this
      ensures more && old(log) <= log && steps == old(steps) + 1
      ensures ScanStep(interfaces, c) == Step(d, log[|old(log)|..])
      ensures c.subnet >= 1 ==> forall x :: x in log[|old(log)|..] ==> IsHostRequest(interfaces, c.socket, x)
    {
      hide IsHostRequest, HostAddress;
      if c.subnet >= 1 {
        StepAsksHost(interfaces, c);
      }
      d := c;
      var i := interfaces[d.socket];
      var max := MaxSubnetCounter(i);
      if max > 0xff {
        d := d.(subnet := max);
      }
      if d.subnet < max && d.socket < |interfaces| {
        log := log + [ToHost(d.socket, HostAddress(i, d.subnet))];
        d := d.(subnet := d.subnet + 1);
        steps := steps + 1;
        return d, true;
      }
      if d.subnet >= max && d.socket < |interfaces| {
        d := d.(subnet := 1, socket := d.socket + 1);
        steps := steps + 1;
        return d, true;
      }
      assert false;
      more := false;
    }

    method SendNextDiscoveryPacket(c: Counters) returns (d: Counters, more: bool)
      modifies this
      ensures more <==> NextStep(interfaces, c).Step?
      ensures !more ==> d == c && log == old(log) && steps == old(steps)
      ensures more ==> old(log) <= log && NextStep(interfaces, c) == Step(d, log[|old(log)|..]) && steps == old(steps) + 1
    {
      d := c;
      if d.broadcast < |interfaces| {
        d := d.(broadcast := |interfaces|);
        log, steps := log + [Multicast], steps + 1;
        return d, true;
      }
      if d.prereg < |interfaces| {
        d := d.(prereg := |interfaces|);
        log, steps := log + [ToPlaceholders], steps + 1;
        return d, true;
      }
      if d.socket < |interfaces| {
        d, more := SendUnicastDiscoveryRequestToSockets(d);
        return d, more;
      }
      more := false;
    }

    /** The sending side of the discovery loop, for as many rounds as the clock allows. In any number of
        rounds, what was sent is the beginning of AllSent, and it is all of it after enough rounds. The first two
        rounds make one step each, all others at most ten. */
    method DiscoverDevices(fullScan: bool, rounds: nat)
      requires |interfaces| <= 0xffff_ffff && log == [] && steps == 0
      modifies this
      ensures log <= AllSent(interfaces, fullScan) && steps <= AllSteps(interfaces, fullScan)
      ensures steps <= Max(rounds, 2 + 10 * (rounds - 2))
      ensures rounds >= AllSteps(interfaces, fullScan) + 3 ==>
                log == AllSent(interfaces, fullScan) && steps == AllSteps(interfaces, fullScan)
    {
      var c := Counters(0, 0, 1, if fullScan then 0 else 0xffff_ffff);
      var retries := 3;
      StartOfDiscovery(interfaces, fullScan, c);
      for round := 0 to rounds
        invariant 0 <= retries <= 3
        invariant log + Future(interfaces, c, retries) == AllSent(interfaces, fullScan)
        invariant steps + FutureSteps(interfaces, c, retries) == AllSteps(interfaces, fullScan)
        invariant round + FutureSteps(interfaces, c, retries) + retries <= AllSteps(interfaces, fullScan) + 3
               || retries == 0
        invariant steps <= Max(round, 2 + 10 * (round - 2))
        invariant round <= 1 ==> c.prereg == 0 && (round == 0 ==> c.broadcast == 0)
      {
        var sends := if c.broadcast == 0 || c.prereg == 0 then 1 else 10;
        if retries > 0 {
          c, retries := SendBurst(c, retries, sends);
        } else {
          c := c.(broadcast := |interfaces|, prereg := |interfaces|);
        }
      }
    }

    /** Up to `sends` packets; the attempt is over when there is nothing left to send. */
    method SendBurst(c: Counters, retries: nat, sends: nat) returns (d: Counters, left: nat)
      requires 1 <= retries <= 3 && sends >= 1
      modifies this
      ensures left <= 3
      ensures log + Future(interfaces, d, left) == old(log) + Future(interfaces, c, retries)
      ensures steps + FutureSteps(interfaces, d, left) == old(steps) + FutureSteps(interfaces, c, retries)
      ensures FutureSteps(interfaces, d, left) + left < FutureSteps(interfaces, c, retries) + retries
      ensures steps <= old(steps) + sends
      ensures sends == 1 && c.broadcast == c.prereg == 0 ==> d.prereg == 0
    {
      hide NextStep, Future, FutureSteps;
      d, left := c, retries;
      for i := 0 to sends
        invariant left == retries
        invariant log + Future(interfaces, d, left) == old(log) + Future(interfaces, c, retries)
        invariant steps + FutureSteps(interfaces, d, left) == old(steps) + FutureSteps(interfaces, c, retries)
        invariant FutureSteps(interfaces, d, left) + i <= FutureSteps(interfaces, c, retries)
        invariant steps == old(steps) + i
        invariant (i == 0 ==> d == c) && (i == 1 && c.broadcast == c.prereg == 0 ==> d.prereg == 0)
      {
        FutureStep(interfaces, d, left);
        MulticastFirst(interfaces, d);
        ghost var was := log;
        var more;
        d, more := SendNextDiscoveryPacket(d);
        if !more {
          NextAttempt(interfaces, d, left);
          left := left - 1;
          d := d.(broadcast := 0, prereg := 0);
          break;
        }
        Regroup(was, log[|was|..], Future(interfaces, d, left));
        assert log == was + log[|was|..];
      }
    }
  }

  lemma MulticastFirst(ifs: Interfaces, c: Counters)
    ensures c.broadcast == c.prereg == 0 && NextStep(ifs, c).Step? ==> NextStep(ifs, c).counters.prereg == 0
  {
  }

  lemma FutureStep(ifs: Interfaces, c: Counters, retries: nat)
    requires retries > 0
    ensures var r := NextStep(ifs, c);
            r.Step? ==>
              && Future(ifs, c, retries) == r.sent + Future(ifs, r.counters, retries)
              && FutureSteps(ifs, c, retries) == FutureSteps(ifs, r.counters, retries) + 1
  {
    hide NextStep, Remaining, StepsLeft;
    StepSendsNext(ifs, c);
    var r := NextStep(ifs, c);
    if r.Step? {
      Regroup(r.sent, Remaining(ifs, r.counters), Passes(ifs, retries - 1));
    }
  }

  /** When an attempt is over, the next one starts with a fresh pass and without a scan. */
  lemma NextAttempt(ifs: Interfaces, c: Counters, retries: nat)
    requires NextStep(ifs, c).Done? && retries > 0
    ensures var d := c.(broadcast := 0, prereg := 0);
            && Future(ifs, c, retries) == Future(ifs, d, retries - 1)
            && FutureSteps(ifs, c, retries) == FutureSteps(ifs, d, retries - 1)
  {
  }

  lemma StartOfDiscovery(ifs: Interfaces, fullScan: bool, c: Counters)
    requires |ifs| <= 0xffff_ffff && c == Counters(0, 0, 1, if fullScan then 0 else 0xffff_ffff)
    ensures Future(ifs, c, 3) == AllSent(ifs, fullScan)
    ensures FutureSteps(ifs, c, 3) == AllSteps(ifs, fullScan)
  {
    assert Requests(ifs, c) == Pass(ifs);
    assert Passes(ifs, 3) == Pass(ifs) + Passes(ifs, 2);
    if fullScan && ifs != [] {
      assert Remaining(ifs, c) == Pass(ifs) + Scan(ifs, 0);
    } else {
      assert Remaining(ifs, c) == Pass(ifs);
    }
  }

  /** With at least one interface the loop makes six successful steps and those of a single scan. */
  lemma SixStepsAndOneScan(ifs: Interfaces, fullScan: bool)
    requires ifs != []
    ensures AllSteps(ifs, fullScan) == 6 + if fullScan then ScanSteps(ifs, 0) else 0
  {
    assert Passes(ifs, 1) == Pass(ifs) + Passes(ifs, 0);
    assert Passes(ifs, 2) == Pass(ifs) + Passes(ifs, 1);
    assert Passes(ifs, 3) == Pass(ifs) + Passes(ifs, 2);
  }
}

/**
 * The list of discovered devices: placeholders registered by IP address or by serial number alone, and
 * fully registered devices that replace them.
 */
module DeviceRegistries {
  import opened Words
  import opened Sequences

  datatype SpeedwireAddress = SpeedwireAddress(susyID: U16, serialNumber: U32)
  {
    predicate IsComplete() { susyID != 0 && serialNumber != 0 }
  }

  datatype SpeedwireDevice = SpeedwireDevice(
    address: SpeedwireAddress,
    deviceClass: string,
    deviceModel: string,
    deviceIp: string,
    interfaceIp: string)
  {
    predicate HasIPAddressOnly() { |deviceIp| > 0 && !address.IsComplete() }

    predicate HasSerialNumberOnly() { |deviceIp| == 0 && address.susyID == 0 && address.serialNumber != 0 }

    predicate IsComplete() {
      address.IsComplete() && |deviceClass| > 0 && |deviceModel| > 0 && |deviceIp| > 0 && |interfaceIp| > 0
    }

    /** operator==. */
    predicate IsSameDevice(other: SpeedwireDevice) { address == other.address && deviceIp == other.deviceIp }

    /** One of the three stages of a registration. */
    predicate HasKind() { HasIPAddressOnly() || HasSerialNumberOnly() || IsComplete() }
  }

  type Devices = seq<SpeedwireDevice>

  function IPPlaceholder(ip: string): SpeedwireDevice {
    SpeedwireDevice(SpeedwireAddress(0, 0), "", "", ip, "")
  }

  function SerialPlaceholder(serial: U32): SpeedwireDevice {
    SpeedwireDevice(SpeedwireAddress(0, serial), "", "", "", "")
  }

  // ----- the operations on the list -----

  /** The entry `d` is replaced when `info` is registered. */
  predicate Matches(d: SpeedwireDevice, info: SpeedwireDevice) {
    || (d.HasIPAddressOnly() && info.deviceIp == d.deviceIp)
    || (d.HasSerialNumberOnly() && info.address.serialNumber == d.address.serialNumber)
    || (d.IsComplete() && info.IsSameDevice(d))
  }

  function Replaced(s: Devices, info: SpeedwireDevice): (r: Devices)
    ensures |r| == |s|
    ensures forall i :: 0 <= i < |s| ==> r[i] == if Matches(s[i], info) then info else s[i]
  {
    seq(|s|, i requires 0 <= i < |s| => if Matches(s[i], info) then info else s[i])
  }

  predicate AnyMatch(s: Devices, info: SpeedwireDevice) {
    exists i :: 0 <= i < |s| && Matches(s[i], info)
  }

  /** All entries that are not the given device, in order. */
  function WithoutDevice(s: Devices, d: SpeedwireDevice): Devices {
    if s == [] then [] else (if d.IsSameDevice(s[0]) then [] else [s[0]]) + WithoutDevice(s[1..], d)
  }

  lemma {:induction false} WithoutDeviceShorter(s: Devices, d: SpeedwireDevice)
    ensures |WithoutDevice(s, d)| <= |s|
  {
    if s == [] {
    } else {
      WithoutDeviceShorter(s[1..], d);
    }
  }

  /** The first entry of every device. */
  function Deduplicated(s: Devices): Devices
    decreases |s|
  {
    if s == [] then [] else
      WithoutDeviceShorter(s[1..], s[0]);
      [s[0]] + Deduplicated(WithoutDevice(s[1..], s[0]))
  }

  function Registered(s: Devices, info: SpeedwireDevice): Devices {
    if AnyMatch(s, info) then Deduplicated(Replaced(s, info)) else s + [info]
  }

  predicate HasIP(s: Devices, ip: string) { exists i :: 0 <= i < |s| && s[i].deviceIp == ip }

  predicate HasSerial(s: Devices, serial: U32) { exists i :: 0 <= i < |s| && s[i].address.serialNumber == serial }

  lemma NoneKept(s: Devices, d: SpeedwireDevice)
    requires s == []
    ensures WithoutDevice(s, d) == []
  {
  }

  /** Whether the first of the entries stays behind those that were kept already. */
  lemma FirstKept(kept: Devices, s: Devices, d: SpeedwireDevice)
    requires s != []
    ensures kept + WithoutDevice(s, d) ==
            (if d.IsSameDevice(s[0]) then kept else kept + [s[0]]) + WithoutDevice(s[1..], d)
  {
    Regroup(kept, [s[0]], WithoutDevice(s[1..], d));
  }

  lemma NoneDeduplicated(s: Devices)
    requires s == []
    ensures Deduplicated(s) == []
  {
  }

  /** The first of the entries stays behind those that were kept already. */
  lemma FirstDeduplicated(kept: Devices, s: Devices)
    requires s != []
    ensures kept + Deduplicated(s) == (kept + [s[0]]) + Deduplicated(WithoutDevice(s[1..], s[0]))
  {
    hide WithoutDevice;
    Regroup(kept, [s[0]], Deduplicated(WithoutDevice(s[1..], s[0])));
  }

  class DeviceRegistry {
    var devices: Devices

    constructor ()
      ensures devices == []
    {
      devices := [];
    }

    method PreRegisterDevice(ip: string) returns (newDevice: bool)
      modifies this
      ensures newDevice <==> !HasIP(old(devices), ip)
      ensures devices == if newDevice then old(devices) + [IPPlaceholder(ip)] else old(devices)
      ensures newDevice ==> devices[|old(devices)|] == SpeedwireDevice(SpeedwireAddress(0, 0), "", "", ip, "")
    {
      newDevice := true;
      for i := 0 to |devices|
        invariant newDevice <==> forall j :: 0 <= j < i ==> devices[j].deviceIp != ip
      {
        if ip == devices[i].deviceIp {
          newDevice := false;
        }
      }
      if newDevice {
        devices := devices + [IPPlaceholder(ip)];
      }
    }

    method RequireDevice(serial: U32) returns (newDevice: bool)
      modifies this
      ensures newDevice <==> !HasSerial(old(devices), serial)
      ensures devices == if newDevice then old(devices) + [SerialPlaceholder(serial)] else old(devices)
      ensures newDevice ==> devices[|old(devices)|] == SpeedwireDevice(SpeedwireAddress(0, serial), "", "", "", "")
    {
      newDevice := true;
      for i := 0 to |devices|
        invariant newDevice <==> forall j :: 0 <= j < i ==> devices[j].address.serialNumber != serial
      {
        if serial == devices[i].address.serialNumber {
          newDevice := false;
        }
      }
      if newDevice {
        devices := devices + [SerialPlaceholder(serial)];
      }
    }

    /** The result tells whether the device is new or has replaced a placeholder. */
    method RegisterDevice(info: SpeedwireDevice) returns (updatedDevice: bool)
      modifies this
      ensures devices == Registered(old(devices), info)
      ensures updatedDevice <==>
                || !AnyMatch(old(devices), info)
                || exists i :: 0 <= i < |old(devices)| && !old(devices)[i].IsComplete() && Matches(old(devices)[i], info)
      ensures WellFormed(old(devices)) && info.IsComplete() ==>
                && WellFormed(devices)
                && forall d :: d in devices <==> d == info || (d in old(devices) && !Superseded(d, info))
    {
      hide WellFormed, Superseded, Deduplicated;
      ghost var s := devices;
      var newDevice := true;
      updatedDevice := false;
      for i := 0 to |devices|
        invariant |devices| == |s|
        invariant forall j :: 0 <= j < |s| ==> devices[j] == if j < i && Matches(s[j], info) then info else s[j]
        invariant newDevice <==> forall j :: 0 <= j < i ==> !Matches(s[j], info)
        invariant updatedDevice <==> exists j :: 0 <= j < i && !s[j].IsComplete() && Matches(s[j], info)
      {
        var device := devices[i];
        if device.HasIPAddressOnly() && info.deviceIp == device.deviceIp {
          devices := devices[i := info];
          newDevice := false;
          updatedDevice := true;
        } else if device.HasSerialNumberOnly() && info.address.serialNumber == device.address.serialNumber {
          devices := devices[i := info];
          newDevice := false;
          updatedDevice := true;
        } else if device.IsComplete() && info.IsSameDevice(device) {
          devices := devices[i := info];
          newDevice := false;
        }
      }
      if newDevice {
        devices := devices + [info];
        updatedDevice := true;
      }
      if !newDevice {
        assert devices == Replaced(s, info);
        EraseDuplicates();
      }
      if WellFormed(s) && info.IsComplete() {
        RegisterComplete(s, info);
      }
    }

    /** The nested loops that erase later entries of the same device. */
    method EraseDuplicates()
      modifies this
      ensures devices == Deduplicated(old(devices))
    {
      var i := 0;
      while i < |devices|
        invariant 0 <= i <= |devices|
        invariant devices[..i] + Deduplicated(devices[i..]) == Deduplicated(old(devices))
        decreases |devices| - i
      {
        hide WithoutDevice, Deduplicated;
        ghost var s := devices;
        EraseLater(i);
        WithoutDeviceShorter(s[i + 1..], s[i]);
        FirstDeduplicated(s[..i], s[i..]);
        assert devices[..i + 1] == s[..i] + [s[i]];
        assert devices[i + 1..] == WithoutDevice(s[i + 1..], s[i]);
        assert s[i..][1..] == s[i + 1..];
        i := i + 1;
      }
      NoneDeduplicated(devices[i..]);
    }

    method EraseLater(i: nat)
      requires i < |devices|
      modifies this
      ensures devices == old(devices)[..i + 1] + WithoutDevice(old(devices)[i + 1..], old(devices)[i])
    {
      hide WithoutDevice;
      ghost var s := devices;
      var j := i + 1;
      while j < |devices|
        invariant i + 1 <= j <= |devices|
        invariant devices[..j] + WithoutDevice(devices[j..], s[i]) == s[..i + 1] + WithoutDevice(s[i + 1..], s[i])
        invariant devices[i] == s[i]
        decreases |devices| - j
      {
        ghost var now := devices;
        assert now[j..][1..] == now[j + 1..];
        FirstKept(now[..j], now[j..], s[i]);
        if devices[i].IsSameDevice(devices[j]) {
          devices := devices[..j] + devices[j + 1..];
          assert devices[j..] == now[j + 1..];
        } else {
          assert now[..j + 1] == now[..j] + [now[j]];
          j := j + 1;
        }
      }
      NoneKept(devices[j..], s[i]);
    }

    method UnregisterDevice(info: SpeedwireDevice)
      modifies this
      ensures devices == WithoutDevice(old(devices), info)
    {
      hide WithoutDevice;
      var i := 0;
      assert devices[0..] == devices;
      while i < |devices|
        invariant 0 <= i <= |devices|
        invariant devices[..i] + WithoutDevice(devices[i..], info) == WithoutDevice(old(devices), info)
        decreases |devices| - i
      {
        ghost var now := devices;
        assert now[i..][1..] == now[i + 1..];
        FirstKept(now[..i], now[i..], info);
        if devices[i].IsSameDevice(info) {
          devices := devices[..i] + devices[i + 1..];
          assert devices[i..] == now[i + 1..];
        } else {
          assert now[..i + 1] == now[..i] + [now[i]];
          i := i + 1;
        }
      }
      NoneKept(devices[i..], info);
    }
  }

  // ----- what a registration does to a well-formed list -----

  ghost predicate PairwiseDistinct(s: Devices) {
    forall i, j :: 0 <= i < j < |s| ==> !s[i].IsSameDevice(s[j])
  }

  /** Two entries exclude each other: same device, or a placeholder that the other one would fill. */
  predicate Conflict(a: SpeedwireDevice, b: SpeedwireDevice) {
    || a.IsSameDevice(b)
    || ((a.HasIPAddressOnly() || b.HasIPAddressOnly()) && a.deviceIp == b.deviceIp)
    || ((a.HasSerialNumberOnly() || b.HasSerialNumberOnly()) && a.address.serialNumber == b.address.serialNumber)
  }

  /** The entry `d` gives way to `info`: it is the same device, or a placeholder for its IP address or its serial
      number. */
  predicate Superseded(d: SpeedwireDevice, info: SpeedwireDevice) {
    || (d.address == info.address && d.deviceIp == info.deviceIp)
    || (d.deviceIp == info.deviceIp != "" && (d.address.susyID == 0 || d.address.serialNumber == 0))
    || (d.deviceIp == "" && d.address.susyID == 0 && d.address.serialNumber == info.address.serialNumber != 0)
  }

  /** Of the entries of a well-formed list, the registration replaces exactly the superseded ones; for a complete
      device these are the ones in conflict with it. */
  lemma MatchesExactly(d: SpeedwireDevice, info: SpeedwireDevice)
    requires d.HasKind()
    ensures Matches(d, info) <==> Superseded(d, info)
    ensures info.IsComplete() ==> (Superseded(d, info) <==> Conflict(d, info))
    ensures info.IsComplete() ==> (Superseded(d, info) <==> Conflict(info, d))
  {
  }

  /** All entries that are not superseded, in order. */
  function Kept(s: Devices, info: SpeedwireDevice): Devices {
    if s == [] then [] else (if Superseded(s[0], info) then [] else [s[0]]) + Kept(s[1..], info)
  }

  ghost predicate WellFormed(s: Devices) {
    && (forall i :: 0 <= i < |s| ==> s[i].HasKind())
    && (forall i, j :: 0 <= i < j < |s| ==> !Conflict(s[i], s[j]))
  }

  lemma WellFormedIsDistinct(s: Devices)
    requires WellFormed(s)
    ensures PairwiseDistinct(s)
  {
  }

  lemma {:induction false} DeduplicatedDistinct(s: Devices)
    requires PairwiseDistinct(s)
    ensures Deduplicated(s) == s
  {
    if s == [] {
    } else {
      NothingRemoved(s[1..], s[0]);
      DeduplicatedDistinct(s[1..]);
    }
  }

  lemma {:induction false} NothingRemoved(s: Devices, d: SpeedwireDevice)
    requires forall i :: 0 <= i < |s| ==> !d.IsSameDevice(s[i])
    ensures WithoutDevice(s, d) == s
  {
    if s == [] {
    } else {
      NothingRemoved(s[1..], d);
    }
  }

  lemma {:induction false} ReplacedThenRemoved(s: Devices, info: SpeedwireDevice)
    requires forall i :: 0 <= i < |s| ==> s[i].HasKind()
    ensures WithoutDevice(Replaced(s, info), info) == Kept(s, info)
  {
    if s == [] {
    } else {
      assert Replaced(s, info)[1..] == Replaced(s[1..], info);
      ReplacedThenRemoved(s[1..], info);
      MatchesExactly(s[0], info);
    }
  }

  lemma {:induction false} KeptEntries(s: Devices, info: SpeedwireDevice)
    requires WellFormed(s)
    ensures WellFormed(Kept(s, info))
    ensures forall d :: d in Kept(s, info) <==> d in s && !Superseded(d, info)
  {
    if s == [] {
    } else {
      assert s == [s[0]] + s[1..];
      KeptEntries(s[1..], info);
      var u := Kept(s[1..], info);
      forall j | 0 <= j < |u|
        ensures !Conflict(s[0], u[j])
      {
        assert u[j] in u;
        var k :| 0 <= k < |s[1..]| && s[1..][k] == u[j];
        assert s[k + 1] == u[j];
      }
    }
  }

  /** Where the first superseded entry is; the length if there is none. */
  function FirstSuperseded(s: Devices, info: SpeedwireDevice): (k: nat)
    ensures k <= |s|
    ensures forall i :: 0 <= i < k ==> !Superseded(s[i], info)
    ensures k < |s| ==> Superseded(s[k], info)
  {
    if s == [] || Superseded(s[0], info) then 0 else 1 + FirstSuperseded(s[1..], info)
  }

  lemma AnyMatchExactly(s: Devices, info: SpeedwireDevice)
    requires forall i :: 0 <= i < |s| ==> s[i].HasKind()
    ensures AnyMatch(s, info) <==> FirstSuperseded(s, info) < |s|
  {
    hide Matches, Superseded;
    forall i | 0 <= i < |s|
      ensures Matches(s[i], info) <==> Superseded(s[i], info)
    {
      MatchesExactly(s[i], info);
    }
  }

  /** A registration puts the device in the place of the first superseded entry, or at the end, removes the other
      superseded entries and keeps all else in order. */
  lemma {:induction false} RegisteredInPlace(s: Devices, info: SpeedwireDevice)
    requires WellFormed(s)
    ensures var k := FirstSuperseded(s, info); Registered(s, info) == s[..k] + [info] + Kept(s[k..], info)
  {
    hide Superseded;
    var k := FirstSuperseded(s, info);
    AnyMatchExactly(s, info);
    if AnyMatch(s, info) {
      DeduplicatedReplaced(s, info);
    } else {
      assert s[k..] == [] && s[..k] == s;
    }
  }

  lemma {:induction false} DeduplicatedReplaced(s: Devices, info: SpeedwireDevice)
    requires WellFormed(s) && FirstSuperseded(s, info) < |s|
    ensures var k := FirstSuperseded(s, info);
            Deduplicated(Replaced(s, info)) == s[..k] + [info] + Kept(s[k..], info)
  {
    hide Matches, Superseded, Conflict, Deduplicated, WithoutDevice, Kept, WellFormed;
    var k, r := FirstSuperseded(s, info), Replaced(s, info);
    var rest := Replaced(s[1..], info);
    assert r[1..] == rest;
    WellFormedTail(s);
    MatchesExactly(s[0], info);
    DeduplicatedUnfolded(r);
    if k == 0 {
      ReplacedThenRemoved(s[1..], info);
      KeptEntries(s[1..], info);
      WellFormedIsDistinct(Kept(s[1..], info));
      DeduplicatedDistinct(Kept(s[1..], info));
      KeptUnfolded(s, info);
      assert s[0..] == s;
    } else {
      KeptHead(s, info);
      NothingRemoved(rest, s[0]);
      DeduplicatedReplaced(s[1..], info);
      assert s[1..][k - 1..] == s[k..];
      assert s[..k] == [s[0]] + s[1..][..k - 1];
    }
  }

  lemma WellFormedTail(s: Devices)
    requires s != [] && WellFormed(s)
    ensures WellFormed(s[1..])
    ensures forall i :: 0 <= i < |s| ==> s[i].HasKind()
  {
  }

  lemma DeduplicatedUnfolded(s: Devices)
    requires s != []
    ensures Deduplicated(s) == [s[0]] + Deduplicated(WithoutDevice(s[1..], s[0]))
  {
  }

  lemma KeptUnfolded(s: Devices, info: SpeedwireDevice)
    requires s != []
    ensures Kept(s, info) == if Superseded(s[0], info) then Kept(s[1..], info) else [s[0]] + Kept(s[1..], info)
  {
  }

  lemma KeptHead(s: Devices, info: SpeedwireDevice)
    requires s != [] && WellFormed(s) && !Superseded(s[0], info)
    ensures forall i :: 0 <= i < |s| - 1 ==> !s[0].IsSameDevice(Replaced(s[1..], info)[i])
  {
  }

  /** Registering a complete device keeps the list well formed. Afterwards the device is in the list with all its
      fields, nothing else conflicts with it, and exactly the superseded entries, those in conflict, are gone. */
  lemma RegisterComplete(s: Devices, info: SpeedwireDevice)
    requires WellFormed(s) && info.IsComplete()
    ensures WellFormed(Registered(s, info))
    ensures forall d :: d in Registered(s, info) <==> d == info || (d in s && !Superseded(d, info))
    ensures forall d :: d in Registered(s, info) <==> d == info || (d in s && !Conflict(d, info))
  {
    hide Conflict, Superseded;
    var k := FirstSuperseded(s, info);
    RegisteredInPlace(s, info);
    KeptEntries(s, info);
    KeptSplit(s, k, info);
    var head, tail := s[..k], Kept(s[k..], info);
    forall d | d in s
      ensures Superseded(d, info) <==> Conflict(d, info)
      ensures Superseded(d, info) <==> Conflict(info, d)
    {
      MatchesExactly(d, info);
    }
    assert head + tail == Kept(s, info);
    InsertWellFormed(head, tail, info);
  }

  /** In front of the first superseded entry all entries are kept. */
  lemma {:induction false} KeptSplit(s: Devices, k: nat, info: SpeedwireDevice)
    requires k <= FirstSuperseded(s, info)
    ensures Kept(s, info) == s[..k] + Kept(s[k..], info)
  {
    hide Kept, Superseded;
    if k == 0 {
      assert s[0..] == s;
    } else {
      KeptUnfolded(s, info);
      KeptSplit(s[1..], k - 1, info);
      assert s[1..][k - 1..] == s[k..];
      assert s[..k] == [s[0]] + s[1..][..k - 1];
      Regroup([s[0]], s[1..][..k - 1], Kept(s[k..], info));
    }
  }

  lemma InsertWellFormed(head: Devices, tail: Devices, info: SpeedwireDevice)
    requires WellFormed(head + tail) && info.HasKind()
    requires forall d :: d in head + tail ==> !Conflict(d, info) && !Conflict(info, d)
    ensures WellFormed(head + [info] + tail)
  {
    hide Conflict;
    var s, r := head + tail, head + [info] + tail;
    forall i | 0 <= i < |r|
      ensures r[i].HasKind()
      ensures forall j :: i < j < |r| ==> !Conflict(r[i], r[j])
    {
      var i' := if i <= |head| then i else i - 1;
      if i != |head| {
        assert r[i] == s[i'] && s[i'] in s;
      }
      forall j | i < j < |r|
        ensures !Conflict(r[i], r[j])
      {
        var j' := if j <= |head| then j else j - 1;
        if j != |head| {
          assert r[j] == s[j'] && s[j'] in s;
        }
      }
    }
  }

  // ----- every run -----

  datatype Operation =
    | PreRegister(ip: string)
    | Require(serial: U32)
    | Register(info: SpeedwireDevice)
    | Unregister(info: SpeedwireDevice)

  function Apply(s: Devices, op: Operation): Devices {
    match op
    case PreRegister(ip) => if HasIP(s, ip) then s else s + [IPPlaceholder(ip)]
    case Require(serial) => if HasSerial(s, serial) then s else s + [SerialPlaceholder(serial)]
    case Register(info) => Registered(s, info)
    case Unregister(info) => WithoutDevice(s, info)
  }

  function Run(s: Devices, ops: seq<Operation>): Devices {
    if ops == [] then s else Apply(Run(s, ops[..|ops| - 1]), ops[|ops| - 1])
  }

  /** Non-empty IP addresses, non-zero serial numbers and complete devices. */
  predicate Meaningful(op: Operation) {
    match op
    case PreRegister(ip) => |ip| > 0
    case Require(serial) => serial != 0
    case Register(info) => info.IsComplete()
    case Unregister(_) => true
  }

  /** No run of meaningful operations ever leaves two entries for one device, or a placeholder next to an
      entry that fills it. */
  lemma {:induction false} RunWellFormed(s: Devices, ops: seq<Operation>)
    requires WellFormed(s)
    requires forall i :: 0 <= i < |ops| ==> Meaningful(ops[i])
    ensures WellFormed(Run(s, ops))
  {
    if ops == [] {
    } else {
      var before, op := Run(s, ops[..|ops| - 1]), ops[|ops| - 1];
      RunWellFormed(s, ops[..|ops| - 1]);
      assert Meaningful(op);
      match op
      case PreRegister(ip) =>
      case Require(serial) =>
      case Register(info) => RegisterComplete(before, info);
      case Unregister(info) => UnregisterRemoves(before, info);
    }
  }

  /** A device that was registered in advance by its IP address and by its serial number fills both placeholders, and
      a single entry remains of them. */
  lemma PlaceholdersFilled(s: Devices, info: SpeedwireDevice)
    requires WellFormed(s) && info.IsComplete()
    requires !HasIP(s, info.deviceIp) && !HasSerial(s, info.address.serialNumber)
    ensures Run(s, [PreRegister(info.deviceIp), Require(info.address.serialNumber), Register(info)]) == s + [info]
  {
    hide WellFormed, Registered, Kept, FirstSuperseded;
    var advance := [PreRegister(info.deviceIp), Require(info.address.serialNumber)];
    var t := s + [IPPlaceholder(info.deviceIp), SerialPlaceholder(info.address.serialNumber)];
    RunAdvance(s, advance, info);
    RunWellFormed(s, advance);
    assert (advance + [Register(info)])[..2] == advance;
    assert advance + [Register(info)]
        == [PreRegister(info.deviceIp), Require(info.address.serialNumber), Register(info)];
    RegisteredInPlace(t, info);
    PlaceholdersSuperseded(s, info, t);
  }

  lemma RunAdvance(s: Devices, ops: seq<Operation>, info: SpeedwireDevice)
    requires ops == [PreRegister(info.deviceIp), Require(info.address.serialNumber)] && info.IsComplete()
    requires !HasIP(s, info.deviceIp) && !HasSerial(s, info.address.serialNumber)
    ensures Run(s, ops) == s + [IPPlaceholder(info.deviceIp), SerialPlaceholder(info.address.serialNumber)]
  {
    assert ops[..1][..0] == [] && ops[..1][0] == ops[0];
    assert Run(s, ops[..1]) == s + [IPPlaceholder(info.deviceIp)];
  }

  lemma PlaceholdersSuperseded(s: Devices, info: SpeedwireDevice, t: Devices)
    requires info.IsComplete() && !HasIP(s, info.deviceIp) && !HasSerial(s, info.address.serialNumber)
    requires t == s + [IPPlaceholder(info.deviceIp), SerialPlaceholder(info.address.serialNumber)]
    ensures FirstSuperseded(t, info) == |s| && t[..|s|] == s && Kept(t[|s|..], info) == []
  {
    hide FirstSuperseded, Kept;
    var p, q := IPPlaceholder(info.deviceIp), SerialPlaceholder(info.address.serialNumber);
    assert t[|s|] == p && t[|s|..] == [p, q];
    assert Superseded(p, info) && Superseded(q, info);
    KeptUnfolded([p, q], info);
    KeptUnfolded([q], info);
    NoneSuperseded(s, info);
    assert forall i :: 0 <= i < |s| ==> t[i] == s[i];
    assert [p, q][1..] == [q] && [q][1..] == [];
    NoneLeft(info);
  }

  lemma NoneLeft(info: SpeedwireDevice)
    ensures Kept([], info) == []
  {
  }

  lemma NoneSuperseded(s: Devices, info: SpeedwireDevice)
    requires info.IsComplete() && !HasIP(s, info.deviceIp) && !HasSerial(s, info.address.serialNumber)
    ensures forall i :: 0 <= i < |s| ==> !Superseded(s[i], info)
  {
    forall i | 0 <= i < |s|
      ensures !Superseded(s[i], info)
    {
      assert s[i].deviceIp != info.deviceIp;
      assert s[i].address.serialNumber != info.address.serialNumber;
    }
  }

  /** Unregistering removes the device and nothing else. */
  lemma {:induction false} UnregisterRemoves(s: Devices, info: SpeedwireDevice)
    requires WellFormed(s)
    ensures WellFormed(WithoutDevice(s, info))
    ensures forall d :: d in WithoutDevice(s, info) <==>
              d in s && (d.address != info.address || d.deviceIp != info.deviceIp)
  {
    hide Conflict;
    if s == [] {
    } else {
      assert s == [s[0]] + s[1..];
      assert WellFormed(s[1..]);
      UnregisterRemoves(s[1..], info);
      var u := WithoutDevice(s[1..], info);
      forall j | 0 <= j < |u|
        ensures !Conflict(s[0], u[j]) && u[j].HasKind()
      {
        assert u[j] in u;
        var k :| 0 <= k < |s[1..]| && s[1..][k] == u[j];
        assert s[k + 1] == u[j];
      }
    }
  }

  // ----- devices that are not complete -----

  /** A complete record or a placeholder, field by field. */
  predicate IsRecordOrPlaceholder(d: SpeedwireDevice) {
    if d.deviceIp == "" then d.address.susyID == 0 && d.address.serialNumber != 0
    else if d.address.susyID == 0 || d.address.serialNumber == 0 then true
    else d.deviceClass != "" && d.deviceModel != "" && d.interfaceIp != ""
  }

  /** Registering an incomplete device a second time adds a second entry for it, unless the device has the
      form of a placeholder: its entry does not match the device itself. */
  lemma RegisterTwiceExact(s: Devices, info: SpeedwireDevice)
    requires WellFormed(s)
    ensures PairwiseDistinct(Registered(Registered(s, info), info)) <==> IsRecordOrPlaceholder(info)
  {
    var once := Registered(s, info);
    WellFormedIsDistinct(s);
    RegisteredDistinct(s, info);
    if info.HasKind() {
      RegisteredDistinct(once, info);
    } else {
      RegisteredInPlace(s, info);
      NoKindNoMatch(s, info);
      var k := FirstSuperseded(s, info);
      assert once[k] == info && once + [info] == Registered(once, info);
      assert (once + [info])[k].IsSameDevice((once + [info])[|once|]);
    }
  }

  /** A list whose entries have a kind stays distinct, whatever is registered. */
  lemma RegisteredDistinct(s: Devices, info: SpeedwireDevice)
    requires PairwiseDistinct(s) && forall i :: 0 <= i < |s| ==> s[i].HasKind()
    ensures PairwiseDistinct(Registered(s, info))
    ensures info.HasKind() ==> forall i :: 0 <= i < |Registered(s, info)| ==> Registered(s, info)[i].HasKind()
  {
    if AnyMatch(s, info) {
      var r := Registered(s, info);
      DeduplicatedIsDistinct(Replaced(s, info));
      forall i | 0 <= i < |r| && info.HasKind()
        ensures r[i].HasKind()
      {
        assert r[i] in r && r[i] in Replaced(s, info);
      }
    } else {
      forall i | 0 <= i < |s|
        ensures !s[i].IsSameDevice(info)
      {
        MatchesExactly(s[i], info);
      }
    }
  }

  lemma {:induction false} DeduplicatedIsDistinct(s: Devices)
    ensures PairwiseDistinct(Deduplicated(s))
    ensures forall d :: d in Deduplicated(s) ==> d in s
    decreases |s|
  {
    if s == [] {
    } else {
      var rest := WithoutDevice(s[1..], s[0]);
      WithoutDeviceShorter(s[1..], s[0]);
      WithoutDeviceEntries(s[1..], s[0]);
      DeduplicatedIsDistinct(rest);
      assert forall i :: 0 <= i < |Deduplicated(rest)| ==> Deduplicated(rest)[i] in Deduplicated(rest);
    }
  }

  lemma {:induction false} WithoutDeviceEntries(s: Devices, d: SpeedwireDevice)
    ensures forall e :: e in WithoutDevice(s, d) ==> e in s && !d.IsSameDevice(e)
  {
    if s == [] {
    } else {
      WithoutDeviceEntries(s[1..], d);
    }
  }

  lemma NoKindNoMatch(s: Devices, info: SpeedwireDevice)
    requires WellFormed(s) && !info.HasKind()
    ensures !AnyMatch(Registered(s, info), info)
  {
    var k := FirstSuperseded(s, info);
    RegisteredInPlace(s, info);
    TailWellFormed(s, k);
    KeptEntries(s[k..], info);
    NoneMatches(s[..k], info, Kept(s[k..], info));
  }

  lemma TailWellFormed(s: Devices, k: nat)
    requires WellFormed(s) && k <= |s|
    ensures WellFormed(s[k..])
  {
  }

  lemma NoneMatches(head: Devices, info: SpeedwireDevice, tail: Devices)
    requires !info.HasKind()
    requires forall i :: 0 <= i < |head| ==> !Superseded(head[i], info)
    requires forall d :: d in tail ==> !Superseded(d, info)
    ensures !AnyMatch(head + [info] + tail, info)
  {
    var r := head + [info] + tail;
    assert forall i :: |head| < i < |r| ==> r[i] in tail;
  }
}

/**
 * Emeter timestamps (32-bit milliseconds) and inverter timestamps (32-bit seconds), and their
 * expansion to 64-bit unix epoch milliseconds around a reference time.
 */
module SpeedwireTime {
  import opened Words
  import opened Division

  // ----- modular differences -----

  /** The int32_t reading of the 32-bit difference. */
  function Difference32(time1: U32, time2: U32): (d: int)
    ensures -TWO_31 <= d < TWO_31
    ensures (time2 + d) % TWO_32 == time1
  {
    var diff := (time1 - time2) % TWO_32;
    if diff < TWO_31 then diff else diff - TWO_32
  }

  function Difference64(time1: U64, time2: U64): (d: int)
    ensures -TWO_63 <= d < TWO_63
    ensures (time2 + d) % TWO_64 == time1
  {
    var diff := (time1 - time2) % TWO_64;
    if diff < TWO_63 then diff else diff - TWO_64
  }

  function AbsDifference32(time1: U32, time2: U32): U32 {
    var d := Difference32(time1, time2);
    if d >= 0 then d else -d
  }

  function AbsDifference64(time1: U64, time2: U64): U64 {
    var d := Difference64(time1, time2);
    if d >= 0 then d else -d
  }

  /** The signed difference recovers the true difference of any two instants less than 2^31 apart. */
  lemma DifferenceOfInstants(a: int, b: int)
    requires -TWO_31 <= a - b < TWO_31
    ensures Difference32(a % TWO_32, b % TWO_32) == a - b
  {
    var d, k := a - b, b / TWO_32 - a / TWO_32;
    assert a % TWO_32 - b % TWO_32 == d + TWO_32 * k;
    AddMultiple(d, k, TWO_32);
  }

  // ----- conversions -----

  function UnixEpochToEmeter(epoch: U64): U32 { epoch % TWO_32 }

  function UnixEpochToInverter(epoch: U64): U32 { (epoch / 1000) % TWO_32 }

  /** Join the upper half of the reference with the given lower half; correct the upper half by one. */
  function ExpandTimeTo64(truncated: U32, current: U64): U64 {
    var msbs := current / TWO_32;
    var lsbs := current % TWO_32;
    var expanded: U64 := msbs * TWO_32 + truncated;
    var delta := AbsDifference64(current, expanded);
    if lsbs >= TWO_31 then
      var plus1: U64 := ((msbs + 1) * TWO_32) % TWO_64 + truncated;
      if AbsDifference64(current, plus1) <= delta then plus1 else expanded
    else
      var minus1: U64 := ((msbs - 1) * TWO_32) % TWO_64 + truncated;
      if AbsDifference64(current, minus1) <= delta then minus1 else expanded
  }

  function EmeterToUnixEpoch(emeter: U32, current: U64): U64 {
    ExpandTimeTo64(emeter, current)
  }

  function InverterToUnixEpoch(inverter: U32, current: U64): U64 {
    (ExpandTimeTo64(inverter, current / 1000) * 1000) % TWO_64
  }

  function EmeterToInverter(emeter: U32, current: U64): U32 {
    UnixEpochToInverter(EmeterToUnixEpoch(emeter, current))
  }

  function InverterToEmeter(inverter: U32, current: U64): U32 {
    UnixEpochToEmeter(InverterToUnixEpoch(inverter, current))
  }

  // ----- the expansion is the nearest representative -----

  /** Times that the expansion around `current` can represent: nearer than 2^31, or at the tie
      that the code resolves towards the corrected upper half. */
  predicate InExpansionWindow(time: U64, current: U64) {
    var d := Difference64(time, current);
    || -TWO_31 < d < TWO_31
    || (d == TWO_31 && current % TWO_32 >= TWO_31)
    || (d == -TWO_31 && current % TWO_32 < TWO_31)
  }

  /** A difference is recognised by its residue and its range. */
  lemma DifferenceIs(x: U64, y: U64, d: int, k: int)
    requires x == y + d + k * TWO_64 && -TWO_63 <= d < TWO_63
    ensures Difference64(x, y) == d
    ensures d != -TWO_63 ==> AbsDifference64(y, x) == AbsDifference64(x, y) == if d >= 0 then d else -d
  {
    assert (x - y) % TWO_64 == if d >= 0 then d else d + TWO_64;
    assert d != -TWO_63 ==> (y - x) % TWO_64 == if d > 0 then TWO_64 - d else -d;
  }

  /** The upper-half correction by +1 or -1 moves the candidate by 2^32 modulo 2^64. */
  lemma CorrectedUpperHalf(msbs: int, shift: int) returns (m: int, k: int)
    requires 0 <= msbs < TWO_32 && (shift == 1 || shift == -1)
    ensures 0 <= m < TWO_32 && m == msbs + shift + k * TWO_32
    ensures ((msbs + shift) * TWO_32) % TWO_64 == m * TWO_32
  {
    m := (msbs + shift) % TWO_32;
    k := if m == msbs + shift then 0 else if shift == 1 then -1 else 1;
  }

  /** The distance of a candidate whose upper half is `m`, which is `shift` away from that of the reference. */
  lemma CandidateDistance(truncated: U32, m: int, msbs: int, lsbs: U32, shift: int, k: int)
    requires 0 <= m < TWO_32 && 0 <= msbs < TWO_32 && -1 <= shift <= 1 && m == msbs + shift + k * TWO_32
    ensures var candidate: U64 := m * TWO_32 + truncated;
            var current: U64 := msbs * TWO_32 + lsbs;
            var d := truncated - lsbs + shift * TWO_32;
            && candidate % TWO_32 == truncated
            && Difference64(candidate, current) == d
            && AbsDifference64(current, candidate) == if d >= 0 then d else -d
  {
    hide Difference64, AbsDifference64;
    DifferenceIs(m * TWO_32 + truncated, msbs * TWO_32 + lsbs, truncated - lsbs + shift * TWO_32, k);
  }

  /** The expansion keeps the 32 given bits and lands in the window. */
  lemma ExpandInWindow(truncated: U32, current: U64)
    ensures ExpandTimeTo64(truncated, current) % TWO_32 == truncated
    ensures InExpansionWindow(ExpandTimeTo64(truncated, current), current)
  {
    hide Difference64, AbsDifference64;
    var msbs := current / TWO_32;
    var lsbs := current % TWO_32;
    var shift := if lsbs >= TWO_31 then 1 else -1;
    var m, k := CorrectedUpperHalf(msbs, shift);
    CandidateDistance(truncated, msbs, msbs, lsbs, 0, 0);
    CandidateDistance(truncated, m, msbs, lsbs, shift, k);
  }

  /** No other 64-bit time with the same lower half is nearer to the reference. */
  lemma ExpandIsNearest(truncated: U32, current: U64, time: U64)
    requires time % TWO_32 == truncated
    ensures AbsDifference64(current, ExpandTimeTo64(truncated, current)) <= TWO_31
    ensures AbsDifference64(current, ExpandTimeTo64(truncated, current)) <= AbsDifference64(current, time)
  {
    ExpandInWindow(truncated, current);
    var e := ExpandTimeTo64(truncated, current);
    SameLowerHalf(e, time, current);
    AbsIsSymmetric(e, current);
    AbsIsSymmetric(time, current);
    LeastResidueIsNearest(Difference64(e, current), Difference64(time, current));
  }

  lemma LeastResidueIsNearest(dx: int, dy: int)
    requires -TWO_31 <= dx <= TWO_31 && (dx - dy) % TWO_32 == 0
    ensures (if dx >= 0 then dx else -dx) <= (if dy >= 0 then dy else -dy)
  {
  }

  lemma AbsIsSymmetric(x: U64, y: U64)
    ensures AbsDifference64(y, x) == AbsDifference64(x, y)
  {
    var d := Difference64(x, y);
    if d == -TWO_63 {
      assert (y - x) % TWO_64 == TWO_63;
    } else {
      DifferenceIs(x, y, d, (x - y - d) / TWO_64);
    }
  }

  /** Distances to a reference of two times with equal lower halves differ by a multiple of 2^32. */
  lemma SameLowerHalf(x: U64, y: U64, current: U64)
    requires x % TWO_32 == y % TWO_32
    ensures (Difference64(x, current) - Difference64(y, current)) % TWO_32 == 0
  {
    hide Difference64;
    var dx, dy := Difference64(x, current), Difference64(y, current);
    LowerHalf(current + dx);
    LowerHalf(current + dy);
    SameResidue(current + dx, current + dy);
  }

  lemma LowerHalf(a: int)
    ensures (a % TWO_64) % TWO_32 == a % TWO_32
  {
  }

  lemma SameResidue(a: int, b: int)
    requires a % TWO_32 == b % TWO_32
    ensures (a - b) % TWO_32 == 0
  {
  }

  /** Two times in the window with the same lower half are the same time. */
  lemma WindowIsInjective(x: U64, y: U64, current: U64)
    requires x % TWO_32 == y % TWO_32
    requires InExpansionWindow(x, current) && InExpansionWindow(y, current)
    ensures x == y
  {
    SameLowerHalf(x, y, current);
    assert Difference64(x, current) == Difference64(y, current);
  }

  // ----- round trips, in both directions -----

  /** An emeter time is recovered exactly if and only if it lies in the window of the reference. */
  lemma EmeterRoundTrip(epoch: U64, current: U64)
    ensures EmeterToUnixEpoch(UnixEpochToEmeter(epoch), current) == epoch <==> InExpansionWindow(epoch, current)
  {
    ExpandInWindow(UnixEpochToEmeter(epoch), current);
    if InExpansionWindow(epoch, current) {
      WindowIsInjective(ExpandTimeTo64(UnixEpochToEmeter(epoch), current), epoch, current);
    }
  }

  /** An inverter time is recovered to the second if and only if its second lies in the window
      around the second of the reference. */
  lemma InverterRoundTrip(epoch: U64, current: U64)
    ensures InverterToUnixEpoch(UnixEpochToInverter(epoch), current) == epoch / 1000 * 1000
       <==> InExpansionWindow(epoch / 1000, current / 1000)
  {
    SecondsRoundTrip(epoch / 1000, current / 1000);
  }

  /** The scaling to milliseconds modulo 2^64 neither loses nor invents a match. */
  lemma SecondsRoundTrip(seconds: U64, reference: U64)
    requires seconds * 1000 < TWO_64 && reference * 1000 < TWO_64
    ensures (ExpandTimeTo64(seconds % TWO_32, reference) * 1000) % TWO_64 == seconds * 1000
       <==> InExpansionWindow(seconds, reference)
  {
    var e := ExpandTimeTo64(seconds % TWO_32, reference);
    ExpandInWindow(seconds % TWO_32, reference);
    if InExpansionWindow(seconds, reference) {
      WindowIsInjective(e, seconds, reference);
    }
    ScalingIsInjective(e, seconds, reference);
  }

  /** The factor 1000 hides three of the upper bits only, and none of them can differ. */
  lemma ScalingIsInjective(e: U64, seconds: U64, reference: U64)
    requires seconds * 1000 < TWO_64 && reference * 1000 < TWO_64
    requires InExpansionWindow(e, reference)
    ensures (e * 1000) % TWO_64 == seconds * 1000 <==> e == seconds
  {
    if (e * 1000) % TWO_64 == seconds * 1000 {
      TimesThousand(e, seconds);
      NotHidden(e, seconds, reference);
    }
  }

  lemma NotHidden(e: U64, seconds: U64, reference: U64)
    requires seconds * 1000 < TWO_64 && reference * 1000 < TWO_64
    requires -TWO_31 <= Difference64(e, reference) <= TWO_31 && (e - seconds) % 0x2000_0000_0000_0000 == 0
    ensures e == seconds
  {
  }

  lemma TimesThousand(e: int, q: int)
    requires (e * 1000) % TWO_64 == (q * 1000) % TWO_64
    ensures (e - q) % 0x2000_0000_0000_0000 == 0
  {
    var k := (e * 1000) / TWO_64 - (q * 1000) / TWO_64;
    assert (e - q) * 1000 == k * TWO_64;
    assert (e - q) * 125 == k * 0x2000_0000_0000_0000;
    // 125 is invertible modulo 2^61
    InverseOf125(e - q, k);
  }

  lemma InverseOf125(x: int, k: int)
    requires x * 125 == k * 0x2000_0000_0000_0000
    ensures x % 0x2000_0000_0000_0000 == 0
  {
    // 2^61 is 77 modulo 125, and 13 * 77 is 1 modulo 125
    assert k * 77 == 125 * (x - k * 18446744073709551);
    assert k == 125 * (13 * (x - k * 18446744073709551) - 8 * k);
  }

  /** Inside the window both cross conversions agree with converting the epoch time itself. */
  lemma CrossConversionsAgree(epoch: U64, current: U64)
    ensures InExpansionWindow(epoch, current)
        ==> EmeterToInverter(UnixEpochToEmeter(epoch), current) == UnixEpochToInverter(epoch)
    ensures InExpansionWindow(epoch / 1000, current / 1000)
        ==> InverterToEmeter(UnixEpochToInverter(epoch), current) == UnixEpochToEmeter(epoch / 1000 * 1000)
  {
    EmeterRoundTrip(epoch, current);
    InverterRoundTrip(epoch, current);
  }
}

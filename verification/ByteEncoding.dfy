/** Integers of 16, 32 and 64 bits in big and little endian byte order, and their access in a buffer. */
module ByteEncoding {
  import opened Words

  // ----- values and their bytes -----

  function BigEndian16(v: U16): (b: seq<U8>)
    ensures |b| == 2
  {
    [v / 0x100, v % 0x100]
  }

  function BigEndian32(v: U32): (b: seq<U8>)
    ensures |b| == 4
  {
    BigEndian16(v / TWO_16) + BigEndian16(v % TWO_16)
  }

  function BigEndian64(v: U64): (b: seq<U8>)
    ensures |b| == 8
  {
    BigEndian32(v / TWO_32) + BigEndian32(v % TWO_32)
  }

  function LittleEndian16(v: U16): (b: seq<U8>)
    ensures |b| == 2
  {
    [v % 0x100, v / 0x100]
  }

  function LittleEndian32(v: U32): (b: seq<U8>)
    ensures |b| == 4
  {
    [v % 0x100, v / 0x100 % 0x100, v / 0x1_0000 % 0x100, v / 0x100_0000]
  }

  function LittleEndian64(v: U64): (b: seq<U8>)
    ensures |b| == 8
  {
    LittleEndian32(v % TWO_32) + LittleEndian32(v / TWO_32)
  }

  function GetUint16BigEndian(b: seq<U8>, i: nat): U16
    requires i + 2 <= |b|
  {
    b[i] as int * 0x100 + b[i + 1]
  }

  function GetUint32BigEndian(b: seq<U8>, i: nat): U32
    requires i + 4 <= |b|
  {
    GetUint16BigEndian(b, i) * TWO_16 + GetUint16BigEndian(b, i + 2)
  }

  function GetUint64BigEndian(b: seq<U8>, i: nat): U64
    requires i + 8 <= |b|
  {
    GetUint32BigEndian(b, i) * TWO_32 + GetUint32BigEndian(b, i + 4)
  }

  function GetUint16LittleEndian(b: seq<U8>, i: nat): U16
    requires i + 2 <= |b|
  {
    b[i] + b[i + 1] as int * 0x100
  }

  function GetUint32LittleEndian(b: seq<U8>, i: nat): U32
    requires i + 4 <= |b|
  {
    b[i] + b[i + 1] as int * 0x100 + b[i + 2] as int * 0x1_0000 + b[i + 3] as int * 0x100_0000
  }

  function GetUint64LittleEndian(b: seq<U8>, i: nat): U64
    requires i + 8 <= |b|
  {
    GetUint32LittleEndian(b, i) + GetUint32LittleEndian(b, i + 4) * TWO_32
  }

  /** `b` with `bytes` at position `i`. */
  function Overwritten(b: seq<U8>, i: nat, bytes: seq<U8>): (r: seq<U8>)
    requires i + |bytes| <= |b|
    ensures |r| == |b|
    ensures r[i..i + |bytes|] == bytes
    ensures forall j :: 0 <= j < |b| && !(i <= j < i + |bytes|) ==> r[j] == b[j]
  {
    b[..i] + bytes + b[i + |bytes|..]
  }

  /** Bytes written behind bytes that were just written. */
  lemma Appended(b: seq<U8>, i: nat, x: seq<U8>, c: seq<U8>, y: seq<U8>, d: seq<U8>)
    requires i + |x| + |y| <= |b| && c == Overwritten(b, i, x) && d == Overwritten(c, i + |x|, y)
    ensures d == Overwritten(b, i, x + y)
  {
  }

  // ----- round trips -----

  /** Getters depend on the bytes they read only. */
  lemma SameBytesSameValue(b: seq<U8>, i: nat, c: seq<U8>, j: nat, n: nat)
    requires i + n <= |b| && j + n <= |c| && b[i..i + n] == c[j..j + n]
    ensures n >= 2 ==> GetUint16BigEndian(b, i) == GetUint16BigEndian(c, j)
    ensures n >= 4 ==> GetUint32BigEndian(b, i) == GetUint32BigEndian(c, j)
    ensures n >= 8 ==> GetUint64BigEndian(b, i) == GetUint64BigEndian(c, j)
    ensures n >= 4 ==> GetUint32LittleEndian(b, i) == GetUint32LittleEndian(c, j)
  {
    var s := b[i..i + n];
    assert n >= 2 ==> s[0] == b[i] == c[j] && s[1] == b[i + 1] == c[j + 1];
    assert n >= 4 ==> s[2] == b[i + 2] == c[j + 2] && s[3] == b[i + 3] == c[j + 3];
    assert n >= 8 ==> s[4] == b[i + 4] == c[j + 4] && s[5] == b[i + 5] == c[j + 5];
    assert n >= 8 ==> s[6] == b[i + 6] == c[j + 6] && s[7] == b[i + 7] == c[j + 7];
  }

  /** What was set is what is got, anywhere in any buffer, in both byte orders. */
  lemma RoundTrip16(b: seq<U8>, i: nat, v: U16)
    requires i + 2 <= |b|
    ensures GetUint16BigEndian(Overwritten(b, i, BigEndian16(v)), i) == v
    ensures GetUint16LittleEndian(Overwritten(b, i, LittleEndian16(v)), i) == v
  {
  }

  lemma RoundTrip32(b: seq<U8>, i: nat, v: U32)
    requires i + 4 <= |b|
    ensures GetUint32BigEndian(Overwritten(b, i, BigEndian32(v)), i) == v
    ensures GetUint32LittleEndian(Overwritten(b, i, LittleEndian32(v)), i) == v
  {
    hide GetUint32BigEndian, GetUint32LittleEndian, BigEndian32, LittleEndian32;
    SameBytesSameValue(Overwritten(b, i, BigEndian32(v)), i, BigEndian32(v), 0, 4);
    SameBytesSameValue(Overwritten(b, i, LittleEndian32(v)), i, LittleEndian32(v), 0, 4);
    BigEndianValue(v);
    LittleEndianValue(v);
  }

  lemma BigEndianValue(v: U32)
    ensures GetUint32BigEndian(BigEndian32(v), 0) == v
  {
  }

  lemma BigEndianValue16(v: U16)
    ensures GetUint16BigEndian(BigEndian16(v), 0) == v
  {
  }

  lemma LittleEndianValue(v: U32)
    ensures GetUint32LittleEndian(LittleEndian32(v), 0) == v
  {
    var a, b := v / 0x100, v / 0x1_0000;
    assert v == v % 0x100 + a * 0x100;
    assert a == a % 0x100 + b * 0x100;
    assert b == b % 0x100 + v / 0x100_0000 * 0x100;
  }

  lemma RoundTrip64(b: seq<U8>, i: nat, v: U64)
    requires i + 8 <= |b|
    ensures GetUint64BigEndian(Overwritten(b, i, BigEndian64(v)), i) == v
    ensures GetUint64LittleEndian(Overwritten(b, i, LittleEndian64(v)), i) == v
  {
    hide BigEndian32, LittleEndian32, GetUint32BigEndian, GetUint32LittleEndian;
    var hi: U32, lo: U32 := v / TWO_32, v % TWO_32;
    TwoWords(b, i, BigEndian32(hi), BigEndian32(lo));
    TwoWords(b, i, LittleEndian32(lo), LittleEndian32(hi));
    RoundTrip32(b, i, hi);
    RoundTrip32(b, i, lo);
    RoundTrip32(b, i + 4, hi);
    RoundTrip32(b, i + 4, lo);
  }

  lemma TwoWords(b: seq<U8>, i: nat, first: seq<U8>, second: seq<U8>)
    requires i + 8 <= |b| && |first| == 4 && |second| == 4
    ensures var r := Overwritten(b, i, first + second);
            && GetUint32BigEndian(r, i) == GetUint32BigEndian(Overwritten(b, i, first), i)
            && GetUint32BigEndian(r, i + 4) == GetUint32BigEndian(Overwritten(b, i + 4, second), i + 4)
            && GetUint32LittleEndian(r, i) == GetUint32LittleEndian(Overwritten(b, i, first), i)
            && GetUint32LittleEndian(r, i + 4) == GetUint32LittleEndian(Overwritten(b, i + 4, second), i + 4)
  {
  }

  /** Setting what was got changes nothing. */
  lemma SetBack(b: seq<U8>, i: nat)
    requires i + 4 <= |b|
    ensures BigEndian16(GetUint16BigEndian(b, i)) == b[i..i + 2]
    ensures BigEndian32(GetUint32BigEndian(b, i)) == b[i..i + 4]
  {
    SetBack16(b, i);
    SetBack16(b, i + 2);
    var hi, lo := GetUint16BigEndian(b, i), GetUint16BigEndian(b, i + 2);
    assert (hi * TWO_16 + lo) / TWO_16 == hi && (hi * TWO_16 + lo) % TWO_16 == lo;
    assert b[i..i + 4] == b[i..i + 2] + b[i + 2..i + 4];
  }

  lemma SetBack16(b: seq<U8>, i: nat)
    requires i + 2 <= |b|
    ensures BigEndian16(GetUint16BigEndian(b, i)) == b[i..i + 2]
  {
  }

  // ----- the meaning of the two byte orders -----

  /** The number with these digits to the base 256, the most significant one first. */
  function Number(digits: seq<U8>): nat {
    if digits == [] then 0 else Number(digits[..|digits| - 1]) * 0x100 + digits[|digits| - 1]
  }

  function Reversed(b: seq<U8>): (r: seq<U8>)
    ensures |r| == |b| && forall i :: 0 <= i < |b| ==> r[i] == b[|b| - 1 - i]
  {
    seq(|b|, i requires 0 <= i < |b| => b[|b| - 1 - i])
  }

  lemma NumberAppended(digits: seq<U8>, digit: U8)
    ensures Number(digits + [digit]) == Number(digits) * 0x100 + digit
  {
    assert (digits + [digit])[..|digits|] == digits;
  }

  lemma Number4(a: U8, b: U8, c: U8, d: U8)
    ensures Number([a, b]) == a as int * 0x100 + b
    ensures Number([a, b, c, d]) == a as int * 0x100_0000 + b as int * 0x1_0000 + c as int * 0x100 + d
  {
    assert Number([]) == 0;
    NumberAppended([], a);
    NumberAppended([a], b);
    NumberAppended([a, b], c);
    NumberAppended([a, b, c], d);
    assert [] + [a] == [a] && [a] + [b] == [a, b] && [a, b] + [c] == [a, b, c] && [a, b, c] + [d] == [a, b, c, d];
  }

  lemma Number8(high: seq<U8>, low: seq<U8>)
    requires |high| == 4 && |low| == 4
    ensures Number(high + low) == Number(high) * TWO_32 + Number(low)
  {
    var a, b, c, d := low[0], low[1], low[2], low[3];
    NumberAppended(high, a);
    NumberAppended(high + [a], b);
    NumberAppended(high + [a] + [b], c);
    NumberAppended(high + [a] + [b] + [c], d);
    Number4(a, b, c, d);
    assert low == [a, b, c, d];
    assert high + low == high + [a] + [b] + [c] + [d];
  }

  /** Big endian values have their most significant byte first, little endian values last. */
  lemma ByteOrder(b: seq<U8>, i: nat)
    ensures i + 2 <= |b| ==>
              && GetUint16BigEndian(b, i) == Number(b[i..i + 2])
              && GetUint16LittleEndian(b, i) == Number(Reversed(b[i..i + 2]))
    ensures i + 4 <= |b| ==>
              && GetUint32BigEndian(b, i) == Number(b[i..i + 4])
              && GetUint32LittleEndian(b, i) == Number(Reversed(b[i..i + 4]))
    ensures i + 8 <= |b| ==>
              && GetUint64BigEndian(b, i) == Number(b[i..i + 8])
              && GetUint64LittleEndian(b, i) == Number(Reversed(b[i..i + 8]))
  {
    hide Number, GetUint64BigEndian, GetUint64LittleEndian;
    if i + 2 <= |b| {
      Number4(b[i], b[i + 1], 0, 0);
      Number4(b[i + 1], b[i], 0, 0);
      assert b[i..i + 2] == [b[i], b[i + 1]] && Reversed(b[i..i + 2]) == [b[i + 1], b[i]];
    }
    if i + 4 <= |b| {
      FourBytes(b, i);
    }
    if i + 8 <= |b| {
      EightBytes(b, i);
    }
  }

  lemma FourBytes(b: seq<U8>, i: nat)
    requires i + 4 <= |b|
    ensures GetUint32BigEndian(b, i) == Number(b[i..i + 4])
    ensures GetUint32LittleEndian(b, i) == Number(Reversed(b[i..i + 4]))
  {
    hide Number;
    Number4(b[i], b[i + 1], b[i + 2], b[i + 3]);
    Number4(b[i + 3], b[i + 2], b[i + 1], b[i]);
    assert b[i..i + 4] == [b[i], b[i + 1], b[i + 2], b[i + 3]];
    assert Reversed(b[i..i + 4]) == [b[i + 3], b[i + 2], b[i + 1], b[i]];
  }

  lemma EightBytes(b: seq<U8>, i: nat)
    requires i + 8 <= |b|
    ensures GetUint64BigEndian(b, i) == Number(b[i..i + 8])
    ensures GetUint64LittleEndian(b, i) == Number(Reversed(b[i..i + 8]))
  {
    hide Number, GetUint32BigEndian, GetUint32LittleEndian;
    FourBytes(b, i);
    FourBytes(b, i + 4);
    Number8(b[i..i + 4], b[i + 4..i + 8]);
    Number8(Reversed(b[i + 4..i + 8]), Reversed(b[i..i + 4]));
    assert b[i..i + 8] == b[i..i + 4] + b[i + 4..i + 8];
    assert Reversed(b[i..i + 8]) == Reversed(b[i + 4..i + 8]) + Reversed(b[i..i + 4]);
  }

  // ----- setters on a buffer -----

  method SetUint8(a: array<U8>, i: nat, v: U8)
    requires i < a.Length
    modifies a
    ensures a[..] == Overwritten(old(a[..]), i, [v])
  {
    a[i] := v;
  }

  method SetUint16BigEndian(a: array<U8>, i: nat, v: U16)
    requires i + 2 <= a.Length
    modifies a
    ensures a[..] == Overwritten(old(a[..]), i, BigEndian16(v))
  {
    a[i], a[i + 1] := v / 0x100, v % 0x100;
  }

  method SetUint32BigEndian(a: array<U8>, i: nat, v: U32)
    requires i + 4 <= a.Length
    modifies a
    ensures a[..] == Overwritten(old(a[..]), i, BigEndian32(v))
  {
    a[i], a[i + 1] := v / TWO_16 / 0x100, v / TWO_16 % 0x100;
    a[i + 2], a[i + 3] := v % TWO_16 / 0x100, v % TWO_16 % 0x100;
  }

  method SetUint64BigEndian(a: array<U8>, i: nat, v: U64)
    requires i + 8 <= a.Length
    modifies a
    ensures a[..] == Overwritten(old(a[..]), i, BigEndian64(v))
  {
    hide BigEndian32;
    SetUint32BigEndian(a, i, v / TWO_32);
    ghost var c := a[..];
    SetUint32BigEndian(a, i + 4, v % TWO_32);
    Appended(old(a[..]), i, BigEndian32(v / TWO_32), c, BigEndian32(v % TWO_32), a[..]);
  }

  method SetUint32LittleEndian(a: array<U8>, i: nat, v: U32)
    requires i + 4 <= a.Length
    modifies a
    ensures a[..] == Overwritten(old(a[..]), i, LittleEndian32(v))
  {
    a[i], a[i + 1], a[i + 2], a[i + 3] := v % 0x100, v / 0x100 % 0x100, v / 0x1_0000 % 0x100, v / 0x100_0000;
  }

  method SetUint16LittleEndian(a: array<U8>, i: nat, v: U16)
    requires i + 2 <= a.Length
    modifies a
    ensures a[..] == Overwritten(old(a[..]), i, LittleEndian16(v))
  {
    a[i], a[i + 1] := v % 0x100, v / 0x100;
  }

  method SetUint64LittleEndian(a: array<U8>, i: nat, v: U64)
    requires i + 8 <= a.Length
    modifies a
    ensures a[..] == Overwritten(old(a[..]), i, LittleEndian64(v))
  {
    hide LittleEndian32;
    SetUint32LittleEndian(a, i, v % TWO_32);
    ghost var c := a[..];
    SetUint32LittleEndian(a, i + 4, v / TWO_32);
    Appended(old(a[..]), i, LittleEndian32(v % TWO_32), c, LittleEndian32(v / TWO_32), a[..]);
  }

  /** memcpy of constant data. */
  method CopyBytes(a: array<U8>, i: nat, bytes: seq<U8>)
    requires i + |bytes| <= a.Length
    modifies a
    ensures a[..] == Overwritten(old(a[..]), i, bytes)
  {
    forall k | 0 <= k < |bytes| {
      a[i + k] := bytes[k];
    }
  }
}

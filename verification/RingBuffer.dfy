/**
 * The ring buffer. `dataVector` holds the elements, `refVector` holds, twice in a row, references to
 * them (modelled as indices into `dataVector`), so that a run of elements can be read without wrapping.
 * The abstract value is the plain sequence of the elements from oldest to newest.
 */
module RingBuffers {
  import opened Words

  // ----- the plain sequence a ring buffer stands for -----

  /** The last `n` elements of `s`, or all of them if there are fewer. */
  function Newest<T>(s: seq<T>, n: nat): (r: seq<T>)
  {
    if |s| <= n then s else s[|s| - n..]
  }

  /** `s` without the `n` elements that start at `offs`; positions outside `s` are ignored. */
  function Without<T>(s: seq<T>, offs: nat, n: nat): (r: seq<T>)
  {
    s[..Min(offs, |s|)] + s[Min(offs + n, |s|)..]
  }

  /** What is removed is one run of elements, of which `n` are asked for; putting it back restores the sequence. */
  lemma WithoutExact<T>(s: seq<T>, offs: nat, n: nat)
    ensures var removed, r := Min(n, Max(0, |s| - offs)), Without(s, offs, n);
            && |r| == |s| - removed
            && (removed > 0 ==> s == r[..offs] + s[offs..offs + removed] + r[offs..])
            && (removed == 0 ==> r == s)
  {
  }

  datatype Operation<T> =
    | Add(value: T)
    | Remove(offs: U64, n: U64)
    | Clear
    | SetCapacity(capacity: nat)

  datatype Abstract<T> = Abstract(contents: seq<T>, capacity: nat)

  /** What each operation does to the plain sequence; a capacity of 0 grows to 1 on the first addition. */
  function Apply<T>(a: Abstract<T>, op: Operation<T>): Abstract<T> {
    match op
    case Add(v) => var c := Max(a.capacity, 1); Abstract(Newest(a.contents + [v], c), c)
    case Remove(offs, n) => a.(contents := Without(a.contents, offs, n))
    case Clear => a.(contents := [])
    case SetCapacity(c) => Abstract([], Max(a.capacity, c))
  }

  function Run<T>(a: Abstract<T>, ops: seq<Operation<T>>): Abstract<T> {
    if ops == [] then a else Apply(Run(a, ops[..|ops| - 1]), ops[|ops| - 1])
  }

  function Additions<T>(values: seq<T>): (ops: seq<Operation<T>>)
    ensures |ops| == |values|
    ensures forall i :: 0 <= i < |values| ==> ops[i] == Add(values[i])
  {
    seq(|values|, i requires 0 <= i < |values| => Add(values[i]))
  }

  lemma NewestOfNewest<T>(s: seq<T>, value: T, n: nat)
    requires n > 0
    ensures Newest(Newest(s, n) + [value], n) == Newest(s + [value], n)
  {
  }

  /** Adding one after the other keeps exactly the newest `capacity` of everything seen. */
  lemma {:induction false} AdditionsKeepNewest<T>(a: Abstract<T>, values: seq<T>)
    requires |a.contents| <= a.capacity
    ensures var r := Run(a, Additions(values));
            && r.capacity == (if values == [] then a.capacity else Max(a.capacity, 1))
            && r.contents == Newest(a.contents + values, r.capacity)
            && |r.contents| == Min(|a.contents| + |values|, r.capacity)
            && r.contents == (a.contents + values)[|a.contents| + |values| - |r.contents|..]
  {
    NewestExact(a.contents + values, Run(a, Additions(values)).capacity);
    hide Newest, Apply;
    if values == [] {
      assert a.contents + values == a.contents;
      NewestAll(a.contents, a.capacity);
    } else {
      var front, last := values[..|values| - 1], values[|values| - 1];
      assert Additions(values)[..|values| - 1] == Additions(front);
      AdditionsKeepNewest(a, front);
      OneMoreAddition(a, front, last, Run(a, Additions(front)));
      assert a.contents + values == a.contents + front + [last];
    }
  }

  lemma NewestExact<T>(s: seq<T>, n: nat)
    ensures |Newest(s, n)| == Min(|s|, n) && Newest(s, n) == s[|s| - |Newest(s, n)|..]
  {
  }

  lemma NewestAll<T>(s: seq<T>, n: nat)
    requires |s| <= n
    ensures Newest(s, n) == s
  {
  }

  lemma OneMoreAddition<T>(a: Abstract<T>, front: seq<T>, last: T, r: Abstract<T>)
    requires |a.contents| <= a.capacity
    requires r.capacity == if front == [] then a.capacity else Max(a.capacity, 1)
    requires r.contents == Newest(a.contents + front, r.capacity)
    ensures Apply(r, Add(last)) == Abstract(Newest(a.contents + front + [last], Max(a.capacity, 1)), Max(a.capacity, 1))
  {
    if front == [] {
      assert a.contents + front == a.contents;
    } else {
      NewestOfNewest(a.contents + front, last, Max(a.capacity, 1));
    }
  }

  /** No run makes the plain sequence longer than its capacity, and no run shrinks the capacity. */
  lemma {:induction false} RunBounded<T>(a: Abstract<T>, ops: seq<Operation<T>>)
    requires |a.contents| <= a.capacity
    ensures |Run(a, ops).contents| <= Run(a, ops).capacity
    ensures a.capacity <= Run(a, ops).capacity
  {
    if ops == [] {
    } else {
      RunBounded(a, ops[..|ops| - 1]);
    }
  }

  /** The documented effect of setMaximumNumberOfElements, a buffer of exactly `capacity` elements,
      holds if and only if the new capacity is not smaller: std::vector::reserve never shrinks. */
  lemma SetCapacityExact<T>(a: Abstract<T>, capacity: nat)
    ensures Apply(a, SetCapacity(capacity)) == Abstract([], capacity) <==> capacity >= a.capacity
  {
  }

  // ----- removal with the 64-bit sum of its arguments -----

  /** The elements that the two copy loops collect, with offs + n computed modulo 2^64. */
  function Kept<T>(s: seq<T>, offs: U64, n: U64): seq<T> {
    s[..Min(offs, |s|)] + s[Min((offs + n) % TWO_64, |s|)..]
  }

  lemma KeptParts<T>(s: seq<T>, offs: U64, n: U64)
    ensures Kept(s, offs, n) == s[0..Min(offs, |s|)] + s[Min((offs + n) % TWO_64, |s|)..|s|]
  {
  }

  lemma Extend<T>(s: seq<T>, from: nat, i: nat)
    requires from <= i < |s|
    ensures s[from..i + 1] == s[from..i] + [s[i]]
  {
  }

  predicate SumInRange(size: nat, offs: U64, n: U64) {
    offs + n < TWO_64 || offs + n - TWO_64 >= size
  }

  /** The loops remove what they should if and only if the sum does not wrap below the size. In every
      other case they duplicate elements instead and the result outgrows the buffer. */
  lemma RemovalExact<T>(s: seq<T>, offs: U64, n: U64)
    requires |s| < TWO_64
    ensures Kept(s, offs, n) == Without(s, offs, n) <==> SumInRange(|s|, offs, n)
    ensures !SumInRange(|s|, offs, n) ==> |Kept(s, offs, n)| > |s|
  {
    if !SumInRange(|s|, offs, n) {
      assert |Without(s, offs, n)| <= |s|;
    }
  }

  // ----- the class -----

  /** The first `n` positions of both halves refer to the elements 0 to n - 1. */
  ghost predicate DoubledUpTo(refs: seq<int>, size: nat, n: nat)
    requires n <= size && 2 * size <= |refs|
  {
    forall j :: 0 <= j < 2 * size ==>
      (j < n ==> refs[j] == j) && (size <= j < size + n ==> refs[j] == j - size)
  }

  /** The elements of a vector in cyclic order from position `w`. */
  ghost function Rotated<T>(d: seq<T>, w: nat): (s: seq<T>)
    requires w <= |d|
    ensures |s| == |d|
  {
    d[w..] + d[..w]
  }

  /** Overwriting the oldest element and moving on drops it and appends the new one. */
  lemma OverwriteOldest<T>(d: seq<T>, w: nat, value: T)
    requires w < |d|
    ensures Rotated(d[w := value], if w + 1 == |d| then 0 else w + 1) == Newest(Rotated(d, w) + [value], |d|)
  {
  }

  class RingBuffer<T> {
    var dataVector: seq<T>
    var refVector: seq<int>
    var capacity: nat          // data_vector.capacity()
    var writePointer: nat

    ghost predicate Valid()
      reads this
    {
      && |dataVector| <= capacity <= TWO_63 - 1
      && (if |dataVector| < capacity || capacity == 0 then writePointer == |dataVector| else writePointer < capacity)
      && 2 * |dataVector| <= |refVector|
      && DoubledUpTo(refVector, |dataVector|, |dataVector|)
    }

    /** From oldest to newest. */
    ghost function Contents(): (s: seq<T>)
      reads this
      requires Valid()
      ensures |s| == |dataVector|
    {
      Rotated(dataVector, writePointer)
    }

    ghost function Value(): Abstract<T>
      reads this
      requires Valid()
    {
      Abstract(Contents(), capacity)
    }

    constructor (capacity: nat)
      requires capacity < TWO_63
      ensures Valid() && Value() == Abstract([], capacity)
    {
      dataVector := [];
      refVector := seq(2 * capacity, _ => -1);  // NULL pointers
      this.capacity := capacity;
      writePointer := 0;
    }

    method ClearElements()
      requires Valid()
      modifies this
      ensures Valid() && Value() == Apply(old(Value()), Clear)
      ensures refVector == old(refVector)
    {
      dataVector := [];
      writePointer := 0;
    }

    method SetMaximumNumberOfElements(newCapacity: nat)
      requires Valid() && newCapacity < TWO_63
      modifies this
      ensures Valid() && Value() == Apply(old(Value()), SetCapacity(newCapacity))
    {
      ClearElements();
      capacity := Max(capacity, newCapacity);  // reserve
    }

    function GetNumberOfElements(): (n: nat)
      reads this
      requires Valid()
      ensures n == |Contents()|
    {
      |dataVector|
    }

    method AddNewElement(value: T)
      requires Valid()
      modifies this
      ensures Valid() && Value() == Apply(old(Value()), Add(value))
    {
      if |dataVector| > writePointer {
        OverwriteOldest(dataVector, writePointer, value);
        dataVector := dataVector[writePointer := value];
      } else {
        if |dataVector| == capacity {
          capacity := capacity + 1;  // push_back on a full vector, which happens for capacity 0 only
        }
        dataVector := dataVector + [value];
        refVector := Resized(refVector, 2 * |dataVector|);
        UpdateReferences();
      }
      writePointer := writePointer + 1;
      if writePointer >= capacity {
        writePointer := 0;
      }
    }

    /** The loop that points both halves of the reference vector at the elements. */
    method UpdateReferences()
      requires 2 * |dataVector| <= |refVector|
      modifies `refVector
      ensures |refVector| == old(|refVector|)
      ensures DoubledUpTo(refVector, |dataVector|, |dataVector|)
    {
      var size := |dataVector|;
      for i := 0 to size
        invariant |refVector| == old(|refVector|)
        invariant DoubledUpTo(refVector, size, i)
      {
        refVector := refVector[i := i][i + size := i];
      }
    }

    method RemoveElements(offs: U64, n: U64) returns (removed: nat)
      requires Valid()
      requires SumInRange(GetNumberOfElements(), offs, n)
      modifies this
      ensures Valid() && Value() == Apply(old(Value()), Remove(offs, n))
      ensures removed == Min(n, Max(0, |old(Contents())| - offs)) == |old(Contents())| - |Contents()|
    {
      var size := |dataVector|;
      RemovalExact(Contents(), offs, n);
      WithoutExact(Contents(), offs, n);
      var temp := CopyKept(offs, n);
      ClearElements();
      dataVector := temp;
      writePointer := if |temp| >= capacity then 0 else |temp|;
      UpdateReferences();
      removed := size - |temp|;
    }

    /** The two copy loops of the removal. */
    method CopyKept(offs: U64, n: U64) returns (temp: seq<T>)
      requires Valid()
      ensures temp == Kept(Contents(), offs, n)
    {
      hide Rotated, DoubledUpTo, At, Kept;
      var size := |dataVector|;
      ghost var s := Contents();
      temp := [];
      var i := 0;
      while i < offs && i < size
        invariant 0 <= i <= Min(offs, size)
        invariant temp == s[0..i]
      {
        Extend(s, 0, i);
        temp := temp + [At(i)];
        i := i + 1;
      }
      i := (offs + n) % TWO_64;
      ghost var head, from := temp, Min(i, size);
      while i < size
        invariant from <= Min(i, size)
        invariant temp == head + s[from..Min(i, size)]
        decreases size - i
      {
        Extend(s, from, i);
        temp := temp + [At(i)];
        i := i + 1;
      }
      KeptParts(s, offs, n);
    }

    /** Unchecked access through the doubled references: the i-th oldest element. */
    function At(i: nat): (value: T)
      reads this
      requires Valid() && i < GetNumberOfElements()
      ensures value == Contents()[i]
    {
      dataVector[refVector[writePointer + i]]
    }

    /** operator[]: the same element, and the out-of-bounds element exactly for the other indices. */
    function Get(i: U64): (value: Option<T>)
      reads this
      requires Valid()
      ensures value == if i < |Contents()| then Some(Contents()[i]) else None
    {
      var index := GetDataVectorIndex(i);
      if index != NO_INDEX then Some(dataVector[index]) else None
    }

    function GetNewestElement(): (value: Option<T>)
      reads this
      requires Valid()
      ensures value == if Contents() == [] then None else Some(Contents()[|Contents()| - 1])
    {
      Get((|dataVector| - 1) % TWO_64)
    }

    function GetOldestElement(): (value: Option<T>)
      reads this
      requires Valid()
      ensures value == if Contents() == [] then None else Some(Contents()[0])
    {
      Get(0)
    }

    function GetDataVectorIndex(ringBufferIndex: U64): (index: U64)
      reads this
      requires Valid()
      ensures index < |dataVector| || index == NO_INDEX
    {
      var size := |dataVector|;
      if ringBufferIndex < size then
        var index := writePointer + ringBufferIndex;
        if index >= size then index - size else index
      else NO_INDEX
    }

    function GetRingBufferIndex(dataVectorIndex: U64): (index: U64)
      reads this
      requires Valid()
      ensures index < |dataVector| || index == NO_INDEX
    {
      var size := |dataVector|;
      if dataVectorIndex < size then
        var index := (dataVectorIndex - writePointer) % TWO_64;
        if index >= size then (index + size) % TWO_64 else index
      else NO_INDEX
    }

    /** The two index maps are inverse bijections on the valid indices, and they translate positions
        in the plain sequence to positions in the vector. */
    lemma IndexMapsInverse(i: U64)
      requires Valid()
      ensures i < |dataVector| ==>
                && GetRingBufferIndex(GetDataVectorIndex(i)) == i
                && GetDataVectorIndex(GetRingBufferIndex(i)) == i
                && Contents()[i] == dataVector[GetDataVectorIndex(i)]
                && dataVector[i] == Contents()[GetRingBufferIndex(i)]
      ensures i >= |dataVector| ==> GetRingBufferIndex(i) == NO_INDEX && GetDataVectorIndex(i) == NO_INDEX
    {
      if i < |dataVector| {
        RingBufferIndexValue(i);
        RingBufferIndexValue(GetDataVectorIndex(i));
      }
    }

    /** The unsigned subtraction and its correction amount to a subtraction modulo the size. */
    lemma RingBufferIndexValue(d: U64)
      requires Valid() && d < |dataVector|
      ensures GetRingBufferIndex(d) == if writePointer <= d then d - writePointer else d - writePointer + |dataVector|
    {
    }
  }

  /** std::vector::resize. */
  function Resized(v: seq<int>, n: nat): (r: seq<int>)
    ensures |r| == n
  {
    if n <= |v| then v[..n] else v + seq(n - |v|, _ => -1)
  }
}

/**
 * Temporal averaging: for every device a timer decides block by block whether received elements are
 * forwarded to the consumers. The size of `unsigned long`, 32 or 64 bits, is a parameter.
 */
module AveragingProcessors {
  import opened Words
  import opened Division

  datatype DeviceType = EMETER | INVERTER

  /** The unsigned long of the platform. */
  datatype Word = Long32 | Long64 {
    function Size(): nat { if Long32? then TWO_32 else TWO_64 }

    function Wrapped(x: nat): (v: U64)
      ensures v < Size() && (x < Size() ==> v == x) && (Size() <= x < 2 * Size() ==> v == x - Size())
    {
      if Long32? then x % TWO_32 else x % TWO_64
    }
  }

  datatype AveragingState = AveragingState(
    serialNumber: U32,
    deviceType: DeviceType,
    averagingTime: U64,
    remainder: U64,
    currentTimestamp: U32,
    currentTimestampIsValid: bool,
    averagingTimeReached: bool)

  /** A received element: its identity and the time of its newest measurement. */
  datatype Element = Element(id: int, time: U32)

  datatype Event =
    | Consume(kind: DeviceType, serial: U32, element: Element)
    | EndOfData(kind: DeviceType, serial: U32, time: U32)

  /** A call to one consumer. */
  datatype Delivery = Delivery(consumer: nat, event: Event)

  datatype Config = Config(
    word: Word,
    obisTime: U64,
    speedwireTime: U64,
    obisConsumers: seq<nat>,
    speedwireConsumers: seq<nat>)

  datatype World = World(states: seq<AveragingState>, log: seq<Delivery>)

  // ----- the timers as functions -----

  function AveragingTime(c: Config, kind: DeviceType): U64 {
    if kind == EMETER then c.obisTime else c.speedwireTime / 1000
  }

  function InitialState(c: Config, serial: U32, kind: DeviceType): AveragingState {
    AveragingState(serial, kind, AveragingTime(c, kind), 0, 0, false, false)
  }

  /** Completed averaging periods, and what is left over. */
  function Periods(x: nat, T: nat): nat
    requires T > 0
  {
    x / T
  }

  function Rest(x: nat, T: nat): (r: nat)
    requires T > 0
    ensures r < T
  {
    x % T
  }

  /** The timer of one device, given the time of an element. */
  function Advance(w: Word, st: AveragingState, time: U32): AveragingState {
    var timed :=
      if st.averagingTime == 0 then st.(averagingTimeReached := true)
      else if !st.currentTimestampIsValid then st.(averagingTimeReached := false)
      else if time != st.currentTimestamp then
        var sum := w.Wrapped(st.remainder + (time - st.currentTimestamp) % TWO_32);
        var reached := sum >= st.averagingTime;
        st.(remainder := if reached then Rest(sum, st.averagingTime) else sum, averagingTimeReached := reached)
      else st;
    timed.(currentTimestamp := time, currentTimestampIsValid := true)
  }

  /** The first state with this serial number, or the number of states. */
  function IndexOf(states: seq<AveragingState>, serial: U32): (k: nat)
    ensures k <= |states|
    ensures k < |states| ==> states[k].serialNumber == serial
    ensures forall j :: 0 <= j < k ==> states[j].serialNumber != serial
  {
    if states == [] || states[0].serialNumber == serial then 0 else 1 + IndexOf(states[1..], serial)
  }

  /** The state of a device, if it has one yet. */
  function DeviceState(states: seq<AveragingState>, serial: U32): Option<AveragingState> {
    var k := IndexOf(states, serial);
    if k < |states| then Some(states[k]) else None
  }

  /** The state of a device, freshly initialized if there is none yet. */
  function StateOf(c: Config, states: seq<AveragingState>, serial: U32, kind: DeviceType): AveragingState {
    match DeviceState(states, serial)
    case Some(st) => st
    case None => InitialState(c, serial, kind)
  }

  function Updated(c: Config, states: seq<AveragingState>, serial: U32, kind: DeviceType, time: U32)
    : seq<AveragingState>
  {
    var k := IndexOf(states, serial);
    var st := Advance(c.word, StateOf(c, states, serial, kind), time);
    if k < |states| then states[k := st] else states + [st]
  }

  function Consumers(c: Config, kind: DeviceType): seq<nat> {
    if kind == EMETER then c.obisConsumers else c.speedwireConsumers
  }

  function Deliveries(consumers: seq<nat>, e: Event): (d: seq<Delivery>)
    ensures |d| == |consumers|
    ensures forall i :: 0 <= i < |d| ==> d[i] == Delivery(consumers[i], e)
  {
    seq(|consumers|, i requires 0 <= i < |consumers| => Delivery(consumers[i], e))
  }

  /** Whether an event is forwarded, given the states after its own timer update. */
  predicate Forwarded(states: seq<AveragingState>, serial: U32) {
    var st := DeviceState(states, serial);
    st.Some? && st.value.averagingTimeReached
  }

  function StatesAfter(c: Config, states: seq<AveragingState>, e: Event): seq<AveragingState> {
    if e.Consume? then Updated(c, states, e.serial, e.kind, e.element.time) else states
  }

  function Apply(c: Config, w: World, e: Event): World {
    var states := StatesAfter(c, w.states, e);
    World(states, if Forwarded(states, e.serial) then w.log + Deliveries(Consumers(c, e.kind), e) else w.log)
  }

  // ----- the class -----

  class AveragingProcessor {
    const word: Word
    const averagingTimeObisData: U64
    const averagingTimeSpeedwireData: U64
    var states: seq<AveragingState>
    var obisConsumerTable: seq<nat>
    var speedwireConsumerTable: seq<nat>
    ghost var log: seq<Delivery>

    constructor (word: Word, averagingTimeObisData: U64, averagingTimeSpeedwireData: U64)
      requires averagingTimeObisData < word.Size() && averagingTimeSpeedwireData < word.Size()
      ensures Configuration() == Config(word, averagingTimeObisData, averagingTimeSpeedwireData, [], [])
      ensures Snapshot() == World([], [])
    {
      this.word := word;
      this.averagingTimeObisData := averagingTimeObisData;
      this.averagingTimeSpeedwireData := averagingTimeSpeedwireData;
      states, obisConsumerTable, speedwireConsumerTable := [], [], [];
      log := [];
    }

    ghost function Configuration(): Config
      reads this
    {
      Config(word, averagingTimeObisData, averagingTimeSpeedwireData, obisConsumerTable, speedwireConsumerTable)
    }

    ghost function Snapshot(): World
      reads this
    {
      World(states, log)
    }

    method AddObisConsumer(consumer: nat)
      modifies `obisConsumerTable
      ensures obisConsumerTable == old(obisConsumerTable) + [consumer]
    {
      obisConsumerTable := obisConsumerTable + [consumer];
    }

    method AddSpeedwireConsumer(consumer: nat)
      modifies `speedwireConsumerTable
      ensures speedwireConsumerTable == old(speedwireConsumerTable) + [consumer]
    {
      speedwireConsumerTable := speedwireConsumerTable + [consumer];
    }

    method InitializeState(serial: U32, kind: DeviceType) returns (index: nat)
      modifies `states
      ensures states == old(states) + [InitialState(Configuration(), serial, kind)]
      ensures index == |old(states)|
      ensures kind == EMETER ==> states[index].averagingTime == averagingTimeObisData
      ensures kind == INVERTER ==> states[index].averagingTime == averagingTimeSpeedwireData / 1000
    {
      var averagingTime: U64 := 0;
      if kind == EMETER {
        averagingTime := averagingTimeObisData;
      } else if kind == INVERTER {
        averagingTime := averagingTimeSpeedwireData / 1000;
      }
      states := states + [AveragingState(serial, kind, averagingTime, 0, 0, false, false)];
      index := |states| - 1;
    }

    method FindStateIndex(serial: U32) returns (index: int)
      ensures index == if IndexOf(states, serial) < |states| then IndexOf(states, serial) else -1
    {
      for i := 0 to |states|
        invariant forall j :: 0 <= j < i ==> states[j].serialNumber != serial
      {
        if states[i].serialNumber == serial {
          return i;
        }
      }
      return -1;
    }

    method Process(serial: U32, kind: DeviceType, time: U32) returns (reached: bool)
      modifies `states
      ensures states == Updated(Configuration(), old(states), serial, kind, time)
      ensures reached == Forwarded(states, serial)
    {
      ghost var before, config := states, Configuration();
      var index := FindStateIndex(serial);
      if index < 0 {
        index := InitializeState(serial, kind);
      }
      var st := states[index];
      if st.averagingTime == 0 {
        st := st.(averagingTimeReached := true);
      } else {
        if !st.currentTimestampIsValid {
          st := st.(averagingTimeReached := false);
        } else if time != st.currentTimestamp {
          st := st.(remainder := word.Wrapped(st.remainder + (time - st.currentTimestamp) % TWO_32));
          st := st.(averagingTimeReached := st.remainder >= st.averagingTime);
          if st.averagingTimeReached {
            st := st.(remainder := Rest(st.remainder, st.averagingTime));
          }
        }
      }
      st := st.(currentTimestamp := time, currentTimestampIsValid := true);
      states := states[index := st];
      assert st == Advance(config.word, StateOf(config, before, serial, kind), time);
      UpdatedState(config, before, serial, kind, time, serial);
      return st.averagingTimeReached;
    }

    method ConsumeObisData(serial: U32, element: Element)
      modifies `states, `log
      ensures Snapshot() == Apply(Configuration(), old(Snapshot()), Consume(EMETER, serial, element))
    {
      var reached := Process(serial, EMETER, element.time);
      if reached {
        ghost var e := Consume(EMETER, serial, element);
        for i := 0 to |obisConsumerTable|
          invariant states == Updated(Configuration(), old(states), serial, EMETER, element.time)
          invariant log == old(log) + Deliveries(obisConsumerTable[..i], e)
        {
          log := log + [Delivery(obisConsumerTable[i], e)];
        }
        assert obisConsumerTable[..|obisConsumerTable|] == obisConsumerTable;
      }
    }

    method ConsumeSpeedwireData(serial: U32, element: Element)
      modifies `states, `log
      ensures Snapshot() == Apply(Configuration(), old(Snapshot()), Consume(INVERTER, serial, element))
    {
      var reached := Process(serial, INVERTER, element.time);
      if reached {
        ghost var e := Consume(INVERTER, serial, element);
        for i := 0 to |speedwireConsumerTable|
          invariant states == Updated(Configuration(), old(states), serial, INVERTER, element.time)
          invariant log == old(log) + Deliveries(speedwireConsumerTable[..i], e)
        {
          log := log + [Delivery(speedwireConsumerTable[i], e)];
        }
        assert speedwireConsumerTable[..|speedwireConsumerTable|] == speedwireConsumerTable;
      }
    }

    method EndOfObisData(serial: U32, time: U32)
      modifies `log
      ensures Snapshot() == Apply(Configuration(), old(Snapshot()), EndOfData(EMETER, serial, time))
    {
      var index := FindStateIndex(serial);
      if index >= 0 && states[index].averagingTimeReached {
        ghost var e := EndOfData(EMETER, serial, time);
        for i := 0 to |obisConsumerTable|
          invariant log == old(log) + Deliveries(obisConsumerTable[..i], e)
        {
          log := log + [Delivery(obisConsumerTable[i], e)];
        }
        assert obisConsumerTable[..|obisConsumerTable|] == obisConsumerTable;
      }
    }

    method EndOfSpeedwireData(serial: U32, time: U32)
      modifies `log
      ensures Snapshot() == Apply(Configuration(), old(Snapshot()), EndOfData(INVERTER, serial, time))
    {
      var index := FindStateIndex(serial);
      if index >= 0 && states[index].averagingTimeReached {
        ghost var e := EndOfData(INVERTER, serial, time);
        for i := 0 to |speedwireConsumerTable|
          invariant log == old(log) + Deliveries(speedwireConsumerTable[..i], e)
        {
          log := log + [Delivery(speedwireConsumerTable[i], e)];
        }
        assert speedwireConsumerTable[..|speedwireConsumerTable|] == speedwireConsumerTable;
      }
    }
  }

  // ----- non-interference -----

  /** An element changes the state of its own device only. */
  lemma UpdatedState(c: Config, states: seq<AveragingState>, serial: U32, kind: DeviceType, time: U32, other: U32)
    ensures var after := Updated(c, states, serial, kind, time);
            if other == serial
            then DeviceState(after, other) == Some(Advance(c.word, StateOf(c, states, serial, kind), time))
            else DeviceState(after, other) == DeviceState(states, other)
  {
    var after := Updated(c, states, serial, kind, time);
    var k := IndexOf(states, serial);
    assert forall j :: 0 <= j < |states| && j != k ==> after[j] == states[j];
    assert after[k].serialNumber == serial;
  }

  function Run(c: Config, w: World, events: seq<Event>): World {
    if events == [] then w else Apply(c, Run(c, w, events[..|events| - 1]), events[|events| - 1])
  }

  /** The times of the elements of one device. */
  function Times(events: seq<Event>, serial: U32): seq<U32> {
    if events == [] then [] else
      var e := events[|events| - 1];
      Times(events[..|events| - 1], serial) + if e.Consume? && e.serial == serial then [e.element.time] else []
  }

  /** The kind of the first element of a device, which decides its averaging time. */
  function FirstKind(events: seq<Event>, serial: U32): DeviceType {
    if events == [] then EMETER else
      var front := events[..|events| - 1];
      if Times(front, serial) == [] then events[|events| - 1].kind else FirstKind(front, serial)
  }

  /** The timer of a single device that receives elements at the given times. */
  function Timer(w: Word, st: AveragingState, times: seq<U32>): AveragingState {
    if times == [] then st else Advance(w, Timer(w, st, times[..|times| - 1]), times[|times| - 1])
  }

  /** In any interleaving, every device runs its own timer as if it were alone. */
  lemma {:induction false} DevicesIndependent(c: Config, events: seq<Event>, serial: U32)
    ensures DeviceState(Run(c, World([], []), events).states, serial)
         == if Times(events, serial) == [] then None
            else Some(Timer(c.word, InitialState(c, serial, FirstKind(events, serial)), Times(events, serial)))
  {
    hide Advance, Updated;
    if events == [] {
    } else {
      var front, e := events[..|events| - 1], events[|events| - 1];
      DevicesIndependent(c, front, serial);
      var states, times := Run(c, World([], []), front).states, Times(front, serial);
      if e.Consume? {
        UpdatedState(c, states, e.serial, e.kind, e.element.time, serial);
        if e.serial == serial {
          assert Times(events, serial) == times + [e.element.time];
        } else {
          assert Times(events, serial) == times + [] == times;
        }
      } else {
        assert Times(events, serial) == times + [] == times;
      }
    }
  }

  // ----- what a timer computes -----

  /** The sum of the 32-bit steps between successive times. */
  function Elapsed(times: seq<U32>): nat {
    if |times| < 2 then 0
    else Elapsed(times[..|times| - 1]) + (times[|times| - 1] - times[|times| - 2]) % TWO_32
  }

  /** The position of the first element of the block, the elements with the same time, at the end. */
  function BlockStart(times: seq<U32>): (k: nat)
    requires times != []
    ensures k < |times|
  {
    var n := |times| - 1;
    if n > 0 && times[n] == times[n - 1] then BlockStart(times[..n]) else n
  }

  /** The block at the end raises the number of completed averaging periods; the first block never does. */
  predicate CompletesPeriod(times: seq<U32>, T: nat)
    requires times != [] && T > 0
  {
    var k := BlockStart(times);
    k > 0 && Periods(Elapsed(times), T) > Periods(Elapsed(times[..k]), T)
  }

  /** Averaging times for which the timer cannot wrap around. */
  predicate NoWrap(w: Word, T: U64) {
    match w
    case Long32 => T <= 1
    case Long64 => T <= 0xffff_ffff_0000_0001
  }

  /** The state that the documentation of the timer promises. */
  ghost predicate TimerCorrect(st: AveragingState, times: seq<U32>, T: U64)
    requires times != [] && T > 0
  {
    && st.averagingTime == T && st.currentTimestampIsValid && st.currentTimestamp == times[|times| - 1]
    && st.remainder == Rest(Elapsed(times), T)
    && (st.averagingTimeReached <==> CompletesPeriod(times, T))
  }

  /** The remainder is the elapsed time modulo the averaging time, and a block is forwarded exactly when
      it completes a period. */
  lemma {:induction false} TimerMeetsPromise(w: Word, st: AveragingState, times: seq<U32>)
    requires times != [] && st.averagingTime > 0 && st.remainder == 0 && !st.currentTimestampIsValid
    requires NoWrap(w, st.averagingTime)
    ensures TimerCorrect(Timer(w, st, times), times, st.averagingTime)
  {
    var T, n := st.averagingTime, |times| - 1;
    var front := times[..n];
    if n == 0 {
      assert Timer(w, st, front) == st;
    } else {
      TimerMeetsPromise(w, st, front);
      if times[n] == times[n - 1] {
        SameBlock(times);
      } else {
        NewBlock(times);
        TimerStep(w, Timer(w, st, front), times, T);
      }
    }
  }

  /** Another element of the same block changes nothing. */
  lemma SameBlock(times: seq<U32>)
    requires |times| > 1 && times[|times| - 1] == times[|times| - 2]
    ensures var front := times[..|times| - 1];
            && Elapsed(times) == Elapsed(front)
            && BlockStart(times) == BlockStart(front)
            && times[..BlockStart(times)] == front[..BlockStart(front)]
  {
  }

  /** The first element of a new block adds its step to the elapsed time. */
  lemma NewBlock(times: seq<U32>)
    requires |times| > 1 && times[|times| - 1] != times[|times| - 2]
    ensures BlockStart(times) == |times| - 1
    ensures Elapsed(times) == Elapsed(times[..|times| - 1]) + (times[|times| - 1] - times[|times| - 2]) % TWO_32
  {
  }

  lemma TimerStep(w: Word, st: AveragingState, times: seq<U32>, T: U64)
    requires |times| > 1 && times[|times| - 1] != times[|times| - 2] && T > 0 && NoWrap(w, T)
    requires TimerCorrect(st, times[..|times| - 1], T)
    ensures TimerCorrect(Advance(w, st, times[|times| - 1]), times, T)
  {
    hide Elapsed, BlockStart, Periods, Rest;
    var front, n := times[..|times| - 1], |times| - 1;
    var step := (times[n] - times[n - 1]) % TWO_32;
    NewBlock(times);
    AddStep(Elapsed(front), step, T);
    assert times[..BlockStart(times)] == front;
    var sum := st.remainder + step;
    assert w.Wrapped(sum) == sum;
  }

  /** One timer step in terms of elapsed time. */
  lemma AddStep(elapsed: nat, step: nat, T: nat)
    requires T > 0
    ensures Rest(elapsed, T) + step >= T <==> Periods(elapsed + step, T) > Periods(elapsed, T)
    ensures Rest(elapsed + step, T) == Rest(Rest(elapsed, T) + step, T)
    ensures Rest(elapsed, T) + step < T ==> Rest(elapsed + step, T) == Rest(elapsed, T) + step
  {
    var q, r := elapsed / T, elapsed % T;
    var a := r + step;
    Decomposed(elapsed, T);
    Decomposed(a, T);
    assert (q + a / T) * T == q * T + a / T * T;
    DivisionUnique(elapsed + step, q + a / T, a % T, T);
    if a < T {
      DivisionUnique(a, 0, a, T);
    } else {
      MultipleLess(0, a / T, T);
    }
  }

  // ----- when the sum does wrap -----

  /** A device that is sent steps of 2^32 - 1 reaches any elapsed time. */
  lemma {:induction false} ReachElapsed(elapsed: nat) returns (times: seq<U32>)
    ensures |times| >= 2 && Elapsed(times) == elapsed
  {
    if elapsed < TWO_32 {
      times := [0, elapsed];
      assert times[..1] == [0];
      assert Elapsed([0]) == 0;
      assert elapsed % TWO_32 == elapsed;
    } else {
      var before := ReachElapsed(elapsed - (TWO_32 - 1));
      times := Step(before, TWO_32 - 1);
    }
  }

  lemma Step(before: seq<U32>, step: nat) returns (times: seq<U32>)
    requires before != [] && step < TWO_32
    ensures |times| == |before| + 1 && times[..|before|] == before
    ensures Elapsed(times) == Elapsed(before) + step
    ensures step > 0 ==> times[|before|] != before[|before| - 1]
  {
    var t := before[|before| - 1];
    times := before + [(t + step) % TWO_32];
    assert times[..|before|] == before;
    assert ((t + step) % TWO_32 - t) % TWO_32 == step;
  }

  /** The timer keeps its promise for all sequences of elements if and only if the averaging time leaves
      room for one more 32-bit step in an unsigned long; with 32 bits these are the times up to 1. */
  lemma TimerExact(w: Word, st: AveragingState)
    requires 0 < st.averagingTime < w.Size() && st.remainder == 0 && !st.currentTimestampIsValid
    ensures NoWrap(w, st.averagingTime) <==>
            forall times: seq<U32> :: times != [] ==> TimerCorrect(Timer(w, st, times), times, st.averagingTime)
  {
    hide TimerCorrect;
    var T := st.averagingTime;
    if NoWrap(w, T) {
      forall times: seq<U32> | times != []
        ensures TimerCorrect(Timer(w, st, times), times, T)
      {
        TimerMeetsPromise(w, st, times);
      }
    } else {
      var times := WrapBreaksPromise(w, st);
    }
  }

  lemma WrapBreaksPromise(w: Word, st: AveragingState) returns (times: seq<U32>)
    requires 0 < st.averagingTime < w.Size() && !NoWrap(w, st.averagingTime)
    ensures times != [] && !TimerCorrect(Timer(w, st, times), times, st.averagingTime)
  {
    hide TimerCorrect;
    var T := st.averagingTime;
    times := ReachElapsed(T - 1);
    if TimerCorrect(Timer(w, st, times), times, T) {
      var before := times;
      times := Step(before, TWO_32 - 1);
      WrappedStep(w, Timer(w, st, before), before, times, T);
      assert times[..|times| - 1] == before;
    }
  }

  lemma WrappedStep(w: Word, st: AveragingState, before: seq<U32>, times: seq<U32>, T: U64)
    requires !NoWrap(w, T) && 0 < T < w.Size()
    requires before != [] && TimerCorrect(st, before, T) && Elapsed(before) == T - 1
    requires |times| == |before| + 1 && times[..|before|] == before && times[|before|] != before[|before| - 1]
    requires Elapsed(times) == T - 1 + TWO_32 - 1
    ensures !TimerCorrect(Advance(w, st, times[|before|]), times, T)
  {
    hide BlockStart;
    NewBlock(times);
    DivisionUnique(T - 1, 0, T - 1, T);
    Decomposed(T - 1 + TWO_32 - 1, T);
    assert w.Wrapped(T - 1 + TWO_32 - 1) == T - 1 + TWO_32 - 1 - w.Size() < T;
  }

  // ----- all or nothing -----

  /** Whether event `i` of a run is forwarded to the consumers of its kind. */
  ghost predicate IsForwarded(c: Config, events: seq<Event>, i: nat)
    requires i < |events|
  {
    Forwarded(Run(c, World([], []), events[..i + 1]).states, events[i].serial)
  }

  /** Between events i and j, the device receives no element with another time than that of element i. */
  ghost predicate SameBlockOfDevice(events: seq<Event>, i: nat, j: nat)
    requires i <= j < |events|
  {
    && events[i].Consume? && events[j].serial == events[i].serial
    && forall k :: i < k <= j && events[k].Consume? && events[k].serial == events[i].serial ==>
         events[k].element.time == events[i].element.time
  }

  /** A block of elements with the same time and its end marker are forwarded as a whole or not at all,
      whatever other devices do in between. */
  lemma {:induction false} BlockAllOrNothing(c: Config, events: seq<Event>, i: nat, j: nat)
    requires i <= j < |events| && SameBlockOfDevice(events, i, j)
    ensures IsForwarded(c, events, j) <==> IsForwarded(c, events, i)
  {
    var serial := events[i].serial;
    StateKept(c, events, i, j);
  }

  /** Up to event j the timer state of the device is the one after element i. */
  lemma {:induction false} StateKept(c: Config, events: seq<Event>, i: nat, j: nat)
    requires i <= j < |events| && events[i].Consume?
    requires forall k :: i < k <= j && events[k].Consume? && events[k].serial == events[i].serial ==>
               events[k].element.time == events[i].element.time
    ensures var serial := events[i].serial;
            var st := DeviceState(Run(c, World([], []), events[..i + 1]).states, serial);
            && st.Some? && InBlock(st.value, events[i].element.time)
            && DeviceState(Run(c, World([], []), events[..j + 1]).states, serial) == st
    decreases j
  {
    hide DeviceState, InBlock, Updated, Forwarded;
    var serial, e := events[i].serial, events[j];
    var before := Run(c, World([], []), events[..j]).states;
    RunStates(c, events, j);
    if e.Consume? {
      UpdatedState(c, before, e.serial, e.kind, e.element.time, serial);
    }
    if i < j {
      StateKept(c, events, i, j - 1);
      if e.Consume? && e.serial == serial {
        AdvanceInBlock(c.word, DeviceState(before, serial).value, e.element.time);
      }
    } else {
      AdvanceStartsBlock(c.word, StateOf(c, before, serial, e.kind), e.element.time);
    }
  }

  lemma RunStates(c: Config, events: seq<Event>, j: nat)
    requires j < |events|
    ensures Run(c, World([], []), events[..j + 1]).states
         == StatesAfter(c, Run(c, World([], []), events[..j]).states, events[j])
  {
    assert events[..j + 1][..j] == events[..j];
  }

  /** The timer has seen an element with this time last. */
  predicate InBlock(st: AveragingState, time: U32) {
    && st.currentTimestampIsValid && st.currentTimestamp == time
    && (st.averagingTime == 0 ==> st.averagingTimeReached)
  }

  lemma AdvanceStartsBlock(w: Word, st: AveragingState, time: U32)
    ensures InBlock(Advance(w, st, time), time)
  {
  }

  /** Elements of the same block leave the timer as it is. */
  lemma AdvanceInBlock(w: Word, st: AveragingState, time: U32)
    requires InBlock(st, time)
    ensures Advance(w, st, time) == st
  {
  }

  /** The log of a run is exactly the forwarded events, in order, each to all consumers of its kind. */
  lemma {:induction false} LogIsForwarded(c: Config, events: seq<Event>)
    ensures Run(c, World([], []), events).log == ForwardedLog(c, events, |events|)
  {
    hide Updated, StatesAfter, Forwarded, Deliveries, IndexOf;
    if events == [] {
    } else {
      var n := |events| - 1;
      LogIsForwarded(c, events[..n]);
      SameLog(c, events[..n], events, n);
      assert events[..n + 1] == events;
    }
  }

  ghost function ForwardedLog(c: Config, events: seq<Event>, n: nat): seq<Delivery>
    requires n <= |events|
  {
    if n == 0 then [] else
      ForwardedLog(c, events, n - 1)
      + if IsForwarded(c, events, n - 1) then Deliveries(Consumers(c, events[n - 1].kind), events[n - 1]) else []
  }

  lemma {:induction false} SameLog(c: Config, front: seq<Event>, events: seq<Event>, n: nat)
    requires n <= |front| <= |events| && events[..|front|] == front
    ensures ForwardedLog(c, front, n) == ForwardedLog(c, events, n)
  {
    hide IsForwarded, Deliveries;
    if n == 0 {
    } else {
      SameForwarding(c, front, events, n - 1);
      SameLog(c, front, events, n - 1);
      assert front[n - 1] == events[..|front|][n - 1];
    }
  }

  lemma SameForwarding(c: Config, front: seq<Event>, events: seq<Event>, i: nat)
    requires i < |front| <= |events| && events[..|front|] == front
    ensures IsForwarded(c, front, i) <==> IsForwarded(c, events, i)
  {
    assert front[..i + 1] == events[..i + 1];
    assert front[i] == events[i];
  }

  /** In any interleaving, an event is forwarded if and only if its device does no averaging or the current block of
      the device completes an averaging period: of the obis time if the device showed up as an emeter, of a
      thousandth of the speedwire time if it showed up as an inverter. */
  lemma ForwardedIffPeriodCompleted(c: Config, events: seq<Event>, i: nat, T: U64)
    requires i < |events| && NoWrap(c.word, T)
    requires match FirstKind(events[..i + 1], events[i].serial)
             case EMETER => T == c.obisTime
             case INVERTER => T == c.speedwireTime / 1000
    ensures var times := Times(events[..i + 1], events[i].serial);
            IsForwarded(c, events, i) <==> times != [] && (T == 0 || CompletesPeriod(times, T))
  {
    hide Advance, DeviceState, CompletesPeriod, Times, FirstKind;
    var seen, serial := events[..i + 1], events[i].serial;
    var st := InitialState(c, serial, FirstKind(seen, serial));
    DevicesIndependent(c, seen, serial);
    if Times(seen, serial) != [] {
      if st.averagingTime == 0 {
        NoAveraging(c.word, st, Times(seen, serial));
      } else {
        TimerMeetsPromise(c.word, st, Times(seen, serial));
      }
    }
  }

  /** A consumer gets exactly the forwarded events of its kind: the obis consumers those of emeters, the speedwire
      consumers those of inverters. */
  lemma DeliveredExactly(c: Config, events: seq<Event>, d: Delivery)
    ensures d in Run(c, World([], []), events).log <==>
            && d.consumer in (match d.event.kind case EMETER => c.obisConsumers case INVERTER => c.speedwireConsumers)
            && exists i :: 0 <= i < |events| && events[i] == d.event && IsForwarded(c, events, i)
  {
    LogIsForwarded(c, events);
    InForwardedLog(c, events, |events|, d);
  }

  lemma {:induction false} InForwardedLog(c: Config, events: seq<Event>, n: nat, d: Delivery)
    requires n <= |events|
    ensures d in ForwardedLog(c, events, n) <==>
            && d.consumer in Consumers(c, d.event.kind)
            && exists i :: 0 <= i < n && events[i] == d.event && IsForwarded(c, events, i)
  {
    hide IsForwarded, Consumers;
    if n == 0 {
    } else {
      InForwardedLog(c, events, n - 1, d);
    }
  }

  lemma {:induction false} NoAveraging(w: Word, st: AveragingState, times: seq<U32>)
    requires st.averagingTime == 0
    ensures Timer(w, st, times).averagingTime == 0
    ensures times != [] ==> Timer(w, st, times).averagingTimeReached
  {
    if times == [] {
    } else {
      NoAveraging(w, st, times[..|times| - 1]);
    }
  }
}

/** History buffers and accelerator slots of src/backend.rs. */
module History {
  import opened Recent
  import opened Text

  /** A bounded queue that drops its oldest value when full. */
  class HistoryBuffer<T> {
    var data: seq<T>
    const capacity: nat

    /** Every value pushed since the buffer was last cleared, oldest first. */
    ghost var log: seq<T>

    ghost predicate Valid()
      reads this
    {
      data == LastN(log, Capacity(capacity))
    }

    constructor (capacity: nat)
      ensures Valid() && log == [] && this.capacity == capacity
    {
      this.capacity := capacity;
      data, log := [], [];
    }

    method Push(value: T)
      requires Valid()
      modifies this
      ensures Valid() && log == old(log) + [value]
    {
      PushKeepsNewest(log, capacity, value);
      if |data| >= capacity {
        if data != [] {
          data := data[1..];
        }
      }
      data := data + [value];
      log := log + [value];
    }

    method Clear()
      modifies this
      ensures Valid() && log == []
    {
      data, log := [], [];
    }

    function Latest(): (r: Option<T>)
      reads this
      requires Valid()
      ensures r == if log == [] then None else Some(log[|log| - 1])
    {
      if data == [] then None else Some(data[|data| - 1])
    }

    /** The value before the latest: known only when the buffer can hold two. */
    function Previous(): (r: Option<T>)
      reads this
      requires Valid()
      ensures r == if |log| >= 2 && capacity >= 2 then Some(log[|log| - 2]) else None
    {
      if |data| < 2 then None else Some(data[|data| - 2])
    }
  }

  // ---- accelerator samples ----

  /** The readings of one successful sample; each may be missing on its own. Power is in milliwatts. */
  datatype Sample = Sample(
    utilization: Option<real>,
    memoryUtilization: Option<real>,
    memoryUsed: Option<nat>,
    memoryTotal: Option<nat>,
    temperature: Option<real>,
    powerDraw: Option<nat>,
    powerLimit: Option<nat>,
    graphicsClock: Option<nat>,
    memoryClock: Option<nat>)

  /** One result per device. */
  datatype Snapshot = Taken(sample: Sample) | Missed

  type Slots = seq<Option<Sample>>

  function SlotOf(s: Snapshot): Option<Sample> {
    match s
    case Taken(sample) => Some(sample)
    case Missed => None
  }

  /** One slot per static descriptor. Each slot takes the next result, successful or not, until none is left. */
  function DynamicSlots(samples: seq<Snapshot>, len: nat): (slots: Slots)
    ensures |slots| == len
    decreases len
  {
    if len == 0 then []
    else if samples == [] then [None] + DynamicSlots([], len - 1)
    else [SlotOf(samples[0])] + DynamicSlots(samples[1..], len - 1)
  }

  /** dynamic_slots: the iterator over the results is advanced once per slot. */
  method TakeDynamicSlots(samples: seq<Snapshot>, len: nat) returns (slots: Slots)
    ensures slots == DynamicSlots(samples, len)
  {
    slots := [];
    var rest := samples;
    for k := 0 to len
      invariant slots + DynamicSlots(rest, len - k) == DynamicSlots(samples, len)
    {
      if rest == [] {
        slots := slots + [None];
      } else {
        slots := slots + [SlotOf(rest[0])];
        rest := rest[1..];
      }
    }
  }

  /** Result i ends up in slot i, whatever the others were; slots without a result are empty. */
  lemma {:induction false} SlotAt(samples: seq<Snapshot>, len: nat, i: nat)
    requires i < len
    ensures DynamicSlots(samples, len)[i] == if i < |samples| then SlotOf(samples[i]) else None
    decreases len
  {
    if i == 0 {
    } else if samples == [] {
      SlotAt([], len - 1, i - 1);
    } else {
      SlotAt(samples[1..], len - 1, i - 1);
    }
  }

  /** A device whose sample fails empties its own slot and moves no other. */
  lemma FailureStays(samples: seq<Snapshot>, len: nat, i: nat, k: nat)
    requires i < |samples| && k < len
    ensures DynamicSlots(samples[i := Missed], len)[k] == if k == i then None else DynamicSlots(samples, len)[k]
  {
    SlotAt(samples, len, k);
    SlotAt(samples[i := Missed], len, k);
  }

  datatype Metric = Utilization | Memory | Temperature

  /** The reading a slot contributes to a series, as a list of at most one value. */
  function Reading(slot: Option<Sample>, m: Metric): seq<real> {
    if slot.None? then []
    else
      var r := match m
        case Utilization => slot.value.utilization
        case Memory => slot.value.memoryUtilization
        case Temperature => slot.value.temperature;
      if r.Some? then [r.value] else []
  }

  function Extended(logs: seq<seq<real>>, slots: Slots, m: Metric): (r: seq<seq<real>>)
    requires |logs| == |slots|
    ensures |r| == |logs| && forall i :: 0 <= i < |r| ==> r[i] == logs[i] + Reading(slots[i], m)
  {
    seq(|logs|, i requires 0 <= i < |logs| => logs[i] + Reading(slots[i], m))
  }

  function Empty(n: nat): (r: seq<seq<real>>)
    ensures |r| == n && forall i :: 0 <= i < n ==> r[i] == []
  {
    seq(n, _ => [])
  }

  ghost function Logs(buffers: seq<HistoryBuffer<real>>): (r: seq<seq<real>>)
    reads buffers
    ensures |r| == |buffers| && forall i :: 0 <= i < |r| ==> r[i] == buffers[i].log
  {
    seq(|buffers|, i requires 0 <= i < |buffers| reads buffers => buffers[i].log)
  }

  ghost predicate AllDifferent(a: seq<HistoryBuffer<real>>) {
    forall i, j :: 0 <= i < j < |a| ==> a[i] != a[j]
  }

  ghost predicate Apart(a: seq<HistoryBuffer<real>>, b: seq<HistoryBuffer<real>>) {
    forall i, j :: 0 <= i < |a| && 0 <= j < |b| ==> a[i] != b[j]
  }

  /** The accelerator part of the monitoring backend. */
  class Accelerators {
    const histories: seq<HistoryBuffer<real>>
    const memoryHistories: seq<HistoryBuffer<real>>
    const tempHistories: seq<HistoryBuffer<real>>
    const slots: nat
    const historySize: nat
    var dynamicInfo: Slots

    /** Every collected update and reset since construction. */
    ghost var ops: seq<Op>

    /** One buffer per slot in each list, and no buffer shared. */
    ghost predicate Shape() {
      && |histories| == |memoryHistories| == |tempHistories| == slots
      && AllDifferent(histories) && AllDifferent(memoryHistories) && AllDifferent(tempHistories)
      && Apart(histories, memoryHistories) && Apart(histories, tempHistories) && Apart(memoryHistories, tempHistories)
    }

    ghost predicate Sound()
      reads this`dynamicInfo, histories, memoryHistories, tempHistories
    {
      && Shape()
      && |dynamicInfo| == slots
      && AllValid(histories) && AllValid(memoryHistories) && AllValid(tempHistories)
    }

    /** The three lists hold what the run of updates and resets so far makes of them. */
    ghost predicate Valid()
      reads this, histories, memoryHistories, tempHistories
    {
      && Sound()
      && Logs(histories) == Run(slots, ops, Utilization)
      && Logs(memoryHistories) == Run(slots, ops, Memory)
      && Logs(tempHistories) == Run(slots, ops, Temperature)
    }

    ghost predicate AllValid(buffers: seq<HistoryBuffer<real>>)
      reads buffers
    {
      AreBuffers(buffers, historySize)
    }

    /** Noting an operation leaves the buffers alone. */
    twostate lemma StaysSound()
      requires old(Sound()) && unchanged(this`dynamicInfo)
      requires unchanged(histories) && unchanged(memoryHistories) && unchanged(tempHistories)
      ensures Sound()
      ensures Logs(histories) == old(Logs(histories))
      ensures Logs(memoryHistories) == old(Logs(memoryHistories))
      ensures Logs(tempHistories) == old(Logs(tempHistories))
    {
    }

    /** One buffer per static slot in each of the three lists. */
    constructor (slots: nat, historySize: nat, samples: seq<Snapshot>)
      ensures Valid() && ops == [] && this.slots == slots && this.historySize == historySize
      ensures dynamicInfo == DynamicSlots(samples, slots)
      ensures Logs(histories) == Logs(memoryHistories) == Logs(tempHistories) == Empty(slots)
      ensures fresh(histories) && fresh(memoryHistories) && fresh(tempHistories)
    {
      hide HistoryBuffer.Valid, DynamicSlots, Run, Logs, Empty, AreBuffers, AllDifferent, Apart;
      EmptyRun(slots, Utilization);
      EmptyRun(slots, Memory);
      EmptyRun(slots, Temperature);
      this.slots := slots;
      this.historySize := historySize;
      var taken := TakeDynamicSlots(samples, slots);
      dynamicInfo, ops := taken, [];
      var a, b, c := NewHistories(slots, historySize);
      histories, memoryHistories, tempHistories := a, b, c;
    }

    /** Three lists that share no buffer. */
    static method NewHistories(n: nat, capacity: nat)
      returns (a: seq<HistoryBuffer<real>>, b: seq<HistoryBuffer<real>>, c: seq<HistoryBuffer<real>>)
      ensures |a| == |b| == |c| == n && fresh(a) && fresh(b) && fresh(c)
      ensures AllDifferent(a) && AllDifferent(b) && AllDifferent(c) && Apart(a, b) && Apart(a, c) && Apart(b, c)
      ensures AreBuffers(a, capacity) && AreBuffers(b, capacity) && AreBuffers(c, capacity)
      ensures Logs(a) == Logs(b) == Logs(c) == Empty(n)
    {
      hide HistoryBuffer.Valid;
      a := NewBuffers(n, capacity);
      b := NewBuffers(n, capacity);
      c := NewBuffers(n, capacity);
    }

    static ghost predicate AreBuffers(buffers: seq<HistoryBuffer<real>>, capacity: nat)
      reads buffers
    {
      forall i :: 0 <= i < |buffers| ==> buffers[i].Valid() && buffers[i].capacity == capacity
    }

    static method NewBuffers(n: nat, capacity: nat) returns (buffers: seq<HistoryBuffer<real>>)
      ensures |buffers| == n && AllDifferent(buffers) && fresh(buffers)
      ensures forall i :: 0 <= i < n ==> buffers[i].Valid() && buffers[i].capacity == capacity && buffers[i].log == []
    {
      buffers := [];
      for k := 0 to n
        invariant |buffers| == k && AllDifferent(buffers) && fresh(buffers)
        invariant forall i :: 0 <= i < k ==>
          buffers[i].Valid() && buffers[i].capacity == capacity && buffers[i].log == []
      {
        var b := new HistoryBuffer<real>(capacity);
        buffers := buffers + [b];
      }
    }

    /** update_gpus: take one sample per slot and extend each series with what was read. None means no collection. */
    method UpdateGpus(collection: Option<seq<Snapshot>>)
      requires Valid()
      modifies this`dynamicInfo, this`ops, histories, memoryHistories, tempHistories
      ensures Valid()
      ensures ops == if collection.None? then old(ops) else old(ops) + [Update(collection.value)]
      ensures dynamicInfo == if collection.None? then old(dynamicInfo) else DynamicSlots(collection.value, slots)
    {
      if collection.None? {
        return;
      }
      hide Sound, Run, Extended, Logs, DynamicSlots;
      var samples := collection.value;
      RunUpdate(slots, ops, samples, Utilization);
      RunUpdate(slots, ops, samples, Memory);
      RunUpdate(slots, ops, samples, Temperature);
      ops := ops + [Update(samples)];
      StaysSound();
      Collect(samples);
    }

    method Collect(samples: seq<Snapshot>)
      requires Sound()
      modifies this`dynamicInfo, histories, memoryHistories, tempHistories
      ensures Sound() && dynamicInfo == DynamicSlots(samples, slots)
      ensures Logs(histories) == Extended(old(Logs(histories)), dynamicInfo, Utilization)
      ensures Logs(memoryHistories) == Extended(old(Logs(memoryHistories)), dynamicInfo, Memory)
      ensures Logs(tempHistories) == Extended(old(Logs(tempHistories)), dynamicInfo, Temperature)
    {
      hide DynamicSlots, LastN, Reading;
      dynamicInfo := TakeDynamicSlots(samples, slots);
      ghost var u, m, t := Logs(histories), Logs(memoryHistories), Logs(tempHistories);
      RecordAll(u, m, t);
      hide Sound, Extended, Extends, Logs;
      Extending(histories, u, Utilization);
      Extending(memoryHistories, m, Memory);
      Extending(tempHistories, t, Temperature);
    }

    lemma Extending(buffers: seq<HistoryBuffer<real>>, before: seq<seq<real>>, m: Metric)
      requires |buffers| == |before| == |dynamicInfo| && Extends(buffers, before, m, |buffers|)
      ensures Logs(buffers) == Extended(before, dynamicInfo, m)
    {
    }

    /** The loop of update_gpus over the slots. */
    method RecordAll(ghost u: seq<seq<real>>, ghost m: seq<seq<real>>, ghost t: seq<seq<real>>)
      requires Sound() && u == Logs(histories) && m == Logs(memoryHistories) && t == Logs(tempHistories)
      modifies histories, memoryHistories, tempHistories
      ensures Sound()
      ensures Extends(histories, u, Utilization, slots)
      ensures Extends(memoryHistories, m, Memory, slots)
      ensures Extends(tempHistories, t, Temperature, slots)
    {
      hide LastN, Logs, Reading;
      for i := 0 to |dynamicInfo|
        invariant AllValid(histories) && AllValid(memoryHistories) && AllValid(tempHistories)
        invariant Extends(histories, u, Utilization, i)
        invariant Extends(memoryHistories, m, Memory, i)
        invariant Extends(tempHistories, t, Temperature, i)
      {
        RecordNext(i, u, m, t);
      }
    }

    /** One turn of that loop. */
    method RecordNext(i: nat, ghost u: seq<seq<real>>, ghost m: seq<seq<real>>, ghost t: seq<seq<real>>)
      requires Sound() && i < slots && |u| == |m| == |t| == slots
      requires Extends(histories, u, Utilization, i)
      requires Extends(memoryHistories, m, Memory, i)
      requires Extends(tempHistories, t, Temperature, i)
      modifies histories, memoryHistories, tempHistories
      ensures AllValid(histories) && AllValid(memoryHistories) && AllValid(tempHistories)
      ensures Extends(histories, u, Utilization, i + 1)
      ensures Extends(memoryHistories, m, Memory, i + 1)
      ensures Extends(tempHistories, t, Temperature, i + 1)
    {
      hide LastN, Logs, Reading;
      var slot := dynamicInfo[i];
      if slot.None? {
        NothingRead(u[i], m[i], t[i]);
        return;
      }
      if i < |histories| {
        RecordSlot(i, slot.value);
      }
    }

    static lemma NothingRead(u: seq<real>, m: seq<real>, t: seq<real>)
      ensures u + Reading(None, Utilization) == u
      ensures m + Reading(None, Memory) == m
      ensures t + Reading(None, Temperature) == t
    {
    }

    /** Push the readings of one successful sample onto the three series of slot i, and nothing else. */
    method RecordSlot(i: nat, info: Sample)
      requires Shape() && i < slots
      requires AllValid(histories) && AllValid(memoryHistories) && AllValid(tempHistories)
      modifies histories[i], memoryHistories[i], tempHistories[i]
      ensures AllValid(histories) && AllValid(memoryHistories) && AllValid(tempHistories)
      ensures forall k :: 0 <= k < slots ==>
        histories[k].log == old(histories[k].log) + if k == i then Reading(Some(info), Utilization) else []
      ensures forall k :: 0 <= k < slots ==>
        memoryHistories[k].log == old(memoryHistories[k].log) + if k == i then Reading(Some(info), Memory) else []
      ensures forall k :: 0 <= k < slots ==>
        tempHistories[k].log == old(tempHistories[k].log) + if k == i then Reading(Some(info), Temperature) else []
    {
      hide LastN;
      Record(histories[i], info.utilization);
      Record(memoryHistories[i], info.memoryUtilization);
      Record(tempHistories[i], info.temperature);
    }

    /** Series before i are extended by this sample's reading, the others are as they were. */
    ghost predicate Extends(buffers: seq<HistoryBuffer<real>>, before: seq<seq<real>>, m: Metric, i: nat)
      requires |buffers| == |before| == |dynamicInfo|
      reads this`dynamicInfo, buffers
    {
      forall k :: 0 <= k < |buffers| ==>
        buffers[k].log == if k < i then before[k] + Reading(dynamicInfo[k], m) else before[k]
    }

    /** Push a reading, if there is one. */
    static method Record(buffer: HistoryBuffer<real>, reading: Option<real>)
      requires buffer.Valid()
      modifies buffer
      ensures buffer.Valid()
      ensures buffer.log == old(buffer.log) + (if reading.Some? then [reading.value] else [])
    {
      if reading.Some? {
        buffer.Push(reading.value);
      }
    }

    /** The accelerator part of reset_history. */
    method ResetHistory()
      requires Valid()
      modifies this`ops, histories, memoryHistories, tempHistories
      ensures Valid() && ops == old(ops) + [Reset]
    {
      hide Sound, Run, Logs, Empty;
      RunReset(slots, ops, Utilization);
      RunReset(slots, ops, Memory);
      RunReset(slots, ops, Temperature);
      ops := ops + [Reset];
      StaysSound();
      ClearHistories();
    }

    method ClearHistories()
      requires Sound()
      modifies histories, memoryHistories, tempHistories
      ensures Sound()
      ensures Logs(histories) == Logs(memoryHistories) == Logs(tempHistories) == Empty(slots)
    {
      ClearAll(histories);
      ClearAll(memoryHistories);
      ClearAll(tempHistories);
    }

    /**
     * In every reachable object the buffers of device i show the newest max(1, history_size) readings it reported
     * since the last reset: its utilization, its memory utilization and its temperature.
     */
    lemma BuffersShowNewest(i: nat)
      requires Valid() && i < slots
      ensures histories[i].data == LastN(Values(ops, i, (s: Sample) => s.utilization), Capacity(historySize))
      ensures memoryHistories[i].data
           == LastN(Values(ops, i, (s: Sample) => s.memoryUtilization), Capacity(historySize))
      ensures tempHistories[i].data == LastN(Values(ops, i, (s: Sample) => s.temperature), Capacity(historySize))
    {
      ReportedIs(ops, i, Utilization, (s: Sample) => s.utilization);
      ReportedIs(ops, i, Memory, (s: Sample) => s.memoryUtilization);
      ReportedIs(ops, i, Temperature, (s: Sample) => s.temperature);
      SeriesAreOwnReadings(slots, ops, Utilization, i);
      SeriesAreOwnReadings(slots, ops, Memory, i);
      SeriesAreOwnReadings(slots, ops, Temperature, i);
      hide Run, Reported;
      assert histories[i].log == Logs(histories)[i];
      assert memoryHistories[i].log == Logs(memoryHistories)[i];
      assert tempHistories[i].log == Logs(tempHistories)[i];
    }

    static method ClearAll(buffers: seq<HistoryBuffer<real>>)
      requires AllDifferent(buffers)
      modifies buffers
      ensures forall k :: 0 <= k < |buffers| ==> buffers[k].Valid() && buffers[k].log == []
    {
      hide HistoryBuffer.Valid;
      for i := 0 to |buffers|
        invariant forall k :: 0 <= k < i ==> buffers[k].Valid() && buffers[k].log == []
      {
        buffers[i].Clear();
      }
    }

    /** The accelerator entries of get_full_system_state: one per slot whose static query succeeded. */
    method AcceleratorStates(staticInfo: seq<Option<StaticInfo>>, processes: nat -> Option<nat>)
      returns (states: seq<AcceleratorState>)
      ensures states == StatesUpTo(staticInfo, dynamicInfo, processes, |staticInfo|)
    {
      states := [];
      for i := 0 to |staticInfo|
        invariant states == StatesUpTo(staticInfo, dynamicInfo, processes, i)
      {
        if staticInfo[i].None? {
          continue;
        }
        var dynamic := if i < |dynamicInfo| then dynamicInfo[i] else None;
        states := states + [StateOf(i, staticInfo[i].value, dynamic, processes(i))];
      }
    }
  }

  // ---- runs ----

  datatype Op = Update(samples: seq<Snapshot>) | Reset

  /** One step of the logs of one metric. */
  function Step(logs: seq<seq<real>>, op: Op, m: Metric): (r: seq<seq<real>>)
    ensures |r| == |logs|
  {
    match op
    case Update(samples) => Extended(logs, DynamicSlots(samples, |logs|), m)
    case Reset => Empty(|logs|)
  }

  function Run(slots: nat, ops: seq<Op>, m: Metric): (r: seq<seq<real>>)
    ensures |r| == slots
  {
    if ops == [] then Empty(slots)
    else Step(Run(slots, ops[..|ops| - 1], m), ops[|ops| - 1], m)
  }

  lemma EmptyRun(slots: nat, m: Metric)
    ensures Run(slots, [], m) == Empty(slots)
  {
  }

  lemma RunNext(slots: nat, ops: seq<Op>, op: Op, m: Metric)
    ensures Run(slots, ops + [op], m) == Step(Run(slots, ops, m), op, m)
  {
    assert (ops + [op])[..|ops|] == ops;
  }

  lemma RunUpdate(slots: nat, ops: seq<Op>, samples: seq<Snapshot>, m: Metric)
    ensures Run(slots, ops + [Update(samples)], m) == Extended(Run(slots, ops, m), DynamicSlots(samples, slots), m)
  {
    RunNext(slots, ops, Update(samples), m);
    hide Run, DynamicSlots, Extended;
  }

  lemma RunReset(slots: nat, ops: seq<Op>, m: Metric)
    ensures Run(slots, ops + [Reset], m) == Empty(slots)
  {
    RunNext(slots, ops, Reset, m);
    hide Run, Empty;
  }

  /** What device i alone reported since the last reset. */
  function Reported(ops: seq<Op>, i: nat, m: Metric): seq<real> {
    if ops == [] then []
    else
      match ops[|ops| - 1]
      case Reset => []
      case Update(samples) =>
        Reported(ops[..|ops| - 1], i, m) + (if i < |samples| then Reading(SlotOf(samples[i]), m) else [])
  }

  /** What device i gave of one field since the last reset: nothing for a missed sample or an unread field. */
  function Values(ops: seq<Op>, i: nat, field: Sample -> Option<real>): seq<real> {
    if ops == [] then []
    else
      match ops[|ops| - 1]
      case Reset => []
      case Update(samples) =>
        Values(ops[..|ops| - 1], i, field)
        + (if i < |samples| && samples[i].Taken? && field(samples[i].sample).Some? then
             [field(samples[i].sample).value]
           else [])
  }

  /** The field is what a sample gives of the metric. */
  ghost predicate IsField(m: Metric, field: Sample -> Option<real>) {
    forall s: Sample :: Reading(Some(s), m) == if field(s).Some? then [field(s).value] else []
  }

  lemma {:induction false} ReportedIs(ops: seq<Op>, i: nat, m: Metric, field: Sample -> Option<real>)
    requires IsField(m, field)
    ensures Reported(ops, i, m) == Values(ops, i, field)
  {
    NoReading(m);
    if ops == [] {
    } else {
      ReportedIs(ops[..|ops| - 1], i, m, field);
      hide Reading;
    }
  }

  /**
   * Over every run of updates and resets there is one series per slot, and series i is exactly what device i reported.
   */
  lemma {:induction false} SeriesAreOwnReadings(slots: nat, ops: seq<Op>, m: Metric, i: nat)
    requires i < slots
    ensures |Run(slots, ops, m)| == slots && Run(slots, ops, m)[i] == Reported(ops, i, m)
  {
    hide DynamicSlots, SlotOf, Reading;
    if ops == [] {
    } else {
      var op := ops[|ops| - 1];
      SeriesAreOwnReadings(slots, ops[..|ops| - 1], m, i);
      if op.Update? {
        SlotAt(op.samples, slots, i);
        NoReading(m);
      }
    }
  }

  lemma NoReading(m: Metric)
    ensures Reading(None, m) == []
  {
  }

  /** The same run with other outcomes on other devices. */
  predicate AgreeAt(a: seq<Op>, b: seq<Op>, i: nat) {
    |a| == |b| && forall k :: 0 <= k < |a| ==> SameFor(a[k], b[k], i)
  }

  predicate SameFor(a: Op, b: Op, i: nat) {
    match (a, b)
    case (Reset, Reset) => true
    case (Update(s), Update(t)) => (i < |s| <==> i < |t|) && (i < |s| ==> s[i] == t[i])
    case _ => false
  }

  /** Failed or different samples on other devices never change or shift the series of device i. */
  lemma {:induction false} OthersDoNotMatter(slots: nat, a: seq<Op>, b: seq<Op>, m: Metric, i: nat)
    requires i < slots && AgreeAt(a, b, i)
    ensures Run(slots, a, m)[i] == Run(slots, b, m)[i]
  {
    hide DynamicSlots, SlotOf, Reading;
    if a == [] {
    } else {
      var n := |a| - 1;
      OthersDoNotMatter(slots, a[..n], b[..n], m, i);
      assert SameFor(a[n], b[n], i);
      if a[n].Update? {
        SlotAt(a[n].samples, slots, i);
        SlotAt(b[n].samples, slots, i);
      }
    }
  }

  // ---- the state builder ----

  datatype StaticInfo = StaticInfo(name: string, vendor: string)

  datatype AcceleratorState = AcceleratorState(
    index: nat,
    name: string,
    vendor: string,
    utilization: Option<real>,
    memoryUsed: Option<nat>,
    memoryTotal: Option<nat>,
    memoryPercent: Option<real>,
    temperature: Option<real>,
    powerWatts: Option<real>,
    powerLimitWatts: Option<real>,
    clockMhz: Option<nat>,
    memoryClockMhz: Option<nat>,
    processCount: Option<nat>)

  function Watts(milliwatts: Option<nat>): Option<real> {
    match milliwatts
    case None => None
    case Some(p) => Some(p as real / 1000.0)
  }

  function StateOf(i: nat, info: StaticInfo, dynamic: Option<Sample>, processCount: Option<nat>): AcceleratorState {
    match dynamic
    case None =>
      AcceleratorState(i, info.name, info.vendor, None, None, None, None, None, None, None, None, None, processCount)
    case Some(s) =>
      AcceleratorState(i, info.name, info.vendor, s.utilization, s.memoryUsed, s.memoryTotal, s.memoryUtilization,
                       s.temperature, Watts(s.powerDraw), Watts(s.powerLimit), s.graphicsClock, s.memoryClock,
                       processCount)
  }

  function StatesUpTo(staticInfo: seq<Option<StaticInfo>>, dynamicInfo: Slots, processes: nat -> Option<nat>, k: nat)
    : seq<AcceleratorState>
    requires k <= |staticInfo|
  {
    if k == 0 then []
    else
      var i := k - 1;
      StatesUpTo(staticInfo, dynamicInfo, processes, i)
      + (if staticInfo[i].None? then []
         else [StateOf(i, staticInfo[i].value, if i < |dynamicInfo| then dynamicInfo[i] else None, processes(i))])
  }

  /**
   * The entry shows the name, the readings and the process count of the device at its own index; a missed sample shows
   * no reading.
   */
  predicate IsOwnState(a: AcceleratorState, staticInfo: seq<Option<StaticInfo>>, samples: seq<Snapshot>,
                       processes: nat -> Option<nat>) {
    var i := a.index;
    && i < |staticInfo| && staticInfo[i] == Some(StaticInfo(a.name, a.vendor))
    && a.processCount == processes(i)
    && if i < |samples| && samples[i].Taken? then
         var s := samples[i].sample;
         && a.utilization == s.utilization && a.temperature == s.temperature
         && a.memoryUsed == s.memoryUsed && a.memoryTotal == s.memoryTotal && a.memoryPercent == s.memoryUtilization
         && (a.powerWatts.Some? <==> s.powerDraw.Some?)
         && (a.powerWatts.Some? ==> a.powerWatts.value * 1000.0 == s.powerDraw.value as real)
         && (a.powerLimitWatts.Some? <==> s.powerLimit.Some?)
         && (a.powerLimitWatts.Some? ==> a.powerLimitWatts.value * 1000.0 == s.powerLimit.value as real)
         && a.clockMhz == s.graphicsClock && a.memoryClockMhz == s.memoryClock
       else
         && a.utilization.None? && a.temperature.None?
         && a.memoryUsed.None? && a.memoryTotal.None? && a.memoryPercent.None?
         && a.powerWatts.None? && a.powerLimitWatts.None? && a.clockMhz.None? && a.memoryClockMhz.None?
  }

  lemma StateIsOwn(staticInfo: seq<Option<StaticInfo>>, samples: seq<Snapshot>, processes: nat -> Option<nat>, i: nat)
    requires i < |staticInfo| && staticInfo[i].Some?
    ensures var slot := DynamicSlots(samples, |staticInfo|)[i];
      var a := StateOf(i, staticInfo[i].value, slot, processes(i));
      a.index == i && IsOwnState(a, staticInfo, samples, processes)
  {
    SlotAt(samples, |staticInfo|, i);
    hide DynamicSlots;
  }

  lemma LastState(staticInfo: seq<Option<StaticInfo>>, d: Slots, processes: nat -> Option<nat>, i: nat)
    requires i < |staticInfo| == |d|
    ensures StatesUpTo(staticInfo, d, processes, i + 1) == StatesUpTo(staticInfo, d, processes, i)
      + (if staticInfo[i].None? then [] else [StateOf(i, staticInfo[i].value, d[i], processes(i))])
  {
    hide StateOf;
  }

  /** Every listed accelerator carries its own device's name and readings, whatever the other devices did. */
  lemma {:induction false} StatesAreOwn(staticInfo: seq<Option<StaticInfo>>, samples: seq<Snapshot>,
                                        processes: nat -> Option<nat>, k: nat, n: nat)
    requires k <= |staticInfo|
    requires n < |StatesUpTo(staticInfo, DynamicSlots(samples, |staticInfo|), processes, k)|
    ensures var a := StatesUpTo(staticInfo, DynamicSlots(samples, |staticInfo|), processes, k)[n];
      a.index < k && IsOwnState(a, staticInfo, samples, processes)
  {
    hide IsOwnState, StateOf, DynamicSlots;
    var d := DynamicSlots(samples, |staticInfo|);
    LastState(staticInfo, d, processes, k - 1);
    var before := StatesUpTo(staticInfo, d, processes, k - 1);
    hide StatesUpTo;
    if n < |before| {
      StatesAreOwn(staticInfo, samples, processes, k - 1, n);
    } else {
      StateIsOwn(staticInfo, samples, processes, k - 1);
    }
  }

  /** The list is in device order. */
  lemma {:induction false} StatesRise(staticInfo: seq<Option<StaticInfo>>, samples: seq<Snapshot>,
                                      processes: nat -> Option<nat>, k: nat, m: nat, n: nat)
    requires k <= |staticInfo|
    requires m < n < |StatesUpTo(staticInfo, DynamicSlots(samples, |staticInfo|), processes, k)|
    ensures var states := StatesUpTo(staticInfo, DynamicSlots(samples, |staticInfo|), processes, k);
      states[m].index < states[n].index
  {
    hide IsOwnState, StateOf, DynamicSlots;
    var d := DynamicSlots(samples, |staticInfo|);
    LastState(staticInfo, d, processes, k - 1);
    var before := StatesUpTo(staticInfo, d, processes, k - 1);
    hide StatesUpTo;
    if n < |before| {
      StatesRise(staticInfo, samples, processes, k - 1, m, n);
    } else {
      StatesAreOwn(staticInfo, samples, processes, k - 1, m);
      StateIsOwn(staticInfo, samples, processes, k - 1);
    }
  }

  /** Only devices whose static query failed are skipped. */
  lemma {:induction false} StatesSkipOnlyUnread(staticInfo: seq<Option<StaticInfo>>, samples: seq<Snapshot>,
                                                processes: nat -> Option<nat>, k: nat, i: nat) returns (n: nat)
    requires i < k <= |staticInfo| && staticInfo[i].Some?
    ensures var states := StatesUpTo(staticInfo, DynamicSlots(samples, |staticInfo|), processes, k);
      n < |states| && states[n].index == i
  {
    hide DynamicSlots;
    if i == k - 1 {
      n := |StatesUpTo(staticInfo, DynamicSlots(samples, |staticInfo|), processes, k - 1)|;
    } else {
      n := StatesSkipOnlyUnread(staticInfo, samples, processes, k - 1, i);
    }
  }
}

/** The single-producer single-consumer byte ring: free-running 32-bit indices, a power-of-two
    capacity and copies in at most two chunks.

    Class Ring is the code as either thread runs it alone.  The state machine below it interleaves
    the two threads one shared access (or one copied byte) at a time, each thread working with the
    value of the other's index that it read earlier. */
module SpscRing {
  import opened Bits

  const WRAP: nat := 0x1_0000_0000

  /** A uint32_t. */
  type Index = x: nat | x < WRAP

  type Byte = bv8

  function Sub32(a: Index, b: Index): Index
  {
    if a >= b then a - b else a - b + WRAP
  }

  function Add32(a: Index, n: Index): Index
  {
    if a + n < WRAP then a + n else a + n - WRAP
  }

  /** The static assertions on the capacity. */
  predicate ValidCapacity(c: nat)
  {
    0 < c < WRAP && And(c, c - 1) == 0
  }

  /** Length of the first of the two copied chunks. */
  function FirstChunk(c: nat, index: Index, len: nat): nat
    requires c > 0
  {
    var pos := And(index, c - 1);
    if len < c - pos then len else c - pos
  }

  /** The slot that byte i of a copy starting at the given index goes to or comes from. */
  function Slot(c: nat, index: Index, len: nat, i: nat): nat
    requires c > 0
  {
    var first := FirstChunk(c, index, len);
    if i < first then And(index, c - 1) + i else i - first
  }

  // ---- Arithmetic of wrapping indices ----

  lemma TwoToThe32()
    ensures Pow2(32) == WRAP
  {
    assert Pow2(8) == 256;
    assert Pow2(16) == 65536;
    assert Pow2(24) == 0x100_0000;
  }

  /** A valid capacity is a smaller power of two than the index range. */
  lemma CapacityExponent(c: nat) returns (k: nat)
    requires ValidCapacity(c)
    ensures k < 32 && c == Pow2(k)
  {
    Pow2Test(c);
    k :| c == Pow2(k);
    TwoToThe32();
    if k > 32 {
      Pow2Grows(32, k);
    }
  }

  lemma {:induction false} WrapKeepsRem(n: nat, k: nat, width: nat)
    requires k <= width && Pow2(width) == WRAP
    ensures Rem(n % WRAP, Pow2(k)) == Rem(n, Pow2(k))
  {
    hide Pow2, Rem;
    if n < WRAP {
    } else {
      OneWrap(n);
      WrapKeepsRem(n - WRAP, k, width);
      RemOfLarger(n - WRAP, k, width);
    }
  }

  lemma OneWrap(n: nat)
    requires n >= WRAP
    ensures (n - WRAP) % WRAP == n % WRAP
  {
  }

  /** Wrapping a stream position to 32 bits and masking it leaves its remainder. */
  lemma MaskOfWrapped(n: nat, c: nat)
    requires ValidCapacity(c)
    ensures And(n % WRAP, c - 1) == Rem(n, c)
  {
    var k := CapacityExponent(c);
    MaskIsRemainder(n % WRAP, k);
    TwoToThe32();
    WrapKeepsRem(n, k, 32);
  }

  /** Both chunks of a copy that starts at position n of the stream use position modulo capacity. */
  lemma SlotIsRemainder(c: nat, n: nat, len: nat, i: nat)
    requires ValidCapacity(c) && i < len <= c
    ensures Slot(c, n % WRAP, len, i) == Rem(n + i, c)
  {
    MaskOfWrapped(n, c);
    RemSteps(n, c, i);
  }

  /** Positions that wrap to the same index have the same slots from there on. */
  lemma SameSlots(a: nat, b: nat, c: nat, i: nat)
    requires ValidCapacity(c) && a % WRAP == b % WRAP && i < c
    ensures Rem(a + i, c) == Rem(b + i, c)
  {
    hide Slot, And, Rem;
    SlotIsRemainder(c, a, i + 1, i);
    SlotIsRemainder(c, b, i + 1, i);
  }

  lemma BackFromDifference(tail: Index, head: Index)
    ensures (head + Sub32(tail, head)) % WRAP == tail
  {
  }

  lemma DifferenceIsExact(a: nat, b: nat)
    requires b <= a < b + WRAP
    ensures Sub32(a % WRAP, b % WRAP) == a - b
  {
  }

  lemma AdvanceIsExact(a: nat, n: Index)
    ensures Add32(a % WRAP, n) == (a + n) % WRAP
  {
  }

  // ---- The two threads ----

  /** Where the producer is inside push. */
  datatype Producer =
    | Idle
    | TailRead(data: seq<Byte>, tail: Index)
    | Writing(data: seq<Byte>, tail: Index, done: set<nat>)

  /** Where the consumer is inside pop; `out` is what it has copied so far. */
  datatype Consumer =
    | Waiting
    | TailSeen(len: Index, tail: Index)
    | Reading(len: Index, head: Index, out: map<nat, Byte>)

  datatype Shared = Shared(buffer: seq<Byte>, head: Index, tail: Index)

  /** What the calls that have returned true pushed, and what the returned calls popped. */
  datatype Streams = Streams(pushed: seq<Byte>, popped: seq<Byte>)

  datatype State = State(mem: Shared, producer: Producer, consumer: Consumer, log: Streams)

  datatype Action =
    | CallPush(data: seq<Byte>)
    | CheckSpace
    | WriteByte(i: nat)
    | StoreTail
    | CallPop(len: Index)
    | CheckData
    | ReadByte(i: nat)
    | StoreHead

  /** The first len bytes of a complete copy. */
  function Drained(out: map<nat, Byte>, len: nat): seq<Byte>
    requires forall i :: 0 <= i < len ==> i in out
  {
    seq(len, i requires 0 <= i < len => out[i])
  }

  function ProducerStep(s: State, a: Action): State
    requires |s.mem.buffer| > 0
  {
    var c := |s.mem.buffer|;
    match (a, s.producer)
    case (CallPush(data), Idle) =>
      // an empty push fails before it reads anything
      if data == [] || |data| >= WRAP then s else s.(producer := TailRead(data, s.mem.tail))
    case (CheckSpace, TailRead(data, tail)) =>
      if Sub32(c % WRAP, Sub32(tail, s.mem.head)) < |data| then s.(producer := Idle)
      else s.(producer := Writing(data, tail, {}))
    case (WriteByte(i), Writing(data, tail, done)) =>
      var slot := Slot(c, tail, |data|, i);
      if i < |data| && i !in done && slot < c then
        s.(mem := s.mem.(buffer := s.mem.buffer[slot := data[i]]), producer := Writing(data, tail, done + {i}))
      else s
    case (StoreTail, Writing(data, tail, done)) =>
      if (forall i :: 0 <= i < |data| ==> i in done) && |data| < WRAP then
        State(s.mem.(tail := Add32(tail, |data|)), Idle, s.consumer, s.log.(pushed := s.log.pushed + data))
      else s
    case _ => s
  }

  function ConsumerStep(s: State, a: Action): State
    requires |s.mem.buffer| > 0
  {
    var c := |s.mem.buffer|;
    match (a, s.consumer)
    case (CallPop(len), Waiting) =>
      if len == 0 then s else s.(consumer := TailSeen(len, s.mem.tail))
    case (CheckData, TailSeen(len, tail)) =>
      var avail := Sub32(tail, s.mem.head);
      if avail == 0 then s.(consumer := Waiting)
      else s.(consumer := Reading(if len > avail then avail else len, s.mem.head, map[]))
    case (ReadByte(i), Reading(len, head, out)) =>
      var slot := Slot(c, head, len, i);
      if i < len && i !in out && slot < c then s.(consumer := Reading(len, head, out[i := s.mem.buffer[slot]])) else s
    case (StoreHead, Reading(len, head, out)) =>
      if forall i :: 0 <= i < len ==> i in out then
        State(s.mem.(head := Add32(head, len)), s.producer, Waiting,
              s.log.(popped := s.log.popped + Drained(out, len)))
      else s
    case _ => s
  }

  /** One step of either thread; an action its thread is not ready for does nothing. */
  function Next(s: State, a: Action): State
    requires |s.mem.buffer| > 0
  {
    match a
    case CallPush(_) => ProducerStep(s, a)
    case CheckSpace => ProducerStep(s, a)
    case WriteByte(_) => ProducerStep(s, a)
    case StoreTail => ProducerStep(s, a)
    case CallPop(_) => ConsumerStep(s, a)
    case CheckData => ConsumerStep(s, a)
    case ReadByte(_) => ConsumerStep(s, a)
    case StoreHead => ConsumerStep(s, a)
  }

  ghost function Run(s: State, actions: seq<Action>): (r: State)
    requires |s.mem.buffer| > 0
    ensures |r.mem.buffer| == |s.mem.buffer|
  {
    if actions == [] then s else Next(Run(s, actions[..|actions| - 1]), actions[|actions| - 1])
  }

  /** A new ring of the given capacity, its bytes being anything. */
  predicate Init(s: State)
  {
    && ValidCapacity(|s.mem.buffer|) && s.mem.head == s.mem.tail == 0
    && s.producer.Idle? && s.consumer.Waiting? && s.log == Streams([], [])
  }

  // ---- What every step keeps ----

  /** Indices count the bytes pushed and popped, and what is between them is in the buffer. */
  ghost predicate Stored(s: State)
  {
    var c, pushed, popped := |s.mem.buffer|, s.log.pushed, s.log.popped;
    && ValidCapacity(c)
    && popped <= pushed && |pushed| <= |popped| + c
    && s.mem.head == |popped| % WRAP && s.mem.tail == |pushed| % WRAP
    && forall j :: |popped| <= j < |pushed| ==> s.mem.buffer[Rem(j, c)] == pushed[j]
  }

  /** The space the producer found is still there, and what it has copied is in place. */
  ghost predicate ProducerSound(s: State)
  {
    var c, pushed, popped := |s.mem.buffer|, s.log.pushed, s.log.popped;
    match s.producer
    case Idle => true
    case TailRead(data, tail) => data != [] && |data| < WRAP && tail == s.mem.tail
    case Writing(data, tail, done) =>
      && data != [] && tail == s.mem.tail && c > 0
      && |pushed| + |data| <= |popped| + c
      && forall i :: i in done ==> i < |data| && s.mem.buffer[Rem(|pushed| + i, c)] == data[i]
  }

  /** The data the consumer found is still there, and what it has copied is the next to pop. */
  ghost predicate ConsumerSound(s: State)
  {
    var pushed, popped := s.log.pushed, s.log.popped;
    match s.consumer
    case Waiting => true
    case TailSeen(len, tail) => len > 0 && |popped| + Sub32(tail, s.mem.head) <= |pushed|
    case Reading(len, head, out) =>
      && len > 0 && head == s.mem.head
      && |popped| + len <= |pushed|
      && forall i :: i in out ==> i < len && out[i] == pushed[|popped| + i]
  }

  ghost predicate Inv(s: State)
  {
    Stored(s) && ProducerSound(s) && ConsumerSound(s)
  }

  lemma CheckSpaceKeepsInv(s: State)
    requires Inv(s) && s.producer.TailRead?
    ensures Inv(ProducerStep(s, CheckSpace))
  {
    hide Rem, And, Slot;
    DifferenceIsExact(|s.log.pushed|, |s.log.popped|);
  }

  lemma ProducerKeepsInv(s: State, a: Action)
    requires Inv(s)
    ensures Inv(ProducerStep(s, a))
  {
    match (a, s.producer)
    case (CheckSpace, TailRead(_, _)) =>
      CheckSpaceKeepsInv(s);
    case (WriteByte(i), Writing(data, tail, done)) =>
      if i < |data| && i !in done {
        WriteKeepsInv(s, i);
      }
    case (StoreTail, Writing(data, tail, done)) =>
      if (forall i :: 0 <= i < |data| ==> i in done) && |data| < WRAP {
        StoreTailKeepsInv(s);
      }
    case _ =>
  }

  /** A byte written goes to a slot that holds no unread byte and none written before. */
  lemma WriteSlotIsFree(s: State, i: nat)
    requires Inv(s) && s.producer.Writing? && i < |s.producer.data| && i !in s.producer.done
    ensures var c, pushed, popped := |s.mem.buffer|, s.log.pushed, s.log.popped;
            var slot := Slot(c, s.producer.tail, |s.producer.data|, i);
            && slot == Rem(|pushed| + i, c)
            && (forall j :: |popped| <= j < |pushed| ==> Rem(j, c) != slot)
            && (forall k :: k in s.producer.done ==> Rem(|pushed| + k, c) != slot)
  {
    hide Slot, And, Rem;
    var c, pushed, popped := |s.mem.buffer|, s.log.pushed, s.log.popped;
    SlotIsRemainder(c, |pushed|, |s.producer.data|, i);
    forall j | |popped| <= j < |pushed|
      ensures Rem(j, c) != Rem(|pushed| + i, c)
    {
      RemDistinct(j, |pushed| + i, c);
    }
    forall k | k in s.producer.done
      ensures Rem(|pushed| + k, c) != Rem(|pushed| + i, c)
    {
      if k < i {
        RemDistinct(|pushed| + k, |pushed| + i, c);
      } else {
        RemDistinct(|pushed| + i, |pushed| + k, c);
      }
    }
  }

  lemma WriteKeepsInv(s: State, i: nat)
    requires Inv(s) && s.producer.Writing? && i < |s.producer.data| && i !in s.producer.done
    ensures Inv(ProducerStep(s, WriteByte(i)))
  {
    WriteSlotIsFree(s, i);
    hide Rem, And, Slot;
  }

  lemma StoreTailKeepsInv(s: State)
    requires Inv(s) && s.producer.Writing? && |s.producer.data| < WRAP
    requires forall i :: 0 <= i < |s.producer.data| ==> i in s.producer.done
    ensures Inv(ProducerStep(s, StoreTail))
  {
    hide Rem, And, Slot;
    var c, pushed, popped := |s.mem.buffer|, s.log.pushed, s.log.popped;
    var data := s.producer.data;
    AdvanceIsExact(|pushed|, |data|);
    forall j | |popped| <= j < |pushed + data|
      ensures s.mem.buffer[Rem(j, c)] == (pushed + data)[j]
    {
      if j >= |pushed| {
        var i := j - |pushed|;
        assert i in s.producer.done && s.mem.buffer[Rem(|pushed| + i, c)] == data[i];
      }
    }
  }

  /** A byte read is the next one of the stream. */
  lemma ReadKeepsInv(s: State, i: nat)
    requires Inv(s) && s.consumer.Reading? && i < s.consumer.len
    ensures Inv(ConsumerStep(s, ReadByte(i)))
  {
    hide Rem, And, Slot;
    SlotIsRemainder(|s.mem.buffer|, |s.log.popped|, s.consumer.len, i);
  }

  lemma StoreHeadKeepsInv(s: State)
    requires Inv(s) && s.consumer.Reading? && forall i :: 0 <= i < s.consumer.len ==> i in s.consumer.out
    ensures Inv(ConsumerStep(s, StoreHead))
  {
    var popped, len := s.log.popped, s.consumer.len;
    AdvanceIsExact(|popped|, len);
    assert popped + Drained(s.consumer.out, len) == s.log.pushed[..|popped| + len];
  }

  lemma ConsumerKeepsInv(s: State, a: Action)
    requires Inv(s)
    ensures Inv(ConsumerStep(s, a))
  {
    match (a, s.consumer)
    case (CallPop(_), Waiting) =>
      DifferenceIsExact(|s.log.pushed|, |s.log.popped|);
    case (ReadByte(i), Reading(len, head, out)) =>
      if i < len {
        ReadKeepsInv(s, i);
      }
    case (StoreHead, Reading(len, head, out)) =>
      if forall i :: 0 <= i < len ==> i in out {
        StoreHeadKeepsInv(s);
      }
    case _ =>
  }

  lemma {:induction false} InvAlways(s: State, actions: seq<Action>)
    requires Init(s)
    ensures Inv(Run(s, actions))
  {
    if actions == [] {
    } else {
      InvAlways(s, actions[..|actions| - 1]);
      var last := Run(s, actions[..|actions| - 1]);
      ProducerKeepsInv(last, actions[|actions| - 1]);
      ConsumerKeepsInv(last, actions[|actions| - 1]);
    }
  }

  // ---- What that gives the callers ----

  /** Over every interleaving: popped bytes are a prefix of pushed bytes, the ring never holds more
      than its capacity, and data_len, when neither index moves under it, counts what it holds. */
  lemma FirstInFirstOut(s: State, actions: seq<Action>)
    requires Init(s)
    ensures var r := Run(s, actions);
            && r.log.popped <= r.log.pushed
            && |r.log.pushed| - |r.log.popped| <= |r.mem.buffer|
            && Sub32(r.mem.tail, r.mem.head) == |r.log.pushed| - |r.log.popped|
  {
    InvAlways(s, actions);
    var r := Run(s, actions);
    DifferenceIsExact(|r.log.pushed|, |r.log.popped|);
  }

  /** While both threads are copying, no slot is both written and read; and what is written is
      never a slot whose byte has not been popped. */
  lemma CopiesNeverCollide(s: State, actions: seq<Action>, i: nat, j: nat)
    requires Init(s)
    requires var r := Run(s, actions);
             r.producer.Writing? && i < |r.producer.data| && |r.log.popped| + j < |r.log.pushed|
    ensures var r := Run(s, actions);
            var c := |r.mem.buffer|;
            && Slot(c, r.producer.tail, |r.producer.data|, i) < c
            && Slot(c, r.producer.tail, |r.producer.data|, i) != Rem(|r.log.popped| + j, c)
            && (r.consumer.Reading? && j < r.consumer.len ==>
                  Slot(c, r.consumer.head, r.consumer.len, j) == Rem(|r.log.popped| + j, c))
  {
    hide Rem, And, Slot, Run;
    InvAlways(s, actions);
    var r := Run(s, actions);
    var c := |r.mem.buffer|;
    SlotIsRemainder(c, |r.log.pushed|, |r.producer.data|, i);
    if r.consumer.Reading? && j < r.consumer.len {
      SlotIsRemainder(c, |r.log.popped|, r.consumer.len, j);
    }
    RemDistinct(|r.log.popped| + j, |r.log.pushed| + i, c);
  }

  /** Every byte of a copy in progress has its slot inside the buffer, so each copy can be completed. */
  lemma CopiesStayInside(s: State, actions: seq<Action>, i: nat)
    requires Init(s)
    ensures var r := Run(s, actions);
            var c := |r.mem.buffer|;
            && (r.producer.Writing? && i < |r.producer.data| ==> Slot(c, r.producer.tail, |r.producer.data|, i) < c)
            && (r.consumer.Reading? && i < r.consumer.len ==> Slot(c, r.consumer.head, r.consumer.len, i) < c)
  {
    hide Rem, And, Slot, Run;
    InvAlways(s, actions);
    var r := Run(s, actions);
    var c := |r.mem.buffer|;
    if r.producer.Writing? && i < |r.producer.data| {
      SlotIsRemainder(c, |r.log.pushed|, |r.producer.data|, i);
    }
    if r.consumer.Reading? && i < r.consumer.len {
      SlotIsRemainder(c, |r.log.popped|, r.consumer.len, i);
    }
  }

  /** A push is refused exactly when the bytes do not fit at the moment it looks, and a pop takes
      as many bytes as are asked for and were there when it looked at the tail. */
  lemma RefusedIffFull(s: State, actions: seq<Action>)
    requires Init(s) && Run(s, actions).producer.TailRead?
    ensures var r := Run(s, actions);
            Next(r, CheckSpace).producer.Idle?
            <==> |r.log.pushed| - |r.log.popped| + |r.producer.data| > |r.mem.buffer|
  {
    InvAlways(s, actions);
    var r := Run(s, actions);
    DifferenceIsExact(|r.log.pushed|, |r.log.popped|);
  }

  /** A pop that looks at an unchanged ring finds it empty exactly when it is. */
  lemma EmptyIffNothingPushed(s: State, actions: seq<Action>)
    requires Init(s) && Run(s, actions).consumer.TailSeen? && Run(s, actions).consumer.tail == Run(s, actions).mem.tail
    ensures var r := Run(s, actions);
            && (Next(r, CheckData).consumer.Waiting? <==> r.log.popped == r.log.pushed)
            && (r.log.popped != r.log.pushed ==>
                  Next(r, CheckData).consumer.len
                  == if r.consumer.len < |r.log.pushed| - |r.log.popped| then r.consumer.len
                     else |r.log.pushed| - |r.log.popped|)
  {
    InvAlways(s, actions);
    var r := Run(s, actions);
    DifferenceIsExact(|r.log.pushed|, |r.log.popped|);
  }

  // ---- The code of one thread ----

  class Ring {
    const buffer: array<Byte>
    var head: Index
    var tail: Index

    ghost predicate Valid()
      reads this
    {
      ValidCapacity(buffer.Length) && Sub32(tail, head) <= buffer.Length
    }

    /** The bytes pushed and not yet popped. */
    ghost function Contents(): (s: seq<Byte>)
      requires Valid()
      reads this, buffer
    {
      seq(Sub32(tail, head), i requires 0 <= i reads this, buffer => buffer[Rem(head + i, buffer.Length)])
    }

    constructor (capacity: nat)
      requires ValidCapacity(capacity)
      ensures Valid() && fresh(buffer) && buffer.Length == capacity && Contents() == []
    {
      buffer := new Byte[capacity];
      head, tail := 0, 0;
    }

    /** Bytes `from` to `upto` of the stream are s, position 0 being the current head. */
    ghost predicate Holds(from: nat, s: seq<Byte>)
      requires buffer.Length > 0
      reads this, buffer
    {
      forall n: nat :: head + from <= n < head + from + |s| ==> buffer[Rem(n, buffer.Length)] == s[n - head - from]
    }

    /** The two chunk copies of push. */
    method CopyIn(data: array<Byte>, len: Index)
      requires ValidCapacity(buffer.Length) && data != buffer && 0 < len <= data.Length && len <= buffer.Length
      modifies buffer
      ensures forall i :: 0 <= i < len ==> var s := Slot(buffer.Length, tail, len, i); s < buffer.Length && buffer[s] == data[i]
      ensures forall k :: 0 <= k < buffer.Length && (forall i :: 0 <= i < len ==> k != Slot(buffer.Length, tail, len, i)) ==>
                buffer[k] == old(buffer[k])
    {
      var c := buffer.Length;
      var pos := And(tail, c - 1);
      var first := FirstChunk(c, tail, len);
      forall i | 0 <= i < first {
        buffer[pos + i] := data[i];
      }
      if first < len {
        forall i | 0 <= i < len - first {
          buffer[i] := data[first + i];
        }
      }
      forall k | 0 <= k < c && forall i :: 0 <= i < len ==> k != Slot(c, tail, len, i)
        ensures buffer[k] == old(buffer[k])
      {
        assert k == pos + (k - pos) && (pos <= k < pos + first ==> Slot(c, tail, len, k - pos) == k);
        assert k < len - first ==> Slot(c, tail, len, first + k) == k;
      }
    }

    /** The two chunk copies of pop. */
    method CopyOut(data: array<Byte>, len: Index)
      requires ValidCapacity(buffer.Length) && data != buffer && 0 < len <= data.Length && len <= buffer.Length
      modifies data
      ensures forall i :: 0 <= i < len ==> var s := Slot(buffer.Length, head, len, i); s < buffer.Length && data[i] == buffer[s]
      ensures forall i :: len <= i < data.Length ==> data[i] == old(data[i])
    {
      var c := buffer.Length;
      var pos := And(head, c - 1);
      var first := FirstChunk(c, head, len);
      forall i | 0 <= i < first {
        data[i] := buffer[pos + i];
      }
      if first < len {
        forall i | 0 <= i < len - first {
          data[first + i] := buffer[i];
        }
      }
    }

    /** Bytes written from the tail on leave the contents alone and continue them. */
    lemma WrittenSlots(len: Index, i: nat)
      requires Valid() && i < len && Sub32(tail, head) + len <= buffer.Length
      ensures Slot(buffer.Length, tail, len, i) == Rem(head + Sub32(tail, head) + i, buffer.Length)
      ensures forall n: nat :: head <= n < head + Sub32(tail, head) ==>
                Rem(n, buffer.Length) != Slot(buffer.Length, tail, len, i)
    {
      hide Slot, And, Rem, Sub32;
      var c, used := buffer.Length, Sub32(tail, head);
      BackFromDifference(tail, head);
      SlotIsRemainder(c, head + used, len, i);
      forall n: nat | head <= n < head + used
        ensures Rem(n, c) != Rem(head + used + i, c)
      {
        RemDistinct(n, head + used + i, c);
      }
    }

    /** Copying len bytes in behind the contents. */
    method Append(data: array<Byte>, len: Index)
      requires Valid() && data != buffer && 0 < len <= data.Length && Sub32(tail, head) + len <= buffer.Length
      modifies buffer
      ensures Holds(0, old(Contents())) && Holds(Sub32(tail, head), data[..len])
    {
      hide Slot, And, Rem;
      ghost var c, used := buffer.Length, Sub32(tail, head);
      forall i | 0 <= i < len
        ensures Slot(c, tail, len, i) == Rem(head + used + i, c)
        ensures forall n: nat :: head <= n < head + used ==> Rem(n, c) != Slot(c, tail, len, i)
      {
        WrittenSlots(len, i);
      }
      CopyIn(data, len);
      forall n: nat | head + used <= n < head + used + len
        ensures buffer[Rem(n, c)] == data[n - head - used]
      {
        var i := n - head - used;
        assert buffer[Slot(c, tail, len, i)] == data[i];
      }
    }

    lemma ContentsAre(before: seq<Byte>, more: seq<Byte>)
      requires Valid() && Sub32(tail, head) == |before| + |more|
      requires Holds(0, before) && Holds(|before|, more)
      ensures Contents() == before + more
    {
    }

    method Push(data: array?<Byte>, len: Index) returns (ok: bool)
      requires Valid() && data != buffer && (data != null ==> len <= data.Length)
      modifies this`tail, buffer
      ensures Valid()
      ensures ok <==> data != null && len > 0 && |old(Contents())| + len <= buffer.Length
      ensures Contents() == if ok then old(Contents()) + data[..len] else old(Contents())
    {
      if data == null || len == 0 {
        return false;
      }
      if buffer.Length - Sub32(tail, head) < len {
        return false;
      }
      Append(data, len);
      tail := Add32(tail, len);
      ContentsAre(old(Contents()), data[..len]);
      return true;
    }

    /** Moving the head by n drops the first n bytes. */
    lemma ContentsDropped(start: Index, n: Index, before: seq<Byte>)
      requires Valid() && head == Add32(start, n) && |before| == n + Sub32(tail, head) <= buffer.Length
      requires forall x :: 0 <= x < |before| ==> before[x] == buffer[Rem(start + x, buffer.Length)]
      ensures Contents() == before[n..]
    {
      hide Rem, And;
      var c := buffer.Length;
      AdvanceIsExact(start, n);
      forall x | 0 <= x < |before| - n
        ensures Contents()[x] == before[n..][x]
      {
        SameSlots(start + n, head, c, x);
        assert before[n + x] == buffer[Rem(start + (n + x), c)];
      }
    }

    /** Copying the first n bytes of the contents out. */
    method Take(data: array<Byte>, n: Index)
      requires Valid() && data != buffer && 0 < n <= data.Length && n <= Sub32(tail, head)
      modifies data
      ensures data[..n] == Contents()[..n] && data[n..] == old(data[n..])
    {
      hide Slot, And, Rem;
      forall i | 0 <= i < n
        ensures Slot(buffer.Length, head, n, i) == Rem(head + i, buffer.Length)
      {
        SlotIsRemainder(buffer.Length, head, n, i);
      }
      CopyOut(data, n);
      assert forall i :: 0 <= i < n ==> data[i] == Contents()[i];
    }

    method Pop(data: array?<Byte>, len: Index) returns (n: Index)
      requires Valid() && data != buffer && (data != null ==> len <= data.Length)
      modifies this`head, data
      ensures Valid()
      ensures n == if data == null then 0 else if len > |old(Contents())| then |old(Contents())| else len
      ensures data != null ==> data[..n] == old(Contents())[..n] && data[n..] == old(data[n..])
      ensures Contents() == old(Contents())[n..]
    {
      if data == null || len == 0 {
        return 0;
      }
      var avail := Sub32(tail, head);
      if avail == 0 {
        return 0;
      }
      n := if len > avail then avail else len;
      ghost var start, before := head, Contents();
      Take(data, n);
      head := Add32(head, n);
      ContentsDropped(start, n, before);
    }
  }
}

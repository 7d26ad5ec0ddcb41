/** The single-producer single-consumer queue of section 8.3 of docs/distributed_coordination.md,
    one step for each load, slot access and store of either side. */
module MsgQueue {
  import opened Base

  /** A push: after its load of head, after its check against tail, after its copy. */
  datatype Producer<T> = NoPush | HasHead(msg: T, head: nat) | ToWrite(msg: T, head: nat) | ToStore(head: nat, msg: T)

  /** A pop of at most `max`: after its load of tail, then while it copies `count` messages. */
  datatype Consumer<T> = NoPop | HasTail(max: nat, tail: nat) | Reading(tail: nat, count: nat, got: seq<T>)

  /** `seenTail` and `seenHead` are the newest values the producer and the consumer have loaded
      of the other's counter; `pushed` and `popped` are all messages so far. */
  datatype Queue<T> = Queue(slots: seq<T>, head: nat, tail: nat, producer: Producer<T>, consumer: Consumer<T>,
                            seenTail: nat, seenHead: nat, pushed: seq<T>, popped: seq<T>)

  /** A load of the other side's counter may be late: it gives any value stored since the last
      one loaded. A pop is a batch of at most one. */
  datatype Step<T> =
    | BeginPush(msg: T) | LoadTail(seen: nat) | WriteSlot | StoreHead
    | BeginPop(max: nat) | LoadHead(seen: nat) | ReadSlot | StoreTail

  function Min(a: nat, b: nat): nat {
    if a < b then a else b
  }

  predicate Enabled<T>(q: Queue<T>, step: Step<T>) {
    match step
    case BeginPush(_) => q.producer.NoPush?
    case LoadTail(seen) => q.producer.HasHead? && q.seenTail <= seen <= q.tail
    case WriteSlot => q.producer.ToWrite?
    case StoreHead => q.producer.ToStore?
    case BeginPop(_) => q.consumer.NoPop?
    case LoadHead(seen) => q.consumer.HasTail? && q.seenHead <= seen <= q.head
    case ReadSlot => q.consumer.Reading? && |q.consumer.got| < q.consumer.count
    case StoreTail => q.consumer.Reading? && |q.consumer.got| == q.consumer.count
  }

  /** A step that is not enabled does nothing. */
  function Do<T>(q: Queue<T>, step: Step<T>): Queue<T>
    requires q.producer.ToWrite? || q.consumer.Reading? ==> q.slots != []
  {
    if !Enabled(q, step) then q else
    match step
    case BeginPush(msg) => q.(producer := HasHead(msg, q.head))
    case LoadTail(seen) =>
      var p := q.producer;
      q.(seenTail := seen,
         producer := if p.head + 1 - seen > |q.slots| then NoPush else ToWrite(p.msg, p.head))
    case WriteSlot =>
      var p := q.producer;
      q.(slots := q.slots[p.head % |q.slots| := p.msg], producer := ToStore(p.head, p.msg))
    case StoreHead =>
      q.(head := q.producer.head + 1, producer := NoPush, pushed := q.pushed + [q.producer.msg])
    case BeginPop(max) => q.(consumer := HasTail(max, q.tail))
    case LoadHead(seen) =>
      var c := q.consumer;
      q.(seenHead := seen,
         consumer := if seen <= c.tail then NoPop else Reading(c.tail, Min(seen - c.tail, c.max), []))
    case ReadSlot =>
      var c := q.consumer;
      q.(consumer := c.(got := c.got + [q.slots[(c.tail + |c.got|) % |q.slots|]]))
    case StoreTail =>
      q.(tail := q.consumer.tail + q.consumer.count, consumer := NoPop, popped := q.popped + q.consumer.got)
  }

  /** A queue over slots of any content. */
  function Start<T>(slots: seq<T>): Queue<T> {
    Queue(slots, 0, 0, NoPush, NoPop, 0, 0, [], [])
  }

  // ---- what every interleaving keeps ----------------------------------------------------

  ghost predicate Counters<T>(q: Queue<T>) {
    && q.seenTail <= q.tail <= q.seenHead <= q.head <= q.tail + |q.slots|
    && |q.pushed| == q.head && q.popped == q.pushed[..q.tail]
  }

  /** Every unread message is in its slot. */
  ghost predicate Stored<T>(q: Queue<T>)
    requires Counters(q)
  {
    forall k {:trigger q.pushed[k]} :: q.tail <= k < q.head ==> q.slots[k % |q.slots|] == q.pushed[k]
  }

  ghost predicate ProducerFits<T>(q: Queue<T>) {
    match q.producer
    case NoPush => true
    case HasHead(_, head) => head == q.head
    case ToWrite(_, head) => head == q.head < q.tail + |q.slots|
    case ToStore(head, msg) => q.slots != [] && head == q.head < q.tail + |q.slots| && q.slots[head % |q.slots|] == msg
  }

  ghost predicate ConsumerFits<T>(q: Queue<T>)
    requires Counters(q)
  {
    match q.consumer
    case NoPop => true
    case HasTail(_, tail) => tail == q.tail
    case Reading(tail, count, got) =>
      tail == q.tail < q.seenHead && tail + count <= q.seenHead && |got| <= count
      && got == q.pushed[tail..tail + |got|]
  }

  ghost predicate Inv<T>(q: Queue<T>) {
    Counters(q) && Stored(q) && ProducerFits(q) && ConsumerFits(q)
  }

  /** Two numbers of one slot are a whole round apart. */
  lemma SameSlot(i: nat, j: nat, n: nat)
    requires i < j && n > 0 && i % n == j % n
    ensures i + n <= j
  {
    var rounds := j / n - i / n;
    assert j - i == n * rounds;
    assert rounds <= 0 ==> n * rounds <= 0;
    assert rounds >= 1 ==> n * rounds >= n;
  }

  /** The slot about to be written holds no unread message, so none is ever overwritten, and in
      particular it is not a slot the consumer is still to read. */
  lemma WriteSparesUnread<T>(q: Queue<T>, k: nat)
    requires Inv(q) && q.producer.ToWrite? && q.tail <= k < q.head
    ensures k % |q.slots| != q.producer.head % |q.slots|
    ensures Do(q, WriteSlot).slots[k % |q.slots|] == q.pushed[k]
  {
    if k % |q.slots| == q.head % |q.slots| {
      SameSlot(k, q.head, |q.slots|);
    }
    assert q.slots[k % |q.slots|] == q.pushed[k];
  }

  lemma ProducerStepKeeps<T>(q: Queue<T>, step: Step<T>)
    requires Inv(q) && (step.BeginPush? || step.LoadTail? || step.WriteSlot? || step.StoreHead?)
    ensures Inv(Do(q, step))
  {
    var q' := Do(q, step);
    if step.WriteSlot? && q.producer.ToWrite? {
      forall k {:trigger q'.pushed[k]} | q'.tail <= k < q'.head
        ensures q'.slots[k % |q'.slots|] == q'.pushed[k]
      {
        WriteSparesUnread(q, k);
      }
    } else if step.StoreHead? && q.producer.ToStore? {
      assert q'.popped == q'.pushed[..q'.tail];
      assert q.consumer.Reading? ==>
          q'.pushed[q.tail..q.tail + |q.consumer.got|] == q.pushed[q.tail..q.tail + |q.consumer.got|];
    }
  }

  lemma ConsumerStepKeeps<T>(q: Queue<T>, step: Step<T>)
    requires Inv(q) && (step.BeginPop? || step.LoadHead? || step.ReadSlot? || step.StoreTail?)
    ensures Inv(Do(q, step))
  {
    if step.ReadSlot? && Enabled(q, step) {
      var c := q.consumer;
      assert q.pushed[c.tail..c.tail + |c.got| + 1] == c.got + [q.pushed[c.tail + |c.got|]];
    } else if step.StoreTail? && Enabled(q, step) {
      var c := q.consumer;
      assert q.pushed[..c.tail] + q.pushed[c.tail..c.tail + c.count] == q.pushed[..c.tail + c.count];
    }
  }

  lemma StepKeeps<T>(q: Queue<T>, step: Step<T>)
    requires Inv(q)
    ensures Inv(Do(q, step))
  {
    hide Inv, Do;
    if step.BeginPush? || step.LoadTail? || step.WriteSlot? || step.StoreHead? {
      ProducerStepKeeps(q, step);
    } else {
      ConsumerStepKeeps(q, step);
    }
  }

  ghost function After<T>(q: Queue<T>, steps: seq<Step<T>>): (q': Queue<T>)
    requires Inv(q)
    ensures Inv(q') && |q'.slots| == |q.slots|
    decreases |steps|
  {
    if steps == [] then q
    else
      var last := |steps| - 1;
      var before := After(q, steps[..last]);
      StepKeeps(before, steps[last]);
      Do(before, steps[last])
  }

  lemma StartFits<T>(slots: seq<T>)
    ensures Inv(Start(slots))
  {
  }

  /** Whatever the interleaving of the two sides, and however late their loads: what was popped,
      with what a pop has copied so far, is a prefix of what was pushed, in order; and the tail
      is never past the head, nor the head more than the capacity past the tail. */
  lemma PoppedIsPrefixOfPushed<T>(slots: seq<T>, steps: seq<Step<T>>)
    ensures Inv(Start(slots))
    ensures var q := After(Start(slots), steps);
            var got := if q.consumer.Reading? then q.consumer.got else [];
            && q.popped + got <= q.pushed
            && |q.popped| == q.tail <= q.head == |q.pushed| <= q.tail + |slots|
  {
    StartFits(slots);
    var q := After(Start(slots), steps);
    assert q.consumer.Reading? ==>
        q.popped + q.consumer.got == q.pushed[..q.tail + |q.consumer.got|];
  }

  lemma StepGrows<T>(q: Queue<T>, step: Step<T>)
    requires Inv(q)
    ensures q.pushed <= Do(q, step).pushed && q.popped <= Do(q, step).popped
  {
    hide Inv, Enabled;
  }

  /** A message pushed stays pushed, and one popped stays popped. */
  lemma {:induction false} HistoriesGrow<T>(q: Queue<T>, steps: seq<Step<T>>)
    requires Inv(q)
    ensures q.pushed <= After(q, steps).pushed && q.popped <= After(q, steps).popped
    decreases |steps|
  {
    hide Inv, Do;
    if steps != [] {
      HistoriesGrow(q, steps[..|steps| - 1]);
      StepGrows(After(q, steps[..|steps| - 1]), steps[|steps| - 1]);
    }
  }

  // ---- one side running alone -----------------------------------------------------------

  /** A push that sees `seen` for the tail. */
  ghost function Pushing<T>(q: Queue<T>, msg: T, seen: nat): Queue<T>
    requires Inv(q)
  {
    After(q, [BeginPush(msg), LoadTail(seen), WriteSlot, StoreHead])
  }

  function Repeat<T>(step: Step<T>, n: nat): (steps: seq<Step<T>>)
    ensures |steps| == n
  {
    seq(n, _ => step)
  }

  /** A pop of at most `max` that sees `seen` for the head. */
  ghost function Popping<T>(q: Queue<T>, max: nat, seen: nat): Queue<T>
    requires Inv(q)
  {
    After(q, [BeginPop(max), LoadHead(seen)] + Repeat(ReadSlot, if seen <= q.tail then 0 else Min(seen - q.tail, max))
             + [StoreTail])
  }

  lemma {:induction false} AfterTwice<T>(q: Queue<T>, a: seq<Step<T>>, b: seq<Step<T>>)
    requires Inv(q)
    ensures After(q, a + b) == After(After(q, a), b)
    decreases |b|
  {
    if b == [] {
      assert a + b == a;
    } else {
      AfterTwice(q, a, b[..|b| - 1]);
      assert (a + b)[..|a + b| - 1] == a + b[..|b| - 1];
    }
  }

  lemma AfterOne<T>(q: Queue<T>, step: Step<T>)
    requires Inv(q)
    ensures After(q, [step]) == Do(q, step)
  {
    assert After(q, []) == q && [step][..0] == [];
  }

  lemma AfterFirst<T>(q: Queue<T>, step: Step<T>, rest: seq<Step<T>>)
    requires Inv(q) && Inv(Do(q, step))
    ensures After(q, [step] + rest) == After(Do(q, step), rest)
  {
    AfterTwice(q, [step], rest);
    AfterOne(q, step);
  }

  /** A push is refused if and only if there is no room as far as it can see; otherwise it adds
      its message, and nothing else changes but its slot. */
  lemma PushAdds<T>(q: Queue<T>, msg: T, seen: nat)
    requires Inv(q) && q.producer.NoPush? && q.seenTail <= seen <= q.tail
    ensures Pushing(q, msg, seen)
            == if q.head - seen >= |q.slots| then q.(seenTail := seen)
               else q.(seenTail := seen, head := q.head + 1, pushed := q.pushed + [msg],
                       slots := q.slots[q.head % |q.slots| := msg])
  {
    var a := Do(q, BeginPush(msg));
    StepKeeps(q, BeginPush(msg));
    var b := Do(a, LoadTail(seen));
    StepKeeps(a, LoadTail(seen));
    var c := Do(b, WriteSlot);
    StepKeeps(b, WriteSlot);
    var store: seq<Step<T>> := [StoreHead];
    var writes := [WriteSlot] + store;
    var loads := [LoadTail(seen)] + writes;
    assert [BeginPush(msg), LoadTail(seen), WriteSlot, StoreHead] == [BeginPush(msg)] + loads;
    AfterFirst(q, BeginPush(msg), loads);
    AfterFirst(a, LoadTail(seen), writes);
    AfterFirst(b, WriteSlot, store);
    AfterOne(c, StoreHead);
  }

  /** A pop that has copied `n` of its messages. */
  ghost function Copied<T>(q: Queue<T>, tail: nat, count: nat, n: nat): Queue<T>
    requires tail + n <= |q.pushed|
  {
    q.(consumer := Reading(tail, count, q.pushed[tail..tail + n]))
  }

  lemma OneRead<T>(q: Queue<T>, tail: nat, count: nat, n: nat)
    requires n < count && tail + count <= |q.pushed| && Inv(Copied(q, tail, count, n))
    ensures Do(Copied(q, tail, count, n), ReadSlot) == Copied(q, tail, count, n + 1)
  {
    assert q.slots[(tail + n) % |q.slots|] == q.pushed[tail + n];
    assert q.pushed[tail..tail + n + 1] == q.pushed[tail..tail + n] + [q.pushed[tail + n]];
  }

  lemma {:induction false} ReadsCopy<T>(q: Queue<T>, tail: nat, count: nat, n: nat)
    requires n <= count && tail + count <= |q.pushed| && Inv(Copied(q, tail, count, 0))
    ensures After(Copied(q, tail, count, 0), Repeat(ReadSlot, n)) == Copied(q, tail, count, n)
    decreases n
  {
    hide Inv, Do, Copied;
    if n > 0 {
      ReadsCopy(q, tail, count, n - 1);
      assert Repeat<T>(ReadSlot, n)[..n - 1] == Repeat(ReadSlot, n - 1);
      OneRead(q, tail, count, n - 1);
    }
  }

  lemma FirstTwo<T>(q: Queue<T>, max: nat, seen: nat, rest: seq<Step<T>>)
    requires Inv(q) && q.consumer.NoPop? && q.seenHead <= seen <= q.head
    ensures var n := Min(seen - q.tail, max); var q' := q.(seenHead := seen);
            var then' := if seen == q.tail then q' else Copied(q', q.tail, n, 0);
            Inv(then') && After(q, [BeginPop(max), LoadHead(seen)] + rest) == After(then', rest)
  {
    hide After;
    var a := Do(q, BeginPop(max));
    StepKeeps(q, BeginPop(max));
    StepKeeps(a, LoadHead(seen));
    var loads := [LoadHead(seen)] + rest;
    assert [BeginPop(max), LoadHead(seen)] + rest == [BeginPop(max)] + loads;
    AfterFirst(q, BeginPop(max), loads);
    AfterFirst(a, LoadHead(seen), rest);
  }

  lemma LastStore<T>(q: Queue<T>, n: nat)
    requires Inv(q) && q.consumer.NoPop? && q.tail + n <= |q.pushed|
    ensures Do(q, StoreTail) == q
    ensures q.slots != [] ==>
        Do(Copied(q, q.tail, n, n), StoreTail) == q.(tail := q.tail + n, popped := q.pushed[..q.tail + n])
  {
    assert q.pushed[..q.tail] + q.pushed[q.tail..q.tail + n] == q.pushed[..q.tail + n];
  }

  /** A batch takes as many messages as it can see, up to its maximum, and no others. */
  lemma PopTakes<T>(q: Queue<T>, max: nat, seen: nat)
    requires Inv(q) && q.consumer.NoPop? && q.seenHead <= seen <= q.head
    ensures var n := Min(seen - q.tail, max);
            Popping(q, max, seen) == q.(seenHead := seen, tail := q.tail + n, popped := q.pushed[..q.tail + n])
  {
    hide After, Do, Copied;
    var n, q' := Min(seen - q.tail, max), q.(seenHead := seen);
    var copies := Repeat<T>(ReadSlot, n);
    assert [BeginPop(max), LoadHead(seen)] + copies + [StoreTail]
        == [BeginPop(max), LoadHead(seen)] + (copies + [StoreTail]);
    FirstTwo(q, max, seen, copies + [StoreTail]);
    LastStore(q', n);
    if seen > q.tail {
      AfterTwice(Copied(q', q.tail, n, 0), copies, [StoreTail]);
      ReadsCopy(q', q.tail, n, n);
      AfterOne(After(Copied(q', q.tail, n, 0), copies), StoreTail);
    } else {
      assert copies + [StoreTail] == [StoreTail];
      AfterOne(q', StoreTail);
    }
  }

  /** `n` single pops, each of which sees `seen` for the head. */
  ghost function Pops<T>(q: Queue<T>, n: nat, seen: nat): (q': Queue<T>)
    requires Inv(q)
    ensures Inv(q')
    decreases n
  {
    if n == 0 then q else Popping(Pops(q, n - 1, seen), 1, seen)
  }

  /** A batch pop is that many single pops. */
  lemma BatchIsPops<T>(q: Queue<T>, max: nat, seen: nat)
    requires Inv(q) && q.consumer.NoPop? && q.seenHead <= seen <= q.head
    ensures Popping(q, max, seen) == Pops(q, Min(seen - q.tail, max), seen).(seenHead := seen)
  {
    PopTakes(q, max, seen);
    PopsTake(q, Min(seen - q.tail, max), seen);
  }

  lemma {:induction false} PopsTake<T>(q: Queue<T>, n: nat, seen: nat)
    requires Inv(q) && q.consumer.NoPop? && q.seenHead <= seen <= q.head && q.tail + n <= seen
    ensures Pops(q, n, seen)
            == q.(seenHead := if n == 0 then q.seenHead else seen, tail := q.tail + n, popped := q.pushed[..q.tail + n])
    decreases n
  {
    hide Popping;
    if n > 0 {
      PopsTake(q, n - 1, seen);
      PopTakes(Pops(q, n - 1, seen), 1, seen);
    }
  }

  // ---- the queue in memory --------------------------------------------------------------

  /** The queue's fields, changed in place by calls that nothing interrupts. */
  class SharedQueue<T> {
    const messages: array<T>
    var head: nat
    var tail: nat
    ghost var queue: Queue<T>

    ghost predicate Valid()
      reads this, messages
    {
      && Inv(queue) && queue.producer.NoPush? && queue.consumer.NoPop?
      && queue.slots == messages[..] && queue.head == head && queue.tail == tail
    }

    /** The messages pushed and not yet popped. */
    ghost function Unread(): seq<T>
      reads this, messages
      requires Valid()
    {
      queue.pushed[tail..]
    }

    constructor (messages: array<T>)
      ensures Valid() && queue == Start(messages[..]) && Unread() == [] && this.messages == messages
    {
      this.messages := messages;
      head, tail := 0, 0;
      queue := Start(messages[..]);
      new;
      StartFits(messages[..]);
    }

    method Push(msg: T) returns (ok: bool)
      requires Valid()
      modifies this`head, this`queue, messages
      ensures Valid() && queue == Pushing(old(queue), msg, tail)
      ensures ok == (|old(Unread())| < messages.Length)
      ensures Unread() == if ok then old(Unread()) + [msg] else old(Unread())
    {
      hide After;
      PushAdds(queue, msg, tail);
      queue := Pushing(queue, msg, tail);
      if head + 1 - tail > messages.Length {
        return false;
      }
      messages[head % messages.Length] := msg;
      head := head + 1;
      return true;
    }

    method Pop() returns (msg: Option<T>)
      requires Valid()
      modifies this`tail, this`queue
      ensures Valid() && queue == Popping(old(queue), 1, head)
      ensures msg == if old(Unread()) == [] then None else Some(old(Unread()[0]))
      ensures Unread() == if old(Unread()) == [] then [] else old(Unread()[1..])
    {
      hide After;
      PopTakes(queue, 1, head);
      assert tail < head ==> queue.slots[tail % |queue.slots|] == queue.pushed[tail];
      queue := Popping(queue, 1, head);
      if tail == head {
        return None;
      }
      msg := Some(messages[tail % messages.Length]);
      tail := tail + 1;
    }

    method PopBatch(msgs: array<T>, max: nat) returns (count: nat)
      requires Valid() && max <= msgs.Length && msgs != messages
      modifies this`tail, this`queue, msgs
      ensures Valid() && queue == Popping(old(queue), max, head)
      ensures count == Min(|old(Unread())|, max)
      ensures msgs[..] == old(Unread()[..count]) + old(msgs[count..]) && Unread() == old(Unread()[count..])
    {
      hide After;
      var available := head - tail;
      count := if available < max then available else max;
      PopTakes(queue, max, head);
      ghost var was := queue;
      queue := Popping(queue, max, head);
      if available == 0 {
        return 0;
      }
      CopyOut(msgs, count, was);
      tail := tail + count;
    }

    method CopyOut(msgs: array<T>, count: nat, ghost was: Queue<T>)
      requires Inv(was) && was.slots == messages[..] && was.tail == tail && tail + count <= was.head
      requires messages.Length > 0 && count <= msgs.Length && msgs != messages
      modifies msgs
      ensures msgs[..] == was.pushed[tail..tail + count] + old(msgs[count..])
    {
      hide ProducerFits, ConsumerFits;
      var i := 0;
      while i < count
        invariant 0 <= i <= count
        invariant msgs[..i] == was.pushed[tail..tail + i] && msgs[i..] == old(msgs[i..])
      {
        assert was.slots[(tail + i) % |was.slots|] == was.pushed[tail + i];
        msgs[i] := messages[(tail + i) % messages.Length];
        i := i + 1;
      }
      assert msgs[..] == msgs[..i] + msgs[i..];
    }
  }
}

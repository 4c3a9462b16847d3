/** The bounded message queue: a cyclic buffer in which `head == tail` means full or empty, with
    two flags to tell which. */
module Queue {

  datatype Error = NoError | TimedOut | NoChange

  /** Ring state: `head` is where the next message goes, `tail` where the oldest one is. */
  datatype Ring<T> = Ring(slots: seq<T>, head: nat, tail: nat, isFull: bool, isEmpty: bool, isClosed: bool) {

    ghost predicate Valid() {
      && |slots| > 0 && head < |slots| && tail < |slots|
      && (isFull ==> head == tail) && (isEmpty ==> head == tail)
      && (head == tail ==> isFull != isEmpty)
    }

    function Count(): nat
      requires Valid()
    {
      if isFull then |slots|
      else if head >= tail then head - tail
      else |slots| - tail + head
    }

    /** Pending messages, oldest first. */
    function Contents(): seq<T>
      requires Valid()
    {
      if isEmpty then []
      else if tail < head then slots[tail..head]
      else slots[tail..] + slots[..head]
    }
  }

  function Succ(i: nat, n: nat): nat {
    if i + 1 >= n then 0 else i + 1
  }

  /** The flags are exact, although the two positions alone are not. */
  lemma FlagsAreExact<T>(r: Ring<T>)
    requires r.Valid()
    ensures |r.Contents()| == r.Count()
    ensures r.isEmpty <==> r.Contents() == []
    ensures r.isFull <==> |r.Contents()| == |r.slots|
  {
  }

  function Sent<T>(r: Ring<T>, msg: T): Ring<T>
    requires r.Valid()
  {
    var head := Succ(r.head, |r.slots|);
    r.(slots := r.slots[r.head := msg], head := head, isEmpty := false, isFull := head == r.tail)
  }

  lemma SentAppends<T>(r: Ring<T>, msg: T)
    requires r.Valid() && !r.isFull
    ensures Sent(r, msg).Valid() && Sent(r, msg).Contents() == r.Contents() + [msg]
  {
    var s := Sent(r, msg);
    assert s.Contents() == r.Contents() + [msg];
  }

  function Received<T>(r: Ring<T>): Ring<T>
    requires r.Valid()
  {
    var tail := Succ(r.tail, |r.slots|);
    r.(tail := tail, isFull := false, isEmpty := r.head == tail)
  }

  lemma ReceivedRemovesOldest<T>(r: Ring<T>)
    requires r.Valid() && !r.isEmpty
    ensures r.Contents() != [] && r.slots[r.tail] == r.Contents()[0]
    ensures Received(r).Valid() && Received(r).Contents() == r.Contents()[1..]
  {
    var s := Received(r);
    assert s.Contents() == r.Contents()[1..];
  }

  /** The loop walks from tail to head, so on a full queue it does not run at all. */
  function Cleared<T>(r: Ring<T>): Ring<T>
    requires r.Valid()
  {
    r.(tail := r.head, isFull := false, isEmpty := true)
  }

  function Deallocated<T>(r: Ring<T>): seq<T>
    requires r.Valid()
  {
    if r.head == r.tail then [] else r.Contents()
  }

  /** Clearing hands every pending message to the deallocator, once and oldest first, exactly
      when the queue is not full; a full queue is emptied without deallocating anything. */
  lemma ClearDeallocatesUnlessFull<T>(r: Ring<T>)
    requires r.Valid()
    ensures Cleared(r).Valid() && Cleared(r).Contents() == []
    ensures Deallocated(r) == r.Contents() <==> !r.isFull
    ensures r.isFull ==> Deallocated(r) == []
  {
    FlagsAreExact(r);
  }

  // ---------------------------------------------------------------- runs

  datatype Event<T> = Send(msg: T) | Receive | Clear | Close

  /** How a message left the queue: to a receiver, to the deallocator, or to neither. */
  datatype Removal<T> = Delivered(msg: T) | Freed(msg: T) | Leaked(msg: T)

  /** What clearing does with the pending messages. */
  function Drop<T>(r: Ring<T>): seq<Removal<T>>
    requires r.Valid()
  {
    var pending, freed := r.Contents(), Deallocated(r);
    seq(|pending|, i requires 0 <= i < |pending| => if i < |freed| then Freed(freed[i]) else Leaked(pending[i]))
  }

  function Messages<T>(removed: seq<Removal<T>>): seq<T> {
    seq(|removed|, i requires 0 <= i < |removed| => removed[i].msg)
  }

  /** A queue with the history of accepted and removed messages. */
  datatype Run<T> = Run(ring: Ring<T>, accepted: seq<T>, removed: seq<Removal<T>>)

  /** One critical section. A send to a full queue and a receive from an empty one time out; a
      closed queue refuses both. */
  function Step<T>(run: Run<T>, e: Event<T>): Run<T>
    requires run.ring.Valid()
  {
    match e
    case Send(msg) =>
      if run.ring.isClosed || run.ring.isFull then run
      else Run(Sent(run.ring, msg), run.accepted + [msg], run.removed)
    case Receive =>
      if run.ring.isClosed || run.ring.isEmpty then run
      else Run(Received(run.ring), run.accepted, run.removed + [Delivered(run.ring.slots[run.ring.tail])])
    case Clear => Run(Cleared(run.ring), run.accepted, run.removed + Drop(run.ring))
    case Close => Run(Cleared(run.ring).(isClosed := true), run.accepted, run.removed + Drop(run.ring))
  }

  /** First in, first out: what was removed, in order of removal, and then what is pending, is
      what was accepted, in order. */
  ghost predicate Fifo<T>(run: Run<T>) {
    run.ring.Valid() && run.accepted == Messages(run.removed) + run.ring.Contents()
  }

  lemma MessagesAppend<T>(a: seq<Removal<T>>, b: seq<Removal<T>>)
    ensures Messages(a + b) == Messages(a) + Messages(b)
  {
  }

  lemma DropKeepsMessages<T>(r: Ring<T>)
    requires r.Valid()
    ensures Messages(Drop(r)) == r.Contents()
  {
    ClearDeallocatesUnlessFull(r);
  }

  /** Moving the oldest pending messages over to the removed ones changes nothing in total. */
  lemma Moved<T>(accepted: seq<T>, gone: seq<T>, moved: seq<T>, left: seq<T>)
    requires accepted == gone + (moved + left)
    ensures accepted == gone + moved + left
  {
  }

  lemma SendKeepsFifo<T>(run: Run<T>, msg: T)
    requires Fifo(run) && !run.ring.isFull
    ensures Fifo(Run(Sent(run.ring, msg), run.accepted + [msg], run.removed))
  {
    var gone, pending := Messages(run.removed), run.ring.Contents();
    SentAppends(run.ring, msg);
    assert gone + pending + [msg] == gone + (pending + [msg]);
  }

  lemma ReceiveKeepsFifo<T>(run: Run<T>)
    requires Fifo(run) && !run.ring.isEmpty
    ensures Fifo(Run(Received(run.ring), run.accepted, run.removed + [Delivered(run.ring.slots[run.ring.tail])]))
  {
    var r := run.ring;
    var x, left := r.slots[r.tail], Received(r).Contents();
    ReceivedRemovesOldest(r);
    assert r.Contents() == [x] + left;
    MessagesAppend(run.removed, [Delivered(x)]);
    assert Messages([Delivered(x)]) == [x];
    Moved(run.accepted, Messages(run.removed), [x], left);
  }

  lemma ClearKeepsFifo<T>(run: Run<T>, closed: bool)
    requires Fifo(run)
    ensures Fifo(Run(Cleared(run.ring).(isClosed := closed), run.accepted, run.removed + Drop(run.ring)))
  {
    MessagesAppend(run.removed, Drop(run.ring));
    DropKeepsMessages(run.ring);
    var all := Messages(run.removed + Drop(run.ring));
    assert all == run.accepted && all + [] == all;
  }

  lemma StepKeepsFifo<T>(run: Run<T>, e: Event<T>)
    requires Fifo(run)
    ensures Fifo(Step(run, e))
  {
    match e
    case Send(msg) =>
      if !run.ring.isClosed && !run.ring.isFull {
        SendKeepsFifo(run, msg);
      }
    case Receive =>
      if !run.ring.isClosed && !run.ring.isEmpty {
        ReceiveKeepsFifo(run);
      }
    case Clear => ClearKeepsFifo(run, run.ring.isClosed);
    case Close => ClearKeepsFifo(run, true);
  }

  /** What each operation does to the pending messages: an open queue takes a message exactly while it
      has room and gives out the oldest one exactly while it has any; a closed one does neither;
      clearing and closing empty it. */
  lemma StepOnMessages<T>(run: Run<T>, e: Event<T>)
    requires Fifo(run)
    ensures
      var next, pending, room := Step(run, e), run.ring.Contents(), |run.ring.slots|;
      && next.ring.Valid()
      && match e
         case Send(msg) =>
           if !run.ring.isClosed && |pending| < room
           then next.accepted == run.accepted + [msg] && next.ring.Contents() == pending + [msg]
           else next == run
         case Receive =>
           if !run.ring.isClosed && pending != []
           then next.removed == run.removed + [Delivered(pending[0])] && next.ring.Contents() == pending[1..]
           else next == run
         case _ => next.ring.Contents() == [] && (next.ring.isClosed <==> run.ring.isClosed || e.Close?)
  {
    FlagsAreExact(run.ring);
    match e
    case Send(msg) =>
      if !run.ring.isFull {
        SentAppends(run.ring, msg);
      }
    case Receive =>
      if !run.ring.isEmpty {
        ReceivedRemovesOldest(run.ring);
      }
    case _ =>
  }

  /** Every interleaving of the operations, from a new queue. */
  ghost function After<T>(run: Run<T>, events: seq<Event<T>>): Run<T>
    requires Fifo(run)
    ensures Fifo(After(run, events))
    decreases |events|
  {
    if events == [] then run
    else
      StepKeepsFifo(run, events[0]);
      After(Step(run, events[0]), events[1..])
  }

  /** Over any run, the delivered and dropped messages in order of removal are a prefix of the
      accepted ones; the rest is pending, and its size is what the flags say. */
  lemma RunsAreFifo<T>(slots: seq<T>, events: seq<Event<T>>)
    requires |slots| > 0
    ensures
      var start := Run(Ring(slots, 0, 0, false, true, false), [], []);
      var end := After(start, events);
      && Fifo(start)
      && Messages(end.removed) <= end.accepted
      && end.ring.Contents() == end.accepted[|end.removed|..]
      && (end.ring.isEmpty <==> |end.removed| == |end.accepted|)
      && (end.ring.isFull <==> |end.removed| + |end.ring.slots| == |end.accepted|)
  {
    var end := After(Run(Ring(slots, 0, 0, false, true, false), [], []), events);
    FlagsAreExact(end.ring);
    assert end.accepted == Messages(end.removed) + end.ring.Contents();
  }

  predicate HasLeak<T>(removed: seq<Removal<T>>) {
    exists i | 0 <= i < |removed| :: removed[i].Leaked?
  }

  /** Some clearing or closing of the run meets a full queue. */
  ghost predicate ClearsWhenFull<T>(run: Run<T>, events: seq<Event<T>>)
    requires Fifo(run)
    decreases |events|
  {
    events != [] &&
    (((events[0].Clear? || events[0].Close?) && run.ring.isFull)
     || (StepKeepsFifo(run, events[0]); ClearsWhenFull(Step(run, events[0]), events[1..])))
  }

  lemma LeakAppend<T>(a: seq<Removal<T>>, b: seq<Removal<T>>)
    ensures HasLeak(a + b) <==> HasLeak(a) || HasLeak(b)
  {
    var c := a + b;
    if HasLeak(a) {
      var i :| 0 <= i < |a| && a[i].Leaked?;
      assert c[i].Leaked?;
    } else if HasLeak(b) {
      var i :| 0 <= i < |b| && b[i].Leaked?;
      assert c[|a| + i].Leaked?;
    }
  }

  lemma DropLeaks<T>(r: Ring<T>)
    requires r.Valid()
    ensures HasLeak(Drop(r)) <==> r.isFull
  {
    ClearDeallocatesUnlessFull(r);
    FlagsAreExact(r);
    if r.isFull {
      assert Drop(r)[0].Leaked?;
    }
  }

  lemma StepLeaks<T>(run: Run<T>, e: Event<T>)
    requires Fifo(run)
    ensures HasLeak(Step(run, e).removed)
       <==> HasLeak(run.removed) || ((e.Clear? || e.Close?) && run.ring.isFull)
  {
    match e
    case Receive =>
      if !run.ring.isClosed && !run.ring.isEmpty {
        LeakAppend(run.removed, [Delivered(run.ring.slots[run.ring.tail])]);
      }
    case Send(_) =>
    case _ =>
      LeakAppend(run.removed, Drop(run.ring));
      DropLeaks(run.ring);
  }

  /** A run loses messages exactly when it clears or closes the queue while it is full: all
      others are delivered, deallocated or pending. */
  lemma {:induction false} LeaksOnlyWhenClearedFull<T>(run: Run<T>, events: seq<Event<T>>)
    requires Fifo(run)
    ensures HasLeak(After(run, events).removed) <==> HasLeak(run.removed) || ClearsWhenFull(run, events)
    decreases |events|
  {
    if events != [] {
      StepKeepsFifo(run, events[0]);
      StepLeaks(run, events[0]);
      LeaksOnlyWhenClearedFull(Step(run, events[0]), events[1..]);
    }
  }

  // ---------------------------------------------------------------- the queue object

  class EebusQueue<T(0)> {
    const buf: array<T>
    var head: nat
    var tail: nat
    var isFull: bool
    var isEmpty: bool
    var isClosed: bool

    ghost function State(): Ring<T>
      reads this, buf
    {
      Ring(buf[..], head, tail, isFull, isEmpty, isClosed)
    }

    constructor (maxMsg: nat)
      requires maxMsg > 0
      ensures State().Valid() && State().Contents() == [] && !isClosed && buf.Length == maxMsg && fresh(buf)
    {
      buf := new T[maxMsg];
      head, tail, isFull, isEmpty, isClosed := 0, 0, false, true, false;
    }

    method Send(msg: T) returns (err: Error)
      requires State().Valid()
      modifies this, buf
      ensures State().Valid()
      ensures err == (if old(isClosed) then NoChange else if old(isFull) then TimedOut else NoError)
      ensures State() == if err == NoError then Sent(old(State()), msg) else old(State())
      ensures err == NoError ==> State().Contents() == old(State().Contents()) + [msg]
      ensures
        Step(Run(old(State()), [], []), Event.Send(msg)) == Run(State(), if err == NoError then [msg] else [], [])
    {
      if isClosed {
        return NoChange;
      }
      if isFull {
        return TimedOut;
      }
      SentAppends(State(), msg);
      buf[head] := msg;
      head := head + 1;
      if head >= buf.Length {
        head := 0;
      }
      isEmpty := false;
      isFull := head == tail;
      return NoError;
    }

    method Receive() returns (err: Error, msg: T)
      requires State().Valid()
      modifies this
      ensures State().Valid()
      ensures err == (if old(isClosed) then NoChange else if old(isEmpty) then TimedOut else NoError)
      ensures State() == if err == NoError then Received(old(State())) else old(State())
      ensures err == NoError ==> old(State().Contents()) == [msg] + State().Contents()
      ensures
        Step(Run(old(State()), [], []), Event.Receive)
        == Run(State(), [], if err == NoError then [Delivered(msg)] else [])
    {
      msg := buf[tail];
      if isClosed {
        return NoChange, msg;
      }
      if isEmpty {
        return TimedOut, msg;
      }
      ghost var before := State();
      ReceivedRemovesOldest(before);
      assert before.Contents() == [msg] + Received(before).Contents();
      tail := tail + 1;
      if tail >= buf.Length {
        tail := 0;
      }
      isFull := false;
      isEmpty := head == tail;
      assert State() == Received(before);
      return NoError, msg;
    }

    /** Walks from tail to head, handing each message to the deallocator. */
    method Drain() returns (freed: seq<T>)
      requires head < buf.Length && tail < buf.Length
      modifies this`tail
      ensures tail == head && freed == Between(buf[..], old(tail), head)
    {
      freed := [];
      ghost var slots := buf[..];
      ghost var pending := Between(slots, tail, head);
      while tail != head
        invariant tail < buf.Length && freed + Between(slots, tail, head) == pending
        decreases |Between(slots, tail, head)|
      {
        ClearRound(slots, tail, head, freed, pending);
        freed := freed + [buf[tail]];
        tail := Succ(tail, buf.Length);
      }
      assert Between(slots, tail, head) == [];
    }

    /** `freed` is what the deallocator was called with, in order. */
    method Clear() returns (freed: seq<T>)
      requires State().Valid()
      modifies this
      ensures State().Valid() && State() == Cleared(old(State()))
      ensures freed == Deallocated(old(State()))
      ensures Step(Run(old(State()), [], []), Event.Clear) == Run(State(), [], Drop(old(State())))
    {
      DeallocatedIsBetween(State());
      ghost var before := State();
      freed := Drain();
      isEmpty := true;
      isFull := false;
      assert [] + Drop(before) == Drop(before);
    }

    /** Part of destruction: refuse further use and drop what is pending. */
    method Close() returns (freed: seq<T>)
      requires State().Valid()
      modifies this
      ensures State().Valid() && State() == Cleared(old(State())).(isClosed := true)
      ensures freed == Deallocated(old(State()))
      ensures Step(Run(old(State()), [], []), Event.Close) == Run(State(), [], Drop(old(State())))
    {
      isClosed := true;
      freed := Clear();
    }
  }

  const SIZE_MAX := 0xffff_ffff

  /** A queue without room for a message, or too large to address, is refused. */
  method CreateQueue<T(0)>(maxMsg: nat, msgSize: nat) returns (q: EebusQueue?<T>)
    ensures q == null <==> maxMsg == 0 || msgSize == 0 || maxMsg > SIZE_MAX / msgSize
    ensures q != null ==> fresh(q) && fresh(q.buf) && q.State().Valid() && q.State().Contents() == []
    ensures q != null ==> !q.isClosed && q.buf.Length == maxMsg
  {
    if maxMsg == 0 || msgSize == 0 || maxMsg > SIZE_MAX / msgSize {
      return null;
    }
    q := new EebusQueue(maxMsg);
  }

  /** The slots from `tail` up to `head`, cyclically; none when they are equal. */
  function Between<T>(slots: seq<T>, tail: nat, head: nat): seq<T>
    requires tail < |slots| && head < |slots|
  {
    if tail <= head then slots[tail..head] else slots[tail..] + slots[..head]
  }

  lemma DeallocatedIsBetween<T>(r: Ring<T>)
    requires r.Valid()
    ensures Deallocated(r) == Between(r.slots, r.tail, r.head)
  {
  }

  lemma BetweenStep<T>(slots: seq<T>, tail: nat, head: nat)
    requires tail < |slots| && head < |slots| && tail != head
    ensures Between(slots, tail, head) == [slots[tail]] + Between(slots, Succ(tail, |slots|), head)
  {
    if tail < head {
      assert slots[tail..head] == [slots[tail]] + slots[tail + 1..head];
    } else {
      assert slots[tail..] == [slots[tail]] + slots[tail + 1..];
      assert [slots[tail]] + slots[tail + 1..] + slots[..head] == [slots[tail]] + (slots[tail + 1..] + slots[..head]);
      if tail + 1 == |slots| {
        assert slots[tail + 1..] + slots[..head] == slots[..head] == slots[0..head];
      }
    }
  }

  lemma ClearRound<T>(slots: seq<T>, tail: nat, head: nat, freed: seq<T>, pending: seq<T>)
    requires tail < |slots| && head < |slots| && tail != head
    requires freed + Between(slots, tail, head) == pending
    ensures
      var next := Between(slots, Succ(tail, |slots|), head);
      freed + [slots[tail]] + next == pending && |next| < |Between(slots, tail, head)|
  {
    BetweenStep(slots, tail, head);
    Moved(pending, freed, [slots[tail]], Between(slots, Succ(tail, |slots|), head));
  }
}

/**
 The bounded buffer of heal results that a heal sequence numbers for its polling client:
 `pushHealResultItem`, the part of `PopHealStatusJSON` behind the sequence's mutex, and
 `resetHealStatusCounters`.
*/
module HealSequences {
  import opened Common

  const MAX_UNCONSUMED := 1000

  datatype Item = Item(resultIndex: int, payload: int)

  // ---- Specification: what one critical section does to the buffer

  datatype Buffer = Buffer(items: seq<Item>, lastSent: int)

  const EMPTY := Buffer([], 0)

  /** The index of the newest result, pending or already handed out. */
  function Newest(b: Buffer): int {
    if b.items == [] then b.lastSent else b.items[|b.items| - 1].resultIndex
  }

  function Pushed(b: Buffer, payload: int): Buffer {
    if |b.items| == MAX_UNCONSUMED then b
    else b.(items := b.items + [Item(1 + Newest(b), payload)])
  }

  function Popped(b: Buffer): Buffer {
    Buffer([], Newest(b))
  }

  // ---- The sequence object

  /** What a push blocked on a full buffer sees first. */
  datatype Wakeup = OneSecondPassed | ContextDone | UnconsumedTimeout

  datatype PushOutcome = Appended | Retry | ErrHealStopSignalled | ErrHealIdleTimeout

  datatype PopOutcome = ErrHealInvalidClientToken | ErrInternalError | Reported(items: seq<Item>)

  class HealSequence {
    const path: string
    const clientToken: string
    const background: bool
    var endTime: Option<int>
    var items: seq<Item>
    var lastSentResultIndex: int

    constructor (path: string, clientToken: string, background: bool)
      ensures this.path == path && this.clientToken == clientToken && this.background == background
      ensures endTime == None && Pending() == EMPTY
    {
      this.path, this.clientToken, this.background := path, clientToken, background;
      endTime, items, lastSentResultIndex := None, [], 0;
    }

    function Pending(): Buffer
      reads this
    {
      Buffer(items, lastSentResultIndex)
    }

    /** The background sequence never ends, whatever its end time says. */
    predicate HasEnded()
      reads this
    {
      !background && endTime.Some?
    }

    /** One pass of the push loop under the mutex; `wakeup` is looked at only when full. */
    method PushHealResultItem(payload: int, wakeup: Wakeup) returns (r: PushOutcome)
      modifies this`items
      ensures r == Appended <==> |old(items)| != MAX_UNCONSUMED
      ensures r == Appended ==> items == old(items) + [Item(1 + Newest(old(Pending())), payload)]
      ensures Pending() == Pushed(old(Pending()), payload)
      ensures r != Appended ==>
                r == match wakeup
                     case OneSecondPassed => Retry
                     case ContextDone => ErrHealStopSignalled
                     case UnconsumedTimeout => ErrHealIdleTimeout
    {
      var itemsLen := |items|;
      if itemsLen == MAX_UNCONSUMED {
        match wakeup {
          case OneSecondPassed => return Retry;
          case ContextDone => return ErrHealStopSignalled;
          case UnconsumedTimeout => return ErrHealIdleTimeout;
        }
      }
      var index;
      if itemsLen > 0 {
        index := 1 + items[itemsLen - 1].resultIndex;
      } else {
        index := 1 + lastSentResultIndex;
      }
      items := items + [Item(index, payload)];
      return Appended;
    }

    /** `encodes` tells whether the JSON encoding of the status succeeds. */
    method PopHealStatus(token: string, encodes: bool) returns (r: PopOutcome)
      modifies this`items, this`lastSentResultIndex
      ensures token != clientToken ==> r == ErrHealInvalidClientToken && Pending() == old(Pending())
      ensures token == clientToken ==> Pending() == Popped(old(Pending()))
      ensures token == clientToken ==> r == if encodes then Reported(old(items)) else ErrInternalError
    {
      if token != clientToken {
        return ErrHealInvalidClientToken;
      }
      var numItems := |items|;
      var lastResultIndex := lastSentResultIndex;
      if numItems > 0 {
        lastResultIndex := items[numItems - 1].resultIndex;
      }
      lastSentResultIndex := lastResultIndex;
      if !encodes {
        items := [];
        return ErrInternalError;
      }
      r := Reported(items);
      items := [];
    }

    method ResetHealStatusCounters()
      modifies this`items, this`lastSentResultIndex
      ensures Pending() == EMPTY
    {
      items, lastSentResultIndex := [], 0;
    }
  }

  // ---- Whole runs

  datatype Event =
    | Push(payload: int)
    | Pop(rightToken: bool, encodes: bool)
    | Reset

  /** One non-refused poll: the items it took and whether the client got them. */
  datatype Batch = Batch(items: seq<Item>, delivered: bool)

  /** The buffer and, since the last reset, the accepted payloads and the polled batches. */
  datatype History = History(buffer: Buffer, accepted: seq<int>, batches: seq<Batch>)

  const START := History(EMPTY, [], [])

  function Advance(h: History, e: Event): History {
    match e
    case Push(p) =>
      h.(buffer := Pushed(h.buffer, p),
         accepted := if |h.buffer.items| == MAX_UNCONSUMED then h.accepted else h.accepted + [p])
    case Pop(rightToken, encodes) =>
      if rightToken then
        h.(buffer := Popped(h.buffer), batches := h.batches + [Batch(h.buffer.items, encodes)])
      else h
    case Reset => START
  }

  function Replay(h: History, events: seq<Event>): History
    decreases events
  {
    if events == [] then h else Replay(Advance(h, events[0]), events[1..])
  }

  /** All items handed out by the polls, in order. */
  function Polled(batches: seq<Batch>): seq<Item> {
    if batches == [] then [] else Polled(batches[..|batches| - 1]) + batches[|batches| - 1].items
  }

  /** The items that reached the client. */
  function Received(batches: seq<Batch>): seq<Item> {
    if batches == [] then []
    else
      var last := batches[|batches| - 1];
      Received(batches[..|batches| - 1]) + if last.delivered then last.items else []
  }

  /** The accepted payloads, numbered 1, 2, 3, ... */
  function Numbered(payloads: seq<int>): (r: seq<Item>)
    ensures |r| == |payloads|
    ensures forall i :: 0 <= i < |r| ==> r[i] == Item(i + 1, payloads[i])
  {
    seq(|payloads|, i requires 0 <= i < |payloads| => Item(i + 1, payloads[i]))
  }

  predicate Inv(h: History) {
    && |h.buffer.items| <= MAX_UNCONSUMED
    && Polled(h.batches) + h.buffer.items == Numbered(h.accepted)
    && h.buffer.lastSent == |Polled(h.batches)|
  }

  lemma {:induction false} NewestIsCount(h: History)
    requires Inv(h)
    ensures Newest(h.buffer) == |h.accepted|
  {
    var all := Polled(h.batches) + h.buffer.items;
    if h.buffer.items != [] {
      assert h.buffer.items[|h.buffer.items| - 1] == all[|all| - 1];
    }
  }

  lemma {:induction false} AdvanceKeepsInv(h: History, e: Event)
    requires Inv(h)
    ensures Inv(Advance(h, e))
  {
    NewestIsCount(h);
    var h' := Advance(h, e);
    match e {
      case Push(p) =>
        if |h.buffer.items| != MAX_UNCONSUMED {
          assert Polled(h'.batches) + h'.buffer.items ==
                 (Polled(h.batches) + h.buffer.items) + [Item(1 + |h.accepted|, p)] == Numbered(h'.accepted);
        }
      case Pop(rightToken, _) =>
        if rightToken {
          assert h'.batches[..|h'.batches| - 1] == h.batches;
          assert Polled(h'.batches) + h'.buffer.items == Polled(h.batches) + h.buffer.items;
        }
      case Reset =>
    }
  }

  lemma {:induction false} ReplayExtends(h: History, events: seq<Event>, e: Event)
    ensures Replay(h, events + [e]) == Advance(Replay(h, events), e)
    decreases events
  {
    if events == [] {
      assert events + [e] == [e] && [e][1..] == [];
    } else {
      ReplayExtends(Advance(h, events[0]), events[1..], e);
      assert (events + [e])[1..] == events[1..] + [e];
    }
  }

  /** What one more event adds: a push is accepted unless 1000 are pending, a poll takes all of them. */
  lemma {:induction false} EachEventCounts(events: seq<Event>, e: Event)
    ensures var h, h' := Replay(START, events), Replay(START, events + [e]);
            match e
            case Push(p) => h'.accepted == if |h.buffer.items| == 1000 then h.accepted else h.accepted + [p]
            case Pop(rightToken, encodes) =>
              && h'.accepted == h.accepted
              && h'.batches == (if rightToken then h.batches + [Batch(h.buffer.items, encodes)] else h.batches)
              && h'.buffer.items == (if rightToken then [] else h.buffer.items)
            case Reset => h' == START
  {
    ReplayExtends(START, events, e);
  }

  lemma {:induction false} ReplayKeepsInv(h: History, events: seq<Event>)
    requires Inv(h)
    ensures Inv(Replay(h, events))
    decreases events
  {
    if events != [] {
      AdvanceKeepsInv(h, events[0]);
      ReplayKeepsInv(Advance(h, events[0]), events[1..]);
    }
  }

  /**
   Over every mix of pushes, polls and resets: the polled batches followed by the pending
   items are exactly the results accepted since the last reset, in order, each once, numbered
   1, 2, 3, ...; the pending ones carry lastSent + 1, lastSent + 2, ...; and there are never
   more than 1000 of them.
  */
  lemma {:induction false} ResultsAreNumberedWithoutGap(events: seq<Event>)
    ensures var h := Replay(START, events);
            && Polled(h.batches) + h.buffer.items == Numbered(h.accepted)
            && |h.buffer.items| <= 1000
            && h.buffer.lastSent == |Polled(h.batches)|
            && forall i :: 0 <= i < |h.buffer.items| ==> h.buffer.items[i].resultIndex == h.buffer.lastSent + 1 + i
  {
    ReplayKeepsInv(START, events);
    var h := Replay(START, events);
    var all := Polled(h.batches) + h.buffer.items;
    forall i | 0 <= i < |h.buffer.items|
      ensures h.buffer.items[i].resultIndex == h.buffer.lastSent + 1 + i
    {
      assert h.buffer.items[i] == all[|Polled(h.batches)| + i];
    }
  }

  /** No batch was lost that held something. */
  predicate LossFree(batches: seq<Batch>) {
    forall i :: 0 <= i < |batches| ==> batches[i].delivered || batches[i].items == []
  }

  lemma {:induction false} ReceivedUnlessLost(batches: seq<Batch>)
    ensures |Received(batches)| <= |Polled(batches)|
    ensures LossFree(batches) <==> |Received(batches)| == |Polled(batches)|
    ensures LossFree(batches) ==> Received(batches) == Polled(batches)
  {
    if batches != [] {
      var front, last := batches[..|batches| - 1], batches[|batches| - 1];
      ReceivedUnlessLost(front);
      assert LossFree(batches) <==> LossFree(front) && (last.delivered || last.items == []) by {
        assert forall i :: 0 <= i < |front| ==> front[i] == batches[i];
        assert forall i :: 0 <= i < |batches| ==> batches[i] == if i < |front| then front[i] else last;
      }
    }
  }

  /**
   The client sees 1, 2, 3, ... up to the last index sent, without gap or repeat, if and only
   if no poll that held results failed to encode them.
  */
  lemma {:induction false} ClientSeesEverythingUnlessLost(events: seq<Event>)
    ensures var h := Replay(START, events);
            && 0 <= h.buffer.lastSent <= |h.accepted|
            && (Received(h.batches) == Numbered(h.accepted)[..h.buffer.lastSent] <==> LossFree(h.batches))
  {
    ReplayKeepsInv(START, events);
    var h := Replay(START, events);
    ReceivedUnlessLost(h.batches);
    assert Numbered(h.accepted)[..h.buffer.lastSent] == Polled(h.batches) by {
      assert (Polled(h.batches) + h.buffer.items)[..|Polled(h.batches)|] == Polled(h.batches);
    }
  }
}

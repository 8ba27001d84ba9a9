/** The message cursors of a client stream (runner/data.go) and the loop that sends what they give
    (runner/worker.go). */
module StreamProviders {
  import opened GoNumbers

  /** The answer to a request for the next message. `last` is ErrLastMessage, returned along with the
      message; `EndStream` is ErrEndStream; `Panic` is an index out of range. */
  datatype Reply<+P> = Payload(message: P, last: bool) | EndStream | Error | Panic

  /** How many messages a stream has: the configured count, or one for each input. */
  function Limit(streamCallCount: nat, inputs: nat): nat {
    if streamCallCount > 0 then streamCallCount else inputs
  }

  // ---------- static messages ----------

  /** The k-th answer, counting from zero, as the documentation of streaming promises it. */
  function StaticReply<M>(inputs: seq<M>, streamCallCount: nat, k: nat): Reply<M> {
    var n := Limit(streamCallCount, |inputs|);
    if k >= n then EndStream
    else if inputs == [] then Panic
    else Payload(inputs[k % |inputs|], k == n - 1)
  }

  class StaticMessageProvider<M> {
    const inputs: seq<M>
    const inputLen: nat
    const streamCallCount: nat
    var counter: nat
    var indexCounter: nat

    constructor (streamCallCount: nat, inputs: seq<M>)
      ensures this.inputs == inputs && this.streamCallCount == streamCallCount
      ensures Valid() && counter == 0
    {
      this.inputs, this.inputLen, this.streamCallCount := inputs, |inputs|, streamCallCount;
      counter, indexCounter := 0, 0;
    }

    ghost predicate Valid()
      reads this
    {
      && inputLen == |inputs|
      && counter <= Limit(streamCallCount, inputLen)
      && (inputLen == 0 ==> counter == 0)
      && CursorAt(indexCounter, counter, inputLen)
    }

    /** The k-th call gets the k-th answer, and only a message moves the cursor. */
    method GetStreamMessage() returns (r: Reply<M>)
      requires Valid()
      modifies this
      ensures Valid()
      ensures r == StaticReply(inputs, streamCallCount, old(counter))
      ensures var k, limit := old(counter), if streamCallCount > 0 then streamCallCount else |inputs|;
              && (r == EndStream <==> k >= limit)
              && (inputs != [] && k < limit ==> r == Payload(inputs[k % |inputs|], k + 1 == limit))
              && (inputs == [] && k < limit ==> r == Panic)
      ensures counter == old(counter) + if r.Payload? then 1 else 0
    {
      CursorStep(indexCounter, counter, inputLen);
      hide CursorAt;
      var isLast := false;
      if streamCallCount > 0 {
        if counter >= streamCallCount {
          return EndStream;
        } else if indexCounter == inputLen {
          indexCounter := 0;
        }
        isLast := counter == streamCallCount - 1;
      } else if counter >= inputLen {
        return EndStream;
      } else if counter == inputLen - 1 {
        isLast := true;
      }
      if indexCounter >= inputLen {
        return Panic;
      }
      var payload := inputs[indexCounter];
      counter := counter + 1;
      indexCounter := indexCounter + 1;
      return Payload(payload, isLast);
    }
  }

  /** The cursor runs from 0 to the length, which it reaches before it starts over. */
  ghost predicate CursorAt(index: nat, counter: nat, len: nat) {
    index == if len == 0 || counter == 0 then 0 else (counter - 1) % len + 1
  }

  lemma CursorStep(index: nat, counter: nat, len: nat)
    requires CursorAt(index, counter, len)
    ensures len == 0 ==> index == 0
    ensures len > 0 ==> index <= len && (if index == len then 0 else index) == counter % len
    ensures len > 0 ==> CursorAt(counter % len + 1, counter + 1, len)
    ensures 0 < counter < len ==> index == counter
  {
    if len > 0 && counter > 0 {
      NextRemainder(counter - 1, len);
    } else if len > 0 {
      NextRemainder(0, len);
    }
  }

  lemma NextRemainder(x: nat, len: nat)
    requires len > 0
    ensures 0 <= x % len < len
    ensures (x + 1) % len == if x % len + 1 == len then 0 else x % len + 1
    ensures x < len ==> x % len == x
  {
    var q, r := x / len, x % len;
    assert x == q * len + r;
    if r + 1 == len {
      assert x + 1 == (q + 1) * len;
      RemainderIs(x + 1, len, q + 1, 0);
    } else {
      RemainderIs(x + 1, len, q, r + 1);
    }
    if x < len {
      RemainderIs(x, len, 0, x);
    }
  }

  lemma RemainderIs(x: nat, len: nat, q: nat, r: nat)
    requires r < len && x == q * len + r
    ensures x % len == r
  {
    QuotientIsUnique(x, len, q);
    assert x == x / len * len + x % len;
  }

  // ---------- messages made afresh ----------

  /** What a dynamic message is rendered from. */
  datatype Source = WholeData | Element(index: nat)

  function SourceOf(elements: nat, k: nat): Source {
    if elements == 0 then WholeData
    else if k < elements then Element(k)
    else Element(0)
  }

  /** The answer after k messages, given whether rendering and parsing the next one succeed. */
  function DynamicReply(elements: nat, streamCallCount: nat, k: nat, renders: bool): Reply<Source> {
    var n := Limit(streamCallCount, elements);
    if k >= n then EndStream
    else if !renders then Error
    else Payload(SourceOf(elements, k), k == n - 1)
  }

  class DynamicMessageProvider {
    const arrayLen: nat
    const streamCallCount: nat
    var counter: nat
    var indexCounter: nat

    constructor (streamCallCount: nat, arrayLen: nat)
      ensures this.arrayLen == arrayLen && this.streamCallCount == streamCallCount
      ensures Valid() && counter == 0
    {
      this.arrayLen, this.streamCallCount := arrayLen, streamCallCount;
      counter, indexCounter := 0, 0;
    }

    ghost predicate Valid()
      reads this
    {
      && counter <= Limit(streamCallCount, arrayLen)
      && (counter < arrayLen ==> indexCounter == counter)
    }

    /** The index read is always in bounds, and a message that cannot be made moves no counter. */
    method GetStreamMessage(renders: bool) returns (r: Reply<Source>)
      requires Valid()
      modifies this
      ensures Valid()
      ensures r == DynamicReply(arrayLen, streamCallCount, old(counter), renders)
      ensures var k, limit := old(counter), if streamCallCount > 0 then streamCallCount else arrayLen;
              && (r == EndStream <==> k >= limit)
              && (r == Error <==> k < limit && !renders)
              && (k < limit && renders ==>
                    r == Payload(if arrayLen == 0 then WholeData else if k < arrayLen then Element(k) else Element(0),
                                 k + 1 == limit))
      ensures counter == old(counter) + if r.Payload? then 1 else 0
      ensures r.Payload? && r.message.Element? ==> r.message.index < arrayLen
    {
      var isLast := false;
      if streamCallCount > 0 {
        if counter >= streamCallCount {
          return EndStream;
        } else if counter >= arrayLen {
          indexCounter := 0;
        }
        isLast := counter == streamCallCount - 1;
      } else if counter >= arrayLen {
        return EndStream;
      } else if counter == arrayLen - 1 {
        isLast := true;
      }
      var data := WholeData;
      if arrayLen > 0 {
        if counter >= arrayLen {
          indexCounter := 0;
        }
        data := Element(indexCounter);
      }
      if !renders {
        return Error;
      }
      counter := counter + 1;
      indexCounter := indexCounter + 1;
      return Payload(data, isLast);
    }
  }

  /** Rendered messages take the inputs in turn, as static ones do, only through the first pass and
      wherever the turn comes back to the first input. */
  lemma DynamicTakesTurnsIff(elements: nat, k: nat)
    requires elements > 0
    ensures SourceOf(elements, k) == Element(k % elements) <==> k < elements || k % elements == 0
    ensures SourceOf(elements, k).Element? && SourceOf(elements, k).index < elements
  {
    if k < elements {
      NextRemainder(k, elements);
    }
  }

  /** A second pass over three inputs stays on the first. */
  lemma DynamicDoesNotCycle()
    ensures StaticReply([0, 1, 2], 6, 4) == Payload(1, false)
    ensures DynamicReply(3, 6, 4, true) == Payload(Element(0), false)
  {
  }

  /** A dynamic stream sends nothing at all exactly when its data is no array, or an empty one, and no
      count is configured. */
  lemma DynamicSendsNothingIff(elements: nat, streamCallCount: nat)
    ensures DynamicReply(elements, streamCallCount, 0, true) == EndStream <==> elements == 0 && streamCallCount == 0
  {
  }

  // ---------- sending ----------

  datatype Sent = Accepted | Eof | Failed

  /** What happens around the k-th message: a cancellation seen before asking for it, how the send
      ends, a cancellation seen right after it or while waiting for the next. */
  datatype Turn = Turn(cancelledBefore: bool, sent: Sent, cancelledAfter: bool, cancelledInWait: bool)

  /** The reasons for a stream to end with its k-th message: the send was not accepted, it was the last message,
      a cancellation came after it or in the wait for the next, or it completes the configured count. */
  predicate EndsAfter(last: bool, streamCallCount: nat, waits: bool, turn: Turn, k: nat) {
    || turn.sent == Eof || turn.sent == Failed
    || last
    || turn.cancelledAfter || (waits && turn.cancelledInWait)
    || k + 1 == streamCallCount || 0 < streamCallCount <= k
  }

  /** Whether the loop goes on after the k-th message. */
  predicate GoesOn<P>(answers: nat -> Reply<P>, streamCallCount: nat, waits: bool, env: nat -> Turn, k: nat)
    requires answers(k).Payload?
  {
    && env(k).sent == Accepted && !answers(k).last && !env(k).cancelledAfter
    && !(streamCallCount > 0 && k + 1 >= streamCallCount)
    && !(waits && env(k).cancelledInWait)
  }

  /** The sends of one stream: the provider's messages in order, each following one after which the
      loop goes on, up to the first reason to stop. */
  ghost predicate AreSends<P>(sends: seq<P>, answers: nat -> Reply<P>, streamCallCount: nat, waits: bool, env: nat -> Turn) {
    var n := |sends|;
    && (forall k :: 0 <= k < n ==> answers(k).Payload? && sends[k] == answers(k).message && !env(k).cancelledBefore)
    && (forall k :: 0 <= k < n - 1 ==> GoesOn(answers, streamCallCount, waits, env, k))
    && ((n > 0 && !GoesOn(answers, streamCallCount, waits, env, n - 1)) || env(n).cancelledBefore || !answers(n).Payload?)
  }

  /** Something ends the stream at turn n: a cancellation seen before it, the provider, or what happens
      around its message. */
  predicate StopsAt<P>(answers: nat -> Reply<P>, streamCallCount: nat, waits: bool, env: nat -> Turn, n: nat) {
    env(n).cancelledBefore || !answers(n).Payload? || !GoesOn(answers, streamCallCount, waits, env, n)
  }

  /** The loop returns from every stream that something ends. A custom provider without a last message,
      without a count and never disturbed is sent for ever. */
  method SendStream<P>(answers: nat -> Reply<P>, streamCallCount: nat, waits: bool, env: nat -> Turn, ghost bound: nat)
      returns (sends: seq<P>)
    requires StopsAt(answers, streamCallCount, waits, env, bound)
    ensures |sends| <= bound + 1 && AreSends(sends, answers, streamCallCount, waits, env)
    ensures forall k :: 0 <= k < |sends| ==> answers(k).Payload? && sends[k] == answers(k).message && !env(k).cancelledBefore
    ensures forall k :: 0 <= k < |sends| - 1 ==> !EndsAfter(answers(k).last, streamCallCount, waits, env(k), k)
    ensures var n := |sends|;
            || env(n).cancelledBefore || !answers(n).Payload?
            || (n > 0 && EndsAfter(answers(n - 1).last, streamCallCount, waits, env(n - 1), n - 1))
  {
    sends := [];
    var done := false;
    var counter := 0;
    while !done && !env(counter).cancelledBefore
      invariant counter <= bound || (done && counter == bound + 1)
      invariant done ==> counter > 0
      invariant |sends| == counter
      invariant forall k :: 0 <= k < counter ==>
        answers(k).Payload? && sends[k] == answers(k).message && !env(k).cancelledBefore
      invariant forall k :: 0 <= k < counter - 1 ==> GoesOn(answers, streamCallCount, waits, env, k)
      invariant counter > 0 ==> (done <==> !GoesOn(answers, streamCallCount, waits, env, counter - 1))
      decreases bound + 1 - counter, !done
    {
      var reply := answers(counter);
      if !reply.Payload? {
        break;
      }
      var turn := env(counter);
      sends := sends + [reply.message];
      if turn.sent != Accepted || reply.last || turn.cancelledAfter {
        break;
      }
      counter := counter + 1;
      if streamCallCount > 0 && counter >= streamCallCount {
        break;
      }
      if waits {
        done := turn.cancelledInWait;
      }
    }
    AreSendsIff(sends, answers, streamCallCount, waits, env);
  }

  /** A list is all the sends of a stream exactly if it holds the provider's messages in order, no message but the
      last ends the stream, and that one does, or a cancellation or the provider does before the next. */
  lemma AreSendsIff<P>(sends: seq<P>, answers: nat -> Reply<P>, streamCallCount: nat, waits: bool, env: nat -> Turn)
    ensures var n := |sends|;
            AreSends(sends, answers, streamCallCount, waits, env) <==>
            && (forall k :: 0 <= k < n ==> answers(k).Payload? && sends[k] == answers(k).message && !env(k).cancelledBefore)
            && (forall k :: 0 <= k < n - 1 ==> !EndsAfter(answers(k).last, streamCallCount, waits, env(k), k))
            && (|| env(n).cancelledBefore || !answers(n).Payload?
                || (n > 0 && EndsAfter(answers(n - 1).last, streamCallCount, waits, env(n - 1), n - 1)))
  {
    var n := |sends|;
    if forall k :: 0 <= k < n ==> answers(k).Payload? {
      forall k: nat | k < n
        ensures GoesOn(answers, streamCallCount, waits, env, k) <==>
                  !EndsAfter(answers(k).last, streamCallCount, waits, env(k), k)
      {
      }
      hide GoesOn, EndsAfter;
      if AreSends(sends, answers, streamCallCount, waits, env) {
        forall k | 0 <= k < n - 1
          ensures !EndsAfter(answers(k).last, streamCallCount, waits, env(k), k)
        {
          assert GoesOn(answers, streamCallCount, waits, env, k);
        }
      }
    }
  }

  /** If nothing ends a stream, no list of sends is all of it: the loop would not return. */
  lemma EndlessIff<P>(answers: nat -> Reply<P>, streamCallCount: nat, waits: bool, env: nat -> Turn)
    ensures (exists n: nat :: StopsAt(answers, streamCallCount, waits, env, n)) <==>
            exists sends: seq<P> :: AreSends(sends, answers, streamCallCount, waits, env)
  {
    forall sends: seq<P> | AreSends(sends, answers, streamCallCount, waits, env)
      ensures exists n: nat :: StopsAt(answers, streamCallCount, waits, env, n)
    {
      assert StopsAt(answers, streamCallCount, waits, env, |sends|)
        || (|sends| > 0 && StopsAt(answers, streamCallCount, waits, env, |sends| - 1));
    }
    if n: nat :| StopsAt(answers, streamCallCount, waits, env, n) {
      var sends := SendsBy(answers, streamCallCount, waits, env, n);
    }
  }

  /** The sends of a stream that is ended by turn n at the latest. */
  lemma {:induction false} SendsBy<P>(
      answers: nat -> Reply<P>, streamCallCount: nat, waits: bool, env: nat -> Turn, n: nat) returns (sends: seq<P>)
    requires StopsAt(answers, streamCallCount, waits, env, n)
    ensures AreSends(sends, answers, streamCallCount, waits, env)
  {
    sends := [];
    while !StopsAt(answers, streamCallCount, waits, env, |sends|)
      invariant |sends| <= n
      invariant forall k :: 0 <= k < |sends| ==>
        answers(k).Payload? && sends[k] == answers(k).message && !env(k).cancelledBefore
      invariant forall k :: 0 <= k < |sends| ==> GoesOn(answers, streamCallCount, waits, env, k)
      decreases n - |sends|
    {
      sends := sends + [answers(|sends|).message];
    }
    var k := |sends|;
    if !env(k).cancelledBefore && answers(k).Payload? {
      sends := sends + [answers(k).message];
    }
  }

  /** The static stream, uninterrupted: every message accepted and nobody cancelling. */
  ghost predicate Undisturbed(env: nat -> Turn, n: nat) {
    forall k :: 0 <= k < n ==> env(k) == Turn(false, Accepted, false, false)
  }

  function StaticAnswers<M>(inputs: seq<M>, streamCallCount: nat): nat -> Reply<M> {
    (k: nat) => StaticReply(inputs, streamCallCount, k)
  }

  /** Whatever happens around it, a static stream is ended by its limit. */
  lemma StaticStreamEnds<M>(inputs: seq<M>, streamCallCount: nat, waits: bool, env: nat -> Turn)
    ensures StopsAt(StaticAnswers(inputs, streamCallCount), streamCallCount, waits, env, Limit(streamCallCount, |inputs|))
  {
  }

  /** The first n static messages are all that is sent: the configured count of them, or one for each input,
      or the last one was not accepted or was followed by a cancellation, or one was seen before the next. */
  predicate IsCutAt(limit: nat, waits: bool, env: nat -> Turn, n: nat) {
    || n == limit || env(n).cancelledBefore
    || (n > 0 && (env(n - 1).sent != Accepted || env(n - 1).cancelledAfter || (waits && env(n - 1).cancelledInWait)))
  }

  /** The stream of static messages is the inputs in turn, up to the first reason to stop; undisturbed it is
      all of them. */
  lemma StaticStreamIsSent<M>(inputs: seq<M>, streamCallCount: nat, waits: bool, env: nat -> Turn, sends: seq<M>)
    requires |inputs| > 0
    requires AreSends(sends, StaticAnswers(inputs, streamCallCount), streamCallCount, waits, env)
    ensures var limit := if streamCallCount > 0 then streamCallCount else |inputs|;
            && |sends| <= limit
            && IsCutAt(limit, waits, env, |sends|)
            && (forall n :: 0 <= n < |sends| ==> !IsCutAt(limit, waits, env, n))
            && (Undisturbed(env, limit) ==> |sends| == limit)
    ensures forall k :: 0 <= k < |sends| ==> sends[k] == inputs[k % |inputs|]
  {
    var limit := if streamCallCount > 0 then streamCallCount else |inputs|;
    var answers := StaticAnswers(inputs, streamCallCount);
    forall n: nat | n < |sends|
      ensures !IsCutAt(limit, waits, env, n)
    {
      assert sends[n] == answers(n).message;
      if n > 0 {
        assert GoesOn(answers, streamCallCount, waits, env, n - 1);
      }
    }
  }

  lemma LastComesOnce<M>(inputs: seq<M>, streamCallCount: nat, k: nat)
    requires |inputs| > 0
    ensures var r := StaticReply(inputs, streamCallCount, k);
            && (r.Payload? && r.last <==> k == Limit(streamCallCount, |inputs|) - 1)
            && (r == EndStream <==> k >= Limit(streamCallCount, |inputs|))
            && !r.Panic?
  {
  }
}

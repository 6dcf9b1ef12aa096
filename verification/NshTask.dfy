/** The task that owns the flight controller's shell: one request at a time, answered by the prompt,
    by the end of the reply, or by its deadline. Times are milliseconds. */
module NshTask {
  import opened Uint
  import opened Wrappers
  import opened PromptScan
  import opened FrameReader

  const DEFAULT_TIMEOUT_MS: nat := 2000

  datatype Command = Command(id: U32, timeoutMs: nat)

  /** What the task finds when it comes to send a command. */
  datatype Link = NoController | Disconnected | Accepts | Refuses

  /** The text of a response: shell output, or one of the task's own lines. */
  datatype Text = Shell(bytes: seq<Byte>) | NoFcConnected | FcDisconnected | FailedToSend | RequestTimedOut

  datatype Response = Response(id: U32, success: bool, complete: bool, output: Text)

  function NotSentText(link: Link): Text {
    match link
    case NoController => NoFcConnected
    case Disconnected => FcDisconnected
    case _ => FailedToSend
  }

  /** Why a response was sent. */
  datatype Cause = NotSent(link: Link) | Answered | DeadlineFallback

  datatype Sent = Sent(response: Response, cause: Cause, dequeuedAt: nat, at: nat)

  /** A command the task took off its queue. */
  datatype Dequeued = Dequeued(command: Command, at: nat)

  function TimeoutMs(c: Command): nat { if c.timeoutMs == 0 then DEFAULT_TIMEOUT_MS else c.timeoutMs }

  function DeadlineOf(d: Dequeued): nat { d.at + TimeoutMs(d.command) }

  /** The shell data of the first `n` arrivals. */
  function DataOf(arrivals: seq<NshData>, n: nat): seq<Byte>
    requires n <= |arrivals|
  {
    if n == 0 then [] else DataOf(arrivals, n - 1) + arrivals[n - 1].data
  }

  /** Arrival `k` is the first after which the reply in `buffer` is complete: it ends the reply, or the
      whole response so far shows the prompt. */
  ghost predicate CompletesAt(buffer: seq<Byte>, arrivals: seq<NshData>, k: nat) {
    && k < |arrivals| && CompleteAfter(buffer, arrivals, k)
    && forall j :: 0 <= j < k ==> !CompleteAfter(buffer, arrivals, j)
  }

  predicate CompleteAfter(buffer: seq<Byte>, arrivals: seq<NshData>, k: nat)
    requires k < |arrivals|
  {
    arrivals[k].complete || HasPrompt(buffer + DataOf(arrivals, k + 1))
  }

  ghost predicate NeverCompletes(buffer: seq<Byte>, arrivals: seq<NshData>) {
    forall j :: 0 <= j < |arrivals| ==> !CompleteAfter(buffer, arrivals, j)
  }

  /** Every dequeued command but the outstanding one has exactly one complete response, in dequeue
      order, and a fallback never precedes its command's deadline. */
  ghost predicate InOrder(sent: seq<Sent>, dequeued: seq<Dequeued>) {
    && |sent| <= |dequeued| <= |sent| + 1
    && forall i :: 0 <= i < |sent| ==> Answers(sent[i], dequeued[i])
  }

  ghost predicate Answers(s: Sent, d: Dequeued) {
    && s.response.id == d.command.id && s.response.complete && s.dequeuedAt == d.at <= s.at
    && (s.cause.DeadlineFallback? ==> s.at >= DeadlineOf(d))
  }

  class Task {
    /** Whether a response, read as text, is nothing but white space. */
    const isBlank: seq<Byte> -> bool
    var currentRequestId: Option<U32>
    var responseBuffer: seq<Byte>
    var requestDeadline: Option<nat>
    var sent: seq<Sent>
    /** Every command taken off the queue, in order. */
    var dequeued: seq<Dequeued>
    ghost var clock: nat

    /** The outstanding request is the last command dequeued, with its deadline. */
    ghost predicate Ledger()
      reads this
    {
      && InOrder(sent, dequeued)
      && (currentRequestId.Some? <==> |dequeued| == |sent| + 1)
      && (forall i :: 0 <= i < |dequeued| ==> dequeued[i].at <= clock)
      && (currentRequestId.Some? ==>
            var d := dequeued[|sent|];
            currentRequestId == Some(d.command.id) && requestDeadline == Some(DeadlineOf(d)))
    }

    /** A request is outstanding only while its response shows no prompt. */
    ghost predicate Valid()
      reads this
    {
      Ledger() && (currentRequestId.Some? ==> !HasPrompt(responseBuffer))
    }

    constructor (isBlank: seq<Byte> -> bool)
      ensures Valid() && sent == [] && dequeued == [] && clock == 0 && this.isBlank == isBlank
    {
      this.isBlank := isBlank;
      currentRequestId, responseBuffer, requestDeadline := None, [], None;
      sent, dequeued, clock := [], [], 0;
    }

    /** Takes a command, which the task does only while nothing is outstanding. It is answered at once
        when it cannot be sent, and outstanding otherwise. */
    method TakeCommand(cmd: Command, link: Link, now: nat)
      requires Valid() && currentRequestId.None? && now >= clock
      modifies this
      ensures Valid() && clock == now && dequeued == old(dequeued) + [Dequeued(cmd, now)]
      ensures link.Accepts? ==>
                currentRequestId == Some(cmd.id)
                && requestDeadline == Some(now + if cmd.timeoutMs == 0 then 2000 else cmd.timeoutMs)
                && responseBuffer == [] && sent == old(sent)
      ensures !link.Accepts? ==>
                currentRequestId.None? && |sent| == |old(sent)| + 1 && sent[..|old(sent)|] == old(sent)
                && sent[|old(sent)|].cause == NotSent(link) && sent[|old(sent)|].at == now
                && sent[|old(sent)|].response.output == (match link
                                                         case NoController => NoFcConnected
                                                         case Disconnected => FcDisconnected
                                                         case _ => FailedToSend)
                && sent[|old(sent)|].response == Response(cmd.id, false, true, NotSentText(link))
    {
      clock := now;
      dequeued := dequeued + [Dequeued(cmd, now)];
      match link {
        case NoController | Disconnected | Refuses =>
          sent := sent + [Sent(Response(cmd.id, false, true, NotSentText(link)), NotSent(link), now, now)];
        case Accepts =>
          NoPromptInNothing();
          currentRequestId, responseBuffer := Some(cmd.id), [];
          requestDeadline := Some(now + (if cmd.timeoutMs == 0 then DEFAULT_TIMEOUT_MS else cmd.timeoutMs));
      }
    }

    /** One poll: absorbs what the controller sent, if there is a connection to read, then checks the
        deadline. */
    method PollTick(connected: bool, arrivals: seq<NshData>, now: nat)
      requires Valid() && now >= clock
      modifies this
      ensures Valid() && clock == now && dequeued == old(dequeued)
      ensures old(currentRequestId).None? ==> sent == old(sent) && currentRequestId.None?
      ensures old(currentRequestId).Some? && old(requestDeadline).value <= now ==> currentRequestId.None?
      ensures forall k: nat :: old(currentRequestId).Some? && connected && CompletesAt(old(responseBuffer), arrivals, k) ==>
                currentRequestId.None? && Finishes(old(sent), Shell(old(responseBuffer) + DataOf(arrivals, k + 1)), true, Answered)
      ensures old(currentRequestId).Some? && (!connected || NeverCompletes(old(responseBuffer), arrivals)) ==>
                var all := old(responseBuffer) + if connected then DataOf(arrivals, |arrivals|) else [];
                if old(requestDeadline).value <= now then
                  Finishes(old(sent), if all == [] then RequestTimedOut else Shell(all), !isBlank(all), DeadlineFallback)
                else sent == old(sent) && currentRequestId == old(currentRequestId)
                     && requestDeadline == old(requestDeadline) && responseBuffer == all
    {
      clock := now;
      if connected {
        Absorb(arrivals, now);
      } else {
        assert responseBuffer + [] == responseBuffer;
      }
      if currentRequestId.Some? && requestDeadline.Some? && now >= requestDeadline.value {
        Finish(if responseBuffer == [] then RequestTimedOut else Shell(responseBuffer), !isBlank(responseBuffer),
               DeadlineFallback, now);
      }
    }

    /** The outstanding request was finished with this output, as the one response added. */
    ghost predicate Finishes(before: seq<Sent>, output: Text, success: bool, cause: Cause)
      reads this
    {
      && |sent| == |before| + 1 && sent[..|before|] == before
      && var s := sent[|before|];
         s.response.output == output && s.response.success == success && s.cause == cause && s.at == clock
    }

    /** Answers the outstanding request. */
    method Finish(output: Text, success: bool, cause: Cause, now: nat)
      requires Ledger() && currentRequestId.Some? && now == clock
      requires cause.DeadlineFallback? ==> now >= requestDeadline.value
      modifies this`sent, this`currentRequestId, this`responseBuffer, this`requestDeadline
      ensures Valid() && currentRequestId.None? && responseBuffer == []
      ensures Finishes(old(sent), output, success, cause)
    {
      sent := sent + [Sent(Response(currentRequestId.value, success, true, output), cause, dequeued[|sent|].at, now)];
      currentRequestId, responseBuffer, requestDeadline := None, [], None;
    }

    /** Appends one arrival and looks for the prompt in the tail alone, which settles whether the whole
        response shows it. Data that arrives with nothing outstanding is kept and answers nothing. */
    method TakeArrival(arrival: NshData, now: nat)
      requires Valid() && now == clock
      modifies this`sent, this`currentRequestId, this`responseBuffer, this`requestDeadline
      ensures Valid()
      ensures var all := old(responseBuffer) + arrival.data;
              if old(currentRequestId).Some? && (arrival.complete || HasPrompt(all)) then
                currentRequestId.None? && Finishes(old(sent), Shell(all), true, Answered)
              else
                && sent == old(sent) && currentRequestId == old(currentRequestId)
                && requestDeadline == old(requestDeadline) && responseBuffer == all
    {
      hide HasPrompt, TailHasPrompt;
      var before := responseBuffer;
      if currentRequestId.Some? {
        TailScanIsWholeScan(before, arrival.data);
      }
      responseBuffer := responseBuffer + arrival.data;
      var isComplete := arrival.complete || TailHasPrompt(before, arrival.data);
      if isComplete && currentRequestId.Some? {
        Finish(Shell(responseBuffer), true, Answered, now);
      }
    }

    /** Absorbs everything one poll finds. */
    method Absorb(arrivals: seq<NshData>, now: nat)
      requires Valid() && now == clock
      modifies this`sent, this`currentRequestId, this`responseBuffer, this`requestDeadline
      ensures Valid()
      ensures old(currentRequestId).None? ==> sent == old(sent) && currentRequestId.None?
      ensures forall k: nat :: old(currentRequestId).Some? && CompletesAt(old(responseBuffer), arrivals, k) ==>
                currentRequestId.None? && Finishes(old(sent), Shell(old(responseBuffer) + DataOf(arrivals, k + 1)), true, Answered)
      ensures old(currentRequestId).Some? && NeverCompletes(old(responseBuffer), arrivals) ==>
                sent == old(sent) && currentRequestId == old(currentRequestId) && requestDeadline == old(requestDeadline)
                && responseBuffer == old(responseBuffer) + DataOf(arrivals, |arrivals|)
    {
      hide HasPrompt, TailHasPrompt, InOrder, Valid;
      ghost var start := responseBuffer;
      ghost var done: Option<nat> := None;
      var n := 0;
      while n < |arrivals|
        invariant 0 <= n <= |arrivals| && Valid()
        invariant old(currentRequestId).None? ==> sent == old(sent) && currentRequestId.None?
        invariant old(currentRequestId).Some? && done.None? ==>
          sent == old(sent) && currentRequestId == old(currentRequestId) && requestDeadline == old(requestDeadline)
          && responseBuffer == start + DataOf(arrivals, n)
          && forall j :: 0 <= j < n ==> !CompleteAfter(start, arrivals, j)
        invariant old(currentRequestId).Some? && done.Some? ==>
          currentRequestId.None? && done.value < n && CompletesAt(start, arrivals, done.value)
          && Finishes(old(sent), Shell(start + DataOf(arrivals, done.value + 1)), true, Answered)
      {
        ghost var waiting := currentRequestId.Some?;
        assert (start + DataOf(arrivals, n)) + arrivals[n].data == start + DataOf(arrivals, n + 1);
        TakeArrival(arrivals[n], now);
        if waiting && currentRequestId.None? { done := Some(n); }
        n := n + 1;
      }
      forall k: nat | old(currentRequestId).Some? && CompletesAt(start, arrivals, k) ensures done == Some(k) {
        if done.Some? { FirstCompletionIsUnique(start, arrivals, done.value, k); }
      }
    }
  }

  lemma FirstCompletionIsUnique(buffer: seq<Byte>, arrivals: seq<NshData>, j: nat, k: nat)
    requires CompletesAt(buffer, arrivals, j) && CompletesAt(buffer, arrivals, k)
    ensures j == k
  {
    assert !(j < k) && !(k < j);
  }
}

/** Awaited shell commands: internal request ids, and the waiter whose reply window ends before the
    task's own deadline. */
module NshAwait {
  import opened Uint
  import opened Wrappers
  import opened NshTask

  const INTERNAL_REQUEST_ID_FIRST: U32 := 0xFFFF_FF10
  /** How many ids the internal range holds. */
  const INTERNAL_IDS: nat := 240
  const NSH_COMMAND_TIMEOUT_MS: nat := 4000
  const NSH_REPLY_TIMEOUT_MS: nat := 3000

  // ----- request ids -----

  function IdAfter(id: U32): U32 { if id == U32_MAX then INTERNAL_REQUEST_ID_FIRST else id + 1 }

  class InternalRequestIds {
    var next: U32

    predicate Valid()
      reads this
    {
      INTERNAL_REQUEST_ID_FIRST <= next
    }

    constructor (first: U32)
      requires first >= INTERNAL_REQUEST_ID_FIRST
      ensures Valid() && next == first
    {
      next := first;
    }

    method Next() returns (id: U32)
      requires Valid()
      modifies this
      ensures Valid() && id == old(next) && next == IdAfter(id)
    {
      id := next;
      next := if next == U32_MAX then INTERNAL_REQUEST_ID_FIRST else next + 1;
    }
  }

  /** The id of the k-th call from `first`. */
  function IdAt(first: U32, k: nat): U32 { if k == 0 then first else IdAfter(IdAt(first, k - 1)) }

  /** Position of the n-th id within the range. */
  function Turn(n: nat): (t: nat)
    ensures t < INTERNAL_IDS
  {
    n % INTERNAL_IDS
  }

  lemma TurnStep(n: nat)
    ensures Turn(n + 1) == if Turn(n) == INTERNAL_IDS - 1 then 0 else Turn(n) + 1
  {
  }

  lemma TurnsApart(a: nat, b: nat)
    ensures 0 < b - a < INTERNAL_IDS ==> Turn(a) != Turn(b)
    ensures b - a == INTERNAL_IDS ==> Turn(a) == Turn(b)
  {
    var qa, qb := a / INTERNAL_IDS, b / INTERNAL_IDS;
    assert a == INTERNAL_IDS * qa + Turn(a) && b == INTERNAL_IDS * qb + Turn(b);
  }

  lemma {:induction false} IdsWalkTheRange(first: U32, k: nat)
    requires first >= INTERNAL_REQUEST_ID_FIRST
    ensures IdAt(first, k) == INTERNAL_REQUEST_ID_FIRST + Turn(first - INTERNAL_REQUEST_ID_FIRST + k)
  {
    if k > 0 {
      IdsWalkTheRange(first, k - 1);
      TurnStep(first - INTERNAL_REQUEST_ID_FIRST + k - 1);
    }
  }

  /** Ids stay in the internal range for ever, and any 240 consecutive calls get different ones. */
  lemma InternalIdsAreDistinct(first: U32, j: nat, k: nat)
    requires first >= INTERNAL_REQUEST_ID_FIRST
    ensures INTERNAL_REQUEST_ID_FIRST <= IdAt(first, j)
    ensures 0 < k - j < INTERNAL_IDS ==> IdAt(first, j) != IdAt(first, k)
    ensures k - j == INTERNAL_IDS ==> IdAt(first, j) == IdAt(first, k)
  {
    hide Turn, IdAt, IdAfter;
    IdsWalkTheRange(first, j);
    IdsWalkTheRange(first, k);
    TurnsApart(first - INTERNAL_REQUEST_ID_FIRST + j, first - INTERNAL_REQUEST_ID_FIRST + k);
  }

  // ----- the waiter -----

  /** What the reply channel yields when the waiter is polled. */
  datatype ReplyEvent = Reply(s: Sent) | Lagged | ChannelClosed

  /** One time the waiter is polled, with everything the channel holds for it then. */
  datatype Poll = Poll(at: nat, replies: seq<ReplyEvent>)

  datatype Queue = Open | Full | NotRunning

  datatype Answer = Output(s: Sent) | Failure(s: Sent) | NoReply | ReplyChannelClosed | QueueFull | TaskNotRunning

  predicate Mine(e: ReplyEvent, id: U32) { e.Reply? && e.s.response.id == id && e.s.response.complete }

  /** The first event that settles the wait: others' replies and lag gaps are skipped. */
  function Settles(replies: seq<ReplyEvent>, id: U32): Option<Answer> {
    if replies == [] then None
    else if replies[0].ChannelClosed? then Some(ReplyChannelClosed)
    else if Mine(replies[0], id) then
      var s := replies[0].s;
      Some(if s.response.success then Output(s) else Failure(s))
    else Settles(replies[1..], id)
  }

  /** A poll looks at the channel before it looks at the clock. */
  function AtPoll(p: Poll, id: U32, deadline: nat): Option<Answer> {
    var settled := Settles(p.replies, id);
    if settled.Some? then settled else if p.at >= deadline then Some(NoReply) else None
  }

  function Await(polls: seq<Poll>, id: U32, deadline: nat): Option<Answer> {
    if polls == [] then None
    else
      var now := AtPoll(polls[0], id, deadline);
      if now.Some? then now else Await(polls[1..], id, deadline)
  }

  /** Sends a command and waits for its complete reply; `None` while no poll has settled it. */
  method RunNsh(queue: Queue, id: U32, calledAt: nat, replyTimeoutMs: nat, polls: seq<Poll>)
    returns (answer: Option<Answer>)
    ensures answer == match queue
                      case Full => Some(QueueFull)
                      case NotRunning => Some(TaskNotRunning)
                      case Open => Await(polls, id, calledAt + replyTimeoutMs)
  {
    var deadline := calledAt + replyTimeoutMs;
    if queue.Full? { return Some(QueueFull); }
    if queue.NotRunning? { return Some(TaskNotRunning); }
    var n := 0;
    while n < |polls|
      invariant 0 <= n <= |polls| && Await(polls, id, deadline) == Await(polls[n..], id, deadline)
    {
      var p := polls[n];
      var k := 0;
      assert polls[n..][1..] == polls[n + 1..];
      while k < |p.replies|
        invariant 0 <= k <= |p.replies| && Settles(p.replies, id) == Settles(p.replies[k..], id)
      {
        var e := p.replies[k];
        assert p.replies[k..][1..] == p.replies[k + 1..];
        match e {
          case ChannelClosed =>
            return Some(ReplyChannelClosed);
          case Lagged =>
          case Reply(s) =>
            if s.response.id == id && s.response.complete {
              return Some(if s.response.success then Output(s) else Failure(s));
            }
        }
        k := k + 1;
      }
      if p.at >= deadline {
        return Some(NoReply);
      }
      n := n + 1;
    }
    return None;
  }

  // ----- the 3 s window under the 4 s deadline -----

  ghost predicate Delivered(polls: seq<Poll>) {
    && (forall i, j :: 0 <= i < j < |polls| ==> polls[i].at <= polls[j].at)
    && forall i, e :: 0 <= i < |polls| && e in polls[i].replies && e.Reply? ==> e.s.at <= polls[i].at
  }

  /** Replies under this id answer commands the task dequeued after the call, with the waiter's own
      timeout: what the task guarantees of every response it sends. */
  ghost predicate FromTheTask(polls: seq<Poll>, id: U32, calledAt: nat) {
    forall i, e :: 0 <= i < |polls| && e in polls[i].replies && Mine(e, id) ==>
      exists d: Dequeued :: d.at >= calledAt && d.command.timeoutMs == NSH_COMMAND_TIMEOUT_MS && Answers(e.s, d)
  }

  /** Replies a task really sent are such replies, as long as every command it dequeued under this id
      is the waiter's own. */
  lemma TaskSendsSuchReplies(polls: seq<Poll>, id: U32, calledAt: nat, sent: seq<Sent>, dequeued: seq<Dequeued>)
    requires InOrder(sent, dequeued)
    requires forall i, e :: 0 <= i < |polls| && e in polls[i].replies && e.Reply? ==> e.s in sent
    requires forall d :: d in dequeued && d.command.id == id ==>
               d.at >= calledAt && d.command.timeoutMs == NSH_COMMAND_TIMEOUT_MS
    ensures FromTheTask(polls, id, calledAt)
  {
    forall i, e | 0 <= i < |polls| && e in polls[i].replies && Mine(e, id)
      ensures exists d: Dequeued :: d.at >= calledAt && d.command.timeoutMs == NSH_COMMAND_TIMEOUT_MS && Answers(e.s, d)
    {
      var k :| 0 <= k < |sent| && sent[k] == e.s;
      assert Answers(sent[k], dequeued[k]) && dequeued[k] in dequeued;
    }
  }

  lemma {:induction false} SettlesByAnEvent(replies: seq<ReplyEvent>, id: U32)
    ensures match Settles(replies, id)
            case Some(Output(s)) => Reply(s) in replies && s.response.id == id && s.response.complete && s.response.success
            case Some(Failure(s)) => Reply(s) in replies && s.response.id == id && s.response.complete && !s.response.success
            case Some(ReplyChannelClosed) => ChannelClosed in replies
            case Some(_) => false
            case None => ChannelClosed !in replies && forall s :: Reply(s) in replies ==> !(s.response.id == id && s.response.complete)
  {
    if replies != [] && !replies[0].ChannelClosed? && !Mine(replies[0], id) {
      SettlesByAnEvent(replies[1..], id);
    }
  }

  /** An answer comes at some poll, and no earlier poll was late. */
  lemma {:induction false} AnsweredAtAPoll(polls: seq<Poll>, id: U32, deadline: nat) returns (i: nat)
    requires Await(polls, id, deadline).Some?
    ensures i < |polls| && AtPoll(polls[i], id, deadline) == Await(polls, id, deadline)
    ensures forall j :: 0 <= j < i ==> polls[j].at < deadline && AtPoll(polls[j], id, deadline).None?
    decreases |polls|
  {
    if AtPoll(polls[0], id, deadline).Some? {
      i := 0;
    } else {
      var k := AnsweredAtAPoll(polls[1..], id, deadline);
      i := k + 1;
    }
  }

  /** With the waiter polled once inside the second between its window and the task's deadline, an
      output it returns is never the task's deadline fallback, however long the command queued. */
  lemma NeverOkFromTheFallback(polls: seq<Poll>, id: U32, calledAt: nat, replyTimeoutMs: nat, margin: nat, s: Sent)
    requires Delivered(polls) && FromTheTask(polls, id, calledAt)
    requires margin < |polls|
    requires calledAt + replyTimeoutMs <= polls[margin].at < calledAt + NSH_COMMAND_TIMEOUT_MS
    requires Await(polls, id, calledAt + replyTimeoutMs) == Some(Output(s))
    ensures !s.cause.DeadlineFallback?
  {
    var i := AnsweredAtAPoll(polls, id, calledAt + replyTimeoutMs);
    SettlesByAnEvent(polls[i].replies, id);
    assert i <= margin;
    assert Reply(s) in polls[i].replies;
    var d: Dequeued :| d.at >= calledAt && d.command.timeoutMs == NSH_COMMAND_TIMEOUT_MS && Answers(s, d);
  }

  ghost predicate OnlyReply(polls: seq<Poll>, id: U32, k: nat, s: Sent) {
    && k < |polls| && Settles(polls[k].replies, id) == Some(Output(s))
    && forall j :: 0 <= j < k ==> Settles(polls[j].replies, id).None?
  }

  /** The poll is what protects it: a reply first seen at poll `k` is returned exactly when no earlier
      poll fell past the reply window. */
  lemma {:induction false} ReturnedExactlyWhenNotPolledLate(polls: seq<Poll>, id: U32, deadline: nat, k: nat, s: Sent)
    requires OnlyReply(polls, id, k, s)
    ensures Await(polls, id, deadline) == Some(Output(s)) <==> forall j :: 0 <= j < k ==> polls[j].at < deadline
    ensures Await(polls, id, deadline) == Some(Output(s)) || Await(polls, id, deadline) == Some(NoReply)
    decreases |polls|
  {
    if k > 0 {
      assert Settles(polls[0].replies, id).None?;
      if polls[0].at < deadline {
        forall j | 0 <= j < k - 1 ensures Settles(polls[1..][j].replies, id).None? {
          assert polls[1..][j] == polls[j + 1];
        }
        ReturnedExactlyWhenNotPolledLate(polls[1..], id, deadline, k - 1, s);
        assert forall j :: 1 <= j < k ==> polls[j] == polls[1..][j - 1];
      }
    }
  }

  /** Without a poll in the margin the echo does count as a confirmation. */
  lemma UnpolledMarginAcceptsTheFallback(id: U32, calledAt: nat, echo: Text)
    ensures var d := Dequeued(Command(id, NSH_COMMAND_TIMEOUT_MS), calledAt);
            var s := Sent(Response(id, true, true, echo), DeadlineFallback, calledAt, DeadlineOf(d));
            var polls := [Poll(calledAt + NSH_COMMAND_TIMEOUT_MS, [Reply(s)])];
            && Answers(s, d) && Delivered(polls) && FromTheTask(polls, id, calledAt)
            && Await(polls, id, calledAt + NSH_REPLY_TIMEOUT_MS) == Some(Output(s))
  {
    var d := Dequeued(Command(id, NSH_COMMAND_TIMEOUT_MS), calledAt);
    var s := Sent(Response(id, true, true, echo), DeadlineFallback, calledAt, DeadlineOf(d));
    assert Answers(s, d);
  }
}

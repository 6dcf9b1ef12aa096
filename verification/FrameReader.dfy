/** The serial reader: a parse cursor over a growing buffer, and resynchronisation after noise. The
    MAVLink parser is any function that takes a positive part of what it is given. */
module FrameReader {
  import opened Uint

  const STX: Byte := 0xFD
  const MIN_FRAME: nat := 8
  const MAX_PARSE_BUFFER_SIZE: nat := 8192
  const SERIAL_DATA: nat := 70
  /** The most one read returns. */
  const READ_SIZE: nat := 1024

  /** The fixed data array of a SERIAL_CONTROL message. */
  type SerialData = s: seq<Byte> | |s| == SERIAL_DATA witness seq(SERIAL_DATA, _ => 0)

  datatype Message = SerialControl(count: Byte, data: SerialData) | Other(id: nat)
  datatype Parse = Incomplete | Parsed(message: Message, consumed: nat)

  /** What became of a stretch of the stream. */
  datatype Segment = Frame(bytes: seq<Byte>, message: Message) | Dropped(bytes: seq<Byte>)

  datatype NshData = NshData(data: seq<Byte>, complete: bool)

  type Parser = seq<Byte> -> Parse

  /** A frame needs the minimum length, and takes something but never more than there is. */
  ghost predicate Sensible(parse: Parser) {
    forall b: seq<Byte> :: parse(b).Parsed? ==> |b| >= MIN_FRAME && 0 < parse(b).consumed <= |b|
  }

  // ----- one message at a time -----

  /** The frames at the front of `buffer`, each drained before the next is sought. */
  function FramesOf(parse: Parser, buffer: seq<Byte>): seq<Segment>
    requires Sensible(parse)
    decreases |buffer|
  {
    match parse(buffer)
    case Incomplete => []
    case Parsed(message, n) => [Frame(buffer[..n], message)] + FramesOf(parse, buffer[n..])
  }

  function AfterFrames(parse: Parser, buffer: seq<Byte>): seq<Byte>
    requires Sensible(parse)
    decreases |buffer|
  {
    match parse(buffer)
    case Incomplete => buffer
    case Parsed(_, n) => AfterFrames(parse, buffer[n..])
  }

  /** First start byte at or after `from`, or the end. */
  function NextStart(buffer: seq<Byte>, from: nat): (k: nat)
    requires from <= |buffer|
    ensures from <= k <= |buffer|
    decreases |buffer| - from
  {
    if from == |buffer| || buffer[from] == STX then from else NextStart(buffer, from + 1)
  }

  /** How much `drain_to_next_frame` drops. */
  function DropCount(buffer: seq<Byte>, skipFirst: bool): (k: nat)
    ensures k <= |buffer|
  {
    if buffer == [] then 0
    else NextStart(buffer, if skipFirst || buffer[0] != STX then 1 else 0)
  }

  predicate Overflows(buffer: seq<Byte>) { |buffer| > MAX_PARSE_BUFFER_SIZE }

  predicate OutOfStep(buffer: seq<Byte>) { |buffer| >= MIN_FRAME && buffer[0] != STX }

  /** What an oversized buffer gives up before any parse. */
  function LeadCount(buffer: seq<Byte>): (k: nat)
    ensures k <= |buffer|
  {
    if Overflows(buffer) then DropCount(buffer, false) else 0
  }

  function Lead(buffer: seq<Byte>): seq<Segment> {
    if Overflows(buffer) then [Dropped(buffer[..LeadCount(buffer)])] else []
  }

  /** What is given up when the bytes left over cannot begin a frame. */
  function TrailCount(rest: seq<Byte>): (k: nat)
    ensures k <= |rest|
  {
    if OutOfStep(rest) then DropCount(rest, true) else 0
  }

  function Trail(rest: seq<Byte>): seq<Segment> {
    if OutOfStep(rest) then [Dropped(rest[..TrailCount(rest)])] else []
  }

  /** One read, message by message: what is done with the bytes, and what stays. */
  function ReadSegments(parse: Parser, buffer: seq<Byte>): seq<Segment>
    requires Sensible(parse)
  {
    var kept := buffer[LeadCount(buffer)..];
    Lead(buffer) + FramesOf(parse, kept) + Trail(AfterFrames(parse, kept))
  }

  function ReadRemainder(parse: Parser, buffer: seq<Byte>): seq<Byte>
    requires Sensible(parse)
  {
    var rest := AfterFrames(parse, buffer[LeadCount(buffer)..]);
    rest[TrailCount(rest)..]
  }

  /** The bytes of a log, in order. */
  function Bytes(log: seq<Segment>): seq<Byte> {
    if log == [] then [] else Bytes(log[..|log| - 1]) + log[|log| - 1].bytes
  }

  function Messages(log: seq<Segment>): seq<Message> {
    if log == [] then []
    else
      Messages(log[..|log| - 1])
      + match log[|log| - 1] { case Frame(_, m) => [m] case Dropped(_) => [] }
  }

  function Drops(log: seq<Segment>): nat {
    if log == [] then 0 else Drops(log[..|log| - 1]) + (if log[|log| - 1].Dropped? then 1 else 0)
  }

  /** The shell data a message carries, if any: up to its count, and a count of zero ends the reply. */
  function NshOf(m: Message): seq<NshData> {
    match m
    case Other(_) => []
    case SerialControl(count, data) => [NshData(data[..Min(count, SERIAL_DATA)], count == 0)]
  }

  /** A message with count `c` yields its first `c` bytes, never more than 70, and ends the reply exactly
      when `c` is zero; nothing else yields any. */
  lemma ShellDataOfAMessage(m: Message)
    ensures m.Other? ==> NshOf(m) == []
    ensures m.SerialControl? ==>
              && |NshOf(m)| == 1 && NshOf(m)[0].data == m.data[..if m.count <= 70 then m.count else 70]
              && (NshOf(m)[0].complete <==> m.count == 0)
  {
  }

  /** The shell data of a log, in order. */
  function ShellData(log: seq<Segment>): seq<NshData> {
    if log == [] then []
    else
      ShellData(log[..|log| - 1])
      + match log[|log| - 1] { case Frame(_, m) => NshOf(m) case Dropped(_) => [] }
  }

  ghost predicate NoStartByteDropped(log: seq<Segment>) {
    forall i :: 0 <= i < |log| && log[i].Dropped? ==> STX !in log[i].bytes
  }

  ghost predicate Settled(buffer: seq<Byte>) { |buffer| < MIN_FRAME || buffer[0] == STX }

  // ----- the reader -----

  class Reader {
    const parse: Parser
    var parseBuffer: seq<Byte>
    /** What was done with every byte taken off the buffer, in order. */
    var log: seq<Segment>
    var packets: nat
    var failures: nat
    var nsh: seq<NshData>
    ghost var stream: seq<Byte>

    ghost predicate Valid()
      reads this
    {
      && Sensible(parse)
      && Bytes(log) + parseBuffer == stream
      && NoStartByteDropped(log) && Settled(parseBuffer)
      && packets == |Messages(log)| && failures == Drops(log) && nsh == ShellData(log)
    }

    constructor (parse: Parser)
      requires Sensible(parse)
      ensures Valid() && this.parse == parse && stream == [] && log == [] && parseBuffer == [] && nsh == []
    {
      this.parse := parse;
      parseBuffer, log, packets, failures, nsh, stream := [], [], 0, 0, [], [];
    }

    /** Drops up to the next start byte, or everything. */
    method DrainToNextFrame(skipFirst: bool)
      requires parseBuffer != []
      modifies this`parseBuffer, this`log, this`failures
      ensures var k := DropCount(old(parseBuffer), skipFirst);
              && log == old(log) + [Dropped(old(parseBuffer)[..k])]
              && parseBuffer == old(parseBuffer)[k..]
      ensures failures == old(failures) + 1
    {
      failures := failures + 1;
      var pos := if skipFirst || parseBuffer[0] != STX then 1 else 0;
      while pos < |parseBuffer| && parseBuffer[pos] != STX
        invariant pos <= |parseBuffer|
        invariant NextStart(parseBuffer, pos) == DropCount(parseBuffer, skipFirst)
      {
        pos := pos + 1;
      }
      log := log + [Dropped(parseBuffer[..pos])];
      parseBuffer := parseBuffer[pos..];
    }

    /** Takes every complete frame off the front: the cursor moves over the chunk and the buffer is cut
        once, at its end. */
    method TakeFrames()
      requires Sensible(parse)
      modifies this`parseBuffer, this`log, this`packets, this`nsh
      ensures log == old(log) + FramesOf(parse, old(parseBuffer))
      ensures parseBuffer == AfterFrames(parse, old(parseBuffer))
      ensures packets == old(packets) + |FramesOf(parse, old(parseBuffer))|
      ensures nsh == old(nsh) + ShellData(FramesOf(parse, old(parseBuffer)))
    {
      hide FramesOf, AfterFrames, ShellData, FromCursor;
      var parsed := 0;
      ghost var whole := Taken(FramesOf(parse, parseBuffer), AfterFrames(parse, parseBuffer));
      CursorStarts(parse, parseBuffer);
      NothingLogged();
      ghost var frames: seq<Segment> := [];
      var result := parse(parseBuffer);
      assert parseBuffer[0..] == parseBuffer;
      while result.Parsed?
        invariant parseBuffer == old(parseBuffer) && 0 <= parsed <= |parseBuffer|
        invariant result == parse(parseBuffer[parsed..])
        invariant log == old(log) + frames && nsh == old(nsh) + ShellData(frames)
        invariant packets == old(packets) + |frames|
        invariant whole == FromCursor(parse, frames, parseBuffer[parsed..])
        decreases |parseBuffer| - parsed
      {
        var frame := Frame(parseBuffer[parsed..parsed + result.consumed], result.message);
        CursorMoves(parse, frames, parseBuffer, parsed);
        ShellDataOfOneMore(frames, frame);
        frames := frames + [frame];
        parsed := parsed + result.consumed;
        packets := packets + 1;
        log := log + [frame];
        nsh := nsh + NshOf(result.message);
        result := parse(parseBuffer[parsed..]);
      }
      CursorStops(parse, frames, parseBuffer[parsed..]);
      if parsed > 0 {
        parseBuffer := parseBuffer[parsed..];
      }
    }

    /** A buffer past its limit is cut to the next start byte, keeping one it already begins with. */
    method RelieveOverflow()
      modifies this`parseBuffer, this`log, this`failures
      ensures log == old(log) + Lead(old(parseBuffer)) && parseBuffer == old(parseBuffer)[LeadCount(old(parseBuffer))..]
      ensures failures == old(failures) + |Lead(old(parseBuffer))|
    {
      if |parseBuffer| > MAX_PARSE_BUFFER_SIZE {
        DrainToNextFrame(false);
      }
    }

    /** Bytes that cannot begin a frame are dropped up to the next start byte. */
    method Resync()
      modifies this`parseBuffer, this`log, this`failures
      ensures log == old(log) + Trail(old(parseBuffer)) && parseBuffer == old(parseBuffer)[TrailCount(old(parseBuffer))..]
      ensures failures == old(failures) + |Trail(old(parseBuffer))|
    {
      if |parseBuffer| >= MIN_FRAME && parseBuffer[0] != STX {
        DrainToNextFrame(true);
      }
    }

    /** One read. */
    method Feed(chunk: seq<Byte>)
      requires Valid()
      modifies this
      ensures Valid() && stream == old(stream) + chunk
      ensures log == old(log) + ReadSegments(parse, old(parseBuffer) + chunk)
      ensures parseBuffer == ReadRemainder(parse, old(parseBuffer) + chunk)
    {
      hide FramesOf, AfterFrames, ShellData, Bytes, Messages, Drops, Settled, NoStartByteDropped,
           Lead, Trail, LeadCount, TrailCount, ReadSegments, ReadRemainder;
      ghost var before, given := log, parseBuffer + chunk;
      ReadKeepsTheLedger(parse, before, given);
      assert Bytes(before) + given == stream + chunk;
      parseBuffer := parseBuffer + chunk;
      RelieveOverflow();
      TakeFrames();
      Resync();
      InThreeParts(parse, before, given);
      stream := stream + chunk;
    }

    lemma ParserIsSensible()
      requires Valid()
      ensures Sensible(parse)
    {
    }

    /** Every read, one after the other. */
    method Run(chunks: seq<seq<Byte>>)
      requires Valid()
      modifies this
      ensures Valid() && stream == old(stream) + Joined(chunks, |chunks|)
      ensures parseBuffer == BufferAfter(parse, old(parseBuffer), chunks, |chunks|)
    {
      hide Valid, Sensible, ReadRemainder, ReadSegments, Joined, BufferAfter;
      ParserIsSensible();
      NothingJoined(parse, parseBuffer, stream, chunks);
      var n := 0;
      while n < |chunks|
        invariant 0 <= n <= |chunks| && Valid() && stream == old(stream) + Joined(chunks, n)
        invariant parseBuffer == BufferAfter(parse, old(parseBuffer), chunks, n)
      {
        OneMoreJoined(parse, old(parseBuffer), old(stream), chunks, n);
        Feed(chunks[n]);
        n := n + 1;
      }
    }
  }

  lemma InThreeParts(parse: Parser, log: seq<Segment>, buffer: seq<Byte>)
    requires Sensible(parse)
    ensures var kept := buffer[LeadCount(buffer)..];
            var rest := AfterFrames(parse, kept);
            && log + ReadSegments(parse, buffer) == log + Lead(buffer) + FramesOf(parse, kept) + Trail(rest)
            && ReadRemainder(parse, buffer) == rest[TrailCount(rest)..]
  {
    hide FramesOf, AfterFrames, Lead, Trail, LeadCount, TrailCount;
  }

  /** Everything a read takes, and what it leaves. */
  datatype Taken = Taken(frames: seq<Segment>, rest: seq<Byte>)

  /** What the cursor has taken and what it has still to find. */
  function FromCursor(parse: Parser, frames: seq<Segment>, buffer: seq<Byte>): Taken
    requires Sensible(parse)
  {
    Taken(frames + FramesOf(parse, buffer), AfterFrames(parse, buffer))
  }

  lemma CursorStarts(parse: Parser, buffer: seq<Byte>)
    requires Sensible(parse)
    ensures FromCursor(parse, [], buffer) == Taken(FramesOf(parse, buffer), AfterFrames(parse, buffer))
  {
  }

  lemma CursorMoves(parse: Parser, frames: seq<Segment>, buffer: seq<Byte>, parsed: nat)
    requires Sensible(parse) && parsed <= |buffer| && parse(buffer[parsed..]).Parsed?
    ensures var p := parse(buffer[parsed..]);
            && parsed + p.consumed <= |buffer|
            && FromCursor(parse, frames, buffer[parsed..]) ==
               FromCursor(parse, frames + [Frame(buffer[parsed..parsed + p.consumed], p.message)], buffer[parsed + p.consumed..])
  {
    var p := parse(buffer[parsed..]);
    assert buffer[parsed..][..p.consumed] == buffer[parsed..parsed + p.consumed];
    assert buffer[parsed..][p.consumed..] == buffer[parsed + p.consumed..];
  }

  lemma CursorStops(parse: Parser, frames: seq<Segment>, rest: seq<Byte>)
    requires Sensible(parse) && parse(rest).Incomplete?
    ensures FromCursor(parse, frames, rest) == Taken(frames, rest)
  {
  }

  // ----- what a read does with its bytes -----

  lemma BytesOfOneMore(log: seq<Segment>, s: Segment)
    ensures Bytes(log + [s]) == Bytes(log) + s.bytes
  {
    assert (log + [s])[..|log|] == log;
  }

  lemma NothingLogged()
    ensures Bytes([]) == [] && Messages([]) == [] && Drops([]) == 0 && ShellData([]) == []
  {
  }

  lemma CountsOfOneMore(log: seq<Segment>, s: Segment)
    ensures Messages(log + [s]) == Messages(log) + Messages([s]) && Drops(log + [s]) == Drops(log) + Drops([s])
  {
    assert (log + [s])[..|log|] == log && [s][..0] == [];
  }

  lemma {:induction false} BytesJoin(a: seq<Segment>, b: seq<Segment>)
    ensures Bytes(a + b) == Bytes(a) + Bytes(b)
    decreases |b|
  {
    hide Bytes;
    if b == [] {
      NothingLogged();
      assert a + b == a;
    } else {
      var before, last := b[..|b| - 1], b[|b| - 1];
      BytesJoin(a, before);
      BytesOfOneMore(a + before, last);
      BytesOfOneMore(before, last);
      assert a + b == (a + before) + [last] && b == before + [last];
    }
  }

  lemma ShellDataOfOneMore(log: seq<Segment>, s: Segment)
    ensures ShellData(log + [s]) == ShellData(log) + match s { case Frame(_, m) => NshOf(m) case Dropped(_) => [] }
  {
    assert (log + [s])[..|log|] == log;
  }

  lemma {:induction false} ShellDataJoin(a: seq<Segment>, b: seq<Segment>)
    ensures ShellData(a + b) == ShellData(a) + ShellData(b)
    decreases |b|
  {
    hide ShellData;
    if b == [] {
      NothingLogged();
      assert a + b == a;
    } else {
      var before, last := b[..|b| - 1], b[|b| - 1];
      ShellDataJoin(a, before);
      ShellDataOfOneMore(a + before, last);
      ShellDataOfOneMore(before, last);
      assert a + b == (a + before) + [last] && b == before + [last];
    }
  }

  lemma {:induction false} CountsJoin(a: seq<Segment>, b: seq<Segment>)
    ensures Messages(a + b) == Messages(a) + Messages(b) && Drops(a + b) == Drops(a) + Drops(b)
    decreases |b|
  {
    hide Messages, Drops;
    if b == [] {
      NothingLogged();
      assert a + b == a;
    } else {
      var before, last := b[..|b| - 1], b[|b| - 1];
      CountsJoin(a, before);
      CountsOfOneMore(a + before, last);
      CountsOfOneMore(before, last);
      assert a + b == (a + before) + [last] && b == before + [last];
    }
  }

  lemma {:induction false} FramesAreFrames(parse: Parser, buffer: seq<Byte>)
    requires Sensible(parse)
    ensures var f := FramesOf(parse, buffer);
            && (forall i :: 0 <= i < |f| ==> f[i].Frame?)
            && |Messages(f)| == |f| && Drops(f) == 0
            && Bytes(f) + AfterFrames(parse, buffer) == buffer
            && parse(AfterFrames(parse, buffer)).Incomplete?
    decreases |buffer|
  {
    if parse(buffer).Parsed? {
      var n := parse(buffer).consumed;
      FramesAreFrames(parse, buffer[n..]);
      var first := [Frame(buffer[..n], parse(buffer).message)];
      BytesJoin(first, FramesOf(parse, buffer[n..]));
      CountsJoin(first, FramesOf(parse, buffer[n..]));
      OneSegment(first[0]);
    }
  }

  lemma OneSegment(s: Segment)
    ensures Bytes([s]) == s.bytes && |Messages([s])| == (if s.Frame? then 1 else 0)
    ensures Drops([s]) == if s.Dropped? then 1 else 0
  {
    assert [s][..0] == [];
  }

  lemma {:induction false} NextStartIsFirst(buffer: seq<Byte>, from: nat)
    requires from <= |buffer|
    ensures var k := NextStart(buffer, from);
            STX !in buffer[from..k] && (k < |buffer| ==> buffer[k] == STX)
    decreases |buffer| - from
  {
    var k := NextStart(buffer, from);
    if from < k {
      NextStartIsFirst(buffer, from + 1);
      assert buffer[from..k] == [buffer[from]] + buffer[from + 1..k];
    }
  }

  /** Whatever is dropped holds no start byte, and what is left begins with one or is empty. */
  lemma DropStopsAtAStart(buffer: seq<Byte>, skipFirst: bool)
    requires buffer != [] && (skipFirst ==> buffer[0] != STX)
    ensures var k := DropCount(buffer, skipFirst);
            STX !in buffer[..k] && (buffer[k..] == [] || buffer[k..][0] == STX)
  {
    var from, k := if skipFirst || buffer[0] != STX then 1 else 0, DropCount(buffer, skipFirst);
    NextStartIsFirst(buffer, from);
    assert buffer[..k] == buffer[..from] + buffer[from..k];
  }

  /** An oversized buffer loses what precedes its first start byte. */
  lemma LeadStopsAtTheFirstStart(buffer: seq<Byte>)
    requires Overflows(buffer)
    ensures var k := LeadCount(buffer);
            STX !in buffer[..k] && (k < |buffer| ==> buffer[k] == STX)
  {
    DropStopsAtAStart(buffer, false);
  }

  /** Of any oversized buffer: the overflow path brings it back to its limit exactly when no start byte
      lies in the excess, the bytes by which it is over. Otherwise a read that completes no frame leaves
      it over. */
  lemma OverflowBoundsTheBufferExactlyWhen(parse: Parser, buffer: seq<Byte>)
    requires Sensible(parse) && Overflows(buffer)
    ensures var kept, excess := buffer[LeadCount(buffer)..], buffer[..|buffer| - MAX_PARSE_BUFFER_SIZE];
            && (!Overflows(kept) <==> STX !in excess)
            && (STX !in excess ==> !Overflows(ReadRemainder(parse, buffer)))
            && (parse(kept).Incomplete? ==> (Overflows(ReadRemainder(parse, buffer)) <==> STX in excess))
  {
    var k := LeadCount(buffer);
    var kept := buffer[k..];
    LeadStopsAtTheFirstStart(buffer);
    if k < |buffer| - MAX_PARSE_BUFFER_SIZE {
      assert buffer[..|buffer| - MAX_PARSE_BUFFER_SIZE][k] == STX;
    } else {
      assert forall b :: b in buffer[..|buffer| - MAX_PARSE_BUFFER_SIZE] ==> b in buffer[..k];
    }
    FramesAreFrames(parse, kept);
    if parse(kept).Incomplete? && kept != [] {
      assert kept[0] == buffer[k];
    }
  }

  // ----- the limit over the reads of a port -----

  /** No read the task makes lets that happen: what earlier reads left begins with a start byte whenever
      it is long enough to overflow, so the overflow path never drops a byte. It counts a failure, and
      the read goes on as if there were no limit. */
  lemma TheLimitDropsNothing(parse: Parser, rest: seq<Byte>, chunk: seq<Byte>)
    requires Sensible(parse) && Settled(rest) && |chunk| <= READ_SIZE
    ensures var b := rest + chunk;
            var left := AfterFrames(parse, b);
            && LeadCount(b) == 0 && |Lead(b)| == (if Overflows(b) then 1 else 0) && Bytes(Lead(b)) == []
            && (Overflows(b) ==> STX in b[..|b| - MAX_PARSE_BUFFER_SIZE])
            && ReadSegments(parse, b) == Lead(b) + FramesOf(parse, b) + Trail(left)
            && ReadRemainder(parse, b) == left[TrailCount(left)..]
  {
    hide FramesOf, AfterFrames, Trail, TrailCount;
    var b := rest + chunk;
    if Overflows(b) {
      assert b[0] == rest[0] == STX && b[..|b| - MAX_PARSE_BUFFER_SIZE][0] == STX;
      OneSegment(Dropped(b[..LeadCount(b)]));
    } else {
      NothingLogged();
    }
    assert b[0..] == b;
  }

  ghost predicate FromThePort(chunks: seq<seq<Byte>>) {
    forall i :: 0 <= i < |chunks| ==> 1 <= |chunks[i]| <= READ_SIZE
  }

  /** Everything the first `n` reads returned. */
  function Joined(chunks: seq<seq<Byte>>, n: nat): seq<Byte>
    requires n <= |chunks|
  {
    if n == 0 then [] else Joined(chunks, n - 1) + chunks[n - 1]
  }

  /** The buffer after the first `n` reads. */
  function BufferAfter(parse: Parser, start: seq<Byte>, chunks: seq<seq<Byte>>, n: nat): seq<Byte>
    requires Sensible(parse) && n <= |chunks|
  {
    if n == 0 then start else ReadRemainder(parse, BufferAfter(parse, start, chunks, n - 1) + chunks[n - 1])
  }

  lemma NothingJoined(parse: Parser, start: seq<Byte>, stream: seq<Byte>, chunks: seq<seq<Byte>>)
    requires Sensible(parse)
    ensures stream + Joined(chunks, 0) == stream && BufferAfter(parse, start, chunks, 0) == start
  {
  }

  lemma OneMoreJoined(parse: Parser, start: seq<Byte>, stream: seq<Byte>, chunks: seq<seq<Byte>>, n: nat)
    requires Sensible(parse) && n < |chunks|
    ensures stream + Joined(chunks, n + 1) == (stream + Joined(chunks, n)) + chunks[n]
    ensures BufferAfter(parse, start, chunks, n + 1) == ReadRemainder(parse, BufferAfter(parse, start, chunks, n) + chunks[n])
  {
  }

  /** None of the reads completes a frame. */
  ghost predicate NoFrames(parse: Parser, start: seq<Byte>, chunks: seq<seq<Byte>>)
    requires Sensible(parse)
  {
    forall i :: 0 <= i < |chunks| ==> CompletesNothing(parse, start, chunks, i)
  }

  predicate CompletesNothing(parse: Parser, start: seq<Byte>, chunks: seq<seq<Byte>>, i: nat)
    requires Sensible(parse) && i < |chunks|
  {
    parse(BufferAfter(parse, start, chunks, i) + chunks[i]).Incomplete?
  }

  /** `buffer` is the end of `stream`, with nothing lost from its first start byte on, and with nothing
      before that byte once it is long enough to hold a frame. */
  ghost predicate HeldFromTheStart(buffer: seq<Byte>, stream: seq<Byte>) {
    && |stream| - NextStart(stream, 0) <= |buffer| <= |stream|
    && buffer == stream[|stream| - |buffer|..]
    && (|buffer| >= MIN_FRAME ==> |buffer| == |stream| - NextStart(stream, 0))
  }

  lemma {:induction false} NextStartIs(buffer: seq<Byte>, from: nat, k: nat)
    requires from <= k <= |buffer| && STX !in buffer[from..k] && (k < |buffer| ==> buffer[k] == STX)
    ensures NextStart(buffer, from) == k
    decreases k - from
  {
    if from < k {
      assert buffer[from..k][0] == buffer[from];
      assert forall b :: b in buffer[from + 1..k] ==> b in buffer[from..k];
      NextStartIs(buffer, from + 1, k);
    }
  }

  /** The first start byte is no nearer the front of a longer stream, and the tail that holds it finds
      it at the same place. */
  lemma TailFindsTheStart(stream: seq<Byte>, tail: seq<Byte>)
    requires |stream| - NextStart(stream, 0) <= |tail| <= |stream| && tail == stream[|stream| - |tail|..]
    ensures NextStart(stream, 0) == |stream| - |tail| + NextStart(tail, 0)
  {
    var k, cut := NextStart(stream, 0), |stream| - |tail|;
    NextStartIsFirst(stream, 0);
    assert tail[..k - cut] == stream[cut..k];
    assert forall b :: b in stream[cut..k] ==> b in stream[0..k];
    NextStartIs(tail, 0, k - cut);
  }

  lemma LongerStream(stream: seq<Byte>, chunk: seq<Byte>)
    ensures NextStart(stream, 0) <= NextStart(stream + chunk, 0)
    ensures NextStart(stream, 0) < |stream| ==> NextStart(stream + chunk, 0) == NextStart(stream, 0)
  {
    var k, all := NextStart(stream, 0), stream + chunk;
    NextStartIsFirst(stream, 0);
    NextStartIsFirst(all, 0);
    assert all[0..k] == stream[0..k];
    if k < |stream| {
      NextStartIs(all, 0, k);
    }
  }

  /** A read that completes no frame keeps what it finds from the first start byte on, or all of it
      while that is too short to judge. */
  lemma QuietRead(parse: Parser, buffer: seq<Byte>, chunk: seq<Byte>)
    requires Sensible(parse) && Settled(buffer) && |chunk| <= READ_SIZE && parse(buffer + chunk).Incomplete?
    ensures var t := buffer + chunk;
            ReadRemainder(parse, t) == if |t| < MIN_FRAME then t else t[NextStart(t, 0)..]
  {
    hide Bytes, Settled, ReadSegments, Lead, Trail;
    var t := buffer + chunk;
    TheLimitDropsNothing(parse, buffer, chunk);
    assert t[0..] == t;
  }

  lemma TailGrows(buffer: seq<Byte>, stream: seq<Byte>, chunk: seq<Byte>)
    requires HeldFromTheStart(buffer, stream)
    ensures var t, s := buffer + chunk, stream + chunk;
            && |s| - NextStart(s, 0) <= |t| <= |s| && t == s[|s| - |t|..]
            && NextStart(s, 0) == |s| - |t| + NextStart(t, 0)
  {
    var t, s := buffer + chunk, stream + chunk;
    LongerStream(stream, chunk);
    assert t == s[|s| - |t|..];
    TailFindsTheStart(s, t);
  }

  lemma HoldsOnAfterARead(parse: Parser, buffer: seq<Byte>, stream: seq<Byte>, chunk: seq<Byte>)
    requires Sensible(parse) && Settled(buffer) && |chunk| <= READ_SIZE && parse(buffer + chunk).Incomplete?
    requires HeldFromTheStart(buffer, stream)
    ensures HeldFromTheStart(ReadRemainder(parse, buffer + chunk), stream + chunk)
  {
    hide ReadRemainder, NextStart, Settled, Sensible;
    QuietRead(parse, buffer, chunk);
    TailGrows(buffer, stream, chunk);
    var t, s := buffer + chunk, stream + chunk;
    if |t| >= MIN_FRAME {
      assert t[NextStart(t, 0)..] == s[NextStart(s, 0)..];
    }
  }

  lemma {:induction false} BufferIsSettled(parse: Parser, start: seq<Byte>, chunks: seq<seq<Byte>>, n: nat)
    requires Sensible(parse) && Settled(start) && n <= |chunks|
    ensures Settled(BufferAfter(parse, start, chunks, n))
  {
    hide ReadRemainder, Bytes, Messages, Drops, ShellData, FramesOf, AfterFrames;
    if n > 0 {
      ReadAccountsForEveryByte(parse, BufferAfter(parse, start, chunks, n - 1) + chunks[n - 1]);
    }
  }

  /** From any point of a reader's life, while no frame completes the buffer is what came from the first
      start byte on. */
  lemma {:induction false} QuietBufferIsTheStream(parse: Parser, start: seq<Byte>, chunks: seq<seq<Byte>>, n: nat)
    requires Sensible(parse) && Settled(start) && FromThePort(chunks) && n <= |chunks| && NoFrames(parse, start, chunks)
    ensures HeldFromTheStart(BufferAfter(parse, start, chunks, n), start + Joined(chunks, n))
  {
    hide ReadRemainder, Settled, HeldFromTheStart;
    if n > 0 {
      QuietBufferIsTheStream(parse, start, chunks, n - 1);
      BufferIsSettled(parse, start, chunks, n - 1);
      assert CompletesNothing(parse, start, chunks, n - 1);
      HoldsOnAfterARead(parse, BufferAfter(parse, start, chunks, n - 1), start + Joined(chunks, n - 1), chunks[n - 1]);
      assert start + Joined(chunks, n) == (start + Joined(chunks, n - 1)) + chunks[n - 1];
    } else {
      StartsHeld(start);
      assert start + Joined(chunks, 0) == start;
    }
  }

  lemma StartsHeld(start: seq<Byte>)
    requires Settled(start)
    ensures HeldFromTheStart(start, start)
  {
  }

  /** While no frame completes, the buffer is within its limit exactly when no more than the limit has
      come since the first start byte: the limit itself changes nothing. A stream that begins with one
      is kept whole, however long. */
  lemma QuietBufferIsWithinTheLimitExactlyWhen(parse: Parser, start: seq<Byte>, chunks: seq<seq<Byte>>, n: nat)
    requires Sensible(parse) && Settled(start) && FromThePort(chunks) && n <= |chunks| && NoFrames(parse, start, chunks)
    ensures var s, b := start + Joined(chunks, n), BufferAfter(parse, start, chunks, n);
            && (!Overflows(b) <==> |s| - NextStart(s, 0) <= MAX_PARSE_BUFFER_SIZE)
            && (s != [] && s[0] == STX ==> b == s)
  {
    hide Joined, BufferAfter, NoFrames;
    QuietBufferIsTheStream(parse, start, chunks, n);
  }

  /** A start byte and nothing but zeros after it, in full reads. */
  function StuckFrame(count: nat): (chunks: seq<seq<Byte>>)
    ensures |chunks| == count && FromThePort(chunks) && forall i :: 0 <= i < count ==> |chunks[i]| == READ_SIZE
    ensures count > 0 ==> chunks[0][0] == STX
  {
    seq(count, i => if i == 0 then [STX] + seq(READ_SIZE - 1, _ => 0) else seq(READ_SIZE, _ => 0))
  }

  lemma {:induction false} JoinedSize(chunks: seq<seq<Byte>>, n: nat, size: nat)
    requires n <= |chunks| && forall i :: 0 <= i < |chunks| ==> |chunks[i]| == size
    ensures |Joined(chunks, n)| == n * size
    ensures n > 0 && size > 0 ==> Joined(chunks, n)[0] == chunks[0][0]
  {
    if n > 0 {
      JoinedSize(chunks, n - 1, size);
    }
  }

  /** The limit failing from a fresh reader: a frame that never completes is over it after the ninth
      read, and after every later one holds all that was read. */
  lemma TheLimitCanFail(count: nat)
    requires count >= 9
    ensures var parse, chunks := (_: seq<Byte>) => Incomplete, StuckFrame(count);
            var b := BufferAfter(parse, [], chunks, count);
            FromThePort(chunks) && b == Joined(chunks, count) && |b| == count * READ_SIZE && Overflows(b)
  {
    var parse, chunks := (_: seq<Byte>) => Incomplete, StuckFrame(count);
    JoinedSize(chunks, count, READ_SIZE);
    assert [] + Joined(chunks, count) == Joined(chunks, count);
    QuietBufferIsWithinTheLimitExactlyWhen(parse, [], chunks, count);
  }

  lemma OneDrop(buffer: seq<Byte>, k: nat)
    requires k <= |buffer|
    ensures var s := [Dropped(buffer[..k])];
            Bytes(s) + buffer[k..] == buffer && Messages(s) == [] && Drops(s) == 1 && ShellData(s) == []
  {
    OneSegment(Dropped(buffer[..k]));
  }

  lemma LeadIsADrop(buffer: seq<Byte>)
    ensures Bytes(Lead(buffer)) + buffer[LeadCount(buffer)..] == buffer
    ensures NoStartByteDropped(Lead(buffer)) && Messages(Lead(buffer)) == [] && Drops(Lead(buffer)) == |Lead(buffer)|
    ensures ShellData(Lead(buffer)) == []
  {
    hide Bytes, Messages, Drops, ShellData, DropCount;
    NothingLogged();
    if Overflows(buffer) {
      DropStopsAtAStart(buffer, false);
      OneDrop(buffer, LeadCount(buffer));
    }
  }

  lemma TrailIsADrop(rest: seq<Byte>)
    ensures Bytes(Trail(rest)) + rest[TrailCount(rest)..] == rest && Settled(rest[TrailCount(rest)..])
    ensures NoStartByteDropped(Trail(rest)) && Messages(Trail(rest)) == [] && Drops(Trail(rest)) == |Trail(rest)|
    ensures ShellData(Trail(rest)) == []
  {
    hide Bytes, Messages, Drops, ShellData, DropCount;
    NothingLogged();
    if OutOfStep(rest) {
      DropStopsAtAStart(rest, true);
      OneDrop(rest, TrailCount(rest));
    }
  }

  /** Every byte of the old remainder and the chunk ends up, in order, in a frame, in a dropped stretch
      without a start byte, or in a remainder too short to judge or beginning with one; each packet
      counted is one frame and each failure one drop. */
  lemma ReadAccountsForEveryByte(parse: Parser, buffer: seq<Byte>)
    requires Sensible(parse)
    ensures var s, kept := ReadSegments(parse, buffer), buffer[LeadCount(buffer)..];
            && Bytes(s) + ReadRemainder(parse, buffer) == buffer
            && NoStartByteDropped(s) && Settled(ReadRemainder(parse, buffer))
            && |Messages(s)| == |FramesOf(parse, kept)|
            && Drops(s) == |Lead(buffer)| + |Trail(AfterFrames(parse, kept))|
            && ShellData(s) == ShellData(FramesOf(parse, kept))
  {
    hide Bytes, Messages, Drops, ShellData, Lead, Trail, LeadCount, TrailCount, FramesOf, AfterFrames;
    var kept := buffer[LeadCount(buffer)..];
    var frames, rest := FramesOf(parse, kept), AfterFrames(parse, kept);
    LeadIsADrop(buffer);
    TrailIsADrop(rest);
    FramesAreFrames(parse, kept);
    BytesJoin(Lead(buffer), frames);
    BytesJoin(Lead(buffer) + frames, Trail(rest));
    CountsJoin(Lead(buffer), frames);
    CountsJoin(Lead(buffer) + frames, Trail(rest));
    ShellDataJoin(Lead(buffer), frames);
    ShellDataJoin(Lead(buffer) + frames, Trail(rest));
  }

  lemma ReadKeepsTheLedger(parse: Parser, log: seq<Segment>, buffer: seq<Byte>)
    requires Sensible(parse) && NoStartByteDropped(log)
    ensures var s, kept := ReadSegments(parse, buffer), buffer[LeadCount(buffer)..];
            && Bytes(log + s) + ReadRemainder(parse, buffer) == Bytes(log) + buffer
            && NoStartByteDropped(log + s) && Settled(ReadRemainder(parse, buffer))
            && |Messages(log + s)| == |Messages(log)| + |FramesOf(parse, kept)|
            && Drops(log + s) == Drops(log) + |Lead(buffer)| + |Trail(AfterFrames(parse, kept))|
            && ShellData(log + s) == ShellData(log) + ShellData(FramesOf(parse, kept))
  {
    hide Bytes, Messages, Drops, ShellData, Lead, Trail, LeadCount, TrailCount, FramesOf, AfterFrames, ReadSegments;
    ReadAccountsForEveryByte(parse, buffer);
    BytesJoin(log, ReadSegments(parse, buffer));
    CountsJoin(log, ReadSegments(parse, buffer));
    ShellDataJoin(log, ReadSegments(parse, buffer));
  }
}

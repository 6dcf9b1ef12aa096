/** The serial probe's bounded window against a search of everything it has read. */
module HeartbeatProbe {
  import opened Uint

  const V1_MAGIC: Byte := 0xFE
  const V2_MAGIC: Byte := 0xFD
  const CHUNK: nat := 256
  const WINDOW_LIMIT: nat := 4096
  const WINDOW_KEPT: nat := 512

  /** A MAVLink 1 header has the message id at byte 5, a MAVLink 2 header at bytes 7 to 9. */
  predicate HeartbeatAt(bytes: seq<Byte>, i: nat) {
    && i < |bytes|
    && (|| (bytes[i] == V1_MAGIC && i + 5 < |bytes| && bytes[i + 5] == 0)
        || (bytes[i] == V2_MAGIC && i + 9 < |bytes| && bytes[i + 7] == bytes[i + 8] == bytes[i + 9] == 0))
  }

  ghost predicate HasHeartbeat(bytes: seq<Byte>) { exists i: nat :: HeartbeatAt(bytes, i) }

  /** The headers of a heartbeat, message id zero: MAVLink 1 with one id byte, MAVLink 2 with three. */
  datatype Header =
    | V1(length: Byte, sequence: Byte, system: Byte, component: Byte)
    | V2(length: Byte, incompatible: Byte, compatible: Byte, sequence: Byte, system: Byte, component: Byte)
  {
    function Encoded(): seq<Byte> {
      match this
      case V1(length, sequence, system, component) => [0xFE, length, sequence, system, component, 0]
      case V2(length, incompatible, compatible, sequence, system, component) =>
        [0xFD, length, incompatible, compatible, sequence, system, component, 0, 0, 0]
    }
  }

  /** The header lies in the bytes from `i` on. */
  predicate HeaderAt(bytes: seq<Byte>, i: nat, h: Header) { i <= |bytes| && h.Encoded() <= bytes[i..] }

  /** What the search looks for is exactly the encoding of some heartbeat header. */
  lemma HeartbeatIsAHeader(bytes: seq<Byte>)
    ensures HasHeartbeat(bytes) <==> exists i: nat, h :: HeaderAt(bytes, i, h)
  {
    if i: nat :| HeartbeatAt(bytes, i) {
      var h := if bytes[i] == V1_MAGIC then V1(bytes[i + 1], bytes[i + 2], bytes[i + 3], bytes[i + 4])
               else V2(bytes[i + 1], bytes[i + 2], bytes[i + 3], bytes[i + 4], bytes[i + 5], bytes[i + 6]);
      assert bytes[i..][..|h.Encoded()|] == h.Encoded();
      assert HeaderAt(bytes, i, h);
    }
    if i: nat, h :| HeaderAt(bytes, i, h) {
      assert forall k :: 0 <= k < |h.Encoded()| ==> bytes[i + k] == bytes[i..][k] == h.Encoded()[k];
      assert bytes[i + 0] == h.Encoded()[0] && bytes[i + 5] == h.Encoded()[5];
      if h.V2? {
        assert bytes[i + 7] == h.Encoded()[7] && bytes[i + 8] == h.Encoded()[8] && bytes[i + 9] == h.Encoded()[9];
      }
      assert HeartbeatAt(bytes, i);
    }
  }

  method ContainsHeartbeat(bytes: seq<Byte>) returns (found: bool)
    ensures found <==> HasHeartbeat(bytes)
  {
    var i := 0;
    while i < |bytes|
      invariant 0 <= i <= |bytes|
      invariant forall k: nat :: k < i ==> !HeartbeatAt(bytes, k)
    {
      if bytes[i] == V1_MAGIC && |bytes| > i + 5 {
        if bytes[i + 5] == 0 {
          assert HeartbeatAt(bytes, i);
          return true;
        }
      } else if bytes[i] == V2_MAGIC && |bytes| > i + 9 {
        if bytes[i + 7] == 0 && bytes[i + 8] == 0 && bytes[i + 9] == 0 {
          assert HeartbeatAt(bytes, i);
          return true;
        }
      }
      i := i + 1;
    }
    return false;
  }

  /** What a read that starts before the deadline comes back with. */
  datatype Read = Nothing | Data(bytes: seq<Byte>) | TimedOut | Failed

  ghost predicate FromThePort(input: seq<Read>) {
    forall i :: 0 <= i < |input| && input[i].Data? ==> 1 <= |input[i].bytes| <= CHUNK
  }

  function BytesOf(r: Read): seq<Byte> { if r.Data? then r.bytes else [] }

  /** Everything the first `n` reads returned. */
  function Stream(input: seq<Read>, n: nat): seq<Byte>
    requires n <= |input|
  {
    if n == 0 then [] else Stream(input, n - 1) + BytesOf(input[n - 1])
  }

  /** Cuts a window past the limit down to its tail. */
  function Trimmed(window: seq<Byte>): (w: seq<Byte>)
    ensures |w| <= WINDOW_LIMIT
  {
    if |window| > WINDOW_LIMIT then window[|window| - WINDOW_KEPT..] else window
  }

  function WindowAt(input: seq<Read>, n: nat): (w: seq<Byte>)
    requires n <= |input|
    ensures |w| <= WINDOW_LIMIT
  {
    if n == 0 then [] else Trimmed(WindowAt(input, n - 1) + BytesOf(input[n - 1]))
  }

  /** `window` is the end of `stream`, all of it or at least the kept length. */
  ghost predicate TailOf(window: seq<Byte>, stream: seq<Byte>) {
    && |window| <= |stream| && stream[|stream| - |window|..] == window
    && (|window| == |stream| || |window| >= WINDOW_KEPT)
  }

  lemma TailExtends(window: seq<Byte>, stream: seq<Byte>, chunk: seq<Byte>)
    requires TailOf(window, stream)
    ensures TailOf(window + chunk, stream + chunk)
  {
    assert (stream + chunk)[|stream| - |window|..] == window + chunk;
  }

  lemma TailTrims(window: seq<Byte>, stream: seq<Byte>)
    requires TailOf(window, stream)
    ensures TailOf(Trimmed(window), stream)
  {
    var from := |stream| - |window|;
    if |window| > WINDOW_LIMIT {
      assert stream[from..][|window| - WINDOW_KEPT..] == stream[|stream| - WINDOW_KEPT..];
    }
  }

  lemma {:induction false} WindowIsATail(input: seq<Read>, n: nat)
    requires n <= |input|
    ensures TailOf(WindowAt(input, n), Stream(input, n))
  {
    hide TailOf, Trimmed;
    if n > 0 {
      WindowIsATail(input, n - 1);
      TailExtends(WindowAt(input, n - 1), Stream(input, n - 1), BytesOf(input[n - 1]));
      TailTrims(WindowAt(input, n - 1) + BytesOf(input[n - 1]), Stream(input, n));
    } else {
      EmptyTail();
    }
  }

  lemma EmptyTail()
    ensures TailOf([], [])
  {
  }

  lemma HeartbeatShifts(bytes: seq<Byte>, from: nat, i: nat)
    requires from <= |bytes|
    ensures HeartbeatAt(bytes[from..], i) <==> HeartbeatAt(bytes, from + i)
  {
  }

  /** A header completed by the new chunk began within the nine bytes before it. */
  lemma WindowSeesWhatTheStreamShows(window: seq<Byte>, stream: seq<Byte>, chunk: seq<Byte>)
    requires TailOf(window, stream) && !HasHeartbeat(stream)
    ensures HasHeartbeat(window + chunk) <==> HasHeartbeat(stream + chunk)
  {
    var from := |stream| - |window|;
    assert (stream + chunk)[from..] == window + chunk;
    if i: nat :| HeartbeatAt(window + chunk, i) {
      HeartbeatShifts(stream + chunk, from, i);
      assert HeartbeatAt(stream + chunk, from + i);
    }
    if i: nat :| HeartbeatAt(stream + chunk, i) {
      if i < from {
        assert HeartbeatAt(stream, i);
      } else {
        HeartbeatShifts(stream + chunk, from, i - from);
        assert HeartbeatAt(window + chunk, i - from);
      }
    }
  }

  /** The read at which a search of everything read so far would first succeed. */
  ghost predicate FirstHeard(input: seq<Read>, k: nat) {
    && k < |input| && HasHeartbeat(Stream(input, k + 1))
    && (forall j :: 0 <= j <= k ==> !HasHeartbeat(Stream(input, j)))
    && (forall j :: 0 <= j <= k ==> input[j] != Failed)
  }

  lemma NoHeartbeatYet()
    ensures !HasHeartbeat([])
  {
  }

  lemma NothingRead(input: seq<Read>)
    ensures Stream(input, 0) == WindowAt(input, 0) == []
  {
  }

  lemma AddsNothing(window: seq<Byte>, stream: seq<Byte>)
    ensures window + [] == window && stream + [] == stream
  {
  }

  lemma OneMoreRead(input: seq<Read>, n: nat)
    requires n < |input|
    ensures Stream(input, n + 1) == Stream(input, n) + BytesOf(input[n])
    ensures WindowAt(input, n + 1) == Trimmed(WindowAt(input, n) + BytesOf(input[n]))
  {
  }

  /** Scans the reads that start before the deadline. `used` counts those consumed. */
  method ScanForHeartbeat(input: seq<Read>) returns (found: bool, used: nat)
    requires FromThePort(input)
    ensures used <= |input|
    ensures found <==> exists k: nat :: FirstHeard(input, k)
    ensures found ==> used >= 1 && FirstHeard(input, used - 1)
    ensures !found ==> used == |input| || input[used] == Failed
    ensures forall n :: 0 <= n < |input| ==> |WindowAt(input, n)| + |BytesOf(input[n])| <= WINDOW_LIMIT + CHUNK
  {
    hide HeartbeatAt, HasHeartbeat, TailOf, Stream, WindowAt;
    NoHeartbeatYet();
    NothingRead(input);
    var window: seq<Byte> := [];
    used := 0;
    while used < |input|
      invariant 0 <= used <= |input| && window == WindowAt(input, used)
      invariant forall j :: 0 <= j <= used ==> !HasHeartbeat(Stream(input, j))
      invariant forall j :: 0 <= j < used ==> input[j] != Failed
    {
      OneMoreRead(input, used);
      match input[used] {
        case Nothing =>
          AddsNothing(window, Stream(input, used));
        case TimedOut =>
          AddsNothing(window, Stream(input, used));
        case Failed =>
          return false, used;
        case Data(bytes) =>
          ghost var before := window;
          WindowIsATail(input, used);
          window := window + bytes;
          assert |window| <= WINDOW_LIMIT + CHUNK;
          WindowSeesWhatTheStreamShows(before, Stream(input, used), bytes);
          var heard := ContainsHeartbeat(window);
          if heard {
            assert FirstHeard(input, used);
            return true, used + 1;
          }
          if |window| > WINDOW_LIMIT {
            window := window[|window| - WINDOW_KEPT..];
          }
      }
      used := used + 1;
    }
    found := false;
  }
}

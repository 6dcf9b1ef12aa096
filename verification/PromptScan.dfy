/** Finding the shell prompt in a response: the tail scan the task does on every chunk, and the
    search of the whole response it stands for. */
module PromptScan {
  import opened Uint

  /** `nsh>` */
  const BARE: seq<Byte> := [110, 115, 104, 62]
  /** `nsh> ` and the escape sequence that clears the rest of the line. */
  const WITH_CLEAR: seq<Byte> := [110, 115, 104, 62, 32, 27, 91, 75]
  const PROMPT_MAX: nat := 8

  /** Space, tab, newline, form feed and carriage return. */
  predicate IsSpace(b: Byte) { b == 32 || b == 9 || b == 10 || b == 12 || b == 13 }

  predicate MatchesAt(text: seq<Byte>, pattern: seq<Byte>, i: nat) {
    i + |pattern| <= |text| && text[i..i + |pattern|] == pattern
  }

  predicate Contains(text: seq<Byte>, pattern: seq<Byte>) {
    exists i :: 0 <= i <= |text| && MatchesAt(text, pattern, i)
  }

  /** One past the last byte that is not white space. */
  function TrimmedLength(text: seq<Byte>): (n: nat)
    ensures n <= |text|
  {
    if text == [] then 0
    else if IsSpace(text[|text| - 1]) then TrimmedLength(text[..|text| - 1])
    else |text|
  }

  predicate EndsWith(text: seq<Byte>, pattern: seq<Byte>) {
    |text| >= |pattern| && text[|text| - |pattern|..] == pattern
  }

  /** The prompt test, on whatever bytes it is given. */
  predicate HasPrompt(text: seq<Byte>) {
    Contains(text, WITH_CLEAR) || EndsWith(text[..TrimmedLength(text)], BARE)
  }

  /** Where the tail scan starts: one prompt back from the old end. */
  function ScanFrom(length: nat): (n: nat)
    ensures n <= length
  {
    if length >= PROMPT_MAX then length - PROMPT_MAX else 0
  }

  predicate TailHasPrompt(before: seq<Byte>, chunk: seq<Byte>) {
    HasPrompt((before + chunk)[ScanFrom(|before|)..])
  }

  lemma MatchShifts(text: seq<Byte>, pattern: seq<Byte>, from: nat, i: nat)
    requires from <= |text|
    ensures MatchesAt(text[from..], pattern, i) <==> MatchesAt(text, pattern, from + i)
  {
    if i + |pattern| <= |text| - from {
      assert text[from..][i..i + |pattern|] == text[from + i..from + i + |pattern|];
    }
  }

  lemma {:induction false} TrimmedLengthIs(text: seq<Byte>)
    ensures var n := TrimmedLength(text);
            && (n > 0 ==> !IsSpace(text[n - 1]))
            && forall k :: n <= k < |text| ==> IsSpace(text[k])
  {
    if text != [] {
      TrimmedLengthIs(text[..|text| - 1]);
    }
  }

  lemma TrimmedLengthUnique(text: seq<Byte>, n: nat)
    requires n <= |text| && (n > 0 ==> !IsSpace(text[n - 1])) && forall k :: n <= k < |text| ==> IsSpace(text[k])
    ensures TrimmedLength(text) == n
  {
    TrimmedLengthIs(text);
  }

  /** The bare prompt ends the text but for white space, after the given number of bytes. */
  predicate BareEndsAt(text: seq<Byte>, n: int) {
    && 4 <= n <= |text| && text[n - 4..n] == BARE
    && forall k :: n <= k < |text| ==> IsSpace(text[k])
  }

  lemma BareEndsWhereTrimmed(text: seq<Byte>)
    ensures EndsWith(text[..TrimmedLength(text)], BARE) <==> exists n :: BareEndsAt(text, n)
  {
    TrimmedLengthIs(text);
    var m := TrimmedLength(text);
    if EndsWith(text[..m], BARE) {
      assert text[..m][m - 4..] == text[m - 4..m];
      assert BareEndsAt(text, m);
    }
    if n :| BareEndsAt(text, n) {
      assert text[n - 1] == text[n - 4..n][3] == 62;
      TrimmedLengthUnique(text, n);
      assert text[..m][m - 4..] == text[m - 4..m];
    }
  }

  /** What a prompt is, byte by byte: `nsh> ` and ESC `[K` anywhere, or `nsh>` with nothing but ASCII white
      space after it. */
  lemma PromptIs(text: seq<Byte>)
    ensures HasPrompt(text) <==>
              || (exists i {:trigger text[i..]} :: 0 <= i <= |text| && [110, 115, 104, 62, 32, 27, 91, 75] <= text[i..])
              || (exists n {:trigger text[..n]} :: 4 <= n <= |text| && text[..n][n - 4..] == [110, 115, 104, 62]
                                                    && forall k :: n <= k < |text| ==> text[k] in {9, 10, 12, 13, 32})
  {
    BareEndsWhereTrimmed(text);
    if Contains(text, WITH_CLEAR) {
      var i :| 0 <= i <= |text| && MatchesAt(text, WITH_CLEAR, i);
      assert text[i..][..8] == text[i..i + 8];
    }
    if i :| 0 <= i <= |text| && WITH_CLEAR <= text[i..] {
      assert text[i..i + 8] == text[i..][..8];
      assert MatchesAt(text, WITH_CLEAR, i);
    }
    if n :| BareEndsAt(text, n) {
      assert text[..n][n - 4..] == text[n - 4..n];
    }
    if n :| 4 <= n <= |text| && text[..n][n - 4..] == BARE && forall k :: n <= k < |text| ==> IsSpace(text[k]) {
      assert text[n - 4..n] == text[..n][n - 4..];
      assert BareEndsAt(text, n);
    }
  }

  /** A prompt in the tail is a prompt in the whole. */
  lemma TailFindsOnlyPrompts(text: seq<Byte>, from: nat)
    requires from <= |text| && HasPrompt(text[from..])
    ensures HasPrompt(text)
  {
    var tail := text[from..];
    BareEndsWhereTrimmed(tail);
    BareEndsWhereTrimmed(text);
    if i :| 0 <= i <= |tail| && MatchesAt(tail, WITH_CLEAR, i) {
      MatchShifts(text, WITH_CLEAR, from, i);
    } else {
      var n :| BareEndsAt(tail, n);
      assert text[from + n - 4..from + n] == tail[n - 4..n];
      forall k | from + n <= k < |text| ensures IsSpace(text[k]) {
        assert text[k] == tail[k - from];
      }
      assert BareEndsAt(text, from + n);
    }
  }

  /** A clear-prompt the old text did not hold ends inside the chunk, so it starts inside the tail. */
  lemma NewClearPromptIsInTheTail(before: seq<Byte>, chunk: seq<Byte>)
    requires !Contains(before, WITH_CLEAR) && Contains(before + chunk, WITH_CLEAR)
    ensures Contains((before + chunk)[ScanFrom(|before|)..], WITH_CLEAR)
  {
    var text, from := before + chunk, ScanFrom(|before|);
    var i :| 0 <= i <= |text| && MatchesAt(text, WITH_CLEAR, i);
    if i + 8 <= |before| {
      assert before[i..i + 8] == text[i..i + 8];
      assert MatchesAt(before, WITH_CLEAR, i);
    }
    MatchShifts(text, WITH_CLEAR, from, i - from);
  }

  /** A bare prompt that newly ends the text has its last byte in the chunk. */
  lemma NewBarePromptIsInTheTail(before: seq<Byte>, chunk: seq<Byte>, n: int)
    requires (forall m :: !BareEndsAt(before, m)) && BareEndsAt(before + chunk, n)
    ensures exists m :: BareEndsAt((before + chunk)[ScanFrom(|before|)..], m)
  {
    var text, from := before + chunk, ScanFrom(|before|);
    if n <= |before| {
      assert before[n - 4..n] == text[n - 4..n];
      forall k | n <= k < |before| ensures IsSpace(before[k]) {
        assert before[k] == text[k];
      }
      assert BareEndsAt(before, n);
    }
    var tail, m := text[from..], n - from;
    assert tail[m - 4..m] == text[n - 4..n];
    forall k | m <= k < |tail| ensures IsSpace(tail[k]) {
      assert tail[k] == text[from + k];
    }
    assert BareEndsAt(tail, m);
  }

  /** While the response so far holds no prompt, the tail scan and the search of the whole response
      answer alike for every next chunk. */
  lemma TailScanIsWholeScan(before: seq<Byte>, chunk: seq<Byte>)
    requires !HasPrompt(before)
    ensures TailHasPrompt(before, chunk) <==> HasPrompt(before + chunk)
  {
    var text, from := before + chunk, ScanFrom(|before|);
    if TailHasPrompt(before, chunk) {
      TailFindsOnlyPrompts(text, from);
    }
    if HasPrompt(text) {
      BareEndsWhereTrimmed(before);
      BareEndsWhereTrimmed(text);
      BareEndsWhereTrimmed(text[from..]);
      if Contains(text, WITH_CLEAR) {
        NewClearPromptIsInTheTail(before, chunk);
      } else {
        var n :| BareEndsAt(text, n);
        NewBarePromptIsInTheTail(before, chunk, n);
      }
    }
  }

  function Joined(chunks: seq<seq<Byte>>, n: nat): seq<Byte>
    requires n <= |chunks|
  {
    if n == 0 then [] else Joined(chunks, n - 1) + chunks[n - 1]
  }

  /** The tail scan fires on chunk `j`. */
  predicate TailFires(chunks: seq<seq<Byte>>, j: nat)
    requires j < |chunks|
  {
    TailHasPrompt(Joined(chunks, j), chunks[j])
  }

  /** Searching everything received fires on chunk `j`. */
  predicate WholeFires(chunks: seq<seq<Byte>>, j: nat)
    requires j < |chunks|
  {
    HasPrompt(Joined(chunks, j + 1))
  }

  ghost predicate TailFiresFirstAt(chunks: seq<seq<Byte>>, k: nat) {
    k < |chunks| && TailFires(chunks, k) && forall j :: 0 <= j < k ==> !TailFires(chunks, j)
  }

  ghost predicate WholeFiresFirstAt(chunks: seq<seq<Byte>>, k: nat) {
    k < |chunks| && WholeFires(chunks, k) && forall j :: 0 <= j < k ==> !WholeFires(chunks, j)
  }

  lemma NoPromptInNothing()
    ensures !HasPrompt([])
  {
  }

  /** One chunk, after a response without a prompt. */
  lemma ChunkFiresTogether(chunks: seq<seq<Byte>>, j: nat)
    requires j < |chunks| && (j > 0 ==> !WholeFires(chunks, j - 1))
    ensures TailFires(chunks, j) <==> WholeFires(chunks, j)
  {
    hide HasPrompt, TailHasPrompt;
    if j == 0 {
      NoPromptInNothing();
    }
    TailScanIsWholeScan(Joined(chunks, j), chunks[j]);
  }

  lemma {:induction false} QuietTogether(chunks: seq<seq<Byte>>, n: nat)
    requires n <= |chunks|
    requires (forall j :: 0 <= j < n ==> !TailFires(chunks, j)) || (forall j :: 0 <= j < n ==> !WholeFires(chunks, j))
    ensures forall j :: 0 <= j < n ==> !TailFires(chunks, j) && !WholeFires(chunks, j)
  {
    hide TailFires, WholeFires;
    if n > 0 {
      QuietTogether(chunks, n - 1);
      ChunkFiresTogether(chunks, n - 1);
    }
  }

  /** From an empty buffer and for every split of the bytes into chunks, the eight-byte overlap fires
      first on exactly the chunk where searching everything would. */
  lemma TailScanFiresWithTheWholeScan(chunks: seq<seq<Byte>>, k: nat)
    ensures TailFiresFirstAt(chunks, k) <==> WholeFiresFirstAt(chunks, k)
  {
    hide TailFires, WholeFires;
    if TailFiresFirstAt(chunks, k) || WholeFiresFirstAt(chunks, k) {
      QuietTogether(chunks, k);
      ChunkFiresTogether(chunks, k);
    }
  }
}

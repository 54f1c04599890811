/**
  The response framer `get_response` of at.c. The modem stream is the sequence
  of chunks successive `fgets` calls return; running out of chunks is end of
  stream (`fgets` returning NULL). Each chunk is appended to a 4096-byte buffer
  with `strcat` until a chunk the classifier calls final has been appended; the
  buffer, carriage returns removed, is the response.
 */
module ResponseFramer {
  import opened Wrappers
  import opened CStrings
  import opened ResultClassifier
  import opened CarriageReturn

  /** Size of the accumulation buffer, terminating NUL included. */
  const MaxBufSize: nat := 4096

  /** What `strcat` appends for each chunk, in order: the text before its first NUL. */
  function Joined(chunks: seq<string>): (r: string)
    ensures NUL !in r
  {
    if |chunks| == 0 then [] else CView(chunks[0]) + Joined(chunks[1..])
  }

  /** Joining two runs of chunks is joining each and concatenating. */
  lemma {:induction false} JoinedAppend(a: seq<string>, b: seq<string>)
    ensures Joined(a + b) == Joined(a) + Joined(b)
  {
    if |a| == 0 {
      assert a + b == b;
    } else {
      assert (a + b)[1..] == a[1..] + b;
      JoinedAppend(a[1..], b);
    }
  }

  /** The first chunk the classifier calls final is the one at `k`. */
  predicate FirstFinalAt(chunks: seq<string>, k: int)
  {
    0 <= k < |chunks| && IsFinalResult(chunks[k]) && forall i :: 0 <= i < k ==> !IsFinalResult(chunks[i])
  }

  /**
    How many chunks `get_response` takes from the stream: up to and including the
    first final one, or all of them when none is final.
   */
  function ChunksRead(chunks: seq<string>): (n: nat)
    ensures n <= |chunks|
    ensures FirstFinalAt(chunks, n - 1) || (n == |chunks| && forall i :: 0 <= i < |chunks| ==> !IsFinalResult(chunks[i]))
  {
    if |chunks| == 0 then 0
    else if IsFinalResult(chunks[0]) then 1
    else 1 + ChunksRead(chunks[1..])
  }

  /** The text `get_response` appends before it stops: the chunks it reads, joined. */
  function Pending(chunks: seq<string>): string
  {
    Joined(chunks[..ChunksRead(chunks)])
  }

  /** Reading one chunk: a final one is all that is appended, any other is followed by what the rest contributes. */
  lemma PendingStep(chunks: seq<string>)
    requires |chunks| > 0
    ensures IsFinalResult(chunks[0]) ==> Pending(chunks) == CView(chunks[0])
    ensures !IsFinalResult(chunks[0]) ==> Pending(chunks) == CView(chunks[0]) + Pending(chunks[1..])
  {
    if IsFinalResult(chunks[0]) {
      assert chunks[..1] == [chunks[0]];
      assert Joined([chunks[0]]) == CView(chunks[0]) + Joined([]);
    } else {
      var rest := chunks[1..][..ChunksRead(chunks[1..])];
      assert chunks[..ChunksRead(chunks)] == [chunks[0]] + rest;
      JoinedAppend([chunks[0]], rest);
      assert Joined([chunks[0]]) == CView(chunks[0]) + Joined([]);
    }
  }

  /**
    The buffer never overflows: everything appended before `get_response` stops,
    plus the terminating NUL, fits in `MaxBufSize` bytes. at.c does not check
    this; it is the caller's obligation here.
   */
  predicate FitsBuffer(chunks: seq<string>)
  {
    |Pending(chunks)| < MaxBufSize
  }

  /**
    One turn of the `do … while` loop onward, with `acc` the buffer's contents so
    far: read a chunk (none left: fail), append it, and stop with the
    carriage-return-free buffer if it was final.
   */
  function Accumulate(acc: string, chunks: seq<string>): (r: Option<string>)
    requires |acc| + |Pending(chunks)| < MaxBufSize
    ensures r.Some? ==> CR !in r.value && |r.value| < MaxBufSize
    decreases |chunks|
  {
    if |chunks| == 0 then None
    else
      PendingStep(chunks);
      var acc' := acc + CView(chunks[0]);
      if IsFinalResult(chunks[0]) then Some(StripCr(acc'))
      else Accumulate(acc', chunks[1..])
  }

  /**
    `get_response`: the response when a final chunk arrives, `None` (false, the
    caller's response buffer untouched) when the stream ends first.
   */
  function GetResponse(chunks: seq<string>): (r: Option<string>)
    requires FitsBuffer(chunks)
    ensures r.None? <==> forall i :: 0 <= i < |chunks| ==> !IsFinalResult(chunks[i])
    ensures r.Some? ==> CR !in r.value && |r.value| < MaxBufSize
  {
    AccumulateSpec([], chunks);
    Accumulate([], chunks)
  }

  /**
    The loop, entered with buffer contents `acc`, fails exactly when no chunk left
    is final, and otherwise returns `acc` and every chunk it reads, without CRs.
   */
  lemma {:induction false} AccumulateSpec(acc: string, chunks: seq<string>)
    requires |acc| + |Pending(chunks)| < MaxBufSize
    ensures Accumulate(acc, chunks).None? <==> forall i :: 0 <= i < |chunks| ==> !IsFinalResult(chunks[i])
    ensures Accumulate(acc, chunks).Some? ==> Accumulate(acc, chunks).value == StripCr(acc + Pending(chunks))
    decreases |chunks|
  {
    if |chunks| > 0 {
      PendingStep(chunks);
      if !IsFinalResult(chunks[0]) {
        AccumulateSpec(acc + CView(chunks[0]), chunks[1..]);
        assert acc + CView(chunks[0]) + Pending(chunks[1..]) == acc + Pending(chunks);
        assert forall i :: 1 <= i < |chunks| ==> chunks[i] == chunks[1..][i - 1];
      }
    }
  }

  /** The chunks read are exactly those up to and including the first final one. */
  lemma ChunksReadStopsAtFirstFinal(chunks: seq<string>, k: int)
    requires FirstFinalAt(chunks, k)
    ensures ChunksRead(chunks) == k + 1
  {
  }

  /**
    On success the response is the carriage-return-free concatenation of every
    chunk up to and including the first final one; that chunk is the last one read.
   */
  lemma ResponseUpToFirstFinal(chunks: seq<string>, k: int)
    requires FirstFinalAt(chunks, k)
    requires |Joined(chunks[..k + 1])| < MaxBufSize
    ensures FitsBuffer(chunks)
    ensures GetResponse(chunks) == Some(StripCr(Joined(chunks[..k + 1])))
  {
    ChunksReadStopsAtFirstFinal(chunks, k);
    AccumulateSpec([], chunks);
    assert [] + Pending(chunks) == Pending(chunks);
  }

  /** When no chunk is final, `get_response` reads them all and fails. */
  lemma EndOfStreamFails(chunks: seq<string>)
    requires forall i :: 0 <= i < |chunks| ==> !IsFinalResult(chunks[i])
    requires |Joined(chunks)| < MaxBufSize
    ensures ChunksRead(chunks) == |chunks|
    ensures FitsBuffer(chunks) && GetResponse(chunks) == None
  {
    assert chunks[..|chunks|] == chunks;
  }

  /** Chunks after the first final one are never read: appending more to the stream changes nothing. */
  lemma UnreadChunksIgnored(chunks: seq<string>, rest: seq<string>)
    requires FitsBuffer(chunks) && GetResponse(chunks).Some?
    ensures ChunksRead(chunks + rest) == ChunksRead(chunks)
    ensures FitsBuffer(chunks + rest) && GetResponse(chunks + rest) == GetResponse(chunks)
  {
    var k := ChunksRead(chunks) - 1;
    assert FirstFinalAt(chunks, k);
    var all := chunks + rest;
    assert forall i :: 0 <= i < |chunks| ==> all[i] == chunks[i];
    assert FirstFinalAt(all, k);
    assert all[..k + 1] == chunks[..k + 1];
    ResponseUpToFirstFinal(chunks, k);
    ResponseUpToFirstFinal(all, k);
  }

  /** Reading one more chunk appends its visible text. */
  lemma JoinedSnoc(chunks: seq<string>, i: nat)
    requires i < |chunks|
    ensures Joined(chunks[..i + 1]) == Joined(chunks[..i]) + CView(chunks[i])
  {
    assert chunks[..i + 1] == chunks[..i] + [chunks[i]];
    JoinedAppend(chunks[..i], [chunks[i]]);
    assert Joined([chunks[i]]) == CView(chunks[i]) + Joined([]);
  }

  /** While `get_response` is still reading, the buffer holds less than `MaxBufSize` characters. */
  lemma BufferBound(chunks: seq<string>, i: nat)
    requires FitsBuffer(chunks) && i <= ChunksRead(chunks)
    ensures |Joined(chunks[..i])| < MaxBufSize
  {
    var n := ChunksRead(chunks);
    assert chunks[..n] == chunks[..i] + chunks[i..n];
    JoinedAppend(chunks[..i], chunks[i..n]);
  }

  /**
    The `do … while` loop of `get_response` itself. `read` counts the `fgets`
    calls that returned a chunk; the buffer `buf2` grows by `strcat` and, as the
    assertion in the loop shows, never needs more than `MaxBufSize` bytes. On end
    of stream the caller's `response` comes back unchanged.
   */
  method ReadResponse(chunks: seq<string>, response: string) returns (ok: bool, out: string, read: nat)
    requires FitsBuffer(chunks)
    ensures read == ChunksRead(chunks)
    ensures ok <==> GetResponse(chunks).Some?
    ensures ok ==> out == GetResponse(chunks).value
    ensures !ok ==> out == response
  {
    var buf2: string := [];
    read := 0;
    while true
      invariant read <= ChunksRead(chunks)
      invariant buf2 == Joined(chunks[..read])
      invariant forall i :: 0 <= i < read ==> !IsFinalResult(chunks[i])
      decreases |chunks| - read
    {
      if read == |chunks| {
        return false, response, read;
      }
      var line := chunks[read];
      JoinedSnoc(chunks, read);
      buf2 := buf2 + CView(line);
      read := read + 1;
      BufferBound(chunks, read);
      assert |buf2| < MaxBufSize;
      if IsFinalResult(line) {
        break;
      }
    }
    CViewOfCString(buf2);
    out := StripCrInPlace(buf2);
    ok := true;
    AccumulateSpec([], chunks);
    assert [] + buf2 == buf2;
  }

  /** An information line followed by a final result code: the response is both lines, LF terminated. */
  lemma InformationThenFinal(info: string, code: string)
    requires NUL !in info && CR !in info && NUL !in code && CR !in code
    requires !IsFinalResult(info + "\r\n") && IsFinalResult(code + "\r\n")
    requires |info| + |code| + 4 < MaxBufSize
    ensures FitsBuffer([info + "\r\n", code + "\r\n"])
    ensures GetResponse([info + "\r\n", code + "\r\n"]) == Some(info + "\n" + code + "\n")
  {
    var first, last := info + "\r\n", code + "\r\n";
    var chunks := [first, last];
    assert FirstFinalAt(chunks, 1);
    CViewOfCString(first);
    CViewOfCString(last);
    assert chunks[..2] == chunks;
    assert Joined(chunks) == first + last by {
      assert chunks[1..] == [last];
      assert Joined([last]) == last + Joined([]);
    }
    StripCrDistributes(first, last);
    StripCrOfCrLfLine(info);
    StripCrOfCrLfLine(code);
    assert StripCr(Joined(chunks[..2])) == info + "\n" + code + "\n";
    ResponseUpToFirstFinal(chunks, 1);
    assert chunks == [info + "\r\n", code + "\r\n"];
  }

  /** The classification of the worked example's two lines. */
  lemma SignalQualityLines()
    ensures !IsFinalResult("+CSQ: 15,99\r\n") && IsFinalResult("OK\r\n")
  {
    NearMissesNotFinal();
    assert "+CSQ: 15,99\r\n" in NearMisses;
    WholeFinalLinesAreFinal();
    assert "OK\r\n" in WholeFinalLines;
  }

  /** The worked example's text, split into line bodies and terminators. */
  lemma SignalQualityParts()
    ensures "+CSQ: 15,99" + "\r\n" == "+CSQ: 15,99\r\n" && "OK" + "\r\n" == "OK\r\n"
    ensures "+CSQ: 15,99" + "\n" + "OK" + "\n" == "+CSQ: 15,99\nOK\n"
    ensures NUL !in "+CSQ: 15,99" && CR !in "+CSQ: 15,99" && NUL !in "OK" && CR !in "OK"
  {
  }

  /** The worked example: a signal-quality information line, then `OK`. */
  lemma SignalQualityExample()
    ensures FitsBuffer(["+CSQ: 15,99\r\n", "OK\r\n"])
    ensures GetResponse(["+CSQ: 15,99\r\n", "OK\r\n"]) == Some("+CSQ: 15,99\nOK\n")
  {
    SignalQualityParts();
    SignalQualityLines();
    InformationThenFinal("+CSQ: 15,99", "OK");
  }
}

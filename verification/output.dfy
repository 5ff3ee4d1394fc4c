/**
  How the captured output of a command becomes chat messages: pick stdout or
  stderr, fall back to a placeholder, cut the text into slices of at most
  4000 characters, and wrap each slice in a Markdown code fence.
 */
module Output {

  /** The most characters one reply carries, before the fence is added. */
  const ChunkSize: nat := 4000

  /** The text sent when the command printed nothing at all. */
  const NoOutputText: string := "Command executed successfully (no output)"

  /** The opening and closing lines of a code fence. */
  const FenceOpen: string := "```\n"
  const FenceClose: string := "\n```"

  /** Joins the pieces in order. */
  function Concat(pieces: seq<string>): string {
    if |pieces| == 0 then [] else Concat(pieces[..|pieces| - 1]) + pieces[|pieces| - 1]
  }

  lemma {:induction false} ConcatAppend(pieces: seq<string>, more: seq<string>)
    ensures Concat(pieces + more) == Concat(pieces) + Concat(more)
    decreases |more|
  {
    if |more| == 0 {
      assert pieces + more == pieces;
    } else {
      var last := more[|more| - 1];
      assert (pieces + more)[..|pieces + more| - 1] == pieces + more[..|more| - 1];
      ConcatAppend(pieces, more[..|more| - 1]);
    }
  }

  /** stdout when it is non-empty, else stderr, else the placeholder. */
  function SelectOutput(stdout: string, stderr: string): (r: string)
    ensures |stdout| > 0 ==> r == stdout
    ensures |stdout| == 0 && |stderr| > 0 ==> r == stderr
    ensures |stdout| == 0 && |stderr| == 0 ==> r == NoOutputText
    ensures |r| > 0
  {
    var output := if |stdout| > 0 then stdout else stderr;
    if |output| == 0 then NoOutputText else output
  }

  function Min(a: int, b: int): int {
    if a <= b then a else b
  }

  /** Consecutive slices of at most `ChunkSize` characters, front to back. */
  function Chunks(s: string): seq<string>
    decreases |s|
  {
    if |s| == 0 then []
    else
      var n := Min(ChunkSize, |s|);
      [s[..n]] + Chunks(s[n..])
  }

  /** Joined in order, the chunks give back `s` exactly. */
  lemma {:induction false} ChunksConcat(s: string)
    ensures Concat(Chunks(s)) == s
    decreases |s|
  {
    if |s| > 0 {
      var n := Min(ChunkSize, |s|);
      ChunksConcat(s[n..]);
      ConcatAppend([s[..n]], Chunks(s[n..]));
      assert Concat([s[..n]]) == s[..n] by {
        assert [s[..n]][..0] == [];
      }
      assert s[..n] + s[n..] == s;
    }
  }

  /** Every chunk is non-empty and at most `ChunkSize` long, every chunk but
      the last is exactly `ChunkSize` long, and there are ceil(|s| / ChunkSize)
      of them. */
  lemma {:induction false} ChunksBounds(s: string)
    ensures forall k :: 0 <= k < |Chunks(s)| ==> 0 < |Chunks(s)[k]| <= ChunkSize
    ensures forall k :: 0 <= k < |Chunks(s)| - 1 ==> |Chunks(s)[k]| == ChunkSize
    ensures |Chunks(s)| == (|s| + ChunkSize - 1) / ChunkSize
    decreases |s|
  {
    if |s| > 0 {
      var n := Min(ChunkSize, |s|);
      ChunksBounds(s[n..]);
      var r := Chunks(s);
      assert r == [s[..n]] + Chunks(s[n..]);
      forall k | 0 < k < |r|
        ensures r[k] == Chunks(s[n..])[k - 1]
      {
      }
    }
  }

  /** The k-th chunk is exactly the slice `s[k*4000 .. (k+1)*4000]` (clipped at
      the end of `s`), which is what the loop over `range(0, len, 4000)` takes. */
  lemma {:induction false} ChunkIsSlice(s: string, k: nat)
    requires k < |Chunks(s)|
    ensures k * ChunkSize < |s|
    ensures Chunks(s)[k] == s[k * ChunkSize .. Min((k + 1) * ChunkSize, |s|)]
    decreases k
  {
    var n := Min(ChunkSize, |s|);
    var rest := s[n..];
    assert Chunks(s) == [s[..n]] + Chunks(rest);
    if k > 0 {
      assert n == ChunkSize;
      ChunkIsSlice(rest, k - 1);
      var lo := (k - 1) * ChunkSize;
      var hi := Min(k * ChunkSize, |rest|);
      assert k * ChunkSize == lo + ChunkSize;
      assert (k + 1) * ChunkSize == k * ChunkSize + ChunkSize;
      assert Min((k + 1) * ChunkSize, |s|) == hi + ChunkSize;
      assert rest[lo..hi] == s[lo + ChunkSize .. hi + ChunkSize];
    }
  }

  /** Unfolds `Chunks` once at offset `i`. */
  lemma ChunksStep(s: string, i: nat)
    requires i < |s|
    ensures Chunks(s[i..]) == [s[i..Min(i + ChunkSize, |s|)]] + Chunks(s[Min(i + ChunkSize, |s|)..])
  {
    var n := Min(ChunkSize, |s| - i);
    assert s[i..][..n] == s[i..i + n];
    assert s[i..][n..] == s[i + n..];
  }

  /** The loop of `handle_message` in bot.py, chunk by chunk: `i` steps through
      0, 4000, 8000, ... while it is below the length, and each step takes
      the slice `output[i .. i + 4000]`. It builds the same list as `Chunks`. */
  method SplitOutput(output: string) returns (chunks: seq<string>)
    ensures chunks == Chunks(output)
  {
    chunks := [];
    var i := 0;
    while i < |output|
      invariant 0 <= i
      invariant chunks + Chunks(output[Min(i, |output|)..]) == Chunks(output)
      decreases |output| - i
    {
      var j := Min(i + ChunkSize, |output|);
      ChunksStep(output, i);
      chunks := chunks + [output[i..j]];
      i := i + ChunkSize;
    }
    assert output[Min(i, |output|)..] == [];
    assert chunks + [] == chunks;
  }

  /** One chat message: a chunk inside a code fence. */
  function Fence(chunk: string): string {
    FenceOpen + chunk + FenceClose
  }

  predicate IsFenced(message: string) {
    && |message| >= |FenceOpen| + |FenceClose|
    && message[..|FenceOpen|] == FenceOpen
    && message[|message| - |FenceClose|..] == FenceClose
  }

  /** The text between the fences. */
  function Unfence(message: string): string
    requires IsFenced(message)
  {
    message[|FenceOpen|..|message| - |FenceClose|]
  }

  /** Fencing is undone by `Unfence`, and a fenced message is `Fence` of its inside. */
  lemma FenceRoundTrip(chunk: string, message: string)
    ensures IsFenced(Fence(chunk)) && Unfence(Fence(chunk)) == chunk
    ensures IsFenced(message) ==> Fence(Unfence(message)) == message
  {
    var m := Fence(chunk);
    assert m[|FenceOpen|..|m| - |FenceClose|] == chunk;
    if IsFenced(message) {
      assert message == message[..|FenceOpen|]
                        + message[|FenceOpen|..|message| - |FenceClose|]
                        + message[|message| - |FenceClose|..];
    }
  }

  /** The messages sent after a command finishes. */
  function Replies(stdout: string, stderr: string): seq<string> {
    var chunks := Chunks(SelectOutput(stdout, stderr));
    seq(|chunks|, k requires 0 <= k < |chunks| => Fence(chunks[k]))
  }

  /** Inner texts of fenced messages, in order. */
  function Unfenced(messages: seq<string>): seq<string>
    requires forall k :: 0 <= k < |messages| ==> IsFenced(messages[k])
  {
    seq(|messages|, k requires 0 <= k < |messages| => Unfence(messages[k]))
  }

  /** What a reader of the chat sees: at least one message, each a fenced
      slice of 4000 characters or fewer. With the fences taken off and the
      slices joined in order, the messages give exactly the selected output. */
  lemma RepliesRoundTrip(stdout: string, stderr: string)
    ensures |Replies(stdout, stderr)| >= 1
    ensures |Replies(stdout, stderr)| == (|SelectOutput(stdout, stderr)| + ChunkSize - 1) / ChunkSize
    ensures forall k :: 0 <= k < |Replies(stdout, stderr)| ==> IsFenced(Replies(stdout, stderr)[k])
    ensures Concat(Unfenced(Replies(stdout, stderr))) == SelectOutput(stdout, stderr)
    ensures forall k :: 0 <= k < |Replies(stdout, stderr)| ==>
              |Replies(stdout, stderr)[k]| <= ChunkSize + |FenceOpen| + |FenceClose|
    ensures forall k :: 0 <= k < |Replies(stdout, stderr)| ==>
              0 < |Unfence(Replies(stdout, stderr)[k])| <= ChunkSize
    ensures forall k :: 0 <= k < |Replies(stdout, stderr)| - 1 ==>
              |Unfence(Replies(stdout, stderr)[k])| == ChunkSize
  {
    var chunks := Chunks(SelectOutput(stdout, stderr));
    var r := Replies(stdout, stderr);
    ChunksConcat(SelectOutput(stdout, stderr));
    ChunksBounds(SelectOutput(stdout, stderr));
    forall k | 0 <= k < |r|
      ensures IsFenced(r[k]) && Unfence(r[k]) == chunks[k]
    {
      FenceRoundTrip(chunks[k], r[k]);
    }
    assert Unfenced(r) == chunks;
  }
}

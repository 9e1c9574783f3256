// The two bounded buffers of agent/src/engine.rs: FFmpeg's stderr window and the upload receipt body.
module Capture {
  import opened Basics

  const LOG_LIMIT: nat := 65536
  const RESPONSE_LIMIT: nat := 65536

  function Head(stream: seq<byte>): seq<byte> { stream[..Min(|stream|, LOG_LIMIT)] }

  // The last LOG_LIMIT bytes, or all.
  function Last(s: seq<byte>): seq<byte> {
    if |s| > LOG_LIMIT then s[|s| - LOG_LIMIT..] else s
  }

  // The last bytes of what follows the head.
  function Tail(stream: seq<byte>): seq<byte> { Last(stream[|Head(stream)|..]) }

  // The log fields of Progress, filled by read_log.
  class LogWindow {
    var log: seq<byte>
    var logTail: seq<byte>
    ghost var stream: seq<byte>  // all of stderr so far

    ghost predicate Valid()
      reads this
    {
      log == Head(stream) && logTail == Tail(stream)
    }

    constructor ()
      ensures Valid() && stream == []
    {
      log, logTail, stream := [], [], [];
    }

    // One successful read of stderr. `LOG_LIMIT - |log|` is a nat: the subtraction cannot underflow.
    method Append(buffer: seq<byte>)
      requires Valid()
      modifies this
      ensures Valid() && stream == old(stream) + buffer
    {
      WindowStep(stream, buffer);
      hide Head, Tail;
      var room: nat := LOG_LIMIT - |log|;
      var headBytes := Min(|buffer|, room);
      log := log + buffer[..headBytes];
      logTail := logTail + buffer[headBytes..];
      if |logTail| > LOG_LIMIT {
        var excess: nat := |logTail| - LOG_LIMIT;
        logTail := logTail[excess..];
      }
      stream := stream + buffer;
    }
  }

  lemma LastOfMore(s: seq<byte>, more: seq<byte>)
    ensures Last(s + more) == Last(Last(s) + more)
  {
    if |s| > LOG_LIMIT {
      assert Last(s) + more == (s + more)[|s| - LOG_LIMIT..];
    }
  }

  // How one append moves the window, for any split of the stream.
  lemma WindowStep(stream: seq<byte>, buffer: seq<byte>)
    ensures |Head(stream)| <= LOG_LIMIT
    ensures
      var headBytes := Min(|buffer|, LOG_LIMIT - |Head(stream)|);
      var longer := Tail(stream) + buffer[headBytes..];
      && Head(stream + buffer) == Head(stream) + buffer[..headBytes]
      && Tail(stream + buffer) == Last(longer)
  {
    var headBytes := Min(|buffer|, LOG_LIMIT - |Head(stream)|);
    var rest, more := stream[|Head(stream)|..], buffer[headBytes..];
    var whole := stream + buffer;
    assert Head(whole) == Head(stream) + buffer[..headBytes];
    assert whole[|Head(whole)|..] == rest + more;
    LastOfMore(rest, more);
  }

  // What the window keeps of a stderr of any length; together with Append this holds for any chunking.
  lemma {:induction false} WindowKeeps(stream: seq<byte>)
    ensures |Head(stream)| <= LOG_LIMIT && Head(stream) <= stream
    ensures |stream| >= LOG_LIMIT ==> |Head(stream)| == LOG_LIMIT
    ensures Tail(stream) != [] <==> |stream| > LOG_LIMIT
    ensures |stream| > LOG_LIMIT ==>
              && |Tail(stream)| == Min(LOG_LIMIT, |stream| - LOG_LIMIT)
              && Tail(stream) == stream[|stream| - |Tail(stream)|..]
    ensures Head(stream) + Tail(stream) == stream <==> |stream| <= 2 * LOG_LIMIT
  {
    var rest := stream[|Head(stream)|..];
    assert Head(stream) + rest == stream;
    assert rest[|rest| - |Tail(stream)|..] == stream[|stream| - |Tail(stream)|..];
  }

  // The status and body of an upload response; its headers are copied unchanged.
  datatype Receipt = Receipt(status: nat, body: seq<byte>, truncated: bool)

  // The response-reading loop of upload: None when the stream breaks off before the loop is done.
  method ReadReceipt(status: nat, chunks: seq<seq<byte>>, interrupted: bool) returns (receipt: Option<Receipt>)
    ensures receipt.None? <==> interrupted && |Concat(chunks)| <= RESPONSE_LIMIT
    ensures receipt.Some? ==>
              && receipt.value.status == status
              && receipt.value.body == Concat(chunks)[..Min(|Concat(chunks)|, RESPONSE_LIMIT)]
              && (receipt.value.truncated <==> |Concat(chunks)| > RESPONSE_LIMIT)
  {
    var body: seq<byte> := [];
    var i := 0;
    while i < |chunks|
      invariant 0 <= i <= |chunks|
      invariant body == Concat(chunks[..i]) && |body| <= RESPONSE_LIMIT
    {
      var chunk := chunks[i];
      var n := Min(|chunk|, RESPONSE_LIMIT - |body|);
      ConcatStep(chunks, i);
      ConcatPrefix(chunks, i + 1);
      body := body + chunk[..n];
      if n < |chunk| {
        assert body == Concat(chunks[..i + 1])[..RESPONSE_LIMIT];
        return Some(Receipt(status, body, true));
      }
      i := i + 1;
    }
    assert chunks[..i] == chunks;
    receipt := if interrupted then None else Some(Receipt(status, body, false));
  }
}

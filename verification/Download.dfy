// download and its retries in agent/src/engine.rs: what the input file holds, and how large it gets.
module Downloading {
  import opened Basics
  import opened Retrying

  datatype Ending = Complete | Interrupted | FlushFailed

  // The write of chunk `at` fails after some of its bytes have reached the file.
  datatype Fault = NoFault | WriteFails(at: nat, partial: nat)

  // One GET: no response, or a status, the declared length, and what reading and writing the body does.
  datatype Response =
    | Unreachable
    | Answer(status: nat, length: Option<nat>, creatable: bool, chunks: seq<seq<byte>>, fault: Fault, ending: Ending)

  const LIMIT_MESSAGE := "input exceeds byte limit"

  function Total(chunks: seq<seq<byte>>): nat { |Concat(chunks)| }

  // How an attempt ends that has written the first i chunks.
  function ReceiveFrom(r: Response, maxInput: nat, i: nat): Attempt
    requires r.Answer? && i <= |r.chunks|
    decreases |r.chunks| - i
  {
    if i < |r.chunks| then
      if Total(r.chunks[..i + 1]) >= U64_LIMIT || Total(r.chunks[..i + 1]) > maxInput then Refused(LIMIT_MESSAGE, false)
      else if r.fault.WriteFails? && r.fault.at == i then Refused("cannot write input file", false)
      else ReceiveFrom(r, maxInput, i + 1)
    else match r.ending
      case Complete => Done
      case Interrupted => Refused("input download interrupted", true)
      case FlushFailed => Refused("cannot flush input file", false)
  }

  function AttemptOf(r: Response, maxInput: nat): Attempt {
    if r.Unreachable? then Refused("input GET failed", true)
    else if !IsSuccess(r.status) then Refused("input GET returned non-success status", RetryStatus(r.status))
    else if r.length.Some? && r.length.value > maxInput then Refused(LIMIT_MESSAGE, false)
    else if !r.creatable then Refused("cannot create input file", false)
    else ReceiveFrom(r, maxInput, 0)
  }

  // The response whose body is read to its end without a fault and within the limit.
  ghost predicate Readable(r: Response, maxInput: nat) {
    && r.Answer? && IsSuccess(r.status) && r.creatable
    && (r.length.Some? ==> r.length.value <= maxInput)
    && Total(r.chunks) <= maxInput
    && (r.fault.WriteFails? ==> r.fault.at >= |r.chunks|)
  }

  lemma {:induction false} ReceiveExact(r: Response, maxInput: nat, i: nat)
    requires r.Answer? && i <= |r.chunks| && maxInput < U64_LIMIT
    requires Total(r.chunks[..i]) <= maxInput
    ensures var clean := Total(r.chunks) <= maxInput && (r.fault.WriteFails? ==> !(i <= r.fault.at < |r.chunks|));
            var result := ReceiveFrom(r, maxInput, i);
            && (result.Done? <==> clean && r.ending.Complete?)
            && (result.Verdict() == Transient <==> clean && r.ending.Interrupted?)
    decreases |r.chunks| - i
  {
    if i < |r.chunks| {
      ConcatPrefix(r.chunks, i + 1);
      if Total(r.chunks[..i + 1]) <= maxInput {
        ReceiveExact(r, maxInput, i + 1);
      }
    } else {
      assert r.chunks[..i] == r.chunks;
    }
  }

  // Which responses download the input, and after which ones another attempt may help.
  lemma AttemptExact(r: Response, maxInput: nat)
    requires maxInput < U64_LIMIT
    ensures AttemptOf(r, maxInput).Done? <==> Readable(r, maxInput) && r.ending.Complete?
    ensures AttemptOf(r, maxInput).Verdict() == Transient <==>
            || r.Unreachable?
            || (!IsSuccess(r.status) && RetryStatus(r.status))
            || (Readable(r, maxInput) && r.ending.Interrupted?)
  {
    if r.Answer? {
      ReceiveExact(r, maxInput, 0);
    }
  }

  // A response whose body the agent sets out to read.
  ghost predicate Begun(r: Response, maxInput: nat) {
    r.Answer? && 200 <= r.status < 300 && (r.length.Some? ==> r.length.value <= maxInput) && r.creatable
  }

  // Everything before chunk k has been received and written.
  ghost predicate Intact(r: Response, maxInput: nat, i: nat, k: nat) {
    && r.Answer? && i <= k <= |r.chunks| && Total(r.chunks[..k]) <= maxInput < U64_LIMIT
    && (r.fault.WriteFails? ==> !(i <= r.fault.at < k))
  }

  lemma {:induction false} ReceiveReaches(r: Response, maxInput: nat, i: nat, k: nat)
    requires Intact(r, maxInput, i, k)
    ensures ReceiveFrom(r, maxInput, i) == ReceiveFrom(r, maxInput, k)
    decreases k - i
  {
    if i < k {
      assert r.chunks[..k][..i + 1] == r.chunks[..i + 1];
      ConcatPrefix(r.chunks[..k], i + 1);
      ReceiveReaches(r, maxInput, i + 1, k);
    }
  }

  // How an attempt fails: the first thing that goes wrong gives the message.
  lemma AttemptMessages(r: Response, maxInput: nat, k: nat)
    ensures r.Unreachable? ==> AttemptOf(r, maxInput) == Refused("input GET failed", true)
    ensures r.Answer? && r.status / 100 != 2 ==>
              AttemptOf(r, maxInput) == Refused("input GET returned non-success status",
                                                r.status / 100 == 5 || r.status == 408 || r.status == 429)
    ensures r.Answer? && r.status / 100 == 2 && r.length.Some? && r.length.value > maxInput ==>
              AttemptOf(r, maxInput) == Refused("input exceeds byte limit", false)
    ensures r.Answer? && r.status / 100 == 2 && (r.length.Some? ==> r.length.value <= maxInput) && !r.creatable ==>
              AttemptOf(r, maxInput) == Refused("cannot create input file", false)
    ensures Begun(r, maxInput) && Intact(r, maxInput, 0, k) ==>
              && (k < |r.chunks| && Total(r.chunks[..k + 1]) > maxInput ==>
                    AttemptOf(r, maxInput) == Refused("input exceeds byte limit", false))
              && (k < |r.chunks| && Total(r.chunks[..k + 1]) <= maxInput && r.fault.WriteFails? && r.fault.at == k ==>
                    AttemptOf(r, maxInput) == Refused("cannot write input file", false))
              && (k == |r.chunks| && r.ending.Interrupted? ==>
                    AttemptOf(r, maxInput) == Refused("input download interrupted", true))
              && (k == |r.chunks| && r.ending.FlushFailed? ==>
                    AttemptOf(r, maxInput) == Refused("cannot flush input file", false))
  {
    if Begun(r, maxInput) && Intact(r, maxInput, 0, k) {
      ReceiveReaches(r, maxInput, 0, k);
    }
  }

  function Verdicts(script: nat -> Response, maxInput: nat): nat -> Verdict {
    (i: nat) => AttemptOf(script(i), maxInput).Verdict()
  }

  class Input {
    const maxInput: nat
    var file: seq<byte>
    ghost var peak: nat  // the most bytes the file has ever held

    ghost predicate Valid()
      reads this
    {
      |file| <= peak <= maxInput < U64_LIMIT
    }

    constructor (maxInput: nat)
      requires maxInput < U64_LIMIT
      ensures Valid() && file == [] && this.maxInput == maxInput
    {
      this.maxInput := maxInput;
      file, peak := [], 0;
    }

    method Write(bytes: seq<byte>)
      modifies this
      ensures file == old(file) + bytes && peak == Max(old(peak), |file|)
    {
      file := file + bytes;
      peak := Max(peak, |file|);
    }

    method Receive(r: Response) returns (result: Attempt)
      requires Valid() && r.Answer? && file == []
      modifies this
      ensures Valid() && peak >= old(peak)
      ensures result == ReceiveFrom(r, maxInput, 0)
      ensures result.Done? ==> file == Concat(r.chunks)
    {
      var count := 0;
      var i := 0;
      while i < |r.chunks|
        invariant 0 <= i <= |r.chunks|
        invariant Valid() && peak >= old(peak)
        invariant file == Concat(r.chunks[..i]) && count == |file|
        invariant ReceiveFrom(r, maxInput, 0) == ReceiveFrom(r, maxInput, i)
      {
        var chunk := r.chunks[i];
        ConcatStep(r.chunks, i);
        if count + |chunk| >= U64_LIMIT {
          return Refused(LIMIT_MESSAGE, false);
        }
        count := count + |chunk|;
        if count > maxInput {
          return Refused(LIMIT_MESSAGE, false);
        }
        if r.fault.WriteFails? && r.fault.at == i {
          Write(chunk[..Min(r.fault.partial, |chunk|)]);
          return Refused("cannot write input file", false);
        }
        Write(chunk);
        i := i + 1;
      }
      assert r.chunks[..i] == r.chunks;
      match r.ending {
        case Complete => result := Done;
        case Interrupted => result := Refused("input download interrupted", true);
        case FlushFailed => result := Refused("cannot flush input file", false);
      }
    }

    // One call of download. A file left by an earlier attempt stays until this one creates it anew.
    method Attempt(r: Response) returns (result: Attempt)
      requires Valid()
      modifies this
      ensures Valid() && peak >= old(peak)
      ensures result == AttemptOf(r, maxInput)
      ensures result.Done? ==> file == Concat(r.chunks)
    {
      if r.Unreachable? {
        return Refused("input GET failed", true);
      }
      if !IsSuccess(r.status) {
        return Refused("input GET returned non-success status", RetryStatus(r.status));
      }
      if r.length.Some? && r.length.value > maxInput {
        return Refused(LIMIT_MESSAGE, false);
      }
      if !r.creatable {
        return Refused("cannot create input file", false);
      }
      file := [];
      result := Receive(r);
    }

    // retry_transfer around download. At every moment the file is within the limit (peak), and on
    // success it is the body of the last attempt, with nothing of the interrupted ones.
    method Fetch(script: nat -> Response, retry: Option<Retry>) returns (error: Option<string>, last: nat)
      requires Valid()
      requires retry.Some? ==> ValidateRetry(retry.value).None?
      modifies this
      ensures Valid() && peak >= old(peak)
      ensures LastCall(Verdicts(script, maxInput), if retry.Some? then retry.value.maxAttempts else 1, last)
      ensures error.None? <==> AttemptOf(script(last), maxInput).Done?
      ensures error.Some? ==> error.value == AttemptOf(script(last), maxInput).message
      ensures error.None? ==> script(last).Answer? && file == Concat(script(last).chunks) && |file| <= maxInput
    {
      var attempts := Attempts(retry, 1);
      last, error := 0, None;
      for attempt := 0 to attempts
        invariant Valid() && peak >= old(peak)
        invariant attempt < attempts
        invariant forall i: nat | i < attempt :: Verdicts(script, maxInput)(i) == Transient
      {
        var result := Attempt(script(attempt));
        last := attempt;
        match result {
          case Done =>
            return;
          case Refused(message, retryable) =>
            if !retryable || attempt + 1 == attempts {
              error := Some(message);
              return;
            }
        }
      }
      assert false;
    }
  }

  // ---- a write that an interrupted attempt left in flight

  // Writing at a position: a gap behind the end of the file is filled with zeros.
  function Overlay(file: seq<byte>, at: nat, bytes: seq<byte>): seq<byte> {
    if bytes == [] then file
    else
      var front := if at <= |file| then file[..at] else file + seq(at - |file|, i => 0);
      front + bytes + if at + |bytes| <= |file| then file[at + |bytes|..] else []
  }

  // The file if such a write lands after `head` of the new body and before `tail` is written.
  function LateFile(head: seq<byte>, tail: seq<byte>, at: nat, late: seq<byte>): seq<byte> {
    Overlay(Overlay(head, at, late), |head|, tail)
  }

  // What the writing of the tail leaves of it cannot be seen exactly if it lies within the body, and
  // agrees with it where the body had been written.
  ghost predicate Unseen(head: seq<byte>, tail: seq<byte>, at: nat, late: seq<byte>) {
    && (late != [] ==> at + |late| <= |head + tail|)
    && forall j | 0 <= j < |late| && at + j < |head| :: late[j] == head[at + j]
  }

  lemma OverlayExact(file: seq<byte>, at: nat, bytes: seq<byte>)
    ensures |Overlay(file, at, bytes)| == Max(|file|, if bytes == [] then 0 else at + |bytes|)
    ensures forall p | 0 <= p < |Overlay(file, at, bytes)| ::
              Overlay(file, at, bytes)[p] == if at <= p < at + |bytes| then bytes[p - at]
                                             else if p < |file| then file[p] else 0
  {
  }

  lemma LateWriteExact(head: seq<byte>, tail: seq<byte>, at: nat, late: seq<byte>)
    ensures LateFile(head, tail, at, late) == head + tail <==> Unseen(head, tail, at, late)
    ensures |LateFile(head, tail, at, late)| == Max(|head + tail|, if late == [] then 0 else at + |late|)
  {
    OverlayExact(head, at, late);
    OverlayExact(Overlay(head, at, late), |head|, tail);
    hide Overlay;
    var file, body := LateFile(head, tail, at, late), head + tail;
    if file == body {
      forall j | 0 <= j < |late| && at + j < |head| ensures late[j] == head[at + j] {
        assert file[at + j] == late[j] && body[at + j] == head[at + j];
      }
    }
    if Unseen(head, tail, at, late) {
      forall p | 0 <= p < |body| ensures file[p] == body[p] {
        assert at <= p < |head| && p < at + |late| ==> late[p - at] == head[at + (p - at)];
      }
    }
  }

  // A server that sends the same bytes on every attempt: a late write of one of them does no harm.
  lemma SameBodyUnharmed(head: seq<byte>, tail: seq<byte>, at: nat, late: seq<byte>)
    requires at + |late| <= |head + tail| && late == (head + tail)[at..at + |late|]
    ensures LateFile(head, tail, at, late) == head + tail
  {
    LateWriteExact(head, tail, at, late);
  }
}

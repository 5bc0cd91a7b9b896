/**
The bounded reader of captured responses. A streamed body is cut into events by blank
lines (section 9.2.5 of the WHATWG HTML standard, with LF and CRLF line ends only). The
reader keeps at most a fixed number of bytes and of events, and never part of an event.
*/
module EventStream {
  import opened Numbers
  import opened Wrappers

  type byte = x: int | 0 <= x < 256

  const MAX_RESPONSE_BYTES: nat := 2 * 1024 * 1024
  const MAX_SSE_EVENTS: nat := 2_048
  const READ_CHUNK_BYTES: nat := 64 * 1024

  const LF: byte := 10
  const CR: byte := 13

  /** What happens in one round of the loop. `Data(want)` is a read that returns `want`
      bytes, or fewer if the request or the body has less, and nothing only at the end.
      The other rounds: the deadline is found to have passed, the alarm interrupts the
      read, the read fails past the deadline, the read fails before it. */
  datatype Round = Data(want: nat) | DeadlinePassed | Interrupted | FailedLate | FailedEarly

  datatype Capture = Body(bytes: seq<byte>, truncated: bool) | TransportError

  // ----- What counts as a complete event -----

  /** The first `p` bytes end just after a blank line. */
  predicate EndsEvent(body: seq<byte>, p: nat) {
    && 1 <= p <= |body| && body[p - 1] == LF
    && (p == 1 || body[p - 2] == LF || (body[p - 2] == CR && (p == 2 || body[p - 3] == LF)))
  }

  function Events(body: seq<byte>, p: nat): nat {
    if p == 0 then 0 else Events(body, p - 1) + if EndsEvent(body, p) then 1 else 0
  }

  /** The first `p` bytes are whole events, within both caps. */
  ghost predicate Acceptable(body: seq<byte>, p: nat) {
    && p <= |body| && p <= MAX_RESPONSE_BYTES
    && (p == 0 || EndsEvent(body, p))
    && Events(body, p) <= MAX_SSE_EVENTS
  }

  ghost predicate LongestAcceptable(body: seq<byte>, p: nat) {
    Acceptable(body, p) && forall q: nat :: Acceptable(body, q) ==> q <= p
  }

  /** The whole body is under both caps and made of whole events. */
  ghost predicate Fits(body: seq<byte>) {
    && |body| < MAX_RESPONSE_BYTES
    && (body == [] || EndsEvent(body, |body|))
    && Events(body, |body|) < MAX_SSE_EVENTS
  }

  /** The end of the last whole event among the first `n` bytes. */
  function LastEnd(body: seq<byte>, n: nat): (p: nat)
    ensures p <= n
  {
    if n == 0 || EndsEvent(body, n) then n else LastEnd(body, n - 1)
  }

  lemma {:induction false} LastEndIsAnEnd(body: seq<byte>, n: nat)
    ensures LastEnd(body, n) == 0 || EndsEvent(body, LastEnd(body, n))
  {
    if n != 0 && !EndsEvent(body, n) {
      LastEndIsAnEnd(body, n - 1);
    }
  }

  lemma {:induction false} NoEndAfterLastEnd(body: seq<byte>, n: nat, q: nat)
    requires LastEnd(body, n) < q <= n
    ensures !EndsEvent(body, q)
  {
    if q < n {
      NoEndAfterLastEnd(body, n - 1, q);
    }
  }

  lemma {:induction false} EventsGrow(body: seq<byte>, p: nat, q: nat)
    requires p <= q
    ensures Events(body, p) <= Events(body, q)
    ensures p < q && EndsEvent(body, q) ==> Events(body, p) < Events(body, q)
    decreases q
  {
    if p < q {
      EventsGrow(body, p, q - 1);
    }
  }

  lemma LastEndIsLongest(body: seq<byte>, n: nat)
    requires n <= |body| && n <= MAX_RESPONSE_BYTES && Events(body, n) <= MAX_SSE_EVENTS
    requires n == |body| || n == MAX_RESPONSE_BYTES || (Events(body, n) == MAX_SSE_EVENTS && EndsEvent(body, n))
    ensures LongestAcceptable(body, LastEnd(body, n))
  {
    var p := LastEnd(body, n);
    LastEndIsAnEnd(body, n);
    EventsGrow(body, p, n);
    forall q: nat | Acceptable(body, q)
      ensures q <= p
    {
      if n < q {
        EventsGrow(body, n, q);
      } else if p < q {
        NoEndAfterLastEnd(body, n, q);
      }
    }
  }

  // ----- The reader -----

  function TruncateStream(retained: seq<byte>, streamed: bool, boundary: nat, truncated: bool): Capture
    requires boundary <= |retained|
  {
    if streamed && |retained| > boundary then Body(retained[..boundary], true)
    else Body(retained, truncated)
  }

  /** The bytes since the last LF, as the reader's `current_line` holds them. */
  ghost predicate OpenLine(body: seq<byte>, n: nat, line: seq<byte>) {
    && |line| <= n <= |body| && line == body[n - |line|..n]
    && (forall j :: n - |line| <= j < n ==> body[j] != LF)
    && (|line| == n || body[n - |line| - 1] == LF)
  }

  /** A line just closed by LF is blank exactly when an event ends there. */
  lemma ClosedLine(body: seq<byte>, n: nat, line: seq<byte>)
    requires OpenLine(body, n, line) && n < |body| && body[n] == LF
    ensures BlankLine(line + [LF]) <==> EndsEvent(body, n + 1)
  {
    var closed := line + [LF];
    if |line| == 0 {
      assert closed == [LF];
    } else {
      assert body[n - 1] == line[|line| - 1];
      if |line| == 1 {
        assert closed == [body[n - 1], LF];
      } else {
        assert body[n - 2] == line[|line| - 2];
        assert |closed| > 2;
      }
    }
  }

  predicate BlankLine(line: seq<byte>) { line == [LF] || line == [CR, LF] }

  /** What the reader knows after `n` bytes of a streamed body. */
  ghost predicate Tracks(body: seq<byte>, n: nat, line: seq<byte>, events: nat, boundary: nat) {
    && OpenLine(body, n, line)
    && events == Events(body, n) < MAX_SSE_EVENTS
    && boundary == LastEnd(body, n)
  }

  /** The reader's state after the first `|retained|` bytes of the body. */
  ghost predicate Reading(body: seq<byte>, streamed: bool, retained: seq<byte>, line: seq<byte>, events: nat, boundary: nat) {
    && retained <= body && |retained| <= MAX_RESPONSE_BYTES
    && if streamed then Tracks(body, |retained|, line, events, boundary) else boundary == 0
  }

  /** How many bytes a read returns once `start` have been read. */
  function ReadSize(length: nat, start: nat, want: nat): (size: nat)
    requires start <= length && start <= MAX_RESPONSE_BYTES
    ensures start + size <= length && start + size <= MAX_RESPONSE_BYTES
    ensures size == 0 <==> start == length || start == MAX_RESPONSE_BYTES
  {
    var amount := Min(READ_CHUNK_BYTES, MAX_RESPONSE_BYTES - start);
    Min(Min(amount, Max(want, 1)), length - start)
  }

  /** How much of the body has been delivered after one more round. */
  function Further(length: nat, d: nat, round: Round): (e: nat)
    requires d <= length && d <= MAX_RESPONSE_BYTES
    ensures d <= e <= length && e <= MAX_RESPONSE_BYTES
  {
    if round.Data? then d + ReadSize(length, d, round.want) else d
  }

  /** How much of the body the first `n` rounds deliver. */
  function Delivered(length: nat, rounds: nat -> Round, n: nat): (d: nat)
    ensures d <= length && d <= MAX_RESPONSE_BYTES
  {
    if n == 0 then 0 else Further(length, Delivered(length, rounds, n - 1), rounds(n - 1))
  }

  /** What is returned: a prefix of the body within the caps, of whole events if streamed,
      and all of it unless marked truncated. */
  ghost predicate WithinBounds(body: seq<byte>, streamed: bool, c: Capture) {
    c.Body? ==>
      && c.bytes <= body && |c.bytes| <= MAX_RESPONSE_BYTES
      && (streamed ==> Acceptable(body, |c.bytes|))
      && (!c.truncated ==> c.bytes == body)
  }

  /** And no less of it than `consumed` bytes allow. */
  ghost predicate Faithful(body: seq<byte>, streamed: bool, c: Capture, consumed: nat) {
    && consumed <= |body|
    && WithinBounds(body, streamed, c)
    && (c.Body? ==> c.bytes == body[..if streamed then LastEnd(body, consumed) else consumed])
  }

  /** The answer for a body that is read to its end or to a cap. */
  ghost predicate Exact(body: seq<byte>, streamed: bool, c: Capture) {
    && c.Body? && c.bytes <= body
    && (streamed ==> LongestAcceptable(body, |c.bytes|) && (!c.truncated <==> Fits(body)))
    && (!streamed ==> |c.bytes| == Min(|body|, MAX_RESPONSE_BYTES) && (!c.truncated <==> |body| < MAX_RESPONSE_BYTES))
  }

  /** The last event the cap admits has just ended. */
  ghost predicate AtEventCap(body: seq<byte>, retained: seq<byte>) {
    && retained <= body && |retained| <= MAX_RESPONSE_BYTES
    && EndsEvent(body, |retained|) && Events(body, |retained|) == MAX_SSE_EVENTS
  }

  lemma TakePlainByte(body: seq<byte>, retained: seq<byte>, line: seq<byte>, events: nat, boundary: nat, value: byte)
    requires Reading(body, true, retained, line, events, boundary) && value != LF
    requires retained + [value] <= body && |retained| < MAX_RESPONSE_BYTES
    ensures Reading(body, true, retained + [value], line + [value], events, boundary)
  {
    var n := |retained|;
    assert body[n] == value;
    assert OpenLine(body, n + 1, line + [value]);
  }

  lemma TakeLineEnd(body: seq<byte>, retained: seq<byte>, line: seq<byte>, events: nat, boundary: nat)
    requires Reading(body, true, retained, line, events, boundary) && !BlankLine(line + [LF])
    requires retained + [LF] <= body && |retained| < MAX_RESPONSE_BYTES
    ensures Reading(body, true, retained + [LF], [], events, boundary)
  {
    assert body[|retained|] == LF;
    ClosedLine(body, |retained|, line);
  }

  lemma TakeBlankLine(body: seq<byte>, retained: seq<byte>, line: seq<byte>, events: nat, boundary: nat)
    requires Reading(body, true, retained, line, events, boundary) && BlankLine(line + [LF])
    requires retained + [LF] <= body && |retained| < MAX_RESPONSE_BYTES
    ensures events + 1 == MAX_SSE_EVENTS ==> AtEventCap(body, retained + [LF])
    ensures events + 1 != MAX_SSE_EVENTS ==> Reading(body, true, retained + [LF], [], events + 1, |retained| + 1)
  {
    assert body[|retained|] == LF;
    ClosedLine(body, |retained|, line);
  }

  lemma NextByte(body: seq<byte>, retained0: seq<byte>, chunk: seq<byte>, retained: seq<byte>, k: nat)
    requires retained0 + chunk <= body && retained <= body
    requires |retained| == |retained0| + k && k < |chunk|
    ensures retained + [chunk[k]] <= body
  {
    assert (retained0 + chunk)[|retained0| + k] == chunk[k];
  }

  lemma PrefixByLength(body: seq<byte>, a: seq<byte>, b: seq<byte>)
    requires a <= body && b <= body && |a| == |b|
    ensures a == b
  {
  }

  lemma TakeUnstreamed(body: seq<byte>, retained: seq<byte>, line: seq<byte>, events: nat, boundary: nat, value: byte)
    requires Reading(body, false, retained, line, events, boundary)
    requires retained + [value] <= body && |retained| < MAX_RESPONSE_BYTES
    ensures Reading(body, false, retained + [value], line, events, boundary)
  {
  }

  lemma StoppedEarly(body: seq<byte>, streamed: bool, retained: seq<byte>, line: seq<byte>, events: nat, boundary: nat)
    requires Reading(body, streamed, retained, line, events, boundary)
    ensures boundary <= |retained|
    ensures Faithful(body, streamed, TruncateStream(retained, streamed, boundary, true), |retained|)
    ensures |retained| == MAX_RESPONSE_BYTES ==> Exact(body, streamed, TruncateStream(retained, streamed, boundary, true))
  {
    var n := |retained|;
    assert body[..n] == retained;
    if streamed {
      LastEndIsAnEnd(body, n);
      EventsGrow(body, LastEnd(body, n), n);
      if n == MAX_RESPONSE_BYTES {
        LastEndIsLongest(body, n);
      }
    }
  }

  lemma ReadToTheEnd(body: seq<byte>, streamed: bool, line: seq<byte>, events: nat, boundary: nat)
    requires |body| < MAX_RESPONSE_BYTES && Reading(body, streamed, body, line, events, boundary)
    ensures boundary <= |body|
    ensures Faithful(body, streamed, TruncateStream(body, streamed, boundary, false), |body|)
    ensures Exact(body, streamed, TruncateStream(body, streamed, boundary, false))
  {
    assert body[..|body|] == body;
    if streamed {
      EventsGrow(body, LastEnd(body, |body|), |body|);
      LastEndIsLongest(body, |body|);
    }
  }

  lemma EventCapReached(body: seq<byte>, retained: seq<byte>)
    requires AtEventCap(body, retained)
    ensures Faithful(body, true, Body(retained, true), |retained|)
    ensures Exact(body, true, Body(retained, true))
  {
    LastEndIsLongest(body, |retained|);
    EventsGrow(body, |retained|, |body|);
  }

  /** The inner loop over the bytes of one read; `full` when the event cap stops it. */
  method Absorb(ghost body: seq<byte>, streamed: bool, chunk: seq<byte>,
                retained0: seq<byte>, line0: seq<byte>, events0: nat, boundary0: nat)
    returns (full: bool, retained: seq<byte>, line: seq<byte>, events: nat, boundary: nat)
    requires Reading(body, streamed, retained0, line0, events0, boundary0)
    requires retained0 + chunk <= body && |retained0| + |chunk| <= MAX_RESPONSE_BYTES
    ensures !full ==> retained == retained0 + chunk && Reading(body, streamed, retained, line, events, boundary)
    ensures full ==> streamed && |retained| <= |retained0| + |chunk| && AtEventCap(body, retained)
  {
    retained, line, events, boundary := retained0, line0, events0, boundary0;
    for k := 0 to |chunk|
      invariant Reading(body, streamed, retained, line, events, boundary)
      invariant |retained| == |retained0| + k
    {
      var value := chunk[k];
      NextByte(body, retained0, chunk, retained, k);
      ghost var before, open := retained, line;
      retained := retained + [value];
      if !streamed {
        TakeUnstreamed(body, before, open, events, boundary, value);
        continue;
      }
      line := line + [value];
      if value != LF {
        TakePlainByte(body, before, open, events, boundary, value);
        continue;
      }
      if !BlankLine(line) {
        TakeLineEnd(body, before, open, events, boundary);
      } else {
        TakeBlankLine(body, before, open, events, boundary);
        events := events + 1;
        boundary := |retained|;
        if events == MAX_SSE_EVENTS {
          return true, retained, line, events, boundary;
        }
      }
      line := [];
    }
    PrefixByLength(body, retained, retained0 + chunk);
    return false, retained, line, events, boundary;
  }

  lemma ReadFollows(body: seq<byte>, retained: seq<byte>, end: nat)
    requires retained <= body && |retained| <= end <= |body|
    ensures retained + body[|retained|..end] <= body
  {
  }

  /** The reader took `consumed` bytes when `reach` had been delivered: all of them, or
      fewer if the event cap stopped it inside the last read. */
  ghost predicate Spent(body: seq<byte>, last: Round, consumed: nat, reach: nat) {
    || consumed == reach
    || (last.Data? && consumed < reach && Events(body, consumed) == MAX_SSE_EVENTS)
  }

  /** How the last round decides the answer. */
  ghost predicate AnswersTo(last: Round, body: seq<byte>, streamed: bool, c: Capture) {
    && (last.Data? ==> Exact(body, streamed, c))
    && (c.TransportError? <==> last.FailedEarly?)
    && (c.Body? && !last.Data? ==> c.truncated)
  }

  /** One round of the loop, after the check for room: it ends with an answer, or with
      more of the body read. */
  method TakeRound(body: seq<byte>, streamed: bool, round: Round,
                   retained0: seq<byte>, line0: seq<byte>, events0: nat, boundary0: nat)
    returns (answer: Option<Capture>, retained: seq<byte>, line: seq<byte>, events: nat, boundary: nat)
    requires Reading(body, streamed, retained0, line0, events0, boundary0) && |retained0| < MAX_RESPONSE_BYTES
    ensures answer.None? ==>
      && Reading(body, streamed, retained, line, events, boundary)
      && round.Data? && |retained0| < |retained| == Further(|body|, |retained0|, round)
    ensures answer.Some? ==>
      && Faithful(body, streamed, answer.value, |retained|)
      && Spent(body, round, |retained|, Further(|body|, |retained0|, round))
      && AnswersTo(round, body, streamed, answer.value)
  {
    retained, line, events, boundary := retained0, line0, events0, boundary0;
    if !round.Data? {
      StoppedEarly(body, streamed, retained, line, events, boundary);
      answer := Some(if round.FailedEarly? then TransportError else TruncateStream(retained, streamed, boundary, true));
      return;
    }
    var size := ReadSize(|body|, |retained|, round.want);
    var chunk := body[|retained|..|retained| + size];
    if chunk == [] {
      ReadToTheEnd(body, streamed, line, events, boundary);
      answer := Some(TruncateStream(retained, streamed, boundary, false));
      return;
    }
    ReadFollows(body, retained, |retained| + size);
    var full;
    full, retained, line, events, boundary := Absorb(body, streamed, chunk, retained, line, events, boundary);
    if full {
      EventCapReached(body, retained);
      answer := Some(Body(retained, true));
    } else {
      answer := None;
    }
  }

  /** For every chunking of the body: if no round is cut short, the capture is the longest
      prefix of whole events within both caps, and is marked complete exactly when the
      whole body fits. If a round is cut short, the capture is still every whole event
      among the bytes the rounds before it delivered, and is marked truncated; only an
      early failure yields none. `used` is the number of rounds gone through. */
  method ReadBounded(body: seq<byte>, streamed: bool, rounds: nat -> Round)
    returns (capture: Capture, ghost consumed: nat, ghost used: nat)
    ensures used > 0 && forall i: nat :: i + 1 < used ==> rounds(i).Data?
    ensures WithinBounds(body, streamed, capture)
    ensures Spent(body, rounds(used - 1), consumed, Delivered(|body|, rounds, used))
    ensures Faithful(body, streamed, capture, consumed)
    ensures AnswersTo(rounds(used - 1), body, streamed, capture)
  {
    var retained: seq<byte>, line: seq<byte> := [], [];
    var events: nat, boundary: nat := 0, 0;
    var i: nat := 0;
    while true
      invariant Reading(body, streamed, retained, line, events, boundary)
      invariant |retained| == Delivered(|body|, rounds, i)
      invariant forall j: nat :: j < i ==> rounds(j).Data?
      decreases |body| - |retained|
    {
      if |retained| == MAX_RESPONSE_BYTES {
        StoppedEarly(body, streamed, retained, line, events, boundary);
        return TruncateStream(retained, streamed, boundary, true), |retained|, i;
      }
      var answer;
      answer, retained, line, events, boundary := TakeRound(body, streamed, rounds(i), retained, line, events, boundary);
      i := i + 1;
      if answer.Some? {
        return answer.value, |retained|, i;
      }
    }
  }
}

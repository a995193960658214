/**
 * Line reassembly in `ReceiveCompleted`: which lines of the buffered bytes
 * are handled, and what is left over. `Lines` and `LinesEnd` say it on the
 * received bytes alone; `BatchLines` shows that the batch handles exactly
 * those lines although each handled line upper-cases its verb in the buffer.
 */
module SmtpLines {
  import opened Common
  import opened Bytes
  import opened Smtp
  import SmtpSessions

  /** The complete lines depend on nothing but the bytes of the region. */
  lemma {:induction false} LinesLocal(buf: seq<byte>, t: seq<byte>, lineBegin: nat, end: nat)
    requires lineBegin <= end <= |buf| && end <= |t| && buf[lineBegin..end] == t[lineBegin..end]
    ensures Lines(buf, lineBegin, end) == Lines(t, lineBegin, end)
    ensures LinesEnd(buf, lineBegin, end) == LinesEnd(t, lineBegin, end)
    decreases end - lineBegin
  {
    hide FirstOccurrence;
    FirstOccurrenceLocal(buf, t, CrLf, lineBegin, end);
    var lineEnd := FirstOccurrence(buf, CrLf, lineBegin, end);
    if lineEnd != -1 {
      var next := lineEnd + |CrLf|;
      assert buf[next..end] == buf[lineBegin..end][next - lineBegin..];
      assert t[next..end] == t[lineBegin..end][next - lineBegin..];
      LinesLocal(buf, t, next, end);
    }
  }

  /** Handling a line writes nothing outside it. */
  lemma StepBufferLocal(s: Session, buf: seq<byte>, begin: nat, count: nat, active: seq<string>, now: Instant)
    requires Inv(s) && 0 < count && begin + count <= |buf|
    ensures var r := Step(s, buf, begin, count, active, now);
      forall k :: 0 <= k < |buf| && !(begin <= k < begin + count) ==> r.buffer[k] == buf[k]
  {
    UpperFirstTokenInLine(buf, begin, count);
  }

  /**
   * The batch hands to `HandleCompleteLine` exactly the complete lines of
   * the received bytes, in order, stops where they end, and leaves the bytes
   * after them as they were received.
   */
  lemma {:induction false} BatchLines(s: Session, buf: seq<byte>, lineBegin: nat, end: nat, active: seq<string>, now: Instant)
    requires Inv(s) && lineBegin <= end <= |buf|
    ensures var r := Batch(s, buf, lineBegin, end, active, now);
      && r.lines == Lines(buf, lineBegin, end)
      && r.consumed == LinesEnd(buf, lineBegin, end)
      && r.buffer[r.consumed..end] == buf[r.consumed..end]
    decreases end - lineBegin
  {
    hide *;
    if FirstOccurrence(buf, CrLf, lineBegin, end) == -1 {
      BatchStops(s, buf, lineBegin, end, active, now);
    } else {
      var next, step := BatchTurn(s, buf, lineBegin, end, active, now);
      StepBufferLocal(s, buf, lineBegin, next - lineBegin, active, now);
      BatchLines(step.session, step.buffer, next, end, active, now);
      assert step.buffer[next..end] == buf[next..end];
      LinesLocal(step.buffer, buf, next, end);
      var rest := Batch(step.session, step.buffer, next, end, active, now);
      assert rest.buffer[rest.consumed..end] == step.buffer[next..end][rest.consumed - next..];
      assert buf[rest.consumed..end] == buf[next..end][rest.consumed - next..];
    }
  }

  /** Every line lies in the region, ends in CRLF and holds no earlier CRLF. */
  lemma {:induction false} LinesTerminated(buf: seq<byte>, lineBegin: nat, end: nat)
    requires lineBegin <= end <= |buf|
    ensures var lines := Lines(buf, lineBegin, end);
      forall i :: 0 <= i < |lines| ==>
        && lineBegin <= lines[i].offset && lines[i].count >= |CrLf| && lines[i].End() <= end
        && OccursAt(buf, CrLf, lines[i].End() - |CrLf|)
        && forall k :: lines[i].offset <= k < lines[i].End() - |CrLf| ==> !OccursAt(buf, CrLf, k)
    decreases end - lineBegin
  {
    hide Lines, LinesEnd, FirstOccurrence;
    FirstOccurrenceIsFirst(buf, CrLf, lineBegin, end);
    if FirstOccurrence(buf, CrLf, lineBegin, end) == -1 {
      LinesStop(buf, lineBegin, end);
    } else {
      var next := LinesTurn(buf, lineBegin, end);
      LinesTerminated(buf, next, end);
      var lines := Lines(buf, lineBegin, end);
      assert forall i :: 0 < i < |lines| ==> lines[i] == Lines(buf, next, end)[i - 1];
    }
  }

  /**
   * The lines follow one another without a gap: the first starts at
   * `lineBegin`, each starts where the previous one ended, and the last ends
   * at `LinesEnd`.
   */
  lemma {:induction false} LinesContiguous(buf: seq<byte>, lineBegin: nat, end: nat)
    requires lineBegin <= end <= |buf|
    ensures var lines, e := Lines(buf, lineBegin, end), LinesEnd(buf, lineBegin, end);
      && (|lines| == 0 ==> e == lineBegin)
      && (|lines| > 0 ==> lines[0].offset == lineBegin && lines[|lines| - 1].End() == e)
      && (forall i :: 0 < i < |lines| ==> lines[i].offset == lines[i - 1].End())
    decreases end - lineBegin
  {
    hide FirstOccurrence;
    var lineEnd := FirstOccurrence(buf, CrLf, lineBegin, end);
    if lineEnd != -1 {
      var next := lineEnd + |CrLf|;
      LinesContiguous(buf, next, end);
      var rest := Lines(buf, next, end);
      var lines := Lines(buf, lineBegin, end);
      assert forall i :: 0 < i < |lines| ==> lines[i] == rest[i - 1];
    }
  }

  /** No CRLF is left in the bytes after the last line. */
  lemma {:induction false} LinesRestHasNoCrLf(buf: seq<byte>, lineBegin: nat, end: nat)
    requires lineBegin <= end <= |buf|
    ensures forall k :: LinesEnd(buf, lineBegin, end) <= k && k + |CrLf| <= end ==> !OccursAt(buf, CrLf, k)
    decreases end - lineBegin
  {
    hide FirstOccurrence;
    FirstOccurrenceIsFirst(buf, CrLf, lineBegin, end);
    var lineEnd := FirstOccurrence(buf, CrLf, lineBegin, end);
    if lineEnd != -1 {
      LinesRestHasNoCrLf(buf, lineEnd + |CrLf|, end);
    }
  }

  /** The lines, put back together, are the received bytes up to `LinesEnd`: each byte is handed on once, in order. */
  lemma {:induction false} LinesCover(buf: seq<byte>, lineBegin: nat, end: nat)
    requires lineBegin <= end <= |buf|
    ensures Flatten(buf, Lines(buf, lineBegin, end)) == buf[lineBegin..LinesEnd(buf, lineBegin, end)]
    decreases end - lineBegin
  {
    hide Lines, LinesEnd, FirstOccurrence;
    if FirstOccurrence(buf, CrLf, lineBegin, end) == -1 {
      LinesStop(buf, lineBegin, end);
    } else {
      var next := LinesTurn(buf, lineBegin, end);
      var lines := Lines(buf, lineBegin, end);
      LinesCover(buf, next, end);
      assert lines[1..] == Lines(buf, next, end);
      assert buf[lineBegin..LinesEnd(buf, next, end)] == buf[lineBegin..next] + buf[next..LinesEnd(buf, next, end)];
    }
  }

  /**
   * What `ReceiveCompleted` keeps at the front of its buffer after a batch:
   * exactly the received bytes after the last complete line, as received.
   */
  lemma LeftoverIsUnconsumedSuffix(s: Session, buf: seq<byte>, end: nat, active: seq<string>, now: Instant)
    requires Inv(s) && end <= |buf|
    ensures var r := Batch(s, buf, 0, end, active, now);
      SmtpSessions.Compacted(r.buffer, r.consumed, end)[..end - r.consumed] == buf[LinesEnd(buf, 0, end)..end]
  {
    BatchLines(s, buf, 0, end, active, now);
  }
}

/**
 * One SMTP session of the MX process: the receive buffer, the protocol state
 * and mail transaction, the replies sent and the hand-off of accepted mail to
 * the dispatcher. Each method runs the source's loops over the buffer and is
 * proved to do what `Step` and `Batch` in smtp_protocol.dfy say.
 */
module SmtpSessions {
  import opened Common
  import opened Text
  import opened Bytes
  import opened Dispatch
  import opened Smtp

  /** The receive buffer's initial capacity: the socket's 8192-byte receive buffer plus 128. */
  const InitialBufferSize: nat := 8192 + 128

  // ---------------------------------------------------------------------------
  // Scans over a line

  /** The MAIL/RCPT address scan over [begin, end). */
  method ScanAddress(data: array<byte>, begin: nat, end: nat) returns (lt: int, gt: int)
    requires begin <= end <= data.Length
    ensures (lt, gt) == AddressLoop(data[..], begin, end, false, -1)
  {
    var go := false;
    lt, gt := -1, -1;
    var i := begin;
    while i < end
      invariant begin <= i <= end && gt == -1
      invariant AddressLoop(data[..], i, end, go, lt) == AddressLoop(data[..], begin, end, false, -1)
    {
      var ch := data[i];
      if go {
        if lt == -1 && ch == LessThan {
          lt := i;
        }
        if lt != -1 && ch == GreaterThan {
          gt := i;
          break;
        }
      } else if ch == SemiColon {
        go := true;
      }
      i := i + 1;
    }
  }

  /** The digit scan after "SIZE=": the index of the value's last digit, or -1. */
  method ScanSizeValue(data: array<byte>, valueBegin: nat, end: nat) returns (valueEnd: int)
    requires valueBegin <= end <= data.Length
    ensures valueEnd == ValueEnd(data[..], valueBegin, end, -1)
  {
    valueEnd := -1;
    var i := valueBegin;
    while i < end
      invariant valueBegin <= i <= end
      invariant ValueEnd(data[..], i, end, valueEnd) == ValueEnd(data[..], valueBegin, end, -1)
    {
      var ch := data[i];
      var digit := Digits(ch);
      if ch in Whitespace {
        break;
      } else if digit > 9 {
        valueEnd := -1;
        break;
      }
      valueEnd := i;
      i := i + 1;
    }
  }

  /** The size accumulation, last digit first, in 32-bit arithmetic. */
  method AccumulateSize(data: array<byte>, valueBegin: nat, valueEnd: nat) returns (size: int)
    requires valueBegin <= valueEnd < data.Length
    ensures size == AccumulateAsWritten(data[valueBegin..valueEnd + 1], valueEnd + 1 - valueBegin, 0, 1)
  {
    ghost var digits := data[valueBegin..valueEnd + 1];
    size := 0;
    var scale := 1;
    var i: int := valueEnd;
    while i >= valueBegin && size < MaximumMessageSize
      invariant valueBegin - 1 <= i <= valueEnd
      invariant AccumulateAsWritten(digits, i + 1 - valueBegin, size, scale)
             == AccumulateAsWritten(digits, valueEnd + 1 - valueBegin, 0, 1)
      decreases i
    {
      assert digits[i - valueBegin] == data[i];
      size := Wrap32(size + Wrap32(Digits(data[i]) as int * scale));
      i := i - 1;
      scale := Wrap32(scale * 10);
    }
  }

  /** The SIZE= scan of a MAIL line whose closing bracket is at `gt`. */
  method ScanSizeParameter(data: array<byte>, begin: nat, count: nat, gt: nat) returns (p: SizeParameter)
    requires begin + count <= data.Length
    ensures p == SizeParameterOf(data[..], begin, count, gt)
  {
    var sizeOffset := OffsetOf(MessageSizeExtension, data, gt + 1, count - gt - 1);
    if sizeOffset == -1 {
      return NoSize;
    }
    var valueBeginOffset := sizeOffset + |MessageSizeExtension|;
    var valueEndOffset := ScanSizeValue(data, valueBeginOffset, begin + count);
    if valueEndOffset >= valueBeginOffset {
      var size := AccumulateSize(data, valueBeginOffset, valueEndOffset);
      p := Declared(size);
    } else {
      p := Malformed;
    }
  }

  /** Whether the region equals one of the eleven known verbs. */
  method IsKnownCommand(data: array<byte>, offset: nat, count: nat) returns (known: bool)
    requires offset + count <= data.Length
    ensures known <==> data[offset..offset + count] in KnownCommands
  {
    known := false;
    for j := 0 to |KnownCommands|
      invariant known <==> data[offset..offset + count] in KnownCommands[..j]
    {
      var same := IsSame(KnownCommands[j], data, offset, count);
      if same {
        known := true;
        assert KnownCommands[..j + 1] == KnownCommands[..j] + [KnownCommands[j]];
        return;
      }
      assert KnownCommands[..j + 1] == KnownCommands[..j] + [KnownCommands[j]];
    }
    assert KnownCommands[..|KnownCommands|] == KnownCommands;
  }

  // ---------------------------------------------------------------------------
  // Receive buffer transformations

  /** The buffer after `received` was copied in at `length`, growing it to the exact size needed if it is too small. */
  function Appended(data: seq<byte>, length: nat, received: seq<byte>): (r: seq<byte>)
    requires length <= |data|
    ensures |r| == if length + |received| > |data| then length + |received| else |data|
    ensures r[..length + |received|] == data[..length] + received
  {
    if length + |received| > |data| then data[..length] + received
    else data[..length] + received + data[length + |received|..]
  }

  /** The buffer after the unconsumed bytes [consumed, end) were moved to the front. */
  function Compacted(data: seq<byte>, consumed: nat, end: nat): (r: seq<byte>)
    requires consumed <= end <= |data|
    ensures |r| == |data| && r[..end - consumed] == data[consumed..end]
  {
    data[consumed..end] + data[end - consumed..]
  }

  /**
   * The line loop of `ReceiveCompleted` as it runs: the replies sent, the
   * mails queued and the lines handled so far are carried along, and the
   * batch ends where no complete line is left.
   */
  function BatchFrom(s: Session, buf: seq<byte>, lineBegin: nat, end: nat, active: seq<string>, now: Instant,
                     replies: seq<Reply>, records: seq<IncomingMail>, lines: seq<Segment>): (r: BatchResult)
    requires Inv(s) && lineBegin <= end <= |buf|
    decreases end - lineBegin
  {
    var lineEnd := FirstOccurrence(buf, CrLf, lineBegin, end);
    if lineBegin < end && lineEnd > -1 then
      var next := lineEnd + |CrLf|;
      var step := Step(s, buf, lineBegin, next - lineBegin, active, now);
      BatchFrom(step.session, step.buffer, next, end, active, now,
                replies + OptionToSeq(step.reply), records + OptionToSeq(step.record),
                lines + [Segment(lineBegin, next - lineBegin)])
    else
      BatchResult(s, buf, lineBegin, replies, records, lines)
  }

  /** One turn of the running loop: the line up to the first CRLF is handled. */
  lemma BatchFromStep(s: Session, buf: seq<byte>, lineBegin: nat, end: nat, active: seq<string>, now: Instant,
                      replies: seq<Reply>, records: seq<IncomingMail>, lines: seq<Segment>, lineEnd: nat)
    requires Inv(s) && lineBegin < end <= |buf|
    requires FirstOccurrence(buf, CrLf, lineBegin, end) != -1
    requires lineEnd == FirstOccurrence(buf, CrLf, lineBegin, end) + |CrLf|
    ensures var step := Step(s, buf, lineBegin, lineEnd - lineBegin, active, now);
      BatchFrom(s, buf, lineBegin, end, active, now, replies, records, lines)
        == BatchFrom(step.session, step.buffer, lineEnd, end, active, now,
                     replies + OptionToSeq(step.reply), records + OptionToSeq(step.record),
                     lines + [Segment(lineBegin, lineEnd - lineBegin)])
  {
    hide Step, FirstOccurrence, Batch, Inv;
  }

  /** The running loop stops where no complete line is left. */
  lemma BatchFromStop(s: Session, buf: seq<byte>, lineBegin: nat, end: nat, active: seq<string>, now: Instant,
                      replies: seq<Reply>, records: seq<IncomingMail>, lines: seq<Segment>)
    requires Inv(s) && lineBegin <= end <= |buf|
    requires lineBegin == end || FirstOccurrence(buf, CrLf, lineBegin, end) == -1
    ensures BatchFrom(s, buf, lineBegin, end, active, now, replies, records, lines)
      == BatchResult(s, buf, lineBegin, replies, records, lines)
  {
  }

  /** The running loop ends with what it carried followed by the batch's own output. */
  lemma {:induction false} BatchFromIsBatch(s: Session, buf: seq<byte>, lineBegin: nat, end: nat,
                                            active: seq<string>, now: Instant,
                                            replies: seq<Reply>, records: seq<IncomingMail>, lines: seq<Segment>)
    requires Inv(s) && lineBegin <= end <= |buf|
    ensures var r := Batch(s, buf, lineBegin, end, active, now);
      BatchFrom(s, buf, lineBegin, end, active, now, replies, records, lines)
        == r.(replies := replies + r.replies, records := records + r.records, lines := lines + r.lines)
    decreases end - lineBegin
  {
    hide *;
    if lineBegin == end || FirstOccurrence(buf, CrLf, lineBegin, end) == -1 {
      BatchFromStop(s, buf, lineBegin, end, active, now, replies, records, lines);
      if lineBegin < end {
        BatchStops(s, buf, lineBegin, end, active, now);
      } else {
        BatchEmpty(s, buf, lineBegin, active, now);
      }
    } else {
      var next, step := BatchTurn(s, buf, lineBegin, end, active, now);
      BatchFromStep(s, buf, lineBegin, end, active, now, replies, records, lines, next);
      var seg := Segment(lineBegin, next - lineBegin);
      BatchFromIsBatch(step.session, step.buffer, next, end, active, now,
                       replies + OptionToSeq(step.reply), records + OptionToSeq(step.record), lines + [seg]);
      var rest := Batch(step.session, step.buffer, next, end, active, now);
      assert replies + OptionToSeq(step.reply) + rest.replies == replies + (OptionToSeq(step.reply) + rest.replies);
      assert records + OptionToSeq(step.record) + rest.records == records + (OptionToSeq(step.record) + rest.records);
      assert lines + [seg] + rest.lines == lines + ([seg] + rest.lines);
    }
  }


  // ---------------------------------------------------------------------------
  // The session

  class SmtpSession {
    const dispatcher: MailDispatcher
    /** The bracketed local address the replies name. */
    const serverName: string
    const utcCreationTime: Instant

    /**
     * The protocol state and the mail transaction: `_state`, `_sender`,
     * `_lastRecipient`, `_mailContent`, `_mailContentId`,
     * `_mailContentExpectedSize`, and the count of identifiers drawn.
     */
    var session: Session
    var isAborting: bool
    var isAlive: bool
    /** Received bytes not yet handled are `bufferedData[..bufferedDataLength]`. */
    var bufferedData: array<byte>
    var bufferedDataLength: nat
    /** Every reply sent on the socket, in order. */
    var sent: seq<Reply>
    /** How many times the server was told that this session terminated. */
    ghost var notifications: nat

    ghost predicate Valid()
      reads this, dispatcher
    {
      && dispatcher.Valid()
      && bufferedDataLength <= bufferedData.Length
      && (!isAborting ==> Inv(session))
      && isAlive == !isAborting
      && notifications == (if isAborting then 1 else 0)
    }

    /** A new session greets the client and waits for HELO or EHLO. */
    constructor (dispatcher: MailDispatcher, serverName: string, now: Instant)
      requires dispatcher.Valid()
      ensures Valid()
      ensures this.dispatcher == dispatcher && this.serverName == serverName && utcCreationTime == now
      ensures session == Initial && !isAborting && isAlive
      ensures fresh(bufferedData) && bufferedData.Length == InitialBufferSize && bufferedDataLength == 0
      ensures sent == [Greeting]
    {
      this.dispatcher := dispatcher;
      this.serverName := serverName;
      utcCreationTime := now;
      session := Initial;
      isAborting := false;
      bufferedData := new byte[InitialBufferSize];
      bufferedDataLength := 0;
      isAlive := true;
      sent := [Greeting];
      notifications := 0;
    }

    method ResetMailInfo()
      modifies this`session
      ensures session == Smtp.ResetMailInfo(old(session))
    {
      session := session.(sender := None, lastRecipient := None);
      if session.mailContent.Some? {
        session := session.(mailContent := None);
      }
      session := session.(mailContentId := EmptyGuid, mailContentExpectedSize := -1);
    }

    /**
     * Ends the session once: the first call marks it dead, forgets the mail
     * transaction and notifies the server; later calls do nothing.
     */
    method Abort()
      requires Valid()
      modifies this`isAlive, this`isAborting, this`session, this`notifications
      ensures Valid()
      ensures isAborting && !isAlive && notifications == 1
      ensures session == if old(isAborting) then old(session) else Smtp.ResetMailInfo(old(session))
    {
      var notify := false;
      if !isAborting {
        notify := true;
        isAlive := false;
        isAborting := true;
        ResetMailInfo();
      }
      if notify {
        notifications := notifications + 1;
      }
    }

    method Send(reply: Reply)
      modifies this`sent
      ensures sent == old(sent) + [reply]
    {
      sent := sent + [reply];
    }

    // -------------------------------------------------------------------------
    // HandleCompleteLine, branch by branch: each returns the response to send

    /** MAIL FROM: the sender between the brackets, then the optional SIZE= value. */
    method HandleMail(begin: nat, count: nat, ghost buf: seq<byte>) returns (response: Reply)
      requires Inv(session) && session.state == WaitingForMailFrom
      requires begin + count <= bufferedData.Length && bufferedData[..] == buf
      modifies this`session
      ensures Mail(old(session), buf, begin, count) == Effect(session, Some(response), None)
    {
      hide AddressLoop, AddressScan, SizeParameterOf, AddressText, Inv;
      var lt, gt := ScanAddress(bufferedData, begin, begin + count);
      AddressLoopIsScan(buf, begin, begin + count);
      if lt == -1 || gt == -1 {
        return SyntaxErrorMail;
      }
      var address := AddressText(bufferedData[..], Brackets(lt, gt));
      var size := ScanSizeParameter(bufferedData, begin, count, gt);
      session := session.(sender := Some(address));
      match size
      case NoSize =>
        response := Ok;
        session := session.(state := WaitingForRcptTo);
      case Malformed =>
        response := SyntaxErrorMail;
      case Declared(n) =>
        if n > MaximumMessageSize {
          response := MessageSizeTooBig;
          session := session.(state := WaitingForRset);
        } else {
          session := session.(mailContentExpectedSize := n);
          response := Ok;
          session := session.(state := WaitingForRcptTo);
        }
    }

    /** RCPT TO: the recipient between the brackets, lower-cased, if its mailbox is active. */
    method HandleRcpt(begin: nat, count: nat, ghost buf: seq<byte>) returns (response: Reply)
      requires Inv(session) && session.state in {WaitingForRcptTo, WaitingForAdditionalRcptTo} && dispatcher.Valid()
      requires begin + count <= bufferedData.Length && bufferedData[..] == buf
      modifies this`session
      ensures Rcpt(old(session), buf, begin, count, dispatcher.activeMailBoxCache) == Effect(session, Some(response), None)
    {
      hide AddressLoop, AddressScan, AddressText, Inv;
      var lt, gt := ScanAddress(bufferedData, begin, begin + count);
      AddressLoopIsScan(buf, begin, begin + count);
      if lt != -1 && gt != -1 {
        var recipient := ToLower(AddressText(bufferedData[..], Brackets(lt, gt)));
        var active := dispatcher.IsMailboxActive(recipient);
        if active {
          session := session.(lastRecipient := Some(recipient));
          response := Ok;
          session := session.(state := WaitingForAdditionalRcptTo);
        } else {
          response := NoSuchUserHere;
        }
      } else {
        response := SyntaxErrorRcpt;
      }
    }

    /** DATA: opens a content file under a new identifier unless one is open. */
    method HandleData() returns (response: Reply)
      requires Inv(session) && session.state == WaitingForAdditionalRcptTo
      modifies this`session
      ensures Data(old(session)) == Effect(session, Some(response), None)
    {
      response := StartMail;
      if session.mailContent.None? {
        var id := session.guidsIssued + 1;
        session := session.(guidsIssued := id, mailContentId := id, mailContent := Some([]));
      }
      session := session.(state := WaitingForEndOfData);
    }

    /** A line of the message body: the end-of-mail line hands the record to the dispatcher. */
    method HandleBodyLine(begin: nat, count: nat, now: Instant, ghost buf: seq<byte>) returns (response: Option<Reply>)
      requires Inv(session) && session.state == WaitingForEndOfData && dispatcher.Valid()
      requires 0 < count && begin + count <= bufferedData.Length && bufferedData[..] == buf
      modifies this`session, dispatcher
      ensures dispatcher.Valid() && dispatcher.activeMailBoxCache == old(dispatcher.activeMailBoxCache)
      ensures var e := Body(old(session), buf, begin, count, now);
        && e.session == session && e.reply == response
        && dispatcher.queue == old(dispatcher.queue) + OptionToSeq(e.record)
    {
      var isEnd := false;
      if count == |EndOfMail| {
        isEnd := StartsWith(EndOfMail, bufferedData, begin, count);
      }
      if isEnd {
        // `Inv` bounds the content by the maximum, so the oversized branch of the source is not reachable here.
        var content := session.mailContent.value;
        response := Some(Ok);
        dispatcher.Enqueue(IncomingMail(now, session.lastRecipient.value, session.sender.value, |content|, session.mailContentId));
        session := session.(mailContent := None);
        ResetMailInfo();
        session := session.(state := WaitingForMailFrom);
      } else {
        var offset := begin;
        var length := count;
        if bufferedData[offset] == Dot {
          offset := offset + 1;
          length := length - 1;
        }
        response := None;
        if session.mailContent.Some? && |session.mailContent.value| + length <= MaximumMessageSize {
          session := session.(mailContent := Some(session.mailContent.value + bufferedData[offset..offset + length]));
        }
      }
    }

    /** The dispatch chain once the verb [cmdOffset, cmdOffset + cmdCount) and the token count are known. */
    method Execute(begin: nat, count: nat, cmdOffset: nat, cmdCount: nat, tokenCount: nat, now: Instant, ghost buf: seq<byte>)
      returns (response: Option<Reply>)
      requires Inv(session) && dispatcher.Valid()
      requires 0 < count && begin + count <= bufferedData.Length && cmdOffset + cmdCount <= bufferedData.Length
      requires bufferedData[..] == buf
      requires session.state == WaitingForEndOfData ==> cmdCount == 0
      modifies this`session, dispatcher
      ensures dispatcher.Valid() && dispatcher.activeMailBoxCache == old(dispatcher.activeMailBoxCache)
      ensures var e := Command(old(session), buf, begin, count, buf[cmdOffset..cmdOffset + cmdCount], tokenCount,
                               old(dispatcher.activeMailBoxCache), now);
        && e.session == session && e.reply == response
        && dispatcher.queue == old(dispatcher.queue) + OptionToSeq(e.record)
    {
      hide Mail, Rcpt, Data, Body, AnyStateCommand;
      var isRset := IsSame(RSET, bufferedData, cmdOffset, cmdCount);
      var isEhlo := IsSame(EHLO, bufferedData, cmdOffset, cmdCount);
      var isHelo := IsSame(HELO, bufferedData, cmdOffset, cmdCount);
      var isMail := IsSame(MAIL, bufferedData, cmdOffset, cmdCount);
      var isRcpt := IsSame(RCPT, bufferedData, cmdOffset, cmdCount);
      var isData := IsSame(DATA, bufferedData, cmdOffset, cmdCount);
      var state := session.state;
      if isRset {
        if tokenCount == 1 {
          ResetMailInfo();
          response := Some(Ok);
          session := session.(state := WaitingForHelo);
        } else {
          response := Some(SyntaxErrorRset);
        }
      } else if state == WaitingForHelo && isEhlo {
        if tokenCount == 2 {
          response := Some(Ehlo);
          session := session.(state := WaitingForMailFrom);
        } else {
          response := Some(SyntaxErrorEhlo);
        }
      } else if state == WaitingForHelo && isHelo {
        if tokenCount == 2 {
          response := Some(Helo);
          session := session.(state := WaitingForMailFrom);
        } else {
          response := Some(SyntaxErrorHelo);
        }
      } else if state == WaitingForMailFrom && isMail {
        var r := HandleMail(begin, count, buf);
        response := Some(r);
      } else if (state == WaitingForRcptTo || state == WaitingForAdditionalRcptTo) && isRcpt {
        var r := HandleRcpt(begin, count, buf);
        response := Some(r);
      } else if state == WaitingForAdditionalRcptTo && isData {
        if tokenCount == 1 {
          var r := HandleData();
          response := Some(r);
        } else {
          response := Some(SyntaxErrorData);
        }
      } else if state == WaitingForEndOfData {
        response := HandleBodyLine(begin, count, now, buf);
      } else {
        response := ExecuteAnyState(cmdOffset, cmdCount, tokenCount, buf);
      }
    }

    /** The verbs accepted in any state other than the body, then 503 for a known verb and 500 for the rest. */
    method ExecuteAnyState(cmdOffset: nat, cmdCount: nat, tokenCount: nat, ghost buf: seq<byte>) returns (response: Option<Reply>)
      requires Inv(session) && cmdOffset + cmdCount <= bufferedData.Length && bufferedData[..] == buf
      modifies this`session
      ensures var e := AnyStateCommand(old(session), buf[cmdOffset..cmdOffset + cmdCount], tokenCount);
        e.session == session && e.reply == response && e.record.None?
    {
      var isQuit := IsSame(QUIT, bufferedData, cmdOffset, cmdCount);
      var isVrfy := IsSame(VRFY, bufferedData, cmdOffset, cmdCount);
      var isExpn := IsSame(EXPN, bufferedData, cmdOffset, cmdCount);
      var isHelp := IsSame(HELP, bufferedData, cmdOffset, cmdCount);
      var isNoop := IsSame(NOOP, bufferedData, cmdOffset, cmdCount);
      if isQuit {
        if tokenCount == 1 {
          ResetMailInfo();
          response := Some(Bye);
          session := session.(state := Disconnect);
        } else {
          response := Some(SyntaxErrorQuit);
        }
      } else if isVrfy || isExpn {
        response := Some(CommandNotImplemented);
      } else if isHelp {
        response := Some(Help);
      } else if isNoop {
        response := Some(Ok);
      } else {
        var isKnownCommand := IsKnownCommand(bufferedData, cmdOffset, cmdCount);
        response := Some(if isKnownCommand then BadSequence else UnknownCommand);
      }
    }

    /** Handles the complete line [begin, begin + count) of the receive buffer. */
    method HandleCompleteLine(begin: nat, count: nat, now: Instant)
      requires Inv(session) && dispatcher.Valid()
      requires 0 < count && begin + count <= bufferedData.Length
      modifies this`session, this`sent, bufferedData, dispatcher
      ensures dispatcher.Valid() && dispatcher.activeMailBoxCache == old(dispatcher.activeMailBoxCache)
      ensures var r := Step(old(session), old(bufferedData[..]), begin, count, old(dispatcher.activeMailBoxCache), now);
        && session == r.session && sent == old(sent) + OptionToSeq(r.reply)
        && dispatcher.queue == old(dispatcher.queue) + OptionToSeq(r.record)
        && bufferedData[..] == r.buffer
    {
      hide Command;
      ghost var buf := bufferedData[..];
      var cmdOffset, cmdCount := 0, 0;
      var tokenCount := 0;
      if session.state != WaitingForEndOfData {
        var tokens := Split(bufferedData, begin, count, Whitespace);
        assert tokens == LineTokens(buf, begin, count);
        tokenCount := |tokens|;
        if |tokens| > 0 {
          assert tokens[0].End() <= begin + count;
          ToUpper(bufferedData, tokens[0].offset, tokens[0].count);
          cmdOffset, cmdCount := tokens[0].offset, tokens[0].count;
        }
        assert bufferedData[..] == UpperFirstToken(buf, begin, count);
        assert bufferedData[..][cmdOffset..cmdOffset + cmdCount] == Verb(buf, begin, count);
      }
      var response := Execute(begin, count, cmdOffset, cmdCount, tokenCount, now, bufferedData[..]);
      if response.Some? {
        Send(response.value);
      }
    }

    // -------------------------------------------------------------------------
    // ReceiveCompleted

    /** Copies the received bytes behind the buffered ones, first growing the buffer to the exact size if it is too small. */
    method Append(received: seq<byte>)
      requires bufferedDataLength <= bufferedData.Length
      modifies this`bufferedData, this`bufferedDataLength, bufferedData
      ensures bufferedDataLength <= bufferedData.Length
      ensures bufferedData[..] == Appended(old(bufferedData[..]), old(bufferedDataLength), received)
      ensures bufferedDataLength == old(bufferedDataLength) + |received|
      ensures bufferedData == old(bufferedData) || fresh(bufferedData)
    {
      ghost var before := bufferedData[..];
      if bufferedDataLength + |received| > bufferedData.Length {
        var realloc := new byte[bufferedDataLength + |received|];
        forall k | 0 <= k < bufferedDataLength {
          realloc[k] := bufferedData[k];
        }
        bufferedData := realloc;
      }
      forall k | 0 <= k < |received| {
        bufferedData[bufferedDataLength + k] := received[k];
      }
      assert bufferedData[..] == Appended(before, bufferedDataLength, received);
      bufferedDataLength := bufferedDataLength + |received|;
    }

    /** The line loop: handles every complete line of the buffered bytes; returns where the rest begins. */
    method HandleLines(now: Instant) returns (lineBegin: nat)
      requires Inv(session) && dispatcher.Valid() && bufferedDataLength <= bufferedData.Length
      modifies this`session, this`sent, bufferedData, dispatcher
      ensures dispatcher.Valid() && dispatcher.activeMailBoxCache == old(dispatcher.activeMailBoxCache)
      ensures var r := Batch(old(session), old(bufferedData[..]), 0, bufferedDataLength,
                             old(dispatcher.activeMailBoxCache), now);
        && session == r.session && bufferedData[..] == r.buffer && lineBegin == r.consumed
        && sent == old(sent) + r.replies
        && dispatcher.queue == old(dispatcher.queue) + r.records
    {
      ghost var cache := dispatcher.activeMailBoxCache;
      ghost var lines: seq<Segment> := [];
      ghost var total := BatchFrom(session, bufferedData[..], 0, bufferedDataLength, cache, now, sent, dispatcher.queue, lines);
      BatchFromIsBatch(session, bufferedData[..], 0, bufferedDataLength, cache, now, sent, dispatcher.queue, lines);
      hide BatchFrom, Batch;
      lineBegin := 0;
      var remaining: nat := bufferedDataLength;
      while true
        invariant Inv(session)
        invariant dispatcher.Valid() && dispatcher.activeMailBoxCache == cache
        invariant lineBegin + remaining == bufferedDataLength <= bufferedData.Length
        invariant BatchFrom(session, bufferedData[..], lineBegin, bufferedDataLength, cache, now, sent, dispatcher.queue, lines) == total
        decreases remaining
      {
        if remaining == 0 {
          BatchFromStop(session, bufferedData[..], lineBegin, bufferedDataLength, cache, now, sent, dispatcher.queue, lines);
          break;
        }
        var lineEnd := HandleNextLine(lineBegin, remaining, now, lines);
        if lineEnd <= -1 {
          break;
        }
        lines := lines + [Segment(lineBegin, lineEnd - lineBegin)];
        remaining := remaining - (lineEnd - lineBegin);
        lineBegin := lineEnd;
      }
    }

    /**
     * One turn of the line loop: the line up to the first CRLF after `lineBegin`
     * is handled and the offset after its CRLF returned; -1 when there is none.
     */
    method HandleNextLine(lineBegin: nat, remaining: nat, now: Instant, ghost lines: seq<Segment>) returns (lineEnd: int)
      requires Inv(session) && dispatcher.Valid()
      requires 0 < remaining && lineBegin + remaining == bufferedDataLength <= bufferedData.Length
      modifies this`session, this`sent, bufferedData, dispatcher
      ensures dispatcher.Valid() && dispatcher.activeMailBoxCache == old(dispatcher.activeMailBoxCache)
      ensures Inv(session)
      ensures lineEnd == -1 || lineBegin < lineEnd <= bufferedDataLength
      ensures lineEnd == -1 ==>
        BatchFrom(old(session), old(bufferedData[..]), lineBegin, bufferedDataLength,
                  old(dispatcher.activeMailBoxCache), now, old(sent), old(dispatcher.queue), lines)
          == BatchResult(old(session), old(bufferedData[..]), lineBegin, old(sent), old(dispatcher.queue), lines)
      ensures lineEnd == -1 ==>
        && session == old(session) && sent == old(sent)
        && bufferedData[..] == old(bufferedData[..]) && dispatcher.queue == old(dispatcher.queue)
      ensures lineEnd != -1 ==>
        BatchFrom(old(session), old(bufferedData[..]), lineBegin, bufferedDataLength,
                  old(dispatcher.activeMailBoxCache), now, old(sent), old(dispatcher.queue), lines)
          == BatchFrom(session, bufferedData[..], lineEnd, bufferedDataLength,
                       dispatcher.activeMailBoxCache, now, sent, dispatcher.queue,
                       lines + [Segment(lineBegin, lineEnd - lineBegin)])
    {
      hide Step, BatchFrom, Batch, FirstOccurrence, Inv;
      ghost var buf := bufferedData[..];
      lineEnd := OffsetOf(CrLf, bufferedData, lineBegin, remaining);
      if lineEnd <= -1 {
        BatchFromStop(session, buf, lineBegin, bufferedDataLength, dispatcher.activeMailBoxCache, now,
                      sent, dispatcher.queue, lines);
        return -1;
      }
      lineEnd := lineEnd + |CrLf|;
      BatchFromStep(session, buf, lineBegin, bufferedDataLength, dispatcher.activeMailBoxCache, now,
                    sent, dispatcher.queue, lines, lineEnd);
      HandleCompleteLine(lineBegin, lineEnd - lineBegin, now);
    }

    /** Moves the `remaining` unhandled bytes at `lineBegin` to the front of the buffer. */
    method Compact(lineBegin: nat, remaining: nat)
      requires lineBegin + remaining <= bufferedData.Length
      modifies bufferedData, this`bufferedDataLength
      ensures bufferedData[..] == Compacted(old(bufferedData[..]), lineBegin, lineBegin + remaining)
      ensures bufferedDataLength == remaining
    {
      var data := bufferedData;
      ghost var before := data[..];
      for k := 0 to remaining
        invariant forall j :: 0 <= j < k ==> data[j] == before[lineBegin + j]
        invariant forall j :: k <= j < data.Length ==> data[j] == before[j]
      {
        data[k] := data[lineBegin + k];
      }
      assert data[..] == Compacted(before, lineBegin, lineBegin + remaining);
      bufferedDataLength := remaining;
    }

    /**
     * The completion of one receive: a socket error does nothing, zero bytes
     * (the peer closed) aborts, and otherwise the bytes are buffered, every
     * complete line is handled, the rest is kept at the buffer's front, and
     * the session is aborted if a line asked to disconnect.
     */
    method ReceiveCompleted(socketOk: bool, received: seq<byte>, now: Instant)
      requires Valid()
      requires isAborting ==> !socketOk || |received| == 0
      modifies this`session, this`sent, this`bufferedData, this`bufferedDataLength, bufferedData, dispatcher
      modifies this`isAlive, this`isAborting, this`notifications
      ensures Valid()
      ensures dispatcher.activeMailBoxCache == old(dispatcher.activeMailBoxCache)
      ensures !socketOk ==>
        && session == old(session) && isAborting == old(isAborting) && sent == old(sent)
        && bufferedData == old(bufferedData) && bufferedData[..] == old(bufferedData[..])
        && bufferedDataLength == old(bufferedDataLength) && dispatcher.queue == old(dispatcher.queue)
      ensures socketOk && |received| == 0 ==>
        && isAborting && !isAlive && notifications == 1
        && session == (if old(isAborting) then old(session) else Smtp.ResetMailInfo(old(session)))
        && sent == old(sent) && dispatcher.queue == old(dispatcher.queue)
        && bufferedData == old(bufferedData) && bufferedDataLength == old(bufferedDataLength)
      ensures socketOk && |received| > 0 ==>
        var end := old(bufferedDataLength) + |received|;
        var r := Batch(old(session), Appended(old(bufferedData[..]), old(bufferedDataLength), received), 0, end,
                       old(dispatcher.activeMailBoxCache), now);
        && bufferedDataLength == end - r.consumed
        && bufferedData[..] == Compacted(r.buffer, r.consumed, end)
        && sent == old(sent) + r.replies
        && dispatcher.queue == old(dispatcher.queue) + r.records
        && isAborting == (r.session.state == Disconnect)
        && session == (if r.session.state == Disconnect then Smtp.ResetMailInfo(r.session) else r.session)
    {
      hide Batch, Step, Appended, Compacted;
      if !socketOk {
        return;
      }
      if |received| == 0 {
        Abort();
      } else {
        Append(received);
        var lineBegin := HandleLines(now);
        Compact(lineBegin, bufferedDataLength - lineBegin);
        if session.state == Disconnect {
          Abort();
        }
      }
    }
  }
}

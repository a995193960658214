/**
 * What `HandleCompleteLine` does with one line, command by command, stated
 * on `Step`: the verb is the line's first token compared without regard to
 * case, the argument count is the number of tokens, and the effect is the
 * reply, the new session and the record enqueued.
 */
module SmtpCommands {
  import opened Common
  import opened Text
  import opened Bytes
  import opened Smtp

  /** A complete line of the buffer handled in a session that keeps its invariant. */
  predicate Handled(s: Session, buf: seq<byte>, begin: nat, count: nat) {
    Inv(s) && 0 < count && begin + count <= |buf|
  }

  /** The number of tokens on the line: the verb and its arguments. */
  function TokenCount(buf: seq<byte>, begin: nat, count: nat): nat
    requires begin + count <= |buf|
  {
    |LineTokens(buf, begin, count)|
  }

  /** Outside the body a line is dispatched on its verb and token count, in the buffer with the verb upper-cased. */
  lemma StepDispatches(s: Session, buf: seq<byte>, begin: nat, count: nat, active: seq<string>, now: Instant)
    requires Handled(s, buf, begin, count) && s.state != WaitingForEndOfData
    ensures var r, upper := Step(s, buf, begin, count, active, now), UpperFirstToken(buf, begin, count);
      var e := Command(s, upper, begin, count, Verb(buf, begin, count), TokenCount(buf, begin, count), active, now);
      r == StepResult(e.session, e.reply, e.record, upper)
  {
  }

  // ---------------------------------------------------------------------------
  // Commands that do not look past their verb

  /**
   * RSET, in every state but the body: alone on its line it forgets the
   * mail transaction, replies 250 and waits for HELO again; with arguments
   * it replies 501 and changes nothing.
   */
  lemma StepRset(s: Session, buf: seq<byte>, begin: nat, count: nat, active: seq<string>, now: Instant)
    requires Handled(s, buf, begin, count) && s.state != WaitingForEndOfData
    requires Verb(buf, begin, count) == RSET
    ensures var r := Step(s, buf, begin, count, active, now);
      && r.record.None?
      && (TokenCount(buf, begin, count) == 1 ==>
            r.session == ResetMailInfo(s).(state := WaitingForHelo) && r.reply == Some(Ok) && r.reply.value.Code() == 250)
      && (TokenCount(buf, begin, count) != 1 ==>
            r.session == s && r.reply == Some(SyntaxErrorRset) && r.reply.value.Code() == 501)
  {
    hide Step, Mail, Rcpt, Body, Verb, TokenCount, UpperFirstToken;
    StepDispatches(s, buf, begin, count, active, now);
  }

  /**
   * HELO and EHLO, while waiting for them, are accepted with exactly one
   * argument, answer 250 and move on to MAIL; with any other argument count
   * they answer 501 and change nothing. In any other state they are out of
   * sequence, which `StepUnhandled` states.
   */
  lemma StepGreeting(s: Session, buf: seq<byte>, begin: nat, count: nat, active: seq<string>, now: Instant)
    requires Handled(s, buf, begin, count) && s.state == WaitingForHelo
    requires Verb(buf, begin, count) == HELO || Verb(buf, begin, count) == EHLO
    ensures var r := Step(s, buf, begin, count, active, now);
      && r.record.None? && r.reply.Some?
      && (r.reply.value.Code() == 250 <==> TokenCount(buf, begin, count) == 2)
      && (TokenCount(buf, begin, count) == 2 ==>
            r.session == s.(state := WaitingForMailFrom)
            && r.reply == Some(if Verb(buf, begin, count) == HELO then Helo else Ehlo))
      && (TokenCount(buf, begin, count) != 2 ==> r.session == s && r.reply.value.Code() == 501)
  {
    hide Step, Mail, Rcpt, Body, AnyStateCommand, Verb, TokenCount, UpperFirstToken;
    StepDispatches(s, buf, begin, count, active, now);
  }

  /**
   * DATA with no argument after an accepted recipient opens a new, empty
   * content file under a fresh identifier, replies 354 and receives the
   * body; with arguments it replies 501 and changes nothing. Before a
   * recipient it is out of sequence, which `StepUnhandled` states.
   */
  lemma StepData(s: Session, buf: seq<byte>, begin: nat, count: nat, active: seq<string>, now: Instant)
    requires Handled(s, buf, begin, count) && s.state == WaitingForAdditionalRcptTo
    requires Verb(buf, begin, count) == DATA
    ensures var r := Step(s, buf, begin, count, active, now);
      && r.record.None?
      && (TokenCount(buf, begin, count) == 1 ==>
            && r.reply == Some(StartMail) && r.reply.value.Code() == 354
            && r.session.state == WaitingForEndOfData
            && r.session.mailContent == Some([])
            && r.session.mailContentId == s.guidsIssued + 1 && r.session.guidsIssued == s.guidsIssued + 1
            && r.session.sender == s.sender && r.session.lastRecipient == s.lastRecipient)
      && (TokenCount(buf, begin, count) != 1 ==> r.session == s && r.reply == Some(SyntaxErrorData))
  {
    hide Step, Mail, Rcpt, Body, AnyStateCommand, Verb, TokenCount, UpperFirstToken;
    StepDispatches(s, buf, begin, count, active, now);
  }

  /** QUIT alone replies 221, forgets the transaction and disconnects; with arguments it replies 501. */
  lemma StepQuit(s: Session, buf: seq<byte>, begin: nat, count: nat, active: seq<string>, now: Instant)
    requires Handled(s, buf, begin, count) && s.state != WaitingForEndOfData
    requires Verb(buf, begin, count) == QUIT
    ensures var r := Step(s, buf, begin, count, active, now);
      && r.record.None?
      && (TokenCount(buf, begin, count) == 1 ==>
            r.session == ResetMailInfo(s).(state := Disconnect) && r.reply == Some(Bye) && r.reply.value.Code() == 221)
      && (TokenCount(buf, begin, count) != 1 ==> r.session == s && r.reply == Some(SyntaxErrorQuit))
  {
    hide Step, Mail, Rcpt, Body, Verb, TokenCount, UpperFirstToken;
    StepDispatches(s, buf, begin, count, active, now);
  }

  /** Whether the verb has a handler in the current state. */
  predicate HandledHere(state: SmtpState, verb: seq<byte>) {
    verb in [RSET, QUIT, VRFY, EXPN, HELP, NOOP] || HandledInState(state, verb)
  }

  /** Whether the verb has a handler that only the current state enables. */
  predicate HandledInState(state: SmtpState, verb: seq<byte>) {
    || (state == WaitingForHelo && (verb == HELO || verb == EHLO))
    || (state == WaitingForMailFrom && verb == MAIL)
    || ((state == WaitingForRcptTo || state == WaitingForAdditionalRcptTo) && verb == RCPT)
    || (state == WaitingForAdditionalRcptTo && verb == DATA)
  }

  /**
   * A verb with no handler in the current state changes nothing and replies
   * 503 when it is a known SMTP verb and 500 otherwise, a blank line
   * included.
   */
  lemma StepUnhandled(s: Session, buf: seq<byte>, begin: nat, count: nat, active: seq<string>, now: Instant)
    requires Handled(s, buf, begin, count) && s.state != WaitingForEndOfData
    requires !HandledHere(s.state, Verb(buf, begin, count))
    ensures var r := Step(s, buf, begin, count, active, now);
      && r.session == s && r.record.None?
      && r.reply == Some(if Verb(buf, begin, count) in KnownCommands then BadSequence else UnknownCommand)
      && r.reply.value.Code() == (if Verb(buf, begin, count) in KnownCommands then 503 else 500)
  {
    hide Step, Command, AnyStateCommand, Verb, TokenCount, UpperFirstToken;
    var cmd, n := Verb(buf, begin, count), TokenCount(buf, begin, count);
    StepDispatches(s, buf, begin, count, active, now);
    CommandFallsThrough(s, UpperFirstToken(buf, begin, count), begin, count, cmd, n, active, now);
    AnyStateTail(s, cmd, n);
  }

  /** A verb with no handler of its own in the current state reaches the tail of the chain. */
  lemma CommandFallsThrough(s: Session, buf: seq<byte>, begin: nat, count: nat, cmd: seq<byte>, tokenCount: nat,
                            active: seq<string>, now: Instant)
    requires Handled(s, buf, begin, count) && s.state != WaitingForEndOfData
    requires cmd != RSET && !HandledInState(s.state, cmd)
    ensures Command(s, buf, begin, count, cmd, tokenCount, active, now) == AnyStateCommand(s, cmd, tokenCount)
  {
    hide Mail, Rcpt, Body, AnyStateCommand;
  }

  /** The tail of the chain answers a verb it has no handler for with 503 or 500 and changes nothing. */
  lemma AnyStateTail(s: Session, cmd: seq<byte>, tokenCount: nat)
    requires Inv(s) && cmd !in [QUIT, VRFY, EXPN, HELP, NOOP]
    ensures AnyStateCommand(s, cmd, tokenCount)
      == Effect(s, Some(if cmd in KnownCommands then BadSequence else UnknownCommand), None)
  {
  }

  /** VRFY and EXPN reply 502, HELP 211 and NOOP 250, in every state but the body, and change nothing. */
  lemma StepInformational(s: Session, buf: seq<byte>, begin: nat, count: nat, active: seq<string>, now: Instant)
    requires Handled(s, buf, begin, count) && s.state != WaitingForEndOfData
    requires Verb(buf, begin, count) in [VRFY, EXPN, HELP, NOOP]
    ensures var r := Step(s, buf, begin, count, active, now);
      && r.session == s && r.record.None? && r.reply.Some?
      && r.reply.value.Code() == (if Verb(buf, begin, count) == HELP then 211
                                  else if Verb(buf, begin, count) == NOOP then 250 else 502)
  {
    hide Step, Command, Verb, TokenCount, UpperFirstToken;
    var cmd, n := Verb(buf, begin, count), TokenCount(buf, begin, count);
    StepDispatches(s, buf, begin, count, active, now);
    CommandFallsThrough(s, UpperFirstToken(buf, begin, count), begin, count, cmd, n, active, now);
  }

  // ---------------------------------------------------------------------------
  // The body

  /**
   * While the body is received no verb is recognised and the buffer is left
   * as it is. Exactly ".\r\n" ends the body: it enqueues one record (the
   * time, the last recipient, the sender, the content size and the content
   * identifier), replies 250, forgets the transaction and waits for the next
   * MAIL. Any other line adds its bytes without their leading dot, when they
   * fit within the maximum size, and is otherwise dropped; it is not
   * answered.
   */
  lemma StepBody(s: Session, buf: seq<byte>, begin: nat, count: nat, active: seq<string>, now: Instant)
    requires Handled(s, buf, begin, count) && s.state == WaitingForEndOfData
    ensures var r := Step(s, buf, begin, count, active, now);
      && r.buffer == buf
      && (IsEndOfMail(buf, begin, count) ==>
            && r.record == Some(IncomingMail(now, s.lastRecipient.value, s.sender.value,
                                             |s.mailContent.value|, s.mailContentId))
            && r.reply == Some(Ok)
            && r.session == ResetMailInfo(s).(state := WaitingForMailFrom))
      && (!IsEndOfMail(buf, begin, count) ==>
            && r.reply.None? && r.record.None?
            && var data := Unstuffed(buf, begin, count);
               if |s.mailContent.value| + |data| <= MaximumMessageSize
               then r.session == s.(mailContent := Some(s.mailContent.value + data))
               else r.session == s)
  {
  }

  /** The bytes a body line contributes: the line itself, less one leading dot. */
  lemma UnstuffedRemovesOneDot(buf: seq<byte>, begin: nat, count: nat)
    requires 0 < count && begin + count <= |buf|
    ensures var data := Unstuffed(buf, begin, count);
      && (buf[begin] == Dot ==> [Dot] + data == buf[begin..begin + count])
      && (buf[begin] != Dot ==> data == buf[begin..begin + count])
      && |data| == (if buf[begin] == Dot then count - 1 else count)
  {
    if buf[begin] == Dot {
      assert buf[begin..begin + count] == [buf[begin]] + buf[begin + 1..begin + count];
    }
  }
}

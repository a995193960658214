/**
 * MAIL and RCPT: what the address scan finds, what the SIZE= parameter
 * declares, and that both read the line as it was received although the
 * verb was upper-cased in the buffer before they look at it.
 */
module SmtpMail {
  import opened Common
  import opened Text
  import opened Bytes
  import opened Smtp
  import opened SmtpCommands

  // ---------------------------------------------------------------------------
  // The address scan

  /** `i` is the first index of [from, end) holding `v`. */
  predicate IsFirst(s: seq<byte>, v: byte, from: int, end: int, i: int)
    requires 0 <= from && end <= |s|
  {
    from <= i < end && s[i] == v && forall k :: from <= k < i ==> s[k] != v
  }

  /** `FindByte` finds the first occurrence, and finds none only when there is none. */
  lemma FindByteSpec(s: seq<byte>, v: byte, from: int, end: int)
    requires 0 <= from && end <= |s|
    ensures var r := FindByte(s, v, from, end);
      && (r == -1 <==> forall k :: from <= k < end ==> s[k] != v)
      && (r != -1 ==> IsFirst(s, v, from, end, r))
  {
    FindByteFirst(s, v, from, end);
  }

  /**
   * The scan finds an address exactly when the line holds a ':' followed,
   * later, by a '<' followed, later, by a '>'; the brackets it reports are
   * the first '<' after the first ':' and the first '>' after that '<'.
   */
  lemma AddressScanSpec(buf: seq<byte>, begin: nat, end: nat)
    requires begin <= end <= |buf|
    ensures var r := AddressScan(buf, begin, end);
      && (r.None? <==>
            forall c, l, g :: begin <= c < l < g < end && buf[c] == SemiColon && buf[l] == LessThan ==> buf[g] != GreaterThan)
      && (r.Some? ==>
            exists c :: IsFirst(buf, SemiColon, begin, end, c)
                     && IsFirst(buf, LessThan, c + 1, end, r.value.lt)
                     && IsFirst(buf, GreaterThan, r.value.lt + 1, end, r.value.gt))
  {
    var colon := FindByte(buf, SemiColon, begin, end);
    FindByteSpec(buf, SemiColon, begin, end);
    if colon != -1 {
      var lt := FindByte(buf, LessThan, colon + 1, end);
      FindByteSpec(buf, LessThan, colon + 1, end);
      if lt != -1 {
        FindByteSpec(buf, GreaterThan, lt + 1, end);
      }
    }
  }

  // ---------------------------------------------------------------------------
  // The upper-cased verb does not reach the address or the parameters

  /** The first token of a region starts at its first non-delimiter byte. */
  lemma {:induction false} FirstTokenAfterDelimiters(s: seq<byte>, delimiters: seq<byte>, from: nat, end: nat)
    requires from <= end <= |s| && |Tokens(s, delimiters, from, end)| > 0
    ensures Tokens(s, delimiters, from, end)[0].offset <= end
    ensures forall k :: from <= k < Tokens(s, delimiters, from, end)[0].offset ==> s[k] in delimiters
    decreases end - from
  {
    TokensWithin(s, delimiters, from, end);
    if s[from] in delimiters {
      FirstTokenAfterDelimiters(s, delimiters, from + 1, end);
    }
  }

  /** Two buffers of one length agree at `from` and after. */
  predicate AgreeFrom(s: seq<byte>, t: seq<byte>, from: int) {
    |s| == |t| && forall k :: 0 <= from <= k < |s| ==> s[k] == t[k]
  }

  /** Bytes that no upper-casing produces from another byte or changes. */
  predicate IsCaseless(v: byte) {
    !(65 <= v <= 90) && !(97 <= v <= 122)
  }

  /** Upper-casing the verb neither creates nor removes a ':', '<' or '>'. */
  lemma UpperKeepsCaseless(buf: seq<byte>, begin: nat, count: nat, v: byte)
    requires begin + count <= |buf| && IsCaseless(v)
    ensures var u := UpperFirstToken(buf, begin, count);
      forall k :: 0 <= k < |buf| ==> (u[k] == v <==> buf[k] == v)
  {
  }

  /** `FindByte` sees only where `v` is. */
  lemma {:induction false} FindByteSameMarks(s: seq<byte>, t: seq<byte>, v: byte, from: int, end: int)
    requires 0 <= from && end <= |s| == |t|
    requires forall k :: from <= k < end ==> (s[k] == v <==> t[k] == v)
    ensures FindByte(s, v, from, end) == FindByte(t, v, from, end)
    decreases end - from
  {
    if from < end && s[from] != v {
      FindByteSameMarks(s, t, v, from + 1, end);
    }
  }

  /** The address scan finds the same brackets in the received line and in the line with its verb upper-cased. */
  lemma AddressScanIgnoresVerbCase(buf: seq<byte>, begin: nat, count: nat)
    requires begin + count <= |buf|
    ensures AddressScan(UpperFirstToken(buf, begin, count), begin, begin + count) == AddressScan(buf, begin, begin + count)
  {
    hide UpperFirstToken, LineTokens, Tokens, Verb;
    var u := UpperFirstToken(buf, begin, count);
    UpperKeepsCaseless(buf, begin, count, SemiColon);
    UpperKeepsCaseless(buf, begin, count, LessThan);
    UpperKeepsCaseless(buf, begin, count, GreaterThan);
    var end := begin + count;
    FindByteSameMarks(u, buf, SemiColon, begin, end);
    var colon := FindByte(buf, SemiColon, begin, end);
    if colon != -1 {
      FindByteSameMarks(u, buf, LessThan, colon + 1, end);
      var lt := FindByte(buf, LessThan, colon + 1, end);
      if lt != -1 {
        FindByteSameMarks(u, buf, GreaterThan, lt + 1, end);
      }
    }
  }

  /**
   * When the verb is a word of letters such as MAIL or RCPT and the line
   * holds an address, every byte from its '<' on is as received.
   */
  lemma UpperStopsBeforeAddress(buf: seq<byte>, begin: nat, count: nat)
    requires begin + count <= |buf|
    requires Verb(buf, begin, count) == MAIL || Verb(buf, begin, count) == RCPT
    requires AddressScan(buf, begin, begin + count).Some?
    ensures AgreeFrom(UpperFirstToken(buf, begin, count), buf, AddressScan(buf, begin, begin + count).value.lt)
  {
    hide UpperFirstToken, LineTokens, Tokens;
    var end := begin + count;
    var colon := FindByte(buf, SemiColon, begin, end);
    var lt := AddressScan(buf, begin, end).value.lt;
    assert colon != -1 && colon < lt && buf[colon] == SemiColon;
    VerbHasNoColon(Verb(buf, begin, count));
    VerbIsUpperFirstToken(buf, begin, count);
    ColonAfterVerb(buf, begin, count, colon);
    UpperAfterVerb(buf, begin, count);
  }

  /** A ':' on a line whose verb holds none lies after the verb. */
  lemma ColonAfterVerb(buf: seq<byte>, begin: nat, count: nat, colon: nat)
    requires begin + count <= |buf| && begin <= colon < begin + count && buf[colon] == SemiColon
    requires |LineTokens(buf, begin, count)| > 0
    requires forall i :: 0 <= i < |Verb(buf, begin, count)| ==> Verb(buf, begin, count)[i] != SemiColon
    ensures colon >= LineTokens(buf, begin, count)[0].End()
  {
    var verb := Verb(buf, begin, count);
    var t := LineTokens(buf, begin, count)[0];
    VerbIsUpperFirstToken(buf, begin, count);
    FirstTokenAfterDelimiters(buf, Whitespace, begin, begin + count);
    assert SemiColon !in Whitespace;
    assert colon >= t.offset;
    forall j | t.offset <= j < t.End()
      ensures AlphaUpper(buf[j]) != SemiColon
    {
      assert verb[j - t.offset] == AlphaUpper(buf[j]);
    }
  }

  /** Upper-casing the verb changes no byte after it. */
  lemma UpperAfterVerb(buf: seq<byte>, begin: nat, count: nat)
    requires begin + count <= |buf| && |LineTokens(buf, begin, count)| > 0
    ensures var t, u := LineTokens(buf, begin, count)[0], UpperFirstToken(buf, begin, count);
      forall k :: t.End() <= k < |buf| ==> u[k] == buf[k]
  {
  }

  /** Neither MAIL nor RCPT holds a ':'. */
  lemma VerbHasNoColon(verb: seq<byte>)
    requires verb == MAIL || verb == RCPT
    ensures forall i :: 0 <= i < |verb| ==> verb[i] != SemiColon
  {
  }

  /** The digit scan after SIZE= reads nothing outside [i, end). */
  lemma {:induction false} ValueEndLocal(s: seq<byte>, t: seq<byte>, i: nat, end: nat, last: int)
    requires i <= end <= |s| && end <= |t|
    requires forall k :: i <= k < end ==> s[k] == t[k]
    ensures ValueEnd(s, i, end, last) == ValueEnd(t, i, end, last)
    decreases end - i
  {
    if i < end {
      ValueEndLocal(s, t, i + 1, end, i);
    }
  }

  /** The SIZE= parameter is read from the bytes after '>' alone. */
  lemma SizeParameterLocal(s: seq<byte>, t: seq<byte>, begin: nat, count: nat, gt: nat)
    requires begin + count <= |s| && AgreeFrom(s, t, gt + 1)
    ensures SizeParameterOf(s, begin, count, gt) == SizeParameterOf(t, begin, count, gt)
  {
    hide FirstOccurrence, ValueEnd, AccumulateAsWritten, SizeOffsetAsWritten;
    SizeOffsetLocal(s, t, begin, count, gt);
    var sizeOffset := SizeOffsetAsWritten(s, begin, count, gt);
    if sizeOffset != -1 {
      var valueBegin := sizeOffset + |MessageSizeExtension|;
      ValueEndLocal(s, t, valueBegin, begin + count, -1);
      var valueEnd := ValueEnd(s, valueBegin, begin + count, -1);
      if valueEnd >= valueBegin {
        assert s[valueBegin..valueEnd + 1] == t[valueBegin..valueEnd + 1];
      }
    }
  }

  /** "SIZE=" is searched for after '>' only. */
  lemma SizeOffsetLocal(s: seq<byte>, t: seq<byte>, begin: nat, count: nat, gt: nat)
    requires begin + count <= |s| && AgreeFrom(s, t, gt + 1)
    ensures SizeOffsetAsWritten(s, begin, count, gt) == SizeOffsetAsWritten(t, begin, count, gt)
    ensures var o := SizeOffsetAsWritten(s, begin, count, gt);
      o == -1 || (gt + 1 <= o && o + |MessageSizeExtension| <= count)
  {
    if gt + 1 <= count {
      assert s[gt + 1..count] == t[gt + 1..count];
      FirstOccurrenceLocal(s, t, MessageSizeExtension, gt + 1, count);
    }
  }

  /**
   * MAIL, dispatched in the buffer whose verb was upper-cased, has the effect
   * it has on the line as received: the address and the SIZE= value come out
   * with their case kept.
   */
  lemma MailIgnoresVerbCase(s: Session, buf: seq<byte>, begin: nat, count: nat)
    requires Inv(s) && s.state == WaitingForMailFrom && begin + count <= |buf|
    requires Verb(buf, begin, count) == MAIL
    ensures Mail(s, UpperFirstToken(buf, begin, count), begin, count) == Mail(s, buf, begin, count)
  {
    hide UpperFirstToken, AddressScan, SizeParameterOf, Verb;
    var u := UpperFirstToken(buf, begin, count);
    AddressScanIgnoresVerbCase(buf, begin, count);
    var scan := AddressScan(buf, begin, begin + count);
    if scan.Some? {
      var b := scan.value;
      UpperStopsBeforeAddress(buf, begin, count);
      assert u[b.lt + 1..b.gt] == buf[b.lt + 1..b.gt];
      assert AddressText(u, b) == AddressText(buf, b);
      SizeParameterLocal(u, buf, begin, count, b.gt);
    }
  }

  /** RCPT, likewise, reads the recipient as received. */
  lemma RcptIgnoresVerbCase(s: Session, buf: seq<byte>, begin: nat, count: nat, active: seq<string>)
    requires Inv(s) && s.state in {WaitingForRcptTo, WaitingForAdditionalRcptTo} && begin + count <= |buf|
    requires Verb(buf, begin, count) == RCPT
    ensures Rcpt(s, UpperFirstToken(buf, begin, count), begin, count, active) == Rcpt(s, buf, begin, count, active)
  {
    hide UpperFirstToken, AddressScan, Verb;
    var u := UpperFirstToken(buf, begin, count);
    AddressScanIgnoresVerbCase(buf, begin, count);
    var scan := AddressScan(buf, begin, begin + count);
    if scan.Some? {
      var b := scan.value;
      UpperStopsBeforeAddress(buf, begin, count);
      assert u[b.lt + 1..b.gt] == buf[b.lt + 1..b.gt];
    }
  }

  // ---------------------------------------------------------------------------
  // MAIL and RCPT on a received line

  /**
   * MAIL while waiting for it. Without an address it replies 501 and changes
   * nothing. With one, the sender becomes the trimmed text between the
   * brackets, whatever follows; then the SIZE= parameter decides: none
   * accepts the sender (250) and waits for RCPT; a malformed value replies
   * 501 and keeps waiting for MAIL; a declared size above the maximum replies
   * 552 and waits for RSET; any other declared size is kept as the expected
   * size, and the sender is accepted. Nothing else in the session changes.
   */
  lemma StepMail(s: Session, buf: seq<byte>, begin: nat, count: nat, active: seq<string>, now: Instant)
    requires Handled(s, buf, begin, count) && s.state == WaitingForMailFrom
    requires Verb(buf, begin, count) == MAIL
    ensures var r, scan := Step(s, buf, begin, count, active, now), AddressScan(buf, begin, begin + count);
      && r.record.None?
      && (scan.None? ==> r.session == s && r.reply == Some(SyntaxErrorMail) && r.reply.value.Code() == 501)
      && (scan.Some? ==>
            var size := SizeParameterOf(buf, begin, count, scan.value.gt);
            && r.session.sender == Some(AddressText(buf, scan.value))
            && r.session.(sender := s.sender, state := s.state, mailContentExpectedSize := s.mailContentExpectedSize) == s
            && (size.NoSize? ==>
                  r.reply == Some(Ok) && r.session.state == WaitingForRcptTo
                  && r.session.mailContentExpectedSize == s.mailContentExpectedSize)
            && (size.Malformed? ==>
                  r.reply == Some(SyntaxErrorMail) && r.session.state == WaitingForMailFrom
                  && r.session.mailContentExpectedSize == s.mailContentExpectedSize)
            && (size.Declared? && size.size > MaximumMessageSize ==>
                  r.reply == Some(MessageSizeTooBig) && r.reply.value.Code() == 552
                  && r.session.state == WaitingForRset
                  && r.session.mailContentExpectedSize == s.mailContentExpectedSize)
            && (size.Declared? && size.size <= MaximumMessageSize ==>
                  r.reply == Some(Ok) && r.session.state == WaitingForRcptTo
                  && r.session.mailContentExpectedSize == size.size))
  {
    hide Step, Command, UpperFirstToken, Verb, TokenCount, AddressScan, AddressText, SizeParameterOf;
    StepDispatches(s, buf, begin, count, active, now);
    MailIgnoresVerbCase(s, buf, begin, count);
    var u := UpperFirstToken(buf, begin, count);
    CommandMail(s, u, begin, count, TokenCount(buf, begin, count), active, now);
  }

  /**
   * RCPT after MAIL was accepted. Without an address it replies 501 and
   * changes nothing. With one, the recipient is the trimmed text between the
   * brackets, lower-cased: when it is an active mailbox it becomes the last
   * recipient, the reply is 250 and DATA may follow; otherwise the reply is
   * 550 and nothing changes.
   */
  lemma StepRcpt(s: Session, buf: seq<byte>, begin: nat, count: nat, active: seq<string>, now: Instant)
    requires Handled(s, buf, begin, count) && s.state in {WaitingForRcptTo, WaitingForAdditionalRcptTo}
    requires Verb(buf, begin, count) == RCPT
    ensures var r, scan := Step(s, buf, begin, count, active, now), AddressScan(buf, begin, begin + count);
      && r.record.None?
      && (scan.None? ==> r.session == s && r.reply == Some(SyntaxErrorRcpt) && r.reply.value.Code() == 501)
      && (scan.Some? ==>
            var recipient := ToLower(AddressText(buf, scan.value));
            && (recipient in active ==>
                  r.session == s.(lastRecipient := Some(recipient), state := WaitingForAdditionalRcptTo)
                  && r.reply == Some(Ok))
            && (recipient !in active ==>
                  r.session == s && r.reply == Some(NoSuchUserHere) && r.reply.value.Code() == 550))
  {
    hide Step, Command, UpperFirstToken, Verb, TokenCount, AddressScan, AddressText, ToLower;
    StepDispatches(s, buf, begin, count, active, now);
    RcptIgnoresVerbCase(s, buf, begin, count, active);
    var u := UpperFirstToken(buf, begin, count);
    CommandRcpt(s, u, begin, count, TokenCount(buf, begin, count), active, now);
  }

  /** MAIL while waiting for it reaches its handler. */
  lemma CommandMail(s: Session, buf: seq<byte>, begin: nat, count: nat, tokenCount: nat, active: seq<string>, now: Instant)
    requires Handled(s, buf, begin, count) && s.state == WaitingForMailFrom
    ensures Command(s, buf, begin, count, MAIL, tokenCount, active, now) == Mail(s, buf, begin, count)
  {
    hide Mail, Rcpt, Body, AnyStateCommand;
  }

  /** RCPT after an accepted MAIL reaches its handler. */
  lemma CommandRcpt(s: Session, buf: seq<byte>, begin: nat, count: nat, tokenCount: nat, active: seq<string>, now: Instant)
    requires Handled(s, buf, begin, count) && s.state in {WaitingForRcptTo, WaitingForAdditionalRcptTo}
    ensures Command(s, buf, begin, count, RCPT, tokenCount, active, now) == Rcpt(s, buf, begin, count, active)
  {
    hide Mail, Rcpt, Body, AnyStateCommand;
  }
}

/**
 * The SMTP acceptance protocol of one session, as functions: the states and
 * replies, the per-session mail transaction, the handling of one complete
 * line (`Step`) and of one batch of received bytes (`Batch`). Everything is
 * over the session's whole receive buffer with absolute indices, as the
 * source works on `ArraySegment`s of that buffer. The class in
 * smtp_session.dfy runs the same logic step by step and is proved against
 * these functions.
 */
module Smtp {
  import opened Common
  import opened Text
  import opened Bytes

  // ---------------------------------------------------------------------------
  // Constants

  /** The largest accepted message, 2 MiB. */
  const MaximumMessageSize: int := 2 * 1024 * 1024

  /** Sessions older than this many ticks (60 s) are aborted by the server's sweep. */
  const MaximumLifeTime: int := 60 * 10_000_000

  const Dot: byte := 46
  /** Byte 58, which is ':' (the source names it `SemiColon`). */
  const SemiColon: byte := 58
  const LessThan: byte := 60
  const GreaterThan: byte := 62

  /** " \r\n\t" */
  const Whitespace: seq<byte> := [32, 13, 10, 9]
  /** "\r\n" */
  const CrLf: seq<byte> := [13, 10]
  /** ".\r\n" */
  const EndOfMail: seq<byte> := [46, 13, 10]
  /** "SIZE=" */
  const MessageSizeExtension: seq<byte> := [83, 73, 90, 69, 61]

  const RSET: seq<byte> := [82, 83, 69, 84]
  const HELO: seq<byte> := [72, 69, 76, 79]
  const EHLO: seq<byte> := [69, 72, 76, 79]
  const MAIL: seq<byte> := [77, 65, 73, 76]
  const RCPT: seq<byte> := [82, 67, 80, 84]
  const DATA: seq<byte> := [68, 65, 84, 65]
  const VRFY: seq<byte> := [86, 82, 70, 89]
  const EXPN: seq<byte> := [69, 88, 80, 78]
  const QUIT: seq<byte> := [81, 85, 73, 84]
  const NOOP: seq<byte> := [78, 79, 79, 80]
  const HELP: seq<byte> := [72, 69, 76, 80]
  const KnownCommands: seq<seq<byte>> := [RSET, HELO, EHLO, MAIL, RCPT, DATA, VRFY, EXPN, QUIT, NOOP, HELP]

  // ---------------------------------------------------------------------------
  // States and replies

  datatype SmtpState =
    | WaitingForHelo
    | WaitingForMailFrom
    | WaitingForRcptTo
    | WaitingForAdditionalRcptTo
    | WaitingForEndOfData
    | WaitingForRset
    | Disconnect

  datatype Reply =
    | Greeting
    | Ok
    | Ehlo
    | Helo
    | SyntaxErrorRset
    | SyntaxErrorEhlo
    | SyntaxErrorHelo
    | SyntaxErrorMail
    | SyntaxErrorRcpt
    | SyntaxErrorData
    | SyntaxErrorQuit
    | CommandNotImplemented
    | UnknownCommand
    | BadSequence
    | Help
    | StartMail
    | Bye
    | NoSuchUserHere
    | MessageSizeTooBig
  {
    /** The three-digit reply code. */
    function Code(): int {
      match this
      case Greeting => 220
      case Ok | Ehlo | Helo => 250
      case SyntaxErrorRset | SyntaxErrorEhlo | SyntaxErrorHelo | SyntaxErrorMail
        | SyntaxErrorRcpt | SyntaxErrorData | SyntaxErrorQuit => 501
      case CommandNotImplemented => 502
      case UnknownCommand => 500
      case BadSequence => 503
      case Help => 211
      case StartMail => 354
      case Bye => 221
      case NoSuchUserHere => 550
      case MessageSizeTooBig => 552
    }

    /** The bytes sent, as text; `serverName` is the bracketed local address. */
    function Text(serverName: string): string {
      match this
      case Greeting => "220 " + serverName + " ESMTP ready.\r\n"
      case Ok => "250 OK\r\n"
      case Ehlo => "250-" + serverName + "\r\n250-8BITMIME\r\n250 SIZE " + serverName + "\r\n"
      case Helo => "250 " + serverName + "\r\n"
      case SyntaxErrorRset => "501 RSET syntax error\r\n"
      case SyntaxErrorEhlo => "501 EHLO syntax error\r\n"
      case SyntaxErrorHelo => "501 HELO syntax error\r\n"
      case SyntaxErrorMail => "501 MAIL syntax error\r\n"
      case SyntaxErrorRcpt => "501 RCPT syntax error\r\n"
      case SyntaxErrorData => "501 DATA syntax error\r\n"
      case SyntaxErrorQuit => "501 QUIT syntax error\r\n"
      case CommandNotImplemented => "502 Command not implemented\r\n"
      case UnknownCommand => "500 Unknown command\r\n"
      case BadSequence => "503 Bad sequence of command\r\n"
      case Help => "211 You don't need help\r\n"
      case StartMail => "354 Start mail input; end with <CRLF>.<CRLF>\r\n"
      case Bye => "221 Bye\r\n"
      case NoSuchUserHere => "550 No such user here\r\n"
      case MessageSizeTooBig => "552 Message size exceeds maximum permitted\r\n"
    }
  }

  // ---------------------------------------------------------------------------
  // The session's protocol state

  /**
   * What a session remembers between lines: its state, the mail transaction
   * (sender, last accepted recipient, the content written so far to the open
   * content file, whose absence stands for a null stream, its identifier and
   * the size announced by SIZE=), and how many content identifiers it has
   * drawn, which stands for `Guid.NewGuid`: identifier k + 1 is drawn after k.
   */
  datatype Session = Session(
    state: SmtpState,
    sender: Option<string>,
    lastRecipient: Option<string>,
    mailContent: Option<seq<byte>>,
    mailContentId: Guid,
    mailContentExpectedSize: int,
    guidsIssued: nat)

  /** A freshly constructed session. */
  const Initial: Session := Session(WaitingForHelo, None, None, None, EmptyGuid, -1, 0)

  /**
   * What holds between lines: a content file is open exactly while the body is
   * being received, and then has an identifier and never more than the maximum
   * size; a sender is known once MAIL succeeded and a recipient once RCPT did.
   */
  predicate Inv(s: Session) {
    && (s.state == WaitingForEndOfData <==> s.mailContent.Some?)
    && (s.mailContent.Some? ==> |s.mailContent.value| <= MaximumMessageSize)
    && (s.mailContent.Some? <==> s.mailContentId != EmptyGuid)
    && s.mailContentId <= s.guidsIssued
    && (s.state in {WaitingForRcptTo, WaitingForAdditionalRcptTo, WaitingForEndOfData} ==> s.sender.Some?)
    && (s.state in {WaitingForAdditionalRcptTo, WaitingForEndOfData} ==> s.lastRecipient.Some?)
  }

  /** `ResetMailInfo`: forgets the mail transaction and closes the content file; the state is kept. */
  function ResetMailInfo(s: Session): (r: Session)
    ensures r.state == s.state && r.guidsIssued == s.guidsIssued
    ensures r.sender.None? && r.lastRecipient.None? && r.mailContent.None?
    ensures r.mailContentId == EmptyGuid && r.mailContentExpectedSize == -1
  {
    s.(sender := None, lastRecipient := None, mailContent := None,
       mailContentId := EmptyGuid, mailContentExpectedSize := -1)
  }

  /** What handling one line does: the new session, the reply sent if any, the record enqueued if any. */
  datatype Effect = Effect(session: Session, reply: Option<Reply>, record: Option<IncomingMail>)

  /** `Effect` together with the receive buffer after the line was handled. */
  datatype StepResult = StepResult(session: Session, reply: Option<Reply>, record: Option<IncomingMail>, buffer: seq<byte>)

  // ---------------------------------------------------------------------------
  // Reading a command line

  /** The tokens of the line: maximal runs of bytes other than " \r\n\t". */
  function LineTokens(buf: seq<byte>, begin: nat, count: nat): (r: seq<Segment>)
    requires begin + count <= |buf|
    ensures forall i :: 0 <= i < |r| ==> begin <= r[i].offset && r[i].End() <= begin + count
  {
    TokensWithin(buf, Whitespace, begin, begin + count);
    Tokens(buf, Whitespace, begin, begin + count)
  }

  /** The buffer after the first token of the line was upper-cased in place. */
  function UpperFirstToken(buf: seq<byte>, begin: nat, count: nat): (r: seq<byte>)
    requires begin + count <= |buf|
    ensures |r| == |buf|
  {
    var tokens := LineTokens(buf, begin, count);
    if |tokens| == 0 then buf else UpperRegion(buf, tokens[0].offset, tokens[0].count)
  }

  /** Upper-casing the first token writes nothing outside the line. */
  lemma UpperFirstTokenInLine(buf: seq<byte>, begin: nat, count: nat)
    requires begin + count <= |buf|
    ensures var r := UpperFirstToken(buf, begin, count);
      forall k :: 0 <= k < |buf| && !(begin <= k < begin + count) ==> r[k] == buf[k]
  {
    var tokens := LineTokens(buf, begin, count);
    if |tokens| > 0 {
      assert begin <= tokens[0].offset && tokens[0].End() <= begin + count;
    }
  }

  /** The command verb: the first token, upper-cased, or nothing for a blank line. */
  function Verb(buf: seq<byte>, begin: nat, count: nat): (v: seq<byte>)
    requires begin + count <= |buf|
    ensures |v| <= count
  {
    var tokens := LineTokens(buf, begin, count);
    if |tokens| == 0 then [] else UpperFirstToken(buf, begin, count)[tokens[0].offset..tokens[0].End()]
  }

  /** The verb is empty for a blank line, and otherwise the first token with each byte upper-cased. */
  lemma VerbIsUpperFirstToken(buf: seq<byte>, begin: nat, count: nat)
    requires begin + count <= |buf|
    ensures var tokens, v := LineTokens(buf, begin, count), Verb(buf, begin, count);
      && (|tokens| == 0 ==> v == [])
      && (|tokens| > 0 ==>
            |v| == tokens[0].count && forall k :: 0 <= k < |v| ==> v[k] == AlphaUpper(buf[tokens[0].offset + k]))
  {
    var tokens := LineTokens(buf, begin, count);
    if |tokens| > 0 {
      var t := tokens[0];
      assert t.End() <= begin + count;
      var u := UpperRegion(buf, t.offset, t.count);
      forall k | 0 <= k < t.count
        ensures u[t.offset..t.End()][k] == AlphaUpper(buf[t.offset + k])
      {
        assert u[t.offset..t.End()][k] == u[t.offset + k];
      }
    }
  }

  /** The first index in [from, end) holding `v`, or -1. */
  function FindByte(s: seq<byte>, v: byte, from: int, end: int): (r: int)
    requires 0 <= from && end <= |s|
    ensures r == -1 || (from <= r < end && s[r] == v)
    decreases end - from
  {
    if from >= end then -1 else if s[from] == v then from else FindByte(s, v, from + 1, end)
  }

  /** `FindByte` finds the first occurrence: no byte before it, or none at all, holds `v`. */
  lemma {:induction false} FindByteFirst(s: seq<byte>, v: byte, from: int, end: int)
    requires 0 <= from && end <= |s|
    ensures var r := FindByte(s, v, from, end);
      forall k :: from <= k < end && (r == -1 || k < r) ==> s[k] != v
    decreases end - from
  {
    if from < end && s[from] != v {
      FindByteFirst(s, v, from + 1, end);
    }
  }

  /** The positions of '<' and '>' around an address. */
  datatype Brackets = Brackets(lt: nat, gt: nat)

  /**
   * The address scan of MAIL and RCPT: after the first ':' of the line, the
   * first '<', then the first '>' after it.
   */
  function AddressScan(buf: seq<byte>, begin: nat, end: nat): (r: Option<Brackets>)
    requires begin <= end <= |buf|
    ensures r.Some? ==>
      && begin <= r.value.lt < r.value.gt < end
      && buf[r.value.lt] == LessThan && buf[r.value.gt] == GreaterThan
  {
    var colon := FindByte(buf, SemiColon, begin, end);
    if colon == -1 then None
    else
      var lt := FindByte(buf, LessThan, colon + 1, end);
      if lt == -1 then None
      else
        var gt := FindByte(buf, GreaterThan, lt + 1, end);
        if gt == -1 then None else Some(Brackets(lt, gt))
  }

  /**
   * The address loop of MAIL and RCPT resumed at `i`: `go` once a ':' was
   * seen, then `lt` the first '<' after it (or -1); the loop stops at the
   * first '>' after that '<'. The result is the pair (lt, gt), -1 for each
   * not found.
   */
  function AddressLoop(s: seq<byte>, i: nat, end: nat, go: bool, lt: int): (int, int)
    requires i <= end <= |s|
    decreases end - i
  {
    if i == end then (lt, -1)
    else if go then
      var lt' := if lt == -1 && s[i] == LessThan then i else lt;
      if lt' != -1 && s[i] == GreaterThan then (lt', i)
      else AddressLoop(s, i + 1, end, go, lt')
    else AddressLoop(s, i + 1, end, s[i] == SemiColon, lt)
  }

  /** Once '<' was seen at `lt`, the loop ends at the first '>' after it. */
  lemma {:induction false} AddressLoopAfterLessThan(s: seq<byte>, i: nat, end: nat, lt: nat)
    requires lt < i <= end <= |s|
    ensures AddressLoop(s, i, end, true, lt) == (lt, FindByte(s, GreaterThan, i, end))
    decreases end - i
  {
    if i < end && s[i] != GreaterThan {
      AddressLoopAfterLessThan(s, i + 1, end, lt);
    }
  }

  /** After ':' the loop finds the first '<', then the first '>' after it. */
  lemma {:induction false} AddressLoopAfterColon(s: seq<byte>, i: nat, end: nat)
    requires i <= end <= |s|
    ensures var lt := FindByte(s, LessThan, i, end);
      AddressLoop(s, i, end, true, -1) == if lt == -1 then (-1, -1) else (lt, FindByte(s, GreaterThan, lt + 1, end))
    decreases end - i
  {
    if i < end {
      if s[i] == LessThan {
        AddressLoopAfterLessThan(s, i + 1, end, i);
      } else {
        AddressLoopAfterColon(s, i + 1, end);
      }
    }
  }

  /** Before ':' the loop looks for the first ':' and continues after it. */
  lemma {:induction false} AddressLoopBeforeColon(s: seq<byte>, i: nat, end: nat)
    requires i <= end <= |s|
    ensures var colon := FindByte(s, SemiColon, i, end);
      AddressLoop(s, i, end, false, -1) == if colon == -1 then (-1, -1) else AddressLoop(s, colon + 1, end, true, -1)
    decreases end - i
  {
    if i < end && s[i] != SemiColon {
      AddressLoopBeforeColon(s, i + 1, end);
    }
  }

  /** The address loop finds both brackets exactly when `AddressScan` does, and the same ones. */
  lemma AddressLoopIsScan(s: seq<byte>, begin: nat, end: nat)
    requires begin <= end <= |s|
    ensures var (lt, gt) := AddressLoop(s, begin, end, false, -1);
      && lt >= -1 && gt >= -1
      && AddressScan(s, begin, end) == if lt != -1 && gt != -1 then Some(Brackets(lt, gt)) else None
  {
    AddressLoopBeforeColon(s, begin, end);
    var colon := FindByte(s, SemiColon, begin, end);
    if colon != -1 {
      AddressLoopAfterColon(s, colon + 1, end);
    }
  }

  /** The text between the brackets, decoded as ASCII and trimmed. */
  function AddressText(buf: seq<byte>, b: Brackets): string
    requires b.lt < b.gt <= |buf|
  {
    Trim(AsciiString(buf[b.lt + 1..b.gt]))
  }

  // ---------------------------------------------------------------------------
  // The SIZE= parameter

  /**
   * Where the SIZE= search runs, as written: from just after '>' for
   * `count - gt - 1` bytes, with `gt` an absolute buffer index, so the window
   * ends at absolute index `count` whatever the line's offset.
   */
  function SizeOffsetAsWritten(buf: seq<byte>, begin: nat, count: nat, gt: nat): int
    requires begin + count <= |buf|
  {
    FirstOccurrence(buf, MessageSizeExtension, gt + 1, count)
  }

  /** The end of the run of ASCII digits that starts at `i`. */
  function DigitRunEnd(s: seq<byte>, i: nat, end: nat): (k: nat)
    requires i <= end <= |s|
    ensures i <= k <= end
    decreases end - i
  {
    if i == end || Digits(s[i]) > 9 then i else DigitRunEnd(s, i + 1, end)
  }

  /** The run holds only digits and is ended by a non-digit or the end. */
  lemma {:induction false} DigitRunEndIsRun(s: seq<byte>, i: nat, end: nat)
    requires i <= end <= |s|
    ensures var k := DigitRunEnd(s, i, end);
      (forall j :: i <= j < k ==> Digits(s[j]) <= 9) && (k == end || Digits(s[k]) > 9)
    decreases end - i
  {
    if i < end && Digits(s[i]) <= 9 {
      DigitRunEndIsRun(s, i + 1, end);
    }
  }

  predicate IsWhitespaceByte(b: byte) {
    b in Whitespace
  }

  /**
   * The digit scan after SIZE=, resumed at `i` with `last` the index of the
   * last digit seen (or -1): the index of the last digit of a non-empty digit
   * run ended by white space or the end of the line, and -1 when the run is
   * empty or ends at any other byte.
   */
  function ValueEnd(s: seq<byte>, i: nat, end: nat, last: int): (r: int)
    requires i <= end <= |s|
    ensures r == -1 || r == last || i <= r < end
    decreases end - i
  {
    if i == end then last
    else if IsWhitespaceByte(s[i]) then last
    else if Digits(s[i]) > 9 then -1
    else ValueEnd(s, i + 1, end, i)
  }

  /**
   * The scan's result in terms of the digit run at `i`: the run's last index
   * when the run is non-empty and ended by white space or the end of the line,
   * `last` when it is empty and so ended, and -1 when another byte ends it.
   */
  lemma {:induction false} ValueEndIsDigitRun(s: seq<byte>, i: nat, end: nat, last: int)
    requires i <= end <= |s|
    ensures var k := DigitRunEnd(s, i, end);
      ValueEnd(s, i, end, last)
      == if k == end || IsWhitespaceByte(s[k]) then (if k > i then k - 1 else last) else -1
    decreases end - i
  {
    if i < end && !IsWhitespaceByte(s[i]) && Digits(s[i]) <= 9 {
      ValueEndIsDigitRun(s, i + 1, end, i);
    }
  }

  /**
   * The size accumulation as written, over the digits of the value: from the
   * last digit backwards, while digits remain and the running size is below
   * the maximum, with C# unchecked 32-bit `int` products, sums and scales.
   * `n` digits remain to be read.
   */
  function AccumulateAsWritten(digits: seq<byte>, n: nat, size: int, scale: int): int
    requires n <= |digits|
    decreases n
  {
    if n > 0 && size < MaximumMessageSize then
      AccumulateAsWritten(digits, n - 1,
        Wrap32(size + Wrap32(Digits(digits[n - 1]) as int * scale)), Wrap32(scale * 10))
    else size
  }

  // ---------------------------------------------------------------------------
  // Commands

  /** What the SIZE= parameter of a MAIL line says. */
  datatype SizeParameter = NoSize | Malformed | Declared(size: int)

  /** The SIZE= parameter after the closing bracket at `gt`, as the source scans it. */
  function SizeParameterOf(buf: seq<byte>, begin: nat, count: nat, gt: nat): SizeParameter
    requires begin + count <= |buf|
  {
    var sizeOffset := SizeOffsetAsWritten(buf, begin, count, gt);
    if sizeOffset == -1 then NoSize
    else
      var valueBegin := sizeOffset + |MessageSizeExtension|;
      var valueEnd := ValueEnd(buf, valueBegin, begin + count, -1);
      if valueEnd >= valueBegin then
        Declared(AccumulateAsWritten(buf[valueBegin..valueEnd + 1], valueEnd + 1 - valueBegin, 0, 1))
      else Malformed
  }

  /** MAIL in `WaitingForMailFrom`. */
  function Mail(s: Session, buf: seq<byte>, begin: nat, count: nat): (e: Effect)
    requires Inv(s) && s.state == WaitingForMailFrom && begin + count <= |buf|
    ensures Inv(e.session) && e.record.None? && e.reply.Some?
    ensures e.session.state in {WaitingForMailFrom, WaitingForRcptTo, WaitingForRset}
    ensures e.session.state != WaitingForMailFrom ==> e.session.sender.Some?
  {
    match AddressScan(buf, begin, begin + count)
    case None => Effect(s, Some(SyntaxErrorMail), None)
    case Some(b) =>
      var s1 := s.(sender := Some(AddressText(buf, b)));
      match SizeParameterOf(buf, begin, count, b.gt)
      case NoSize => Effect(s1.(state := WaitingForRcptTo), Some(Ok), None)
      case Malformed => Effect(s1, Some(SyntaxErrorMail), None)
      case Declared(size) =>
        if size > MaximumMessageSize then
          Effect(s1.(state := WaitingForRset), Some(MessageSizeTooBig), None)
        else
          Effect(s1.(mailContentExpectedSize := size, state := WaitingForRcptTo), Some(Ok), None)
  }

  /** RCPT in `WaitingForRcptTo` or `WaitingForAdditionalRcptTo`; `active` is the dispatcher's cache. */
  function Rcpt(s: Session, buf: seq<byte>, begin: nat, count: nat, active: seq<string>): (e: Effect)
    requires Inv(s) && s.state in {WaitingForRcptTo, WaitingForAdditionalRcptTo} && begin + count <= |buf|
    ensures Inv(e.session) && e.record.None? && e.reply.Some?
    ensures e.reply == Some(Ok) ==> e.session.lastRecipient.Some? && e.session.lastRecipient.value in active
    ensures e.reply != Some(Ok) ==> e.session == s
  {
    match AddressScan(buf, begin, begin + count)
    case None => Effect(s, Some(SyntaxErrorRcpt), None)
    case Some(b) =>
      var recipient := ToLower(AddressText(buf, b));
      if recipient in active then
        Effect(s.(lastRecipient := Some(recipient), state := WaitingForAdditionalRcptTo), Some(Ok), None)
      else
        Effect(s, Some(NoSuchUserHere), None)
  }

  /** DATA with no argument in `WaitingForAdditionalRcptTo`: opens a new content file unless one is open. */
  function Data(s: Session): (e: Effect)
    requires Inv(s) && s.state == WaitingForAdditionalRcptTo
    ensures Inv(e.session) && e.record.None? && e.reply == Some(StartMail)
    ensures e.session.state == WaitingForEndOfData && e.session.mailContent.Some?
  {
    var s1 := if s.mailContent.None? then
        s.(mailContent := Some([]), mailContentId := s.guidsIssued + 1, guidsIssued := s.guidsIssued + 1)
      else s;
    Effect(s1.(state := WaitingForEndOfData), Some(StartMail), None)
  }

  /** Whether the line is exactly ".\r\n". */
  predicate IsEndOfMail(buf: seq<byte>, begin: nat, count: nat)
    requires begin + count <= |buf|
  {
    count == |EndOfMail| && buf[begin..begin + |EndOfMail|] == EndOfMail
  }

  /** The bytes a body line contributes: the line with one leading dot removed. */
  function Unstuffed(buf: seq<byte>, begin: nat, count: nat): (r: seq<byte>)
    requires 0 < count && begin + count <= |buf|
    ensures buf[begin] == Dot ==> r == buf[begin + 1..begin + count]
    ensures buf[begin] != Dot ==> r == buf[begin..begin + count]
  {
    if buf[begin] == Dot then buf[begin + 1..begin + count] else buf[begin..begin + count]
  }

  /** A line in `WaitingForEndOfData`. `now` is the time the record is made. */
  function Body(s: Session, buf: seq<byte>, begin: nat, count: nat, now: Instant): (e: Effect)
    requires Inv(s) && s.state == WaitingForEndOfData && 0 < count && begin + count <= |buf|
    ensures Inv(e.session)
    ensures e.record.Some? <==> IsEndOfMail(buf, begin, count)
    ensures e.record.Some? ==> e.session.state == WaitingForMailFrom && e.reply == Some(Ok)
    ensures e.record.None? ==> e.reply.None? && e.session.state == WaitingForEndOfData
  {
    if IsEndOfMail(buf, begin, count) then
      var content := s.mailContent.value;
      if |content| <= MaximumMessageSize then
        var record := IncomingMail(now, s.lastRecipient.value, s.sender.value, |content|, s.mailContentId);
        Effect(ResetMailInfo(s).(state := WaitingForMailFrom), Some(Ok), Some(record))
      else
        Effect(ResetMailInfo(s).(state := WaitingForRset), Some(MessageSizeTooBig), None)
    else
      var data := Unstuffed(buf, begin, count);
      if s.mailContent.Some? && |s.mailContent.value| + |data| <= MaximumMessageSize then
        Effect(s.(mailContent := Some(s.mailContent.value + data)), None, None)
      else
        Effect(s, None, None)
  }

  /**
   * The dispatch chain of `HandleCompleteLine` once the verb `cmd` and the
   * token count are known: verbs that are valid in the current state first,
   * the body while receiving it, then the verbs valid anywhere, then 503 for
   * a known verb and 500 for anything else.
   */
  function Command(s: Session, buf: seq<byte>, begin: nat, count: nat, cmd: seq<byte>, tokenCount: nat,
                   active: seq<string>, now: Instant): (e: Effect)
    requires Inv(s) && 0 < count && begin + count <= |buf|
    ensures Inv(e.session)
    ensures e.record.Some? ==> s.state == WaitingForEndOfData
    ensures s.state != WaitingForEndOfData ==> e.reply.Some?
  {
    if cmd == RSET then
      if tokenCount == 1 then Effect(ResetMailInfo(s).(state := WaitingForHelo), Some(Ok), None)
      else Effect(s, Some(SyntaxErrorRset), None)
    else if s.state == WaitingForHelo && cmd == EHLO then
      if tokenCount == 2 then Effect(s.(state := WaitingForMailFrom), Some(Ehlo), None)
      else Effect(s, Some(SyntaxErrorEhlo), None)
    else if s.state == WaitingForHelo && cmd == HELO then
      if tokenCount == 2 then Effect(s.(state := WaitingForMailFrom), Some(Helo), None)
      else Effect(s, Some(SyntaxErrorHelo), None)
    else if s.state == WaitingForMailFrom && cmd == MAIL then
      Mail(s, buf, begin, count)
    else if (s.state == WaitingForRcptTo || s.state == WaitingForAdditionalRcptTo) && cmd == RCPT then
      Rcpt(s, buf, begin, count, active)
    else if s.state == WaitingForAdditionalRcptTo && cmd == DATA then
      if tokenCount == 1 then Data(s) else Effect(s, Some(SyntaxErrorData), None)
    else if s.state == WaitingForEndOfData then
      Body(s, buf, begin, count, now)
    else
      AnyStateCommand(s, cmd, tokenCount)
  }

  /** The tail of the dispatch chain: QUIT, VRFY, EXPN, HELP and NOOP, then 503 or 500. */
  function AnyStateCommand(s: Session, cmd: seq<byte>, tokenCount: nat): (e: Effect)
    requires Inv(s)
    ensures Inv(e.session) && e.record.None? && e.reply.Some?
    ensures e.session.state == s.state || (cmd == QUIT && e.session.state == Disconnect)
  {
    if cmd == QUIT then
      if tokenCount == 1 then Effect(ResetMailInfo(s).(state := Disconnect), Some(Bye), None)
      else Effect(s, Some(SyntaxErrorQuit), None)
    else if cmd == VRFY || cmd == EXPN then
      Effect(s, Some(CommandNotImplemented), None)
    else if cmd == HELP then
      Effect(s, Some(Help), None)
    else if cmd == NOOP then
      Effect(s, Some(Ok), None)
    else if cmd in KnownCommands then
      Effect(s, Some(BadSequence), None)
    else
      Effect(s, Some(UnknownCommand), None)
  }

  /**
   * `HandleCompleteLine` on the line [begin, begin + count) of `buf`: outside
   * the body the line is split at white space and its first token upper-cased
   * in the buffer; while the body is received no verb is recognised.
   * Handling a line keeps the session invariant and writes nothing outside
   * the line.
   */
  function Step(s: Session, buf: seq<byte>, begin: nat, count: nat, active: seq<string>, now: Instant): (r: StepResult)
    requires Inv(s) && 0 < count && begin + count <= |buf|
    ensures Inv(r.session)
    ensures |r.buffer| == |buf|
  {
    if s.state == WaitingForEndOfData then
      var e := Command(s, buf, begin, count, [], 0, active, now);
      StepResult(e.session, e.reply, e.record, buf)
    else
      var upper := UpperFirstToken(buf, begin, count);
      var e := Command(s, upper, begin, count, Verb(buf, begin, count), |LineTokens(buf, begin, count)|, active, now);
      StepResult(e.session, e.reply, e.record, upper)
  }

  // ---------------------------------------------------------------------------
  // A batch of received bytes

  /** The outcome of handling every complete line of [lineBegin, end). */
  datatype BatchResult = BatchResult(
    session: Session,
    buffer: seq<byte>,
    consumed: nat,
    replies: seq<Reply>,
    records: seq<IncomingMail>,
    lines: seq<Segment>)

  /**
   * The line loop of `ReceiveCompleted` from `lineBegin`: while bytes remain
   * and a CRLF lies in them, the line up to and including it is handled,
   * whatever the state (a `Disconnect` is acted on only after the batch).
   * `consumed` is where the unhandled rest begins.
   */
  function Batch(s: Session, buf: seq<byte>, lineBegin: nat, end: nat, active: seq<string>, now: Instant): (r: BatchResult)
    requires Inv(s) && lineBegin <= end <= |buf|
    ensures Inv(r.session)
    ensures |r.buffer| == |buf| && lineBegin <= r.consumed <= end
    decreases end - lineBegin
  {
    var remaining := end - lineBegin;
    var lineEnd := FirstOccurrence(buf, CrLf, lineBegin, lineBegin + remaining);
    if remaining > 0 && lineEnd > -1 then
      var next := lineEnd + |CrLf|;
      var step := Step(s, buf, lineBegin, next - lineBegin, active, now);
      var rest := Batch(step.session, step.buffer, next, end, active, now);
      rest.(replies := OptionToSeq(step.reply) + rest.replies,
            records := OptionToSeq(step.record) + rest.records,
            lines := [Segment(lineBegin, next - lineBegin)] + rest.lines)
    else
      BatchResult(s, buf, lineBegin, [], [], [])
  }

  /**
   * The complete lines of [lineBegin, end) of `buf`: each runs up to and
   * including the first CRLF after the previous one.
   */
  function Lines(buf: seq<byte>, lineBegin: nat, end: nat): (r: seq<Segment>)
    requires lineBegin <= end <= |buf|
    decreases end - lineBegin
  {
    var lineEnd := FirstOccurrence(buf, CrLf, lineBegin, end);
    if lineEnd == -1 then [] else
      var next := lineEnd + |CrLf|;
      [Segment(lineBegin, next - lineBegin)] + Lines(buf, next, end)
  }

  /** Where the bytes not consumed by the complete lines begin. */
  function LinesEnd(buf: seq<byte>, lineBegin: nat, end: nat): (e: nat)
    requires lineBegin <= end <= |buf|
    ensures lineBegin <= e <= end
    decreases end - lineBegin
  {
    var lineEnd := FirstOccurrence(buf, CrLf, lineBegin, end);
    if lineEnd == -1 then lineBegin else LinesEnd(buf, lineEnd + |CrLf|, end)
  }

  // ---------------------------------------------------------------------------
  // One turn of the line loop, for proofs that keep the definitions hidden

  /** A CRLF lies in the region: the first line runs up to and including it. */
  lemma LinesTurn(buf: seq<byte>, lineBegin: nat, end: nat) returns (next: nat)
    requires lineBegin <= end <= |buf|
    requires FirstOccurrence(buf, CrLf, lineBegin, end) != -1
    ensures next == FirstOccurrence(buf, CrLf, lineBegin, end) + |CrLf| && lineBegin < next <= end
    ensures Lines(buf, lineBegin, end) == [Segment(lineBegin, next - lineBegin)] + Lines(buf, next, end)
    ensures LinesEnd(buf, lineBegin, end) == LinesEnd(buf, next, end)
  {
    next := FirstOccurrence(buf, CrLf, lineBegin, end) + |CrLf|;
  }

  /** No CRLF lies in the region: it holds no line. */
  lemma LinesStop(buf: seq<byte>, lineBegin: nat, end: nat)
    requires lineBegin <= end <= |buf|
    requires FirstOccurrence(buf, CrLf, lineBegin, end) == -1
    ensures Lines(buf, lineBegin, end) == [] && LinesEnd(buf, lineBegin, end) == lineBegin
  {
  }

  /** A line is complete: the batch handles it and goes on after its CRLF. */
  lemma BatchTurn(s: Session, buf: seq<byte>, lineBegin: nat, end: nat, active: seq<string>, now: Instant)
    returns (next: nat, step: StepResult)
    requires Inv(s) && lineBegin <= end <= |buf|
    requires FirstOccurrence(buf, CrLf, lineBegin, end) != -1
    ensures next == FirstOccurrence(buf, CrLf, lineBegin, end) + |CrLf| && lineBegin < next <= end
    ensures step == Step(s, buf, lineBegin, next - lineBegin, active, now)
    ensures var rest := Batch(step.session, step.buffer, next, end, active, now);
      Batch(s, buf, lineBegin, end, active, now)
        == rest.(replies := OptionToSeq(step.reply) + rest.replies,
                 records := OptionToSeq(step.record) + rest.records,
                 lines := [Segment(lineBegin, next - lineBegin)] + rest.lines)
    ensures Lines(buf, lineBegin, end) == [Segment(lineBegin, next - lineBegin)] + Lines(buf, next, end)
    ensures LinesEnd(buf, lineBegin, end) == LinesEnd(buf, next, end)
  {
    hide Step;
    next := FirstOccurrence(buf, CrLf, lineBegin, end) + |CrLf|;
    step := Step(s, buf, lineBegin, next - lineBegin, active, now);
    assert lineBegin + (end - lineBegin) == end;
  }

  /** An empty region holds no line. */
  lemma BatchEmpty(s: Session, buf: seq<byte>, lineBegin: nat, active: seq<string>, now: Instant)
    requires Inv(s) && lineBegin <= |buf|
    ensures Batch(s, buf, lineBegin, lineBegin, active, now) == BatchResult(s, buf, lineBegin, [], [], [])
  {
    hide Step;
  }

  /** No line is complete: the batch handles nothing and consumes nothing. */
  lemma BatchStops(s: Session, buf: seq<byte>, lineBegin: nat, end: nat, active: seq<string>, now: Instant)
    requires Inv(s) && lineBegin <= end <= |buf|
    requires FirstOccurrence(buf, CrLf, lineBegin, end) == -1
    ensures Batch(s, buf, lineBegin, end, active, now) == BatchResult(s, buf, lineBegin, [], [], [])
    ensures Lines(buf, lineBegin, end) == [] && LinesEnd(buf, lineBegin, end) == lineBegin
  {
    hide Step;
    assert lineBegin + (end - lineBegin) == end;
  }
}

/** adapters/cassandra/proto.go and main.go: one operation over a pair of streams.

    The operation body is any program that decides its next call, or its answer, from the
    outcomes of its calls so far. JSON, the cancellation signal and failing writes are the
    environment's: every inbound line and every moment is arbitrary. */
module Protocol {
  import opened Wrappers
  import opened Bytes

  const PROTOCOL_VERSION := Ascii("probavi-adapter/1")
  const PROTOCOL_FLOOR := Ascii("probavi-adapter/0")

  /** speaks */
  predicate Speaks(version: Text) {
    version == PROTOCOL_VERSION || version == PROTOCOL_FLOOR
  }

  datatype Failure =
    | Cancelled
    | WriteFailed
    | StreamClosed
    | MalformedResult
    | WrongCallId
    | Reported(error: Text)
    | NoErrorObject
    | UnsupportedProtocol
    | UnknownOp
    | OpFailed(error: Text)

  /** A line the core sends in the middle of an operation, as JSON reads it. */
  datatype Inbound =
    | NotAResult
    | SandboxResult(callId: Text, ok: bool, value: Text, error: Option<Text>)

  /** A line the adapter writes. */
  datatype Line =
    | CallLine(protocol: Text, requestId: Text, callId: Text, verb: Text, args: Text)
    | FinalLine(protocol: Text, requestId: Text, outcome: Result<Text, Failure>)

  function CallId(n: nat): Text {
    [99] + Decimal(n)
  }

  lemma CallIdsDistinct(m: nat, n: nat)
    requires CallId(m) == CallId(n)
    ensures m == n
  {
    assert CallId(m)[1..] == Decimal(m) && CallId(n)[1..] == Decimal(n);
    DecimalRoundTrip(m);
    DecimalRoundTrip(n);
  }

  /** The moment of a call: whether the operation is cancelled, whether a write succeeds. */
  datatype Moment = Moment(cancelled: bool, writable: bool)

  datatype CoreState = CoreState(protocol: Text, requestId: Text, callSeq: nat, input: seq<Inbound>, output: seq<Line>)

  /** What a call came to, and the number it took, if it got that far. */
  datatype Outcome = Outcome(call: Option<nat>, result: Result<Text, Failure>)

  function ReadReply(id: Text, reply: Inbound): Result<Text, Failure> {
    match reply
    case NotAResult => Err(MalformedResult)
    case SandboxResult(callId, ok, value, error) =>
      if callId != id then Err(WrongCallId)
      else if ok then Ok(value)
      else if error.Some? then Err(Reported(error.value))
      else Err(NoErrorObject)
  }

  datatype Called = Called(state: CoreState, outcome: Outcome)

  /** call, as a function of the state before it. */
  function CallFrom(s: CoreState, now: Moment, verb: Text, args: Text): Called {
    if now.cancelled then Called(s, Outcome(None, Err(Cancelled)))
    else
      var n := s.callSeq + 1;
      if !now.writable then Called(s.(callSeq := n), Outcome(Some(n), Err(WriteFailed)))
      else
        var t := s.(callSeq := n, output := s.output + [CallLine(s.protocol, s.requestId, CallId(n), verb, args)]);
        if s.input == [] then Called(t, Outcome(Some(n), Err(StreamClosed)))
        else Called(t.(input := s.input[1..]), Outcome(Some(n), ReadReply(CallId(n), s.input[0])))
  }

  /** core */
  class Core {
    var input: seq<Inbound>
    var output: seq<Line>
    const requestId: Text
    var callSeq: nat
    var protocol: Text

    ghost function View(): CoreState
      reads this
    {
      CoreState(protocol, requestId, callSeq, input, output)
    }

    constructor (input: seq<Inbound>, requestId: Text, protocol: Text)
      ensures View() == CoreState(protocol, requestId, 0, input, [])
    {
      this.input, this.output, this.requestId, this.callSeq, this.protocol := input, [], requestId, 0, protocol;
    }

    method WriteLine(line: Line, writable: bool) returns (ok: bool)
      modifies this`output
      ensures ok == writable
      ensures output == if ok then old(output) + [line] else old(output)
    {
      if writable {
        output := output + [line];
      }
      return writable;
    }

    /** call */
    method Call(now: Moment, verb: Text, args: Text) returns (outcome: Outcome)
      modifies this
      ensures Called(View(), outcome) == CallFrom(old(View()), now, verb, args)
    {
      if now.cancelled {
        return Outcome(None, Err(Cancelled));
      }
      callSeq := callSeq + 1;
      var callId := CallId(callSeq);
      var written := WriteLine(CallLine(protocol, requestId, callId, verb, args), now.writable);
      if !written {
        return Outcome(Some(callSeq), Err(WriteFailed));
      }
      if |input| == 0 {
        return Outcome(Some(callSeq), Err(StreamClosed));
      }
      var reply := input[0];
      input := input[1..];
      return Outcome(Some(callSeq), ReadReply(callId, reply));
    }

    method FinishOK(payload: Text, writable: bool) returns (exit: int)
      modifies this`output
      ensures exit == if writable then 0 else 1
      ensures output == old(output) + if writable then [FinalLine(protocol, requestId, Ok(payload))] else []
    {
      var ok := WriteLine(FinalLine(protocol, requestId, Ok(payload)), writable);
      return if ok then 0 else 1;
    }

    method FinishError(failure: Failure, writable: bool) returns (exit: int)
      modifies this`output
      ensures exit == if writable then 0 else 1
      ensures output == old(output) + if writable then [FinalLine(protocol, requestId, Err(failure))] else []
    {
      var ok := WriteLine(FinalLine(protocol, requestId, Err(failure)), writable);
      return if ok then 0 else 1;
    }
  }

  // An operation body, and the calls it makes.

  datatype Action = Invoke(verb: Text, args: Text) | Answer(result: Result<Text, Text>)

  type Body = seq<Outcome> -> Action

  datatype BodyRun = BodyRun(state: CoreState, history: seq<Outcome>)

  /** The body's calls, one a moment, until it answers or the moments end. */
  function RunBody(body: Body, s: CoreState, moments: seq<Moment>): BodyRun {
    if moments == [] then BodyRun(s, [])
    else
      var before := RunBody(body, s, moments[..|moments| - 1]);
      match body(before.history)
      case Answer(_) => before
      case Invoke(verb, args) =>
        var called := CallFrom(before.state, moments[|moments| - 1], verb, args);
        BodyRun(called.state, before.history + [called.outcome])
  }

  /** Running the body on a core, until it answers: None when it has not yet. */
  method Operate(c: Core, body: Body, moments: seq<Moment>) returns (answer: Option<Result<Text, Text>>)
    modifies c
    ensures c.View() == RunBody(body, old(c.View()), moments).state
    ensures var last := body(RunBody(body, old(c.View()), moments).history);
            answer == if last.Answer? then Some(last.result) else None
  {
    ghost var start := c.View();
    var history: seq<Outcome> := [];
    for i := 0 to |moments|
      invariant BodyRun(c.View(), history) == RunBody(body, start, moments[..i])
    {
      assert moments[..i + 1][..i] == moments[..i];
      match body(history) {
        case Answer(result) =>
          AnswerSticks(body, start, moments, i);
          return Some(result);
        case Invoke(verb, args) =>
          var outcome := c.Call(moments[i], verb, args);
          history := history + [outcome];
      }
    }
    assert moments[..|moments|] == moments;
    return match body(history) case Answer(result) => Some(result) case Invoke(_, _) => None;
  }

  lemma {:induction false} AnswerSticks(body: Body, s: CoreState, moments: seq<Moment>, i: nat)
    requires i <= |moments| && body(RunBody(body, s, moments[..i]).history).Answer?
    ensures RunBody(body, s, moments) == RunBody(body, s, moments[..i])
  {
    if i < |moments| {
      assert moments[..|moments| - 1][..i] == moments[..i];
      AnswerSticks(body, s, moments[..|moments| - 1], i);
    } else {
      assert moments[..i] == moments;
    }
  }

  // What every run of every body keeps.

  predicate IsWritten(o: Outcome) {
    o.call.Some? && o.result != Err(WriteFailed)
  }

  predicate WriteLost(o: Outcome) {
    o.call.Some? && o.result == Err(WriteFailed)
  }

  /** The numbers of the calls written. */
  function Written(history: seq<Outcome>): seq<nat> {
    if history == [] then []
    else
      var init, last := Written(history[..|history| - 1]), history[|history| - 1];
      if IsWritten(last) then init + [last.call.value] else init
  }

  /** How many numbers were taken. */
  function Taken(history: seq<Outcome>): nat {
    if history == [] then 0
    else Taken(history[..|history| - 1]) + if history[|history| - 1].call.Some? then 1 else 0
  }

  /** Calls take the numbers from one on, in order. */
  ghost predicate Numbered(history: seq<Outcome>) {
    forall k :: 0 <= k < |history| && history[k].call.Some? ==> history[k].call.value == Taken(history[..k]) + 1
  }

  ghost predicate Ascending(numbers: seq<nat>) {
    forall i, j :: 0 <= i < j < |numbers| ==> numbers[i] < numbers[j]
  }

  /** The lines are calls under these numbers, at this version, for this request. */
  ghost predicate CallLines(lines: seq<Line>, numbers: seq<nat>, protocol: Text, requestId: Text) {
    |lines| == |numbers| && forall i :: 0 <= i < |lines| ==>
      lines[i].CallLine? && lines[i].callId == CallId(numbers[i]) && lines[i].protocol == protocol && lines[i].requestId == requestId
  }

  /** The reply to a call that as many lines were read before. */
  function ReplyTo(sent: seq<Inbound>, read: nat, call: nat): Result<Text, Failure> {
    if read < |sent| then ReadReply(CallId(call), sent[read]) else Err(StreamClosed)
  }

  /** A call written is answered by the next line the core sent, and by no other. */
  ghost predicate Answered(sent: seq<Inbound>, read: nat, o: Outcome) {
    o.result ==
    if IsWritten(o) then ReplyTo(sent, read, o.call.value) else Err(if o.call.None? then Cancelled else WriteFailed)
  }

  /** The spelling of a call's number on the wire. */
  function WireId(n: nat): Text {
    Ascii("c") + Decimal(n)
  }

  /** What each result means. A value, and an error the core reports, are a reply to the
      very call. */
  ghost predicate FromReply(sent: seq<Inbound>, read: nat, o: Outcome) {
    match o.result
    case Ok(value) =>
      o.call.Some? && read < |sent| && exists error :: sent[read] == SandboxResult(WireId(o.call.value), true, value, error)
    case Err(Reported(e)) =>
      o.call.Some? && read < |sent| && exists value :: sent[read] == SandboxResult(WireId(o.call.value), false, value, Some(e))
    case Err(NoErrorObject) =>
      o.call.Some? && read < |sent| && exists value :: sent[read] == SandboxResult(WireId(o.call.value), false, value, None)
    case Err(WrongCallId) =>
      o.call.Some? && read < |sent| && sent[read].SandboxResult? && sent[read].callId != WireId(o.call.value)
    case Err(MalformedResult) => o.call.Some? && read < |sent| && sent[read].NotAResult?
    case Err(StreamClosed) => o.call.Some? && read >= |sent|
    case Err(WriteFailed) => o.call.Some?
    case Err(Cancelled) => o.call.None?
    case Err(_) => false
  }

  lemma AnsweredFromReply(sent: seq<Inbound>, read: nat, o: Outcome)
    requires Answered(sent, read, o)
    ensures FromReply(sent, read, o)
  {
    assert o.call.Some? ==> WireId(o.call.value) == CallId(o.call.value);
  }

  /** The numbers taken: all of them from one to callSeq, the written ones in order. */
  ghost predicate KeptNumbers(history: seq<Outcome>, callSeq: nat) {
    && callSeq == Taken(history) && Numbered(history)
    && (forall n :: n in Written(history) ==> 1 <= n <= callSeq) && Ascending(Written(history))
  }

  function Behind(sent: seq<Inbound>, read: nat): seq<Inbound> {
    if read < |sent| then sent[read..] else []
  }

  /** Each call written read one line, in order. */
  ghost predicate KeptAnswers(sent: seq<Inbound>, unread: seq<Inbound>, history: seq<Outcome>) {
    && unread == Behind(sent, |Written(history)|)
    && forall k :: 0 <= k < |history| ==> Answered(sent, |Written(history[..k])|, history[k])
  }

  ghost predicate Kept(start: CoreState, run: BodyRun) {
    var s := run.state;
    && s.protocol == start.protocol && s.requestId == start.requestId
    && KeptNumbers(run.history, s.callSeq)
    && CallLines(s.output, Written(run.history), start.protocol, start.requestId)
    && KeptAnswers(start.input, s.input, run.history)
  }

  lemma NumberedNext(history: seq<Outcome>, o: Outcome)
    requires Numbered(history) && (o.call.Some? ==> o.call.value == Taken(history) + 1)
    ensures Numbered(history + [o]) && Taken(history + [o]) == Taken(history) + if o.call.Some? then 1 else 0
    ensures Written(history + [o]) == Written(history) + if IsWritten(o) then [o.call.value] else []
  {
    var more := history + [o];
    assert more[..|history|] == history;
    forall k | 0 <= k < |more| && more[k].call.Some? ensures more[k].call.value == Taken(more[..k]) + 1 {
      assert more[..k] == history[..k];
      assert k == |history| ==> more[..k] == history;
    }
  }

  lemma AscendingNext(numbers: seq<nat>, n: nat)
    requires 1 <= n && Ascending(numbers) && forall m :: m in numbers ==> 1 <= m < n
    ensures Ascending(numbers + [n]) && forall m :: m in numbers + [n] ==> 1 <= m <= n
  {
    assert forall i :: 0 <= i < |numbers| ==> numbers[i] in numbers;
  }

  lemma NumbersNext(history: seq<Outcome>, callSeq: nat, o: Outcome)
    requires KeptNumbers(history, callSeq) && (o.call.Some? ==> o.call.value == callSeq + 1)
    ensures KeptNumbers(history + [o], if o.call.Some? then callSeq + 1 else callSeq)
    ensures Written(history + [o]) == if IsWritten(o) then Written(history) + [callSeq + 1] else Written(history)
  {
    NumberedNext(history, o);
    if IsWritten(o) {
      AscendingNext(Written(history), callSeq + 1);
    }
  }

  lemma OneMoreLine(lines: seq<Line>, numbers: seq<nat>, line: Line, n: nat)
    requires line.CallLine? && line.callId == CallId(n) && CallLines(lines, numbers, line.protocol, line.requestId)
    ensures CallLines(lines + [line], numbers + [n], line.protocol, line.requestId)
  {
  }

  lemma WrittenSnoc(history: seq<Outcome>, o: Outcome)
    ensures Written(history + [o]) == Written(history) + if IsWritten(o) then [o.call.value] else []
  {
    assert (history + [o])[..|history|] == history;
  }

  lemma AnsweredSnoc(sent: seq<Inbound>, history: seq<Outcome>, o: Outcome)
    requires forall k :: 0 <= k < |history| ==> Answered(sent, |Written(history[..k])|, history[k])
    requires Answered(sent, |Written(history)|, o)
    ensures var more := history + [o]; forall k :: 0 <= k < |more| ==> Answered(sent, |Written(more[..k])|, more[k])
  {
    var more := history + [o];
    forall k | 0 <= k < |more| ensures Answered(sent, |Written(more[..k])|, more[k]) {
      assert more[..k] == if k < |history| then history[..k] else history;
    }
  }

  /** What a call reads. */
  lemma CallReads(sent: seq<Inbound>, s: CoreState, read: nat, now: Moment, verb: Text, args: Text)
    requires s.input == Behind(sent, read)
    ensures var called := CallFrom(s, now, verb, args);
            var o := called.outcome;
            && called.state.input == Behind(sent, if IsWritten(o) then read + 1 else read)
            && Answered(sent, read, o)
  {
  }

  lemma AnswersNext(sent: seq<Inbound>, s: CoreState, history: seq<Outcome>, now: Moment, verb: Text, args: Text)
    requires KeptAnswers(sent, s.input, history)
    ensures var called := CallFrom(s, now, verb, args);
            KeptAnswers(sent, called.state.input, history + [called.outcome])
  {
    var o := CallFrom(s, now, verb, args).outcome;
    CallReads(sent, s, |Written(history)|, now, verb, args);
    WrittenSnoc(history, o);
    AnsweredSnoc(sent, history, o);
  }

  /** What a call does to the numbers and the lines. */
  lemma CallTakes(s: CoreState, now: Moment, verb: Text, args: Text)
    ensures var called := CallFrom(s, now, verb, args);
            var t, o := called.state, called.outcome;
            && t.protocol == s.protocol && t.requestId == s.requestId
            && (now.cancelled <==> o.call.None?)
            && t.callSeq == (if now.cancelled then s.callSeq else s.callSeq + 1)
            && (!now.cancelled ==> o.call == Some(s.callSeq + 1))
            && (IsWritten(o) <==> !now.cancelled && now.writable)
            && (WriteLost(o) <==> !now.cancelled && !now.writable)
            && t.output == if IsWritten(o) then s.output + [CallLine(s.protocol, s.requestId, CallId(s.callSeq + 1), verb, args)] else s.output
  {
  }

  lemma CallKeeps(start: CoreState, run: BodyRun, now: Moment, verb: Text, args: Text)
    requires Kept(start, run)
    ensures var called := CallFrom(run.state, now, verb, args);
            Kept(start, BodyRun(called.state, run.history + [called.outcome]))
  {
    var s := run.state;
    CallTakes(s, now, verb, args);
    NumbersNext(run.history, s.callSeq, CallFrom(s, now, verb, args).outcome);
    AnswersNext(start.input, s, run.history, now, verb, args);
    OneMoreLine(s.output, Written(run.history), CallLine(s.protocol, s.requestId, CallId(s.callSeq + 1), verb, args), s.callSeq + 1);
  }

  lemma {:induction false} RunKeeps(body: Body, start: CoreState, moments: seq<Moment>)
    requires start.callSeq == 0 && start.output == []
    ensures Kept(start, RunBody(body, start, moments))
  {
    if moments != [] {
      var init := moments[..|moments| - 1];
      RunKeeps(body, start, init);
      var before := RunBody(body, start, init);
      match body(before.history)
      case Answer(_) =>
      case Invoke(verb, args) => CallKeeps(start, before, moments[|moments| - 1], verb, args);
    }
  }

  /** Each call the body decides on goes out as decided, in its turn and under its
      number. */
  ghost predicate Decided(body: Body, history: seq<Outcome>, lines: seq<Line>, protocol: Text, requestId: Text) {
    && |lines| == |Written(history)|
    && forall k :: 0 <= k < |history| ==> DecidedAt(body, history, lines, protocol, requestId, k)
  }

  ghost predicate DecidedAt(body: Body, history: seq<Outcome>, lines: seq<Line>, protocol: Text, requestId: Text, k: int)
    requires 0 <= k < |history|
  {
    var action, turn := body(history[..k]), |Written(history[..k])|;
    && action.Invoke?
    && (IsWritten(history[k]) ==>
          turn < |lines| && lines[turn] == CallLine(protocol, requestId, WireId(Taken(history[..k]) + 1), action.verb, action.args))
  }

  lemma DecidedStays(body: Body, history: seq<Outcome>, lines: seq<Line>, o: Outcome, all: seq<Line>,
                     protocol: Text, requestId: Text, k: nat)
    requires k < |history| && DecidedAt(body, history, lines, protocol, requestId, k) && lines <= all
    ensures DecidedAt(body, history + [o], all, protocol, requestId, k)
  {
    assert (history + [o])[..k] == history[..k];
  }

  lemma DecidedNext(body: Body, history: seq<Outcome>, lines: seq<Line>, protocol: Text, requestId: Text, o: Outcome)
    requires Decided(body, history, lines, protocol, requestId) && body(history).Invoke?
    ensures var line := CallLine(protocol, requestId, WireId(Taken(history) + 1), body(history).verb, body(history).args);
            Decided(body, history + [o], if IsWritten(o) then lines + [line] else lines, protocol, requestId)
  {
    var line := CallLine(protocol, requestId, WireId(Taken(history) + 1), body(history).verb, body(history).args);
    var more, all := history + [o], if IsWritten(o) then lines + [line] else lines;
    WrittenSnoc(history, o);
    assert more[..|history|] == history;
    assert DecidedAt(body, more, all, protocol, requestId, |history|);
    forall k | 0 <= k < |history| ensures DecidedAt(body, more, all, protocol, requestId, k) {
      DecidedStays(body, history, lines, o, all, protocol, requestId, k);
    }
  }

  lemma CallIsDecided(body: Body, before: BodyRun, now: Moment)
    requires body(before.history).Invoke? && before.state.callSeq == Taken(before.history)
    requires Decided(body, before.history, before.state.output, before.state.protocol, before.state.requestId)
    ensures var called := CallFrom(before.state, now, body(before.history).verb, body(before.history).args);
            Decided(body, before.history + [called.outcome], called.state.output, before.state.protocol, before.state.requestId)
  {
    var s, action := before.state, body(before.history);
    CallTakes(s, now, action.verb, action.args);
    DecidedNext(body, before.history, s.output, s.protocol, s.requestId, CallFrom(s, now, action.verb, action.args).outcome);
    assert WireId(s.callSeq + 1) == CallId(s.callSeq + 1);
  }

  lemma {:induction false} RunDecides(body: Body, start: CoreState, moments: seq<Moment>)
    requires start.callSeq == 0 && start.output == []
    ensures var run := RunBody(body, start, moments);
            Decided(body, run.history, run.state.output, start.protocol, start.requestId)
  {
    if moments != [] {
      var init, now := moments[..|moments| - 1], moments[|moments| - 1];
      RunDecides(body, start, init);
      RunKeeps(body, start, init);
      var before := RunBody(body, start, init);
      if body(before.history).Invoke? {
        CallIsDecided(body, before, now);
      }
    }
  }

  /** One, two, three and so on. */
  ghost predicate Gapless(numbers: seq<nat>) {
    forall i :: 0 <= i < |numbers| ==> numbers[i] == i + 1
  }

  lemma {:induction false} NothingLost(history: seq<Outcome>)
    ensures |Written(history)| <= Taken(history)
    ensures |Written(history)| == Taken(history) <==> forall k :: 0 <= k < |history| ==> !WriteLost(history[k])
  {
    if history != [] {
      var init := history[..|history| - 1];
      NothingLost(init);
      assert forall k :: 0 <= k < |init| ==> history[k] == init[k];
      assert history == init + [history[|history| - 1]];
    }
  }

  /** The numbers on the wire have no gap exactly when no call was written after one
      whose write failed. */
  lemma {:induction false} GaplessIffNoneLostBefore(history: seq<Outcome>)
    requires Numbered(history)
    ensures Gapless(Written(history)) <==>
            forall j, k :: 0 <= j < k < |history| && WriteLost(history[j]) ==> !IsWritten(history[k])
  {
    if history != [] {
      var init, last := history[..|history| - 1], history[|history| - 1];
      assert history == init + [last];
      assert Numbered(init) by {
        forall k | 0 <= k < |init| ensures init[k] == history[k] && init[..k] == history[..k] {}
      }
      GaplessIffNoneLostBefore(init);
      NothingLost(init);
      assert forall k :: 0 <= k < |init| ==> history[k] == init[k];
      if IsWritten(last) {
        var w := Written(init);
        assert Written(history) == w + [Taken(init) + 1];
        assert forall i :: 0 <= i < |w| ==> Written(history)[i] == w[i];
        assert Written(history)[|w|] == Taken(init) + 1;
      }
    }
  }

  /** The moments in which a call takes a number and its write fails; and in which it is
      written. */
  predicate Loses(now: Moment) {
    !now.cancelled && !now.writable
  }

  predicate Writes(now: Moment) {
    !now.cancelled && now.writable
  }

  /** No write succeeds after one that failed. */
  ghost predicate LossesLast(moments: seq<Moment>) {
    forall i, j :: 0 <= i < j < |moments| && Loses(moments[i]) ==> !Writes(moments[j])
  }

  /** The k-th call is made in the k-th moment, which decides what becomes of its line. */
  lemma {:induction false} CallsFollowMoments(body: Body, start: CoreState, moments: seq<Moment>)
    ensures var history := RunBody(body, start, moments).history;
            && |history| <= |moments|
            && (|history| == |moments| || body(history).Answer?)
            && forall k :: 0 <= k < |history| ==>
                 (WriteLost(history[k]) <==> Loses(moments[k])) && (IsWritten(history[k]) <==> Writes(moments[k]))
  {
    if moments != [] {
      var init, now := moments[..|moments| - 1], moments[|moments| - 1];
      CallsFollowMoments(body, start, init);
      var before := RunBody(body, start, init);
      match body(before.history)
      case Answer(_) =>
      case Invoke(verb, args) =>
        CallTakes(before.state, now, verb, args);
    }
  }

  lemma RunIsNumbered(body: Body, start: CoreState, moments: seq<Moment>)
    requires start.callSeq == 0 && start.output == []
    ensures Numbered(RunBody(body, start, moments).history)
  {
    RunKeeps(body, start, moments);
  }

  lemma LossesAlike(history: seq<Outcome>, moments: seq<Moment>)
    requires |history| <= |moments|
    requires forall k :: 0 <= k < |history| ==>
               (WriteLost(history[k]) <==> Loses(moments[k])) && (IsWritten(history[k]) <==> Writes(moments[k]))
    ensures LossesLast(moments[..|history|]) <==>
            forall j, k :: 0 <= j < k < |history| && WriteLost(history[j]) ==> !IsWritten(history[k])
  {
    var made := moments[..|history|];
    assert forall k :: 0 <= k < |history| ==> made[k] == moments[k];
  }

  /** The numbers a body writes have no gap exactly when, among the moments it makes its
      calls in, no writable one follows one that was not. */
  lemma GaplessIffLossesLast(body: Body, start: CoreState, moments: seq<Moment>)
    requires start.callSeq == 0 && start.output == []
    ensures var history := RunBody(body, start, moments).history;
            |history| <= |moments| && (Gapless(Written(history)) <==> LossesLast(moments[..|history|]))
  {
    RunIsNumbered(body, start, moments);
    CallsFollowMoments(body, start, moments);
    var history := RunBody(body, start, moments).history;
    GaplessIffNoneLostBefore(history);
    LossesAlike(history, moments);
  }

  /** A body that calls on whatever its calls came to, as a poll does that drops their
      errors. */
  const PERSISTENT: Body := (history: seq<Outcome>) => Invoke([], [])

  lemma PersistentUsesEveryMoment(start: CoreState, moments: seq<Moment>)
    ensures |RunBody(PERSISTENT, start, moments).history| == |moments|
  {
    CallsFollowMoments(PERSISTENT, start, moments);
  }

  /** Which environments leave every body's calls numbered without a gap: exactly those in
      which no write succeeds after one that failed. */
  lemma EveryBodyGaplessIff(start: CoreState, moments: seq<Moment>)
    requires start.callSeq == 0 && start.output == []
    ensures (forall body :: Gapless(Written(RunBody(body, start, moments).history))) <==> LossesLast(moments)
  {
    forall body ensures LossesLast(moments) ==> Gapless(Written(RunBody(body, start, moments).history)) {
      GaplessIffLossesLast(body, start, moments);
    }
    PersistentUsesEveryMoment(start, moments);
    GaplessIffLossesLast(PERSISTENT, start, moments);
    assert moments[..|moments|] == moments;
  }

  /** A run with a gap: the first write fails, the body calls on, and the first line the
      core sees is call two. */
  lemma LostWriteLeavesGap(start: CoreState)
    requires start.callSeq == 0 && start.output == []
    ensures var run := RunBody(PERSISTENT, start, [Moment(false, false), Moment(false, true)]);
            && Written(run.history) == [2]
            && run.state.output == [CallLine(start.protocol, start.requestId, CallId(2), [], [])]
  {
    var lost, kept := Moment(false, false), Moment(false, true);
    assert [lost, kept][..1] == [lost] && [lost][..0] == [];
    var first := CallFrom(start, lost, [], []);
    assert RunBody(PERSISTENT, start, []) == BodyRun(start, []);
    assert RunBody(PERSISTENT, start, [lost]) == BodyRun(first.state, [first.outcome]);
    var second := CallFrom(first.state, kept, [], []);
    CallTakes(start, lost, [], []);
    CallTakes(first.state, kept, [], []);
    assert RunBody(PERSISTENT, start, [lost, kept]) == BodyRun(second.state, [first.outcome] + [second.outcome]);
    NumbersNext([], 0, first.outcome);
    assert [] + [first.outcome] == [first.outcome];
    NumbersNext([first.outcome], 1, second.outcome);
  }

  /** A cancelled operation stays cancelled. */
  ghost predicate CancelSticks(moments: seq<Moment>) {
    forall i, j :: 0 <= i < j < |moments| && moments[i].cancelled ==> moments[j].cancelled
  }

  /** From the moment of the cancellation on nothing is written or read. */
  lemma {:induction false} NothingAfterCancel(body: Body, start: CoreState, moments: seq<Moment>, k: nat)
    requires k < |moments| && CancelSticks(moments) && moments[k].cancelled
    ensures RunBody(body, start, moments).state == RunBody(body, start, moments[..k]).state
  {
    var init := moments[..|moments| - 1];
    if k == |init| {
      assert moments[..k] == init;
    } else {
      assert moments[k].cancelled && moments[|moments| - 1].cancelled;
      assert init[..k] == moments[..k];
      NothingAfterCancel(body, start, init, k);
    }
  }

  // The whole operation.

  datatype Op = Probe | Provision | Healthcheck | Teardown | OtherOp

  /** The first line, as JSON reads it. */
  datatype Request =
    | NoRequest
    | NotJson
    | Request(protocol: Text, requestId: Text, op: Op)

  const PROBE_PAYLOAD: Text := Ascii("capabilities")
  const RELEASED: Text := Ascii("released")

  /** Every line carries the version asked for, or the floor where that one is not
      spoken. */
  function ReplyProtocol(request: Request): Text
    requires request.Request?
  {
    if Speaks(request.protocol) then request.protocol else PROTOCOL_FLOOR
  }

  predicate MayCall(request: Request) {
    request.Request? && Speaks(request.protocol) && (request.op.Provision? || request.op.Healthcheck?)
  }

  ghost predicate AnswersLast(output: seq<Line>) {
    output != [] && output[|output| - 1].FinalLine?
  }

  ghost function Calls(output: seq<Line>): seq<Line> {
    if AnswersLast(output) then output[..|output| - 1] else output
  }

  /** Calls, numbered upwards, then at most one final response; all at one version. */
  ghost predicate WellFormed(request: Request, output: seq<Line>, history: seq<Outcome>) {
    if !request.Request? then output == []
    else
      && CallLines(Calls(output), Written(history), ReplyProtocol(request), request.requestId)
      && Numbered(history) && Ascending(Written(history))
      && (AnswersLast(output) ==>
            output[|output| - 1].protocol == ReplyProtocol(request) && output[|output| - 1].requestId == request.requestId)
      && (!MayCall(request) ==> history == [])
  }

  /** What the final response says. */
  ghost predicate Tells(request: Request, body: Body, history: seq<Outcome>, outcome: Result<Text, Failure>)
    requires request.Request?
  {
    if request.protocol != Ascii("probavi-adapter/1") && request.protocol != Ascii("probavi-adapter/0") then
      outcome == Err(UnsupportedProtocol)
    else
      match request.op
      case Probe => outcome == Ok(Ascii("capabilities"))
      case Teardown => outcome == Ok(Ascii("released"))
      case OtherOp => outcome == Err(UnknownOp)
      case _ =>
        match body(history)
        case Invoke(_, _) => false
        case Answer(Ok(payload)) => outcome == Ok(payload)
        case Answer(Err(e)) => outcome == Err(OpFailed(e))
  }

  /** The version every line is written in. */
  function SpokenVersion(request: Request): Text
    requires request.Request?
  {
    if request.protocol == Ascii("probavi-adapter/1") then Ascii("probavi-adapter/1") else Ascii("probavi-adapter/0")
  }

  /** The output of an operation: the calls its body decided on, then the response that
      tells what it came to. */
  ghost predicate Said(request: Request, body: Body, history: seq<Outcome>, output: seq<Line>) {
    if !request.Request? then output == []
    else
      && Decided(body, history, Calls(output), SpokenVersion(request), request.requestId)
      && (AnswersLast(output) ==>
            var last := output[|output| - 1];
            && last.protocol == SpokenVersion(request) && last.requestId == request.requestId
            && Tells(request, body, history, last.outcome))
  }

  lemma RepliesAsSpoken(request: Request)
    requires request.Request?
    ensures ReplyProtocol(request) == SpokenVersion(request)
    ensures Speaks(request.protocol) <==>
            request.protocol == Ascii("probavi-adapter/1") || request.protocol == Ascii("probavi-adapter/0")
  {
  }

  lemma SaidByFinish(request: Request, body: Body, history: seq<Outcome>, calls: seq<Line>, outcome: Result<Text, Failure>)
    requires request.Request? && !AnswersLast(calls)
    requires Decided(body, history, calls, ReplyProtocol(request), request.requestId) && Tells(request, body, history, outcome)
    ensures Said(request, body, history, calls)
    ensures Said(request, body, history, calls + [FinalLine(ReplyProtocol(request), request.requestId, outcome)])
  {
    RepliesAsSpoken(request);
    var all := calls + [FinalLine(ReplyProtocol(request), request.requestId, outcome)];
    assert Calls(all) == calls && Calls(calls) == calls;
  }

  /** accept: the core, or none when nothing usable came; and the refusal, if any. */
  method Accept(request: Request, input: seq<Inbound>) returns (c: Core?, refusal: Option<Failure>)
    ensures c == null <==> !request.Request?
    ensures c != null ==> fresh(c) && c.requestId == request.requestId
    ensures c != null ==> c.View() == CoreState(ReplyProtocol(request), request.requestId, 0, input, [])
    ensures refusal.None? <==> request.Request? && Speaks(request.protocol)
    ensures refusal.Some? ==> refusal.value == if request.Request? then UnsupportedProtocol else MalformedResult
  {
    match request {
      case NoRequest => return null, Some(MalformedResult);
      case NotJson => return null, Some(MalformedResult);
      case Request(protocol, requestId, _) =>
        c := new Core(input, requestId, protocol);
        if !Speaks(protocol) {
          c.protocol := PROTOCOL_FLOOR;
          return c, Some(UnsupportedProtocol);
        }
        return c, None;
    }
  }

  lemma CallsOnly(request: Request, calls: seq<Line>, history: seq<Outcome>)
    requires request.Request? && Numbered(history) && Ascending(Written(history)) && (!MayCall(request) ==> history == [])
    requires CallLines(calls, Written(history), ReplyProtocol(request), request.requestId)
    ensures WellFormed(request, calls, history) && !AnswersLast(calls)
  {
  }

  lemma ThenAnswer(request: Request, calls: seq<Line>, history: seq<Outcome>, last: Line)
    requires request.Request? && Numbered(history) && Ascending(Written(history)) && (!MayCall(request) ==> history == [])
    requires CallLines(calls, Written(history), ReplyProtocol(request), request.requestId)
    requires last.FinalLine? && last.protocol == ReplyProtocol(request) && last.requestId == request.requestId
    ensures WellFormed(request, calls + [last], history) && AnswersLast(calls + [last])
  {
    assert (calls + [last])[..|calls|] == calls;
  }

  /** The end of run: the answer, whatever it is, as the last line. */
  method Finish(c: Core, answer: Result<Text, Failure>, writable: bool, request: Request, ghost history: seq<Outcome>) returns (exit: int)
    requires request.Request? && Numbered(history) && Ascending(Written(history)) && (!MayCall(request) ==> history == [])
    requires CallLines(c.output, Written(history), ReplyProtocol(request), request.requestId)
    requires c.protocol == ReplyProtocol(request) && c.requestId == request.requestId
    modifies c`output
    ensures WellFormed(request, c.output, history)
    ensures exit == (if writable then 0 else 1) && (writable <==> AnswersLast(c.output))
    ensures c.output ==
            if writable then old(c.output) + [FinalLine(ReplyProtocol(request), request.requestId, answer)] else old(c.output)
    ensures !AnswersLast(old(c.output))
  {
    ghost var calls := c.output;
    CallsOnly(request, calls, history);
    ThenAnswer(request, calls, history, FinalLine(c.protocol, c.requestId, answer));
    match answer {
      case Ok(payload) => exit := c.FinishOK(payload, writable);
      case Err(failure) => exit := c.FinishError(failure, writable);
    }
    assert !writable ==> c.output == calls;
  }

  ghost function StartOf(request: Request, input: seq<Inbound>): CoreState
    requires request.Request?
  {
    CoreState(ReplyProtocol(request), request.requestId, 0, input, [])
  }

  /** The calls an operation makes: none, unless it has a body. */
  ghost function HistoryOf(request: Request, input: seq<Inbound>, body: Body, moments: seq<Moment>): seq<Outcome> {
    if MayCall(request) then RunBody(body, StartOf(request, input), moments).history else []
  }

  /** What a body has written before it is finished. */
  lemma CallsSaid(request: Request, input: seq<Inbound>, body: Body, moments: seq<Moment>)
    requires MayCall(request)
    ensures var run, history := RunBody(body, StartOf(request, input), moments), HistoryOf(request, input, body, moments);
            && run.history == history && Numbered(history) && Ascending(Written(history))
            && CallLines(run.state.output, Written(history), ReplyProtocol(request), request.requestId)
            && Decided(body, history, run.state.output, ReplyProtocol(request), request.requestId)
            && run.state.protocol == ReplyProtocol(request) && !AnswersLast(run.state.output)
            && WellFormed(request, run.state.output, history) && Said(request, body, history, run.state.output)
  {
    var run := RunBody(body, StartOf(request, input), moments);
    RunKeeps(body, StartOf(request, input), moments);
    RunDecides(body, StartOf(request, input), moments);
    CallsOnly(request, run.state.output, run.history);
    RepliesAsSpoken(request);
  }

  function OutcomeOf(answer: Result<Text, Text>): Result<Text, Failure> {
    match answer
    case Ok(payload) => Ok(payload)
    case Err(e) => Err(OpFailed(e))
  }

  /** The arms of run's switch that run a body. */
  method RunOp(c: Core, request: Request, input: seq<Inbound>, body: Body, moments: seq<Moment>, finalWritable: bool)
    returns (exit: Option<int>)
    requires MayCall(request) && c.View() == StartOf(request, input) && c.requestId == request.requestId
    modifies c
    ensures WellFormed(request, c.output, HistoryOf(request, input, body, moments))
    ensures exit == Some(0) <==> AnswersLast(c.output)
    ensures exit.Some? && exit != Some(0) ==> exit == Some(1) && !finalWritable
    ensures exit.None? <==> body(HistoryOf(request, input, body, moments)).Invoke?
    ensures Said(request, body, HistoryOf(request, input, body, moments), c.output)
  {
    CallsSaid(request, input, body, moments);
    ghost var history := HistoryOf(request, input, body, moments);
    var answer := Operate(c, body, moments);
    if answer.None? {
      return None;
    }
    var outcome := OutcomeOf(answer.value);
    SaidByFinish(request, body, history, c.output, outcome);
    var code := Finish(c, outcome, finalWritable, request, history);
    return Some(code);
  }

  /** run: exit 0 exactly when a final response was written, as the last line, and it tells
      what the operation came to; None while the body still runs when the moments end. */
  method Run(request: Request, input: seq<Inbound>, body: Body, moments: seq<Moment>, finalWritable: bool)
    returns (exit: Option<int>, output: seq<Line>)
    ensures WellFormed(request, output, HistoryOf(request, input, body, moments))
    ensures exit == Some(0) <==> AnswersLast(output)
    ensures exit.Some? && exit != Some(0) ==> exit == Some(1) && (!request.Request? || !finalWritable)
    ensures exit.None? <==> MayCall(request) && body(HistoryOf(request, input, body, moments)).Invoke?
    ensures Said(request, body, HistoryOf(request, input, body, moments), output)
  {
    var c, refusal := Accept(request, input);
    if c == null {
      return Some(1), [];
    }
    RepliesAsSpoken(request);
    var code;
    if refusal.Some? {
      SaidByFinish(request, body, [], c.output, Err(refusal.value));
      code := Finish(c, Err(refusal.value), finalWritable, request, []);
      return Some(code), c.output;
    }
    match request.op {
      case Probe =>
        SaidByFinish(request, body, [], c.output, Ok(PROBE_PAYLOAD));
        code := Finish(c, Ok(PROBE_PAYLOAD), finalWritable, request, []);
      case Teardown =>
        SaidByFinish(request, body, [], c.output, Ok(RELEASED));
        code := Finish(c, Ok(RELEASED), finalWritable, request, []);
      case OtherOp =>
        SaidByFinish(request, body, [], c.output, Err(UnknownOp));
        code := Finish(c, Err(UnknownOp), finalWritable, request, []);
      case _ =>
        exit := RunOp(c, request, input, body, moments, finalWritable);
        return exit, c.output;
    }
    return Some(code), c.output;
  }

  /** A body gets a value, or an error the core reports, from nothing but a reply to that
      very call, and from the one line that is its turn: the n-th call written is answered
      by the n-th line the core sent, and refused when that bears another call's id. */
  lemma ValuesAreAnswers(request: Request, input: seq<Inbound>, body: Body, moments: seq<Moment>, k: nat)
    requires k < |HistoryOf(request, input, body, moments)|
    ensures var history := HistoryOf(request, input, body, moments);
            var o, read := history[k], |Written(history[..k])|;
            && k < |moments| && (IsWritten(o) <==> Writes(moments[k]))
            && Answered(input, read, o) && FromReply(input, read, o)
  {
    var start := StartOf(request, input);
    RunKeeps(body, start, moments);
    CallsFollowMoments(body, start, moments);
    var history := RunBody(body, start, moments).history;
    AnsweredFromReply(input, |Written(history[..k])|, history[k]);
  }

  /** On the wire, for an operation that may call: whatever its body, its calls are
      numbered without a gap exactly when no write succeeds after one that failed. */
  lemma WireIsGaplessIff(request: Request, input: seq<Inbound>, moments: seq<Moment>)
    ensures (forall body :: Gapless(Written(HistoryOf(request, input, body, moments)))) <==>
            !MayCall(request) || LossesLast(moments)
  {
    if MayCall(request) {
      var start := StartOf(request, input);
      forall body ensures LossesLast(moments) ==> Gapless(Written(HistoryOf(request, input, body, moments))) {
        GaplessIffLossesLast(body, start, moments);
      }
      PersistentUsesEveryMoment(start, moments);
      GaplessIffLossesLast(PERSISTENT, start, moments);
      assert moments[..|moments|] == moments;
      assert HistoryOf(request, input, PERSISTENT, moments) == RunBody(PERSISTENT, start, moments).history;
    } else {
      forall body ensures Gapless(Written(HistoryOf(request, input, body, moments))) {
        assert HistoryOf(request, input, body, moments) == [];
      }
    }
  }
}

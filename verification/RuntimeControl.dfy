/**
 The readiness handshake, src/runtime-control.ts `checkRuntimeReady`: a line
 framed exchange over a socket, hello, then initialize, then status or refresh.
 */
module RuntimeControl {
  import opened Bytes
  import opened Texts

  /** Received text, in UTF-16 code units. */
  type Units = seq<U16>

  const NEWLINE: U16 := 10
  const LIMIT: nat := 1024 * 1024

  // ----- messages -----

  /** A JSON value as the checks see it: Other is an array, an object or a fraction. */
  datatype Value = Absent | Null | Bool(b: bool) | Num(n: int) | Str(s: Units) | Other

  /** The fields of a message that are looked at; `status` is the joined text content of the result. */
  datatype Message = Message(
    protocol: Value, pid: Value, codegraph: Value,
    writerProtocol: Value, watcherProjectRoot: Value, watcherActive: Value, watcherReady: Value,
    refreshProtocol: Value,
    id: Value, error: Value,
    serverVersion: Value,
    resultPid: Value, resultVersion: Value, resultProjectRoot: Value, refreshed: Value,
    isError: Value, status: Units)

  datatype Reply = NotJson | NotObject | Object(message: Message)

  /** What is expected of the daemon, how a line parses, and what a status report looks like. */
  datatype Config = Config(
    parse: Units -> Reply, isStatusReport: Units -> bool,
    projectRoot: Units, pid: int, version: Units, requireWatcher: bool, refresh: bool)

  datatype Phase = Hello | Initialize | Refresh | Status

  datatype Failure =
    | SocketError | Closed | TimedOut | TooLong | InvalidResponse
    | IdentityChanged | WatcherNotReady | NoReconciliation | BuildMismatch
    | ReconciliationFailed | StatusFailed

  datatype Outcome = Pending | Ready | Failed(why: Failure)

  datatype Request = InitializeRequest | InitializedNotification | RefreshRequest | StatusRequest

  predicate Truthy(v: Value) {
    match v
    case Absent => false
    case Null => false
    case Bool(b) => b
    case Num(n) => n != 0
    case Str(s) => s != []
    case Other => true
  }

  // ----- the exchange, line by line -----

  datatype State = State(phase: Phase, outcome: Outcome, written: seq<Request>)

  const START := State(Hello, Pending, [])

  function Fail(s: State, why: Failure): State {
    s.(outcome := Failed(why))
  }

  function HelloFailure(c: Config, m: Message): (r: Outcome)
    ensures r != Ready
  {
    if m.protocol != Num(1) || m.pid != Num(c.pid) || m.codegraph != Str(c.version) then Failed(IdentityChanged)
    else if c.requireWatcher && !WatcherReady(c, m) then Failed(WatcherNotReady)
    else if c.refresh && m.refreshProtocol != Num(1) then Failed(NoReconciliation)
    else Pending
  }

  predicate WatcherReady(c: Config, m: Message) {
    && m.writerProtocol == Num(1) && m.watcherProjectRoot == Str(c.projectRoot)
    && m.watcherActive == Bool(true) && m.watcherReady == Bool(true)
  }

  predicate BuildMatches(c: Config, m: Message) {
    !Truthy(m.error) && m.serverVersion == Str(c.version)
  }

  predicate Reconciled(c: Config, m: Message) {
    && !Truthy(m.error) && m.resultPid == Num(c.pid) && m.resultVersion == Str(c.version)
    && m.resultProjectRoot == Str(c.projectRoot) && m.refreshed == Bool(true)
  }

  predicate ReportsStatus(c: Config, m: Message) {
    !Truthy(m.error) && !Truthy(m.isError) && c.isStatusReport(m.status)
  }

  function LastPhase(c: Config): Phase {
    if c.refresh then Refresh else Status
  }

  function LastRequest(c: Config): Request {
    if c.refresh then RefreshRequest else StatusRequest
  }

  /** What one complete line does to a pending exchange. */
  function Step(c: Config, s: State, line: Units): State {
    match c.parse(line)
    case NotJson => Fail(s, InvalidResponse)
    case NotObject => Fail(s, InvalidResponse)
    case Object(m) =>
      match s.phase
      case Hello =>
        if HelloFailure(c, m) != Pending then s.(outcome := HelloFailure(c, m))
        else State(Initialize, Pending, s.written + [InitializeRequest])
      case Initialize =>
        if m.id != Num(1) then s
        else if !BuildMatches(c, m) then Fail(s, BuildMismatch)
        else State(LastPhase(c), Pending, s.written + [InitializedNotification, LastRequest(c)])
      case Refresh =>
        if m.id != Num(2) then s
        else if Reconciled(c, m) then s.(outcome := Ready) else Fail(s, ReconciliationFailed)
      case Status =>
        if m.id != Num(2) then s
        else if ReportsStatus(c, m) then s.(outcome := Ready) else Fail(s, StatusFailed)
  }

  // ----- framing -----

  /** Where the first line ends; the length when it has not yet. */
  function LineEnd(b: Units): (end: nat)
    ensures end <= |b| && (end < |b| ==> b[end] == NEWLINE) && forall i :: 0 <= i < end ==> b[i] != NEWLINE
  {
    if b == [] || b[0] == NEWLINE then 0
    else
      assert forall i :: 1 <= i < 1 + LineEnd(b[1..]) ==> b[i] == b[1..][i - 1];
      1 + LineEnd(b[1..])
  }

  /** What is buffered, and where the exchange stands. */
  datatype Session = Session(buffer: Units, state: State)

  /** Takes complete lines off the buffer while the outcome is open. */
  function Drain(c: Config, s: Session): Session
    decreases |s.buffer|
  {
    var end := LineEnd(s.buffer);
    if s.state.outcome != Pending || end == |s.buffer| then s
    else Drain(c, Session(s.buffer[end + 1..], Step(c, s.state, s.buffer[..end])))
  }

  /** An arrival; the limit is on what is buffered before any line is taken off. */
  function Arrive(c: Config, s: Session, chunk: Units): Session {
    if |s.buffer + chunk| > LIMIT then Session(s.buffer + chunk, Decide(s.state, Failed(TooLong)))
    else Drain(c, Session(s.buffer + chunk, s.state))
  }

  /** The outcome is decided once. */
  function Decide(s: State, o: Outcome): State {
    if s.outcome == Pending then s.(outcome := o) else s
  }

  datatype Event = Data(chunk: Units) | Error | Close | Timeout

  function React(c: Config, s: Session, e: Event): Session {
    match e
    case Data(chunk) => Arrive(c, s, chunk)
    case Error => s.(state := Decide(s.state, Failed(SocketError)))
    case Close => s.(state := Decide(s.state, Failed(Closed)))
    case Timeout => s.(state := Decide(s.state, Failed(TimedOut)))
  }

  function Run(c: Config, s: Session, events: seq<Event>): Session
    decreases |events|
  {
    if events == [] then s else Run(c, React(c, s, events[0]), events[1..])
  }

  // ----- the handler as it runs -----

  class Client {
    const config: Config
    var buffer: Units
    var phase: Phase
    var done: bool
    var outcome: Outcome
    var written: seq<Request>

    ghost predicate Valid()
      reads this
    {
      done <==> outcome != Pending
    }

    ghost function Now(): Session
      reads this
    {
      Session(buffer, State(phase, outcome, written))
    }

    constructor (config: Config)
      ensures this.config == config && Valid() && Now() == Session([], START)
    {
      this.config := config;
      buffer, phase, done, outcome, written := [], Hello, false, Pending, [];
    }

    method Finish(o: Outcome)
      requires Valid() && o != Pending
      modifies this`done, this`outcome
      ensures Valid()
      ensures Now() == old(Now()).(state := Decide(old(Now()).state, o))
    {
      if done {
        return;
      }
      done, outcome := true, o;
    }

    method Write(r: Request)
      modifies this`written
      ensures written == old(written) + [r]
    {
      written := written + [r];
    }

    method OnData(chunk: Units)
      requires Valid()
      modifies this
      ensures Valid() && Now() == Arrive(config, old(Now()), chunk)
    {
      buffer := buffer + chunk;
      if |buffer| > LIMIT {
        Finish(Failed(TooLong));
        return;
      }
      var end := LineEnd(buffer);
      while !done && end < |buffer|
        invariant Valid() && end == LineEnd(buffer)
        invariant Drain(config, Now()) == Drain(config, Session(old(buffer) + chunk, old(Now()).state))
        decreases |buffer|
      {
        var line := buffer[..end];
        buffer := buffer[end + 1..];
        OnLine(line);
        end := LineEnd(buffer);
      }
    }

    method OnLine(line: Units)
      requires Valid() && outcome == Pending
      modifies this`phase, this`done, this`outcome, this`written
      ensures Valid()
      ensures Now() == Session(buffer, Step(config, old(Now()).state, line))
    {
      var reply := config.parse(line);
      if !reply.Object? {
        Finish(Failed(InvalidResponse));
        return;
      }
      var msg := reply.message;
      match phase {
        case Hello =>
          var failure := HelloFailure(config, msg);
          if failure != Pending {
            Finish(failure);
            return;
          }
          phase := Initialize;
          Write(InitializeRequest);
        case Initialize =>
          if msg.id == Num(1) {
            if !BuildMatches(config, msg) {
              Finish(Failed(BuildMismatch));
              return;
            }
            phase := LastPhase(config);
            Write(InitializedNotification);
            Write(LastRequest(config));
          }
        case Refresh =>
          if msg.id == Num(2) {
            Finish(if Reconciled(config, msg) then Ready else Failed(ReconciliationFailed));
          }
        case Status =>
          if msg.id == Num(2) {
            Finish(if ReportsStatus(config, msg) then Ready else Failed(StatusFailed));
          }
      }
    }

    method On(e: Event)
      requires Valid()
      modifies this
      ensures Valid() && Now() == React(config, old(Now()), e)
    {
      match e
      case Data(chunk) => OnData(chunk);
      case Error => Finish(Failed(SocketError));
      case Close => Finish(Failed(Closed));
      case Timeout => Finish(Failed(TimedOut));
    }
  }

  // ----- chunk boundaries do not matter -----

  function Concat(chunks: seq<Units>): Units {
    if chunks == [] then [] else chunks[0] + Concat(chunks[1..])
  }

  function ArriveAll(c: Config, s: Session, chunks: seq<Units>): Session
    decreases |chunks|
  {
    if chunks == [] then s else ArriveAll(c, Arrive(c, s, chunks[0]), chunks[1..])
  }

  lemma LineEndStays(b: Units, more: Units)
    requires LineEnd(b) < |b|
    ensures LineEnd(b + more) == LineEnd(b)
  {
    var end := LineEnd(b);
    assert (b + more)[end] == b[end];
    assert forall i :: 0 <= i < end ==> (b + more)[i] == b[i];
  }

  /** More behind a complete line does not change the line. */
  lemma FirstLineStays(b: Units, more: Units)
    requires LineEnd(b) < |b|
    ensures LineEnd(b + more) == LineEnd(b)
    ensures (b + more)[..LineEnd(b)] == b[..LineEnd(b)] && (b + more)[LineEnd(b) + 1..] == b[LineEnd(b) + 1..] + more
  {
    LineEndStays(b, more);
  }

  /** Draining early and then again with more is draining once. */
  lemma {:induction false} DrainInTwo(c: Config, s: Session, more: Units)
    ensures var d := Drain(c, s);
      Drain(c, Session(d.buffer + more, d.state)) == Drain(c, Session(s.buffer + more, s.state))
    decreases |s.buffer|
  {
    var end := LineEnd(s.buffer);
    if s.state.outcome == Pending && end < |s.buffer| {
      FirstLineStays(s.buffer, more);
      DrainGoesOn(c, s, Step(c, s.state, s.buffer[..end]));
      DrainGoesOn(c, Session(s.buffer + more, s.state), Step(c, s.state, s.buffer[..end]));
      DrainInTwo(c, Session(s.buffer[end + 1..], Step(c, s.state, s.buffer[..end])), more);
    }
  }

  lemma DrainGoesOn(c: Config, s: Session, next: State)
    requires s.state.outcome == Pending && LineEnd(s.buffer) < |s.buffer|
    requires next == Step(c, s.state, s.buffer[..LineEnd(s.buffer)])
    ensures Drain(c, s) == Drain(c, Session(s.buffer[LineEnd(s.buffer) + 1..], next))
  {}

  /** No complete line is left that could matter. */
  predicate Settled(s: Session) {
    s.state.outcome != Pending || LineEnd(s.buffer) == |s.buffer|
  }

  lemma {:induction false} DrainSettles(c: Config, s: Session)
    ensures var d := Drain(c, s);
      && |d.buffer| <= |s.buffer| && Settled(d)
      && (s.state.outcome != Failed(TooLong) ==> d.state.outcome != Failed(TooLong))
    decreases |s.buffer|
  {
    var end := LineEnd(s.buffer);
    if s.state.outcome == Pending && end < |s.buffer| {
      DrainSettles(c, Session(s.buffer[end + 1..], Step(c, s.state, s.buffer[..end])));
    }
  }

  lemma {:induction false} DecidedStays(c: Config, s: Session, chunks: seq<Units>)
    requires s.state.outcome != Pending
    ensures ArriveAll(c, s, chunks).state == s.state
    ensures Drain(c, Session(s.buffer + Concat(chunks), s.state)).state == s.state
    decreases |chunks|
  {
    if chunks != [] {
      DecidedStays(c, Arrive(c, s, chunks[0]), chunks[1..]);
    }
  }

  // ----- what success means -----

  /** The complete lines of a stream. */
  function Lines(stream: Units): seq<Units> {
    var parts := Split(stream, NEWLINE);
    parts[..|parts| - 1]
  }

  function Steps(c: Config, s: State, lines: seq<Units>): State
    decreases |lines|
  {
    if lines == [] || s.outcome != Pending then s else Steps(c, Step(c, s, lines[0]), lines[1..])
  }

  /** Taking lines off a buffer is going through the lines of the stream. */
  lemma {:induction false} DrainIsSteps(c: Config, s: Session)
    ensures Drain(c, s).state == Steps(c, s.state, Lines(s.buffer))
    decreases |s.buffer|
  {
    var b, end := s.buffer, LineEnd(s.buffer);
    if end == |b| {
      SplitFree(b, NEWLINE);
    } else {
      var line, rest := b[..end], b[end + 1..];
      assert b == line + [NEWLINE] + rest;
      SplitFree(line, NEWLINE);
      SplitConcat(line, NEWLINE, rest);
      assert Split(b, NEWLINE) == [line] + Split(rest, NEWLINE);
      assert Lines(b) == [line] + Lines(rest);
      if s.state.outcome == Pending {
        DrainIsSteps(c, Session(rest, Step(c, s.state, line)));
      }
    }
  }

  predicate Answers(c: Config, line: Units, id: int) {
    c.parse(line).Object? && c.parse(line).message.id == Num(id)
  }

  /** Line `i` is the first from `from` on that answers request `id`, and every line before it is an object. */
  predicate FirstAnswer(c: Config, lines: seq<Units>, from: nat, id: int, i: nat) {
    && from <= i < |lines| && Answers(c, lines[i], id)
    && forall k :: from <= k < i ==> c.parse(lines[k]).Object? && !Answers(c, lines[k], id)
  }

  /** How many lines go by until one answers `id` or is no object. */
  function Skipped(c: Config, lines: seq<Units>, id: int): (k: nat)
    ensures k <= |lines|
    ensures forall i :: 0 <= i < k ==> c.parse(lines[i]).Object? && !Answers(c, lines[i], id)
    ensures k < |lines| ==> !c.parse(lines[k]).Object? || Answers(c, lines[k], id)
  {
    if lines == [] || !c.parse(lines[0]).Object? || Answers(c, lines[0], id) then 0
    else
      assert forall i :: 1 <= i < 1 + Skipped(c, lines[1..], id) ==> lines[i] == lines[1..][i - 1];
      1 + Skipped(c, lines[1..], id)
  }

  lemma {:induction false} SkippedLinesDoNothing(c: Config, s: State, lines: seq<Units>, id: int)
    requires s.outcome == Pending && !s.phase.Hello? && id == if s.phase.Initialize? then 1 else 2
    ensures var k := Skipped(c, lines, id);
      Steps(c, s, lines) == if k == |lines| then s else Steps(c, Step(c, s, lines[k]), lines[k + 1..])
    decreases |lines|
  {
    if lines != [] && Skipped(c, lines, id) > 0 {
      SkippedLinesDoNothing(c, s, lines[1..], id);
    }
  }

  predicate HelloAccepted(c: Config, line: Units) {
    c.parse(line).Object? && HelloFailure(c, c.parse(line).message) == Pending
  }

  predicate LastAccepted(c: Config, m: Message) {
    if c.refresh then Reconciled(c, m) else ReportsStatus(c, m)
  }

  /** Hello first, then the first answer to request 1, then the first to request 2 after that, all in order. */
  ghost predicate Verified(c: Config, lines: seq<Units>) {
    exists i: nat, j: nat :: VerifiedAt(c, lines, i, j)
  }

  predicate VerifiedAt(c: Config, lines: seq<Units>, i: nat, j: nat) {
    && lines != [] && HelloAccepted(c, lines[0])
    && FirstAnswer(c, lines, 1, 1, i) && BuildMatches(c, c.parse(lines[i]).message)
    && FirstAnswer(c, lines, i + 1, 2, j) && LastAccepted(c, c.parse(lines[j]).message)
  }

  /** What is written by the time the last answer is awaited. */
  function Transcript(c: Config): seq<Request> {
    [InitializeRequest, InitializedNotification, LastRequest(c)]
  }

  /** The last phase succeeds exactly on the first answer to request 2. */
  lemma LastPhaseReady(c: Config, lines: seq<Units>, from: nat, j: nat)
    requires from <= |lines|
    ensures var r := Steps(c, State(LastPhase(c), Pending, Transcript(c)), lines[from..]);
      && (FirstAnswer(c, lines, from, 2, j) && LastAccepted(c, c.parse(lines[j]).message) ==> r.outcome == Ready)
      && (r.outcome == Ready ==> r.written == Transcript(c))
      && (r.outcome == Ready ==> from + Skipped(c, lines[from..], 2) < |lines|)
      && (r.outcome == Ready ==>
            var k := from + Skipped(c, lines[from..], 2);
            FirstAnswer(c, lines, from, 2, k) && LastAccepted(c, c.parse(lines[k]).message))
  {
    var s := State(LastPhase(c), Pending, Transcript(c));
    var rest := lines[from..];
    SkippedLinesDoNothing(c, s, rest, 2);
    var k := Skipped(c, rest, 2);
    assert forall i :: from <= i < |lines| ==> lines[i] == rest[i - from];
    if FirstAnswer(c, lines, from, 2, j) {
      assert rest[j - from] == lines[j];
      assert k == j - from;
    }
  }

  /** After the hello the first answer to request 1 decides whether the last phase is entered. */
  lemma InitializePhase(c: Config, lines: seq<Units>, i: nat)
    requires lines != []
    ensures var s, k := State(Initialize, Pending, [InitializeRequest]), 1 + Skipped(c, lines[1..], 1);
      && (FirstAnswer(c, lines, 1, 1, k) && BuildMatches(c, c.parse(lines[k]).message) ==>
            Steps(c, s, lines[1..]) == Steps(c, State(LastPhase(c), Pending, Transcript(c)), lines[k + 1..]))
      && (Steps(c, s, lines[1..]).outcome == Ready ==>
            FirstAnswer(c, lines, 1, 1, k) && BuildMatches(c, c.parse(lines[k]).message))
      && (FirstAnswer(c, lines, 1, 1, i) ==> i == k)
  {
    var s, rest := State(Initialize, Pending, [InitializeRequest]), lines[1..];
    var k := 1 + Skipped(c, rest, 1);
    SkippedLinesDoNothing(c, s, rest, 1);
    assert forall m :: 1 <= m < |lines| ==> lines[m] == rest[m - 1];
    if FirstAnswer(c, lines, 1, 1, i) {
      assert rest[i - 1] == lines[i];
    }
    if k < |lines| {
      assert rest[k..] == lines[k + 1..] && lines[k] == rest[k - 1];
      var s' := Step(c, s, lines[k]);
      assert Steps(c, s, rest) == Steps(c, s', lines[k + 1..]);
      assert FirstAnswer(c, lines, 1, 1, k) && BuildMatches(c, c.parse(lines[k]).message) ==>
        s' == State(LastPhase(c), Pending, Transcript(c));
    }
  }

  lemma HelloPhase(c: Config, lines: seq<Units>)
    ensures lines != [] && HelloAccepted(c, lines[0]) ==>
      Steps(c, START, lines) == Steps(c, State(Initialize, Pending, [InitializeRequest]), lines[1..])
    ensures Steps(c, START, lines).outcome == Ready ==> lines != [] && HelloAccepted(c, lines[0])
  {
    if lines != [] {
      var s := Step(c, START, lines[0]);
      assert Steps(c, START, lines) == Steps(c, s, lines[1..]);
      assert HelloAccepted(c, lines[0]) ==> s == State(Initialize, Pending, [InitializeRequest]);
    }
  }

  lemma VerifiedIsReady(c: Config, lines: seq<Units>, i: nat, j: nat)
    requires VerifiedAt(c, lines, i, j)
    ensures Steps(c, START, lines).outcome == Ready
  {
    HelloPhase(c, lines);
    InitializePhase(c, lines, i);
    LastPhaseReady(c, lines, i + 1, j);
  }

  lemma ReadyIsVerified(c: Config, lines: seq<Units>)
    requires Steps(c, START, lines).outcome == Ready
    ensures Verified(c, lines) && Steps(c, START, lines).written == Transcript(c)
  {
    HelloPhase(c, lines);
    var i := 1 + Skipped(c, lines[1..], 1);
    InitializePhase(c, lines, i);
    var j := i + 1 + Skipped(c, lines[i + 1..], 2);
    LastPhaseReady(c, lines, i + 1, j);
    assert VerifiedAt(c, lines, i, j);
  }

  /**
   The handshake succeeds on exactly the streams whose hello, then first answer
   to initialize, then first answer to the last request are all accepted; and
   then the three requests were written, in that order.
   */
  lemma ReadyIffVerified(c: Config, lines: seq<Units>)
    ensures Steps(c, START, lines).outcome == Ready <==> Verified(c, lines)
    ensures Steps(c, START, lines).outcome == Ready ==> Steps(c, START, lines).written == Transcript(c)
  {
    if Steps(c, START, lines).outcome == Ready {
      ReadyIsVerified(c, lines);
    }
    if Verified(c, lines) {
      var i, j :| VerifiedAt(c, lines, i, j);
      VerifiedIsReady(c, lines, i, j);
    }
  }

  // ----- success and failure, field by field -----

  /** No error is reported: the field is missing, or holds what counts as false. */
  predicate NoError(v: Value) {
    v == Absent || v == Null || v == Bool(false) || v == Num(0) || v == Str([])
  }

  predicate SameDaemon(c: Config, m: Message) {
    m.protocol == Num(1) && m.pid == Num(c.pid) && m.codegraph == Str(c.version)
  }

  predicate WatcherIsOurs(c: Config, m: Message) {
    && m.writerProtocol == Num(1)
    && m.watcherProjectRoot == Str(c.projectRoot) && m.watcherActive == Bool(true) && m.watcherReady == Bool(true)
  }

  /** What a hello must say. */
  predicate HelloSays(c: Config, m: Message) {
    && SameDaemon(c, m)
    && (c.requireWatcher ==> WatcherIsOurs(c, m))
    && (c.refresh ==> m.refreshProtocol == Num(1))
  }

  /** What the answer to initialize must say. */
  predicate BuildSays(c: Config, m: Message) {
    NoError(m.error) && m.serverVersion == Str(c.version)
  }

  /** What the answer to refresh, or to status, must say. */
  predicate LastSays(c: Config, m: Message) {
    && NoError(m.error)
    && if c.refresh then
         && m.resultPid == Num(c.pid) && m.resultVersion == Str(c.version)
         && m.resultProjectRoot == Str(c.projectRoot) && m.refreshed == Bool(true)
       else
         NoError(m.isError) && c.isStatusReport(m.status)
  }

  predicate Ids(c: Config, line: Units, id: int) {
    c.parse(line).Object? && c.parse(line).message.id == Num(id)
  }

  /** Lines up to `j` are objects, the first is the hello, `i` the first answer to 1, `j` the first to 2 after it. */
  predicate Answered(c: Config, lines: seq<Units>, i: nat, j: nat) {
    && 0 < i < j < |lines|
    && (forall k :: 0 <= k <= j ==> c.parse(lines[k]).Object?)
    && Ids(c, lines[i], 1) && (forall k :: 1 <= k < i ==> !Ids(c, lines[k], 1))
    && Ids(c, lines[j], 2) && (forall k :: i < k < j ==> !Ids(c, lines[k], 2))
  }

  /**
   Success, by the fields of the messages: exactly when the hello, the first
   answer to initialize and the first to refresh or status after it say what
   they must.  Then initialize, its acknowledgement and refresh or status were
   written, in that order.
   */
  lemma ReadyIffAnswersSay(c: Config, lines: seq<Units>)
    ensures Steps(c, START, lines).outcome == Ready <==>
      exists i: nat, j: nat :: AllSaid(c, lines, i, j)
    ensures Steps(c, START, lines).outcome == Ready ==>
      Steps(c, START, lines).written ==
        [InitializeRequest, InitializedNotification, if c.refresh then RefreshRequest else StatusRequest]
  {
    ReadyIffVerified(c, lines);
    if Verified(c, lines) {
      var i: nat, j: nat :| VerifiedAt(c, lines, i, j);
      VerifiedIffSaid(c, lines, i, j);
    }
    if i: nat, j: nat :| AllSaid(c, lines, i, j) {
      VerifiedIffSaid(c, lines, i, j);
    }
  }

  /** All the answers say what they must. */
  predicate AllSaid(c: Config, lines: seq<Units>, i: nat, j: nat) {
    && Answered(c, lines, i, j) && HelloSays(c, c.parse(lines[0]).message)
    && BuildSays(c, c.parse(lines[i]).message) && LastSays(c, c.parse(lines[j]).message)
  }

  lemma VerifiedIffSaid(c: Config, lines: seq<Units>, i: nat, j: nat)
    ensures VerifiedAt(c, lines, i, j) <==> AllSaid(c, lines, i, j)
  {
    AnsweredIff(c, lines, i, j);
    if Answered(c, lines, i, j) {
      FieldsSay(c, c.parse(lines[0]).message);
      FieldsSay(c, c.parse(lines[i]).message);
      FieldsSay(c, c.parse(lines[j]).message);
    }
  }

  lemma FieldsSay(c: Config, m: Message)
    ensures HelloFailure(c, m) == Pending <==> HelloSays(c, m)
    ensures BuildMatches(c, m) <==> BuildSays(c, m)
    ensures LastAccepted(c, m) <==> LastSays(c, m)
  {}

  lemma AnsweredIff(c: Config, lines: seq<Units>, i: nat, j: nat)
    ensures Answered(c, lines, i, j) <==>
      && lines != [] && c.parse(lines[0]).Object?
      && FirstAnswer(c, lines, 1, 1, i) && FirstAnswer(c, lines, i + 1, 2, j)
  {}

  /** What a wrong hello is taken for; nothing has been written then. */
  lemma WrongHello(c: Config, lines: seq<Units>)
    requires lines != [] && c.parse(lines[0]).Object?
    ensures var m, s := c.parse(lines[0]).message, Steps(c, START, lines);
      && (!SameDaemon(c, m) ==> s.outcome == Failed(IdentityChanged) && s.written == [])
      && (SameDaemon(c, m) && c.requireWatcher && !WatcherIsOurs(c, m) ==>
            s.outcome == Failed(WatcherNotReady) && s.written == [])
      && (SameDaemon(c, m) && (c.requireWatcher ==> WatcherIsOurs(c, m)) && c.refresh && m.refreshProtocol != Num(1) ==>
            s.outcome == Failed(NoReconciliation) && s.written == [])
  {
    var s := Step(c, START, lines[0]);
    assert Steps(c, START, lines) == Steps(c, s, lines[1..]);
    assert s.outcome != Pending ==> Steps(c, s, lines[1..]) == s;
  }

  /** What a wrong answer to initialize is taken for, after a good hello. */
  lemma WrongBuild(c: Config, lines: seq<Units>, i: nat)
    requires lines != [] && c.parse(lines[0]).Object? && HelloSays(c, c.parse(lines[0]).message)
    requires FirstAnswer(c, lines, 1, 1, i) && !BuildSays(c, c.parse(lines[i]).message)
    ensures Steps(c, START, lines).outcome == Failed(BuildMismatch)
    ensures Steps(c, START, lines).written == [InitializeRequest]
  {
    var s, rest := State(Initialize, Pending, [InitializeRequest]), lines[1..];
    HelloPhase(c, lines);
    InitializePhase(c, lines, i);
    SkippedLinesDoNothing(c, s, rest, 1);
    assert rest[i - 1] == lines[i];
    var t := Step(c, s, lines[i]);
    assert t == State(Initialize, Failed(BuildMismatch), [InitializeRequest]);
    assert Steps(c, t, rest[i..]) == t;
  }

  /** What a wrong last answer is taken for, after a good hello and a good answer to initialize. */
  lemma WrongLast(c: Config, lines: seq<Units>, i: nat, j: nat)
    requires Answered(c, lines, i, j) && HelloSays(c, c.parse(lines[0]).message)
    requires BuildSays(c, c.parse(lines[i]).message) && !LastSays(c, c.parse(lines[j]).message)
    ensures Steps(c, START, lines).outcome == Failed(if c.refresh then ReconciliationFailed else StatusFailed)
    ensures |Steps(c, START, lines).written| == 3
  {
    AnsweredIff(c, lines, i, j);
    FieldsSay(c, c.parse(lines[0]).message);
    FieldsSay(c, c.parse(lines[i]).message);
    FieldsSay(c, c.parse(lines[j]).message);
    HelloPhase(c, lines);
    InitializePhase(c, lines, i);
    WrongLastEnds(c, lines, i + 1, j);
  }

  lemma WrongLastEnds(c: Config, lines: seq<Units>, from: nat, j: nat)
    requires FirstAnswer(c, lines, from, 2, j) && !LastAccepted(c, c.parse(lines[j]).message)
    ensures var r := Steps(c, State(LastPhase(c), Pending, Transcript(c)), lines[from..]);
      r.outcome == Failed(if c.refresh then ReconciliationFailed else StatusFailed) && |r.written| == 3
  {
    LastPhaseEnds(c, lines, from, j);
  }

  /** The first answer to request 2 decides, one way or the other. */
  lemma LastPhaseEnds(c: Config, lines: seq<Units>, from: nat, j: nat)
    requires FirstAnswer(c, lines, from, 2, j)
    ensures var s := State(LastPhase(c), Pending, Transcript(c));
      Steps(c, s, lines[from..]) == Step(c, s, lines[j])
  {
    var s, rest := State(LastPhase(c), Pending, Transcript(c)), lines[from..];
    SkippedLinesDoNothing(c, s, rest, 2);
    assert forall k :: from <= k < |lines| ==> lines[k] == rest[k - from];
    assert rest[j - from] == lines[j] && Skipped(c, rest, 2) == j - from;
    DecidedSteps(c, Step(c, s, lines[j]), rest[j - from + 1..]);
  }

  lemma DecidedSteps(c: Config, s: State, lines: seq<Units>)
    requires s.outcome != Pending
    ensures Steps(c, s, lines) == s
  {}

  /** A line that is no JSON object, before anything is decided, is an invalid response. */
  lemma {:induction false} InvalidLine(c: Config, s: State, lines: seq<Units>, k: nat)
    requires s.outcome == Pending && k < |lines| && !c.parse(lines[k]).Object?
    requires Steps(c, s, lines[..k]).outcome == Pending
    ensures Steps(c, s, lines).outcome == Failed(InvalidResponse)
    decreases k
  {
    var t := Step(c, s, lines[0]);
    if k == 0 {
      assert Steps(c, t, lines[1..]) == t;
    } else {
      assert lines[..k][1..] == lines[1..][..k - 1] && lines[..k][0] == lines[0];
      InvalidLine(c, t, lines[1..], k - 1);
    }
  }

  // ----- whole runs -----

  /** All that is received in a run. */
  function Received(events: seq<Event>): Units {
    if events == [] then []
    else ChunkOf(events[0]) + Received(events[1..])
  }

  /** The session is what the lines of `stream` lead to, as long as it is open or has succeeded. */
  predicate Explained(c: Config, s: Session, stream: Units) {
    && (s.state.outcome == Pending ==> s == Drain(c, Session(stream, START)))
    && (s.state.outcome == Ready ==> s.state == Drain(c, Session(stream, START)).state)
  }

  function ChunkOf(e: Event): Units {
    if e.Data? then e.chunk else []
  }

  lemma ReactIsExplained(c: Config, s: Session, stream: Units, e: Event)
    requires Explained(c, s, stream)
    ensures Explained(c, React(c, s, e), stream + ChunkOf(e))
    ensures s.state.outcome != Pending ==> React(c, s, e).state == s.state
  {
    if e.Data? {
      DrainInTwo(c, Session(stream, START), e.chunk);
    } else {
      assert stream + [] == stream;
    }
  }

  lemma {:induction false} RunIsExplained(c: Config, s: Session, stream: Units, events: seq<Event>)
    requires Explained(c, s, stream)
    ensures Explained(c, Run(c, s, events), stream + Received(events))
    ensures s.state.outcome != Pending ==> Run(c, s, events).state == s.state
    decreases |events|
  {
    if events == [] {
      assert stream + [] == stream;
    } else {
      ReactIsExplained(c, s, stream, events[0]);
      RunIsExplained(c, React(c, s, events[0]), stream + ChunkOf(events[0]), events[1..]);
      Regroup(stream, ChunkOf(events[0]), Received(events[1..]));
    }
  }

  /**
   Over every run, whatever arrives, breaks, closes or times out: the outcome
   and what is written stay as they are once the outcome is decided, and
   success means the received stream was verified.
   */
  lemma RunsAreSafe(c: Config, before: seq<Event>, after: seq<Event>)
    ensures var s := Run(c, Session([], START), before);
      && (s.state.outcome == Ready ==> Verified(c, Lines(Received(before))) && s.state.written == Transcript(c))
      && (s.state.outcome != Pending ==> Run(c, s, after).state == s.state)
  {
    var s := Run(c, Session([], START), before);
    assert [] + Received(before) == Received(before);
    RunIsExplained(c, Session([], START), [], before);
    RunIsExplained(c, s, Received(before), after);
    DrainIsSteps(c, Session(Received(before), START));
    ReadyIffVerified(c, Lines(Received(before)));
  }

  // ----- when chunk boundaries matter -----

  /** What comes after the last newline. */
  function LastLine(stream: Units): Units {
    var parts := Split(stream, NEWLINE);
    parts[|parts| - 1]
  }

  /** While the exchange is open the buffer holds the unfinished line. */
  lemma {:induction false} DrainLeavesLastLine(c: Config, s: Session)
    requires Drain(c, s).state.outcome == Pending
    ensures Drain(c, s).buffer == LastLine(s.buffer)
    decreases |s.buffer|
  {
    var b, end := s.buffer, LineEnd(s.buffer);
    if end == |b| {
      SplitFree(b, NEWLINE);
    } else {
      LastLineAfter(b, end);
      DrainLeavesLastLine(c, Session(b[end + 1..], Step(c, s.state, b[..end])));
    }
  }

  lemma LastLineAfter(b: Units, end: nat)
    requires end < |b| && b[end] == NEWLINE
    ensures LastLine(b) == LastLine(b[end + 1..])
  {
    assert b == b[..end] + [NEWLINE] + b[end + 1..];
    SplitConcat(b[..end], NEWLINE, b[end + 1..]);
  }

  /** Some chunk arrives while the exchange is open and is too long together with the unfinished line before it. */
  predicate MeetsLimit(c: Config, received: Units, chunks: seq<Units>)
    decreases |chunks|
  {
    chunks != [] && Steps(c, START, Lines(received)).outcome == Pending &&
    (|LastLine(received)| + |chunks[0]| > LIMIT || MeetsLimit(c, received + chunks[0], chunks[1..]))
  }

  lemma {:induction false} LimitNeedsLongStream(c: Config, received: Units, chunks: seq<Units>)
    requires MeetsLimit(c, received, chunks)
    ensures |received| + |Concat(chunks)| > LIMIT
    decreases |chunks|
  {
    DrainIsSteps(c, Session(received, START));
    DrainLeavesLastLine(c, Session(received, START));
    DrainSettles(c, Session(received, START));
    if |LastLine(received)| + |chunks[0]| <= LIMIT {
      LimitNeedsLongStream(c, received + chunks[0], chunks[1..]);
    }
  }

  lemma {:induction false} CutFromIff(c: Config, received: Units, chunks: seq<Units>)
    ensures var r := ArriveAll(c, Drain(c, Session(received, START)), chunks);
      && (r.state == Drain(c, Session(received + Concat(chunks), START)).state <==> !MeetsLimit(c, received, chunks))
      && (r.state.outcome == Failed(TooLong) <==> MeetsLimit(c, received, chunks))
    decreases |chunks|
  {
    var s := Drain(c, Session(received, START));
    DrainIsSteps(c, Session(received, START));
    DrainSettles(c, Session(received, START));
    DrainSettles(c, Session(received + Concat(chunks), START));
    if s.state.outcome != Pending {
      DecidedStays(c, s, chunks);
      DrainInTwo(c, Session(received, START), Concat(chunks));
    } else if chunks == [] {
      assert received + [] == received;
    } else {
      DrainLeavesLastLine(c, Session(received, START));
      DrainInTwo(c, Session(received, START), chunks[0]);
      if |s.buffer + chunks[0]| > LIMIT {
        DecidedStays(c, Arrive(c, s, chunks[0]), chunks[1..]);
      } else {
        Regroup(received, chunks[0], Concat(chunks[1..]));
        CutFromIff(c, received + chunks[0], chunks[1..]);
      }
    }
  }

  /**
   However a stream is cut, the outcome and what is written are those of the
   whole stream's lines, except exactly when a chunk arrives that is too long
   together with the unfinished line before it; then the exchange fails.
   */
  lemma ChunksMatterOnlyByTheLimit(c: Config, chunks: seq<Units>)
    ensures var r := ArriveAll(c, Session([], START), chunks);
      && (r.state == Drain(c, Session(Concat(chunks), START)).state <==> !MeetsLimit(c, [], chunks))
      && (r.state.outcome == Failed(TooLong) <==> MeetsLimit(c, [], chunks))
  {
    CutFromIff(c, [], chunks);
    assert [] + Concat(chunks) == Concat(chunks);
  }

  /** Within the limit chunk boundaries do not matter at all. */
  lemma ChunkBoundariesDoNotMatter(c: Config, chunks: seq<Units>)
    requires |Concat(chunks)| <= LIMIT
    ensures ArriveAll(c, Session([], START), chunks).state == Drain(c, Session(Concat(chunks), START)).state
  {
    ChunksMatterOnlyByTheLimit(c, chunks);
    if MeetsLimit(c, [], chunks) {
      LimitNeedsLongStream(c, [], chunks);
    }
  }

  /** And beyond it they do, for every daemon and every stream: all cuts agree exactly when it is short enough. */
  lemma AllCutsAgreeIff(c: Config, stream: Units)
    ensures
      (forall chunks | Concat(chunks) == stream ::
        ArriveAll(c, Session([], START), chunks).state == Drain(c, Session(stream, START)).state)
      <==> |stream| <= LIMIT
  {
    if |stream| <= LIMIT {
      forall chunks | Concat(chunks) == stream
        ensures ArriveAll(c, Session([], START), chunks).state == Drain(c, Session(stream, START)).state
      {
        ChunkBoundariesDoNotMatter(c, chunks);
      }
    } else {
      InOnePiece(c, stream);
    }
  }

  lemma InOnePiece(c: Config, stream: Units)
    requires |stream| > LIMIT
    ensures Concat([stream]) == stream
    ensures ArriveAll(c, Session([], START), [stream]).state != Drain(c, Session(stream, START)).state
  {
    assert [stream][1..] == [] && stream + [] == stream && [] + stream == stream;
    DrainSettles(c, Session(stream, START));
    DecidedStays(c, Arrive(c, Session([], START), stream), []);
  }
}

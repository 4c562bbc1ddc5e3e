/**
  HttpConnection: the handler of one accepted socket. Its run loop parses a
  request, answers it, and goes round again while the request asked to keep
  the connection alive; a timeout or a read failure ends the loop, and the
  streams and the socket are closed whatever happened.

  The socket is abstracted as the sequence of what each parseRequest call
  finds on it, the clock as one date string, and the close calls as a set of
  steps that throw when attempted.
 */
module Connection {

  import opened Wrappers
  import opened Headers
  import opened Paths
  import opened Response
  import opened Dispatch
  import opened Request

  /** SOCKET_TIMEOUT, the read timeout in milliseconds set on the socket. */
  const SocketTimeout: nat := 5000

  /** What one call of parseRequest meets on the socket: the lines of a
      request, a read that times out, or a read that fails. */
  datatype Arrival = Received(lines: seq<string>) | TimedOut | ReadFailed

  /** How one parseRequest call ends, as run() sees it: a request, a
      SocketTimeoutException, another IOException, or an unchecked exception
      that run() does not catch. */
  datatype ParseOutcome = Answerable(head: RequestHead) | Timeout | IoError | OtherFailure

  /** How run() ends: the loop broke after a request without keep-alive, a
      timeout or an IOException was caught, or an exception escaped. */
  datatype Exit = Completed | TimeoutExit | IoFailure | Escaped

  /** The close calls of run() and close(), in the order close() makes them. */
  datatype CloseStep = InputStream | OutputStream | RequestReader | ResponseStreams | Socket

  /** parseRequest on one arrival. A bad protocol or a header line without a
      colon throws IOException; a missing or short request line throws an
      unchecked exception (a null dereference, an index out of bounds). */
  function Classify(a: Arrival): (o: ParseOutcome)
    ensures o.Answerable? <==> a.Received? && Parse(a.lines).Parsed?
    ensures o.Answerable? ==> o.head == Parse(a.lines).head
    ensures o.Timeout? <==> a.TimedOut?
    ensures o.OtherFailure? <==> a.Received? && Parse(a.lines) in {Failed(NoRequestLine), Failed(ShortRequestLine)}
  {
    match a
    case TimedOut => Timeout
    case ReadFailed => IoError
    case Received(lines) =>
      match Parse(lines)
      case Parsed(head) => Answerable(head)
      case Failed(NotHttp) => IoError
      case Failed(MalformedHeader) => IoError
      case Failed(_) => OtherFailure
  }

  /** The outcome of each arrival in turn. */
  function Outcomes(arrivals: seq<Arrival>): (os: seq<ParseOutcome>)
    ensures |os| == |arrivals|
    ensures forall i :: 0 <= i < |arrivals| ==> os[i] == Classify(arrivals[i])
  {
    seq(|arrivals|, i requires 0 <= i < |arrivals| => Classify(arrivals[i]))
  }

  /** The requests a connection answers, in order, and how its loop ends. */
  datatype Session = Session(answered: seq<RequestHead>, exit: Exit)

  /** Requests already answered, in front of what the rest of the loop does. */
  function Join(answered: seq<RequestHead>, rest: Session): Session {
    Session(answered + rest.answered, rest.exit)
  }

  /** The run loop over the parse outcomes, as one value. Running out of
      outcomes is the end of the stream: readLine gives null and the loop
      dies on it. */
  function Serve(outcomes: seq<ParseOutcome>): Session {
    if outcomes == [] then Session([], Escaped)
    else
      match outcomes[0]
      case Timeout => Session([], TimeoutExit)
      case IoError => Session([], IoFailure)
      case OtherFailure => Session([], Escaped)
      case Answerable(head) =>
        if !KeepAlive(head.headers) then Session([head], Completed)
        else
          var more := Serve(outcomes[1..]);
          Session([head] + more.answered, more.exit)
  }

  /** Requests are answered strictly in arrival order and none is skipped:
      the i-th answered request is the i-th outcome, which parsed. */
  lemma {:induction false} ServeInOrder(outcomes: seq<ParseOutcome>)
    ensures var s := Serve(outcomes);
      && |s.answered| <= |outcomes|
      && forall i :: 0 <= i < |s.answered| ==> outcomes[i] == Answerable(s.answered[i])
  {
    if outcomes != [] && outcomes[0].Answerable? && KeepAlive(outcomes[0].head.headers) {
      var rest := outcomes[1..];
      ServeInOrder(rest);
      var s := Serve(outcomes);
      var more := Serve(rest);
      forall i | 1 <= i < |s.answered|
        ensures outcomes[i] == Answerable(s.answered[i])
      {
        assert outcomes[i] == rest[i - 1];
        assert s.answered[i] == more.answered[i - 1];
      }
    }
  }

  /** The loop goes on only after keep-alive requests: every answered request
      but the last kept the connection alive, and the loop completes exactly
      when the last answered request did not. */
  lemma {:induction false} ServeKeepAlive(outcomes: seq<ParseOutcome>)
    ensures var s := Serve(outcomes);
      && (forall i :: 0 <= i < |s.answered| - 1 ==> KeepAlive(s.answered[i].headers))
      && (s.exit == Completed <==> s.answered != [] && !KeepAlive(s.answered[|s.answered| - 1].headers))
  {
    if outcomes != [] && outcomes[0].Answerable? && KeepAlive(outcomes[0].head.headers) {
      var rest := outcomes[1..];
      ServeKeepAlive(rest);
      var s := Serve(outcomes);
      var more := Serve(rest);
      assert s.answered == [outcomes[0].head] + more.answered;
      forall i | 1 <= i < |s.answered| - 1
        ensures KeepAlive(s.answered[i].headers)
      {
        assert s.answered[i] == more.answered[i - 1];
      }
      if more.answered != [] {
        assert s.answered[|s.answered| - 1] == more.answered[|more.answered| - 1];
      }
    }
  }

  /** The loop stops right after the first request without keep-alive: no
      more replies than that request's position plus one. */
  lemma ServeStopsAtClose(outcomes: seq<ParseOutcome>, i: nat)
    requires i < |outcomes| && outcomes[i].Answerable? && !KeepAlive(outcomes[i].head.headers)
    ensures |Serve(outcomes).answered| <= i + 1
  {
    ServeInOrder(outcomes);
    ServeKeepAlive(outcomes);
  }

  /** A loop that does not complete ends at the first outcome it cannot
      answer, without a reply for it: a timeout, an IOException or an
      unchecked exception, or the end of the stream. */
  lemma {:induction false} ServeFailure(outcomes: seq<ParseOutcome>)
    ensures var s := Serve(outcomes);
      var n := |s.answered|;
      s.exit != Completed ==>
        if n == |outcomes| then s.exit == Escaped
        else
          && n < |outcomes|
          && (outcomes[n] == Timeout <==> s.exit == TimeoutExit)
          && (outcomes[n] == IoError <==> s.exit == IoFailure)
          && (outcomes[n] == OtherFailure <==> s.exit == Escaped)
  {
    if outcomes != [] && outcomes[0].Answerable? && KeepAlive(outcomes[0].head.headers) {
      var rest := outcomes[1..];
      ServeFailure(rest);
      ServeInOrder(rest);
      var more := Serve(rest);
      if |more.answered| < |rest| {
        assert outcomes[|more.answered| + 1] == rest[|more.answered|];
      }
    }
  }

  /** The reply to a parsed request, built with that request's own keep-alive flag. */
  function Answer(head: RequestHead, webRoot: WebRoot, date: string): Reply {
    ResponseFor(webRoot, head.verb, head.target, KeepAlive(head.headers), date)
  }

  /** What the responses to the answered requests write, one entry per response. */
  function Sent(answered: seq<RequestHead>, webRoot: WebRoot, date: string): (w: seq<seq<Chunk>>)
    ensures |w| == |answered|
    ensures forall i :: 0 <= i < |answered| ==> w[i] == Wire(Answer(answered[i], webRoot, date))
  {
    seq(|answered|, i requires 0 <= i < |answered| => Wire(Answer(answered[i], webRoot, date)))
  }

  /** One more answered request adds its response's output at the end. */
  lemma SentAppend(answered: seq<RequestHead>, head: RequestHead, webRoot: WebRoot, date: string)
    ensures Sent(answered + [head], webRoot, date) == Sent(answered, webRoot, date) + [Wire(Answer(head, webRoot, date))]
  {
    var all := answered + [head];
    assert forall i :: 0 <= i < |answered| ==> all[i] == answered[i];
  }

  /** One turn of the loop from position k onwards. */
  lemma ServeNext(outcomes: seq<ParseOutcome>, k: nat)
    requires k <= |outcomes|
    ensures k == |outcomes| ==> Serve(outcomes[k..]) == Session([], Escaped)
    ensures k < |outcomes| ==>
      Serve(outcomes[k..]) == match outcomes[k]
        case Timeout => Session([], TimeoutExit)
        case IoError => Session([], IoFailure)
        case OtherFailure => Session([], Escaped)
        case Answerable(head) =>
          if !KeepAlive(head.headers) then Session([head], Completed) else Join([head], Serve(outcomes[k + 1..]))
  {
    if k < |outcomes| {
      assert outcomes[k..][0] == outcomes[k] && outcomes[k..][1..] == outcomes[k + 1..];
    }
  }

  lemma AppendAssoc<T>(a: seq<T>, b: seq<T>, c: seq<T>)
    ensures a + b + c == a + (b + c)
  {
  }

  lemma JoinJoin(a: seq<RequestHead>, b: seq<RequestHead>, s: Session)
    ensures Join(a, Join(b, s)) == Join(a + b, s)
  {
    assert a + (b + s.answered) == a + b + s.answered;
  }

  /** A close step whose exception is caught inside the step itself:
      HttpRequest.close and HttpResponse.close swallow theirs. */
  predicate Swallows(step: CloseStep) {
    step == RequestReader || step == ResponseStreams
  }

  /** A close step that throws out of the try block it runs in. */
  predicate Throws(step: CloseStep, faults: set<CloseStep>) {
    step in faults && !Swallows(step)
  }

  /** The position of each close call in close(). */
  function Rank(step: CloseStep): nat {
    match step
    case InputStream => 0
    case OutputStream => 1
    case RequestReader => 2
    case ResponseStreams => 3
    case Socket => 4
  }

  /** The close calls close() makes, given whether a request and a response
      were ever created (their fields are null otherwise). */
  function Planned(request: bool, response: bool): (p: seq<CloseStep>)
    ensures |p| >= 3 && p[0] == InputStream && p[1] == OutputStream && p[|p| - 1] == Socket
    ensures RequestReader in p <==> request
    ensures ResponseStreams in p <==> response
  {
    [InputStream, OutputStream] + (if request then [RequestReader] else [])
      + (if response then [ResponseStreams] else []) + [Socket]
  }

  /** The plan holds each close call at most once, in close()'s order, and
      nothing else: with the membership facts of Planned this fixes it. */
  lemma PlannedOrder(request: bool, response: bool)
    ensures var p := Planned(request, response);
      && |p| == 3 + (if request then 1 else 0) + (if response then 1 else 0)
      && forall i, j :: 0 <= i < j < |p| ==> Rank(p[i]) < Rank(p[j])
  {
  }

  /** A throwing stream close ends close() right there. */
  lemma StreamFaults(request: bool, response: bool, faults: set<CloseStep>)
    ensures InputStream in faults ==> Attempted(Planned(request, response), faults) == [InputStream]
    ensures InputStream !in faults && OutputStream in faults ==>
      Attempted(Planned(request, response), faults) == [InputStream, OutputStream]
  {
    var plan := Planned(request, response);
    assert plan[0] == InputStream && plan[1..][0] == OutputStream;
    if InputStream !in faults && OutputStream in faults {
      assert Attempted(plan[1..], faults) == [OutputStream];
    }
  }

  /** The close calls of close() made one after the other on a log. */
  lemma CloseTail(log: seq<CloseStep>, request: bool, response: bool)
    ensures var reader := if request then [RequestReader] else [];
      var writer := if response then [ResponseStreams] else [];
      log + [InputStream, OutputStream] + reader + writer + [Socket] == log + Planned(request, response)
  {
    var reader: seq<CloseStep> := if request then [RequestReader] else [];
    var writer: seq<CloseStep> := if response then [ResponseStreams] else [];
    AppendAssoc(log, [InputStream, OutputStream], reader);
    AppendAssoc(log, [InputStream, OutputStream] + reader, writer);
    AppendAssoc(log, [InputStream, OutputStream] + reader + writer, [Socket]);
  }

  /** The steps attempted when they run in one try block: each in turn, up to
      and including the first one that throws. */
  function Attempted(steps: seq<CloseStep>, faults: set<CloseStep>): seq<CloseStep> {
    if steps == [] then []
    else if Throws(steps[0], faults) then [steps[0]]
    else [steps[0]] + Attempted(steps[1..], faults)
  }

  /** A throwing close step stops the rest: the attempted steps are the plan
      up to the first step that throws, and all of it when none does. */
  lemma {:induction false} AttemptedPrefix(steps: seq<CloseStep>, faults: set<CloseStep>)
    ensures var a := Attempted(steps, faults);
      && a <= steps
      && (forall i :: 0 <= i < |a| - 1 ==> !Throws(a[i], faults))
      && (|a| < |steps| ==> a != [] && Throws(a[|a| - 1], faults))
      && (|a| == |steps| <==> forall i :: 0 <= i < |steps| - 1 ==> !Throws(steps[i], faults))
  {
    if steps != [] && !Throws(steps[0], faults) {
      var rest := steps[1..];
      AttemptedPrefix(rest, faults);
      var a := Attempted(steps, faults);
      var b := Attempted(rest, faults);
      assert a == [steps[0]] + b;
      forall i | 1 <= i < |a| - 1
        ensures !Throws(a[i], faults)
      {
        assert a[i] == b[i - 1];
      }
      assert forall i :: 0 <= i < |rest| ==> rest[i] == steps[i + 1];
      assert (forall i :: 0 <= i < |rest| - 1 ==> !Throws(rest[i], faults))
        <==> (forall i :: 1 <= i < |steps| - 1 ==> !Throws(steps[i], faults));
    }
  }

  /** Without a throwing close, close() closes input, output, the request
      reader, the response streams and the socket, in that order. */
  lemma CleanupAll(request: bool, response: bool, faults: set<CloseStep>)
    requires InputStream !in faults && OutputStream !in faults
    ensures Attempted(Planned(request, response), faults) == Planned(request, response)
  {
    var p := Planned(request, response);
    AttemptedPrefix(p, faults);
    assert forall i :: 0 <= i < |p| - 1 ==> !Throws(p[i], faults);
  }

  /** The socket is closed exactly when neither stream close throws; a
      failing request or response close does not keep it open. */
  lemma CleanupClosesSocket(request: bool, response: bool, faults: set<CloseStep>)
    ensures Socket in Attempted(Planned(request, response), faults) <==> InputStream !in faults && OutputStream !in faults
  {
    var p := Planned(request, response);
    AttemptedPrefix(p, faults);
    var a := Attempted(p, faults);
    if InputStream !in faults && OutputStream !in faults {
      CleanupAll(request, response, faults);
    } else {
      assert p[1..][0] == OutputStream;
      assert a == [InputStream] || a == [InputStream, OutputStream];
    }
  }

  /** The stream closes at the end of the try block of run(), made only when
      the loop breaks; a throwing one is caught as an IOException. */
  function LoopCloses(faults: set<CloseStep>): seq<CloseStep> {
    [InputStream] + (if InputStream in faults then [] else [OutputStream])
  }

  /** How run() ends once the loop is over. */
  function Outcome(loopExit: Exit, faults: set<CloseStep>): Exit {
    if loopExit == Completed && (InputStream in faults || OutputStream in faults) then IoFailure else loopExit
  }

  /** The close calls of the try block of run(): made only after a completed loop. */
  function TryCloses(loopExit: Exit, faults: set<CloseStep>): seq<CloseStep> {
    if loopExit == Completed then LoopCloses(faults) else []
  }

  /** The close calls of close(), called from the finally block, which always runs. */
  function FinallyCloses(s: Session, faults: set<CloseStep>): seq<CloseStep> {
    Attempted(Planned(s.answered != [], s.answered != []), faults)
  }

  /** All close calls of a run, in order. */
  function CloseLog(s: Session, faults: set<CloseStep>): seq<CloseStep> {
    TryCloses(s.exit, faults) + FinallyCloses(s, faults)
  }

  /** Cleanup always happens: however the loop ended, close() starts with the
      input stream, and with no stream close throwing the log ends with the
      socket and the loop's own ending is what run() reports. */
  lemma CleanupAlwaysRuns(s: Session, faults: set<CloseStep>)
    ensures var log := CloseLog(s, faults);
      var before := if s.exit == Completed then |LoopCloses(faults)| else 0;
      && before < |log| && log[before] == InputStream
      && (InputStream !in faults && OutputStream !in faults ==> log[|log| - 1] == Socket && Outcome(s.exit, faults) == s.exit)
  {
    var p := Planned(s.answered != [], s.answered != []);
    AttemptedPrefix(p, faults);
    if InputStream !in faults && OutputStream !in faults {
      CleanupAll(s.answered != [], s.answered != [], faults);
    }
  }

  /** The handler of one connection. */
  class HttpConnection {
    const soTimeout: nat
    var httpRequest: HttpRequest?
    var httpResponse: HttpResponse?
    /** What each response wrote on the socket, one entry per response. */
    var sent: seq<seq<Chunk>>
    /** The close calls made, in order. */
    var closeLog: seq<CloseStep>

    /** The constructor sets the socket's read timeout. */
    constructor ()
      ensures soTimeout == SocketTimeout
      ensures httpRequest == null && httpResponse == null && sent == [] && closeLog == []
    {
      soTimeout := SocketTimeout;
      httpRequest := null;
      httpResponse := null;
      sent := [];
      closeLog := [];
    }

    /** run(): the keep-alive loop inside the try block, the stream closes
        that end the try block when the loop breaks, and close() from the
        finally block. It answers exactly the requests of Serve, in order,
        and makes exactly the close calls of CloseLog, in two parts. */
    method Run(arrivals: seq<Arrival>, webRoot: WebRoot, date: string, faults: set<CloseStep>) returns (exit: Exit)
      requires httpRequest == null && httpResponse == null
      modifies this
      ensures var s := Serve(Outcomes(arrivals));
        && exit == Outcome(s.exit, faults)
        && sent == old(sent) + Sent(s.answered, webRoot, date)
        && closeLog == old(closeLog) + TryCloses(s.exit, faults) + FinallyCloses(s, faults)
    {
      exit := Converse(arrivals, webRoot, date);
      ghost var s := Serve(Outcomes(arrivals));

      if exit == Completed {
        closeLog := closeLog + [InputStream];
        if InputStream in faults {
          exit := IoFailure;
        } else {
          closeLog := closeLog + [OutputStream];
          if OutputStream in faults {
            exit := IoFailure;
          }
        }
      }
      assert closeLog == old(closeLog) + TryCloses(s.exit, faults);
      Close(faults);
    }

    /** The loop of run(): parse a request, answer it, and go round again
        while it asked for keep-alive. It stops at the first arrival that
        does not parse, and after the first request without keep-alive. */
    method Converse(arrivals: seq<Arrival>, webRoot: WebRoot, date: string) returns (exit: Exit)
      requires httpRequest == null && httpResponse == null
      modifies this
      ensures var s := Serve(Outcomes(arrivals));
        && exit == s.exit
        && sent == old(sent) + Sent(s.answered, webRoot, date)
        && closeLog == old(closeLog)
        && (httpRequest != null <==> s.answered != [])
        && (httpResponse != null <==> s.answered != [])
    {
      ghost var outcomes := Outcomes(arrivals);
      ghost var answered: seq<RequestHead> := [];
      var k := 0;
      var done := false;
      exit := Escaped;
      while !done && k < |arrivals|
        invariant 0 <= k <= |arrivals| && |answered| <= k
        invariant !done ==> |answered| == k && exit == Escaped && Join(answered, Serve(outcomes[k..])) == Serve(outcomes)
        invariant done ==> Serve(outcomes) == Session(answered, exit)
        invariant sent == old(sent) + Sent(answered, webRoot, date)
        invariant closeLog == old(closeLog)
        invariant httpRequest == null <==> answered == []
        invariant httpResponse == null <==> answered == []
        decreases |arrivals| - k, !done
      {
        var arrival := arrivals[k];
        ServeNext(outcomes, k);
        assert answered + [] == answered;
        if arrival.TimedOut? {
          exit := TimeoutExit;
          done := true;
        } else if arrival.ReadFailed? {
          exit := IoFailure;
          done := true;
        } else {
          var parsed := ParseRequest(arrival.lines);
          if parsed.Failed? {
            if parsed.error == NotHttp || parsed.error == MalformedHeader {
              exit := IoFailure;
            }
            done := true;
          } else {
            var head := parsed.head;
            assert outcomes[k] == Answerable(head);
            var isKeepAlive := Respond(head, webRoot, date);
            SentAppend(answered, head, webRoot, date);
            AppendAssoc(old(sent), Sent(answered, webRoot, date), [Wire(Answer(head, webRoot, date))]);
            JoinJoin(answered, [head], Serve(outcomes[k + 1..]));
            answered := answered + [head];
            k := k + 1;
            if !isKeepAlive {
              exit := Completed;
              done := true;
            }
          }
        }
      }
      if !done {
        ServeNext(outcomes, k);
        assert answered + [] == answered;
      }
    }

    /** One turn of the loop body once a request is parsed: the request and a
        response with its keep-alive flag replace the previous ones, and the
        response writes the reply to that request. */
    method Respond(head: RequestHead, webRoot: WebRoot, date: string) returns (isKeepAlive: bool)
      modifies this
      ensures isKeepAlive == KeepAlive(head.headers)
      ensures httpRequest != null && fresh(httpRequest) && httpResponse != null && fresh(httpResponse)
      ensures httpRequest.verb == head.verb && httpRequest.keepAlive == isKeepAlive
      ensures httpRequest.url == PreparePath(head.target) && httpRequest.file == Some(httpRequest.url)
      ensures httpResponse.keepAlive == isKeepAlive && httpResponse.Flushed()
      ensures httpResponse.wire == Wire(Answer(head, webRoot, date))
      ensures sent == old(sent) + [Wire(Answer(head, webRoot, date))]
      ensures closeLog == old(closeLog)
    {
      var request := new HttpRequest(head.target, head.verb, head.headers);
      httpRequest := request;
      isKeepAlive := request.keepAlive;
      var response := new HttpResponse(isKeepAlive);
      httpResponse := response;
      request.SendResponse(response, webRoot, date);
      assert response.wire == Wire(Answer(head, webRoot, date));
      sent := sent + [response.wire];
    }

    /** close(): the closes in one try block; the first that throws ends it. */
    method Close(faults: set<CloseStep>)
      modifies this
      ensures closeLog == old(closeLog) + Attempted(Planned(httpRequest != null, httpResponse != null), faults)
      ensures httpRequest == old(httpRequest) && httpResponse == old(httpResponse) && sent == old(sent)
    {
      ghost var request, response := httpRequest != null, httpResponse != null;
      StreamFaults(request, response, faults);
      closeLog := closeLog + [InputStream];
      if InputStream in faults {
        return;
      }
      closeLog := closeLog + [OutputStream];
      if OutputStream in faults {
        return;
      }
      CleanupAll(request, response, faults);
      CloseTail(old(closeLog), request, response);
      ghost var reader: seq<CloseStep> := if request then [RequestReader] else [];
      ghost var writer: seq<CloseStep> := if response then [ResponseStreams] else [];
      ghost var start := old(closeLog) + [InputStream, OutputStream];
      assert closeLog == start;
      if httpRequest != null {
        closeLog := closeLog + [RequestReader];
      } else {
        assert closeLog == start + reader;
      }
      if httpResponse != null {
        closeLog := closeLog + [ResponseStreams];
      } else {
        assert closeLog == start + reader + writer;
      }
      closeLog := closeLog + [Socket];
    }
  }
}

/**
  * connection.go: the envelope around every request, the framing of the answers read back, the
  * queue that pairs each answer with the request it answers, and the session on top of it.
  */
module Connection {
  import opened Wrappers
  import opened Text
  import opened Format
  import opened Response
  import Authentication
  import Commands

  // ---------------------------------------------------------------------------
  // The envelope (connection.go:120-124)
  // ---------------------------------------------------------------------------

  const HEADER := "<?xml version='1.0' encoding='UTF-8'?>\n<BroadsoftDocument xmlns:xsi=\"http://www.w3.org/2001/XMLSchema-instance\" xmlns=\"C\" protocol=\"OCI\">"
  const TRAILER := "</BroadsoftDocument>\n"

  /** A request as it goes on the wire: the document header, the request, the document trailer. */
  function Envelope(request: string): string {
    HEADER + request + TRAILER
  }

  /** The text between a known opening and closing, or None when s does not have them. */
  function Strip(open: string, close: string, s: string): (r: Option<string>)
    ensures r.Some? ==> s == open + r.value + close
  {
    if |open| + |close| <= |s| && s[..|open|] == open && s[|s| - |close|..] == close then
      assert s == s[..|open|] + s[|open|..|s| - |close|] + s[|s| - |close|..];
      Some(s[|open|..|s| - |close|])
    else None
  }

  /** The request inside an envelope. */
  function Unwrap(s: string): (r: Option<string>)
    ensures r.Some? ==> Envelope(r.value) == s
  {
    Strip(HEADER, TRAILER, s)
  }

  lemma StripRoundTrip(open: string, body: string, close: string)
    ensures Strip(open, close, open + body + close) == Some(body)
  {
    var s := open + body + close;
    assert s[..|open|] == open;
    assert s[|s| - |close|..] == close;
    assert s[|open|..|s| - |close|] == body;
  }

  /** Every envelope is read back as the request it carries, and it ends with the trailer. */
  lemma UnwrapEnvelope(request: string)
    ensures Unwrap(Envelope(request)) == Some(request)
    ensures EndsWith(Envelope(request), TRAILER)
  {
    StripRoundTrip(HEADER, request, TRAILER);
  }

  // ---------------------------------------------------------------------------
  // Framing (connection.go:150-167)
  // ---------------------------------------------------------------------------

  /**
    * What one ReadBytes('\n') under a one-second deadline gives: a chunk of text up to and
    * including a newline, a timeout with the text read before it, or any other error.
    */
  datatype ReadEvent = Line(data: string) | Timeout(dropped: string) | Failed(err: string)

  /**
    * The text an event adds to the message being read: a line's text, nothing otherwise; the text
    * read before a timeout is dropped.
    */
  function Carried(e: ReadEvent): string {
    if e.Line? then e.data else ""
  }

  /** The text the events carry, in order. */
  function Lines(events: seq<ReadEvent>): string {
    if events == [] then "" else Carried(events[0]) + Lines(events[1..])
  }

  /**
    * How reading a message ends: complete, with the message and the position after its last line;
    * broken by an error, with the text read so far and the position after the error; or out of
    * events, with the text read so far.
    */
  datatype FrameResult =
    | Complete(msg: string, next: nat)
    | Broken(err: string, partial: string, next: nat)
    | Starved(partial: string)

  /**
    * The framing of events from position i on, with buf already read: timeouts are skipped with
    * the text they cut off, a line is appended, and the message is complete as soon as it ends with the trailer.
    */
  function FrameFrom(events: seq<ReadEvent>, i: nat, buf: string): (r: FrameResult)
    requires i <= |events|
    ensures r.Complete? || r.Broken? ==> i < r.next <= |events|
    decreases |events| - i
  {
    if i == |events| then Starved(buf)
    else
      match events[i]
      case Timeout(_) => FrameFrom(events, i + 1, buf)
      case Failed(e) => Broken(e, buf, i + 1)
      case Line(d) =>
        if EndsWith(buf + d, TRAILER) then Complete(buf + d, i + 1)
        else FrameFrom(events, i + 1, buf + d)
  }

  /** The framing of one message from an empty buffer, as each pass of the reader starts. */
  function Frame(events: seq<ReadEvent>): FrameResult {
    FrameFrom(events, 0, "")
  }

  /** Events i..k-1 hold no error, and no line among them leaves the message ending with the trailer. */
  predicate Clean(events: seq<ReadEvent>, i: nat, k: nat, buf: string)
    requires i <= k <= |events|
  {
    forall j :: i <= j < k ==>
      !events[j].Failed? && (events[j].Line? ==> !EndsWith(buf + Lines(events[i..j + 1]), TRAILER))
  }

  lemma LinesStep(events: seq<ReadEvent>, i: nat, k: nat)
    requires i < k <= |events|
    ensures Lines(events[i..k]) == Carried(events[i]) + Lines(events[i + 1..k])
  {
    assert events[i..k][0] == events[i];
    assert events[i..k][1..] == events[i + 1..k];
  }

  /** The buffer with events i..j read is the buffer with event i read, then events i + 1..j. */
  lemma BufferShift(events: seq<ReadEvent>, i: nat, j: nat, buf: string)
    requires i <= j < |events|
    ensures buf + Lines(events[i..j + 1]) == (buf + Carried(events[i])) + Lines(events[i + 1..j + 1])
    ensures j == i ==> Lines(events[i + 1..j + 1]) == ""
  {
    LinesStep(events, i, j + 1);
    if j == i {
      assert events[i + 1..j + 1] == [];
    }
  }

  /** Clean from i + 1 with the first event's text added to the buffer is clean from i. */
  lemma CleanStep(events: seq<ReadEvent>, i: nat, k: nat, buf: string)
    requires i < k <= |events| && !events[i].Failed?
    requires events[i].Line? ==> !EndsWith(buf + Carried(events[i]), TRAILER)
    requires Clean(events, i + 1, k, buf + Carried(events[i]))
    ensures Clean(events, i, k, buf)
  {
    var buf' := buf + Carried(events[i]);
    forall j | i <= j < k
      ensures !events[j].Failed? && (events[j].Line? ==> !EndsWith(buf + Lines(events[i..j + 1]), TRAILER))
    {
      BufferShift(events, i, j, buf);
      if j == i {
        assert buf' + "" == buf';
      } else {
        assert !events[j].Failed? && (events[j].Line? ==> !EndsWith(buf' + Lines(events[i + 1..j + 1]), TRAILER));
      }
    }
  }

  /**
    * A complete message is the buffer and the text of the events up to a line that makes it end
    * with the trailer, with no error and no earlier such line before it.
    */
  lemma {:induction false} FrameCompleteSound(events: seq<ReadEvent>, i: nat, buf: string)
    requires i <= |events| && FrameFrom(events, i, buf).Complete?
    ensures
      var r := FrameFrom(events, i, buf);
      events[r.next - 1].Line? && r.msg == buf + Lines(events[i..r.next]) &&
      EndsWith(r.msg, TRAILER) && Clean(events, i, r.next - 1, buf)
    decreases |events| - i
  {
    var e := events[i];
    var buf' := buf + Carried(e);
    var r := FrameFrom(events, i, buf);
    if e.Line? && EndsWith(buf', TRAILER) {
      CompleteAtFirstLine(events, i, buf);
    } else {
      assert e.Timeout? ==> buf' == buf;
      assert r == FrameFrom(events, i + 1, buf');
      FrameCompleteSound(events, i + 1, buf');
      CompleteLater(events, i, buf, r.msg, r.next);
    }
  }

  lemma CompleteAtFirstLine(events: seq<ReadEvent>, i: nat, buf: string)
    requires i < |events| && events[i].Line? && EndsWith(buf + events[i].data, TRAILER)
    ensures FrameFrom(events, i, buf) == Complete(buf + Lines(events[i..i + 1]), i + 1)
    ensures Clean(events, i, i, buf)
  {
    var e := events[i];
    assert events[i..i + 1] == [e];
    assert Lines([e]) == e.data + Lines([]);
  }

  /** A message completed after the first event also carries that event's text. */
  lemma CompleteLater(events: seq<ReadEvent>, i: nat, buf: string, msg: string, k: nat)
    requires i + 1 < k <= |events| && !events[i].Failed?
    requires events[i].Line? ==> !EndsWith(buf + Carried(events[i]), TRAILER)
    requires msg == buf + Carried(events[i]) + Lines(events[i + 1..k])
    requires Clean(events, i + 1, k - 1, buf + Carried(events[i]))
    ensures msg == buf + Lines(events[i..k]) && Clean(events, i, k - 1, buf)
  {
    LinesStep(events, i, k);
    assert buf + Lines(events[i..k]) == (buf + Carried(events[i])) + Lines(events[i + 1..k]);
    CleanStep(events, i, k - 1, buf);
  }

  /** A broken read keeps the text before the first error, and no line before it completed a message. */
  lemma {:induction false} FrameBrokenSound(events: seq<ReadEvent>, i: nat, buf: string)
    requires i <= |events| && FrameFrom(events, i, buf).Broken?
    ensures
      var r := FrameFrom(events, i, buf);
      events[r.next - 1] == Failed(r.err) && r.partial == buf + Lines(events[i..r.next - 1]) &&
      Clean(events, i, r.next - 1, buf)
    decreases |events| - i
  {
    var e := events[i];
    var buf' := buf + Carried(e);
    if e.Failed? {
      assert events[i..i] == [];
    } else {
      assert e.Timeout? ==> buf' == buf;
      var r := FrameFrom(events, i + 1, buf');
      assert FrameFrom(events, i, buf) == r;
      FrameBrokenSound(events, i + 1, buf');
      PartialLater(events, i, buf, r.partial, r.next - 1);
    }
  }

  /** A read broken, or starved, after the first event also carries that event's text. */
  lemma PartialLater(events: seq<ReadEvent>, i: nat, buf: string, partial: string, k: nat)
    requires i < k <= |events| && !events[i].Failed?
    requires events[i].Line? ==> !EndsWith(buf + Carried(events[i]), TRAILER)
    requires partial == buf + Carried(events[i]) + Lines(events[i + 1..k])
    requires Clean(events, i + 1, k, buf + Carried(events[i]))
    ensures partial == buf + Lines(events[i..k]) && Clean(events, i, k, buf)
  {
    LinesStep(events, i, k);
    assert buf + Lines(events[i..k]) == (buf + Carried(events[i])) + Lines(events[i + 1..k]);
    CleanStep(events, i, k, buf);
  }

  /** Events that run out before a message completes leave all their text in the buffer. */
  lemma {:induction false} FrameStarvedSound(events: seq<ReadEvent>, i: nat, buf: string)
    requires i <= |events| && FrameFrom(events, i, buf).Starved?
    ensures FrameFrom(events, i, buf).partial == buf + Lines(events[i..]) && Clean(events, i, |events|, buf)
    decreases |events| - i
  {
    if i == |events| {
      assert events[i..] == [];
    } else {
      var e := events[i];
      var buf' := buf + Carried(e);
      assert e.Timeout? ==> buf' == buf;
      var r := FrameFrom(events, i + 1, buf');
      assert FrameFrom(events, i, buf) == r;
      FrameStarvedSound(events, i + 1, buf');
      assert events[i..] == events[i..|events|] && events[i + 1..] == events[i + 1..|events|];
      PartialLater(events, i, buf, r.partial, |events|);
    }
  }

  /**
    * Conversely, a message is complete at the first line that makes it end with the trailer,
    * provided no error comes before: framing returns exactly that message.
    */
  lemma {:induction false} FrameFirstCompletion(events: seq<ReadEvent>, i: nat, buf: string, k: nat)
    requires i < k <= |events| && events[k - 1].Line?
    requires EndsWith(buf + Lines(events[i..k]), TRAILER) && Clean(events, i, k - 1, buf)
    ensures FrameFrom(events, i, buf) == Complete(buf + Lines(events[i..k]), k)
    decreases k - i
  {
    var e := events[i];
    if i == k - 1 {
      assert events[i..k] == [e];
      assert Lines([e]) == e.data + Lines([]);
    } else {
      var buf' := buf + Carried(e);
      CleanFirstStep(events, i, k - 1, buf);
      LinesStep(events, i, k);
      assert buf + Lines(events[i..k]) == buf' + Lines(events[i + 1..k]);
      FrameFirstCompletion(events, i + 1, buf', k);
    }
  }

  /** Framing passes over the first event of a clean stretch, which adds its text to the buffer. */
  lemma CleanFirstStep(events: seq<ReadEvent>, i: nat, k: nat, buf: string)
    requires i < k <= |events| && Clean(events, i, k, buf)
    ensures FrameFrom(events, i, buf) == FrameFrom(events, i + 1, buf + Carried(events[i]))
    ensures Clean(events, i + 1, k, buf + Carried(events[i]))
  {
    var e := events[i];
    assert events[i..i + 1] == [e];
    assert Lines([e]) == Carried(e) + Lines([]);
    assert !e.Failed? && (e.Line? ==> !EndsWith(buf + Carried(e), TRAILER));
    assert e.Timeout? ==> buf + Carried(e) == buf;
    CleanTail(events, i, k, buf);
  }

  /** Clean from i is clean from i + 1 with the first event's text added to the buffer. */
  lemma CleanTail(events: seq<ReadEvent>, i: nat, k: nat, buf: string)
    requires i < k <= |events| && Clean(events, i, k, buf)
    ensures Clean(events, i + 1, k, buf + Carried(events[i]))
  {
    forall j | i + 1 <= j < k
      ensures events[j].Line? ==> !EndsWith(buf + Carried(events[i]) + Lines(events[i + 1..j + 1]), TRAILER)
    {
      BufferShift(events, i, j, buf);
    }
  }

  /** Timeouts are skipped without changing what has been read, whatever text they cut off. */
  lemma {:induction false} TimeoutsSkipped(events: seq<ReadEvent>, i: nat, k: nat, buf: string)
    requires i <= k <= |events|
    requires forall j :: i <= j < k ==> events[j].Timeout?
    ensures FrameFrom(events, i, buf) == FrameFrom(events, k, buf)
    decreases k - i
  {
    if i < k {
      assert events[i].Timeout?;
      TimeoutsSkipped(events, i + 1, k, buf);
    }
  }

  /**
    * A message ending with the trailer, received as one line after any number of timeouts, is
    * framed back whole.
    */
  lemma LineFramed(msg: string, timeouts: seq<ReadEvent>)
    requires EndsWith(msg, TRAILER)
    requires forall j :: 0 <= j < |timeouts| ==> timeouts[j].Timeout?
    ensures Frame(timeouts + [Line(msg)]) == Complete(msg, |timeouts| + 1)
  {
    var events := timeouts + [Line(msg)];
    assert events[|timeouts|] == Line(msg);
    assert "" + msg == msg;
    TimeoutsSkipped(events, 0, |timeouts|, "");
  }

  /** A request's envelope, received as one line after any number of timeouts, is framed back whole. */
  lemma EnvelopeFramed(request: string, timeouts: seq<ReadEvent>)
    requires forall j :: 0 <= j < |timeouts| ==> timeouts[j].Timeout?
    ensures Frame(timeouts + [Line(Envelope(request))]) == Complete(Envelope(request), |timeouts| + 1)
  {
    UnwrapEnvelope(request);
    LineFramed(Envelope(request), timeouts);
  }

  /**
    * A line cut by the deadline loses its head: when the rest arrives and ends with the trailer,
    * the message framed is that rest alone, not the line that was sent.
    */
  lemma CutLineLosesHead(head: string, rest: string)
    requires head != [] && EndsWith(rest, TRAILER)
    ensures Frame([Timeout(head), Line(rest)]) == Complete(rest, 2)
    ensures Frame([Timeout(head), Line(rest)]).msg != head + rest
  {
    LineFramed(rest, [Timeout(head)]);
    assert [Timeout(head)] + [Line(rest)] == [Timeout(head), Line(rest)];
    assert |head + rest| > |rest|;
  }

  // ---------------------------------------------------------------------------
  // The connection (connection.go:15-31, 40-51, 99-124, 145-200)
  // ---------------------------------------------------------------------------

  /** A request sent and the slot its answer is delivered to (the buffered channel). */
  class Promise {
    const request: string
    var result: Option<BSResponse>

    constructor (request: string)
      ensures this.request == request && result == None
    {
      this.request := request;
      result := None;
    }
  }

  /** What writing a request and flushing it gives. */
  datatype WriteOutcome = Written | WriteFailed(err: string) | FlushFailed(err: string)

  /** Why an operation of the connection failed. */
  datatype Failure =
    | Closed(lastError: Option<string>)
    | Io(err: string)
    | Lookup(lookup: LookupError)
    | Rejected(summary: string)

  const CLOSED_OPEN := "Connection closed (last error: "

  /** The text of the refusal of a closing connection: the last error as %v prints it, "<nil>" for none. */
  function ClosedMessage(lastError: Option<string>): string {
    CLOSED_OPEN + (if lastError.Some? then lastError.value else "<nil>") + ")"
  }

  /** The last error is read back out of the refusal, and "<nil>" stands for no error. */
  lemma ClosedMessageNamesError(lastError: Option<string>)
    ensures lastError.Some? ==> Strip(CLOSED_OPEN, ")", ClosedMessage(lastError)) == Some(lastError.value)
    ensures lastError.None? ==> Strip(CLOSED_OPEN, ")", ClosedMessage(lastError)) == Some("<nil>")
  {
    StripRoundTrip(CLOSED_OPEN, if lastError.Some? then lastError.value else "<nil>", ")");
  }

  /**
    * The response a framed message becomes, built as the reader builds it: the message trimmed of
    * white space, with its parse, marked as an error answer or not, and with no error text.
    */
  function Answer(msg: string, tree: Node): (r: BSResponse)
    requires AsWrittenDefined(Ok(tree))
    ensures r.body == TrimSpace(msg) && r.parsed == tree
    ensures r.error == r.IsError() && r.errorText == ""
  {
    NewBSResponseAsWritten(TrimSpace(msg), Ok(tree)).value
  }

  class BSConnection {
    const host: string
    const port: string
    /** The promises of the requests sent and not yet answered, oldest first. */
    var responseQueue: seq<Promise>
    var closingFlag: bool
    var lastError: Option<string>
    /** Every promise handed out, in the order of the requests. */
    ghost var issued: seq<Promise>
    /** The answers delivered so far, in order. */
    ghost var answers: seq<BSResponse>

    /**
      * The queue pairs answers with requests by position: the k-th answer delivered is the result
      * of the k-th promise issued, and the queue holds exactly the promises not yet answered.
      */
    ghost predicate Valid()
      reads this, issued
    {
      && |answers| <= |issued|
      && responseQueue == issued[|answers|..]
      && (forall i, j :: 0 <= i < j < |issued| ==> issued[i] != issued[j])
      && (forall k :: 0 <= k < |answers| ==> issued[k].result == Some(answers[k]))
      && (forall k :: |answers| <= k < |issued| ==> issued[k].result == None)
    }

    /** NewConnection: no request pending, not closing, no error, the port as decimal text. */
    constructor (host: string, port: int)
      ensures this.host == host && this.port == Itoa(port)
      ensures responseQueue == [] && !closingFlag && lastError == None
      ensures issued == [] && answers == [] && Valid()
    {
      this.host := host;
      this.port := Itoa(port);
      responseQueue := [];
      closingFlag := false;
      lastError := None;
      issued := [];
      answers := [];
    }

    /**
      * The outcome of sending request: refused with the last error when closing, failed with the
      * write or flush error, otherwise a fresh promise for request appended at the tail of the
      * queue. A refusal or failure changes nothing.
      */
    twostate predicate Enqueued(request: string, io: WriteOutcome, new r: Result<Promise, Failure>)
      reads this
    {
      if r.Err? then
        unchanged(this) &&
        (old(closingFlag) ==> r.error == Closed(old(lastError))) &&
        (!old(closingFlag) ==> !io.Written? && r.error == Io(io.err))
      else
        !old(closingFlag) && io.Written? &&
        fresh(r.value) && r.value.request == request &&
        responseQueue == old(responseQueue) + [r.value] &&
        issued == old(issued) + [r.value] && answers == old(answers) &&
        closingFlag == old(closingFlag) && lastError == old(lastError)
    }

    /** SendRaw (connection.go:100-117). */
    method SendRaw(request: string, io: WriteOutcome) returns (r: Result<Promise, Failure>)
      requires Valid()
      modifies this
      ensures Valid() && Enqueued(request, io, r)
    {
      if closingFlag {
        return Err(Closed(lastError));
      }
      var p := new Promise(request);
      match io {
        case WriteFailed(e) => return Err(Io(e));
        case FlushFailed(e) => return Err(Io(e));
        case Written =>
      }
      responseQueue := responseQueue + [p];
      issued := issued + [p];
      return Ok(p);
    }

    /** Send: SendRaw of the request inside the document envelope. */
    method Send(request: string, io: WriteOutcome) returns (r: Result<Promise, Failure>)
      requires Valid()
      modifies this
      ensures Valid() && Enqueued(Envelope(request), io, r)
    {
      r := SendRaw(Envelope(request), io);
    }

    /** Close without waiting: every later send is refused. */
    method Close()
      requires Valid()
      modifies this
      ensures Valid() && closingFlag
      ensures responseQueue == old(responseQueue) && lastError == old(lastError)
      ensures issued == old(issued) && answers == old(answers)
    {
      closingFlag := true;
    }

    /**
      * One pass of the reader's inner loop over the events of the socket: the framed message.
      * An error other than a timeout is recorded as the last error and closes the connection.
      */
    method ReadMessage(events: seq<ReadEvent>) returns (r: FrameResult)
      requires Valid()
      modifies this
      ensures Valid()
      ensures r == Frame(events)
      ensures r.Broken? ==> lastError == Some(r.err) && closingFlag
      ensures !r.Broken? ==> lastError == old(lastError) && closingFlag == old(closingFlag)
      ensures responseQueue == old(responseQueue) && issued == old(issued) && answers == old(answers)
    {
      var msg := "";
      var i := 0;
      while i < |events|
        invariant i <= |events|
        invariant FrameFrom(events, i, msg) == Frame(events)
        invariant unchanged(this)
      {
        match events[i] {
          case Timeout(_) =>
            i := i + 1;
          case Failed(e) =>
            lastError := Some(e);
            Close();
            return Broken(e, msg, i + 1);
          case Line(d) =>
            msg := msg + d;
            if EndsWith(msg, TRAILER) {
              return Complete(msg, i + 1);
            }
            i := i + 1;
        }
      }
      return Starved(msg);
    }

    /** Hands resp to the promise at the front of the queue, which leaves the queue (connection.go:182-184). */
    method Deliver(resp: BSResponse)
      requires Valid() && responseQueue != []
      modifies this, responseQueue[0]
      ensures Valid()
      ensures old(responseQueue[0]).result == Some(resp)
      ensures responseQueue == old(responseQueue[1..])
      ensures issued == old(issued) && answers == old(answers) + [resp]
      ensures closingFlag == old(closingFlag) && lastError == old(lastError)
    {
      var n := |answers|;
      var p := responseQueue[0];
      assert p == issued[n];
      label before:
      p.result := Some(resp);
      responseQueue := responseQueue[1..];
      answers := answers + [resp];
      forall k | 0 <= k < |issued| && k != n
        ensures issued[k].result == old@before(issued[k].result)
      {
        assert issued[k] != issued[n];
      }
      assert responseQueue == issued[|answers|..];
    }

    /**
      * Delivery of a framed message (connection.go:178-184): the response built from the trimmed
      * message goes to the oldest pending request. tree is the parse of the trimmed message.
      */
    method Receive(msg: string, tree: Node)
      requires Valid() && responseQueue != []
      requires AsWrittenDefined(Ok(tree))
      modifies this, responseQueue[0]
      ensures Valid()
      ensures old(responseQueue[0]).result == Some(Answer(msg, tree))
      ensures responseQueue == old(responseQueue[1..])
      ensures issued == old(issued) && answers == old(answers) + [Answer(msg, tree)]
      ensures closingFlag == old(closingFlag) && lastError == old(lastError)
    {
      var resp := Answer(msg, tree);
      Deliver(resp);
    }

    /**
      * The first half of StartSession (connection.go:77-86): send the authentication request,
      * await its answer, and read the nonce out of it.
      */
    method AuthenticationStep(s: Session, username: string, io: WriteOutcome, msg: string, tree: Node)
      returns (r: Result<string, Failure>)
      requires s.conn == this && Valid() && responseQueue == []
      requires AsWrittenDefined(Ok(tree)) && NonceReadable(tree)
      modifies this
      ensures Valid() && responseQueue == []
      ensures closingFlag == old(closingFlag) && lastError == old(lastError)
      ensures old(closingFlag) ==> r == Err(Closed(old(lastError))) && issued == old(issued)
      ensures !old(closingFlag) && !io.Written? ==> r == Err(Io(io.err)) && issued == old(issued)
      ensures !old(closingFlag) && io.Written? ==>
                r == NonceOf(tree) && old(issued) <= issued &&
                RequestsOf(issued) == RequestsOf(old(issued)) + [Envelope(SessionText(s.sessionId, AuthenticationFragment(username)))]
    {
      var auth := Commands.Authenticate(Authentication.NewAuthenticationRequest(username));
      var p := SendCommand(s, auth, io);
      if p.Err? {
        return Err(p.error);
      }
      RequestsAppend(old(issued), p.value);
      Receive(msg, tree);
      var resp := p.value.result.value;
      var v := resp.Get(NONCE_PATH);
      if v.Err? {
        return Err(Lookup(v.error));
      }
      return Ok(v.value.s);
    }

    /**
      * The second half of StartSession (connection.go:87-95): send the login request signed with
      * the nonce, await its answer, and fail with its summary when it is an error.
      */
    method LoginStep(s: Session, username: string, password: string, nonce: string,
                     sha1: string -> seq<byte>, md5: string -> seq<byte>,
                     io: WriteOutcome, msg: string, tree: Node)
      returns (r: Result<(), Failure>)
      requires s.conn == this && Valid() && responseQueue == []
      requires Authentication.IsDigest(sha1, 20) && Authentication.IsDigest(md5, 16)
      requires AsWrittenDefined(Ok(tree))
      modifies this
      ensures Valid() && responseQueue == []
      ensures closingFlag == old(closingFlag) && lastError == old(lastError)
      ensures old(closingFlag) ==> r == Err(Closed(old(lastError))) && issued == old(issued)
      ensures !old(closingFlag) && !io.Written? ==> r == Err(Io(io.err)) && issued == old(issued)
      ensures !old(closingFlag) && io.Written? ==>
                r == LoginOutcome(tree) && old(issued) <= issued &&
                RequestsOf(issued) ==
                  RequestsOf(old(issued)) + [Envelope(SessionText(s.sessionId, LoginFragment(username, password, nonce, sha1, md5)))]
    {
      var login := Commands.Login(Authentication.NewLoginRequest(username, password, nonce, sha1, md5));
      var p := SendCommand(s, login, io);
      if p.Err? {
        return Err(p.error);
      }
      RequestsAppend(old(issued), p.value);
      Receive(msg, tree);
      var resp := p.value.result.value;
      if resp.IsError() {
        var details := resp.GetErrorDetails();
        return Err(Rejected(details.value.summary));
      }
      return Ok(());
    }

    /**
      * StartSession (connection.go:75-97): a new session, authenticated then logged in. The answers
      * are the messages the reader delivers, with their parses; the queue is empty at the start,
      * so each answer is the one awaited.
      */
    method StartSession(username: string, password: string, draw: nat,
                        sha1: string -> seq<byte>, md5: string -> seq<byte>,
                        authIo: WriteOutcome, authMsg: string, authTree: Node,
                        loginIo: WriteOutcome, loginMsg: string, loginTree: Node)
      returns (r: Result<Session, Failure>)
      requires Valid() && responseQueue == []
      requires draw < SESSION_ID_BOUND && Authentication.IsDigest(sha1, 20) && Authentication.IsDigest(md5, 16)
      requires AsWrittenDefined(Ok(authTree)) && NonceReadable(authTree)
      requires AsWrittenDefined(Ok(loginTree))
      modifies this
      ensures Valid() && responseQueue == []
      ensures closingFlag == old(closingFlag) && lastError == old(lastError)
      ensures r.Ok? <==>
                !old(closingFlag) && authIo.Written? && NonceOf(authTree).Ok? &&
                loginIo.Written? && LoginOutcome(loginTree).Ok?
      ensures r.Ok? ==> r.value == NewSession(this, draw)
      ensures old(closingFlag) ==> r == Err(Closed(old(lastError)))
      ensures !old(closingFlag) && !authIo.Written? ==> r == Err(Io(authIo.err))
      ensures !old(closingFlag) && authIo.Written? && NonceOf(authTree).Err? ==> r == Err(NonceOf(authTree).error)
      ensures !old(closingFlag) && authIo.Written? && NonceOf(authTree).Ok? && !loginIo.Written? ==>
                r == Err(Io(loginIo.err))
      ensures (!old(closingFlag) && authIo.Written? && NonceOf(authTree).Ok? && loginIo.Written? &&
               LoginOutcome(loginTree).Err?) ==> r == Err(LoginOutcome(loginTree).error)
      ensures old(issued) <= issued
      ensures RequestsOf(issued) ==
                RequestsOf(old(issued)) +
                SessionRequests(NewSession(this, draw).sessionId, username, password, sha1, md5,
                                old(closingFlag), authIo, authTree, loginIo)
    {
      var s := NewSession(this, draw);
      ghost var before := RequestsOf(issued);
      ghost var auth := Envelope(SessionText(s.sessionId, AuthenticationFragment(username)));
      var nonce := AuthenticationStep(s, username, authIo, authMsg, authTree);
      if nonce.Err? {
        assert before + [] == before && [auth] + [] == [auth];
        return Err(nonce.error);
      }
      var login := LoginStep(s, username, password, nonce.value, sha1, md5, loginIo, loginMsg, loginTree);
      ghost var signed := Envelope(SessionText(s.sessionId, LoginFragment(username, password, nonce.value, sha1, md5)));
      assert [auth] + [] == [auth];
      assert loginIo.Written? ==> RequestsOf(issued) == before + ([auth] + [signed]) by {
        if loginIo.Written? {
          AppendTwo(before, auth, signed);
        }
      }
      if login.Err? {
        return Err(login.error);
      }
      return Ok(s);
    }
  }

  /** The requests of the given promises, in order. */
  ghost function RequestsOf(ps: seq<Promise>): (r: seq<string>)
    ensures |r| == |ps|
  {
    seq(|ps|, i requires 0 <= i < |ps| => ps[i].request)
  }

  lemma RequestsAppend(ps: seq<Promise>, p: Promise)
    ensures RequestsOf(ps + [p]) == RequestsOf(ps) + [p.request]
  {
    assert (ps + [p])[|ps|] == p;
    forall i | 0 <= i < |ps|
      ensures RequestsOf(ps + [p])[i] == RequestsOf(ps)[i]
    {
      assert (ps + [p])[i] == ps[i];
    }
  }

  lemma AppendTwo(s: seq<string>, a: string, b: string)
    ensures (s + [a]) + [b] == s + ([a] + [b])
  {
  }

  /**
    * The requests StartSession sends: none when the connection is closing or the first write
    * fails; otherwise the authentication envelope, then the login envelope signed with the nonce
    * when there is a nonce and the second write succeeds.
    */
  function SessionRequests(sessionId: string, username: string, password: string,
                           sha1: string -> seq<byte>, md5: string -> seq<byte>,
                           closing: bool, authIo: WriteOutcome, authTree: Node, loginIo: WriteOutcome): seq<string>
    requires Authentication.IsDigest(sha1, 20) && Authentication.IsDigest(md5, 16) && NonceReadable(authTree)
  {
    if closing || !authIo.Written? then []
    else
      [Envelope(SessionText(sessionId, AuthenticationFragment(username)))] +
      if NonceOf(authTree).Err? || !loginIo.Written? then []
      else [Envelope(SessionText(sessionId, LoginFragment(username, password, NonceOf(authTree).value, sha1, md5)))]
  }

  /** The authentication answer's nonce, when it has one, is text. */
  predicate NonceReadable(tree: Node) {
    var v := ValueForPath(tree, NONCE_PATH);
    v.Ok? ==> v.value.Str?
  }

  /** The nonce of the authentication answer, or why it has none. */
  function NonceOf(tree: Node): (r: Result<string, Failure>)
    requires NonceReadable(tree)
    ensures r.Ok? <==> ValuesForPath(tree, NONCE_PATH).Ok?
    ensures r.Ok? ==> ValueForPath(tree, NONCE_PATH) == Ok(Str(r.value))
    ensures r.Err? ==> r.error == Lookup(ValuesForPath(tree, NONCE_PATH).error)
  {
    match ValueForPath(tree, NONCE_PATH)
    case Err(e) => Err(Lookup(e))
    case Ok(v) => Ok(v.s)
  }

  /**
    * The outcome of the login answer: accepted unless it is an error answer, which is rejected
    * with its summary.
    */
  function LoginOutcome(tree: Node): (r: Result<(), Failure>)
    requires AsWrittenDefined(Ok(tree))
    ensures r.Ok? <==> !BSResponse("", false, "", tree).IsError()
    ensures r.Err? ==> r.error.Rejected? && ValueForPath(tree, SUMMARY_PATH) == Ok(Str(r.error.summary))
  {
    var resp := BSResponse("", false, "", tree);
    if resp.IsError() then Err(Rejected(resp.GetErrorDetails().value.summary)) else Ok(())
  }

  function AuthenticationFragment(username: string): string {
    Commands.Authenticate(Authentication.NewAuthenticationRequest(username)).Fragment()
  }

  function LoginFragment(username: string, password: string, nonce: string,
                         sha1: string -> seq<byte>, md5: string -> seq<byte>): string
    requires Authentication.IsDigest(sha1, 20) && Authentication.IsDigest(md5, 16)
  {
    Commands.Login(Authentication.NewLoginRequest(username, password, nonce, sha1, md5)).Fragment()
  }

  // ---------------------------------------------------------------------------
  // Sessions (connection.go:33-37, 53-59, 74-97, 131-143)
  // ---------------------------------------------------------------------------

  /** rand.Intn draws a session number below this bound. */
  const SESSION_ID_BOUND: nat := 99999999

  /** A connection and the session id that prefixes every command sent on it. */
  datatype Session = Session(conn: BSConnection, sessionId: string)

  /**
    * NewSession, with the random draw as a parameter: the id is the plain decimal text of the draw,
    * at most eight digits with no leading zero.
    */
  function NewSession(c: BSConnection, draw: nat): (s: Session)
    requires draw < SESSION_ID_BOUND
    ensures s.conn == c
    ensures 1 <= |s.sessionId| <= 8 && AllDigits(s.sessionId)
    ensures |s.sessionId| > 1 ==> s.sessionId[0] != '0'
    ensures DecimalValue(s.sessionId) == draw
  {
    assert Pow10(8) == 100000000;
    DecimalLength(draw, 8);
    DecimalRoundTrip(draw);
    Session(c, Itoa(draw))
  }

  /** The session prefix and what follows it: <sessionId xmlns="">id</sessionId> then the commands. */
  const SESSION_TEMPLATE: Template := Then("<sessionId xmlns=\"\">", Then("</sessionId>", End("")))

  function SessionText(id: string, commands: string): string {
    Render(SESSION_TEMPLATE, [id, commands])
  }

  /** The session id and the commands are read back from the text sent, for any id without '<'. */
  lemma SessionTextRoundTrip(id: string, commands: string)
    requires '<' !in id
    ensures Parse(SESSION_TEMPLATE, SessionText(id, commands)) == Some([id, commands])
  {
    assert SESSION_TEMPLATE.rest.lit[0] == '<';
    ParseRender(SESSION_TEMPLATE, [id, commands]);
  }

  /** The fragments of the commands, in order. */
  function Fragments(comms: seq<Commands.Command>): (r: seq<string>)
    ensures |r| == |comms| && forall i :: 0 <= i < |comms| ==> r[i] == comms[i].Fragment()
  {
    seq(|comms|, i requires 0 <= i < |comms| => comms[i].Fragment())
  }

  /** A batch of one command is sent exactly as that command alone. */
  lemma BatchOfOne(c: Commands.Command)
    ensures Join(Fragments([c]), "") == c.Fragment()
  {
  }

  /** Adding a command to a batch appends its fragment, with no separator. */
  lemma BatchAppend(comms: seq<Commands.Command>, c: Commands.Command)
    ensures Join(Fragments(comms + [c]), "") == Join(Fragments(comms), "") + c.Fragment()
  {
    var a, b := Fragments(comms + [c]), Fragments(comms) + [c.Fragment()];
    assert |a| == |b|;
    forall i | 0 <= i < |a|
      ensures a[i] == b[i]
    {
      if i < |comms| {
        assert (comms + [c])[i] == comms[i];
      }
    }
    assert a == b;
    JoinAppend(Fragments(comms), c.Fragment(), "");
  }

  /** Sends one command, after the session prefix, inside the envelope (connection.go:132-134). */
  method SendCommand(s: Session, c: Commands.Command, io: WriteOutcome) returns (r: Result<Promise, Failure>)
    requires s.conn.Valid()
    modifies s.conn
    ensures s.conn.Valid()
    ensures s.conn.Enqueued(Envelope(SessionText(s.sessionId, c.Fragment())), io, r)
  {
    var f := c.Prepare();
    r := s.conn.Send(SessionText(s.sessionId, f), io);
  }

  /**
    * Sends several commands as one message: their fragments prepared in order, joined with no
    * separator, after one session prefix (connection.go:137-143).
    */
  method SendMultipleCommands(s: Session, comms: seq<Commands.Command>, io: WriteOutcome)
    returns (r: Result<Promise, Failure>)
    requires s.conn.Valid()
    modifies s.conn
    ensures s.conn.Valid()
    ensures s.conn.Enqueued(Envelope(SessionText(s.sessionId, Join(Fragments(comms), ""))), io, r)
  {
    var prepared := new string[|comms|];
    for i := 0 to |comms|
      modifies prepared
      invariant forall k :: 0 <= k < i ==> prepared[k] == comms[k].Fragment()
    {
      var f := comms[i].Prepare();
      prepared[i] := f;
    }
    assert prepared[..] == Fragments(comms);
    r := s.conn.Send(SessionText(s.sessionId, Join(prepared[..], "")), io);
  }

  // ---------------------------------------------------------------------------
  // Pairing by position
  // ---------------------------------------------------------------------------

  /**
    * Two requests sent on a fresh connection and two answers received: the first answer goes to
    * the first request and the second to the second, and a connection closed afterwards refuses
    * the next request with the last error.
    */
  method AnswersPairInOrder(a: string, b: string, first: BSResponse, second: BSResponse)
    returns (pa: Promise, pb: Promise, refused: Result<Promise, Failure>)
    ensures pa.request == Envelope(a) && pa.result == Some(first)
    ensures pb.request == Envelope(b) && pb.result == Some(second)
    ensures refused == Err(Closed(None))
  {
    var c := new BSConnection("localhost", 2208);
    var ra := c.Send(a, Written);
    var rb := c.Send(b, Written);
    pa, pb := ra.value, rb.value;
    c.Deliver(first);
    c.Deliver(second);
    c.Close();
    refused := c.Send(a, Written);
  }
}

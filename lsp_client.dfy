/** `LspClient` of `src/lsp.rs`: the request counter and the table of pending
    requests, the messages written to the server's stdin and the messages read from
    its stdout. The server process is given by its two pipes: the bytes written to
    its stdin so far and the bytes of its stdout not yet read. */
module Lsp {
  import opened Wrappers
  import opened Json
  import opened Decimal
  import opened LspFraming
  import opened LspMessages

  /** Why an operation of the client failed (the `?`s of `src/lsp.rs`). */
  datatype LspError =
    | WriteFailed             // `write_all` on the server's stdin
    | Decode(e: DecodeError)  // `serde_json::from_value` on a reply or a notification

  function ToLspError<T>(r: Result<T, DecodeError>): Result<T, LspError> {
    match r
    case Ok(v) => Ok(v)
    case Err(e) => Err(Decode(e))
  }

  predicate Increasing(xs: seq<nat>) {
    forall i, j :: 0 <= i < j < |xs| ==> xs[i] < xs[j]
  }

  /** The ids of the requests among `ms`, in the order they were written. */
  function RequestIds(ms: seq<Json>): seq<nat> {
    if ms == [] then []
    else
      RequestIds(ms[..|ms| - 1]) + match IdOf(ms[|ms| - 1]) case Some(id) => [id] case None => []
  }

  lemma IncreasingAppend(xs: seq<nat>, x: nat)
    requires Increasing(xs) && forall i :: 0 <= i < |xs| ==> xs[i] < x
    ensures Increasing(xs + [x])
  {
  }

  lemma RequestIdsAppend(ms: seq<Json>, m: Json)
    ensures RequestIds(ms + [m]) == RequestIds(ms) + match IdOf(m) case Some(id) => [id] case None => []
  {
    assert (ms + [m])[..|ms|] == ms;
  }

  /** The serialised bodies of `ms`. */
  function Bodies(ms: seq<Json>, serialize: Json -> seq<byte>): (bs: seq<seq<byte>>)
    ensures |bs| == |ms| && forall i :: 0 <= i < |ms| ==> bs[i] == serialize(ms[i])
  {
    seq(|ms|, i requires 0 <= i < |ms| => serialize(ms[i]))
  }

  /** The body of a frame read as a `ServerMessage`: text that is no JSON and JSON of
      neither message shape are errors. */
  function DecodeBody(body: seq<byte>, parse: seq<byte> -> Option<Json>): Result<Option<ServerMessage>, ReadError> {
    match parse(body)
    case None => Err(InvalidJson)
    case Some(v) =>
      match Classify(v)
      case None => Err(InvalidMessage)
      case Some(m) => Ok(Some(m))
  }

  /** A frame read, with its body decoded. */
  function DecodeFrame(f: Read<seq<byte>>, parse: seq<byte> -> Option<Json>): Read<ServerMessage> {
    match f.result
    case Err(e) => Read(Err(e), f.rest)
    case Ok(None) => Read(Ok(None), f.rest)
    case Ok(Some(body)) => Read(DecodeBody(body, parse), f.rest)
  }

    /** `read_message` on the stream `s`: the next message, and what is left after it. */
  function NextMessage(s: seq<byte>, parse: seq<byte> -> Option<Json>): Read<ServerMessage> {
    DecodeFrame(ReadFrame(s), parse)
  }

  /** A response the server frames is read back as that response, whatever follows
      it on the stream, provided the serialiser and the parser agree on it. */
  lemma ResponseReadBack(id: nat, result: Json, serialize: Json -> seq<byte>, parse: seq<byte> -> Option<Json>, rest: seq<byte>)
    requires id <= U64_MAX
    requires var v := JObject(map["jsonrpc" := JString("2.0"), "id" := JNumber(id), "result" := result]);
      parse(serialize(v)) == Some(v) && |serialize(v)| <= ISIZE_MAX
    ensures var v := JObject(map["jsonrpc" := JString("2.0"), "id" := JNumber(id), "result" := result]);
      NextMessage(Frame(serialize(v)) + rest, parse) == Read(Ok(Some(Response(id, result))), rest)
  {
    var v := JObject(map["jsonrpc" := JString("2.0"), "id" := JNumber(id), "result" := result]);
    FrameRoundTrip(serialize(v), rest);
    ClassifyResponseObject(id, result);
  }

  /** What handling one server message amounted to. */
  datatype Handled =
    | Delivered(id: nat, result: Json)       // the reply went to the request's receiver
    | UnknownResponse(id: nat)               // no pending request has this id: warned and dropped
    | Notified(outcome: NotificationOutcome) // a notification, handled by `handle_notification`

  /** `handle_server_message` on the ids of `pending_requests`: the new ids and the
      outcome. */
  function Dispatch(pending: set<nat>, message: ServerMessage): (set<nat>, Result<Handled, LspError>) {
    match message
    case Response(id, result) =>
      if id in pending then (pending - {id}, Ok(Delivered(id, result))) else (pending, Ok(UnknownResponse(id)))
    case Notification(methodName, params) =>
      (pending, match HandleNotification(methodName, params) case Ok(o) => Ok(Notified(o)) case Err(e) => Err(Decode(e)))
  }

  /** A response reaches its request exactly when the request is pending, and it takes
      that request, and only that one, off the table; so a second response with the
      same id is dropped. */
  lemma DispatchResponse(pending: set<nat>, id: nat, result: Json, again: Json)
    ensures Dispatch(pending, Response(id, result)).1 == Ok(Delivered(id, result)) <==> id in pending
    ensures Dispatch(pending, Response(id, result)).0 == pending - {id}
    ensures Dispatch(Dispatch(pending, Response(id, result)).0, Response(id, again)).1 == Ok(UnknownResponse(id))
  {
  }

  /** A notification never touches the pending requests, and fails only when it is a
      malformed log message. */
  lemma DispatchNotification(pending: set<nat>, methodName: string, params: Json)
    ensures Dispatch(pending, Notification(methodName, params)).0 == pending
    ensures Dispatch(pending, Notification(methodName, params)).1.Err? <==>
      methodName == LOG_MESSAGE && DecodeLogMessage(params).None?
  {
  }

  /** The table of request ids: every id `1..next` was handed out once and is either
      pending or answered, never both; no other id appears. */
  predicate IdTable(pending: set<nat>, answers: map<nat, Json>, next: nat) {
    1 <= next &&
    pending !! answers.Keys &&
    (forall id :: id in pending ==> 1 <= id < next) &&
    (forall id :: id in answers ==> 1 <= id < next) &&
    (forall id: nat :: 1 <= id < next ==> id in pending || id in answers)
  }

  /** Handing out the next id keeps the table, and that id was in use nowhere. */
  lemma IdTableIssue(pending: set<nat>, answers: map<nat, Json>, next: nat)
    requires IdTable(pending, answers, next)
    ensures next !in pending && next !in answers
    ensures IdTable(pending + {next}, answers, next + 1)
  {
  }

  /** Delivering a response keeps the table: the answered id moves from pending to
      answered, and nothing else changes. */
  lemma IdTableDispatch(pending: set<nat>, answers: map<nat, Json>, next: nat, message: ServerMessage)
    requires IdTable(pending, answers, next)
    ensures var (p, r) := Dispatch(pending, message);
      IdTable(p, if r.Ok? && r.value.Delivered? then answers[r.value.id := r.value.result] else answers, next)
  {
    match message
    case Response(id, result) =>
      if id in pending {
        var a := answers[id := result];
        assert forall k :: k in a ==> k in answers || k == id;
      }
    case Notification(_, _) =>
  }

  /** The requests among the messages written carry increasing ids below `next`. */
  predicate RequestLog(sent: seq<Json>, next: nat) {
    Increasing(RequestIds(sent)) && forall i :: 0 <= i < |RequestIds(sent)| ==> RequestIds(sent)[i] < next
  }

  /** Writing a request with the next id keeps the log ordered. */
  lemma RequestLogRequest(sent: seq<Json>, next: nat, methodName: string, params: Json)
    requires RequestLog(sent, next)
    ensures RequestLog(sent, next + 1)
    ensures RequestLog(sent + [RequestObject(next, methodName, params)], next + 1)
  {
    OutboundIds(next, methodName, params);
    RequestIdsAppend(sent, RequestObject(next, methodName, params));
    IncreasingAppend(RequestIds(sent), next);
  }

  /** Writing a notification adds no id. */
  lemma RequestLogNotification(sent: seq<Json>, next: nat, methodName: string, params: Json)
    requires RequestLog(sent, next)
    ensures RequestLog(sent + [NotificationObject(methodName, params)], next)
  {
    OutboundIds(0, methodName, params);
    RequestIdsAppend(sent, NotificationObject(methodName, params));
  }

  /** `LspMessage`, what the editor asks of the client. */
  datatype LspMessage =
    | DidChangeMessage(uri: string, text: string, version: int)
    | CompletionMessage(uri: string, position: Position)

  /** A `u32`. */
  type u32 = n: nat | n <= U32_MAX

  /** `lsp_types::Position`: a 0-based line and a character offset, each a `u32`. */
  datatype Position = Position(line: u32, character: u32)

  /** `LspResponse`, what the client hands back to the editor. */
  datatype LspResponse = CompletionReady(items: seq<CompletionItem>)

  class LspClient {
    /** All bytes written to the server's stdin. */
    var stdin: seq<byte>
    /** The bytes of the server's stdout not yet read. */
    var stdout: seq<byte>
    var nextRequestId: nat
    /** The keys of `pending_requests`: requests whose reply is still awaited. */
    var pending: set<nat>
    /** The reply each answered request's receiver got. */
    var answers: map<nat, Json>
    /** The messages written to stdin, in order. */
    ghost var sent: seq<Json>
    /** Whether the server's stdin accepts writes. */
    const stdinOpen: bool
    /** `serde_json::to_string`. */
    const serialize: Json -> seq<byte>
    /** `String::from_utf8` followed by `serde_json::from_str`, as one partial map. */
    const parse: seq<byte> -> Option<Json>

    /** The ids `1..nextRequestId` were each handed out once and are either pending or
        answered; stdin holds the frames of the messages sent; the requests among them
        carry increasing ids below the counter. */
    ghost predicate Valid()
      reads this
    {
      IdTable(pending, answers, nextRequestId) &&
      stdin == Frames(Bodies(sent, serialize)) &&
      RequestLog(sent, nextRequestId)
    }

    /** `LspClient::new` once the server is running: the counter starts at 1 and
        nothing is pending. */
    constructor(serialize: Json -> seq<byte>, parse: seq<byte> -> Option<Json>, serverOutput: seq<byte>, stdinOpen: bool)
      ensures Valid()
      ensures this.serialize == serialize && this.parse == parse && this.stdinOpen == stdinOpen
      ensures stdin == [] && stdout == serverOutput && sent == []
      ensures nextRequestId == 1 && pending == {} && answers == map[]
    {
      this.serialize := serialize;
      this.parse := parse;
      this.stdinOpen := stdinOpen;
      stdin := [];
      stdout := serverOutput;
      nextRequestId := 1;
      pending := {};
      answers := map[];
      sent := [];
    }

    /** `send_message`: the `Content-Length` header, then the serialised body. */
    method SendMessage(message: Json) returns (r: Result<(), LspError>)
      modifies this`stdin, this`sent
      ensures stdinOpen ==> r == Ok(()) && sent == old(sent) + [message] && stdin == old(stdin) + Frame(serialize(message))
      ensures !stdinOpen ==> r == Err(WriteFailed) && sent == old(sent) && stdin == old(stdin)
    {
      if !stdinOpen {
        return Err(WriteFailed);
      }
      var body := serialize(message);
      var header := Header(|body|);
      stdin := stdin + Ascii(header);
      stdin := stdin + body;
      sent := sent + [message];
      return Ok(());
    }

    /** The frames on stdin grow by the one for `message`. */
    lemma FramesGrow(oldSent: seq<Json>, message: Json)
      ensures Frames(Bodies(oldSent + [message], serialize)) == Frames(Bodies(oldSent, serialize)) + Frame(serialize(message))
    {
      assert Bodies(oldSent + [message], serialize) == Bodies(oldSent, serialize) + [serialize(message)];
      FramesAppend(Bodies(oldSent, serialize), serialize(message));
    }

    /** `send_request`: the request takes the next id, which is entered in the pending
        table before the request is written; a failed write leaves the entry there. */
    method SendRequest(methodName: string, params: Json) returns (id: nat, r: Result<(), LspError>)
      requires Valid()
      modifies this`stdin, this`sent, this`nextRequestId, this`pending
      ensures Valid()
      ensures id == old(nextRequestId) && nextRequestId == id + 1 && pending == old(pending) + {id}
      ensures id !in old(pending) && id !in answers
      ensures stdinOpen ==>
        r == Ok(()) && sent == old(sent) + [RequestObject(id, methodName, params)] &&
        stdin == old(stdin) + Frame(serialize(RequestObject(id, methodName, params)))
      ensures !stdinOpen ==> r == Err(WriteFailed) && sent == old(sent) && stdin == old(stdin)
    {
      id := nextRequestId;
      IdTableIssue(pending, answers, id);
      RequestLogRequest(sent, id, methodName, params);
      nextRequestId := nextRequestId + 1;
      var request := RequestObject(id, methodName, params);
      pending := pending + {id};
      ghost var before := sent;
      r := SendMessage(request);
      if stdinOpen {
        FramesGrow(before, request);
      }
    }

    /** `send_notification`: the counter and the pending table are left alone. */
    method SendNotification(methodName: string, params: Json) returns (r: Result<(), LspError>)
      requires Valid()
      modifies this`stdin, this`sent
      ensures Valid()
      ensures stdinOpen ==>
        r == Ok(()) && sent == old(sent) + [NotificationObject(methodName, params)] &&
        stdin == old(stdin) + Frame(serialize(NotificationObject(methodName, params)))
      ensures !stdinOpen ==> r == Err(WriteFailed) && sent == old(sent) && stdin == old(stdin)
    {
      var notification := NotificationObject(methodName, params);
      ghost var before := sent;
      r := SendMessage(notification);
      RequestLogNotification(sent, nextRequestId, methodName, params);
      if stdinOpen {
        FramesGrow(before, notification);
      }
    }

    /** `initialize`: an `initialize` request; the spawned tokio job that awaits its reply only
        logs it. */
    method Initialize(params: Json) returns (id: nat, r: Result<(), LspError>)
      requires Valid()
      modifies this`stdin, this`sent, this`nextRequestId, this`pending
      ensures Valid()
      ensures id == old(nextRequestId) && nextRequestId == id + 1 && pending == old(pending) + {id}
      ensures stdinOpen ==> r == Ok(()) && sent == old(sent) + [RequestObject(id, INITIALIZE, params)]
      ensures !stdinOpen ==> r == Err(WriteFailed) && sent == old(sent)
    {
      id, r := SendRequest(INITIALIZE, params);
    }

    /** `did_open`: a `textDocument/didOpen` notification for a Rust document at
        version 1. */
    method DidOpen(uri: string, text: string) returns (r: Result<(), LspError>)
      requires Valid()
      modifies this`stdin, this`sent
      ensures Valid()
      ensures stdinOpen ==> r == Ok(()) && sent == old(sent) + [NotificationObject(DID_OPEN, DidOpenParams(uri, text))]
      ensures !stdinOpen ==> r == Err(WriteFailed) && sent == old(sent)
    {
      r := SendNotification(DID_OPEN, DidOpenParams(uri, text));
    }

    /** `did_change`: a `textDocument/didChange` notification with the full text. */
    method DidChange(uri: string, text: string, version: int) returns (r: Result<(), LspError>)
      requires Valid() && I32_MIN <= version <= I32_MAX
      modifies this`stdin, this`sent
      ensures Valid()
      ensures stdinOpen ==> r == Ok(()) && sent == old(sent) + [NotificationObject(DID_CHANGE, DidChangeParams(uri, text, version))]
      ensures !stdinOpen ==> r == Err(WriteFailed) && sent == old(sent)
    {
      r := SendNotification(DID_CHANGE, DidChangeParams(uri, text, version));
    }

    /** `completion`: a `textDocument/completion` request, then the reply its receiver
        yields (`reply`, `None` once the sender is gone), reduced to its items. */
    method Completion(uri: string, position: Position, reply: Option<Json>) returns (r: Result<Option<seq<CompletionItem>>, LspError>)
      requires Valid()
      modifies this`stdin, this`sent, this`nextRequestId, this`pending
      ensures Valid()
      ensures nextRequestId == old(nextRequestId) + 1 && pending == old(pending) + {old(nextRequestId)}
      ensures stdinOpen ==>
        r == ToLspError(CompletionItems(reply)) &&
        sent == old(sent) + [RequestObject(old(nextRequestId), COMPLETION, CompletionParams(uri, position.line, position.character))]
      ensures !stdinOpen ==> r == Err(WriteFailed) && sent == old(sent)
    {
      var id, written := SendRequest(COMPLETION, CompletionParams(uri, position.line, position.character));
      if written.Err? {
        return Err(written.error);
      }
      r := ToLspError(CompletionItems(reply));
    }

    /** `handle_client_message`: a change is passed on; a completion that yields items
        is answered to the editor. */
    method HandleClientMessage(message: LspMessage, reply: Option<Json>) returns (r: Result<Option<LspResponse>, LspError>)
      requires Valid()
      requires message.DidChangeMessage? ==> I32_MIN <= message.version <= I32_MAX
      modifies this`stdin, this`sent, this`nextRequestId, this`pending
      ensures Valid()
      ensures message.DidChangeMessage? ==>
        nextRequestId == old(nextRequestId) && pending == old(pending) &&
        sent == (if stdinOpen
                 then old(sent) + [NotificationObject(DID_CHANGE, DidChangeParams(message.uri, message.text, message.version))]
                 else old(sent)) &&
        r == (if stdinOpen then Ok(None) else Err(WriteFailed))
      ensures message.CompletionMessage? ==>
        nextRequestId == old(nextRequestId) + 1 && pending == old(pending) + {old(nextRequestId)} &&
        sent == (if stdinOpen
                 then old(sent) + [RequestObject(old(nextRequestId), COMPLETION,
                                                 CompletionParams(message.uri, message.position.line, message.position.character))]
                 else old(sent)) &&
        r == (if !stdinOpen then Err(WriteFailed)
              else match CompletionItems(reply)
                   case Ok(Some(items)) => Ok(Some(CompletionReady(items)))
                   case Ok(None) => Ok(None)
                   case Err(e) => Err(Decode(e)))
    {
      match message
      case DidChangeMessage(uri, text, version) =>
        var done := DidChange(uri, text, version);
        if done.Err? {
          return Err(done.error);
        }
        return Ok(None);
      case CompletionMessage(uri, position) =>
        var items := Completion(uri, position, reply);
        match items
        case Err(e) => return Err(e);
        case Ok(Some(its)) => return Ok(Some(CompletionReady(its)));
        case Ok(None) => return Ok(None);
    }

    /** `handle_server_message`: a response is handed to the receiver of its pending
        request, which leaves the table; a notification is handled. */
    method HandleServerMessage(message: ServerMessage) returns (r: Result<Handled, LspError>)
      requires Valid()
      modifies this`pending, this`answers
      ensures Valid()
      ensures (pending, r) == Dispatch(old(pending), message)
      ensures answers == if r.Ok? && r.value.Delivered? then old(answers)[r.value.id := r.value.result] else old(answers)
    {
      IdTableDispatch(pending, answers, nextRequestId, message);
      match message
      case Response(id, result) =>
        if id in pending {
          pending := pending - {id};
          answers := answers[id := result];
          return Ok(Delivered(id, result));
        } else {
          return Ok(UnknownResponse(id));
        }
      case Notification(methodName, params) =>
        var outcome := HandleNotification(methodName, params);
        match outcome
        case Ok(o) => return Ok(Notified(o));
        case Err(e) => return Err(Decode(e));
    }

    /** `read_line`: the bytes up to and including the next line feed. */
    method ReadLine() returns (line: seq<byte>)
      modifies this`stdout
      ensures line == old(stdout)[..LineLength(old(stdout))] && stdout == old(stdout)[LineLength(old(stdout))..]
    {
      var n := LineLength(stdout);
      line := stdout[..n];
      stdout := stdout[n..];
    }

    /** `read_exact`: exactly `n` bytes, or an error once the stream ends first. */
    method ReadExact(n: nat) returns (content: Option<seq<byte>>)
      modifies this`stdout
      ensures n <= |old(stdout)| ==> content == Some(old(stdout)[..n]) && stdout == old(stdout)[n..]
      ensures n > |old(stdout)| ==> content == None && stdout == []
    {
      if n <= |stdout| {
        content := Some(stdout[..n]);
        stdout := stdout[n..];
      } else {
        content := None;
        stdout := [];
      }
    }

    /** One turn of the header loop of `read_message`: `read_line`, then the role of
        the line, stated as the step of `ReadHeaders` it performs. */
    method ReadHeaderLine(ghost contentLength: Option<nat>) returns (eof: bool, kind: HeaderLine)
      modifies this`stdout
      ensures eof <==> old(stdout) == []
      ensures eof ==> stdout == []
      ensures !eof ==> |stdout| < |old(stdout)|
      ensures !eof ==>
        ReadHeaders(old(stdout), contentLength) ==
          match kind
          case Blank => ReadBody(stdout, contentLength)
          case ContentLength(k) => ReadHeaders(stdout, Some(k))
          case BadContentLength(e) => Read(Err(InvalidContentLength(e)), stdout)
          case Ignored => ReadHeaders(stdout, contentLength)
    {
      var line := ReadLine();
      if line == [] {
        return true, Blank;
      }
      return false, ClassifyHeader(Latin(line));
    }

    /** `read_message`: header lines until a blank one, keeping the last
        `Content-Length`; then the body, decoded. */
    method ReadMessage() returns (r: Result<Option<ServerMessage>, ReadError>)
      modifies this`stdout
      ensures Read(r, stdout) == NextMessage(old(stdout), parse)
    {
      var contentLength: Option<nat> := None;
      while true
        invariant ReadHeaders(stdout, contentLength) == ReadFrame(old(stdout))
        decreases |stdout|
      {
        var eof, kind := ReadHeaderLine(contentLength);
        if eof {
          return Ok(None);
        }
        match kind {
          case Blank =>
            break;
          case ContentLength(n) =>
            contentLength := Some(n);
          case BadContentLength(e) =>
            return Err(InvalidContentLength(e));
          case Ignored =>
        }
      }
      r := ReadContent(contentLength);
    }

    /** The tail of `read_message`: with a length, a buffer of that size is allocated
        (a panic above `isize::MAX`), then that many bytes are read and decoded;
        without one, nothing is read. */
    method ReadContent(contentLength: Option<nat>) returns (r: Result<Option<ServerMessage>, ReadError>)
      modifies this`stdout
      ensures Read(r, stdout) == DecodeFrame(ReadBody(old(stdout), contentLength), parse)
    {
      match contentLength {
        case None =>
          return Ok(None);
        case Some(n) =>
          if n > ISIZE_MAX {
            return Err(CapacityOverflow);
          }
          var content := ReadExact(n);
          if content.None? {
            return Err(UnexpectedEof);
          }
          r := DecodeBody(content.value, parse);
      }
    }
  }

  /** What the server reads from the client's stdin is every message the client sent,
      serialised, in order. */
  lemma ServerReadsSent(c: LspClient)
    requires c.Valid()
    requires forall i :: 0 <= i < |c.sent| ==> |c.serialize(c.sent[i])| <= ISIZE_MAX
    ensures ReadFrames(c.stdin) == Bodies(c.sent, c.serialize)
  {
    FramesReadBack(Bodies(c.sent, c.serialize));
  }
}

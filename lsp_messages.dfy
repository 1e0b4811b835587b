/** The JSON-RPC shapes of the language-server client in `src/lsp.rs`: the messages it
    builds, the way it tells a server response from a server notification, what it
    does with a notification, and how it reads a completion reply. */
module LspMessages {
  import opened Wrappers
  import opened Json

  const INITIALIZE := "initialize"
  const DID_OPEN := "textDocument/didOpen"
  const DID_CHANGE := "textDocument/didChange"
  const COMPLETION := "textDocument/completion"
  const LOG_MESSAGE := "window/logMessage"

  /** `json!({"jsonrpc": "2.0", "id": id, "method": methodName, "params": params})`. */
  function RequestObject(id: nat, methodName: string, params: Json): Json {
    JObject(map["jsonrpc" := JString("2.0"), "id" := JNumber(id), "method" := JString(methodName), "params" := params])
  }

  /** `json!({"jsonrpc": "2.0", "method": methodName, "params": params})`. */
  function NotificationObject(methodName: string, params: Json): Json {
    JObject(map["jsonrpc" := JString("2.0"), "method" := JString(methodName), "params" := params])
  }

  /** The `"id"` an outbound message carries, if any. */
  function IdOf(message: Json): Option<nat> {
    if message.JObject? && "id" in message.fields && message.fields["id"].JNumber? && message.fields["id"].n >= 0
    then Some(message.fields["id"].n) else None
  }

  /** A request carries its id and a notification carries none. */
  lemma OutboundIds(id: nat, methodName: string, params: Json)
    ensures IdOf(RequestObject(id, methodName, params)) == Some(id)
    ensures IdOf(NotificationObject(methodName, params)) == None
  {
    assert "id" !in NotificationObject(methodName, params).fields;
  }

  /** `DidOpenTextDocumentParams` for a document the editor opens: it is always
      announced as Rust, at version 1. */
  function DidOpenParams(uri: string, text: string): Json {
    JObject(map["textDocument" := JObject(map[
      "uri" := JString(uri), "languageId" := JString("rust"), "version" := JNumber(1), "text" := JString(text)])])
  }

  /** `DidChangeTextDocumentParams` carrying the whole new text as a single change
      without a range. */
  function DidChangeParams(uri: string, text: string, version: int): Json {
    JObject(map[
      "textDocument" := JObject(map["uri" := JString(uri), "version" := JNumber(version)]),
      "contentChanges" := JArray([JObject(map["text" := JString(text)])])])
  }

  /** `CompletionParams` at a position, with no context and no progress tokens. */
  function CompletionParams(uri: string, line: nat, character: nat): Json {
    JObject(map[
      "textDocument" := JObject(map["uri" := JString(uri)]),
      "position" := JObject(map["line" := JNumber(line), "character" := JNumber(character)])])
  }

  /** `enum ServerMessage`. */
  datatype ServerMessage =
    | Response(id: nat, result: Json)
    | Notification(methodName: string, params: Json)

  /** The Response shape: an object with an `"id"` that is a `u64` and a `"result"`. */
  predicate IsResponse(v: Json) {
    v.JObject? && "id" in v.fields && AsU64(v.fields["id"]).Some? && "result" in v.fields
  }

  /** The Notification shape: an object with a string `"method"` and a `"params"`. */
  predicate IsNotification(v: Json) {
    v.JObject? && "method" in v.fields && v.fields["method"].JString? && "params" in v.fields
  }

  /** `#[serde(untagged)]` on `ServerMessage`: the Response variant is tried first and
      the Notification variant second; a value of neither shape is rejected. */
  function Classify(v: Json): (r: Option<ServerMessage>)
    ensures IsResponse(v) ==> r == Some(Response(v.fields["id"].n, v.fields["result"]))
    ensures !IsResponse(v) && IsNotification(v) ==> r == Some(Notification(v.fields["method"].s, v.fields["params"]))
    ensures r.None? <==> !IsResponse(v) && !IsNotification(v)
  {
    match ObjectFields(v, ["id", "result"])
    case Some(fs) =>
      (match AsU64(fs[0])
       case Some(id) => Some(Response(id, fs[1]))
       case None => ClassifyNotification(v))
    case None => ClassifyNotification(v)
  }

  function ClassifyNotification(v: Json): (r: Option<ServerMessage>)
    ensures r.Some? <==> IsNotification(v)
    ensures r.Some? ==> r.value == Notification(v.fields["method"].s, v.fields["params"])
  {
    match ObjectFields(v, ["method", "params"])
    case Some(fs) => if fs[0].JString? then Some(Notification(fs[0].s, fs[1])) else None
    case None => None
  }

  /** A JSON-RPC response to request `id` is read back as that response. */
  lemma ClassifyResponseObject(id: nat, result: Json)
    requires id <= U64_MAX
    ensures Classify(JObject(map["jsonrpc" := JString("2.0"), "id" := JNumber(id), "result" := result])) == Some(Response(id, result))
  {
  }

  /** A request that the server sends has an id but no result, so the client routes it
      as a notification, like a notification of the same method. */
  lemma ClassifyServerRequest(id: nat, methodName: string, params: Json)
    ensures Classify(RequestObject(id, methodName, params)) == Some(Notification(methodName, params))
    ensures Classify(NotificationObject(methodName, params)) == Some(Notification(methodName, params))
  {
    assert "result" !in RequestObject(id, methodName, params).fields;
    assert "result" !in NotificationObject(methodName, params).fields;
  }

  /** What handling a notification amounted to. */
  datatype NotificationOutcome =
    | Logged(messageType: int, message: string)
    | Unhandled(methodName: string)

  datatype DecodeError = InvalidLogMessageParams | InvalidCompletionResponse

  /** `lsp_types::LogMessageParams { typ: MessageType, message: String }`, whose
      `MessageType` is a transparent `i32` under the key `"type"`. */
  function DecodeLogMessage(params: Json): (r: Option<(int, string)>)
    ensures params.JObject? ==>
      (r.Some? <==>
        "type" in params.fields && "message" in params.fields &&
        params.fields["type"].JNumber? && I32_MIN <= params.fields["type"].n <= I32_MAX && params.fields["message"].JString?)
    ensures params.JObject? && r.Some? ==> r.value == (params.fields["type"].n, params.fields["message"].s)
    ensures params.JArray? ==>
      (r.Some? <==>
        |params.elems| == 2 &&
        params.elems[0].JNumber? && I32_MIN <= params.elems[0].n <= I32_MAX && params.elems[1].JString?)
    ensures params.JArray? && r.Some? ==> r.value == (params.elems[0].n, params.elems[1].s)
    ensures !params.JObject? && !params.JArray? ==> r.None?
    ensures r.Some? ==> I32_MIN <= r.value.0 <= I32_MAX
  {
    match StructFields(params, ["type", "message"])
    case Some(fs) =>
      if fs[0].JNumber? && I32_MIN <= fs[0].n <= I32_MAX && fs[1].JString? then Some((fs[0].n, fs[1].s)) else None
    case None => None
  }

  /** `handle_notification`: a `window/logMessage` is decoded and logged (a malformed
      one is an error); every other method is ignored without error. */
  function HandleNotification(methodName: string, params: Json): (r: Result<NotificationOutcome, DecodeError>)
    ensures methodName != LOG_MESSAGE ==> r == Ok(Unhandled(methodName))
    ensures methodName == LOG_MESSAGE ==> (r.Ok? <==> DecodeLogMessage(params).Some?)
    ensures methodName == LOG_MESSAGE && r.Ok? ==> r.value == Logged(DecodeLogMessage(params).value.0, DecodeLogMessage(params).value.1)
  {
    if methodName == LOG_MESSAGE then
      match DecodeLogMessage(params)
      case Some((typ, message)) => Ok(Logged(typ, message))
      case None => Err(InvalidLogMessageParams)
    else
      Ok(Unhandled(methodName))
  }

  /** A log message reads back as its type and text, whether it comes as an object
      (with any further keys) or as the two-element array of its fields; one missing
      a field is an error. */
  lemma LogMessageRead(typ: int, message: string, others: map<string, Json>)
    requires I32_MIN <= typ <= I32_MAX
    ensures HandleNotification(LOG_MESSAGE, JObject(others["type" := JNumber(typ)]["message" := JString(message)])) == Ok(Logged(typ, message))
    ensures HandleNotification(LOG_MESSAGE, JArray([JNumber(typ), JString(message)])) == Ok(Logged(typ, message))
    ensures "type" !in others ==> HandleNotification(LOG_MESSAGE, JObject(others["message" := JString(message)])) == Err(InvalidLogMessageParams)
    ensures "message" !in others ==> HandleNotification(LOG_MESSAGE, JObject(others["type" := JNumber(typ)])) == Err(InvalidLogMessageParams)
  {
  }

  /** `lsp_types::CompletionItem`: its required `label` and the whole object it was
      read from (the optional fields are kept as JSON). */
  datatype CompletionItem = CompletionItem(labelText: string, json: Json)

  function DecodeItem(v: Json): (r: Option<CompletionItem>)
    ensures r.Some? <==> v.JObject? && "label" in v.fields && v.fields["label"].JString?
    ensures r.Some? ==> r.value == CompletionItem(v.fields["label"].s, v)
  {
    if v.JObject? && "label" in v.fields && v.fields["label"].JString? then Some(CompletionItem(v.fields["label"].s, v)) else None
  }

  /** `Vec<CompletionItem>`: every element must be an item; order is kept. */
  function DecodeItems(vs: seq<Json>): (r: Option<seq<CompletionItem>>)
    ensures r.Some? <==> forall i :: 0 <= i < |vs| ==> DecodeItem(vs[i]).Some?
    ensures r.Some? ==> |r.value| == |vs| && forall i :: 0 <= i < |vs| ==> r.value[i] == DecodeItem(vs[i]).value
  {
    if vs == [] then Some([])
    else
      match (DecodeItem(vs[0]), DecodeItems(vs[1..]))
      case (Some(item), Some(items)) => Some([item] + items)
      case _ => None
  }

  /** `lsp_types::CompletionResponse`. */
  datatype CompletionResponse =
    | Array(items: seq<CompletionItem>)
    | List(isIncomplete: bool, items: seq<CompletionItem>)

  /** `CompletionResponse` is untagged: a JSON array of items is tried first, then a
      `CompletionList { isIncomplete, items }`, which as a plain struct may also come
      as a two-element array. */
  function DecodeCompletionResponse(v: Json): Option<CompletionResponse> {
    var asArray := if v.JArray? then DecodeItems(v.elems) else None;
    if asArray.Some? then Some(Array(asArray.value))
    else
      match StructFields(v, ["isIncomplete", "items"])
      case Some(fs) =>
        if fs[0].JBool? && fs[1].JArray? && DecodeItems(fs[1].elems).Some?
        then Some(List(fs[0].b, DecodeItems(fs[1].elems).value))
        else None
      case None => None
  }

  /** The tail of `completion`: a closed reply channel (`None`) gives `Ok(None)`; a reply
      is decoded and both shapes are reduced to their items, dropping the
      incompleteness flag; a reply of neither shape is an error. */
  function CompletionItems(reply: Option<Json>): Result<Option<seq<CompletionItem>>, DecodeError> {
    match reply
    case None => Ok(None)
    case Some(v) =>
      match DecodeCompletionResponse(v)
      case Some(Array(items)) => Ok(Some(items))
      case Some(List(_, items)) => Ok(Some(items))
      case None => Err(InvalidCompletionResponse)
  }

  /** A bare array of items yields those items, in order. */
  lemma CompletionFromArray(vs: seq<Json>)
    requires forall i :: 0 <= i < |vs| ==> DecodeItem(vs[i]).Some?
    ensures CompletionItems(Some(JArray(vs))).Ok?
    ensures var r := CompletionItems(Some(JArray(vs))).value;
      r.Some? && |r.value| == |vs| && forall i :: 0 <= i < |vs| ==> r.value[i] == DecodeItem(vs[i]).value
  {
  }

  /** A completion list yields the same items as the bare array holding them, whatever
      its incompleteness flag says. */
  lemma CompletionFromList(incomplete: bool, vs: seq<Json>, others: map<string, Json>)
    requires forall i :: 0 <= i < |vs| ==> DecodeItem(vs[i]).Some?
    ensures CompletionItems(Some(JObject(others["isIncomplete" := JBool(incomplete)]["items" := JArray(vs)])))
         == CompletionItems(Some(JArray(vs)))
  {
    var v := JObject(others["isIncomplete" := JBool(incomplete)]["items" := JArray(vs)]);
    var names := ["isIncomplete", "items"];
    assert HasFields(v, names);
    var fs := StructFields(v, names).value;
    assert fs == [JBool(incomplete), JArray(vs)] by {
      assert fs[0] == v.fields[names[0]] && fs[1] == v.fields[names[1]];
    }
  }

  /** A reply that is neither an array of items nor a list is an error, never items. */
  lemma CompletionRejects(v: Json)
    requires !v.JArray? && !v.JObject?
    ensures CompletionItems(Some(v)) == Err(InvalidCompletionResponse)
  {
  }
}

/** Model of the request handlers of app.py that hold logic: the page
    selection of GET /messages, the lookup by id of GET /messages/{id} and
    the constant reply of GET /ping. A handler takes the message list that
    utils.get_messages would load from temp/messages.json as a parameter. */
module App {
  import opened Utils

  datatype Option<T> = None | Some(value: T)

  /** A JSON value, as json.load produces it (numbers other than integers
      are not distinguished here). */
  datatype Json =
    | JNull
    | JBool(b: bool)
    | JInt(n: int)
    | JStr(s: string)
    | JArray(elems: seq<Json>)
    | JObject(members: map<string, Json>)

  /** One record of temp/messages.json. The handlers read only its "id";
      every other field (content, uploader object, attachments, ...) is
      passed through unchanged. */
  datatype Message = Message(id: int, fields: map<string, Json>)

  /** The "payload" object of a reply: absent (ping), the "messages" list
      of pages, or the single "message" (null when it was not found). */
  datatype Payload =
    | NoPayload
    | Messages(messages: seq<seq<Message>>)
    | OneMessage(message: Option<Message>)

  /** A reply: HTTP status, the "message" text and the payload. */
  datatype Response = Response(status: int, message: string, payload: Payload)

  const NotFoundText: string := "The message with the given ID could not be found."

  /** Python's `s[lo:hi]` for 0 <= lo <= hi: bounds past the end are cut
      back to the length, so the slice may be shorter than hi - lo, or
      empty. */
  function Slice<T>(s: seq<T>, lo: int, hi: int): (r: seq<T>)
    requires 0 <= lo <= hi
    ensures |r| == if hi <= |s| then hi - lo else if lo <= |s| then |s| - lo else 0
    ensures forall k :: 0 <= k < |r| ==> r[k] == s[lo + k]
  {
    var l := if lo <= |s| then lo else |s|;
    var h := if hi <= |s| then hi else |s|;
    s[l..h]
  }

  /** GET /messages?items=..&page=..: split all messages into pages of
      `items` and reply with the slice `[page-1:page]` of the pages. The
      query bounds `1 <= items <= maxItems` (the configured maximum) and
      `page >= 1` are enforced before the handler runs; a request that
      leaves them out gets `items=100` and `page=1`. */
  function GetMessages(all: seq<Message>, maxItems: int, items: int := 100, page: int := 1): (r: Response)
    requires 1 <= items <= maxItems
    requires page >= 1
    ensures r.status == 200 && r.message == "OK" && r.payload.Messages?
    ensures |r.payload.messages| <= 1
    ensures page <= |Chunks(all, items)| ==> r.payload.messages == [Chunks(all, items)[page - 1]]
    ensures page > |Chunks(all, items)| ==> r.payload.messages == []
    ensures forall p :: p in r.payload.messages ==> 0 < |p| <= items
  {
    var pages := Chunks(all, items);
    Response(200, "OK", Messages(Slice(pages, page - 1, page)))
  }

  /** The reply of GET /messages names exactly the pages of the split:
      page `page` exists when `page` is at most the ceiling of the number
      of messages over `items`, and then the payload is that page, taken
      starting after page - 1 full pages. */
  lemma {:induction false} GetMessagesPage(all: seq<Message>, maxItems: int, items: int, page: int)
    requires 1 <= items <= maxItems
    requires page >= 1
    ensures var r := GetMessages(all, maxItems, items, page);
      (r.payload.messages != [] <==> page <= CeilDiv(|all|, items)) &&
      (r.payload.messages != [] ==>
         PageStart(items, page - 1) < PageEnd(|all|, items, page - 1) <= |all| &&
         r.payload.messages[0] == all[PageStart(items, page - 1) .. PageEnd(|all|, items, page - 1)])
  {
    ChunksCount(all, items);
    if page <= |Chunks(all, items)| {
      ChunksAt(all, items, page - 1);
    }
  }

  /** GET /messages/{message_id}: scan the messages in order and stop at
      the first whose "id" equals the key; reply 200 with that message, or
      404 with a null message and the fixed error text. */
  method GetMessage(all: seq<Message>, messageId: int) returns (r: Response)
    ensures r.payload.OneMessage?
    ensures (exists i :: 0 <= i < |all| && all[i].id == messageId) <==> r.status == 200
    ensures r.status == 200 ==>
      r.message == "OK" &&
      exists i :: 0 <= i < |all| && r.payload.message == Some(all[i]) && all[i].id == messageId &&
        forall j :: 0 <= j < i ==> all[j].id != messageId
    ensures r.status != 200 ==> r == Response(404, NotFoundText, OneMessage(None))
  {
    var message: Option<Message> := None;
    var i := 0;
    while i < |all|
      invariant 0 <= i <= |all|
      invariant forall j :: 0 <= j < i ==> all[j].id != messageId
      invariant message == None
    {
      if all[i].id == messageId {
        message := Some(all[i]);
        break;
      }
      i := i + 1;
    }

    if message.Some? {
      r := Response(200, "OK", OneMessage(message));
    } else {
      r := Response(404, NotFoundText, OneMessage(None));
    }
  }

  /** GET /ping: the constant liveness reply `{"message": "pong"}`, with no
      payload, whatever the stored data. */
  function Ping(): (r: Response)
    ensures r.status == 200 && r.message == "pong" && r.payload == NoPayload
  {
    Response(200, "pong", NoPayload)
  }

  /** With five messages stored, `items=2&page=1` gives the first two
      messages, out of three pages. */
  lemma GetMessagesExample(all: seq<Message>)
    requires |all| == 5
    ensures GetMessages(all, 2, 2, 1).payload.messages == [all[..2]]
    ensures CeilDiv(|all|, 2) == 3
  {
    GetMessagesPage(all, 2, 2, 1);
    CeilDivStep(5, 2);
    CeilDivStep(3, 2);
    CeilDivOne(1, 2);
  }
}

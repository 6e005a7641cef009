/**
 * `recursive_error_message_creator` and `custom_exception_handler`: error
 * data, a dict whose values are strings or nested error data, or a list of
 * messages, is flattened into a single message, and every error response is
 * rewritten into the envelope `{status_code, message, result: None}`.
 */
module ErrorMessages {
  import Text

  /** Error data: a list of messages (their `__str__`), or a dict whose entries keep their insertion order. */
  datatype ErrorData = List(items: seq<string>) | Dict(entries: seq<Entry>)

  datatype Entry = Entry(key: string, value: Field)

  /** A dict value: a string, or nested error data. */
  datatype Field = Text(s: string) | Nested(data: ErrorData)

  /** `recursive_error_message_creator(error_dict)`. */
  function Render(e: ErrorData): string
    decreases e, 1
  {
    match e
    case List(items) => Text.Join(" ", items)
    case Dict(entries) => RenderEntries(e, |entries|)
  }

  /**
   * The message the loop over `error_dict.items()` has built after the first
   * `n` entries: a string value is appended as it is; any other value adds
   * `key: <its message>`, after a space when the message is not empty.
   */
  function RenderEntries(e: ErrorData, n: nat): string
    requires e.Dict? && n <= |e.entries|
    decreases e, 0, n
  {
    if n == 0 then ""
    else
      var msg := RenderEntries(e, n - 1);
      var entry := e.entries[n - 1];
      assert entry in e.entries;
      match entry.value
      case Text(s) => msg + s
      case Nested(d) => (if msg != "" then msg + " " else msg) + entry.key + ": " + Render(d)
  }

  /** The loop of `recursive_error_message_creator`, recursing into nested values. */
  method RecursiveErrorMessage(e: ErrorData) returns (message: string)
    ensures message == Render(e)
    decreases e
  {
    if e.List? {
      return Text.Join(" ", e.items);
    }
    message := "";
    var i := 0;
    while i < |e.entries|
      invariant 0 <= i <= |e.entries|
      invariant message == RenderEntries(e, i)
    {
      var entry := e.entries[i];
      assert entry in e.entries;
      match entry.value {
        case Text(s) =>
          message := message + s;
        case Nested(d) =>
          if message != "" {
            message := message + " ";
          }
          var inner := RecursiveErrorMessage(d);
          message := message + entry.key + ": " + inner;
      }
      i := i + 1;
    }
  }

  /** The message of the first `n` entries does not depend on the entries after them. */
  lemma {:induction false} RenderEntriesPrefix(entries: seq<Entry>, more: seq<Entry>, n: nat)
    requires n <= |entries|
    ensures RenderEntries(Dict(entries + more), n) == RenderEntries(Dict(entries), n)
    decreases n
  {
    if n > 0 {
      RenderEntriesPrefix(entries, more, n - 1);
      assert (entries + more)[n - 1] == entries[n - 1];
    }
  }

  /** An empty dict gives the empty message. */
  lemma EmptyDictMessage()
    ensures Render(Dict([])) == ""
  {
  }

  /** Appending a string entry appends its text verbatim: no key and no separator. */
  lemma TextEntryAppendsVerbatim(entries: seq<Entry>, key: string, s: string)
    ensures Render(Dict(entries + [Entry(key, Text(s))])) == Render(Dict(entries)) + s
  {
    RenderEntriesPrefix(entries, [Entry(key, Text(s))], |entries|);
  }

  /** Appending a nested entry appends `key: <its message>`, after one space unless the message so far is empty. */
  lemma NestedEntryAppendsKeyed(entries: seq<Entry>, key: string, d: ErrorData)
    ensures Render(Dict(entries + [Entry(key, Nested(d))]))
         == (if Render(Dict(entries)) == "" then "" else Render(Dict(entries)) + " ") + key + ": " + Render(d)
  {
    RenderEntriesPrefix(entries, [Entry(key, Nested(d))], |entries|);
  }

  /** The strings of a dict whose values are all strings, concatenated in order. */
  function Concat(entries: seq<Entry>): string
    requires forall i :: 0 <= i < |entries| ==> entries[i].value.Text?
  {
    if |entries| == 0 then "" else Concat(entries[..|entries| - 1]) + entries[|entries| - 1].value.s
  }

  /** A dict of strings gives their concatenation, with no keys. */
  lemma {:induction false} TextDictConcatenates(entries: seq<Entry>)
    requires forall i :: 0 <= i < |entries| ==> entries[i].value.Text?
    ensures Render(Dict(entries)) == Concat(entries)
    decreases |entries|
  {
    if |entries| > 0 {
      var init := entries[..|entries| - 1];
      var last := entries[|entries| - 1];
      TextDictConcatenates(init);
      assert entries == init + [last];
      TextEntryAppendsVerbatim(init, last.key, last.value.s);
    }
  }

  /** A list of messages without spaces can be read back from its rendering by splitting at spaces. */
  lemma ListMessageSplits(items: seq<string>)
    requires |items| >= 1
    requires forall i :: 0 <= i < |items| ==> ' ' !in items[i]
    ensures Text.Split(Render(List(items)), ' ') == items
  {
    Text.SplitJoin(items, ' ');
  }

  // ---- `custom_exception_handler` ----

  /** An item of list-shaped response data: a string, an `ErrorDetail` (a string subclass), or anything else. */
  datatype Item = StrItem(s: string) | DetailItem(detail: string) | OtherItem

  /** The data of an error response. */
  datatype Payload =
    | DictPayload(entries: seq<Entry>)
    | ListPayload(list: seq<Item>)
    | OtherPayload
    | Envelope(statusCode: int, message: string)  // `{"status_code": …, "message": …, "result": None}`

  /** The messages kept from list data: every string item, in order; other items are dropped. */
  function ItemMessages(items: seq<Item>): (r: seq<string>)
    ensures |r| <= |items|
    decreases |items|
  {
    if |items| == 0 then []
    else
      var init := ItemMessages(items[..|items| - 1]);
      match items[|items| - 1]
      case StrItem(s) => init + [s]
      case DetailItem(d) => init + [d]
      case OtherItem => init
  }

  /** A message is kept exactly when some item is that string or that `ErrorDetail`. */
  lemma {:induction false} ItemMessagesKeepsStrings(items: seq<Item>)
    ensures forall s :: s in ItemMessages(items) <==> StrItem(s) in items || DetailItem(s) in items
    decreases |items|
  {
    if |items| > 0 {
      var init := items[..|items| - 1];
      ItemMessagesKeepsStrings(init);
      assert items == init + [items[|items| - 1]];
    }
  }

  /** The message of the envelope: the flattened dict, the joined list messages, or nothing. */
  function HandlerMessage(data: Payload): string {
    match data
    case DictPayload(entries) => Text.Join(" ", [Render(Dict(entries))])
    case ListPayload(items) => Text.Join(" ", ItemMessages(items))
    case _ => Text.Join(" ", [])
  }

  /** A dict becomes its one flattened message; data that is neither dict nor list gives an empty message. */
  lemma HandlerMessageShapes(data: Payload)
    ensures data.DictPayload? ==> HandlerMessage(data) == Render(Dict(data.entries))
    ensures data.OtherPayload? ==> HandlerMessage(data) == ""
    ensures data.ListPayload? && (forall i :: 0 <= i < |data.list| ==> data.list[i] == OtherItem) ==> HandlerMessage(data) == ""
  {
    if data.ListPayload? && (forall i :: 0 <= i < |data.list| ==> data.list[i] == OtherItem) {
      ItemMessagesKeepsStrings(data.list);
      if |ItemMessages(data.list)| > 0 {
        var s := ItemMessages(data.list)[0];
        assert s in ItemMessages(data.list);
      }
    }
  }

  /** An HTTP response of the framework. */
  class Response {
    var statusCode: int
    var data: Payload

    constructor (statusCode: int, data: Payload)
      ensures this.statusCode == statusCode && this.data == data
    {
      this.statusCode := statusCode;
      this.data := data;
    }
  }

  /** The loop over list data that keeps the string items. */
  method CollectMessages(items: seq<Item>) returns (messages: seq<string>)
    ensures messages == ItemMessages(items)
  {
    messages := [];
    var i := 0;
    while i < |items|
      invariant 0 <= i <= |items|
      invariant messages == ItemMessages(items[..i])
    {
      assert items[..i + 1][..i] == items[..i];
      match items[i] {
        case StrItem(s) => messages := messages + [s];
        case DetailItem(d) => messages := messages + [d];
        case OtherItem =>
      }
      i := i + 1;
    }
    assert items[..i] == items;
  }

  /**
   * `custom_exception_handler` after the framework's handler: no response is
   * returned as it is; otherwise the response keeps its status code and its
   * data becomes the envelope with the flattened message.
   */
  method CustomExceptionHandler(response: Response?) returns (r: Response?)
    requires response != null ==> !response.data.Envelope?
    modifies response
    ensures r == response
    ensures response != null ==>
      && response.statusCode == old(response.statusCode)
      && response.data == Envelope(old(response.statusCode), HandlerMessage(old(response.data)))
  {
    if response == null {
      return response;
    }
    var messages: seq<string> := [];
    match response.data {
      case DictPayload(entries) =>
        var m := RecursiveErrorMessage(Dict(entries));
        messages := [m];
      case ListPayload(items) =>
        messages := CollectMessages(items);
      case OtherPayload =>
      case Envelope(_, _) =>
    }
    response.data := Envelope(response.statusCode, Text.Join(" ", messages));
    return response;
  }
}

/**
  The message side of the Gmail relay: choosing the plain-text body of a
  Gmail message (`extractPlainTextFromMessage`) and assembling the answer of
  `getLatestOtp` from the newest message of a search.

  The Gmail API calls are parameters: `fetch` stands for
  `gmail.users.messages.get` and the list of message ids for what
  `gmail.users.messages.list` returned. Turning decoded bytes into a string
  (`Buffer.toString('utf8')`) is the parameter `utf8`.
*/
module Gmail {
  import opened Common
  import OtpExtract
  import Base64Url

  /** `Schema$MessagePartBody`, reduced to the field the relay reads. */
  datatype MessagePartBody = MessagePartBody(data: Option<string>)

  /** `Schema$MessagePart`: a MIME part, possibly with sub-parts. */
  datatype MessagePart = MessagePart(
    mimeType: Option<string>,
    body: Option<MessagePartBody>,
    parts: Option<seq<MessagePart>>)

  /** `Schema$Message`: `internalDate` is the epoch-milliseconds string Gmail sends. */
  datatype Message = Message(internalDate: Option<string>, payload: Option<MessagePart>)

  /** `body?.data` when it is truthy, that is present and non-empty. */
  function BodyData(body: Option<MessagePartBody>): (r: Option<string>)
    ensures r.Some? <==> body.Some? && body.value.data.Some? && body.value.data.value != ""
    ensures r.Some? ==> r == body.value.data
  {
    match body
    case None => None
    case Some(b) =>
      match b.data
      case None => None
      case Some(d) => if d == "" then None else Some(d)
  }

  /** The test of the loop over the parts: exactly `text/plain`, with body data. */
  predicate IsPlainTextPart(p: MessagePart) {
    p.mimeType == Some("text/plain") && BodyData(p.body).Some?
  }

  /** The index of the first plain-text part at or after `from`. */
  function FirstPlainTextPart(parts: seq<MessagePart>, from: nat): (r: Option<nat>)
    requires from <= |parts|
    ensures r.Some? ==> from <= r.value < |parts| && IsPlainTextPart(parts[r.value])
    ensures forall k :: from <= k < |parts| && (r.None? || k < r.value) ==> !IsPlainTextPart(parts[k])
    decreases |parts| - from
  {
    if from == |parts| then None
    else if IsPlainTextPart(parts[from]) then Some(from)
    else FirstPlainTextPart(parts, from + 1)
  }

  /** The encoded body data `extractPlainTextFromMessage` decodes, if any. */
  function SelectedData(msg: Message): (r: Option<string>)
    ensures r.Some? ==> r.value != ""
    ensures msg.payload.None? ==> r.None?
  {
    match msg.payload
    case None => None
    case Some(payload) =>
      var parts := if payload.parts.Some? then payload.parts.value else [];
      match FirstPlainTextPart(parts, 0)
      case Some(i) => BodyData(parts[i].body)
      case None => BodyData(payload.body)
  }

  /** `decodeBase64Url`: the base64url decoding, read as UTF-8 by `utf8`. */
  function DecodeText(data: string, utf8: seq<Base64Url.byte> -> string): string {
    utf8(Base64Url.DecodeBase64Url(data))
  }

  /** Decoding the base64url encoding of some bytes reads those bytes as UTF-8. */
  lemma DecodeTextOfEncoding(b: seq<Base64Url.byte>, padded: bool, utf8: seq<Base64Url.byte> -> string)
    ensures DecodeText(Base64Url.EncodeBase64Url(b, padded), utf8) == utf8(b)
  {
    Base64Url.DecodeEncode(b, padded);
  }

  /** `extractPlainTextFromMessage`. */
  function ExtractPlainTextFromMessage(msg: Message, utf8: seq<Base64Url.byte> -> string): string {
    match SelectedData(msg)
    case None => ""
    case Some(d) => DecodeText(d, utf8)
  }

  // ---------------------------------------------------------------------
  // The order in which the body is chosen
  // ---------------------------------------------------------------------

  /** The top-level parts, `[]` when there are none. */
  function TopParts(payload: MessagePart): seq<MessagePart> {
    if payload.parts.Some? then payload.parts.value else []
  }

  /** Without a payload the text is empty. */
  lemma NoPayloadNoText(msg: Message, utf8: seq<Base64Url.byte> -> string)
    requires msg.payload.None?
    ensures ExtractPlainTextFromMessage(msg, utf8) == ""
  {
  }

  /** The first top-level plain-text part wins, whatever comes after it and
      whatever the payload's own body holds. */
  lemma FirstPlainTextPartWins(msg: Message, utf8: seq<Base64Url.byte> -> string, i: nat)
    requires msg.payload.Some?
    requires i < |TopParts(msg.payload.value)|
    requires IsPlainTextPart(TopParts(msg.payload.value)[i])
    requires forall k :: 0 <= k < i ==> !IsPlainTextPart(TopParts(msg.payload.value)[k])
    ensures ExtractPlainTextFromMessage(msg, utf8) ==
              DecodeText(TopParts(msg.payload.value)[i].body.value.data.value, utf8)
  {
    FirstPlainTextPartAt(TopParts(msg.payload.value), 0, i);
  }

  /** End to end: when the first top-level plain-text part carries the
      base64url encoding of some bytes, the text is those bytes read as UTF-8. */
  lemma FirstPlainTextPartRoundTrip(msg: Message, utf8: seq<Base64Url.byte> -> string, i: nat, b: seq<Base64Url.byte>, padded: bool)
    requires msg.payload.Some?
    requires i < |TopParts(msg.payload.value)|
    requires IsPlainTextPart(TopParts(msg.payload.value)[i])
    requires forall k :: 0 <= k < i ==> !IsPlainTextPart(TopParts(msg.payload.value)[k])
    requires TopParts(msg.payload.value)[i].body.value.data.value == Base64Url.EncodeBase64Url(b, padded)
    ensures ExtractPlainTextFromMessage(msg, utf8) == utf8(b)
  {
    FirstPlainTextPartWins(msg, utf8, i);
    DecodeTextOfEncoding(b, padded, utf8);
  }

  /** The search stops at the first plain-text part. */
  lemma {:induction false} FirstPlainTextPartAt(parts: seq<MessagePart>, from: nat, i: nat)
    requires from <= i < |parts|
    requires IsPlainTextPart(parts[i])
    requires forall k :: from <= k < i ==> !IsPlainTextPart(parts[k])
    ensures FirstPlainTextPart(parts, from) == Some(i)
    decreases i - from
  {
    if from < i {
      FirstPlainTextPartAt(parts, from + 1, i);
    }
  }

  /** Without a plain-text top-level part, the payload's own body is used. */
  lemma PayloadBodyWhenNoPlainTextPart(msg: Message, utf8: seq<Base64Url.byte> -> string)
    requires msg.payload.Some?
    requires forall k :: 0 <= k < |TopParts(msg.payload.value)| ==> !IsPlainTextPart(TopParts(msg.payload.value)[k])
    ensures BodyData(msg.payload.value.body).Some? ==>
              ExtractPlainTextFromMessage(msg, utf8) == DecodeText(msg.payload.value.body.value.data.value, utf8)
    ensures BodyData(msg.payload.value.body).None? ==> ExtractPlainTextFromMessage(msg, utf8) == ""
  {
    assert FirstPlainTextPart(TopParts(msg.payload.value), 0).None?;
  }

  /** Parts nested inside a top-level part are never looked at: replacing
      the sub-parts of any top-level part leaves the text unchanged. */
  lemma NestedPartsIgnored(msg: Message, utf8: seq<Base64Url.byte> -> string, i: nat, nested: Option<seq<MessagePart>>)
    requires msg.payload.Some? && msg.payload.value.parts.Some?
    requires i < |msg.payload.value.parts.value|
    ensures var parts := msg.payload.value.parts.value;
            var parts' := parts[i := parts[i].(parts := nested)];
            var msg' := msg.(payload := Some(msg.payload.value.(parts := Some(parts'))));
            ExtractPlainTextFromMessage(msg', utf8) == ExtractPlainTextFromMessage(msg, utf8)
  {
    var parts := msg.payload.value.parts.value;
    var parts' := parts[i := parts[i].(parts := nested)];
    SameTestsSameChoice(parts, parts', 0);
  }

  /** Two part lists that agree on the loop's test and on each part's body
      lead to the same choice. */
  lemma {:induction false} SameTestsSameChoice(parts: seq<MessagePart>, parts': seq<MessagePart>, from: nat)
    requires |parts| == |parts'| && from <= |parts|
    requires forall k :: 0 <= k < |parts| ==>
               parts[k].mimeType == parts'[k].mimeType && parts[k].body == parts'[k].body
    ensures FirstPlainTextPart(parts, from) == FirstPlainTextPart(parts', from)
    decreases |parts| - from
  {
    if from < |parts| {
      SameTestsSameChoice(parts, parts', from + 1);
    }
  }

  // ---------------------------------------------------------------------
  // getLatestOtp, after the Gmail calls
  // ---------------------------------------------------------------------

  /** The `receivedAt` of an answer, before its conversion to an ISO string:
      the message's `internalDate` when truthy, otherwise the clock. */
  datatype ReceivedAt = InternalDate(millis: string) | Clock(now: int)

  datatype OtpResult = OtpResult(otp: Option<string>, receivedAt: ReceivedAt, rawText: string)

  function ReceivedAtOf(msg: Message, now: int): (r: ReceivedAt)
    ensures r.InternalDate? <==> msg.internalDate.Some? && msg.internalDate.value != ""
    ensures r.InternalDate? ==> r.millis == msg.internalDate.value
    ensures r.Clock? ==> r.now == now
  {
    if msg.internalDate.Some? && msg.internalDate.value != "" then InternalDate(msg.internalDate.value)
    else Clock(now)
  }

  /** `getLatestOtp` once the search has returned `messageIds`: `None` stands
      for the `null` it returns on an absent or empty list; otherwise only
      the first (newest) message is fetched and read. */
  function LatestOtp(
    messageIds: Option<seq<string>>,
    fetch: string -> Message,
    now: int,
    utf8: seq<Base64Url.byte> -> string): (r: Option<OtpResult>)
    ensures r.None? <==> messageIds.None? || messageIds.value == []
    ensures r.Some? ==>
              var msg := fetch(messageIds.value[0]);
              && r.value.rawText == ExtractPlainTextFromMessage(msg, utf8)
              && r.value.otp == OtpExtract.ExtractOtpFromText(Some(r.value.rawText))
              && r.value.receivedAt == ReceivedAtOf(msg, now)
  {
    match messageIds
    case None => None
    case Some(ids) =>
      if ids == [] then None
      else
        var msg := fetch(ids[0]);
        var text := ExtractPlainTextFromMessage(msg, utf8);
        Some(OtpResult(OtpExtract.ExtractOtpFromText(Some(text)), ReceivedAtOf(msg, now), text))
  }

  /** Only the newest message counts: lists that start with the same id give
      the same answer, whatever follows. */
  lemma OnlyNewestMessageRead(ids: seq<string>, ids': seq<string>, fetch: string -> Message, now: int, utf8: seq<Base64Url.byte> -> string)
    requires |ids| > 0 && |ids'| > 0 && ids[0] == ids'[0]
    ensures LatestOtp(Some(ids), fetch, now, utf8) == LatestOtp(Some(ids'), fetch, now, utf8)
  {
  }

  /** A code in the answer is four to eight digits of the message text. */
  lemma AnswerCodeFromText(messageIds: Option<seq<string>>, fetch: string -> Message, now: int, utf8: seq<Base64Url.byte> -> string)
    requires LatestOtp(messageIds, fetch, now, utf8).Some?
    requires LatestOtp(messageIds, fetch, now, utf8).value.otp.Some?
    ensures var a := LatestOtp(messageIds, fetch, now, utf8).value;
            && 4 <= |a.otp.value| <= 8
            && OtpExtract.AllDigits(a.otp.value)
            && OtpExtract.IsSubstring(a.otp.value, a.rawText)
  {
  }
}

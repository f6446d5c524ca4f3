/** A parsed request to its answer, and the answer to the bytes of an HTTP response. */
module JsonRpc {
  import opened Bytes
  import opened Decimal
  import opened HttpHead
  import opened Requests
  import HtmlServer
  import JsonText

  // ---------- dispatch ----------

  /**
   * A member of the request object; a number that is no 64-bit integer has integer 0, as toInteger
   * returns it. Looking an absent member up inserts a null and returns that.
   */
  datatype Member = Absent | Null | Text(s: string) | Number(integer: int) | Other

  datatype Document = Malformed | Array | Object(jsonrpc: Member, id: Member, methodName: Member)

  /** What the invoked method returned, or that the target has no such method. */
  datatype Invocation = NoSuchMethod | Returned(reply: Reply)

  datatype Response = ErrorResponse(id: int, code: ErrorCode) | ResultResponse(id: int, text: string) | NoResponse

  /** The conversion to the 32-bit id that is kept. */
  function ToInt32(v: int): (id: int)
    ensures -0x8000_0000 <= id < 0x8000_0000 && (v - id) % 0x1_0000_0000 == 0
  {
    var low := v % 0x1_0000_0000;
    if low < 0x8000_0000 then low else low - 0x1_0000_0000
  }

  predicate ReadsAsNull(m: Member) {
    m.Absent? || m.Null?
  }

  /** Why a document is answered before any method is looked up. */
  function Refusal(doc: Document): Option<ErrorCode> {
    if doc.Malformed? then Some(ParseError)
    else if doc.Array? || doc.jsonrpc != Text("2.0") then Some(InternalError)
    else if !ReadsAsNull(doc.id) && !doc.id.Number? then Some(InternalError)
    else if doc.id.Number? && doc.id.integer == 0 then Some(NullIDError)
    else if !doc.methodName.Text? then Some(InvalidRequest)
    else None
  }

  function IdOf(doc: Document): int {
    if doc.Object? && doc.id.Number? then ToInt32(doc.id.integer) else 0
  }

  /** The answer to a call that was made; a zero id marks a notification. */
  function ReplyResponse(id: int, reply: Reply): Response {
    if reply.code != NoError then ErrorResponse(id, reply.code)
    else if id == 0 then NoResponse
    else ResultResponse(id, reply.text)
  }

  /** processRequestPOST; invocation is used only when the method is invoked. */
  function Answer(doc: Document, invocation: Invocation): Response {
    match Refusal(doc)
    case Some(code) => ErrorResponse(0, code)
    case None =>
      match invocation
      case NoSuchMethod => ErrorResponse(IdOf(doc), MethodNotFound)
      case Returned(reply) => ReplyResponse(IdOf(doc), reply)
  }

  /**
   * A method runs exactly for an object of version 2.0 with a method name whose id is absent, null
   * or a non-zero number. A refusal never carries the id of the request.
   */
  lemma InvokedIff(doc: Document)
    ensures Refusal(doc).None? <==>
      && doc.Object? && doc.jsonrpc == Text("2.0") && doc.methodName.Text?
      && (ReadsAsNull(doc.id) || (doc.id.Number? && doc.id.integer != 0))
    ensures Refusal(doc).Some? ==> forall inv :: Answer(doc, inv).ErrorResponse? && Answer(doc, inv).id == 0
  {
  }

  /** Nothing is sent exactly for a successful call whose id is absent, null or vanishes in 32 bits. */
  lemma SilentIff(doc: Document, invocation: Invocation)
    ensures Answer(doc, invocation).NoResponse? <==>
      && Refusal(doc).None? && invocation.Returned? && invocation.reply.code == NoError
      && (!doc.id.Number? || doc.id.integer % 0x1_0000_0000 == 0)
  {
  }

  /** A result carries the id of its request exactly when that id is a 32-bit integer. */
  lemma EchoesIdIff(doc: Document, invocation: Invocation)
    requires Answer(doc, invocation).ResultResponse?
    ensures doc.id.Number?
    ensures Answer(doc, invocation).id == doc.id.integer <==> -0x8000_0000 <= doc.id.integer < 0x8000_0000
  {
  }

  // ---------- framing ----------

  function CodeNumber(code: ErrorCode): int {
    match code
    case NoError => 0
    case ParseError => -32700
    case InvalidRequest => -32600
    case MethodNotFound => -32601
    case InvalidParams => -32602
    case InternalError => -32603
    case NullIDError => -31000
    case ObjectNotFound => -31001
  }

  function CodeText(code: ErrorCode): string {
    match code
    case NoError => "OK"
    case ParseError => "Parse error"
    case InvalidRequest => "Invalid Request"
    case MethodNotFound => "Method not found"
    case InvalidParams => "Invalid params"
    case InternalError => "Internal error"
    case NullIDError => "ID is 0"
    case ObjectNotFound => "Object not found"
  }

  function HttpStatus(code: ErrorCode): nat {
    match code
    case NoError => 200
    case InvalidRequest => 400
    case MethodNotFound => 404
    case ObjectNotFound => 404
    case _ => 500
  }

  function ResultBody(id: int, result: string): string {
    "{\"jsonrpc\": \"2.0\", \"result\": \"" + CStr(result) + "\", \"id\": \"" + DecInt(id) + "\"}"
  }

  function ErrorBody(id: int, code: ErrorCode): string {
    "{\"jsonrpc\": \"2.0\", \"error\": {\"code\": " + DecInt(CodeNumber(code)) + ", \"message\": \"" + CodeText(code)
    + "\"}, \"id\": \"" + (if id == 0 then "null" else DecInt(id)) + "\"}"
  }

  function ResponseHead(code: ErrorCode, len: nat): seq<string> {
    ["HTTP/1.1 " + Dec(HttpStatus(code)) + (" " + CodeText(code)), "Content-Type: application/json-rpc 2.0",
     CONTENT_LENGTH + Dec(len), "Connection: close"]
  }

  const INT_MAX := 0x7fff_ffff

  /** The number of characters snprintf may store for a size, its terminating zero not counted. */
  function Stored(text: string, size: nat): nat {
    if |text| < size then |text| else if size == 0 then 0 else size - 1
  }

  /** snprintf at an offset of the buffer; inside is false when it would store beyond its end. */
  method SnPrintf(buffer: array<char>, at: nat, size: nat, text: string) returns (inside: bool)
    requires at <= buffer.Length
    modifies buffer
    ensures inside <==> at + Stored(text, size) + (if size == 0 then 0 else 1) <= buffer.Length
    ensures inside && |text| < size ==> buffer[at..at + |text|] == text
    ensures buffer[..at] == old(buffer[..at])
  {
    var n := Stored(text, size);
    inside := at + n + (if size == 0 then 0 else 1) <= buffer.Length;
    if inside && size > 0 {
      forall i | 0 <= i < n {
        buffer[at + i] := text[i];
      }
      buffer[at + n] := '\0';
    }
  }

  /**
   * Insufficient is the refusal the code notices. OutOfBuffer stands for a store beyond the buffer,
   * after which nothing is claimed. Silent is a notification, for which nothing is formatted.
   */
  datatype Framed = Bytes(bytes: string) | Insufficient | OutOfBuffer | Silent

  /** The two formatting passes, the second of which is given the size of the whole buffer. */
  method TwoPasses(size: nat, head: string, body: string) returns (framed: Framed)
    requires 0 < size <= INT_MAX && head != ""
    ensures framed.Bytes? <==> |head| + |body| < size
    ensures framed.Bytes? ==> framed.bytes == head + body
    ensures framed.Insufficient? <==> |body| > INT_MAX || |body| == size || |head| + |body| == size
    ensures !framed.Silent?
  {
    var buffer := new char[size](_ => '\0');
    var jsonLen := |body|;
    if jsonLen > INT_MAX || jsonLen == size {
      return Insufficient;
    }
    var room := (size - jsonLen) % 0x1_0000_0000_0000_0000;  // passed as a size_t
    var inside := SnPrintf(buffer, 0, room, head);
    if !inside {
      return OutOfBuffer;
    }
    if |head| == size - jsonLen {
      return Insufficient;
    }
    if |head| > size {
      return OutOfBuffer;
    }
    ghost var fits := |head| + jsonLen < size;
    assert fits ==> room == size - jsonLen;
    assert fits ==> buffer[..|head|] == head;
    inside := SnPrintf(buffer, |head|, size, body);
    if !inside {
      return OutOfBuffer;
    }
    assert buffer[..|head| + jsonLen] == buffer[..|head|] + buffer[|head|..|head| + jsonLen];
    framed := Bytes(buffer[..|head| + jsonLen]);
  }

  /**
   * The framing of a response stays inside the buffer and produces head and body exactly when both
   * together are shorter than it; equality is caught, and nothing else is.
   */
  method FormatResponse(size: nat, code: ErrorCode, body: string) returns (framed: Framed)
    requires 0 < size <= INT_MAX
    ensures var head := Head(ResponseHead(code, |body|));
      && (framed.Bytes? <==> |head| + |body| < size)
      && (framed.Bytes? ==> framed.bytes == head + body)
      && (framed.Insufficient? <==> |body| > INT_MAX || |body| == size || |head| + |body| == size)
    ensures !framed.Silent?
  {
    framed := TwoPasses(size, Head(ResponseHead(code, |body|)), body);
  }

  lemma StatusLineIsLine(code: ErrorCode)
    ensures Line(ResponseHead(code, 0)[0]) && ResponseHead(code, 0)[0][0] == 'H'
  {
    CodeTextIsText(code);
    NumberedLine("HTTP/1.1 ", HttpStatus(code), " " + CodeText(code));
  }

  lemma FixedLines()
    ensures Line("Content-Type: application/json-rpc 2.0") && "Content-Type: application/json-rpc 2.0"[8] == 'T'
    ensures Line("Connection: close")
  {
  }

  lemma ResponseHeadLines(code: ErrorCode, len: nat)
    ensures var lines := ResponseHead(code, len);
      && (forall i :: 0 <= i < |lines| ==> Line(lines[i]))
      && (forall i :: 0 <= i < 2 ==> !Named(lines[i], CONTENT_LENGTH))
  {
    var lines := ResponseHead(code, len);
    StatusLineIsLine(code);
    assert lines[0] == ResponseHead(code, 0)[0];
    FixedLines();
    ContentLengthLine(len);
    OtherFirst(lines[0]);
    OtherNinth(lines[1]);
  }

  lemma CodeTextIsText(code: ErrorCode)
    ensures '\r' !in CodeText(code) && |CodeText(code)| <= 16
  {
  }

  /** Split at the first terminator and cut at the parsed Content-Length, a response gives back its body. */
  lemma ResponseReadsBack(code: ErrorCode, body: string, more: string)
    ensures ReadBody(Head(ResponseHead(code, |body|)) + body + more) == Some(body)
  {
    ResponseHeadLines(code, |body|);
    ReadBodyOfMessage(ResponseHead(code, |body|), 2, body, more);
  }

  lemma StatusStarts(code: ErrorCode)
    ensures "HTTP/1.1 " + Dec(HttpStatus(code)) + (" " + CodeText(code))
      == "HTTP/1.1 " + Dec(HttpStatus(code)) + " " + CodeText(code)
  {
  }

  /** The status line announces the code. */
  lemma StatusReadsBack(code: ErrorCode, len: nat, rest: string)
    ensures ReadStatus(Head(ResponseHead(code, len)) + rest) == Some(Status(HttpStatus(code), CodeText(code)))
  {
    CodeTextIsText(code);
    StatusStarts(code);
    StatusOfHead(ResponseHead(code, len), HttpStatus(code), CodeText(code), rest);
  }

  lemma FieldNames()
    ensures "Content-Type: " + "application/json-rpc 2.0" == "Content-Type: application/json-rpc 2.0"
    ensures "Connection: " + "close" == "Connection: close"
    ensures "Content-Type: "[0] == 'C' && "Connection: "[0] == 'C'
    ensures "Connection: "[3] == 'n' && "Content-Type: application/json-rpc 2.0"[3] == 't' && CONTENT_LENGTH[3] == 't'
  {
  }

  lemma TypeReadsBack(code: ErrorCode, len: nat, rest: string)
    ensures ReadHeadField(Head(ResponseHead(code, len)) + rest, "Content-Type: ") == Some("application/json-rpc 2.0")
  {
    var lines := ResponseHead(code, len);
    ResponseHeadLines(code, len);
    FirstLineStarts(code, len);
    FieldNames();
    OtherAt(lines[0], "Content-Type: ", 0);
    HeadFieldReadsBack(lines, 1, "Content-Type: ", "application/json-rpc 2.0", rest);
  }

  lemma FirstLineStarts(code: ErrorCode, len: nat)
    ensures ResponseHead(code, len)[0] != "" && ResponseHead(code, len)[0][0] == 'H'
  {
    StatusLineIsLine(code);
    assert ResponseHead(code, len)[0] == ResponseHead(code, 0)[0];
  }

  lemma CloseReadsBack(code: ErrorCode, len: nat, rest: string)
    ensures ReadHeadField(Head(ResponseHead(code, len)) + rest, "Connection: ") == Some("close")
  {
    var lines := ResponseHead(code, len);
    ResponseHeadLines(code, len);
    FirstLineStarts(code, len);
    FieldNames();
    OtherAt(lines[0], "Connection: ", 0);
    OtherAt(lines[1], "Connection: ", 3);
    OtherAt(lines[2], "Connection: ", 3);
    HeadFieldReadsBack(lines, 3, "Connection: ", "close", rest);
  }

  /** A client finds the media type, and that the connection is to be closed. */
  lemma FieldsReadBack(code: ErrorCode, len: nat, rest: string)
    ensures ReadHeadField(Head(ResponseHead(code, len)) + rest, "Content-Type: ") == Some("application/json-rpc 2.0")
    ensures ReadHeadField(Head(ResponseHead(code, len)) + rest, "Connection: ") == Some("close")
  {
    TypeReadsBack(code, len, rest);
    CloseReadsBack(code, len, rest);
  }

  // ---------- the bodies as a client reads them ----------

  function Quoted(s: string): string {
    "\"" + s + "\""
  }

  /** The text of a member, and of the last one with the brace behind it. */
  function MemberText(name: string, value: string, more: string): string {
    "\"" + name + "\": " + value + ", " + more
  }

  function LastText(name: string, value: string): string {
    "\"" + name + "\": " + value + "}"
  }

  lemma GroupedResult(z: string, q: string, n: string, c: string, t: string, s: string, i: string, d: string, e: string)
    ensures z + (q + n + c + q) + t + (q + s + (q + i + c + q)) + d + (q + e)
      == z + (q + n + c + (q + t + q) + s + (q + i + c + (q + d + q) + e))
  {
  }

  lemma ResultMarks()
    ensures "{\"jsonrpc\": \"2.0\", \"result\": \""
      == "{\"jsonrpc\": \"2.0\", " + ("\"" + "result" + "\": " + "\"")
  {
  }

  lemma IdMarks()
    ensures "\", \"id\": \"" == "\"" + ", " + ("\"" + "id" + "\": " + "\"") && "\"}" == "\"" + "}"
  {
  }

  lemma ResultParts(text: string, id: string)
    ensures "{\"jsonrpc\": \"2.0\", \"result\": \"" + text + "\", \"id\": \"" + id + "\"}"
      == "{\"jsonrpc\": \"2.0\", " + MemberText("result", Quoted(text), LastText("id", Quoted(id)))
  {
    ResultMarks();
    IdMarks();
    GroupedResult("{\"jsonrpc\": \"2.0\", ", "\"", "result", "\": ", text, ", ", "id", id, "}");
  }

  lemma GroupedError(z: string, q: string, n: string, c: string, o: string, k: string, x: string, s: string, m: string,
                     t: string, e: string, i: string, d: string)
    ensures z + (q + n + c + o + (q + k + c)) + x + (s + (q + m + c + q)) + t
        + (q + e + s + (q + i + c + q)) + d + (q + e)
      == z + (q + n + c + (o + (q + k + c + x + s + (q + m + c + (q + t + q) + e))) + s + (q + i + c + (q + d + q) + e))
  {
  }

  lemma ErrorMarks()
    ensures "{\"jsonrpc\": \"2.0\", \"error\": {\"code\": "
      == "{\"jsonrpc\": \"2.0\", " + ("\"" + "error" + "\": " + "{" + ("\"" + "code" + "\": "))
  {
  }

  lemma MessageMarks()
    ensures ", \"message\": \"" == ", " + ("\"" + "message" + "\": " + "\"")
    ensures "\"}, \"id\": \"" == "\"" + "}" + ", " + ("\"" + "id" + "\": " + "\"") && "\"}" == "\"" + "}"
  {
  }

  lemma ErrorParts(number: string, message: string, id: string)
    ensures "{\"jsonrpc\": \"2.0\", \"error\": {\"code\": " + number + ", \"message\": \"" + message
        + "\"}, \"id\": \"" + id + "\"}"
      == "{\"jsonrpc\": \"2.0\", "
        + MemberText("error", "{" + MemberText("code", number, LastText("message", Quoted(message))),
                     LastText("id", Quoted(id)))
  {
    ErrorMarks();
    MessageMarks();
    GroupedError("{\"jsonrpc\": \"2.0\", ", "\"", "error", "\": ", "{", "code", number, ", ", "message",
                 message, "}", "id", id);
  }

  function IdText(id: int): string {
    if id == 0 then "null" else DecInt(id)
  }

  /** The answer a client reads: its version, a result or an error, and the id, which is a string. */
  function AnswerJson(name: string, value: JsonText.Json, id: string): JsonText.Json {
    JsonText.Obj([JsonText.Member("jsonrpc", JsonText.Str("2.0")), JsonText.Member(name, value),
                  JsonText.Member("id", JsonText.Str(id))])
  }

  function ErrorJson(number: int, message: string): JsonText.Json {
    JsonText.Obj([JsonText.Member("code", JsonText.Num(number)), JsonText.Member("message", JsonText.Str(message))])
  }

  /** Two members in braces, the last of them a string. */
  lemma PairReadsBack(a: string, text: string, value: JsonText.Json, b: string, last: string)
    requires '"' !in a && '"' !in b && JsonText.IsValue(text, value) && JsonText.Unescaped(last)
    ensures var members := [JsonText.Member(a, value), JsonText.Member(b, JsonText.Str(last))];
      && JsonText.IsMembers(MemberText(a, text, LastText(b, Quoted(last))), members)
      && JsonText.IsValue("{" + MemberText(a, text, LastText(b, Quoted(last))), JsonText.Obj(members))
  {
    JsonText.IsString(last);
    JsonText.LastMember(b, Quoted(last), JsonText.Str(last));
    var rest := [JsonText.Member(b, JsonText.Str(last))];
    JsonText.NextMember(a, text, value, LastText(b, Quoted(last)), rest);
    assert [JsonText.Member(a, value)] + rest == [JsonText.Member(a, value), JsonText.Member(b, JsonText.Str(last))];
    JsonText.IsObject(MemberText(a, text, LastText(b, Quoted(last))), [JsonText.Member(a, value)] + rest);
  }

  /** A string member in front of others, in braces. */
  lemma FrontReadsBack(name: string, text: string, more: string, members: seq<JsonText.Member>)
    requires '"' !in name && JsonText.Unescaped(text) && JsonText.IsMembers(more, members)
    ensures JsonText.ReadJson("{" + MemberText(name, Quoted(text), more))
      == Some(JsonText.Obj([JsonText.Member(name, JsonText.Str(text))] + members))
  {
    JsonText.IsString(text);
    JsonText.NextMember(name, Quoted(text), JsonText.Str(text), more, members);
    JsonText.IsObject(MemberText(name, Quoted(text), more), [JsonText.Member(name, JsonText.Str(text))] + members);
  }

  lemma Names()
    ensures '"' !in "jsonrpc" && '"' !in "result" && '"' !in "error" && '"' !in "id"
    ensures '"' !in "code" && '"' !in "message"
    ensures JsonText.Unescaped("2.0")
  {
  }

  lemma VersionMarks(more: string)
    ensures "{\"jsonrpc\": \"2.0\", " + more == "{" + MemberText("jsonrpc", Quoted("2.0"), more)
  {
    var q, c, s := "\"", "\": ", ", ";
    assert "{\"jsonrpc\": \"2.0\", " == "{" + (q + "jsonrpc" + c + (q + "2.0" + q) + s);
    Assoc("{", q + "jsonrpc" + c + (q + "2.0" + q) + s, more);
  }

  lemma AnswerReadsBack(name: string, text: string, value: JsonText.Json, id: string)
    requires '"' !in name && JsonText.IsValue(text, value) && JsonText.Unescaped(id)
    ensures JsonText.ReadJson("{\"jsonrpc\": \"2.0\", " + MemberText(name, text, LastText("id", Quoted(id))))
      == Some(AnswerJson(name, value, id))
  {
    Names();
    var more := MemberText(name, text, LastText("id", Quoted(id)));
    var members := [JsonText.Member(name, value), JsonText.Member("id", JsonText.Str(id))];
    PairReadsBack(name, text, value, "id", id);
    VersionMarks(more);
    FrontReadsBack("jsonrpc", "2.0", more, members);
    assert [JsonText.Member("jsonrpc", JsonText.Str("2.0"))] + members
      == [JsonText.Member("jsonrpc", JsonText.Str("2.0")), members[0], members[1]];
  }

  lemma IdIsUnescaped(id: int)
    ensures JsonText.Unescaped(DecInt(id)) && JsonText.Unescaped(IdText(id))
  {
    DecIntChars(id, '"');
    DecIntChars(id, '\\');
  }

  /** The body of a result gives back its text and the id, for a text that needs no escapes. */
  lemma ResultBodyReadsBack(id: int, text: string)
    requires JsonText.Unescaped(CStr(text))
    ensures JsonText.ReadJson(ResultBody(id, text))
      == Some(AnswerJson("result", JsonText.Str(CStr(text)), DecInt(id)))
  {
    Names();
    IdIsUnescaped(id);
    ResultParts(CStr(text), DecInt(id));
    JsonText.IsString(CStr(text));
    AnswerReadsBack("result", Quoted(CStr(text)), JsonText.Str(CStr(text)), DecInt(id));
  }

  lemma CodeTextIsUnescaped(code: ErrorCode)
    ensures JsonText.Unescaped(CodeText(code))
  {
  }

  /** The body of an error gives back its number with its sign, its message, and the id, or null for none. */
  lemma ErrorBodyReadsBack(id: int, code: ErrorCode)
    ensures JsonText.ReadJson(ErrorBody(id, code))
      == Some(AnswerJson("error", ErrorJson(CodeNumber(code), CodeText(code)), IdText(id)))
  {
    var number, message := DecInt(CodeNumber(code)), CodeText(code);
    Names();
    IdIsUnescaped(id);
    CodeTextIsUnescaped(code);
    ErrorParts(number, message, IdText(id));
    JsonText.IsNumber(CodeNumber(code));
    PairReadsBack("code", number, JsonText.Num(CodeNumber(code)), "message", message);
    var error := "{" + MemberText("code", number, LastText("message", Quoted(message)));
    AnswerReadsBack("error", error, ErrorJson(CodeNumber(code), message), IdText(id));
  }

  predicate IsInt32(id: int) {
    -0x8000_0000 <= id < 0x8000_0000
  }

  lemma IdLength(id: int)
    requires IsInt32(id)
    ensures |DecInt(id)| <= 11
  {
    assert Pow10(5) == 100_000;
    Pow10Add(5, 5);
    DecLength(if id < 0 then -id else id, 10);
  }

  lemma ErrorBodyLength(id: int, code: ErrorCode)
    requires IsInt32(id)
    ensures |ErrorBody(id, code)| <= 120
  {
    IdLength(id);
    CodeTextIsText(code);
    CodeLength(code);
  }

  lemma CodeLength(code: ErrorCode)
    ensures |DecInt(CodeNumber(code))| <= 6
  {
    var n := CodeNumber(code);
    assert Pow10(5) == 100_000;
    DecLength(if n < 0 then -n else n, 5);
  }

  lemma ResponseHeadLength(code: ErrorCode, len: nat)
    requires len <= INT_MAX
    ensures |Head(ResponseHead(code, len))| <= 150
  {
    CodeTextIsText(code);
    assert Pow10(5) == 100_000;
    Pow10Add(5, 5);
    DecLength(len, 10);
    DecLength(HttpStatus(code), 5);
    var lines := ResponseHead(code, len);
    assert |lines[0]| <= 31 && |lines[1]| == 38 && |lines[2]| <= 26 && |lines[3]| == 17;
    assert |Joined(lines[3..])| == |lines[3]| + 2;
    assert |Joined(lines[2..])| == |lines[2]| + 2 + |Joined(lines[3..])| by { assert lines[2..][1..] == lines[3..]; }
    assert |Joined(lines[1..])| == |lines[1]| + 2 + |Joined(lines[2..])| by { assert lines[1..][1..] == lines[2..]; }
  }

  /** The send loop of both kinds of response: a normal end has sent everything exactly when no turn reported EAGAIN. */
  method SendAll(data: string, turns: seq<HtmlServer.Turn>) returns (result: HtmlServer.Result, wire: string)
    ensures result == HtmlServer.Returned ==> (wire == data <==> HtmlServer.BytesOnce(data, turns))
    ensures HtmlServer.NoAgain(turns) ==> HtmlServer.BytesOnce(data, turns)
    ensures HtmlServer.Flowing(turns) && |turns| >= |data| ==> result == HtmlServer.Returned && wire == data
  {
    var used;
    result, wire, used := HtmlServer.SendBytes(data, turns);
    if HtmlServer.NoAgain(turns) {
      HtmlServer.NoAgains(turns[..used]);
    }
  }

  /** The message that announces a body and carries it. */
  function Message(code: ErrorCode, body: string): string {
    Head(ResponseHead(code, |body|)) + body
  }

  lemma MessageReadsBack(code: ErrorCode, body: string)
    ensures ReadBody(Message(code, body)) == Some(body)
    ensures ReadStatus(Message(code, body)) == Some(Status(HttpStatus(code), CodeText(code)))
  {
    ResponseReadsBack(code, body, "");
    StatusReadsBack(code, |body|, body);
    assert Message(code, body) + "" == Message(code, body);
  }

  const RESULT_BUFFER := 4096
  const ERROR_BUFFER := 2048

  /** The turns are enough for a buffer of the given size, and each moves a byte. */
  ghost predicate Ample(turns: seq<HtmlServer.Turn>, size: nat) {
    HtmlServer.Flowing(turns) && |turns| >= size
  }

  /** A normal end has sent the message exactly when no used turn reported EAGAIN, and ample turns bring such an end. */
  ghost predicate Delivers(message: string, turns: seq<HtmlServer.Turn>, size: nat, result: HtmlServer.Result,
                           wire: string) {
    && (result == HtmlServer.Returned ==> (wire == message <==> HtmlServer.BytesOnce(message, turns)))
    && (HtmlServer.NoAgain(turns) ==> HtmlServer.BytesOnce(message, turns))
    && (Ample(turns, size) ==> result == HtmlServer.Returned && wire == message)
  }

  /** A client that reads the wire as one message finds this body, under the status of this code. */
  ghost predicate Reads(wire: string, code: ErrorCode, body: string) {
    ReadBody(wire) == Some(body) && ReadStatus(wire) == Some(Status(HttpStatus(code), CodeText(code)))
  }

  /** sendJsonResponseError: every error of every 32-bit id fits, and what arrives reads back as its body. */
  method SendError(id: int, code: ErrorCode, turns: seq<HtmlServer.Turn>)
    returns (result: HtmlServer.Result, wire: string)
    requires IsInt32(id)
    ensures Delivers(Message(code, ErrorBody(id, code)), turns, ERROR_BUFFER, result, wire)
    ensures Reads(Message(code, ErrorBody(id, code)), code, ErrorBody(id, code))
  {
    var body := ErrorBody(id, code);
    ErrorBodyLength(id, code);
    ResponseHeadLength(code, |body|);
    var framed := FormatResponse(ERROR_BUFFER, code, body);
    MessageReadsBack(code, body);
    result, wire := SendAll(framed.bytes, turns);
  }

  ghost predicate Fits(message: string) {
    |message| < RESULT_BUFFER
  }

  /** The lengths that the two checks for equality notice. */
  ghost predicate Noticed(body: string) {
    |body| > INT_MAX || |body| == RESULT_BUFFER || |Message(NoError, body)| == RESULT_BUFFER
  }

  /**
   * sendJsonResponseValid: a notification is not answered. A message that fits is sent and reads
   * back as its body, a noticed length sends nothing, and any other overruns the buffer.
   */
  method SendResult(id: int, text: string, turns: seq<HtmlServer.Turn>)
    returns (framed: Framed, result: HtmlServer.Result, wire: string)
    requires IsInt32(id)
    ensures framed.Silent? <==> id == 0
    ensures framed.Silent? || framed.Insufficient? ==> wire == ""
    ensures id != 0 ==> (framed.Bytes? <==> Fits(Message(NoError, ResultBody(id, text))))
    ensures id != 0 ==> (framed.Insufficient? <==> Noticed(ResultBody(id, text)))
    ensures framed.Bytes? ==> Delivers(Message(NoError, ResultBody(id, text)), turns, RESULT_BUFFER, result, wire)
    ensures Reads(Message(NoError, ResultBody(id, text)), NoError, ResultBody(id, text))
  {
    MessageReadsBack(NoError, ResultBody(id, text));
    if id == 0 {
      return Silent, HtmlServer.Returned, "";
    }
    var body := ResultBody(id, text);
    framed := FormatResponse(RESULT_BUFFER, NoError, body);
    match framed {
      case Bytes(bytes) => result, wire := SendAll(bytes, turns);
      case Insufficient => result, wire := HtmlServer.Returned, "";
      case OutOfBuffer => result, wire := HtmlServer.OutOfBuffer, "";
    }
  }

  // ---------- a request from its document to its answer ----------

  /** The document makes the server look a method up. */
  predicate Invokes(doc: Document) {
    && doc.Object? && doc.jsonrpc == Text("2.0") && doc.methodName.Text?
    && (ReadsAsNull(doc.id) || (doc.id.Number? && doc.id.integer != 0))
  }

  predicate Succeeds(invocation: Invocation) {
    invocation.Returned? && invocation.reply.code == NoError
  }

  /** The id is absent, null or vanishes in 32 bits. */
  predicate IsNotification(doc: Document) {
    doc.Object? && (ReadsAsNull(doc.id) || (doc.id.Number? && doc.id.integer % 0x1_0000_0000 == 0))
  }

  /** What Answer comes to in the four cases a client can tell apart. */
  lemma AnswerCases(doc: Document, invocation: Invocation)
    ensures Refusal(doc).None? <==> Invokes(doc)
    ensures Answer(doc, invocation) ==
      if !Invokes(doc) then ErrorResponse(0, Refusal(doc).value)
      else if invocation.NoSuchMethod? then ErrorResponse(IdOf(doc), MethodNotFound)
      else if !Succeeds(invocation) then ErrorResponse(IdOf(doc), invocation.reply.code)
      else if IsNotification(doc) then NoResponse
      else ResultResponse(IdOf(doc), invocation.reply.text)
    ensures IsInt32(IdOf(doc))
    ensures Answer(doc, invocation).ResultResponse? ==> IdOf(doc) != 0
  {
  }

  /** What the client gets for a response over ample turns. */
  ghost predicate Delivered(response: Response, framed: Framed, wire: string) {
    match response
    case ErrorResponse(id, code) => wire == Message(code, ErrorBody(id, code))
    case NoResponse => wire == ""
    case ResultResponse(id, text) =>
      var body := ResultBody(id, text);
      if Fits(Message(NoError, body)) then wire == Message(NoError, body)
      else if Noticed(body) then wire == "" else framed.OutOfBuffer?
  }

  method SendAnswer(response: Response, turns: seq<HtmlServer.Turn>) returns (framed: Framed, wire: string)
    requires Ample(turns, RESULT_BUFFER)
    requires !response.NoResponse? ==> IsInt32(response.id)
    requires response.ResultResponse? ==> response.id != 0
    ensures Delivered(response, framed, wire)
  {
    var result;
    match response {
      case ErrorResponse(id, code) =>
        framed := Silent;
        result, wire := SendError(id, code, turns);
      case ResultResponse(id, text) =>
        framed, result, wire := SendResult(id, text, turns);
      case NoResponse =>
        framed, result, wire := SendResult(0, "", turns);
    }
  }

  // ---------- what the client of a request reads ----------

  /** An error with these values, as status, number, message and id, which is null for none. */
  ghost predicate GetsError(wire: string, http: int, number: int, message: string, id: int) {
    && ReadStatus(wire).Some? && ReadStatus(wire).value.code == http
    && ReadBody(wire).Some?
    && JsonText.ReadJson(ReadBody(wire).value) == Some(AnswerJson("error", ErrorJson(number, message), IdText(id)))
  }

  ghost predicate GetsResult(wire: string, text: string, id: int) {
    && ReadStatus(wire).Some? && ReadStatus(wire).value.code == 200
    && ReadBody(wire).Some?
    && JsonText.ReadJson(ReadBody(wire).value) == Some(AnswerJson("result", JsonText.Str(CStr(text)), DecInt(id)))
  }

  lemma ErrorIsGot(id: int, code: ErrorCode)
    ensures GetsError(Message(code, ErrorBody(id, code)), HttpStatus(code), CodeNumber(code), CodeText(code), id)
  {
    MessageReadsBack(code, ErrorBody(id, code));
    ErrorBodyReadsBack(id, code);
  }

  lemma ResultIsGot(id: int, text: string)
    requires JsonText.Unescaped(CStr(text))
    ensures GetsResult(Message(NoError, ResultBody(id, text)), text, id)
  {
    MessageReadsBack(NoError, ResultBody(id, text));
    ResultBodyReadsBack(id, text);
  }

  /** The numbers of section 5.1 of the JSON-RPC 2.0 specification, and the two the server adds. */
  ghost predicate GetsCode(wire: string, code: ErrorCode, id: int) {
    match code
    case ParseError => GetsError(wire, 500, -32700, "Parse error", id)
    case InvalidRequest => GetsError(wire, 400, -32600, "Invalid Request", id)
    case MethodNotFound => GetsError(wire, 404, -32601, "Method not found", id)
    case InvalidParams => GetsError(wire, 500, -32602, "Invalid params", id)
    case InternalError => GetsError(wire, 500, -32603, "Internal error", id)
    case NullIDError => GetsError(wire, 500, -31000, "ID is 0", id)
    case ObjectNotFound => GetsError(wire, 404, -31001, "Object not found", id)
    case NoError => true
  }

  lemma CodeIsGot(id: int, code: ErrorCode)
    ensures GetsCode(Message(code, ErrorBody(id, code)), code, id)
  {
    ErrorIsGot(id, code);
  }

  /** The answer to a call that was made. */
  ghost predicate GetsReply(wire: string, framed: Framed, id: int, reply: Reply) {
    if reply.code != NoError then GetsCode(wire, reply.code, id)
    else if id == 0 then wire == ""
    else
      var body := ResultBody(id, reply.text);
      if Fits(Message(NoError, body)) then JsonText.Unescaped(CStr(reply.text)) ==> GetsResult(wire, reply.text, id)
      else if Noticed(body) then wire == "" else framed.OutOfBuffer?
  }

  /** What the client gets for each kind of document. */
  ghost predicate ClientGets(wire: string, framed: Framed, doc: Document, invocation: Invocation) {
    match doc
    case Malformed => GetsCode(wire, ParseError, 0)
    case Array => GetsCode(wire, InternalError, 0)
    case Object(jsonrpc, id, methodName) =>
      if jsonrpc != Text("2.0") || !(ReadsAsNull(id) || id.Number?) then GetsCode(wire, InternalError, 0)
      else if id.Number? && id.integer == 0 then GetsCode(wire, NullIDError, 0)
      else if !methodName.Text? then GetsCode(wire, InvalidRequest, 0)
      else
        var kept := if id.Number? then ToInt32(id.integer) else 0;
        match invocation
        case NoSuchMethod => GetsCode(wire, MethodNotFound, kept)
        case Returned(reply) => GetsReply(wire, framed, kept, reply)
  }

  lemma RefusalReads(wire: string, framed: Framed, doc: Document, invocation: Invocation, code: ErrorCode)
    requires Refusal(doc) == Some(code) && GetsCode(wire, code, 0)
    ensures ClientGets(wire, framed, doc, invocation)
  {
  }

  lemma CallReads(wire: string, framed: Framed, doc: Document, invocation: Invocation)
    requires Refusal(doc).None?
    requires invocation.NoSuchMethod? ==> GetsCode(wire, MethodNotFound, IdOf(doc))
    requires invocation.Returned? ==> GetsReply(wire, framed, IdOf(doc), invocation.reply)
    ensures ClientGets(wire, framed, doc, invocation)
  {
  }

  lemma ReplyReads(wire: string, framed: Framed, id: int, reply: Reply)
    requires Delivered(ReplyResponse(id, reply), framed, wire)
    ensures GetsReply(wire, framed, id, reply)
  {
    if reply.code != NoError {
      CodeIsGot(id, reply.code);
    } else if JsonText.Unescaped(CStr(reply.text)) {
      ResultIsGot(id, reply.text);
    }
  }

  lemma ClientReads(wire: string, framed: Framed, doc: Document, invocation: Invocation)
    requires Delivered(Answer(doc, invocation), framed, wire)
    ensures ClientGets(wire, framed, doc, invocation)
  {
    match Refusal(doc)
    case Some(code) =>
      CodeIsGot(0, code);
      RefusalReads(wire, framed, doc, invocation, code);
    case None =>
      match invocation {
        case NoSuchMethod => CodeIsGot(IdOf(doc), MethodNotFound);
        case Returned(reply) => ReplyReads(wire, framed, IdOf(doc), reply);
      }
      CallReads(wire, framed, doc, invocation);
  }

  /**
   * processRequestPOST and what it sends over ample turns. The client reads an error without the
   * request's id for a document that invokes nothing, one with the id as kept in 32 bits for a call
   * that fails, nothing for a successful notification, and otherwise the result, which bears that
   * id too, exactly when it fits.
   */
  method Respond(doc: Document, invocation: Invocation, turns: seq<HtmlServer.Turn>)
    returns (framed: Framed, wire: string)
    requires Ample(turns, RESULT_BUFFER)
    ensures Delivered(Answer(doc, invocation), framed, wire)
    ensures ClientGets(wire, framed, doc, invocation)
    ensures Invokes(doc) && IsNotification(doc) && Succeeds(invocation) ==> wire == ""
  {
    AnswerCases(doc, invocation);
    framed, wire := SendAnswer(Answer(doc, invocation), turns);
    ClientReads(wire, framed, doc, invocation);
  }
}

/** What the server answers to the bytes of one request, and why every queued item can be read. */
module Answers {
  import opened Bytes
  import opened Numbers
  import opened ByteBuffers
  import opened Messages
  import opened Clients
  import Reading
  import Requests
  import Responses
  import Wire

  const CONTENT_TYPE := Ascii("Content-Type")
  const CONNECTION := Ascii("Connection")
  const ALLOW := Ascii("Allow")

  /** No answer, a response (and whether the connection is announced closed), or an abnormal end. */
  datatype Answer = Silence | Send(response: Responses.Response, disconnect: bool) | Abort(fault: Fault)

  /** `unsigned int` from a size, passed on as an `int`. */
  function AsInt(n: nat): int {
    ToInt(n % UINT_RANGE)
  }

  /** `strncpy(sdata, body, body.length())`: zeros from the first NUL on. */
  function PaddedCopy(body: bytes): (r: bytes)
    ensures |r| == |body|
  {
    CString(body) + Zeros(|body| - |CString(body)|)
  }

  /** A response with the given status and headers as a handler builds it, before `sendResponse`. */
  function Draft(status: int, headers: Headers, data: bytes): Responses.Response {
    Responses.Response(status, Responses.ReasonFor(status, []), DEFAULT_VERSION, headers, data)
  }

  /** `sendResponse` adds a Connection header when it will close. */
  function Closing(r: Responses.Response, disconnect: bool): Answer {
    Send(if disconnect then r.(headers := Wire.InsertHeader(r.headers, CONNECTION, Ascii("close"))) else r, disconnect)
  }

  function PostAnswer(version: bytes): Answer {
    Closing(Draft(Responses.OK, map[CONTENT_TYPE := Ascii("text/html"), Wire.CONTENT_LENGTH := Ascii("0")], []),
            version == DEFAULT_VERSION)
  }

  function OptionsAnswer(): Answer {
    Closing(Draft(Responses.OK,
                  map[ALLOW := Ascii("POST, HEAD, GET, OPTIONS, TRACE"), Wire.CONTENT_LENGTH := Ascii("0")], []), true)
  }

  function TraceAnswer(s: bytes): Answer {
    Closing(Draft(Responses.OK,
                  map[CONTENT_TYPE := Ascii("message/http"), Wire.CONTENT_LENGTH := DecimalInt(AsInt(|s|))], s), true)
  }

  function StatusAnswer(status: int, msg: bytes): Answer {
    var body := Responses.ReasonFor(status, []) + Ascii(": ") + msg;
    Closing(Draft(status,
                  map[CONTENT_TYPE := Ascii("text/plain"), Wire.CONTENT_LENGTH := DecimalInt(AsInt(|body|))],
                  PaddedCopy(body)), true)
  }

  /** `handleRequest` on the bytes s. */
  function AnswerTo(s: bytes, uninit: byte): Answer {
    match Requests.ParseRequest(s, 0, Requests.FRESH, uninit)
    case Crashed(f) => Abort(f)
    case Rejected(e, _) => StatusAnswer(Responses.BAD_REQUEST, e)
    case Accepted(r) => Dispatch(s, r)
  }

  function Dispatch(s: bytes, r: Requests.Request): Answer {
    if r.methodId == Requests.POST then PostAnswer(r.version)
    else if r.methodId == Requests.HEAD || r.methodId == Requests.GET then Silence
    else if r.methodId == Requests.OPTIONS then OptionsAnswer()
    else if r.methodId == Requests.TRACE then TraceAnswer(s)
    else StatusAnswer(Responses.NOT_IMPLEMENTED, [])
  }

  /** The item `sendResponse` queues. */
  ghost function Item(a: Answer): SendQueueItem
    requires a.Send?
  {
    SendQueueItem(Responses.ResponseText(a.response), a.disconnect)
  }

  // ----- every answer can be read -----

  /** Content-Length decodes to the exact body length, and the printed response parses back. */
  ghost predicate SelfDelimiting(r: Responses.Response) {
    Wire.CONTENT_LENGTH in r.headers && Atoi(r.headers[Wire.CONTENT_LENGTH]) == Some(|r.data|) &&
    Responses.Survives(r)
  }

  predicate IsDraftHeaders(h: Headers, length: nat) {
    Wire.PrintableHeaders(h) && CONNECTION !in h &&
    Wire.CONTENT_LENGTH in h && Atoi(h[Wire.CONTENT_LENGTH]) == Some(length)
  }

  lemma ClosingIsSelfDelimiting(r: Responses.Response, disconnect: bool)
    requires r.version == DEFAULT_VERSION && Free(r.reason, EOL) && IsDraftHeaders(r.headers, |r.data|)
    ensures SelfDelimiting(Closing(r, disconnect).response)
  {
    hide Responses.Survives, Atoi;
    var sent := Closing(r, disconnect).response;
    assert Free(DEFAULT_VERSION, Stops(SPACE, NUL));
    assert Wire.IsKey(CONNECTION) && Wire.IsValue(Ascii("close"));
    assert CONNECTION[1] == 111 && CONNECTION[3] == 110 && Wire.CONTENT_LENGTH[3] == 116;
    Responses.RoundTripExactly(sent);
  }

  /** A map of one describing header and Content-Length, as all handlers build it. */
  lemma DraftHeaders(k: bytes, v: bytes, text: bytes, length: nat)
    requires k == CONTENT_TYPE || k == ALLOW
    requires Wire.IsValue(v)
    requires Wire.IsValue(text) && Atoi(text) == Some(length)
    ensures IsDraftHeaders(map[k := v, Wire.CONTENT_LENGTH := text], length)
  {
    hide Atoi;
    var h := map[k := v, Wire.CONTENT_LENGTH := text];
    assert Wire.IsKey(CONTENT_TYPE) && Wire.IsKey(ALLOW) && Wire.IsKey(Wire.CONTENT_LENGTH);
    assert |CONNECTION| == 10 && |ALLOW| == 5 && |CONTENT_TYPE| == 12 && |Wire.CONTENT_LENGTH| == 14;
  }

  lemma LengthText(n: nat)
    requires n <= INT_MAX
    ensures Wire.IsValue(DecimalInt(AsInt(n))) && Atoi(DecimalInt(AsInt(n))) == Some(n)
  {
    hide Atoi;
    assert AsInt(n) == n;
    AtoiReadsDecimal(n);
  }

  lemma ZeroText()
    ensures Wire.IsValue(Ascii("0")) && Atoi(Ascii("0")) == Some(0)
  {
  }

  lemma StatusAnswerIsSelfDelimiting(status: int, msg: bytes)
    requires status == Responses.BAD_REQUEST || status == Responses.NOT_IMPLEMENTED
    requires |msg| + 17 <= INT_MAX
    ensures SelfDelimiting(StatusAnswer(status, msg).response)
  {
    hide SelfDelimiting, IsDraftHeaders, Atoi, Wire.IsValue, PaddedCopy;
    var reason := Responses.ReasonFor(status, []);
    var body := reason + Ascii(": ") + msg;
    assert |reason| <= 15 && Free(reason, EOL);
    LengthText(|body|);
    TextValues();
    DraftHeaders(CONTENT_TYPE, Ascii("text/plain"), DecimalInt(AsInt(|body|)), |body|);
    ClosingIsSelfDelimiting(Draft(status, map[CONTENT_TYPE := Ascii("text/plain"),
                                              Wire.CONTENT_LENGTH := DecimalInt(AsInt(|body|))], PaddedCopy(body)), true);
  }

  lemma TextValues()
    ensures Wire.IsValue(Ascii("text/plain")) && Wire.IsValue(Ascii("text/html"))
    ensures Wire.IsValue(Ascii("message/http")) && Wire.IsValue(Ascii("POST, HEAD, GET, OPTIONS, TRACE"))
    ensures Free(Ascii("OK"), EOL)
  {
  }

  lemma TraceAnswerIsSelfDelimiting(s: bytes)
    requires |s| <= INT_MAX
    ensures SelfDelimiting(TraceAnswer(s).response)
  {
    hide SelfDelimiting, IsDraftHeaders, Atoi, Wire.IsValue;
    TextValues();
    LengthText(|s|);
    DraftHeaders(CONTENT_TYPE, Ascii("message/http"), DecimalInt(AsInt(|s|)), |s|);
    ClosingIsSelfDelimiting(Draft(Responses.OK, map[CONTENT_TYPE := Ascii("message/http"),
                                                    Wire.CONTENT_LENGTH := DecimalInt(AsInt(|s|))], s), true);
  }

  lemma FixedAnswersAreSelfDelimiting(version: bytes)
    ensures SelfDelimiting(PostAnswer(version).response) && SelfDelimiting(OptionsAnswer().response)
  {
    hide SelfDelimiting, IsDraftHeaders, Atoi, Wire.IsValue;
    TextValues();
    ZeroText();
    var html, allow := Ascii("text/html"), Ascii("POST, HEAD, GET, OPTIONS, TRACE");
    DraftHeaders(CONTENT_TYPE, html, Ascii("0"), 0);
    DraftHeaders(ALLOW, allow, Ascii("0"), 0);
    ClosingIsSelfDelimiting(Draft(Responses.OK, map[CONTENT_TYPE := html, Wire.CONTENT_LENGTH := Ascii("0")], []),
                            version == DEFAULT_VERSION);
    ClosingIsSelfDelimiting(Draft(Responses.OK, map[ALLOW := allow, Wire.CONTENT_LENGTH := Ascii("0")], []), true);
  }

  // ----- the error text of a rejected request is bounded by the request -----

  lemma {:induction false} LogicalLineLength(s: bytes, p: nat, app: bytes, line: bytes)
    requires p <= |s|
    ensures var r := Wire.LogicalLine(s, p, app, line); r.Ok? ==> |r.value.0| <= |line| + (r.value.1 - p)
    decreases |s| - p, |app|
  {
    hide Wire.GetLine;
    if app != [] && app[|app| - 1] == COMMA {
      var (next, q) := Wire.GetLine(s, p);
      LogicalLineLength(s, q, next, line + next);
    }
  }

  predicate ValuesWithin(h: Headers, n: nat) {
    forall k :: k in h ==> |h[k]| <= n
  }

  lemma NoValues(n: nat)
    ensures ValuesWithin(map[], n)
  {
  }

  /** A parsed header value is never longer than the message. */
  lemma {:induction false} ValuesAreBounded(s: bytes, p: nat, h: Headers)
    requires p <= |s| && ValuesWithin(h, |s|)
    ensures var r := Wire.ParseHeaders(s, p, h); r.Ok? ==> ValuesWithin(r.value.0, |s|)
    decreases |s| - p
  {
    hide Wire.GetLine, Wire.LogicalLine;
    var (piece, p1) := Wire.GetLine(s, p);
    if piece != [] {
      LogicalLineLength(s, p1, piece, piece);
      var line := Wire.LogicalLine(s, p1, piece, piece);
      if line.Ok? {
        var h' := Wire.AddLine(h, line.value.0);
        if h'.Ok? {
          ValuesAreBounded(s, line.value.1, h'.value);
        }
      }
    }
  }

  lemma {:induction false} DecimalLength(n: nat)
    ensures |Decimal(n)| <= n + 1
  {
    if n >= 10 {
      DecimalLength(n / 10);
    }
  }

  lemma ErrorIsBounded(s: bytes, uninit: byte)
    ensures var o := Requests.ParseRequest(s, 0, Requests.FRESH, uninit); o.Rejected? ==> |o.error| <= 2 * |s| + 80
  {
    hide Wire.Token, Wire.GetLine, Wire.ParseHeaders, Atoi, Requests.MethodId, Wire.TooLongError, ValuesWithin;
    var (name, p1) := Wire.Token(s, 0, SPACE);
    TokenLength(s);
    var (_, p2) := Wire.Token(s, p1, SPACE);
    var (_, p3) := Wire.GetLine(s, p2);
    NoValues(|s|);
    ValuesAreBounded(s, p3, map[]);
    var r := Wire.ParseHeaders(s, p3, map[]);
    if r.Ok? {
      DecimalLength(|s| - r.value.1);
      ValueIsBounded(r.value.0, Wire.CONTENT_LENGTH, |s|);
      Wire.TooLongErrorLength(Wire.HeaderValue(r.value.0, Wire.CONTENT_LENGTH), |s| - r.value.1);
    }
  }

  lemma ValueIsBounded(h: Headers, k: bytes, n: nat)
    requires ValuesWithin(h, n)
    ensures |Wire.HeaderValue(h, k)| <= n
  {
  }

  lemma TokenLength(s: bytes)
    ensures |Wire.Token(s, 0, SPACE).0| <= |s|
  {
    Wire.ScanTokenEnds(s, 0, 0, SPACE);
  }

  // ----- theorems -----

  /** Every answer to a request the server can receive says its own length, and parses back as a
      response with the same version, reason, headers and body. */
  lemma AnswersAreSelfDelimiting(s: bytes, uninit: byte)
    requires |s| <= Reading.DATA_LEN && AnswerTo(s, uninit).Send?
    ensures SelfDelimiting(AnswerTo(s, uninit).response)
  {
    hide SelfDelimiting, Requests.ParseRequest, PostAnswer, OptionsAnswer, TraceAnswer, StatusAnswer;
    match Requests.ParseRequest(s, 0, Requests.FRESH, uninit)
    case Rejected(e, _) =>
      ErrorIsBounded(s, uninit);
      StatusAnswerIsSelfDelimiting(Responses.BAD_REQUEST, e);
    case Accepted(r) =>
      FixedAnswersAreSelfDelimiting(r.version);
      TraceAnswerIsSelfDelimiting(s);
      StatusAnswerIsSelfDelimiting(Responses.NOT_IMPLEMENTED, []);
  }

  /** Parsed as a response, the queued text gives the body s and the reason OK. */
  ghost predicate CarriesBody(text: bytes, s: bytes) {
    forall uninit ::
      var o := Responses.ParseResponse(text, 0, Responses.FRESH, uninit);
      o.Accepted? && o.value.data == s && o.value.reason == Ascii("OK")
  }

  predicate IsTrace(o: Outcome<Requests.Request>) {
    o.Accepted? && o.value.methodId == Requests.TRACE
  }

  /** TRACE echoes: the answer to a request that parses as TRACE is a response whose parsed body is the
      request as it was received, byte for byte. */
  lemma TraceEchoes(s: bytes, uninit: byte)
    requires |s| <= Reading.DATA_LEN && IsTrace(Requests.ParseRequest(s, 0, Requests.FRESH, uninit))
    ensures AnswerTo(s, uninit).Send?
    ensures CarriesBody(Item(AnswerTo(s, uninit)).data, s)
  {
    hide Requests.ParseRequest, Responses.ParseResponse, Responses.ResponseText, TraceAnswer, PostAnswer, OptionsAnswer, StatusAnswer;
    TraceAnswerText(s);
    TraceAnswerIsSelfDelimiting(s);
  }

  lemma TraceAnswerText(s: bytes)
    ensures TraceAnswer(s).Send? && TraceAnswer(s).response.data == s && TraceAnswer(s).response.reason == Ascii("OK")
  {
  }

  /** Exactly the accepted GET and HEAD requests go unanswered. */
  lemma SilenceExactly(s: bytes, uninit: byte)
    ensures var o := Requests.ParseRequest(s, 0, Requests.FRESH, uninit);
            AnswerTo(s, uninit) == Silence <==>
            o.Accepted? && (o.value.methodId == Requests.GET || o.value.methodId == Requests.HEAD)
  {
    hide Requests.ParseRequest, PostAnswer, OptionsAnswer, TraceAnswer, StatusAnswer;
    HandlersSend(s);
  }

  lemma HandlersSend(s: bytes)
    ensures OptionsAnswer().Send? && TraceAnswer(s).Send?
    ensures forall version :: PostAnswer(version).Send?
    ensures forall status, msg :: StatusAnswer(status, msg).Send?
  {
  }

  lemma DraftsDoNotClose(k: bytes, v: bytes, text: bytes)
    requires k == CONTENT_TYPE || k == ALLOW
    ensures CONNECTION !in map[k := v, Wire.CONTENT_LENGTH := text]
  {
    assert |CONNECTION| == 10 && |ALLOW| == 5 && |CONTENT_TYPE| == 12 && |Wire.CONTENT_LENGTH| == 14;
  }

  /** The closing header goes with the flag. */
  ghost predicate Announced(a: Answer) {
    a.Send? && (a.disconnect <==> Wire.HeaderValue(a.response.headers, CONNECTION) == Ascii("close"))
  }

  /** Status, flag and closing header of what each handler sends. */
  lemma HandlersAnnounce(s: bytes, version: bytes, status: int, msg: bytes)
    ensures var a := PostAnswer(version);
            Announced(a) && a.response.status == Responses.OK && (a.disconnect <==> version == DEFAULT_VERSION)
    ensures var a := OptionsAnswer(); Announced(a) && a.response.status == Responses.OK && a.disconnect
    ensures var a := TraceAnswer(s); Announced(a) && a.response.status == Responses.OK && a.disconnect
    ensures var a := StatusAnswer(status, msg); Announced(a) && a.response.status == status && a.disconnect
  {
    hide AsInt, DecimalInt, PaddedCopy, Responses.ReasonFor;
    DraftsDoNotClose(CONTENT_TYPE, Ascii("text/html"), Ascii("0"));
    DraftsDoNotClose(ALLOW, Ascii("POST, HEAD, GET, OPTIONS, TRACE"), Ascii("0"));
    DraftsDoNotClose(CONTENT_TYPE, Ascii("message/http"), DecimalInt(AsInt(|s|)));
    var body := Responses.ReasonFor(status, []) + Ascii(": ") + msg;
    DraftsDoNotClose(CONTENT_TYPE, Ascii("text/plain"), DecimalInt(AsInt(|body|)));
  }

  /** Which status an answer carries, and when it announces that the connection will be closed: always,
      except for an accepted POST of another version than 1.1. */
  lemma AnswersByOutcome(s: bytes, uninit: byte)
    requires AnswerTo(s, uninit).Send?
    ensures var (o, a) := (Requests.ParseRequest(s, 0, Requests.FRESH, uninit), AnswerTo(s, uninit));
            (a.response.status == Responses.BAD_REQUEST <==> o.Rejected?) &&
            (a.response.status == Responses.NOT_IMPLEMENTED <==>
               o.Accepted? && o.value.methodId !in {Requests.POST, Requests.OPTIONS, Requests.TRACE}) &&
            (!a.disconnect <==>
               o.Accepted? && o.value.methodId == Requests.POST && o.value.version != DEFAULT_VERSION) &&
            Announced(a)
  {
    hide Requests.ParseRequest, PostAnswer, OptionsAnswer, TraceAnswer, StatusAnswer, Announced;
    match Requests.ParseRequest(s, 0, Requests.FRESH, uninit)
    case Rejected(e, _) => HandlersAnnounce(s, [], Responses.BAD_REQUEST, e);
    case Accepted(r) => HandlersAnnounce(s, r.version, Responses.NOT_IMPLEMENTED, []);
  }

  // ----- what each answer contains -----

  /** The outcome of parsing the request. */
  function Parsed(s: bytes, uninit: byte): Outcome<Requests.Request> {
    Requests.ParseRequest(s, 0, Requests.FRESH, uninit)
  }

  lemma CloseIsAdded(k: bytes, v: bytes, text: bytes)
    requires k == CONTENT_TYPE || k == ALLOW
    ensures Wire.InsertHeader(map[k := v, Wire.CONTENT_LENGTH := text], CONNECTION, Ascii("close")) ==
            map[k := v, Wire.CONTENT_LENGTH := text, CONNECTION := Ascii("close")]
  {
    DraftsDoNotClose(k, v, text);
  }

  lemma NameLiterals()
    ensures CONTENT_TYPE == Ascii("Content-Type") && Wire.CONTENT_LENGTH == Ascii("Content-Length")
    ensures CONNECTION == Ascii("Connection") && ALLOW == Ascii("Allow") && DEFAULT_VERSION == Ascii("HTTP/1.1")
  {
  }

  /** The response that lists the allowed methods. */
  function MethodList(): Responses.Response {
    Responses.Response(200, Ascii("OK"), Ascii("HTTP/1.1"),
                       map[Ascii("Allow") := Ascii("POST, HEAD, GET, OPTIONS, TRACE"),
                           Ascii("Content-Length") := Ascii("0"), Ascii("Connection") := Ascii("close")], [])
  }

  /** An empty page. */
  function EmptyPage(): Responses.Response {
    Responses.Response(200, Ascii("OK"), Ascii("HTTP/1.1"),
                       map[Ascii("Content-Type") := Ascii("text/html"), Ascii("Content-Length") := Ascii("0")], [])
  }

  /** An answer of a kind that says its length and closes the connection. */
  function LastAnswer(status: int, reason: bytes, kind: bytes, data: bytes): Responses.Response {
    Responses.Response(status, reason, Ascii("HTTP/1.1"),
                       map[Ascii("Content-Type") := kind, Ascii("Content-Length") := Decimal(|data|),
                           Ascii("Connection") := Ascii("close")], data)
  }

  /** An accepted OPTIONS request gets the list of allowed methods and no body. */
  lemma OptionsIsAnswered(s: bytes, uninit: byte)
    requires Parsed(s, uninit).Accepted? && Parsed(s, uninit).value.methodId == Requests.OPTIONS
    ensures AnswerTo(s, uninit) == Send(MethodList(), true)
  {
    hide Requests.ParseRequest, Wire.InsertHeader, Ascii, PostAnswer, TraceAnswer, StatusAnswer;
    NameLiterals();
    CloseIsAdded(ALLOW, Ascii("POST, HEAD, GET, OPTIONS, TRACE"), Ascii("0"));
  }

  lemma PostContents(version: bytes)
    ensures PostAnswer(version) ==
            if version == DEFAULT_VERSION then Send(LastAnswer(200, Ascii("OK"), Ascii("text/html"), []), true) else Send(EmptyPage(), false)
  {
    hide Wire.InsertHeader, Ascii;
    NameLiterals();
    assert Decimal(0) == Ascii("0") by {
      ZeroDigit();
    }
    CloseIsAdded(CONTENT_TYPE, Ascii("text/html"), Ascii("0"));
  }

  lemma ZeroDigit()
    ensures Decimal(0) == Ascii("0")
  {
  }

  /** An accepted POST request gets an empty page; only one of version HTTP/1.1 closes the connection. */
  lemma PostIsAnswered(s: bytes, uninit: byte)
    requires Parsed(s, uninit).Accepted? && Parsed(s, uninit).value.methodId == Requests.POST
    ensures AnswerTo(s, uninit) ==
            if Parsed(s, uninit).value.version == Ascii("HTTP/1.1") then Send(LastAnswer(200, Ascii("OK"), Ascii("text/html"), []), true)
            else Send(EmptyPage(), false)
  {
    hide Requests.ParseRequest, PostAnswer, LastAnswer, EmptyPage;
    PostContents(Parsed(s, uninit).value.version);
  }

  lemma TraceContents(s: bytes)
    requires |s| <= INT_MAX
    ensures TraceAnswer(s) == Send(LastAnswer(200, Ascii("OK"), Ascii("message/http"), s), true)
  {
    hide Wire.InsertHeader, Ascii, Decimal;
    NameLiterals();
    CloseIsAdded(CONTENT_TYPE, Ascii("message/http"), Decimal(|s|));
  }

  /** An accepted TRACE request gets its own bytes. */
  lemma TraceIsAnswered(s: bytes, uninit: byte)
    requires |s| <= INT_MAX
    requires Parsed(s, uninit).Accepted? && Parsed(s, uninit).value.methodId == Requests.TRACE
    ensures AnswerTo(s, uninit) == Send(LastAnswer(200, Ascii("OK"), Ascii("message/http"), s), true)
  {
    hide Requests.ParseRequest, TraceAnswer, LastAnswer;
    TraceContents(s);
  }

  /** The text up to its first NUL, and zeros from there on. */
  predicate IsZeroFilled(data: bytes, text: bytes) {
    |data| == |text| &&
    forall i :: 0 <= i < |text| ==> data[i] == if forall j :: 0 <= j < i ==> text[j] != NUL then text[i] else NUL
  }

  lemma PaddedIsZeroFilled(text: bytes)
    ensures IsZeroFilled(PaddedCopy(text), text)
  {
    var n := |CString(text)|;
    forall i | 0 <= i < |text|
      ensures PaddedCopy(text)[i] == if forall j :: 0 <= j < i ==> text[j] != NUL then text[i] else NUL
    {
      if n < i {
        assert text[n] == NUL;
      }
    }
  }

  /** A plain text answer with a status, its reason, and the text behind it. */
  ghost predicate IsTextAnswer(a: Answer, status: int, reason: bytes, text: bytes) {
    a.Send? && a.disconnect && IsZeroFilled(a.response.data, text) && a.response == LastAnswer(status, reason, Ascii("text/plain"), a.response.data)
  }

  lemma StatusContents(status: int, text: bytes, data: bytes)
    requires |text| == |data| <= INT_MAX
    ensures Closing(Draft(status, map[CONTENT_TYPE := Ascii("text/plain"),
                                      Wire.CONTENT_LENGTH := DecimalInt(AsInt(|text|))], data), true) ==
            Send(LastAnswer(status, Responses.ReasonFor(status, []), Ascii("text/plain"), data), true)
  {
    hide Wire.InsertHeader, Ascii, Decimal, Responses.ReasonFor;
    NameLiterals();
    CloseIsAdded(CONTENT_TYPE, Ascii("text/plain"), Decimal(|text|));
  }

  lemma StatusIsTextAnswer(status: int, msg: bytes)
    requires |msg| + 30 <= INT_MAX && |Responses.ReasonFor(status, [])| <= 20
    ensures var reason := Responses.ReasonFor(status, []);
            IsTextAnswer(StatusAnswer(status, msg), status, reason, reason + Ascii(": ") + msg)
  {
    hide PaddedCopy, IsZeroFilled, Closing, Responses.ReasonFor;
    var text := Responses.ReasonFor(status, []) + Ascii(": ") + msg;
    PaddedIsZeroFilled(text);
    StatusContents(status, text, PaddedCopy(text));
  }

  /** A rejected request gets 400 with the error text. */
  lemma RejectedIsAnswered(s: bytes, uninit: byte)
    requires |s| <= Reading.DATA_LEN && Parsed(s, uninit).Rejected?
    ensures IsTextAnswer(AnswerTo(s, uninit), 400, Ascii("Bad Request"),
                         Ascii("Bad Request") + Ascii(": ") + Parsed(s, uninit).error)
  {
    hide Requests.ParseRequest, StatusAnswer, IsTextAnswer, Ascii;
    assert |Ascii("Bad Request")| == 11;
    ErrorIsBounded(s, uninit);
    StatusIsTextAnswer(Responses.BAD_REQUEST, Parsed(s, uninit).error);
  }

  /** An accepted request that no handler takes gets 501 with no text behind the reason. */
  lemma UnhandledIsAnswered(s: bytes, uninit: byte)
    requires Parsed(s, uninit).Accepted? && Parsed(s, uninit).value.methodId !in {0, 1, 2, 5, 6}
    ensures IsTextAnswer(AnswerTo(s, uninit), 501, Ascii("Not Implemented"), Ascii("Not Implemented") + Ascii(": "))
  {
    hide Requests.ParseRequest, PostAnswer, OptionsAnswer, TraceAnswer, StatusAnswer, IsTextAnswer, Ascii;
    assert |Ascii("Not Implemented")| == 15;
    StatusIsTextAnswer(Responses.NOT_IMPLEMENTED, []);
    var text := Ascii("Not Implemented") + Ascii(": ");
    assert text + [] == text;
  }

  /** The other requests get nothing: accepted GET and HEAD, and those whose parsing does not come to an end. */
  lemma OthersAreNotAnswered(s: bytes, uninit: byte)
    ensures Parsed(s, uninit).Accepted? && Parsed(s, uninit).value.methodId in {0, 1} ==> AnswerTo(s, uninit) == Silence
    ensures Parsed(s, uninit).Crashed? ==> AnswerTo(s, uninit) == Abort(Parsed(s, uninit).fault)
  {
    hide Requests.ParseRequest, PostAnswer, OptionsAnswer, TraceAnswer, StatusAnswer;
  }

  /** Every answer is sent as version HTTP/1.1 with one of three statuses, and the status stands in its text. */
  lemma StatusGoesOut(s: bytes, uninit: byte)
    requires AnswerTo(s, uninit).Send?
    ensures var a := AnswerTo(s, uninit);
            a.response.version == DEFAULT_VERSION && a.response.status in {200, 400, 501} &&
            Responses.PrintedStatus(Item(a).data) == Some(a.response.status)
  {
    hide Requests.ParseRequest, Responses.ResponseText, Responses.PrintedStatus;
    AnswersByOutcome(s, uninit);
    VersionAndStatus(s, uninit);
    assert Free(DEFAULT_VERSION, Stops(SPACE, NUL));
    Responses.StatusIsPrinted(AnswerTo(s, uninit).response);
  }

  lemma VersionAndStatus(s: bytes, uninit: byte)
    requires AnswerTo(s, uninit).Send?
    ensures var r := AnswerTo(s, uninit).response; r.version == DEFAULT_VERSION && r.status in {200, 400, 501}
  {
    hide Requests.ParseRequest, Wire.InsertHeader, Ascii, Responses.ReasonFor, PaddedCopy, AsInt, DecimalInt;
  }

  /** The text of a queued answer says 400 if and only if the request was rejected, and 501 if and only if it
      was accepted and no handler takes it. */
  lemma PrintedStatusByOutcome(s: bytes, uninit: byte)
    requires AnswerTo(s, uninit).Send?
    ensures var (o, code) := (Parsed(s, uninit), Responses.PrintedStatus(Item(AnswerTo(s, uninit)).data));
            (code == Some(400) <==> o.Rejected?) &&
            (code == Some(501) <==> o.Accepted? && o.value.methodId !in {2, 5, 6}) &&
            (code == Some(200) <==> o.Accepted? && o.value.methodId in {2, 5, 6})
  {
    hide Requests.ParseRequest, AnswerTo, Item, Responses.PrintedStatus, Announced;
    StatusGoesOut(s, uninit);
    AnswersByOutcome(s, uninit);
    OthersAreNotAnswered(s, uninit);
  }

  /** The body of a status response is the whole text exactly when nothing but NULs follows its first NUL. */
  lemma PaddedCopyExactly(body: bytes)
    ensures PaddedCopy(body) == body <==> NulsLast(body)
  {
  }
}

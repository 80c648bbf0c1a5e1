/** Requests: the printer, the parser, and the exact condition under which they undo each other. */
module Requests {
  import opened Bytes
  import opened Numbers
  import opened ByteBuffers
  import opened Messages
  import Wire

  const HEAD := 0
  const GET := 1
  const POST := 2
  const PUT := 3
  const DEL := 4
  const TRACE := 5
  const OPTIONS := 6
  const CONNECT := 7
  const PATCH := 8

  const NUM_METHODS := 9
  const METHOD_NAMES: seq<bytes> :=
    [Ascii("HEAD"), Ascii("GET"), Ascii("POST"), Ascii("PUT"), Ascii("DELETE"),
     Ascii("TRACE"), Ascii("OPTIONS"), Ascii("CONNECT"), Ascii("PATCH")]

  datatype Request = Request(methodId: int, uri: bytes, version: bytes, headers: Headers, data: bytes)

  /** The fields of a new request object. */
  const FRESH := Request(0, [], DEFAULT_VERSION, map[], [])

  // ----- method names -----

  /** `methodIntToStr`: empty for an unknown id, a negative one included. */
  function MethodName(id: int): bytes {
    if 0 <= id < NUM_METHODS then METHOD_NAMES[id] else []
  }

  /** The loop of `methodStrToInt` from index i on. */
  function MethodFrom(name: bytes, i: nat): (r: int)
    requires i <= NUM_METHODS
    ensures -1 <= r < NUM_METHODS
    decreases NUM_METHODS - i
  {
    if i == NUM_METHODS then -1 else if METHOD_NAMES[i] == name then i else MethodFrom(name, i + 1)
  }

  /** `methodStrToInt`: -1 for an unknown name. */
  function MethodId(name: bytes): (r: int)
    ensures -1 <= r < NUM_METHODS
  {
    if name == [] || |name| >= 10 then -1 else MethodFrom(CString(name), 0)
  }

  /** Names and ids of methods correspond one to one, and names are tokens. */
  lemma MethodNames(id: int)
    requires 0 <= id < NUM_METHODS
    ensures MethodName(id) != [] && Free(MethodName(id), Stops(SPACE, NUL))
    ensures MethodId(MethodName(id)) == id
  {
    NameIsToken(id);
    hide METHOD_NAMES;
    assert CString(MethodName(id)) == MethodName(id);
    FindsName(id, 0);
  }

  lemma {:induction false} FindsName(id: int, i: nat)
    requires i <= id < NUM_METHODS
    ensures MethodFrom(MethodName(id), i) == id
    decreases NUM_METHODS - i
  {
    hide METHOD_NAMES;
    if i < id {
      NamesDiffer(i, id);
      FindsName(id, i + 1);
    }
  }

  lemma NameIsToken(id: int)
    requires 0 <= id < NUM_METHODS
    ensures var name := MethodName(id);
            3 <= |name| <= 7 && forall i :: 0 <= i < |name| ==> 65 <= name[i] <= 90
  {
  }

  lemma NamesDiffer(i: int, j: int)
    requires 0 <= i < j < NUM_METHODS
    ensures MethodName(i) != MethodName(j)
  {
    assert MethodName(HEAD)[0] == 72 && MethodName(POST)[0] == 80;
    assert MethodName(GET)[0] == 71 && MethodName(PUT)[0] == 80;
    assert MethodName(TRACE)[0] == 84 && MethodName(PATCH)[0] == 80;
    assert MethodName(OPTIONS)[0] == 79 && MethodName(CONNECT)[0] == 67;
  }

  /** The nine names, as they stand in a request. */
  predicate IsMethodName(name: bytes) {
    name in [Ascii("HEAD"), Ascii("GET"), Ascii("POST"), Ascii("PUT"), Ascii("DELETE"),
             Ascii("TRACE"), Ascii("OPTIONS"), Ascii("CONNECT"), Ascii("PATCH")]
  }

  /** Which id has which name; no other number has one. */
  lemma NameLiterals(id: int)
    ensures MethodName(HEAD) == Ascii("HEAD")
    ensures MethodName(GET) == Ascii("GET")
    ensures MethodName(POST) == Ascii("POST")
    ensures MethodName(PUT) == Ascii("PUT")
    ensures MethodName(DEL) == Ascii("DELETE")
    ensures MethodName(TRACE) == Ascii("TRACE")
    ensures MethodName(OPTIONS) == Ascii("OPTIONS")
    ensures MethodName(CONNECT) == Ascii("CONNECT")
    ensures MethodName(PATCH) == Ascii("PATCH")
    ensures !(0 <= id < 9) ==> MethodName(id) == []
  {
  }

  /** Which name has which id: the methods up to PUT. */
  lemma MethodLiterals()
    ensures MethodId(Ascii("HEAD")) == HEAD == 0
    ensures MethodId(Ascii("GET")) == GET == 1
    ensures MethodId(Ascii("POST")) == POST == 2
    ensures MethodId(Ascii("PUT")) == PUT == 3
  {
    hide MethodId, MethodName, Ascii;
    NameLiterals(0);
    NamesHaveIds(HEAD, GET);
    NamesHaveIds(POST, PUT);
  }

  /** The methods from DELETE on. */
  lemma OtherMethodLiterals()
    ensures MethodId(Ascii("DELETE")) == DEL == 4
    ensures MethodId(Ascii("TRACE")) == TRACE == 5
    ensures MethodId(Ascii("OPTIONS")) == OPTIONS == 6
    ensures MethodId(Ascii("CONNECT")) == CONNECT == 7
    ensures MethodId(Ascii("PATCH")) == PATCH == 8
  {
    hide MethodId, MethodName, Ascii;
    NameLiterals(0);
    NamesHaveIds(DEL, TRACE);
    NamesHaveIds(OPTIONS, CONNECT);
    NamesHaveIds(CONNECT, PATCH);
  }

  lemma NamesHaveIds(a: int, b: int)
    requires 0 <= a < 9 && 0 <= b < 9
    ensures MethodId(MethodName(a)) == a && MethodId(MethodName(b)) == b
  {
    hide MethodId, MethodName;
    MethodNames(a);
    MethodNames(b);
  }

  lemma {:induction false} NotFound(name: bytes, i: nat)
    requires i <= NUM_METHODS
    ensures MethodFrom(name, i) == -1 <==> forall j :: i <= j < NUM_METHODS ==> METHOD_NAMES[j] != name
    decreases NUM_METHODS - i
  {
    hide METHOD_NAMES;
    if i < NUM_METHODS {
      NotFound(name, i + 1);
    }
  }

  /** A name has no id if and only if it is empty, has ten or more bytes, or is none of the nine names up to
      its first NUL. */
  lemma UnknownMethodExactly(name: bytes)
    ensures MethodId(name) == -1 <==> name == [] || |name| >= 10 || !IsMethodName(CString(name))
  {
    NotFound(CString(name), 0);
  }

  /** Otherwise it has the id of the name it is up to its first NUL. */
  lemma MethodOfText(name: bytes)
    ensures MethodId(name) != -1 ==> MethodId(name) == MethodId(CString(name))
  {
    assert CString(CString(name)) == CString(name);
    hide CString, MethodFrom;
    if CString(name) == [] {
      UnknownMethodExactly(name);
      assert !IsMethodName([]) by {
        NoEmptyName();
      }
    }
  }

  lemma NoEmptyName()
    ensures !IsMethodName([])
  {
  }

  // ----- reading and printing requests -----

  function InvalidMethod(name: bytes): (r: bytes)
    ensures |r| == 16 + |name|
  {
    Ascii("Invalid Method: ") + name
  }

  /** The part of `parse` behind the headers. */
  function FinishRequest(s: bytes, p: nat, r: Request, uninit: byte): Outcome<Request> {
    if r.methodId != POST && r.methodId != PUT then Accepted(r)
    else
      match Wire.ParseBody(s, p, r.headers, r.data, uninit)
      case Body(d) => Accepted(r.(data := d))
      case TooLong(e) => Rejected(e, r)
      case BodyFault(f) => Crashed(f)
  }

  /** The part of `parse` behind the start line. */
  function ParseFields(s: bytes, p: nat, r: Request, uninit: byte): Outcome<Request> {
    match Wire.ParseHeaders(s, p, r.headers)
    case Err(f) => Crashed(f)
    case Ok((h, q)) => FinishRequest(s, q, r.(headers := h), uninit)
  }

  /** `parse` of the bytes s from p on, into a request whose fields were r0. */
  function ParseRequest(s: bytes, p: nat, r0: Request, uninit: byte): Outcome<Request> {
    var (name, p1) := Wire.Token(s, p, SPACE);
    var (uri, p2) := Wire.Token(s, p1, SPACE);
    var (version, p3) := Wire.GetLine(s, p2);
    var r1 := r0.(methodId := MethodId(name), uri := uri, version := version);
    if r1.methodId == -1 then Rejected(InvalidMethod(name), r1)
    else ParseFields(s, p3, r1, uninit)
  }

  /** What `create` prints; the data goes out whatever the headers say about it. */
  ghost function RequestText(r: Request): bytes {
    Wire.StartLine(MethodName(r.methodId), r.uri, r.version) + (Wire.PrintedHeaders(r.headers) + r.data)
  }

  /** The requests that survive printing and parsing. */
  predicate Printable(r: Request) {
    0 <= r.methodId < NUM_METHODS && Free(r.uri, Stops(SPACE, NUL)) && Free(r.version, EOL) &&
    Wire.PrintableHeaders(r.headers) &&
    if r.methodId == POST || r.methodId == PUT then Wire.BodyMatches(r.headers, r.data) else r.data == []
  }

  // ----- theorems -----

  /** The request as it goes out. */
  lemma RequestTextExactly(r: Request)
    ensures RequestText(r) ==
            MethodName(r.methodId) + Ascii(" ") + r.uri + Ascii(" ") + r.version + Ascii("\r\n") +
            (Wire.PrintedHeaders(r.headers) + r.data)
  {
    Wire.StartLineText(MethodName(r.methodId), r.uri, r.version);
    Characters();
    assert Ascii(" ") == [SPACE];
  }

  /** Any bytes begin with these two tokens and this line, which are there or not. */
  ghost predicate StartsWith(s: bytes, p: nat, name: bytes, uri: bytes, version: bytes, q: nat) {
    exists p1, p2 ::
      Wire.IsToken(s, p, SPACE, name, p1) && Wire.IsToken(s, p1, SPACE, uri, p2) && Wire.IsLine(s, p2, version, q)
  }

  /** They are what `parse` reads first. */
  lemma StartIsRead(s: bytes, p: nat, name: bytes, uri: bytes, version: bytes, q: nat)
    requires StartsWith(s, p, name, uri, version, q)
    ensures var (_, p1) := Wire.Token(s, p, SPACE); var (_, p2) := Wire.Token(s, p1, SPACE);
            Wire.Token(s, p, SPACE).0 == name && Wire.Token(s, p1, SPACE).0 == uri && Wire.GetLine(s, p2) == (version, q)
    ensures MethodId(name) == -1 <==> !IsMethodName(name)
  {
    hide Wire.Token, Wire.GetLine, Wire.IsLine, MethodId, IsMethodName, Wire.IsToken;
    var p1, p2 :| Wire.IsToken(s, p, SPACE, name, p1) && Wire.IsToken(s, p1, SPACE, uri, p2) && Wire.IsLine(s, p2, version, q);
    Wire.TokenExactly(s, p, SPACE, name, p1);
    Wire.TokenExactly(s, p1, SPACE, uri, p2);
    Wire.GetLineExactly(s, p2, version, q);
    TokenIsMethod(s, p, name, p1);
  }

  /** From any position and into any request: a first token that is no method is refused, and quoted. */
  lemma AnyUnknownMethodIsRejected(s: bytes, p: nat, r0: Request, name: bytes, uri: bytes, version: bytes, q: nat, uninit: byte)
    requires StartsWith(s, p, name, uri, version, q) && !IsMethodName(name)
    ensures ParseRequest(s, p, r0, uninit) ==
            Rejected(Ascii("Invalid Method: ") + name, r0.(methodId := -1, uri := uri, version := version))
  {
    hide Wire.Token, Wire.GetLine, MethodId, IsMethodName, StartsWith;
    StartIsRead(s, p, name, uri, version, q);
  }

  /** Behind the name of a method comes a header block; only then does the body count. */
  lemma AnyRequestParses(s: bytes, p: nat, r0: Request, name: bytes, uri: bytes, version: bytes, q: nat,
                         block: seq<seq<bytes>>, end: nat, uninit: byte)
    requires StartsWith(s, p, name, uri, version, q) && IsMethodName(name) && Wire.IsRead(s, q, block, end)
    ensures ParseRequest(s, p, r0, uninit) ==
            match Wire.AddLines(r0.headers, Wire.Lines(block))
            case Err(f) => Crashed(f)
            case Ok(h) =>
              FinishRequest(s, end, r0.(methodId := MethodId(name), uri := uri, version := version, headers := h), uninit)
  {
    hide Wire.Token, Wire.GetLine, Wire.ParseHeaders, Wire.AddLines, Wire.Lines, Wire.IsRead, MethodId, IsMethodName,
      StartsWith, FinishRequest;
    StartIsRead(s, p, name, uri, version, q);
    Wire.AnyBlockParses(s, q, block, end, r0.headers);
  }

  /** A header block that breaks off is fatal, whatever comes behind it. */
  lemma BrokenOffRequestCrashes(s: bytes, p: nat, r0: Request, name: bytes, uri: bytes, version: bytes, q: nat,
                                block: seq<seq<bytes>>, last: seq<bytes>, uninit: byte)
    requires StartsWith(s, p, name, uri, version, q) && IsMethodName(name) && Wire.BreaksOff(s, q, block, last)
    ensures ParseRequest(s, p, r0, uninit) ==
            match Wire.AddLines(r0.headers, Wire.Lines(block)) case Err(f) => Crashed(f) case Ok(_) => Crashed(Undefined)
  {
    hide Wire.Token, Wire.GetLine, Wire.ParseHeaders, Wire.AddLines, Wire.Lines, Wire.BreaksOff, MethodId, IsMethodName,
      StartsWith, FinishRequest;
    StartIsRead(s, p, name, uri, version, q);
    Wire.BrokenOffBlockFails(s, q, block, last, r0.headers);
  }

  /** Every input starts that way. */
  lemma EveryRequestStarts(s: bytes, p: nat)
    ensures exists name, uri, version, q :: StartsWith(s, p, name, uri, version, q)
  {
    hide Wire.Token, Wire.GetLine, Wire.IsLine, Wire.IsToken;
    var (name, p1) := Wire.Token(s, p, SPACE);
    var (uri, p2) := Wire.Token(s, p1, SPACE);
    var (version, q) := Wire.GetLine(s, p2);
    Wire.TokenExactly(s, p, SPACE, name, p1);
    Wire.TokenExactly(s, p1, SPACE, uri, p2);
    Wire.GetLineExactly(s, p2, version, q);
    assert StartsWith(s, p, name, uri, version, q);
  }

  lemma NamesAreShort(name: bytes)
    requires IsMethodName(name)
    ensures 0 < |name| < 10
  {
  }

  lemma TokenIsMethod(s: bytes, p: nat, name: bytes, p1: nat)
    requires Wire.IsToken(s, p, SPACE, name, p1)
    ensures MethodId(name) != -1 <==> IsMethodName(name)
  {
    hide IsMethodName, MethodId;
    Wire.TokenExactly(s, p, SPACE, name, p1);
    assert CString(name) == name;
    UnknownMethodExactly(name);
    if IsMethodName(name) {
      NamesAreShort(name);
    }
  }

  /** A request whose first token is no method name is refused with a text that ends with that token,
      whatever follows. */
  lemma UnknownMethodIsRejected(name: bytes, rest: bytes, uninit: byte)
    requires Free(name, Stops(SPACE, NUL)) && !IsMethodName(name)
    ensures var o := ParseRequest(name + [SPACE] + rest, 0, FRESH, uninit);
            o.Rejected? && o.error == Ascii("Invalid Method: ") + name
  {
    hide IsMethodName, MethodId, Wire.Token, Wire.GetLine, Wire.IsToken, Wire.IsLine, ParseRequest;
    var s := name + [SPACE] + rest;
    assert At(s, 0, name + [SPACE]);
    Wire.TokenFrames(s, 0, name, SPACE);
    EveryRequestStarts(s, 0);
    var first, uri, version, q :| StartsWith(s, 0, first, uri, version, q);
    StartIsRead(s, 0, first, uri, version, q);
    AnyUnknownMethodIsRejected(s, 0, FRESH, name, uri, version, q, uninit);
  }

  /** Only POST and PUT have a body. */
  lemma FinishExactly(s: bytes, p: nat, r: Request, uninit: byte, n: int)
    requires p <= |s|
    ensures r.methodId != POST && r.methodId != PUT ==> FinishRequest(s, p, r, uninit) == Accepted(r)
    ensures (r.methodId == POST || r.methodId == PUT) &&
            (Wire.CONTENT_LENGTH !in r.headers || r.headers[Wire.CONTENT_LENGTH] == []) ==>
              FinishRequest(s, p, r, uninit) == Accepted(r)
    ensures (r.methodId == POST || r.methodId == PUT) && AnnouncesLength(r.headers, n) ==>
              IsBodyOutcome(FinishRequest(s, p, r, uninit), r, s[p..], n, uninit)
    ensures (r.methodId == POST || r.methodId == PUT) && AnnouncesNoInt(r.headers) ==>
              FinishRequest(s, p, r, uninit) == Crashed(Undefined)
  {
    hide Atoi, Wire.ParseBody;
    Wire.BodyWithoutLength(s, p, r.headers, r.data, uninit);
    if AnnouncesLength(r.headers, n) {
      Wire.BodyExactly(s, p, r.headers, r.data, uninit, n);
    }
  }

  /** The headers have a Content-Length that `atoi` reads as n. */
  predicate AnnouncesLength(h: Headers, n: int) {
    Wire.CONTENT_LENGTH in h && h[Wire.CONTENT_LENGTH] != [] && Atoi(h[Wire.CONTENT_LENGTH]) == Some(n)
  }

  predicate AnnouncesNoInt(h: Headers) {
    Wire.CONTENT_LENGTH in h && h[Wire.CONTENT_LENGTH] != [] && Atoi(h[Wire.CONTENT_LENGTH]) == None
  }

  /** What becomes of a request r with the announced length n when `rest` is left: accepted with the rest,
      or with one byte of fresh memory more; refused when n is negative or larger; out of bounds when smaller. */
  predicate IsBodyOutcome(o: Outcome<Request>, r: Request, rest: bytes, n: int, uninit: byte) {
    (o.Accepted? <==> n == |rest| || n == |rest| + 1) &&
    (o.Rejected? <==> n < 0 || n > |rest| + 1) &&
    (n == |rest| ==> o == Accepted(r.(data := rest))) &&
    (n == |rest| + 1 ==> o == Accepted(r.(data := rest + [uninit]))) &&
    (o.Rejected? ==>
       o.value == r && Wire.CONTENT_LENGTH in r.headers &&
       Wire.IsTooLongText(o.error, r.headers[Wire.CONTENT_LENGTH], |rest|)) &&
    (0 <= n < |rest| ==> o == Crashed(Undefined))
  }

  /** A POST or PUT is decided by its Content-Length and what follows its head. */
  lemma LengthDecides(head: bytes, rest: bytes, r: Request, uninit: byte, n: int)
    requires IsHead(head, r) && r.data == [] && (r.methodId == POST || r.methodId == PUT)
    requires AnnouncesLength(r.headers, n)
    ensures IsBodyOutcome(ParseRequest(head + rest, 0, FRESH, uninit), r, rest, n, uninit)
  {
    hide IsHead, ParseRequest, FinishRequest, IsBodyOutcome, AnnouncesLength;
    WholeHeadParses(head, rest, r, uninit);
    FinishExactly(head + rest, |head|, r, uninit, n);
    assert (head + rest)[|head|..] == rest;
  }

  /** A request head in the grammar is taken apart into its start line and the fold of its header
      lines, whatever follows it; only then does the body count. A blank value in it is fatal. */
  lemma HeadParses(s: bytes, id: int, uri: bytes, version: bytes, block: seq<seq<bytes>>, uninit: byte)
    requires 0 <= id < NUM_METHODS && Free(uri, Stops(SPACE, NUL)) && Free(version, EOL) && Wire.IsBlock(block)
    requires At(s, 0, Wire.StartLine(MethodName(id), uri, version) + Wire.BlockText(block))
    ensures var n := |Wire.StartLine(MethodName(id), uri, version) + Wire.BlockText(block)|;
            n <= |s| &&
            ParseRequest(s, 0, FRESH, uninit) ==
            match Wire.AddLines(map[], Wire.Lines(block))
            case Err(f) => Crashed(f)
            case Ok(h) => FinishRequest(s, n, Request(id, uri, version, h, []), uninit)
  {
    hide At, Wire.Token, Wire.GetLine, Wire.ParseHeaders, Wire.StartLine, Wire.BlockText, MethodName, MethodId,
      FinishRequest, Wire.AddLines, Wire.Lines, Wire.IsBlock;
    var line := Wire.StartLine(MethodName(id), uri, version);
    AtSplit(s, 0, line, Wire.BlockText(block));
    MethodNames(id);
    Wire.StartLineParses(s, 0, MethodName(id), uri, version);
    Wire.BlockParses(s, |line|, block, map[]);
  }

  /** The bytes are a request head in the grammar, with the start line and the headers of r. */
  ghost predicate IsHead(head: bytes, r: Request) {
    0 <= r.methodId < NUM_METHODS && Free(r.uri, Stops(SPACE, NUL)) && Free(r.version, EOL) &&
    exists block ::
      Wire.IsBlock(block) && Wire.AddLines(map[], Wire.Lines(block)) == Ok(r.headers) &&
      head == Wire.StartLine(MethodName(r.methodId), r.uri, r.version) + Wire.BlockText(block)
  }

  /** A head and what follows it are parsed as the head's fields and then the body. */
  lemma WholeHeadParses(head: bytes, rest: bytes, r: Request, uninit: byte)
    requires IsHead(head, r) && r.data == []
    ensures ParseRequest(head + rest, 0, FRESH, uninit) == FinishRequest(head + rest, |head|, r, uninit)
  {
    hide Wire.StartLine, Wire.BlockText, Wire.AddLines, Wire.Lines, ParseRequest, FinishRequest;
    var block :| Wire.IsBlock(block) && Wire.AddLines(map[], Wire.Lines(block)) == Ok(r.headers) &&
                 head == Wire.StartLine(MethodName(r.methodId), r.uri, r.version) + Wire.BlockText(block);
    assert At(head + rest, 0, head) by {
      assert (head + rest)[0..|head|] == head;
    }
    HeadParses(head + rest, r.methodId, r.uri, r.version, block, uninit);
  }

  /** Printed requests are parsed back. */
  lemma PrintedParses(r: Request, uninit: byte)
    requires Printable(r)
    ensures ParseRequest(RequestText(r), 0, FRESH, uninit) == Accepted(r)
  {
    hide At, Wire.Token, Wire.GetLine, Wire.ParseHeaders, Wire.StartLine, Wire.PrintedHeaders, MethodName, MethodId;
    var s := RequestText(r);
    var line, headers := Wire.StartLine(MethodName(r.methodId), r.uri, r.version), Wire.PrintedHeaders(r.headers);
    var n := |line| + |headers|;
    Layout(line, headers, r.data);
    MethodNames(r.methodId);
    Wire.StartLineParses(s, 0, MethodName(r.methodId), r.uri, r.version);
    Wire.PrintedHeadersParse(s, |line|, r.headers);
    if r.methodId == POST || r.methodId == PUT {
      Wire.MatchingBodyParses(s, n, r.headers, r.data, uninit);
    }
  }

  /** Whatever bytes it comes from, an accepted request is printable. */
  lemma AcceptedIsPrintable(s: bytes, p: nat, r: Request, uninit: byte)
    requires ParseRequest(s, p, FRESH, uninit) == Accepted(r)
    ensures Printable(r)
  {
    if p <= |s| {
      var (name, p1) := Wire.Token(s, p, SPACE);
      var (uri, p2) := Wire.Token(s, p1, SPACE);
      var (version, p3) := Wire.GetLine(s, p2);
      Wire.ParsedIsPrintable(s, p3, map[]);
      var (h, p4) := Wire.ParseHeaders(s, p3, map[]).value;
      Wire.ParsedBodyMatches(s, p4, h, uninit);
    }
  }

  /** Printed and parsed, the request comes back, whatever fresh memory holds. */
  ghost predicate Survives(r: Request) {
    forall uninit :: ParseRequest(RequestText(r), 0, FRESH, uninit) == Accepted(r)
  }

  /** Printing and parsing gives a request back exactly when the request is printable. */
  lemma RoundTripExactly(r: Request)
    ensures Survives(r) <==> Printable(r)
  {
    hide ParseRequest, RequestText, Printable;
    if Printable(r) {
      forall uninit
        ensures ParseRequest(RequestText(r), 0, FRESH, uninit) == Accepted(r)
      {
        PrintedParses(r, uninit);
      }
    }
    if Survives(r) {
      assert ParseRequest(RequestText(r), 0, FRESH, 0) == Accepted(r);
      AcceptedIsPrintable(RequestText(r), 0, r, 0);
    }
  }

  /** Some byte string parses to the request. */
  ghost predicate IsParsed(r: Request) {
    exists s, p: nat, uninit :: ParseRequest(s, p, FRESH, uninit) == Accepted(r)
  }

  /** Normalisation: what any accepted byte string parses to, printed again, parses to the same request;
      and nothing else does. */
  lemma Normalisation(r: Request)
    ensures IsParsed(r) <==> Survives(r)
  {
    hide ParseRequest, RequestText, Printable;
    if IsParsed(r) {
      var s, p: nat, uninit :| ParseRequest(s, p, FRESH, uninit) == Accepted(r);
      AcceptedIsPrintable(s, p, r, uninit);
      RoundTripExactly(r);
    }
    if Survives(r) {
      assert ParseRequest(RequestText(r), 0, FRESH, 0) == Accepted(r);
    }
  }

  /** Among printable requests the text determines the request. */
  lemma TextDeterminesRequest(a: Request, b: Request)
    requires Printable(a) && Printable(b) && RequestText(a) == RequestText(b)
    ensures a == b
  {
    PrintedParses(a, 0);
    PrintedParses(b, 0);
  }

  // ----- the class -----

  class HTTPRequest {
    const message: HTTPMessage
    var methodId: int
    var requestUri: bytes

    ghost function Value(): Request
      reads this, message
    {
      Request(methodId, requestUri, message.version, message.headers, message.data)
    }

    constructor ()
      ensures fresh(message) && fresh(message.buffer)
      ensures Value() == FRESH && message.buffer.State() == BufferState([], 0, 0)
    {
      message := new HTTPMessage();
      methodId, requestUri := 0, [];
    }

    constructor Receive(pData: array<byte>, len: nat)
      requires len <= pData.Length
      ensures fresh(message) && fresh(message.buffer)
      ensures Value() == FRESH && message.parseErrorStr == []
      ensures message.buffer.State() == BufferState(pData[..len], 0, len)
    {
      message := new HTTPMessage.Receive(pData, len);
      methodId, requestUri := 0, [];
    }

    method MethodStrToInt(name: bytes) returns (ret: int)
      ensures ret == MethodId(name)
    {
      if name == [] || |name| >= 10 {
        return -1;
      }
      ret := -1;
      var i := 0;
      while i < NUM_METHODS
        invariant 0 <= i <= NUM_METHODS && ret == -1
        invariant MethodFrom(CString(name), 0) == MethodFrom(CString(name), i)
      {
        if METHOD_NAMES[i] == CString(name) {
          return i;
        }
        i := i + 1;
      }
    }

    /** Prints the request into its cleared buffer and returns a copy of the bytes; null for an unknown method. */
    method Create() returns (ret: array?<byte>)
      modifies message.buffer
      ensures ret == null <==> !(0 <= methodId < NUM_METHODS)
      ensures ret == null ==> message.buffer.State() == BufferState([], 0, 0)
      ensures ret != null ==>
                fresh(ret) && ret[..] == RequestText(Value()) &&
                message.buffer.State() == BufferState(ret[..], ret.Length, ret.Length)
    {
      var mstr := MethodName(methodId);
      if mstr == [] {
        message.buffer.Clear();
        if 0 <= methodId < NUM_METHODS {
          MethodNames(methodId);
        }
        return null;
      }
      ret := message.Print(mstr + [SPACE] + requestUri + [SPACE] + message.version);
      Wire.StartLineText(mstr, requestUri, message.version);
    }

    method Parse(uninit: byte) returns (verdict: Verdict)
      requires |message.buffer.buf| < INT_MAX
      modifies this, message, message.buffer`rpos
      ensures old(message.buffer.rpos) <= |message.buffer.buf| ==> message.buffer.rpos <= |message.buffer.buf|
      ensures match ParseRequest(message.buffer.buf, old(message.buffer.rpos), old(Value()), uninit)
              case Accepted(r) => verdict == Accept && Value() == r && message.parseErrorStr == old(message.parseErrorStr)
              case Rejected(e, r) => verdict == Reject && Value() == r && message.parseErrorStr == e
              case Crashed(f) => verdict == Crash(f)
    {
      hide Wire.Token, Wire.GetLine, Wire.ParseHeaders, Wire.ParseBody, MethodId;
      var methodName := message.GetStrElement(SPACE);
      requestUri := message.GetStrElement(SPACE);
      message.version := message.GetLine();
      methodId := MethodStrToInt(methodName);
      if methodId == -1 {
        message.parseErrorStr := InvalidMethod(methodName);
        return Reject;
      }
      var fault := message.ParseHeaders();
      if fault.Some? {
        return Crash(fault.value);
      }
      if methodId != POST && methodId != PUT {
        return Accept;
      }
      verdict := message.ParseBody(uninit);
    }
  }
}

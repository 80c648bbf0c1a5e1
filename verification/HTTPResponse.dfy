/** Responses: the printer, the parser, and the exact condition under which they undo each other. */
module Responses {
  import opened Bytes
  import opened Numbers
  import opened ByteBuffers
  import opened Messages
  import Wire

  const CONTINUE := 100
  const OK := 200
  const BAD_REQUEST := 400
  const NOT_FOUND := 404
  const SERVER_ERROR := 500
  const NOT_IMPLEMENTED := 501

  datatype Response = Response(status: int, reason: bytes, version: bytes, headers: Headers, data: bytes)

  /** The fields of a new response object. */
  const FRESH := Response(0, [], DEFAULT_VERSION, map[], [])

  /** `determineReasonStr`: an unknown code leaves the reason as it was. */
  function ReasonFor(status: int, reason: bytes): bytes {
    match status
    case 100 => Ascii("Continue")
    case 200 => Ascii("OK")
    case 400 => Ascii("Bad Request")
    case 404 => Ascii("Not Found")
    case 500 => Ascii("Internal Server Error")
    case 501 => Ascii("Not Implemented")
    case _ => reason
  }

  /** `determineStatusCode`: an unknown reason leaves the code as it was. */
  function StatusFor(reason: bytes, status: int): int {
    if Contains(reason, Ascii("Continue")) then CONTINUE
    else if Contains(reason, Ascii("OK")) then OK
    else if Contains(reason, Ascii("Bad Request")) then BAD_REQUEST
    else if Contains(reason, Ascii("Not Found")) then NOT_FOUND
    else if Contains(reason, Ascii("Server Error")) then SERVER_ERROR
    else if Contains(reason, Ascii("Not Implemented")) then NOT_IMPLEMENTED
    else status
  }

  // ----- reading and printing responses -----

  /** `parse` of the bytes s from p on, into a response whose fields were r0. The status is
      determined from the reason of r0, before the new reason is read. */
  function ParseResponse(s: bytes, p: nat, r0: Response, uninit: byte): Outcome<Response> {
    var (version, p1) := Wire.Token(s, p, SPACE);
    var (_, p2) := Wire.Token(s, p1, SPACE);
    var (reason, p3) := Wire.GetLine(s, p2);
    var r1 := r0.(status := StatusFor(r0.reason, r0.status), reason := reason, version := version);
    match Wire.ParseHeaders(s, p3, r0.headers)
    case Err(f) => Crashed(f)
    case Ok((h, p4)) =>
      match Wire.ParseBody(s, p4, h, r0.data, uninit)
      case Body(d) => Accepted(r1.(headers := h, data := d))
      case TooLong(e) => Rejected(e, r1.(headers := h))
      case BodyFault(f) => Crashed(f)
  }

  /** What `create` prints. */
  ghost function ResponseText(r: Response): bytes {
    Wire.StartLine(r.version, DecimalInt(r.status), r.reason) + (Wire.PrintedHeaders(r.headers) + r.data)
  }

  /** The responses that survive printing and parsing, but for their status. */
  predicate Printable(r: Response) {
    Free(r.version, Stops(SPACE, NUL)) && Free(r.reason, EOL) &&
    Wire.PrintableHeaders(r.headers) && Wire.BodyMatches(r.headers, r.data)
  }

  // ----- statuses and reasons -----

  /** The six reasons, and only these codes have one. */
  lemma ReasonLiterals(status: int, reason: bytes)
    ensures ReasonFor(100, reason) == Ascii("Continue") && ReasonFor(200, reason) == Ascii("OK")
    ensures ReasonFor(400, reason) == Ascii("Bad Request") && ReasonFor(404, reason) == Ascii("Not Found")
    ensures ReasonFor(500, reason) == Ascii("Internal Server Error")
    ensures ReasonFor(501, reason) == Ascii("Not Implemented")
    ensures status !in {100, 200, 400, 404, 500, 501} ==> ReasonFor(status, reason) == reason
  {
  }

  /** The first of the texts that stands in a reason. */
  predicate IsFirstIn(reason: bytes, texts: seq<bytes>, i: nat) {
    i <= |texts| && (i < |texts| ==> Contains(reason, texts[i])) && forall j :: 0 <= j < i ==> !Contains(reason, texts[j])
  }

  /** The status is that of the first known text that stands in the reason, in this order; without any of
      them it stays. */
  lemma StatusExactly(reason: bytes, status: int, i: nat)
    requires IsFirstIn(reason, [Ascii("Continue"), Ascii("OK"), Ascii("Bad Request"), Ascii("Not Found"),
                                Ascii("Server Error"), Ascii("Not Implemented")], i)
    ensures StatusFor(reason, status) == [100, 200, 400, 404, 500, 501, status][i]
  {
    hide Contains, Ascii;
    var texts := [Ascii("Continue"), Ascii("OK"), Ascii("Bad Request"), Ascii("Not Found"),
                  Ascii("Server Error"), Ascii("Not Implemented")];
    assert i > 0 ==> !Contains(reason, texts[0]);
    assert i > 1 ==> !Contains(reason, texts[1]);
    assert i > 2 ==> !Contains(reason, texts[2]);
    assert i > 3 ==> !Contains(reason, texts[3]);
    assert i > 4 ==> !Contains(reason, texts[4]);
    assert i > 5 ==> !Contains(reason, texts[5]);
  }

  /** The number that stands in the text's second token. */
  function PrintedStatus(text: bytes): Option<int> {
    var (_, p) := Wire.Token(text, 0, SPACE);
    Atoi(Wire.Token(text, p, SPACE).0)
  }

  /** A printed response. */
  lemma ResponseTextExactly(r: Response)
    ensures ResponseText(r) ==
            r.version + Ascii(" ") + DecimalInt(r.status) + Ascii(" ") + r.reason + Ascii("\r\n") +
            (Wire.PrintedHeaders(r.headers) + r.data)
  {
    Wire.StartLineText(r.version, DecimalInt(r.status), r.reason);
    Characters();
    assert Ascii(" ") == [SPACE];
  }

  lemma DecimalIsToken(n: int)
    ensures Free(DecimalInt(n), Stops(SPACE, NUL))
  {
  }

  /** The status goes out: behind the version stands a token that `atoi` reads as the status. */
  lemma StatusIsPrinted(r: Response)
    requires Free(r.version, Stops(SPACE, NUL)) && INT_MIN <= r.status <= INT_MAX
    ensures Wire.Token(ResponseText(r), |r.version| + 1, SPACE).0 == DecimalInt(r.status)
    ensures Atoi(Wire.Token(ResponseText(r), |r.version| + 1, SPACE).0) == Some(r.status)
    ensures PrintedStatus(ResponseText(r)) == Some(r.status)
  {
    hide At, Wire.Token, Wire.StartLine, Atoi, DecimalInt, Wire.PrintedHeaders, ResponseText;
    var status, text := DecimalInt(r.status), ResponseText(r);
    assert At(text, 0, r.version + [SPACE]) && At(text, |r.version| + 1, status + [SPACE]) by {
      ResponseTextExactly(r);
      assert Ascii(" ") == [SPACE];
      StatusStands(text, r.version, status, r.reason + Ascii("\r\n") + (Wire.PrintedHeaders(r.headers) + r.data));
    }
    DecimalIsToken(r.status);
    Wire.TokenFrames(text, 0, r.version, SPACE);
    Wire.TokenFrames(text, |r.version| + 1, status, SPACE);
    AtoiReadsDecimal(r.status);
  }

  lemma StatusStands(text: bytes, version: bytes, status: bytes, rest: bytes)
    requires text == version + [SPACE] + status + [SPACE] + rest
    ensures At(text, 0, version + [SPACE]) && At(text, |version| + 1, status + [SPACE])
  {
    Layout(version + [SPACE], status + [SPACE], rest);
    assert text == version + [SPACE] + (status + [SPACE] + rest);
  }

  // ----- theorems -----

  /** How any bytes are taken apart, from any position and into any response: the second token is dropped,
      the status comes from the reason before, and a header block is followed by the body. */
  lemma AnyResponseParses(s: bytes, p: nat, r0: Response, version: bytes, dropped: bytes, reason: bytes,
                          p1: nat, p2: nat, q: nat, block: seq<seq<bytes>>, end: nat, uninit: byte)
    requires Wire.IsToken(s, p, SPACE, version, p1) && Wire.IsToken(s, p1, SPACE, dropped, p2)
    requires Wire.IsLine(s, p2, reason, q) && Wire.IsRead(s, q, block, end)
    ensures ParseResponse(s, p, r0, uninit) ==
            match Wire.AddLines(r0.headers, Wire.Lines(block))
            case Err(f) => Crashed(f)
            case Ok(h) =>
              var r := r0.(status := StatusFor(r0.reason, r0.status), reason := reason, version := version, headers := h);
              match Wire.ParseBody(s, end, h, r0.data, uninit)
              case Body(d) => Accepted(r.(data := d))
              case TooLong(e) => Rejected(e, r)
              case BodyFault(f) => Crashed(f)
  {
    hide Wire.Token, Wire.GetLine, Wire.ParseHeaders, Wire.ParseBody, Wire.IsLine, Wire.IsRead, Wire.AddLines, Wire.Lines,
      Wire.IsToken, StatusFor;
    Wire.TokenExactly(s, p, SPACE, version, p1);
    Wire.TokenExactly(s, p1, SPACE, dropped, p2);
    Wire.GetLineExactly(s, p2, reason, q);
    Wire.AnyBlockParses(s, q, block, end, r0.headers);
  }

  /** The header block of a response may break off, too. */
  lemma BrokenOffResponseCrashes(s: bytes, p: nat, r0: Response, version: bytes, dropped: bytes, reason: bytes,
                                 p1: nat, p2: nat, q: nat, block: seq<seq<bytes>>, last: seq<bytes>, uninit: byte)
    requires Wire.IsToken(s, p, SPACE, version, p1) && Wire.IsToken(s, p1, SPACE, dropped, p2)
    requires Wire.IsLine(s, p2, reason, q) && Wire.BreaksOff(s, q, block, last)
    ensures ParseResponse(s, p, r0, uninit) ==
            match Wire.AddLines(r0.headers, Wire.Lines(block)) case Err(f) => Crashed(f) case Ok(_) => Crashed(Undefined)
  {
    hide Wire.Token, Wire.GetLine, Wire.ParseHeaders, Wire.ParseBody, Wire.IsLine, Wire.BreaksOff, Wire.AddLines, Wire.Lines,
      Wire.IsToken, StatusFor;
    Wire.TokenExactly(s, p, SPACE, version, p1);
    Wire.TokenExactly(s, p1, SPACE, dropped, p2);
    Wire.GetLineExactly(s, p2, reason, q);
    Wire.BrokenOffBlockFails(s, q, block, last, r0.headers);
  }

  // ----- printing and parsing undo each other -----

  /** A new object's empty reason names no status, so a parsed response keeps status 0. */
  lemma FreshStatus()
    ensures StatusFor([], 0) == 0
  {
  }

  lemma PrintedParses(r: Response, uninit: byte)
    requires Printable(r)
    ensures ParseResponse(ResponseText(r), 0, FRESH, uninit) == Accepted(r.(status := 0))
  {
    hide At, Wire.Token, Wire.GetLine, Wire.ParseHeaders, Wire.StartLine, Wire.PrintedHeaders, StatusFor,
      Wire.ParseBody, Wire.BodyMatches, Wire.PrintableHeaders, DecimalInt;
    var s := ResponseText(r);
    var status := DecimalInt(r.status);
    var line, headers := Wire.StartLine(r.version, status, r.reason), Wire.PrintedHeaders(r.headers);
    Layout(line, headers, r.data);
    FreshStatus();
    Wire.StartLineParses(s, 0, r.version, status, r.reason);
    Wire.PrintedHeadersParse(s, |line|, r.headers);
    Wire.MatchingBodyParses(s, |line| + |headers|, r.headers, r.data, uninit);
  }

  lemma AcceptedIsPrintable(s: bytes, p: nat, r: Response, uninit: byte)
    requires ParseResponse(s, p, FRESH, uninit) == Accepted(r)
    ensures Printable(r) && r.status == 0
  {
    hide StatusFor;
    FreshStatus();
    var (version, p1) := Wire.Token(s, p, SPACE);
    var (_, p2) := Wire.Token(s, p1, SPACE);
    var (reason, p3) := Wire.GetLine(s, p2);
    Wire.ParsedIsPrintable(s, p3, map[]);
    var (h, p4) := Wire.ParseHeaders(s, p3, map[]).value;
    if p <= |s| {
      Wire.ParsedBodyMatches(s, p4, h, uninit);
    } else {
      Wire.NoHeadersNoBody(s, p3, uninit);
    }
  }

  /** Printed and parsed, version, reason, headers and body come back and the status is 0,
      whatever fresh memory holds. */
  ghost predicate Survives(r: Response) {
    forall uninit :: ParseResponse(ResponseText(r), 0, FRESH, uninit) == Accepted(r.(status := 0))
  }

  /** Printing and parsing gives version, reason, headers and body back exactly when the response is printable. */
  lemma RoundTripExactly(r: Response)
    ensures Survives(r) <==> Printable(r)
  {
    hide ParseResponse, ResponseText;
    if Printable(r) {
      forall uninit
        ensures ParseResponse(ResponseText(r), 0, FRESH, uninit) == Accepted(r.(status := 0))
      {
        PrintedParses(r, uninit);
      }
    }
    if Survives(r) {
      assert ParseResponse(ResponseText(r), 0, FRESH, 0) == Accepted(r.(status := 0));
      AcceptedIsPrintable(ResponseText(r), 0, r.(status := 0), 0);
    }
  }

  /** The status itself is lost unless it is 0. */
  lemma StatusRoundTripExactly(r: Response, uninit: byte)
    ensures ParseResponse(ResponseText(r), 0, FRESH, uninit) == Accepted(r) <==> Printable(r) && r.status == 0
  {
    hide ParseResponse, ResponseText;
    if Printable(r) {
      PrintedParses(r, uninit);
    }
    if ParseResponse(ResponseText(r), 0, FRESH, uninit) == Accepted(r) {
      AcceptedIsPrintable(ResponseText(r), 0, r, uninit);
    }
  }

  /** Some byte string parses to the response. */
  ghost predicate IsParsed(r: Response) {
    exists s, p: nat, uninit :: ParseResponse(s, p, FRESH, uninit) == Accepted(r)
  }

  /** Normalisation: what any accepted byte string parses to has status 0 and, printed again, parses to
      the same response; and nothing else does. */
  lemma Normalisation(r: Response)
    ensures IsParsed(r) <==> Survives(r) && r.status == 0
  {
    hide ParseResponse, ResponseText, Printable;
    if IsParsed(r) {
      var s, p: nat, uninit :| ParseResponse(s, p, FRESH, uninit) == Accepted(r);
      AcceptedIsPrintable(s, p, r, uninit);
      RoundTripExactly(r);
    }
    if Survives(r) && r.status == 0 {
      assert ParseResponse(ResponseText(r), 0, FRESH, 0) == Accepted(r.(status := 0));
    }
  }

  // ----- the class -----

  class HTTPResponse {
    const message: HTTPMessage
    var status: int
    var reason: bytes

    ghost function Value(): Response
      reads this, message
    {
      Response(status, reason, message.version, message.headers, message.data)
    }

    constructor ()
      ensures fresh(message) && fresh(message.buffer)
      ensures Value() == FRESH && message.buffer.State() == BufferState([], 0, 0)
    {
      message := new HTTPMessage();
      status, reason := 0, [];
    }

    constructor Receive(pData: array<byte>, len: nat)
      requires len <= pData.Length
      ensures fresh(message) && fresh(message.buffer)
      ensures Value() == FRESH && message.parseErrorStr == []
      ensures message.buffer.State() == BufferState(pData[..len], 0, len)
    {
      message := new HTTPMessage.Receive(pData, len);
      status, reason := 0, [];
    }

    method SetStatus(scode: int)
      modifies this
      ensures status == scode && reason == ReasonFor(scode, old(reason))
    {
      status := scode;
      reason := ReasonFor(scode, reason);
    }

    method SetData(d: bytes)
      modifies message`data
      ensures message.data == d
    {
      message.data := d;
    }

    method Create() returns (ret: array<byte>)
      modifies message.buffer
      ensures fresh(ret) && ret[..] == ResponseText(Value())
      ensures message.buffer.State() == BufferState(ret[..], ret.Length, ret.Length)
    {
      var sline := message.version + [SPACE] + DecimalInt(status) + [SPACE] + reason;
      ret := message.Print(sline);
      Wire.StartLineText(message.version, DecimalInt(status), reason);
    }

    method Parse(uninit: byte) returns (verdict: Verdict)
      requires |message.buffer.buf| < INT_MAX
      modifies this, message, message.buffer`rpos
      ensures old(message.buffer.rpos) <= |message.buffer.buf| ==> message.buffer.rpos <= |message.buffer.buf|
      ensures match ParseResponse(message.buffer.buf, old(message.buffer.rpos), old(Value()), uninit)
              case Accepted(r) => verdict == Accept && Value() == r && message.parseErrorStr == old(message.parseErrorStr)
              case Rejected(e, r) => verdict == Reject && Value() == r && message.parseErrorStr == e
              case Crashed(f) => verdict == Crash(f)
    {
      hide Wire.Token, Wire.GetLine, Wire.ParseHeaders, Wire.ParseBody, StatusFor;
      message.version := message.GetStrElement(SPACE);
      var statusstr := message.GetStrElement(SPACE);
      status := StatusFor(reason, status);
      reason := message.GetLine();
      var fault := message.ParseHeaders();
      if fault.Some? {
        return Crash(fault.value);
      }
      verdict := message.ParseBody(uninit);
    }
  }
}

/** From the bytes one `recv` delivers to the bytes that are queued. */
module EndToEnd {
  import opened Bytes
  import opened Numbers
  import opened Messages
  import opened Clients
  import opened Reading
  import opened Answers
  import opened AnswerTexts
  import opened ServerRuns
  import Requests
  import Responses
  import Wire

  /** The text of a request that does not ask for a "100 Continue". */
  predicate IsPlain(s: bytes) {
    0 < |s| < DATA_LEN && !Contains(CString(s), Ascii("Expect: 100-continue"))
  }

  /** The queue of client fd grows by one item, and nothing else changes. */
  ghost predicate Queues(st: ServerState, next: Next, fd: int, item: SendQueueItem) {
    fd in st.clients && next == Running(st.(clients := st.clients[fd := st.clients[fd] + [item]]))
  }

  /** The bytes begin with a request head in the grammar that has these fields; `rest` follows. */
  ghost predicate BeginsWith(s: bytes, name: bytes, uri: bytes, version: bytes, h: Headers, rest: bytes) {
    Free(uri, Stops(SPACE, NUL)) && Free(version, EOL) &&
    exists block ::
      Wire.IsBlock(block) && Wire.AddLines(map[], Wire.Lines(block)) == Ok(h) &&
      s == name + Ascii(" ") + uri + Ascii(" ") + version + Ascii("\r\n") + Wire.BlockText(block) + rest
  }

  /** A request that one `recv` delivers is answered as a whole, whatever else would come. */
  lemma PlainRequestIsHandled(st: ServerState, fd: int, s: Chunk, more: seq<Recv>, uninit: byte)
    requires fd in st.clients && IsPlain(s)
    ensures var (a, next) := (AnswerTo(s, uninit), Step(st, Readable(fd, Received(s), more, uninit)));
            (a.Abort? ==> next == Halted) && (a.Silence? ==> next == Running(st)) &&
            (a.Send? ==> Queues(st, next, fd, Item(a)))
  {
    hide ReadRequest, AnswerTo, Item, Contains, CString;
    PlainReadExactly(s, more, uninit);
    ServedExactly(st, fd, Received(s), more, uninit);
  }

  /** A failed `recv`, or one that returns nothing, disconnects the client. */
  lemma HangupIsHandled(st: ServerState, fd: int, first: Recv, more: seq<Recv>, uninit: byte)
    requires fd in st.clients && (first.Failed? || first.data == [])
    ensures Step(st, Readable(fd, first, more, uninit)) ==
            Running(ServerState(st.listenSocket, st.watched - {fd}, st.clients - {fd}, st.maxfd))
  {
    hide ReadRequest, AnswerTo, Item;
    HangupExactly(first, more, uninit);
    ServedExactly(st, fd, first, more, uninit);
  }

  lemma HeadIsParsed(s: bytes, id: int, uri: bytes, version: bytes, h: Headers, rest: bytes, uninit: byte)
    requires 0 <= id < 9 && BeginsWith(s, Requests.MethodName(id), uri, version, h, rest)
    ensures |rest| <= |s| && s[|s| - |rest|..] == rest
    ensures Parsed(s, uninit) ==
            Requests.FinishRequest(s, |s| - |rest|, Requests.Request(id, uri, version, h, []), uninit)
  {
    hide Wire.IsBlock, Wire.AddLines, Wire.Lines, Wire.BlockText, Wire.StartLine, Requests.ParseRequest, Requests.FinishRequest,
      Requests.MethodName;
    var name := Requests.MethodName(id);
    var block :| Wire.IsBlock(block) && Wire.AddLines(map[], Wire.Lines(block)) == Ok(h) &&
                 s == name + Ascii(" ") + uri + Ascii(" ") + version + Ascii("\r\n") + Wire.BlockText(block) + rest;
    Wire.StartLineText(name, uri, version);
    Characters();
    assert Ascii(" ") == [SPACE];
    var head := Wire.StartLine(name, uri, version) + Wire.BlockText(block);
    assert s == head + rest && s[..|head|] == head;
    Requests.HeadParses(s, id, uri, version, block, uninit);
  }

  /** TRACE: the answer is a message whose body is what was received, to the byte. */
  lemma TraceIsEchoed(st: ServerState, fd: int, s: Chunk, uri: bytes, version: bytes, h: Headers, rest: bytes,
                      more: seq<Recv>, uninit: byte)
    requires fd in st.clients && IsPlain(s) && BeginsWith(s, Ascii("TRACE"), uri, version, h, rest)
    ensures var item := LastItem(200, Ascii("OK"), Ascii("message/http"), s);
            Queues(st, Step(st, Readable(fd, Received(s), more, uninit)), fd, item) && CarriesBody(item.data, s)
  {
    hide IsPlain, BeginsWith, Requests.ParseRequest, AnswerTo, Item, Step, Queues, Ascii, LastItem, LastAnswer,
      CarriesBody, Requests.MethodName;
    Requests.NameLiterals(0);
    HeadIsParsed(s, Requests.TRACE, uri, version, h, rest, uninit);
    PlainRequestIsHandled(st, fd, s, more, uninit);
    TraceIsAnswered(s, uninit);
    TraceEchoes(s, uninit);
    LastAnswerText(200, Ascii("OK"), Ascii("message/http"), s);
  }

  /** OPTIONS: the answer is the list of allowed methods. */
  lemma OptionsAreListed(st: ServerState, fd: int, s: Chunk, uri: bytes, version: bytes, h: Headers, rest: bytes,
                         more: seq<Recv>, uninit: byte)
    requires fd in st.clients && IsPlain(s) && BeginsWith(s, Ascii("OPTIONS"), uri, version, h, rest)
    ensures Queues(st, Step(st, Readable(fd, Received(s), more, uninit)), fd, MethodListItem())
  {
    hide IsPlain, BeginsWith, Requests.ParseRequest, AnswerTo, Item, Step, Queues, Ascii, MethodListItem, MethodList,
      Requests.MethodName;
    Requests.NameLiterals(0);
    HeadIsParsed(s, Requests.OPTIONS, uri, version, h, rest, uninit);
    PlainRequestIsHandled(st, fd, s, more, uninit);
    OptionsIsAnswered(s, uninit);
    MethodListText();
  }

  /** GET and HEAD change nothing. */
  lemma GetIsIgnored(st: ServerState, fd: int, s: Chunk, uri: bytes, version: bytes, h: Headers, rest: bytes,
                     more: seq<Recv>, uninit: byte)
    requires fd in st.clients && IsPlain(s)
    requires BeginsWith(s, Ascii("GET"), uri, version, h, rest) || BeginsWith(s, Ascii("HEAD"), uri, version, h, rest)
    ensures Step(st, Readable(fd, Received(s), more, uninit)) == Running(st)
  {
    hide IsPlain, BeginsWith, Requests.ParseRequest, AnswerTo, Item, Step, Queues, Ascii, Requests.MethodName;
    Requests.NameLiterals(0);
    if BeginsWith(s, Ascii("GET"), uri, version, h, rest) {
      HeadIsParsed(s, Requests.GET, uri, version, h, rest, uninit);
    } else {
      HeadIsParsed(s, Requests.HEAD, uri, version, h, rest, uninit);
    }
    OthersAreNotAnswered(s, uninit);
    PlainRequestIsHandled(st, fd, s, more, uninit);
  }

  /** The queued answer to a refused request: its error text behind the reason, zero-filled from its first NUL on. */
  ghost predicate IsRefusal(item: SendQueueItem, error: bytes) {
    exists data ::
      IsZeroFilled(data, Ascii("Bad Request") + Ascii(": ") + error) &&
      item == LastItem(400, Ascii("Bad Request"), Ascii("text/plain"), data)
  }

  ghost predicate Refuses(st: ServerState, next: Next, fd: int, error: bytes) {
    exists item :: IsRefusal(item, error) && Queues(st, next, fd, item)
  }

  lemma LastAnswerFields(status: int, reason: bytes, kind: bytes, data: bytes)
    ensures LastAnswer(status, reason, kind, data).data == data
  {
  }

  /** A rejected request is refused with its error text. */
  lemma RejectedIsRefused(st: ServerState, fd: int, s: Chunk, more: seq<Recv>, uninit: byte)
    requires fd in st.clients && IsPlain(s) && Parsed(s, uninit).Rejected?
    ensures Refuses(st, Step(st, Readable(fd, Received(s), more, uninit)), fd, Parsed(s, uninit).error)
  {
    hide IsPlain, Requests.ParseRequest, AnswerTo, Item, Step, Queues, Ascii, LastItem, LastAnswer, IsZeroFilled;
    PlainRequestIsHandled(st, fd, s, more, uninit);
    RejectedIsAnswered(s, uninit);
    var a := AnswerTo(s, uninit);
    LastAnswerFields(400, Ascii("Bad Request"), Ascii("text/plain"), a.response.data);
    LastAnswerText(400, Ascii("Bad Request"), Ascii("text/plain"), a.response.data);
    assert a == Send(a.response, true);
    assert IsRefusal(Item(a), Parsed(s, uninit).error);
  }

  /** A first token that is no method name: the request is refused, and the answer quotes the token. */
  lemma UnknownMethodIsRefused(st: ServerState, fd: int, s: Chunk, name: bytes, rest: bytes, more: seq<Recv>, uninit: byte)
    requires fd in st.clients && IsPlain(s) && s == name + [SPACE] + rest
    requires Free(name, Stops(SPACE, NUL)) && !Requests.IsMethodName(name)
    ensures Refuses(st, Step(st, Readable(fd, Received(s), more, uninit)), fd, Ascii("Invalid Method: ") + name)
  {
    hide IsPlain, Requests.ParseRequest, Requests.IsMethodName, Step, Refuses, Ascii;
    Requests.UnknownMethodIsRejected(name, rest, uninit);
    RejectedIsRefused(st, fd, s, more, uninit);
  }

  /** A text without NULs is answered whole. */
  lemma RefusalQuotes(item: SendQueueItem, error: bytes)
    requires IsRefusal(item, error) && Free(error, Stops(NUL, NUL))
    ensures item == LastItem(400, Ascii("Bad Request"), Ascii("text/plain"), Ascii("Bad Request") + Ascii(": ") + error)
  {
    hide LastItem;
    var text := Ascii("Bad Request") + Ascii(": ") + error;
    var data :| IsZeroFilled(data, text) && item == LastItem(400, Ascii("Bad Request"), Ascii("text/plain"), data);
    FreeAppend(Ascii("Bad Request"), Ascii(": "), Stops(NUL, NUL));
    FreeAppend(Ascii("Bad Request") + Ascii(": "), error, Stops(NUL, NUL));
    ZeroFilledText(data, text);
  }

  lemma ZeroFilledText(data: bytes, text: bytes)
    requires IsZeroFilled(data, text) && Free(text, Stops(NUL, NUL))
    ensures data == text
  {
  }

  lemma PostIsParsed(s: bytes, uri: bytes, version: bytes, h: Headers, rest: bytes, n: int, uninit: byte)
    requires BeginsWith(s, Ascii("POST"), uri, version, h, rest) && Requests.AnnouncesLength(h, n)
    ensures Requests.IsBodyOutcome(Parsed(s, uninit), Requests.Request(Requests.POST, uri, version, h, []), rest, n, uninit)
  {
    hide BeginsWith, Requests.ParseRequest, Requests.FinishRequest, Requests.IsBodyOutcome, Requests.MethodName,
      Requests.AnnouncesLength, Ascii;
    Requests.NameLiterals(0);
    var r := Requests.Request(Requests.POST, uri, version, h, []);
    HeadIsParsed(s, Requests.POST, uri, version, h, rest, uninit);
    Requests.FinishExactly(s, |s| - |rest|, r, uninit, n);
  }

  /** The queued empty page; it closes a connection of version HTTP/1.1 only. */
  function PageItem(version: bytes): SendQueueItem {
    if version == Ascii("HTTP/1.1") then LastItem(200, Ascii("OK"), Ascii("text/html"), []) else EmptyPageItem()
  }

  lemma PageText(s: bytes, uninit: byte)
    requires Parsed(s, uninit).Accepted? && Parsed(s, uninit).value.methodId == Requests.POST
    ensures AnswerTo(s, uninit).Send? && Item(AnswerTo(s, uninit)) == PageItem(Parsed(s, uninit).value.version)
  {
    hide Requests.ParseRequest, AnswerTo, Item, Ascii, LastItem, LastAnswer, EmptyPage, EmptyPageItem;
    PostIsAnswered(s, uninit);
    LastAnswerText(200, Ascii("OK"), Ascii("text/html"), []);
    EmptyPageText();
  }

  /** What becomes of a POST with the announced length n when `rest` follows its head. */
  ghost predicate IsPostOutcome(st: ServerState, next: Next, fd: int, version: bytes, length: bytes, rest: bytes, n: int) {
    (n == |rest| || n == |rest| + 1 ==> Queues(st, next, fd, PageItem(version))) &&
    (n < 0 || n > |rest| + 1 ==> exists e :: Wire.IsTooLongText(e, length, |rest|) && Refuses(st, next, fd, e)) &&
    (0 <= n < |rest| ==> next == Halted)
  }

  /** POST: the announced length n decides. With what is left or one more the answer is an empty page; a
      larger or negative one is refused with both numbers; a smaller one is the end of the server. */
  lemma PostIsDecided(st: ServerState, fd: int, s: Chunk, uri: bytes, version: bytes, h: Headers, rest: bytes, n: int,
                      more: seq<Recv>, uninit: byte)
    requires fd in st.clients && IsPlain(s) && BeginsWith(s, Ascii("POST"), uri, version, h, rest)
    requires Requests.AnnouncesLength(h, n)
    ensures IsPostOutcome(st, Step(st, Readable(fd, Received(s), more, uninit)), fd, version, h[Wire.CONTENT_LENGTH], rest, n)
  {
    hide IsPlain, BeginsWith, Requests.ParseRequest, AnswerTo, Item, Step, Queues, Refuses, PageItem, Wire.IsTooLongText, Ascii;
    PostIsParsed(s, uri, version, h, rest, n, uninit);
    PlainRequestIsHandled(st, fd, s, more, uninit);
    if n == |rest| || n == |rest| + 1 {
      PageText(s, uninit);
    } else if n < 0 || n > |rest| {
      RejectedIsRefused(st, fd, s, more, uninit);
    } else {
      OthersAreNotAnswered(s, uninit);
    }
  }
}

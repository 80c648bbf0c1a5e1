/** The server: accepting, reading and disconnecting clients, and answering their requests. Sockets
    are inputs: the value `accept` returns, what each `recv` delivers, which descriptors are ready. */
module Servers {
  import opened Bytes
  import opened Numbers
  import opened ByteBuffers
  import opened Messages
  import opened Clients
  import opened Reading
  import opened Answers
  import opened ServerRuns
  import opened EventLoop
  import Requests
  import Responses
  import Wire

  // ----- C strings in place -----

  method StrLen(s: array<byte>) returns (n: nat)
    ensures n == |CString(s[..])|
  {
    n := 0;
    while n < s.Length && s[n] != NUL
      invariant n <= s.Length && forall i :: 0 <= i < n ==> s[i] != NUL
    {
      n := n + 1;
    }
    assert FirstIn(s[..], 0, Stops(NUL, NUL)) == n;
  }

  /** `strcat`; false where the C program would leave one of the arrays. */
  method StrCatInPlace(dst: array<byte>, src: array<byte>) returns (ok: bool)
    requires dst != src
    modifies dst
    ensures ok <==> StrCat(old(dst[..]), src[..]).Some?
    ensures ok ==> dst[..] == StrCat(old(dst[..]), src[..]).value
  {
    hide CString;
    ghost var was := dst[..];
    var i := StrLen(dst);
    var j := StrLen(src);
    if i == dst.Length || j == src.Length || i + j >= dst.Length {
      return false;
    }
    var k := 0;
    while k < j
      invariant k <= j
      invariant forall x :: 0 <= x < k ==> dst[i + x] == src[x]
      invariant dst[..i] == was[..i] && dst[i + k..] == was[i + k..]
    {
      dst[i + k] := src[k];
      k := k + 1;
    }
    dst[i + j] := NUL;
    assert dst[i..i + j] == src[..][..j] && dst[i + j + 1..] == was[i + j + 1..];
    assert dst[..] == dst[..i] + dst[i..i + j] + [dst[i + j]] + dst[i + j + 1..];
    return true;
  }

  /** The zeroed buffer `recv` has written into. */
  method Fill(buff: array<byte>, r: Recv)
    requires buff.Length == DATA_LEN
    modifies buff
    ensures buff[..] == r.Buffer()
  {
    forall i | 0 <= i < DATA_LEN {
      buff[i] := 0;
    }
    if r.Received? {
      forall i | 0 <= i < |r.data| {
        buff[i] := r.data[i];
      }
    }
  }

  /** The "Expect: 100-continue" loop: appends what arrives to pData until contLen bytes came. */
  method CollectInPlace(pData: array<byte>, lenRecv: nat, contLen: int, more: seq<Recv>)
    returns (r: ReadResult, total: nat)
    requires pData.Length == DATA_LEN
    modifies pData
    ensures r == Collect(old(pData[..]), lenRecv, 0, contLen, more)
    ensures r.Complete? ==> total <= DATA_LEN && r.request == pData[..total]
  {
    hide StrCat, Collect;
    var buff := new byte[DATA_LEN];
    var temp, n := 0, 0;
    total := 0;
    while n < |more|
      invariant 0 <= n <= |more|
      invariant Collect(old(pData[..]), lenRecv, 0, contLen, more) ==
                Collect(pData[..], lenRecv, temp, contLen, more[n..])
    {
      Fill(buff, more[n]);
      assert more[n..] == [more[n]] + more[n + 1..];
      CollectTurn(pData[..], lenRecv, temp, contLen, more[n], more[n + 1..]);
      temp := temp + more[n].Len();
      var ok := StrCatInPlace(pData, buff);
      if !ok {
        return Broken(Undefined), 0;
      }
      if temp == contLen {
        if 0 <= lenRecv + temp <= pData.Length {
          return Complete(pData[..lenRecv + temp]), lenRecv + temp;
        }
        return Broken(Undefined), 0;
      }
      n := n + 1;
    }
    assert more[n..] == [];
    CollectNothing(pData[..], lenRecv, temp, contLen);
    return Waiting, 0;
  }

  /** The reading part of `readClient`: one `recv`, and the loop when the client waits for a "100 Continue". */
  method ReceiveRequest(d: Delivery) returns (r: ReadResult, pData: array<byte>, total: nat)
    ensures r == ReadRequest(d.first, d.more, d.uninit)
    ensures fresh(pData) && pData.Length == DATA_LEN
    ensures r.Complete? ==> total <= DATA_LEN && r.request == pData[..total]
  {
    hide Collect, Contains, Requests.ParseRequest, StrCat, Atoi;
    pData := new byte[DATA_LEN];
    total := 0;
    Fill(pData, d.first);
    var lenRecv := d.first.Len();
    if lenRecv <= 0 {
      return Hangup, pData, 0;
    }
    assert d.first.data == pData[..lenRecv];
    var end := StrLen(pData);
    if end == DATA_LEN {
      return Broken(Undefined), pData, 0;
    }
    if !Contains(CString(pData[..]), EXPECT) {
      return Complete(pData[..lenRecv]), pData, lenRecv;
    }
    var head := new Requests.HTTPRequest.Receive(pData, lenRecv);
    var verdict := head.Parse(d.uninit);
    if verdict.Crash? {
      return Broken(verdict.fault), pData, 0;
    }
    var hlenstr := head.message.GetHeaderValue(Wire.CONTENT_LENGTH);
    var contLen := Atoi(hlenstr);
    if contLen.None? {
      return Broken(Undefined), pData, 0;
    }
    r, total := CollectInPlace(pData, lenRecv, contLen.value, d.more);
  }

  /** Some ready descriptor that has not been read yet. */
  method Pick(todo: set<int>) returns (fd: int)
    requires todo != {}
    ensures fd in todo
  {
    assert (forall x: int :: x !in todo) ==> todo == {};
    fd :| fd in todo;
  }

  lemma KeyOf<K, V>(m: map<K, V>, v: V) returns (k: K)
    requires v in m.Values
    ensures k in m && m[k] == v
  {
    k :| k in m.Keys && m[k] == v;
  }

  // ----- the server -----

  class HTTPServer {
    var listenSocket: int
    var readFd: set<int>
    var maxfd: int
    var clientMap: map<int, Client>
    var canRun: bool

    /** Every client is found under its own descriptor. */
    ghost predicate Valid()
      reads this
    {
      forall fd :: fd in clientMap ==> clientMap[fd].socketDesc == fd
    }

    ghost function State(): ServerState
      reads this, clientMap.Values
    {
      ServerState(listenSocket, readFd, map fd | fd in clientMap :: clientMap[fd].sendQueue, maxfd)
    }

    constructor ()
      ensures Valid() && State() == ServerState(-1, {}, map[], -1) && !canRun
    {
      listenSocket, readFd, maxfd, clientMap, canRun := -1, {}, -1, map[], false;
    }

    /** `start`: the descriptor `socket` returned, and whether `bind` and `listen` succeeded. It does
        not touch the client map. */
    method Start(sock: int, bound: bool, listening: bool) returns (ok: bool)
      modifies this
      ensures clientMap == old(clientMap) && (old(Valid()) ==> Valid())
      ensures ok == canRun == (sock != -1 && bound && listening)
      ensures State() == if ok then Started(sock).(clients := old(State()).clients)
                         else old(State()).(listenSocket := sock)
      ensures ok && clientMap == map[] ==> State() == Started(sock)
      ensures listenSocket == sock && (ok ==> readFd == {sock} && maxfd == sock)
    {
      canRun := false;
      listenSocket := sock;
      if listenSocket == -1 || !bound || !listening {
        return false;
      }
      readFd := {};
      readFd := readFd + {listenSocket};
      maxfd := listenSocket;
      canRun := true;
      return true;
    }

    /** Takes up the connection whose descriptor `accept` returned. */
    method AcceptConnection(clfd: int)
      requires Valid()
      modifies this
      ensures Valid() && State() == Connected(old(State()), clfd)
      ensures readFd == if clfd == -1 then old(readFd) else old(readFd) + {clfd}
      ensures clientMap.Keys == if clfd == -1 then old(clientMap).Keys else old(clientMap).Keys + {clfd}
      ensures listenSocket == old(listenSocket)
      ensures forall fd :: fd in old(clientMap) ==> fd in clientMap && clientMap[fd] == old(clientMap)[fd]
      ensures forall fd :: fd in clientMap && fd !in old(clientMap) ==> fresh(clientMap[fd])
    {
      if clfd == -1 {
        return;
      }
      var cl := new Client(clfd);
      if clfd !in clientMap {
        clientMap := clientMap[clfd := cl];
      }
      readFd := readFd + {clfd};
      if maxfd < clfd {
        maxfd := clfd;
      }
    }

    /** Removes the descriptor from the watched set and the client from the map. */
    method DisconnectClient(cl: Client?, mapErase: bool)
      requires Valid()
      modifies this
      ensures Valid() && listenSocket == old(listenSocket)
      ensures cl == null ==> State() == old(State()) && clientMap == old(clientMap)
      ensures cl != null && mapErase ==>
                clientMap == old(clientMap) - {cl.socketDesc} && State() == Disconnected(old(State()), cl.socketDesc)
      ensures maxfd == old(maxfd) && readFd == if cl == null then old(readFd) else old(readFd) - {cl.socketDesc}
      ensures cl != null && !mapErase ==>
                State() == old(State()).(watched := old(readFd) - {cl.socketDesc}) && clientMap == old(clientMap)
    {
      if cl == null {
        return;
      }
      readFd := readFd - {cl.socketDesc};
      if mapErase {
        clientMap := clientMap - {cl.socketDesc};
      }
    }

    method GetClient(clfd: int) returns (cl: Client?)
      ensures cl == null <==> clfd !in clientMap
      ensures cl != null ==> cl == clientMap[clfd]
    {
      if clfd !in clientMap {
        return null;
      }
      return clientMap[clfd];
    }

    /** Reads what a ready client sent and answers it; `halted` when the read or the answer does not
        come to an end. */
    method ReadClient(cl: Client, d: Delivery) returns (halted: bool)
      requires Valid() && cl.socketDesc in clientMap && clientMap[cl.socketDesc] == cl
      modifies this, cl
      ensures halted <==> Served(old(State()), cl.socketDesc, d.first, d.more, d.uninit).Halted?
      ensures !halted ==>
                Valid() && Running(State()) == Served(old(State()), cl.socketDesc, d.first, d.more, d.uninit)
      ensures listenSocket == old(listenSocket)
      ensures clientMap == old(clientMap) || clientMap == old(clientMap) - {cl.socketDesc}
    {
      hide ReadRequest, AnswerTo, Item;
      var r, pData, total := ReceiveRequest(d);
      if r.Hangup? {
        DisconnectClient(cl, true);
        return false;
      }
      if !r.Complete? {
        return true;
      }
      var req := new Requests.HTTPRequest.Receive(pData, total);
      ghost var a, fd := AnswerTo(r.request, d.uninit), cl.socketDesc;
      halted := HandleRequest(cl, req, d.uninit);
      assert forall x :: x in clientMap && x != fd ==> clientMap[x].sendQueue == old(clientMap[x].sendQueue);
      assert !halted && a.Silence? ==> State() == old(State());
      assert !halted && a.Send? ==>
          State().clients == old(State()).clients[fd := old(State()).clients[fd] + [Item(a)]];
    }

    /** Parses a request and queues its answer; `halted` when parsing ends abnormally. */
    method HandleRequest(cl: Client, req: Requests.HTTPRequest, uninit: byte) returns (halted: bool)
      requires req.Value() == Requests.FRESH && req.message.parseErrorStr == []
      requires req.message.buffer.rpos == 0 && |req.message.buffer.buf| <= DATA_LEN
      modifies cl, req, req.message, req.message.buffer
      ensures halted <==> AnswerTo(old(req.message.buffer.buf), uninit).Abort?
      ensures var a := AnswerTo(old(req.message.buffer.buf), uninit);
              !halted ==> cl.sendQueue == if a.Send? then old(cl.sendQueue) + [Item(a)] else old(cl.sendQueue)
    {
      hide Requests.ParseRequest, PostAnswer, OptionsAnswer, TraceAnswer, StatusAnswer, Item;
      ghost var s := req.message.buffer.buf;
      var verdict := req.Parse(uninit);
      if verdict.Crash? {
        return true;
      }
      if verdict.Reject? {
        SendStatusResponse(cl, Responses.BAD_REQUEST, req.message.parseErrorStr);
        return false;
      }
      assert req.message.buffer.buf == s;
      if req.methodId == Requests.POST {
        HandlePOST(cl, req);
      } else if req.methodId == Requests.HEAD || req.methodId == Requests.GET {
      } else if req.methodId == Requests.OPTIONS {
        HandleOptions(cl);
      } else if req.methodId == Requests.TRACE {
        HandleTrace(cl, req);
      } else {
        SendStatusResponse(cl, Responses.NOT_IMPLEMENTED, []);
      }
      return false;
    }

    /** Announces the connection closed to clients of version 1.1; the comment in the source says 1.0. */
    method HandlePOST(cl: Client, req: Requests.HTTPRequest)
      modifies cl
      ensures PostAnswer(req.message.version).Send?
      ensures cl.sendQueue == old(cl.sendQueue) + [Item(PostAnswer(req.message.version))]
    {
      hide Item;
      var resp := new Responses.HTTPResponse();
      resp.SetStatus(Responses.OK);
      resp.message.AddHeader(CONTENT_TYPE, Ascii("text/html"));
      resp.message.AddHeader(Wire.CONTENT_LENGTH, Ascii("0"));
      SendResponse(cl, resp, req.message.version == DEFAULT_VERSION);
    }

    method HandleOptions(cl: Client)
      modifies cl
      ensures OptionsAnswer().Send?
      ensures cl.sendQueue == old(cl.sendQueue) + [Item(OptionsAnswer())]
    {
      hide Item;
      var resp := new Responses.HTTPResponse();
      resp.SetStatus(Responses.OK);
      resp.message.AddHeader(ALLOW, Ascii("POST, HEAD, GET, OPTIONS, TRACE"));
      resp.message.AddHeader(Wire.CONTENT_LENGTH, Ascii("0"));
      SendResponse(cl, resp, true);
    }

    /** Sends back every byte of the request's buffer. */
    method HandleTrace(cl: Client, req: Requests.HTTPRequest)
      modifies cl, req.message.buffer`rpos
      ensures TraceAnswer(req.message.buffer.buf).Send?
      ensures cl.sendQueue == old(cl.sendQueue) + [Item(TraceAnswer(req.message.buffer.buf))]
    {
      hide Item;
      var len := |req.message.buffer.buf|;
      var buf := new byte[len];
      req.message.buffer.rpos := 0;
      req.message.buffer.GetBytes(buf, len);
      assert buf[..] == req.message.buffer.buf;
      var resp := new Responses.HTTPResponse();
      resp.SetStatus(Responses.OK);
      resp.message.AddHeader(CONTENT_TYPE, Ascii("message/http"));
      resp.message.AddHeaderInt(Wire.CONTENT_LENGTH, AsInt(len));
      resp.SetData(buf[..]);
      SendResponse(cl, resp, true);
    }

    /** A response that carries its reason and a message as plain text. */
    method SendStatusResponse(cl: Client, status: int, msg: bytes)
      modifies cl
      ensures StatusAnswer(status, msg).Send?
      ensures cl.sendQueue == old(cl.sendQueue) + [Item(StatusAnswer(status, msg))]
    {
      hide Item;
      var resp := new Responses.HTTPResponse();
      resp.SetStatus(status);
      var body := resp.reason + Ascii(": ") + msg;
      var slen := |body|;
      resp.message.AddHeader(CONTENT_TYPE, Ascii("text/plain"));
      resp.message.AddHeaderInt(Wire.CONTENT_LENGTH, AsInt(slen));
      resp.SetData(PaddedCopy(body));
      SendResponse(cl, resp, true);
    }

    /** Prints a response into the client's queue. */
    method SendResponse(cl: Client, resp: Responses.HTTPResponse, disconnect: bool)
      modifies cl, resp.message, resp.message.buffer
      ensures Closing(old(resp.Value()), disconnect).Send?
      ensures cl.sendQueue == old(cl.sendQueue) + [Item(Closing(old(resp.Value()), disconnect))]
    {
      if disconnect {
        resp.message.AddHeader(CONNECTION, Ascii("close"));
      }
      var pData := resp.Create();
      cl.AddToSendQueue(SendQueueItem(pData[..], disconnect));
    }

    /** The loop over the clients `select` found ready: each is read once, in some order, which is `sweep`. */
    method SweepClients(tempSet: set<int>, deliveries: int -> Delivery)
      returns (halted: bool, ghost sweep: seq<Event>)
      requires Valid()
      modifies this, clientMap.Values
      ensures IsSweep(sweep, deliveries) && IsRun(old(State()), sweep)
      ensures Swept(sweep) <= old(clientMap).Keys * tempSet
      ensures Run(old(State()), sweep) == if halted then Halted else Running(State())
      ensures !halted ==> Valid() && Swept(sweep) == old(clientMap).Keys * tempSet
      ensures listenSocket == old(listenSocket)
      ensures forall fd :: fd in clientMap ==> fd in old(clientMap) && clientMap[fd] == old(clientMap)[fd]
      ensures !halted && Watching(old(State())) ==> Watching(State())
    {
      hide Run, IsRun, Step, Served, IsSweep, Swept, Watching;
      sweep := [];
      halted := false;
      ghost var st0, ready, clients0 := State(), clientMap.Keys * tempSet, clientMap;
      NothingSwept(st0, deliveries);
      var todo := clientMap.Keys * tempSet;
      while todo != {}
        invariant Valid() && listenSocket == old(listenSocket)
        invariant todo <= clientMap.Keys && todo <= ready && Swept(sweep) == ready - todo
        invariant clientMap.Keys <= clients0.Keys
        invariant forall fd :: fd in clientMap ==> clientMap[fd] == clients0[fd]
        invariant IsSweep(sweep, deliveries) && IsRun(st0, sweep)
        invariant Run(st0, sweep) == Running(State())
        decreases |todo|
      {
        var it := Pick(todo);
        var d := deliveries(it);
        SweepOne(st0, State(), sweep, it, deliveries, ready, todo);
        sweep := sweep + [ReadOf(it, d)];
        todo := todo - {it};
        halted := ReadClient(clientMap[it], d);
        if halted {
          return;
        }
      }
      if Watching(st0) {
        RunFromWatching(st0, sweep);
      }
    }

    /** One turn of the event loop: the ready clients are read, then a pending connection is accepted. */
    method ProcessOnce(tempSet: set<int>, deliveries: int -> Delivery, clfd: int)
      returns (halted: bool, ghost sweep: seq<Event>, ghost turn: seq<Event>)
      requires Valid()
      modifies this, clientMap.Values
      ensures IsTurn(old(State()), sweep, turn, Ready(tempSet, deliveries, clfd))
      ensures Run(old(State()), turn) == if halted then Halted else Running(State())
      ensures AcceptsFresh(old(State()), turn) <==> IsRun(old(State()), turn)
      ensures !halted ==> Valid() && listenSocket == old(listenSocket)
      ensures !halted ==> forall c :: c in clientMap.Values ==> c in old(clientMap.Values) || fresh(c)
      ensures !halted && Watching(old(State())) && clfd != old(listenSocket) ==> Watching(State())
    {
      hide Run, IsRun, Step, Connected, IsSweep, Swept, Watching, AcceptsFresh;
      ghost var s := Ready(tempSet, deliveries, clfd);
      halted, sweep := SweepClients(tempSet, deliveries);
      turn := sweep;
      if halted {
        TurnIsRun(old(State()), sweep, turn, s);
        return;
      }
      assert sweep + [] == sweep;
      if listenSocket in tempSet {
        turn := sweep + [Connect(clfd)];
        RunAppend(old(State()), sweep, Connect(clfd));
        ConnectedStep(State(), clfd);
        if Watching(State()) {
          ConnectKeepsWatchingExactly(State(), clfd);
        }
        AcceptConnection(clfd);
      }
      TurnIsRun(old(State()), sweep, turn, s);
      forall c | c in clientMap.Values
        ensures c in old(clientMap.Values) || fresh(c)
      {
        var fd := KeyOf(clientMap, c);
      }
    }

    /** The event loop, for what `select` returns in as many rounds as wanted. */
    method Process(rounds: seq<Selected>) returns (halted: bool, ghost events: seq<Event>)
      requires Valid()
      modifies this, clientMap.Values
      ensures IsServing(old(State()), events, rounds)
      ensures Run(old(State()), events) == if halted then Halted else Running(State())
      ensures AcceptsFresh(old(State()), events) <==> IsRun(old(State()), events)
      ensures !halted ==> Valid()
      ensures !halted && old(State()) == Started(old(listenSocket)) ==> AllReadable(State())
      ensures !halted && old(State()) == Started(old(listenSocket)) && AcceptsFresh(old(State()), events) ==>
                Watching(State()) && Accounted(State(), events)
    {
      hide Run, IsRun, IsTurn, IsServing, Watching, AcceptsFresh, Accounted, AllReadable, GoesOn;
      halted, events := false, [];
      ghost var st0 := State();
      NothingRuns(st0);
      GoesOnFromStart(st0, rounds);
      ghost var left := rounds;
      var n := 0;
      while n < |rounds|
        invariant 0 <= n <= |rounds| && left == rounds[n..] && !halted && Valid()
        invariant forall c :: c in clientMap.Values ==> c in old(clientMap.Values) || fresh(c)
        invariant Run(st0, events) == Running(State()) && GoesOn(st0, events, State(), left, rounds)
      {
        var s := rounds[n];
        n := n + 1;
        if s.Failed? {
          break;
        }
        ghost var st, rest := State(), rounds[n..];
        assert left == [s] + rest;
        if s.TimedOut? {
          GoesOnTimedOut(st0, events, st, rest, rounds);
          left := rest;
          continue;
        }
        ghost var sweep, turn;
        halted, sweep, turn := ProcessOnce(s.tempSet, s.deliveries, s.clfd);
        RunSplit(st0, events, turn);
        GoesOnTurn(st0, events, st, sweep, turn, s, rest, rounds);
        events := events + turn;
        left := rest;
        if halted {
          ServingIsRun(st0, events, rounds);
          return;
        }
      }
      GoesOnToEnd(st0, events, State(), left, rounds);
      ServingIsRun(st0, events, rounds);
      if st0 == Started(old(listenSocket)) {
        ServingKeepsAll(old(listenSocket), events, rounds);
      }
    }
  }
}

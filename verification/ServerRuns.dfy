/** The server as a state machine, and what holds in every state it can reach. */
module ServerRuns {
  import opened Bytes
  import opened Clients
  import opened Reading
  import opened Answers
  import Requests
  import Responses

  /** The fields of the server; a client is represented by its send queue. */
  datatype ServerState = ServerState(listenSocket: int, watched: set<int>, clients: map<int, Queue>, maxfd: int)

  /** `accept` returned a descriptor, or a client's descriptor was found ready and read. */
  datatype Event =
    | Connect(clfd: int)
    | Readable(fd: int, first: Recv, more: seq<Recv>, uninit: byte)

  /** The state after a step, or a server that has crashed or waits in `recv` for ever. */
  datatype Next = Running(state: ServerState) | Halted

  // ----- one step -----

  /** `acceptConnection`, with the value `accept` returned. */
  function Connected(st: ServerState, clfd: int): ServerState {
    if clfd == -1 then st
    else
      ServerState(st.listenSocket,
                  st.watched + {clfd},
                  if clfd in st.clients then st.clients else st.clients[clfd := []],
                  if st.maxfd < clfd then clfd else st.maxfd)
  }

  /** `disconnectClient`. */
  function Disconnected(st: ServerState, fd: int): ServerState {
    st.(watched := st.watched - {fd}, clients := st.clients - {fd})
  }

  /** `handleRequest` on a complete request of client fd. */
  ghost function Handled(st: ServerState, fd: int, request: bytes, uninit: byte): Next
    requires fd in st.clients
  {
    match AnswerTo(request, uninit)
    case Abort(_) => Halted
    case Silence => Running(st)
    case Send(r, dc) => Running(st.(clients := st.clients[fd := st.clients[fd] + [Item(Send(r, dc))]]))
  }

  /** `readClient`. */
  ghost function Served(st: ServerState, fd: int, first: Recv, more: seq<Recv>, uninit: byte): Next
    requires fd in st.clients
  {
    match ReadRequest(first, more, uninit)
    case Hangup => Running(Disconnected(st, fd))
    case Complete(request) => Handled(st, fd, request, uninit)
    case Waiting => Halted
    case Broken(_) => Halted
  }

  ghost function Step(st: ServerState, ev: Event): Next {
    match ev
    case Connect(clfd) => Running(Connected(st, clfd))
    case Readable(fd, first, more, uninit) =>
      if fd in st.clients then Served(st, fd, first, more, uninit) else Running(st)
  }

  /** A connection that was accepted under a new descriptor is watched and has an empty queue; nothing else
      changes. A failing `accept` changes nothing. */
  lemma ConnectedExactly(st: ServerState, clfd: int)
    ensures Connected(st, -1) == st
    ensures clfd != -1 && clfd !in st.clients ==>
              var st' := Connected(st, clfd);
              st'.clients == st.clients[clfd := []] && st'.watched == st.watched + {clfd} &&
              st'.listenSocket == st.listenSocket && st'.maxfd >= clfd && st'.maxfd >= st.maxfd &&
              (st'.maxfd == clfd || st'.maxfd == st.maxfd)
    ensures clfd in st.clients ==> Connected(st, clfd).clients == st.clients
  {
  }

  /** A client that hangs up leaves the map and the watched set. One that sends a request gets exactly the
      answer at the end of its queue. The server halts exactly if the read or the parse does not come to an
      end. Nothing else changes. */
  lemma ServedExactly(st: ServerState, fd: int, first: Recv, more: seq<Recv>, uninit: byte)
    requires fd in st.clients
    ensures var (r, next) := (ReadRequest(first, more, uninit), Served(st, fd, first, more, uninit));
            (next.Halted? <==> r.Waiting? || r.Broken? || (r.Complete? && AnswerTo(r.request, uninit).Abort?)) &&
            (r.Hangup? ==>
               next == Running(ServerState(st.listenSocket, st.watched - {fd}, st.clients - {fd}, st.maxfd))) &&
            (r.Complete? && AnswerTo(r.request, uninit).Silence? ==> next == Running(st)) &&
            (r.Complete? && AnswerTo(r.request, uninit).Send? ==>
               next == Running(ServerState(st.listenSocket, st.watched,
                                           st.clients[fd := st.clients[fd] + [Item(AnswerTo(r.request, uninit))]], st.maxfd)))
  {
    hide ReadRequest, AnswerTo, Item;
  }

  // ----- runs -----

  ghost function Run(st: ServerState, events: seq<Event>): Next {
    if events == [] then Running(st)
    else
      match Run(st, events[..|events| - 1])
      case Halted => Halted
      case Running(st') => Step(st', events[|events| - 1])
  }

  /** `start` with the listening socket it was given. */
  function Started(listenSocket: int): ServerState {
    ServerState(listenSocket, {listenSocket}, map[], listenSocket)
  }

  /** `accept` never returns an open descriptor, and only connected clients are read. */
  predicate Possible(st: ServerState, ev: Event) {
    match ev
    case Connect(clfd) => clfd != st.listenSocket && clfd !in st.clients
    case Readable(fd, _, _, _) => fd in st.clients
  }

  ghost predicate IsRun(st: ServerState, events: seq<Event>) {
    events == [] ||
    (IsRun(st, events[..|events| - 1]) &&
     match Run(st, events[..|events| - 1])
     case Halted => false
     case Running(st') => Possible(st', events[|events| - 1]))
  }

  /** No `accept` of a run returned a descriptor that was open at that time. */
  ghost predicate AcceptsFresh(st: ServerState, events: seq<Event>) {
    events == [] ||
    (AcceptsFresh(st, events[..|events| - 1]) &&
     match Run(st, events[..|events| - 1])
     case Halted => true
     case Running(st') => events[|events| - 1].Connect? ==> Possible(st', events[|events| - 1]))
  }

  lemma NothingRuns(st: ServerState)
    ensures Run(st, []) == Running(st) && IsRun(st, []) && AcceptsFresh(st, [])
  {
  }

  lemma RunAppend(st: ServerState, events: seq<Event>, ev: Event)
    ensures Run(st, events + [ev]) ==
            match Run(st, events)
            case Halted => Halted
            case Running(st') => Step(st', ev)
    ensures IsRun(st, events + [ev]) <==>
            IsRun(st, events) && Run(st, events).Running? && Possible(Run(st, events).state, ev)
    ensures AcceptsFresh(st, events + [ev]) <==>
            AcceptsFresh(st, events) &&
            (Run(st, events).Running? && ev.Connect? ==> Possible(Run(st, events).state, ev))
  {
    hide Step, Possible;
    assert (events + [ev])[..|events|] == events;
  }

  /** Runs compose: the second part starts where the first one ends, and nothing follows a halt. */
  lemma {:induction false} RunSplit(st: ServerState, a: seq<Event>, b: seq<Event>)
    ensures Run(st, a + b) ==
            match Run(st, a)
            case Halted => Halted
            case Running(st') => Run(st', b)
    ensures IsRun(st, a + b) <==>
            IsRun(st, a) && (b == [] || (Run(st, a).Running? && IsRun(Run(st, a).state, b)))
    ensures AcceptsFresh(st, a + b) <==>
            AcceptsFresh(st, a) && (Run(st, a).Running? ==> AcceptsFresh(Run(st, a).state, b))
    decreases |b|
  {
    hide Run, IsRun, AcceptsFresh, Step, Possible;
    if b == [] {
      assert a + b == a;
      if Run(st, a).Running? {
        NothingRuns(Run(st, a).state);
      }
    } else {
      var c, ev := b[..|b| - 1], b[|b| - 1];
      assert b == c + [ev] && a + b == a + c + [ev];
      RunSplit(st, a, c);
      RunAppend(st, a + c, ev);
      if Run(st, a).Running? {
        NothingRuns(Run(st, a).state);
        RunAppend(Run(st, a).state, c, ev);
      }
    }
  }

  lemma ServedStep(st: ServerState, ev: Event)
    requires ev.Readable? && ev.fd in st.clients
    ensures Step(st, ev) == Served(st, ev.fd, ev.first, ev.more, ev.uninit) && Possible(st, ev)
  {
  }

  lemma ConnectedStep(st: ServerState, clfd: int)
    ensures Step(st, Connect(clfd)) == Running(Connected(st, clfd))
  {
  }

  /** `select` watches the listening socket and exactly the connected clients, up to `maxfd`. */
  ghost predicate Watching(st: ServerState) {
    st.listenSocket !in st.clients &&
    st.watched == {st.listenSocket} + st.clients.Keys &&
    forall fd :: fd in st.watched ==> fd <= st.maxfd
  }

  /** Accepting keeps the bookkeeping exactly when `accept` does not return the listening socket itself. */
  lemma ConnectKeepsWatchingExactly(st: ServerState, clfd: int)
    requires Watching(st)
    ensures Watching(Connected(st, clfd)) <==> clfd == -1 || clfd != st.listenSocket
  {
  }

  lemma DisconnectKeepsWatching(st: ServerState, fd: int)
    requires Watching(st) && fd in st.clients
    ensures Watching(Disconnected(st, fd))
  {
  }

  lemma ServingKeepsWatching(st: ServerState, fd: int, first: Recv, more: seq<Recv>, uninit: byte)
    requires Watching(st) && fd in st.clients && Served(st, fd, first, more, uninit).Running?
    ensures Watching(Served(st, fd, first, more, uninit).state)
    ensures Served(st, fd, first, more, uninit).state.listenSocket == st.listenSocket
  {
    hide ReadRequest, AnswerTo, Item;
    DisconnectKeepsWatching(st, fd);
  }

  lemma StepKeepsWatching(st: ServerState, ev: Event)
    requires Watching(st) && Possible(st, ev) && Step(st, ev).Running?
    ensures Watching(Step(st, ev).state)
  {
    hide Served, Connected, Watching;
    match ev
    case Connect(clfd) => ConnectKeepsWatchingExactly(st, clfd);
    case Readable(fd, first, more, uninit) => ServingKeepsWatching(st, fd, first, more, uninit);
  }

  /** A run keeps the bookkeeping. */
  lemma {:induction false} RunFromWatching(st: ServerState, events: seq<Event>)
    requires Watching(st) && IsRun(st, events) && Run(st, events).Running?
    ensures Watching(Run(st, events).state)
    decreases |events|
  {
    hide Watching, Step, Possible;
    if events != [] {
      var n := |events| - 1;
      RunFromWatching(st, events[..n]);
      StepKeepsWatching(Run(st, events[..n]).state, events[n]);
    }
  }

  /** In every reachable state the watched descriptors are the listening socket and the clients. */
  lemma {:induction false} RunKeepsWatching(listenSocket: int, events: seq<Event>)
    requires IsRun(Started(listenSocket), events) && Run(Started(listenSocket), events).Running?
    ensures Watching(Run(Started(listenSocket), events).state)
  {
    hide Run, IsRun;
    RunFromWatching(Started(listenSocket), events);
  }

  // ----- accounting for the queues -----

  /** A request as it was handled. */
  datatype Handling = Handling(request: bytes, uninit: byte)

  /** The requests read from the connection that descriptor fd stands for after the events. */
  ghost function Conversation(events: seq<Event>, fd: int): seq<Handling> {
    if events == [] then []
    else
      var before := Conversation(events[..|events| - 1], fd);
      match events[|events| - 1]
      case Connect(clfd) => if clfd == fd then [] else before
      case Readable(f, first, more, uninit) =>
        if f != fd then before
        else
          match ReadRequest(first, more, uninit)
          case Hangup => []
          case Complete(request) => before + [Handling(request, uninit)]
          case Waiting => before
          case Broken(_) => before
  }

  /** The answers to a conversation, in its order. */
  ghost function Replies(conversation: seq<Handling>): Queue {
    if conversation == [] then []
    else
      var last := conversation[|conversation| - 1];
      var answer := AnswerTo(last.request, last.uninit);
      Replies(conversation[..|conversation| - 1]) + if answer.Send? then [Item(answer)] else []
  }

  /** Each queue holds the replies to the conversation. */
  ghost predicate Accounted(st: ServerState, events: seq<Event>) {
    forall fd :: fd in st.clients ==> st.clients[fd] == Replies(Conversation(events, fd))
  }

  lemma RepliesAppend(conversation: seq<Handling>, last: Handling)
    ensures var answer := AnswerTo(last.request, last.uninit);
            Replies(conversation + [last]) == Replies(conversation) + if answer.Send? then [Item(answer)] else []
  {
    assert (conversation + [last])[..|conversation|] == conversation;
  }

  lemma StepIsAccounted(st: ServerState, events: seq<Event>)
    requires events != []
    requires var n := |events| - 1;
             Accounted(st, events[..n]) && Possible(st, events[n]) && Step(st, events[n]).Running?
    ensures Accounted(Step(st, events[|events| - 1]).state, events)
  {
    hide ReadRequest, AnswerTo, Item, Replies;
    var n := |events| - 1;
    var st' := Step(st, events[n]).state;
    forall fd | fd in st'.clients
      ensures st'.clients[fd] == Replies(Conversation(events, fd))
    {
      match events[n]
      case Connect(clfd) =>
        if clfd == fd {
          NoReplies();
        }
      case Readable(f, first, more, uninit) =>
        var read := ReadRequest(first, more, uninit);
        if f == fd && read.Complete? {
          RepliesAppend(Conversation(events[..n], fd), Handling(read.request, uninit));
        }
    }
  }

  lemma NoReplies()
    ensures Replies([]) == []
  {
  }

  /** In every reachable state each client's queue is, in order, the answers to the requests read from
      its connection. */
  lemma {:induction false} QueuesAreAccounted(listenSocket: int, events: seq<Event>)
    requires IsRun(Started(listenSocket), events) && Run(Started(listenSocket), events).Running?
    ensures Accounted(Run(Started(listenSocket), events).state, events)
    decreases |events|
  {
    hide Accounted, Step, Possible;
    if events == [] {
      StartAccounted(listenSocket);
    } else {
      var n := |events| - 1;
      QueuesAreAccounted(listenSocket, events[..n]);
      StepIsAccounted(Run(Started(listenSocket), events[..n]).state, events);
    }
  }

  lemma StartAccounted(listenSocket: int)
    ensures Accounted(Started(listenSocket), [])
  {
  }

  /** Whether a request goes unanswered: an accepted GET or HEAD. */
  predicate IsSilent(x: Handling) {
    var o := Requests.ParseRequest(x.request, 0, Requests.FRESH, x.uninit);
    o.Accepted? && (o.value.methodId == Requests.GET || o.value.methodId == Requests.HEAD)
  }

  predicate IsAborted(x: Handling) {
    Requests.ParseRequest(x.request, 0, Requests.FRESH, x.uninit).Crashed?
  }

  function Answered(conversation: seq<Handling>): nat {
    if conversation == [] then 0
    else
      var last := conversation[|conversation| - 1];
      Answered(conversation[..|conversation| - 1]) + if IsSilent(last) || IsAborted(last) then 0 else 1
  }

  /** One reply for each rejected request and each accepted one that is not GET or HEAD. */
  lemma {:induction false} RepliesAreCounted(conversation: seq<Handling>)
    ensures |Replies(conversation)| == Answered(conversation)
    decreases |conversation|
  {
    if conversation != [] {
      var last := conversation[|conversation| - 1];
      RepliesAreCounted(conversation[..|conversation| - 1]);
      SilenceExactly(last.request, last.uninit);
      AbortExactly(last.request, last.uninit);
      hide AnswerTo, Requests.ParseRequest;
    }
  }

  lemma AbortExactly(s: bytes, uninit: byte)
    ensures AnswerTo(s, uninit).Abort? <==> Requests.ParseRequest(s, 0, Requests.FRESH, uninit).Crashed?
  {
    hide Requests.ParseRequest, PostAnswer, OptionsAnswer, TraceAnswer, StatusAnswer;
    HandlersSend(s);
  }

  // ----- which requests are refused -----

  predicate IsRejected(x: Handling) {
    Requests.ParseRequest(x.request, 0, Requests.FRESH, x.uninit).Rejected?
  }

  function Rejections(conversation: seq<Handling>): nat {
    if conversation == [] then 0
    else
      Rejections(conversation[..|conversation| - 1]) + if IsRejected(conversation[|conversation| - 1]) then 1 else 0
  }

  /** The items whose text says 400. */
  function Refusals(queue: Queue): nat {
    if queue == [] then 0
    else
      Refusals(queue[..|queue| - 1]) +
      if Responses.PrintedStatus(queue[|queue| - 1].data) == Some(400) then 1 else 0
  }

  lemma RefusalsAppend(queue: Queue, item: SendQueueItem)
    ensures Refusals(queue + [item]) ==
            Refusals(queue) + if Responses.PrintedStatus(item.data) == Some(400) then 1 else 0
  {
    assert (queue + [item])[..|queue|] == queue;
  }

  lemma RejectedIsSent(x: Handling)
    ensures var a := AnswerTo(x.request, x.uninit);
            (IsRejected(x) ==> a.Send?) &&
            (a.Send? ==> (Responses.PrintedStatus(Item(a).data) == Some(400) <==> IsRejected(x)))
  {
    hide Requests.ParseRequest, Responses.PrintedStatus, Item, PostAnswer, OptionsAnswer, TraceAnswer, StatusAnswer;
    HandlersSend(x.request);
    if AnswerTo(x.request, x.uninit).Send? {
      PrintedStatusByOutcome(x.request, x.uninit);
    }
  }

  /** As many queued answers say 400 as requests were rejected. */
  lemma {:induction false} RefusalsAreCounted(conversation: seq<Handling>)
    ensures Refusals(Replies(conversation)) == Rejections(conversation)
    decreases |conversation|
  {
    if conversation != [] {
      hide AnswerTo, Item, Responses.PrintedStatus, IsRejected, Refusals, Replies;
      var init, last := conversation[..|conversation| - 1], conversation[|conversation| - 1];
      assert conversation == init + [last];
      RefusalsAreCounted(init);
      RejectedIsSent(last);
      RepliesAppend(init, last);
      var a := AnswerTo(last.request, last.uninit);
      if a.Send? {
        RefusalsAppend(Replies(init), Item(a));
      } else {
        assert Replies(init) + [] == Replies(init);
      }
    }
  }

  /** Some rejected request of the conversation has this answer. */
  ghost predicate AnswersRejected(conversation: seq<Handling>, item: SendQueueItem) {
    exists j :: 0 <= j < |conversation| && IsRejected(conversation[j]) &&
                AnswerTo(conversation[j].request, conversation[j].uninit).Send? &&
                item == Item(AnswerTo(conversation[j].request, conversation[j].uninit))
  }

  lemma AnswersRejectedAppend(init: seq<Handling>, last: Handling, item: SendQueueItem)
    requires AnswersRejected(init, item)
    ensures AnswersRejected(init + [last], item)
  {
    hide AnswerTo, Item, IsRejected;
    var j :| 0 <= j < |init| && IsRejected(init[j]) && AnswerTo(init[j].request, init[j].uninit).Send? &&
             item == Item(AnswerTo(init[j].request, init[j].uninit));
    assert (init + [last])[j] == init[j];
  }

  lemma AnswersRejectedLast(init: seq<Handling>, last: Handling)
    requires IsRejected(last) && AnswerTo(last.request, last.uninit).Send?
    ensures AnswersRejected(init + [last], Item(AnswerTo(last.request, last.uninit)))
  {
    hide AnswerTo, Item, IsRejected;
    assert (init + [last])[|init|] == last;
  }

  /** Each queued answer that says 400 answers a rejected request. */
  lemma {:induction false} RefusalAnswersRejected(conversation: seq<Handling>, i: nat)
    requires i < |Replies(conversation)| && Responses.PrintedStatus(Replies(conversation)[i].data) == Some(400)
    ensures AnswersRejected(conversation, Replies(conversation)[i])
    decreases |conversation|
  {
    hide AnswerTo, Item, Responses.PrintedStatus, IsRejected, AnswersRejected;
    var init, last := conversation[..|conversation| - 1], conversation[|conversation| - 1];
    assert conversation == init + [last];
    if i < |Replies(init)| {
      RefusalAnswersRejected(init, i);
      AnswersRejectedAppend(init, last, Replies(init)[i]);
    } else {
      RejectedIsSent(last);
      AnswersRejectedLast(init, last);
    }
  }

  /** In every reachable state a queued answer that says 400 answers a rejected request of its client, and as
      many say so as its client sent. */
  lemma QueuesRefuseRejected(listenSocket: int, events: seq<Event>, fd: int)
    requires IsRun(Started(listenSocket), events) && Run(Started(listenSocket), events).Running?
    requires fd in Run(Started(listenSocket), events).state.clients
    ensures var (queue, talk) := (Run(Started(listenSocket), events).state.clients[fd], Conversation(events, fd));
            Refusals(queue) == Rejections(talk) &&
            forall i :: 0 <= i < |queue| && Responses.PrintedStatus(queue[i].data) == Some(400) ==>
              AnswersRejected(talk, queue[i])
  {
    hide Run, IsRun, Conversation, Replies, Refusals, Rejections, AnswersRejected, Responses.PrintedStatus;
    QueuesAreAccounted(listenSocket, events);
    var talk := Conversation(events, fd);
    RefusalsAreCounted(talk);
    forall i | 0 <= i < |Replies(talk)| && Responses.PrintedStatus(Replies(talk)[i].data) == Some(400)
      ensures AnswersRejected(talk, Replies(talk)[i])
    {
      RefusalAnswersRejected(talk, i);
    }
  }

  // ----- every queued item can be read -----

  /** The item is a printed response with an exact length, and its status stands in its text. */
  ghost predicate IsReadable(item: SendQueueItem) {
    exists a: Answer ::
      a.Send? && item == Item(a) && SelfDelimiting(a.response) &&
      Responses.PrintedStatus(item.data) == Some(a.response.status)
  }

  ghost predicate AllReadable(st: ServerState) {
    forall fd, i :: fd in st.clients && 0 <= i < |st.clients[fd]| ==> IsReadable(st.clients[fd][i])
  }

  lemma RequestsFit(first: Recv, more: seq<Recv>, uninit: byte)
    ensures var r := ReadRequest(first, more, uninit); r.Complete? ==> |r.request| <= DATA_LEN
  {
    hide Requests.ParseRequest, Collect, Contains;
    var pData := first.Buffer();
    forall lenRecv: nat, contLen: int
      ensures var r := Collect(pData, lenRecv, 0, contLen, more); r.Complete? ==> |r.request| <= DATA_LEN
    {
      CollectFits(pData, lenRecv, 0, contLen, more);
    }
  }

  lemma {:induction false} CollectFits(pData: bytes, lenRecv: nat, temp: int, contLen: int, more: seq<Recv>)
    requires |pData| == DATA_LEN
    ensures var r := Collect(pData, lenRecv, temp, contLen, more); r.Complete? ==> |r.request| <= DATA_LEN
    decreases |more|
  {
    if more != [] {
      var joined := StrCat(pData, more[0].Buffer());
      if joined.Some? {
        CollectFits(joined.value, lenRecv, temp + more[0].Len(), contLen, more[1..]);
      }
    }
  }

  lemma StepKeepsReadable(st: ServerState, ev: Event)
    requires AllReadable(st) && Step(st, ev).Running?
    ensures AllReadable(Step(st, ev).state)
  {
    hide ReadRequest, AnswerTo, Item, SelfDelimiting, Responses.PrintedStatus;
    match ev
    case Connect(clfd) =>
    case Readable(fd, first, more, uninit) =>
      var read := ReadRequest(first, more, uninit);
      if fd in st.clients && read.Complete? {
        RequestsFit(first, more, uninit);
        var a := AnswerTo(read.request, uninit);
        if a.Send? {
          AnswersAreSelfDelimiting(read.request, uninit);
          StatusGoesOut(read.request, uninit);
          assert IsReadable(Item(a));
        }
      }
  }

  /** In every reachable state every queued item parses back as the response it was printed from,
      with a Content-Length that is the exact length of its body, and its text says its status. */
  lemma {:induction false} QueuedItemsAreReadable(listenSocket: int, events: seq<Event>)
    requires Run(Started(listenSocket), events).Running?
    ensures AllReadable(Run(Started(listenSocket), events).state)
    decreases |events|
  {
    hide AllReadable, Step;
    if events == [] {
      StartReadable(listenSocket);
    } else {
      var n := |events| - 1;
      QueuedItemsAreReadable(listenSocket, events[..n]);
      StepKeepsReadable(Run(Started(listenSocket), events[..n]).state, events[n]);
    }
  }

  lemma StartReadable(listenSocket: int)
    ensures AllReadable(Started(listenSocket))
  {
  }
}

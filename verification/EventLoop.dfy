/** The `select` loop as runs of the server's state machine: the reads of one turn, a turn, and the
    turns one after the other. */
module EventLoop {
  import opened Bytes
  import opened Reading
  import opened Answers
  import opened ServerRuns

  /** What the calls of `recv` for a ready client deliver, and the byte found in fresh memory. */
  datatype Delivery = Delivery(first: Recv, more: seq<Recv>, uninit: byte)

  /** What `select` returns: -1, 0, or a number of ready descriptors. With these come what each of them
      delivers and what `accept` returns. */
  datatype Selected =
    | Failed
    | TimedOut
    | Ready(tempSet: set<int>, deliveries: int -> Delivery, clfd: int)

  // ----- the reads of one turn -----

  /** The descriptors that are read in a sweep. */
  ghost function Swept(sweep: seq<Event>): set<int> {
    set i | 0 <= i < |sweep| && sweep[i].Readable? :: sweep[i].fd
  }

  ghost function ReadOf(fd: int, d: Delivery): Event {
    Readable(fd, d.first, d.more, d.uninit)
  }

  /** A sweep reads what was delivered, from each of its descriptors once. */
  ghost predicate IsSweep(sweep: seq<Event>, deliveries: int -> Delivery) {
    (forall i :: 0 <= i < |sweep| ==>
       sweep[i].Readable? && sweep[i] == ReadOf(sweep[i].fd, deliveries(sweep[i].fd))) &&
    forall i, j :: 0 <= i < j < |sweep| ==> sweep[i].fd != sweep[j].fd
  }

  lemma NothingSwept(st: ServerState, deliveries: int -> Delivery)
    ensures Run(st, []) == Running(st) && IsRun(st, []) && IsSweep([], deliveries) && Swept([]) == {}
  {
  }

  lemma SweepStep(sweep: seq<Event>, deliveries: int -> Delivery, fd: int)
    requires IsSweep(sweep, deliveries) && fd !in Swept(sweep)
    ensures var longer := sweep + [ReadOf(fd, deliveries(fd))];
            IsSweep(longer, deliveries) && Swept(longer) == Swept(sweep) + {fd}
  {
    var longer := sweep + [ReadOf(fd, deliveries(fd))];
    forall x | x in Swept(sweep) + {fd}
      ensures x in Swept(longer)
    {
      if x == fd {
        assert longer[|sweep|].fd == fd;
      } else {
        var i :| 0 <= i < |sweep| && sweep[i].Readable? && sweep[i].fd == x;
        assert longer[i].fd == x;
      }
    }
  }

  /** The sweep so far, lengthened by one ready descriptor. */
  lemma SweepOne(st0: ServerState, st: ServerState, sweep: seq<Event>, fd: int,
                 deliveries: int -> Delivery, ready: set<int>, todo: set<int>)
    requires IsSweep(sweep, deliveries) && Swept(sweep) == ready - todo
    requires Run(st0, sweep) == Running(st) && IsRun(st0, sweep)
    requires fd in todo && todo <= ready && fd in st.clients
    ensures var d := deliveries(fd); var longer := sweep + [ReadOf(fd, d)];
            IsSweep(longer, deliveries) && Swept(longer) == ready - (todo - {fd}) && IsRun(st0, longer) &&
            Run(st0, longer) == Served(st, fd, d.first, d.more, d.uninit)
  {
    hide Served, Run, IsRun, IsSweep, Swept;
    SweepStep(sweep, deliveries, fd);
    RunAppend(st0, sweep, ReadOf(fd, deliveries(fd)));
    ServedStep(st, ReadOf(fd, deliveries(fd)));
    assert Swept(sweep) + {fd} == ready - (todo - {fd});
  }

  /** The clients that hang up in a sweep. */
  ghost function HungUp(sweep: seq<Event>): set<int> {
    set i | 0 <= i < |sweep| && sweep[i].Readable? &&
            ReadRequest(sweep[i].first, sweep[i].more, sweep[i].uninit).Hangup? :: sweep[i].fd
  }

  lemma HungUpAppend(sweep: seq<Event>, ev: Event)
    ensures HungUp(sweep + [ev]) ==
            HungUp(sweep) + if ev.Readable? && ReadRequest(ev.first, ev.more, ev.uninit).Hangup? then {ev.fd} else {}
  {
    hide ReadRequest;
    var longer := sweep + [ev];
    assert longer[|sweep|] == ev && forall i :: 0 <= i < |sweep| ==> longer[i] == sweep[i];
  }

  lemma ServingErases(st: ServerState, fd: int, first: Recv, more: seq<Recv>, uninit: byte)
    requires fd in st.clients && Served(st, fd, first, more, uninit).Running?
    ensures Served(st, fd, first, more, uninit).state.clients.Keys ==
            st.clients.Keys - if ReadRequest(first, more, uninit).Hangup? then {fd} else {}
  {
    hide ReadRequest, AnswerTo, Item;
  }

  lemma NobodyHungUp()
    ensures HungUp([]) == {}
  {
  }

  /** The reads of a sweep take exactly the clients that hang up out of the map. */
  lemma {:induction false} SweepErases(st: ServerState, sweep: seq<Event>)
    requires (forall i :: 0 <= i < |sweep| ==> sweep[i].Readable?) && IsRun(st, sweep) && Run(st, sweep).Running?
    ensures Run(st, sweep).state.clients.Keys == st.clients.Keys - HungUp(sweep) && HungUp(sweep) <= st.clients.Keys
    decreases |sweep|
  {
    hide ReadRequest, Served, HungUp, Run, IsRun, Step;
    if sweep == [] {
      NothingRuns(st);
      NobodyHungUp();
    } else {
      var n := |sweep| - 1;
      var ev := sweep[n];
      assert sweep == sweep[..n] + [ev];
      RunAppend(st, sweep[..n], ev);
      SweepErases(st, sweep[..n]);
      HungUpAppend(sweep[..n], ev);
      ServedStep(Run(st, sweep[..n]).state, ev);
      ServingErases(Run(st, sweep[..n]).state, ev.fd, ev.first, ev.more, ev.uninit);
    }
  }

  /** Iterating over the map itself, in place of the clients it held before, is defined if and only if
      no read of the sweep hangs up: nothing else changes the keys. */
  lemma SweepErasesExactly(st: ServerState, sweep: seq<Event>, deliveries: int -> Delivery)
    requires IsSweep(sweep, deliveries) && IsRun(st, sweep) && Run(st, sweep).Running?
    ensures Run(st, sweep).state.clients.Keys == st.clients.Keys <==>
            forall i :: 0 <= i < |sweep| ==> !ReadRequest(sweep[i].first, sweep[i].more, sweep[i].uninit).Hangup?
    ensures Run(st, sweep).state.clients.Keys == st.clients.Keys - HungUp(sweep)
  {
    hide ReadRequest, Run, IsRun;
    SweepErases(st, sweep);
    assert HungUp(sweep) == {} ==>
        forall i :: 0 <= i < |sweep| && ReadRequest(sweep[i].first, sweep[i].more, sweep[i].uninit).Hangup? ==>
          sweep[i].fd in HungUp(sweep);
  }

  // ----- turns -----

  /** The reads of one turn and then the accept, unless a read does not come to an end. */
  ghost predicate IsTurn(st: ServerState, sweep: seq<Event>, turn: seq<Event>, s: Selected) {
    s.Ready? && IsSweep(sweep, s.deliveries) && IsRun(st, sweep) &&
    Swept(sweep) <= st.clients.Keys * s.tempSet &&
    if Run(st, sweep).Halted? then turn == sweep
    else
      Swept(sweep) == st.clients.Keys * s.tempSet &&
      turn == sweep + if st.listenSocket in s.tempSet then [Connect(s.clfd)] else []
  }

  /** The events of the loop: one turn for every `select` that finds something ready, none for a
      time-out, until one fails. */
  ghost predicate IsServing(st: ServerState, events: seq<Event>, rounds: seq<Selected>)
    decreases |rounds|
  {
    if rounds == [] || rounds[0].Failed? then events == []
    else if rounds[0].TimedOut? then IsServing(st, events, rounds[1..])
    else
      exists sweep, turn, rest ::
        IsTurn(st, sweep, turn, rounds[0]) && events == turn + rest &&
        match Run(st, turn)
        case Halted => rest == []
        case Running(st') => IsServing(st', rest, rounds[1..])
  }

  /** Whatever is served from `st` in the rounds that are left completes the events so far. */
  ghost predicate GoesOn(st0: ServerState, events: seq<Event>, st: ServerState, left: seq<Selected>, rounds: seq<Selected>) {
    forall rest :: IsServing(st, rest, left) ==> IsServing(st0, events + rest, rounds)
  }

  lemma GoesOnFromStart(st0: ServerState, rounds: seq<Selected>)
    ensures GoesOn(st0, [], st0, rounds, rounds)
  {
    hide IsServing;
    assert forall rest: seq<Event> :: [] + rest == rest;
  }

  lemma GoesOnToEnd(st0: ServerState, events: seq<Event>, st: ServerState, left: seq<Selected>, rounds: seq<Selected>)
    requires GoesOn(st0, events, st, left, rounds) && (left == [] || left[0].Failed?)
    ensures IsServing(st0, events, rounds)
  {
    assert IsServing(st, [], left) && events + [] == events;
  }

  lemma GoesOnTimedOut(st0: ServerState, events: seq<Event>, st: ServerState, left: seq<Selected>, rounds: seq<Selected>)
    requires GoesOn(st0, events, st, [TimedOut] + left, rounds)
    ensures GoesOn(st0, events, st, left, rounds)
  {
    assert ([TimedOut] + left)[1..] == left;
    forall rest | IsServing(st, rest, left)
      ensures IsServing(st0, events + rest, rounds)
    {
      assert IsServing(st, rest, [TimedOut] + left);
    }
  }

  lemma ServingTurn(st: ServerState, sweep: seq<Event>, turn: seq<Event>, rest: seq<Event>, s: Selected, left: seq<Selected>)
    requires IsTurn(st, sweep, turn, s)
    requires match Run(st, turn) case Halted => rest == [] case Running(st') => IsServing(st', rest, left)
    ensures IsServing(st, turn + rest, [s] + left)
  {
    hide Run, IsSweep, IsRun, Swept;
    assert ([s] + left)[1..] == left;
  }

  /** After a turn the rest is served from the state it leaves; after a halt there is none. */
  lemma GoesOnTurn(st0: ServerState, events: seq<Event>, st: ServerState, sweep: seq<Event>, turn: seq<Event>,
                   s: Selected, left: seq<Selected>, rounds: seq<Selected>)
    requires GoesOn(st0, events, st, [s] + left, rounds) && IsTurn(st, sweep, turn, s)
    ensures match Run(st, turn)
            case Halted => IsServing(st0, events + turn, rounds)
            case Running(st') => GoesOn(st0, events + turn, st', left, rounds)
  {
    hide Run, IsTurn, IsServing;
    if Run(st, turn).Halted? {
      ServingTurn(st, sweep, turn, [], s, left);
      assert turn + [] == turn;
    } else {
      forall rest | IsServing(Run(st, turn).state, rest, left)
        ensures IsServing(st0, events + turn + rest, rounds)
      {
        ServingTurn(st, sweep, turn, rest, s, left);
        assert events + turn + rest == events + (turn + rest);
      }
    }
  }

  /** A turn is a run when what it accepts is no open descriptor. */
  lemma TurnIsRun(st: ServerState, sweep: seq<Event>, turn: seq<Event>, s: Selected)
    requires IsTurn(st, sweep, turn, s)
    ensures AcceptsFresh(st, turn) <==> IsRun(st, turn)
  {
    hide Run, IsRun, AcceptsFresh, IsSweep, Swept, Possible;
    if Run(st, sweep).Running? && st.listenSocket in s.tempSet {
      RunAppend(st, sweep, Connect(s.clfd));
      RunsAreFresh(st, sweep);
    } else {
      assert sweep + [] == sweep;
      RunsAreFresh(st, sweep);
    }
  }

  lemma RunsAreFresh(st: ServerState, events: seq<Event>)
    requires IsRun(st, events)
    ensures AcceptsFresh(st, events)
  {
    hide Run, Possible;
  }

  /** Whatever `select` and `recv` return, the loop's events are a run of the machine if and only if
      `accept` never returns an open descriptor. */
  lemma {:induction false} ServingIsRun(st: ServerState, events: seq<Event>, rounds: seq<Selected>)
    requires IsServing(st, events, rounds)
    ensures AcceptsFresh(st, events) <==> IsRun(st, events)
    decreases |rounds|
  {
    hide Run, IsRun, AcceptsFresh, IsTurn;
    if rounds == [] || rounds[0].Failed? {
      NothingRuns(st);
    } else if rounds[0].TimedOut? {
      ServingIsRun(st, events, rounds[1..]);
    } else {
      var sweep, turn, rest :|
        IsTurn(st, sweep, turn, rounds[0]) && events == turn + rest &&
        match Run(st, turn)
        case Halted => rest == []
        case Running(st') => IsServing(st', rest, rounds[1..]);
      TurnIsRun(st, sweep, turn, rounds[0]);
      RunSplit(st, turn, rest);
      if Run(st, turn).Running? {
        NothingRuns(Run(st, turn).state);
        ServingIsRun(Run(st, turn).state, rest, rounds[1..]);
      } else {
        assert turn + [] == turn;
      }
    }
  }

  /** However long the loop runs, with `accept` never returning an open descriptor: the watched set is
      the listening socket and the clients, and each queue holds in order the answers to what was read. */
  lemma ServingKeepsAll(listenSocket: int, events: seq<Event>, rounds: seq<Selected>)
    requires IsServing(Started(listenSocket), events, rounds) && Run(Started(listenSocket), events).Running?
    ensures AllReadable(Run(Started(listenSocket), events).state)
    ensures AcceptsFresh(Started(listenSocket), events) ==>
              Watching(Run(Started(listenSocket), events).state) && Accounted(Run(Started(listenSocket), events).state, events)
  {
    hide Run, IsRun, AcceptsFresh, IsServing, Watching, Accounted, AllReadable;
    ServingIsRun(Started(listenSocket), events, rounds);
    QueuedItemsAreReadable(listenSocket, events);
    if AcceptsFresh(Started(listenSocket), events) {
      RunKeepsWatching(listenSocket, events);
      QueuesAreAccounted(listenSocket, events);
    }
  }
}

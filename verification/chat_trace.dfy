/**
 Runs of the server over whole event sequences. The registry is compared
 with a reference definition read off the event sequence alone: a socket is
 registered exactly when it has sent `join` and has not disconnected since.
 */
module ChatTrace {
  import OrderedMap
  import opened ChatServer
  import opened ChatLaws

  /**
   Handles the events one at a time, in order, from `s`; each handler runs to
   completion before the next event is taken, and the emissions are collected
   in the order they were made. No event makes more than two emissions.
   */
  function Replay(s: State, evs: seq<Event>): (t: Transition)
    ensures |t.emitted| <= 2 * |evs|
    ensures (forall i :: 0 <= i < |evs| ==> evs[i].Connect?) ==> t.emitted == []
    decreases |evs|
  {
    if evs == [] then Transition(s, [])
    else
      var before := Replay(s, evs[..|evs| - 1]);
      var last := Step(before.next, evs[|evs| - 1]);
      Transition(last.next, before.emitted + last.emitted)
  }

  /** The two phases of a connection's life: in the namespace, and in the `"chat"` room. */
  datatype Phase = Online | InRoom

  /** `e` is the event by which `c` enters phase `p`. */
  predicate Starts(e: Event, p: Phase, c: ConnId) {
    && e.conn == c
    && match p
       case Online => e.Connect?
       case InRoom => e.Join?
  }

  /** `e` is the event by which `c` leaves every phase. */
  predicate Ends(e: Event, c: ConnId) {
    e.Disconnect? && e.conn == c
  }

  /** Some event of `evs` put `c` in phase `p` and no later event disconnected it. */
  ghost predicate InPhase(evs: seq<Event>, p: Phase, c: ConnId) {
    exists i :: 0 <= i < |evs| && Starts(evs[i], p, c) && forall j :: i < j < |evs| ==> !Ends(evs[j], c)
  }

  /** Every event came from a socket that was connected when it was handled. */
  ghost predicate Admissible(evs: seq<Event>)
    decreases |evs|
  {
    evs == [] ||
    (Admissible(evs[..|evs| - 1]) && Delivered(Replay(Init(), evs[..|evs| - 1]).next, evs[|evs| - 1]))
  }

  /** How one more event changes the phase of `c`. */
  lemma InPhaseSnoc(evs: seq<Event>, e: Event, p: Phase, c: ConnId)
    ensures InPhase(evs + [e], p, c) <==>
      if Starts(e, p, c) then true else if Ends(e, c) then false else InPhase(evs, p, c)
  {
    var all := evs + [e];
    assert all[|evs|] == e;
    if Starts(e, p, c) {
      assert Starts(all[|evs|], p, c);
    } else if !Ends(e, c) {
      if InPhase(all, p, c) {
        var i :| 0 <= i < |all| && Starts(all[i], p, c) && forall j :: i < j < |all| ==> !Ends(all[j], c);
        assert i < |evs| && all[i] == evs[i];
        forall j | i < j < |evs|
          ensures !Ends(evs[j], c)
        {
          assert all[j] == evs[j];
        }
      }
      if InPhase(evs, p, c) {
        var i :| 0 <= i < |evs| && Starts(evs[i], p, c) && forall j :: i < j < |evs| ==> !Ends(evs[j], c);
        assert all[i] == evs[i];
        forall j | i < j < |all|
          ensures !Ends(all[j], c)
        {
          if j < |evs| {
            assert all[j] == evs[j];
          }
        }
      }
    }
  }

  /**
   Over any event sequence from start-up, the state stays consistent, the
   registry's keys are exactly the sockets that have joined and not since
   disconnected, and the namespace holds exactly those connected and not since
   disconnected.
   */
  lemma {:induction false} ReplayTracksPhases(evs: seq<Event>)
    ensures var s := Replay(Init(), evs).next;
      && Consistent(s)
      && (forall c :: c in s.users.entries <==> InPhase(evs, InRoom, c))
      && (forall c :: c in s.connected <==> InPhase(evs, Online, c))
  {
    if evs == [] {
      InitConsistent();
    } else {
      var prefix := evs[..|evs| - 1];
      var e := evs[|evs| - 1];
      assert evs == prefix + [e];
      ReplayTracksPhases(prefix);
      var before := Replay(Init(), prefix).next;
      var after := Replay(Init(), evs).next;
      assert after == Step(before, e).next;
      StepPreservesConsistent(before, e);
      forall c
        ensures c in after.users.entries <==> InPhase(evs, InRoom, c)
        ensures c in after.connected <==> InPhase(evs, Online, c)
      {
        InPhaseSnoc(prefix, e, InRoom, c);
        InPhaseSnoc(prefix, e, Online, c);
        assert OrderedMap.Get(after.users, c).Some? <==> c in after.users.entries;
        assert OrderedMap.Get(before.users, c).Some? <==> c in before.users.entries;
      }
    }
  }

  /** When every event comes from a connected socket, every registered socket is connected. */
  lemma {:induction false} AdmissibleRegisteredAreConnected(evs: seq<Event>)
    requires Admissible(evs)
    ensures var s := Replay(Init(), evs).next; s.room <= s.connected && s.users.entries.Keys <= s.connected
  {
    ReplayTracksPhases(evs);
    if evs == [] {
      InitConsistent();
    } else {
      var prefix := evs[..|evs| - 1];
      AdmissibleRegisteredAreConnected(prefix);
      StepKeepsRoomConnected(Replay(Init(), prefix).next, evs[|evs| - 1]);
    }
  }

  /** A `message` reaches exactly the sockets that have joined and not since disconnected. */
  lemma MessageReachesJoined(evs: seq<Event>, c: ConnId, data: MessageData, id: string, timestamp: Timestamp)
    ensures var t := Step(Replay(Init(), evs).next, Send(c, data, id, timestamp));
      forall x :: x in t.emitted[0].to <==> InPhase(evs, InRoom, x)
  {
    ReplayTracksPhases(evs);
  }

  /** A disconnect from a socket that never joined (or already left) changes no entry and emits nothing. */
  lemma DisconnectWithoutJoinIsSilent(evs: seq<Event>, c: ConnId)
    requires !InPhase(evs, InRoom, c)
    ensures var s := Replay(Init(), evs).next;
      var t := Step(s, Disconnect(c));
      t.emitted == [] && t.next.users == s.users
  {
    ReplayTracksPhases(evs);
  }

  /** A socket that never sent `join` is not registered. */
  lemma NeverJoinedNotRegistered(evs: seq<Event>, c: ConnId)
    requires forall i :: 0 <= i < |evs| && evs[i].Join? ==> evs[i].conn != c
    ensures c !in Replay(Init(), evs).next.users.entries
  {
    ReplayTracksPhases(evs);
  }

  /** The number of `join` events in `evs`. */
  function JoinCount(evs: seq<Event>): nat
    decreases |evs|
  {
    if evs == [] then 0
    else JoinCount(evs[..|evs| - 1]) + (if evs[|evs| - 1].Join? then 1 else 0)
  }

  /**
   With no disconnects, and each socket sending `join` at most once, the
   registry holds one entry per `join` event, and every joined socket is
   registered. Connects and messages may be interleaved freely.
   */
  lemma {:induction false} DistinctJoinsCount(evs: seq<Event>)
    requires forall i :: 0 <= i < |evs| ==> !evs[i].Disconnect?
    requires forall i, j :: 0 <= i < j < |evs| && evs[i].Join? && evs[j].Join? ==> evs[i].conn != evs[j].conn
    ensures var users := Replay(Init(), evs).next.users;
      && OrderedMap.Size(users) == JoinCount(evs)
      && forall i :: 0 <= i < |evs| && evs[i].Join? ==> evs[i].conn in users.entries
  {
    if evs != [] {
      var prefix := evs[..|evs| - 1];
      var e := evs[|evs| - 1];
      DistinctJoinsCount(prefix);
      var before := Replay(Init(), prefix).next;
      var t := Step(before, e);
      assert Replay(Init(), evs).next == t.next;
      var keys := t.next.users.entries.Keys;
      if e.Join? {
        forall i | 0 <= i < |prefix| && prefix[i].Join?
          ensures prefix[i].conn != e.conn
        {
          assert prefix[i] == evs[i];
        }
        NeverJoinedNotRegistered(prefix, e.conn);
        assert keys == before.users.entries.Keys + {e.conn};
      } else {
        assert keys == before.users.entries.Keys;
      }
      forall i | 0 <= i < |prefix| && evs[i].Join?
        ensures evs[i].conn in keys
      {
        assert prefix[i] == evs[i];
      }
    }
  }

  /** Replaying one more event continues from where the shorter replay stopped. */
  lemma ReplaySnoc(s: State, evs: seq<Event>, e: Event)
    ensures var before := Replay(s, evs);
      var last := Step(before.next, e);
      Replay(s, evs + [e]) == Transition(last.next, before.emitted + last.emitted)
  {
  }

  /** The registry holding alice alone, and then alice followed by bob. */
  function AliceOnly(): Registry {
    OrderedMap.Raw(["A"], map["A" := User("A", "alice")])
  }

  function AliceThenBob(): Registry {
    OrderedMap.Raw(["A", "B"], map["A" := User("A", "alice"), "B" := User("B", "bob")])
  }

  lemma AliceJoins()
    ensures Step(State({"A", "B"}, {}, OrderedMap.Empty()), Join("A", "alice")) ==
      Transition(State({"A", "B"}, {"A"}, AliceOnly()),
        [ Emission({"B"}, UserJoinedEvent, Presence("alice", [User("A", "alice")])),
          Emission({"A"}, UsersEvent, Roster([User("A", "alice")])) ])
  {
    assert "A" != "B";
    assert {"A", "B"} - {"A"} == {"B"};
    assert {} + {"A"} == {"A"};
    assert OrderedMap.Set(OrderedMap.Empty(), "A", User("A", "alice")) == AliceOnly();
    assert OrderedMap.Values(AliceOnly()) == [User("A", "alice")];
  }

  lemma BobJoins()
    ensures Step(State({"A", "B"}, {"A"}, AliceOnly()), Join("B", "bob")) ==
      Transition(State({"A", "B"}, {"A", "B"}, AliceThenBob()),
        [ Emission({"A"}, UserJoinedEvent, Presence("bob", [User("A", "alice"), User("B", "bob")])),
          Emission({"B"}, UsersEvent, Roster([User("A", "alice"), User("B", "bob")])) ])
  {
    assert "A" != "B";
    assert {"A", "B"} - {"B"} == {"A"};
    assert {"A"} + {"B"} == {"A", "B"};
    assert AliceOnly().order + ["B"] == AliceThenBob().order;
    assert AliceOnly().entries["B" := User("B", "bob")] == AliceThenBob().entries;
    assert OrderedMap.Set(AliceOnly(), "B", User("B", "bob")) == AliceThenBob();
    assert OrderedMap.Values(AliceThenBob()) == [User("A", "alice"), User("B", "bob")];
  }

  lemma BobLeaves()
    ensures Step(State({"A", "B"}, {"A", "B"}, AliceThenBob()), Disconnect("B")) ==
      Transition(State({"A"}, {"A"}, AliceOnly()),
        [ Emission({"A"}, UserLeftEvent, Presence("bob", [User("A", "alice")])) ])
  {
    assert "A" != "B";
    assert {"A", "B"} - {"B"} == {"A"};
    BobJoins();
    OrderedMap.DeleteUndoesSet(AliceOnly(), "B", User("B", "bob"));
    assert OrderedMap.Values(AliceOnly()) == [User("A", "alice")];
  }

  /** Both sockets connect; nothing is emitted. */
  lemma BothConnect()
    ensures Replay(Init(), [Connect("A"), Connect("B")]) == Transition(State({"A", "B"}, {}, OrderedMap.Empty()), [])
  {
  }

  /** Both sockets connect, then alice joins, then bob. */
  lemma AliceThenBobJoin()
    ensures Replay(Init(), [Connect("A"), Connect("B"), Join("A", "alice"), Join("B", "bob")]) ==
      Transition(State({"A", "B"}, {"A", "B"}, AliceThenBob()),
        [ Emission({"B"}, UserJoinedEvent, Presence("alice", [User("A", "alice")])),
          Emission({"A"}, UsersEvent, Roster([User("A", "alice")])),
          Emission({"A"}, UserJoinedEvent, Presence("bob", [User("A", "alice"), User("B", "bob")])),
          Emission({"B"}, UsersEvent, Roster([User("A", "alice"), User("B", "bob")])) ])
  {
    var alice := User("A", "alice");
    var bob := User("B", "bob");
    var online := [Connect("A"), Connect("B")];
    var e3, e4 := Join("A", "alice"), Join("B", "bob");
    var all := online + [e3] + [e4];
    assert all == [Connect("A"), Connect("B"), e3, e4];
    var first := [ Emission({"B"}, UserJoinedEvent, Presence("alice", [alice])),
                   Emission({"A"}, UsersEvent, Roster([alice])) ];
    var second := [ Emission({"A"}, UserJoinedEvent, Presence("bob", [alice, bob])),
                    Emission({"B"}, UsersEvent, Roster([alice, bob])) ];
    assert [] + first + second == [first[0], first[1], second[0], second[1]];
    var aliceIn := State({"A", "B"}, {"A"}, AliceOnly());

    BothConnect();
    AliceJoins();
    ReplaySnoc(Init(), online, e3);
    assert Replay(Init(), online + [e3]) == Transition(aliceIn, [] + first);
    BobJoins();
    ReplaySnoc(Init(), online + [e3], e4);
  }

  /**
   Two sockets A and B connect; A joins as alice, B as bob; A sends "hello";
   B disconnects. Each announcement carries the registry at that moment.
   B is connected but has not joined when alice arrives, and still hears of her.
   */
  lemma AliceAndBob()
    ensures
      var alice := User("A", "alice");
      var bob := User("B", "bob");
      Replay(Init(), [Connect("A"), Connect("B"), Join("A", "alice"), Join("B", "bob"),
                      Send("A", MessageData("alice", "hello"), "1", 0), Disconnect("B")]).emitted
      == [ Emission({"B"}, UserJoinedEvent, Presence("alice", [alice])),
           Emission({"A"}, UsersEvent, Roster([alice])),
           Emission({"A"}, UserJoinedEvent, Presence("bob", [alice, bob])),
           Emission({"B"}, UsersEvent, Roster([alice, bob])),
           Emission({"A", "B"}, MessageEvent, Chat(Message("1", "alice", "hello", 0))),
           Emission({"A"}, UserLeftEvent, Presence("bob", [alice])) ]
  {
    var alice := User("A", "alice");
    var bob := User("B", "bob");
    var joins := [Connect("A"), Connect("B"), Join("A", "alice"), Join("B", "bob")];
    var e5, e6 := Send("A", MessageData("alice", "hello"), "1", 0), Disconnect("B");
    var all := joins + [e5] + [e6];
    assert all == [Connect("A"), Connect("B"), Join("A", "alice"), Join("B", "bob"), e5, e6];
    var joined := [ Emission({"B"}, UserJoinedEvent, Presence("alice", [alice])),
                    Emission({"A"}, UsersEvent, Roster([alice])),
                    Emission({"A"}, UserJoinedEvent, Presence("bob", [alice, bob])),
                    Emission({"B"}, UsersEvent, Roster([alice, bob])) ];
    var said := Emission({"A", "B"}, MessageEvent, Chat(Message("1", "alice", "hello", 0)));
    var left := Emission({"A"}, UserLeftEvent, Presence("bob", [alice]));
    assert joined + [said] + [left] == [joined[0], joined[1], joined[2], joined[3], said, left];
    var bothJoined := State({"A", "B"}, {"A", "B"}, AliceThenBob());

    AliceThenBobJoin();
    assert Replay(Init(), joins) == Transition(bothJoined, joined);
    assert Step(bothJoined, e5) == Transition(bothJoined, [said]);
    ReplaySnoc(Init(), joins, e5);
    assert Replay(Init(), joins + [e5]) == Transition(bothJoined, joined + [said]);
    BobLeaves();
    ReplaySnoc(Init(), joins + [e5], e6);
    assert Replay(Init(), all).emitted == joined + [said] + [left];
  }
}

/**
 Properties of single handler runs: the state invariant they keep, the
 membership snapshots they publish, and how join and disconnect undo and
 overwrite one another.
 */
module ChatLaws {
  import opened Wrappers
  import OrderedMap
  import opened ChatServer

  /**
   What every reachable state satisfies: the `"chat"` room holds exactly the
   registered sockets, and every entry's `id` is the key it is stored under.
   */
  ghost predicate Consistent(s: State) {
    && s.room == s.users.entries.Keys
    && forall k :: k in s.users.entries ==> s.users.entries[k].id == k
  }

  /** The transport only delivers events from sockets that are still connected. */
  predicate Delivered(s: State, e: Event) {
    e.Connect? || e.conn in s.connected
  }

  lemma InitConsistent()
    ensures Consistent(Init()) && Init().room <= Init().connected
  {
  }

  lemma StepPreservesConsistent(s: State, e: Event)
    requires Consistent(s)
    ensures Consistent(Step(s, e).next)
  {
  }

  /** Registered sockets stay connected as long as events come from connected sockets. */
  lemma StepKeepsRoomConnected(s: State, e: Event)
    requires s.room <= s.connected && Delivered(s, e)
    ensures Step(s, e).next.room <= Step(s, e).next.connected
  {
  }

  /**
   In a consistent state the snapshot names every registered socket exactly
   once: a user is listed iff the registry stores it under its own id.
   */
  lemma SnapshotOnePerConnection(s: State)
    requires Consistent(s)
    ensures var snap := OrderedMap.Values(s.users);
      && (forall u :: u in snap <==> OrderedMap.Get(s.users, u.id) == Some(u))
      && (forall i, j :: 0 <= i < j < |snap| ==> snap[i].id != snap[j].id)
  {
  }

  /** The roster a joiner receives, and announces, contains the joiner. */
  lemma JoinSnapshotHasJoiner(s: State, c: ConnId, username: string)
    requires Consistent(s)
    ensures var snap := OrderedMap.Values(OnJoin(s, c, username).next.users);
      && User(c, username) in snap
      && (forall u :: u in snap && u.id == c ==> u == User(c, username))
      && (forall u :: u in snap && u.id != c ==> OrderedMap.Get(s.users, u.id) == Some(u))
  {
    StepPreservesConsistent(s, Join(c, username));
    SnapshotOnePerConnection(OnJoin(s, c, username).next);
  }

  /** The `userLeft` snapshot excludes the leaver and keeps everyone else. */
  lemma LeaveSnapshotExcludesLeaver(s: State, c: ConnId)
    requires Consistent(s) && c in s.users.entries
    ensures var snap := OnDisconnect(s, c).emitted[0].payload.users;
      && (forall u :: u in snap ==> u.id != c)
      && (forall u :: u in snap <==> u.id != c && OrderedMap.Get(s.users, u.id) == Some(u))
  {
  }

  /** Joining again from the same socket overwrites: the second name wins, in the first slot. */
  lemma RejoinOverwrites(s: State, c: ConnId, first: string, second: string)
    ensures OnJoin(OnJoin(s, c, first).next, c, second).next == OnJoin(s, c, second).next
    ensures OrderedMap.Size(OnJoin(OnJoin(s, c, first).next, c, second).next.users)
         == OrderedMap.Size(OnJoin(s, c, first).next.users)
  {
    OrderedMap.SetTwice(s.users, c, User(c, first), User(c, second));
  }

  /** A disconnect undoes the registration of a socket that had not joined before. */
  lemma JoinThenDisconnect(s: State, c: ConnId, username: string)
    requires c !in s.users.entries
    ensures var t := OnDisconnect(OnJoin(s, c, username).next, c);
      && t.next.users == s.users
      && t.next.room == s.room - {c}
      && |t.emitted| == 1
      && t.emitted[0].event == UserLeftEvent
      && t.emitted[0].payload.username == username
      && t.emitted[0].to == s.connected - {c}
  {
    OrderedMap.DeleteUndoesSet(s.users, c, User(c, username));
  }

  /** The relayed message depends on the room alone, never on who is registered under what name. */
  lemma MessageIgnoresRegistry(s1: State, s2: State, data: MessageData, id: string, timestamp: Timestamp)
    requires s1.room == s2.room
    ensures OnMessage(s1, data, id, timestamp).emitted == OnMessage(s2, data, id, timestamp).emitted
  {
  }

  /** A sender hears its own message exactly when it has joined. */
  lemma SenderHearsOwnMessageIffJoined(s: State, c: ConnId, data: MessageData, id: string, timestamp: Timestamp)
    requires Consistent(s)
    ensures c in Step(s, Send(c, data, id, timestamp)).emitted[0].to <==> c in s.users.entries
  {
  }
}

/**
 The socket.io chat server: the in-memory `users` registry and the handlers
 for the `join`, `message` and `disconnect` events, each a pure transition
 from one server state to the next together with the emissions it makes.

 The transport is abstract. `socket.emit` reaches the socket alone,
 `socket.broadcast.emit` reaches every other connected socket and
 `io.to("chat").emit` reaches every socket in the `"chat"` room. As socket.io
 does, a disconnecting socket has already left the namespace and all its
 rooms when the `disconnect` handler runs; that is an assumption about the
 library, built into `OnDisconnect`.
 */
module ChatServer {
  import opened Wrappers
  import OrderedMap

  /** `socket.id`: opaque, assigned by the transport, stable for the connection's lifetime. */
  type ConnId = string

  /** A clock reading, as `new Date()` returns; the model never looks inside it. */
  type Timestamp = int

  /** A registry entry `{id, username}`. */
  datatype User = User(id: ConnId, username: string)

  /** The inbound `message` payload `{username, message}`. */
  datatype MessageData = MessageData(username: string, message: string)

  /** The outbound message `{id, username, message, timestamp}`. */
  datatype Message = Message(id: string, username: string, message: string, timestamp: Timestamp)

  datatype Payload =
    | Roster(users: seq<User>)                      // `users`: the registry contents alone
    | Presence(username: string, users: seq<User>)  // `userJoined` and `userLeft`
    | Chat(message: Message)                        // `message`

  /** One `emit`: the sockets it reaches, the event name and the payload. */
  datatype Emission = Emission(to: set<ConnId>, event: string, payload: Payload)

  const UsersEvent := "users"
  const UserJoinedEvent := "userJoined"
  const UserLeftEvent := "userLeft"
  const MessageEvent := "message"

  type Registry = OrderedMap.OMap<ConnId, User>

  /**
   `connected`: the sockets of the namespace; `room`: the sockets that have
   joined `"chat"`; `users`: the registry `Map` from socket id to entry.
   */
  datatype State = State(connected: set<ConnId>, room: set<ConnId>, users: Registry)

  /** What one handler does: the state it leaves and the emissions it makes, in order. */
  datatype Transition = Transition(next: State, emitted: seq<Emission>)

  /** The inbound events the transport delivers, each on behalf of one socket. */
  datatype Event =
    | Connect(conn: ConnId)
    | Join(conn: ConnId, username: string)
    | Send(conn: ConnId, data: MessageData, id: string, timestamp: Timestamp)
    | Disconnect(conn: ConnId)

  /** The server at start-up: nobody connected, an empty registry. */
  function Init(): (s: State)
    ensures s.connected == {} && s.room == {} && OrderedMap.Size(s.users) == 0
  {
    State({}, {}, OrderedMap.Empty())
  }

  /** `snap` is a membership snapshot of `users`: each entry once, nothing else. */
  ghost predicate Lists(snap: seq<User>, users: Registry) {
    && |snap| == OrderedMap.Size(users)
    && forall u :: u in snap <==> exists k :: k in users.entries && users.entries[k] == u
  }

  /** A new socket enters the namespace; the server only logs it. */
  function OnConnect(s: State, c: ConnId): (r: State)
    ensures c in r.connected && s.connected <= r.connected
    ensures forall x :: x in r.connected && x != c ==> x in s.connected
    ensures r.room == s.room && r.users == s.users
  {
    s.(connected := s.connected + {c})
  }

  /** The `join` handler: registers `{id: c, username}`, joins `"chat"`, announces the new roster. */
  function OnJoin(s: State, c: ConnId, username: string): (t: Transition)
    ensures OrderedMap.Get(t.next.users, c) == Some(User(c, username))
    ensures forall k :: k != c ==> OrderedMap.Get(t.next.users, k) == OrderedMap.Get(s.users, k)
    ensures OrderedMap.Size(t.next.users) ==
            if c in s.users.entries then OrderedMap.Size(s.users) else OrderedMap.Size(s.users) + 1
    ensures t.next.users.entries.Keys == s.users.entries.Keys + {c}
    ensures t.next.room == s.room + {c} && t.next.connected == s.connected
    ensures |t.emitted| == 2
    ensures t.emitted[0].to == s.connected - {c} && t.emitted[0].event == UserJoinedEvent
    ensures t.emitted[1].to == {c} && t.emitted[1].event == UsersEvent
    ensures t.emitted[1].payload.Roster? && Lists(t.emitted[1].payload.users, t.next.users)
    ensures User(c, username) in t.emitted[1].payload.users
    ensures t.emitted[0].payload == Presence(username, t.emitted[1].payload.users)
  {
    var users := OrderedMap.Set(s.users, c, User(c, username));
    var snapshot := OrderedMap.Values(users);
    Transition(
      State(s.connected, s.room + {c}, users),
      [ Emission(s.connected - {c}, UserJoinedEvent, Presence(username, snapshot)),
        Emission({c}, UsersEvent, Roster(snapshot)) ])
  }

  /**
   The `message` handler: relays the payload's fields verbatim, with a fresh
   id and timestamp, to the `"chat"` room. The registry is not consulted.
   */
  function OnMessage(s: State, data: MessageData, id: string, timestamp: Timestamp): (t: Transition)
    ensures t.next == s
    ensures |t.emitted| == 1
    ensures t.emitted[0].to == s.room && t.emitted[0].event == MessageEvent
    ensures t.emitted[0].payload.Chat?
    ensures t.emitted[0].payload.message.username == data.username
    ensures t.emitted[0].payload.message.message == data.message
    ensures t.emitted[0].payload.message.id == id && t.emitted[0].payload.message.timestamp == timestamp
  {
    Transition(s, [Emission(s.room, MessageEvent, Chat(Message(id, data.username, data.message, timestamp)))])
  }

  /**
   The socket leaves the namespace and the room (library behaviour); then the
   `disconnect` handler drops its entry, if any, and announces who left.
   */
  function OnDisconnect(s: State, c: ConnId): (t: Transition)
    ensures t.next.connected == s.connected - {c} && t.next.room == s.room - {c}
    ensures c !in s.users.entries ==> t.next.users == s.users && t.emitted == []
    ensures c in s.users.entries ==>
      && OrderedMap.Get(t.next.users, c) == None
      && OrderedMap.Size(t.next.users) == OrderedMap.Size(s.users) - 1
      && |t.emitted| == 1
      && t.emitted[0].to == s.connected - {c} && t.emitted[0].event == UserLeftEvent
      && t.emitted[0].payload.Presence?
      && t.emitted[0].payload.username == s.users.entries[c].username
      && Lists(t.emitted[0].payload.users, t.next.users)
    ensures forall k :: k != c ==> OrderedMap.Get(t.next.users, k) == OrderedMap.Get(s.users, k)
  {
    var connected := s.connected - {c};
    var room := s.room - {c};
    match OrderedMap.Get(s.users, c)
    case None => Transition(State(connected, room, s.users), [])
    case Some(user) =>
      var users := OrderedMap.Delete(s.users, c);
      Transition(
        State(connected, room, users),
        [Emission(connected, UserLeftEvent, Presence(user.username, OrderedMap.Values(users)))])
  }

  /** Dispatches one inbound event to its handler. */
  function Step(s: State, e: Event): (t: Transition)
    ensures e.Connect? ==> t.emitted == []
    ensures !e.Join? ==> t.next.users.entries.Keys <= s.users.entries.Keys
    ensures !e.Disconnect? ==> s.users.entries.Keys <= t.next.users.entries.Keys
  {
    match e
    case Connect(c) => Transition(OnConnect(s, c), [])
    case Join(c, username) => OnJoin(s, c, username)
    case Send(_, data, id, timestamp) => OnMessage(s, data, id, timestamp)
    case Disconnect(c) => OnDisconnect(s, c)
  }
}

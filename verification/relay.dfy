/**
 `sendMessage`: validate the request, store the message, then emit it to
 every member of its chat.
 */
module Relay {
  import opened Wrappers
  import opened JsValue
  import opened Messages
  import opened Validation
  import opened Registry

  /** What the store reports for a save: the generated id and timestamp, or a thrown error. */
  datatype SaveOutcome = Saved(id: int, sent: Timestamp) | SaveFailed

  /** An observable effect: a message handed to the store, or emitted on a socket. */
  datatype Effect = Save(message: Message) | Emit(socket: SocketId, message: Message)

  /** The stores afterwards, the effects in order, and the returned message (`undefined` is `None`). */
  datatype Sent = Sent(state: State, effects: seq<Effect>, result: Option<Message>)

  /** The sockets a run of effects emitted to. */
  function Recipients(effects: seq<Effect>): set<SocketId> {
    set i | 0 <= i < |effects| && effects[i].Emit? :: effects[i].socket
  }

  /** `chat.users.forEach(user => user.socket.emit("message", message))`. */
  function EmitAll(users: seq<User>, m: Message): (r: seq<Effect>)
    ensures |r| == |users|
    ensures forall i :: 0 <= i < |r| ==> r[i] == Emit(users[i].socket, m)
  {
    if users == [] then [] else [Emit(users[0].socket, m)] + EmitAll(users[1..], m)
  }

  /**
   `sendMessage`. The raw `chat` and `user` go through `parseInt`, which is a
   parameter here; `save` is what the store does with the insert. Any error,
   from validation or from the store, is caught and logged, so the caller
   gets `undefined`.
   */
  function SendMessage(st: State, body: Value, chat: Value, user: Value,
                       parseInt: Value -> Value, save: SaveOutcome): (r: Sent)
    ensures ValidateMessage(body, parseInt(user), parseInt(chat)).Failure? ==> r == Sent(st, [], None)
    ensures ValidateMessage(body, parseInt(user), parseInt(chat)).Success? ==>
              var m := ValidateMessage(body, parseInt(user), parseInt(chat)).value;
              && |r.effects| >= 1 && r.effects[0] == Save(m)
              && forall i :: 1 <= i < |r.effects| ==> r.effects[i].Emit?
    ensures r.result.Some? <==> ValidateMessage(body, parseInt(user), parseInt(chat)).Success? && save.Saved?
    ensures save.SaveFailed? ==> r.state == st && |r.effects| <= 1 && r.result == None
    ensures r.result.Some? ==>
              var m := r.result.value;
              && save.Saved? && m.id == Some(save.id) && m.sent == Some(save.sent)
              && body == Str(m.body) && parseInt(chat) == Int(m.chat) && parseInt(user) == Int(m.user)
              && m.chat in r.state.chats
              && Recipients(r.effects) == Sockets(Members(st, m.chat))
              && Members(r.state, m.chat) == Members(st, m.chat)
              && forall i :: 1 <= i < |r.effects| ==> r.effects[i].message == m
    ensures r.result.Some? ==> r.effects[1..] == EmitAll(Members(st, r.result.value.chat), r.result.value)
    ensures r.result.Some? ==> r.state.chats.Keys == st.chats.Keys + {r.result.value.chat}
    ensures r.result.None? ==> r.state.chats.Keys == st.chats.Keys
    ensures r.result.None? ==> Recipients(r.effects) == {}
    ensures r.state.users == st.users
    ensures forall c :: c in st.chats ==> c in r.state.chats && r.state.chats[c] == st.chats[c]
    ensures Valid(st) ==> Valid(r.state)
  {
    match ValidateMessage(body, parseInt(user), parseInt(chat))
    case Failure(_) => Sent(st, [], None)
    case Success(message) =>
      match save
      case SaveFailed => Sent(st, [Save(message)], None)
      case Saved(id, sent) =>
        // the store fills in the generated columns on the saved object
        var stored := message.(id := Some(id), sent := Some(sent));
        var found := FindOrCreateChat(st, stored.chat);
        var emits := EmitAll(found.out.users, stored);
        var effects := [Save(message)] + emits;
        assert Recipients(effects) == Sockets(found.out.users) by {
          EmitsReachMembers(effects, found.out.users, stored);
        }
        Sent(found.state, effects, Some(stored))
  }

  lemma EmitsReachMembers(effects: seq<Effect>, users: seq<User>, m: Message)
    requires |effects| == |users| + 1 && effects[0].Save?
    requires forall i :: 0 <= i < |users| ==> effects[i + 1] == Emit(users[i].socket, m)
    ensures Recipients(effects) == Sockets(users)
  {
    forall x | x in Recipients(effects) ensures x in Sockets(users) {
      var i :| 0 <= i < |effects| && effects[i].Emit? && effects[i].socket == x;
      assert users[i - 1].socket == x;
    }
    forall x | x in Sockets(users) ensures x in Recipients(effects) {
      var i :| 0 <= i < |users| && users[i].socket == x;
      assert effects[i + 1].socket == x;
    }
  }

  /**
   A message body that is empty or not a string is neither stored nor
   emitted, whatever the other fields are.
   */
  lemma BadBodyIsDropped(st: State, body: Value, chat: Value, user: Value,
                         parseInt: Value -> Value, save: SaveOutcome)
    requires body == Str([]) || !body.Str?
    ensures SendMessage(st, body, chat, user, parseInt, save) == Sent(st, [], None)
  {
  }

  /** The stores after socket "A" connects and subscribes to chat 1. */
  const SubscribedToChat1: State := State(map[1 := Chat(1, [User("A")])], [User("A")])

  /** Connecting socket "A" and subscribing it to chat 1 succeeds and yields `SubscribedToChat1`. */
  lemma ConnectThenSubscribe()
    ensures AddUserToChat(CreateUser(Initial, "A").state, User("A"), 1) == Step(SubscribedToChat1, Pass)
  {
    var joined := CreateUser(Initial, "A").state;
    assert joined == State(map[], [User("A")]);
  }

  /**
   The scenario of the live test script, continued from `ConnectThenSubscribe`:
   the socket subscribed to chat 1 sends `{ body: "Hello from client!", chat: 1, user: 1 }`. The
   message is stored first and then emitted to that socket with the same
   body, chat and author and with the store's id and timestamp set.
   */
  lemma SubscribeThenSend(parseInt: Value -> Value, id: int, sent: Timestamp)
    requires parseInt(Int(1)) == Int(1)
    ensures var r := SendMessage(SubscribedToChat1, Str("Hello from client!"), Int(1), Int(1), parseInt, Saved(id, sent));
            && r.effects == [Save(Message(None, "Hello from client!", 1, 1, None)),
                             Emit("A", Message(Some(id), "Hello from client!", 1, 1, Some(sent)))]
            && r.result == Some(Message(Some(id), "Hello from client!", 1, 1, Some(sent)))
  {
    var m := Message(None, "Hello from client!", 1, 1, None);
    ValidateRoundTrip(m);
    var stored := m.(id := Some(id), sent := Some(sent));
    assert EmitAll([User("A")], stored) == [Emit("A", stored)];
  }
}

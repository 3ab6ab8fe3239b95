/**
 The in-memory stores of src/api.ts: the connected users, keyed by socket id,
 and the chats, each an ordered list of member users. Every operation is a
 pure function from the stores before the call to the stores after it.
 */
module Registry {
  import opened Wrappers
  import opened JsValue
  import JsArray

  /** The transport's id of a connected socket; it identifies a user. */
  type SocketId = string

  /** A chat room id. */
  type ChatId = int

  /** A connected user, known only by its socket. */
  datatype User = User(socket: SocketId)

  /** A chat room and its members, in the order they subscribed. */
  datatype Chat = Chat(id: ChatId, users: seq<User>)

  /** The two stores: chats by id, and the connected users. */
  datatype State = State(chats: map<ChatId, Chat>, users: seq<User>)

  /** The stores at process start. */
  const Initial: State := State(map[], [])

  /** The stores start valid, so every reachable state is valid. */
  lemma InitialValid()
    ensures Valid(Initial) && CountUsers(Initial) == 0 && Initial.chats == map[]
  {
  }

  /** The stores after an operation, together with what the operation returned. */
  datatype Step<+T> = Step(state: State, out: T)

  /** The error `addUserToChat` throws on a duplicate subscription. */
  datatype MembershipError = AlreadyInChat(chat: ChatId)

  /** Some entry of `us` is for socket `socket`. */
  predicate HasSocket(us: seq<User>, socket: SocketId) {
    exists i :: 0 <= i < |us| && us[i].socket == socket
  }

  /** No socket appears twice in `us`. */
  predicate UniqueSockets(us: seq<User>) {
    forall i, j :: 0 <= i < |us| && 0 <= j < |us| && i != j ==> us[i].socket != us[j].socket
  }

  /** The set of sockets listed in `us`. */
  function Sockets(us: seq<User>): set<SocketId> {
    set i | 0 <= i < |us| :: us[i].socket
  }

  /**
   What the stores keep true: one user entry per socket, every chat stored
   under its own id, and no socket listed twice in a chat.
   */
  predicate Valid(st: State) {
    && UniqueSockets(st.users)
    && forall c :: c in st.chats ==> st.chats[c].id == c && UniqueSockets(st.chats[c].users)
  }

  /** The members of chat `c`; none when the chat does not exist. */
  function Members(st: State, c: ChatId): seq<User> {
    if c in st.chats then st.chats[c].users else []
  }

  /** `users.findIndex(user => user.socket.id === socket)`. */
  function IndexOfSocket(us: seq<User>, socket: SocketId): (r: int)
    ensures -1 <= r < |us|
    ensures r == -1 <==> !HasSocket(us, socket)
    ensures 0 <= r ==> us[r].socket == socket && forall i :: 0 <= i < r ==> us[i].socket != socket
  {
    JsArray.FindIndex(us, (u: User) => u.socket == socket)
  }

  /**
   `createUser`: an already-registered socket leaves the users alone and
   returns its entry; a new socket is appended and nothing is returned.
   */
  function CreateUser(st: State, socket: SocketId): (r: Step<Option<User>>)
    ensures HasSocket(st.users, socket) ==> r.state == st && r.out == Some(User(socket))
    ensures !HasSocket(st.users, socket) ==>
              r.state == st.(users := st.users + [User(socket)]) && r.out == None
    ensures HasSocket(r.state.users, socket)
    ensures Valid(st) ==> Valid(r.state)
  {
    var index := IndexOfSocket(st.users, socket);
    if index > -1 then Step(st, Some(st.users[index]))
    else
      var users := st.users + [User(socket)];
      assert users[|st.users|].socket == socket;
      assert UniqueSockets(st.users) ==> UniqueSockets(users) by {
        if UniqueSockets(st.users) { AppendNewSocketKeepsUnique(st.users, User(socket)); }
      }
      Step(st.(users := users), None)
  }

  /** `countUsers`: the number of user entries, which in valid stores is the number of connected sockets. */
  function CountUsers(st: State): (n: nat)
    ensures Valid(st) ==> n == |Sockets(st.users)|
  {
    // the count is `users.length` either way; the lemma call only proves the ensures
    if Valid(st) then
      UniqueSocketsCount(st.users);
      |st.users|
    else |st.users|
  }

  /** Registering a socket a second time changes nothing and returns the stored entry. */
  lemma CreateUserIdempotent(st: State, socket: SocketId)
    ensures var once := CreateUser(st, socket).state;
            CreateUser(once, socket) == Step(once, Some(User(socket)))
  {
  }

  /** `createUser` adds at most one entry, and exactly one for a new socket. */
  lemma CreateUserCount(st: State, socket: SocketId)
    ensures CountUsers(CreateUser(st, socket).state)
            == CountUsers(st) + (if HasSocket(st.users, socket) then 0 else 1)
  {
  }

  lemma {:induction false} UniqueSocketsCount(us: seq<User>)
    requires UniqueSockets(us)
    ensures |Sockets(us)| == |us|
  {
    if us != [] {
      var rest := us[1..];
      assert UniqueSockets(rest) by {
        forall i, j | 0 <= i < |rest| && 0 <= j < |rest| && i != j
          ensures rest[i].socket != rest[j].socket
        {
          assert rest[i] == us[i + 1] && rest[j] == us[j + 1];
        }
      }
      UniqueSocketsCount(rest);
      SocketsOfTail(us);
      forall i | 0 <= i < |rest| ensures rest[i].socket != us[0].socket {
        assert rest[i] == us[i + 1];
      }
      assert us[0].socket !in Sockets(rest);
    }
  }

  lemma SocketsOfTail(us: seq<User>)
    requires us != []
    ensures Sockets(us) == {us[0].socket} + Sockets(us[1..])
  {
    var rest := us[1..];
    forall x | x in Sockets(us) ensures x in {us[0].socket} + Sockets(rest) {
      var i :| 0 <= i < |us| && us[i].socket == x;
      if i > 0 { assert rest[i - 1] == us[i]; }
    }
    forall x | x in Sockets(rest) ensures x in Sockets(us) {
      var i :| 0 <= i < |rest| && rest[i].socket == x;
      assert us[i + 1] == rest[i];
    }
  }

  /** A sequence lists a socket exactly when its head or its tail does. */
  lemma HasSocketTail(us: seq<User>, socket: SocketId)
    requires us != []
    ensures HasSocket(us, socket) <==> us[0].socket == socket || HasSocket(us[1..], socket)
  {
    if HasSocket(us[1..], socket) {
      var i :| 0 <= i < |us[1..]| && us[1..][i].socket == socket;
      assert us[i + 1].socket == socket;
    }
    if HasSocket(us, socket) && us[0].socket != socket {
      var i :| 0 <= i < |us| && us[i].socket == socket;
      assert us[1..][i - 1] == us[i];
    }
  }

  /** A concatenation lists a socket exactly when one of its parts does. */
  lemma HasSocketConcat(a: seq<User>, b: seq<User>, socket: SocketId)
    ensures HasSocket(a + b, socket) <==> HasSocket(a, socket) || HasSocket(b, socket)
  {
    if HasSocket(a, socket) {
      var i :| 0 <= i < |a| && a[i].socket == socket;
      assert (a + b)[i] == a[i];
    }
    if HasSocket(b, socket) {
      var i :| 0 <= i < |b| && b[i].socket == socket;
      assert (a + b)[|a| + i] == b[i];
    }
    if HasSocket(a + b, socket) && !HasSocket(a, socket) {
      var i :| 0 <= i < |a + b| && (a + b)[i].socket == socket;
      if i < |a| {
        assert a[i].socket == socket;
      } else {
        assert b[i - |a|].socket == socket;
      }
    }
  }

  /**
   `findOrCreateChat`: the chat stored under `chatId`, created empty when
   absent; no other chat and no user entry changes.
   */
  function FindOrCreateChat(st: State, chatId: ChatId): (r: Step<Chat>)
    ensures chatId in r.state.chats && r.out == r.state.chats[chatId]
    ensures chatId in st.chats ==> r.state == st
    ensures chatId !in st.chats ==> r.out == Chat(chatId, [])
    ensures Valid(st) ==> r.out.id == chatId && Valid(r.state)
    ensures r.out.users == Members(st, chatId)
    ensures r.state.users == st.users
    ensures r.state.chats.Keys == st.chats.Keys + {chatId}
    ensures forall c :: c in st.chats && c != chatId ==> r.state.chats[c] == st.chats[c]
  {
    // a stored chat is an object, so `!chats[chatId]` holds exactly when the key is absent
    if chatId !in st.chats then
      var chat := Chat(chatId, []);
      Step(st.(chats := st.chats[chatId := chat]), chat)
    else Step(st, st.chats[chatId])
  }

  /** Finding or creating a chat twice is the same as doing it once. */
  lemma FindOrCreateChatIdempotent(st: State, chatId: ChatId)
    ensures var once := FindOrCreateChat(st, chatId);
            FindOrCreateChat(once.state, chatId) == once
  {
  }

  /**
   `findChat` as written: `keys` is whatever `_.keys(chats)` lists, property
   names, which are strings. It looks for a key `=== chatId`, but `chatId` is
   a number, so no key ever matches and the result is always `null`. (Had
   one matched, it reads `chats[index]`, the key's position, not the key.)
   */
  function FindChatAsWritten(st: State, chatId: ChatId, keys: seq<string>): (r: Option<Chat>)
    ensures r == None
  {
    var index := JsArray.FindIndex(keys, (key: string) => StrictEqualsNumber(Str(key), Finite(chatId as real)));
    if index == -1 then None else FindChat(st, index)
  }

  /** A chat that exists is still not found by `findChat` as written. */
  lemma FindChatAsWrittenMissesExistingChat()
    ensures var st := FindOrCreateChat(Initial, 42).state;
            42 in st.chats && FindChatAsWritten(st, 42, ["42"]) == None
  {
  }

  /** `findChat` as evidently intended: the chat stored under `chatId`, or `null`. */
  function FindChat(st: State, chatId: ChatId): (r: Option<Chat>)
    ensures r.Some? <==> chatId in st.chats
    ensures Valid(st) && r.Some? ==> r.value.id == chatId
  {
    if chatId in st.chats then Some(st.chats[chatId]) else None
  }

  /** The intended `findChat` returns the chat `findOrCreateChat` produced, with its members. */
  lemma FindChatAfterFindOrCreate(st: State, chatId: ChatId)
    ensures var s := FindOrCreateChat(st, chatId);
            FindChat(s.state, chatId) == Some(s.out)
            && s.out.users == Members(st, chatId)
  {
  }

  /** `findUser`: the entry for `socket`, or `null` when the socket is not registered. */
  function FindUser(st: State, socket: SocketId): (r: Option<User>)
    ensures r.Some? <==> HasSocket(st.users, socket)
    ensures r.Some? ==> r.value.socket == socket && r.value in st.users
  {
    var index := IndexOfSocket(st.users, socket);
    if index == -1 then None else Some(st.users[index])
  }

  /** After `createUser`, `findUser` finds the socket. */
  lemma FindUserAfterCreate(st: State, socket: SocketId)
    ensures FindUser(CreateUser(st, socket).state, socket) == Some(User(socket))
  {
  }

  /** `chatContainsUser`: the members with the user's socket are not empty. */
  function ChatContainsUser(chat: Chat, user: User): (r: bool)
    ensures r <==> HasSocket(chat.users, user.socket)
  {
    var same := JsArray.Filter(chat.users, (u: User) => u.socket == user.socket);
    assert HasSocket(chat.users, user.socket) ==> |same| != 0 by {
      if HasSocket(chat.users, user.socket) {
        var i :| 0 <= i < |chat.users| && chat.users[i].socket == user.socket;
        assert chat.users[i] in same;
      }
    }
    assert |same| != 0 ==> HasSocket(chat.users, user.socket) by {
      if |same| != 0 {
        assert same[0] in chat.users && same[0].socket == user.socket;
        var i :| 0 <= i < |chat.users| && chat.users[i] == same[0];
      }
    }
    // `!isEmpty(...)` of an array: its length is not 0
    |same| != 0
  }

  /**
   `addUserToChat`: creates the chat if needed; a socket already in it is
   rejected with the members unchanged, otherwise the user is appended.
   */
  function AddUserToChat(st: State, user: User, chatId: ChatId): (r: Step<Outcome<MembershipError>>)
    ensures r.out.Fail? <==> HasSocket(Members(st, chatId), user.socket)
    ensures r.out.Fail? ==> r.state == st && r.out.error == AlreadyInChat(chatId)
    ensures r.out.Pass? ==> Members(r.state, chatId) == Members(st, chatId) + [user]
    ensures chatId in r.state.chats
    ensures r.state.users == st.users
    ensures r.state.chats.Keys == st.chats.Keys + {chatId}
    ensures forall c :: c in st.chats && c != chatId ==> r.state.chats[c] == st.chats[c]
    ensures Valid(st) ==> Valid(r.state)
  {
    var found := FindOrCreateChat(st, chatId);
    var chat := found.out;
    if ChatContainsUser(chat, user) then Step(found.state, Fail(AlreadyInChat(chatId)))
    else
      var grown := chat.(users := chat.users + [user]);
      var st' := found.state.(chats := found.state.chats[chatId := grown]);
      assert Valid(st) ==> UniqueSockets(grown.users) by {
        if Valid(st) { AppendNewSocketKeepsUnique(chat.users, user); }
      }
      Step(st', Pass)
  }

  lemma AppendNewSocketKeepsUnique(us: seq<User>, user: User)
    requires UniqueSockets(us) && !HasSocket(us, user.socket)
    ensures UniqueSockets(us + [user])
  {
    var vs := us + [user];
    forall i, j | 0 <= i < |vs| && 0 <= j < |vs| && i != j
      ensures vs[i].socket != vs[j].socket
    {
      if i < |us| && j < |us| {
        assert vs[i] == us[i] && vs[j] == us[j];
      } else if i < |us| {
        assert vs[i] == us[i];
      } else if j < |us| {
        assert vs[j] == us[j];
      }
    }
  }

  /** A successful subscription grows the chat by exactly one member. */
  lemma AddUserToChatCount(st: State, user: User, chatId: ChatId)
    ensures var r := AddUserToChat(st, user, chatId);
            |Members(r.state, chatId)| == |Members(st, chatId)| + (if r.out.Pass? then 1 else 0)
  {
  }

  /** Subscribing the same socket twice fails the second time and leaves the members as the first call left them. */
  lemma AddUserToChatTwiceFails(st: State, user: User, chatId: ChatId)
    ensures var once := AddUserToChat(st, user, chatId);
            AddUserToChat(once.state, user, chatId) == Step(once.state, Fail(AlreadyInChat(chatId)))
  {
    var once := AddUserToChat(st, user, chatId);
    var ms := Members(once.state, chatId);
    if once.out.Pass? {
      assert ms[|ms| - 1] == user;
    }
    assert HasSocket(ms, user.socket);
  }

  /**
   `disconnectUser`: `users.splice(index, 1)` at the socket's index. An
   unregistered socket gives index -1, and `splice(-1, 1)` removes the last
   user. Chat member lists are never touched.
   */
  function DisconnectUser(st: State, user: User): (r: State)
    ensures r.chats == st.chats
    ensures |st.users| > 0 ==> |r.users| == |st.users| - 1
    ensures forall i :: 0 <= i < |r.users| ==> r.users[i] in st.users
    ensures Valid(st) ==> Valid(r)
  {
    var index := IndexOfSocket(st.users, user.socket);
    var users := JsArray.Splice(st.users, index, 1);
    assert UniqueSockets(st.users) ==> UniqueSockets(users) by {
      if UniqueSockets(st.users) && |st.users| > 0 {
        var k := if index == -1 then |st.users| - 1 else index;
        assert users == st.users[..k] + st.users[k + 1..];
        RemoveAtKeepsUnique(st.users, k);
      }
    }
    st.(users := users)
  }

  lemma RemoveAtKeepsUnique(us: seq<User>, k: nat)
    requires UniqueSockets(us) && k < |us|
    ensures UniqueSockets(us[..k] + us[k + 1..])
  {
    var vs := us[..k] + us[k + 1..];
    forall i, j | 0 <= i < |vs| && 0 <= j < |vs| && i != j
      ensures vs[i].socket != vs[j].socket
    {
      var i' := if i < k then i else i + 1;
      var j' := if j < k then j else j + 1;
      assert vs[i] == us[i'] && vs[j] == us[j'];
    }
  }

  /** The users other than `socket`'s entry, in their original order. */
  function Without(us: seq<User>, socket: SocketId): (r: seq<User>)
    ensures |r| <= |us|
  {
    if us == [] then []
    else (if us[0].socket == socket then [] else [us[0]]) + Without(us[1..], socket)
  }

  /**
   For a registered socket, which is what the disconnect handler checks with
   `findUser` before calling, `disconnectUser` removes exactly that socket's
   entry and keeps the other users in order.
   */
  lemma DisconnectRegistered(st: State, socket: SocketId)
    requires Valid(st)
    requires HasSocket(st.users, socket)
    ensures var r := DisconnectUser(st, User(socket));
            && r.users == Without(st.users, socket)
            && !HasSocket(r.users, socket)
            && |r.users| == |st.users| - 1
            && r.chats == st.chats
  {
    var us := st.users;
    var k := IndexOfSocket(us, socket);
    var r := DisconnectUser(st, User(socket));
    assert r.users == us[..k] + us[k + 1..];
    WithoutAt(us, k, socket);
    WithoutRemoves(us, socket);
  }

  /** Removing the only entry of a socket by position is the same as filtering the socket out. */
  lemma WithoutAt(us: seq<User>, k: nat, socket: SocketId)
    requires UniqueSockets(us)
    requires k < |us| && us[k].socket == socket
    ensures Without(us, socket) == us[..k] + us[k + 1..]
  {
    var before, after := us[..k], us[k + 1..];
    OnlyEntry(us, k);
    WithoutAbsent(before, socket);
    WithoutAbsent(after, socket);
    assert us == before + [us[k]] + after;
    WithoutAround(before, us[k], after, socket);
  }

  /** In a list with unique sockets, the entry at `k` is the only one with its socket. */
  lemma OnlyEntry(us: seq<User>, k: nat)
    requires UniqueSockets(us) && k < |us|
    ensures !HasSocket(us[..k], us[k].socket) && !HasSocket(us[k + 1..], us[k].socket)
  {
    var before, after := us[..k], us[k + 1..];
    forall i | 0 <= i < |before| ensures before[i].socket != us[k].socket {
      assert before[i] == us[i];
    }
    forall i | 0 <= i < |after| ensures after[i].socket != us[k].socket {
      assert after[i] == us[k + 1 + i];
    }
  }

  lemma WithoutAround(before: seq<User>, u: User, after: seq<User>, socket: SocketId)
    requires u.socket == socket
    ensures Without(before + [u] + after, socket) == Without(before, socket) + Without(after, socket)
  {
    assert Without([u], socket) == [] by {
      assert [u][1..] == [];
    }
    WithoutConcat(before + [u], after, socket);
    WithoutConcat(before, [u], socket);
    assert Without(before, socket) + [] == Without(before, socket);
  }

  lemma {:induction false} WithoutConcat(a: seq<User>, b: seq<User>, socket: SocketId)
    ensures Without(a + b, socket) == Without(a, socket) + Without(b, socket)
  {
    if a == [] {
      assert a + b == b;
    } else {
      assert (a + b)[0] == a[0];
      assert (a + b)[1..] == a[1..] + b;
      WithoutConcat(a[1..], b, socket);
    }
  }

  lemma {:induction false} WithoutAbsent(us: seq<User>, socket: SocketId)
    requires !HasSocket(us, socket)
    ensures Without(us, socket) == us
  {
    if us != [] {
      HasSocketTail(us, socket);
      WithoutAbsent(us[1..], socket);
      assert us == [us[0]] + us[1..];
    }
  }

  lemma {:induction false} WithoutRemoves(us: seq<User>, socket: SocketId)
    ensures !HasSocket(Without(us, socket), socket)
  {
    if us != [] {
      WithoutRemoves(us[1..], socket);
      var head := if us[0].socket == socket then [] else [us[0]];
      assert !HasSocket(head, socket);
      HasSocketConcat(head, Without(us[1..], socket), socket);
    }
  }

  /** Disconnecting an unregistered socket removes the most recently created user instead. */
  lemma DisconnectUnknownRemovesLast(st: State, socket: SocketId)
    requires !HasSocket(st.users, socket) && st.users != []
    ensures DisconnectUser(st, User(socket)).users == st.users[..|st.users| - 1]
  {
  }

  /** Disconnecting leaves the socket listed in every chat it had joined. */
  lemma DisconnectKeepsMemberships(st: State, socket: SocketId, chatId: ChatId)
    requires HasSocket(Members(st, chatId), socket)
    ensures HasSocket(Members(DisconnectUser(st, User(socket)), chatId), socket)
  {
  }
}

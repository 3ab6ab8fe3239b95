/** The query options `getMessages` builds before it asks the store for messages. */
module History {
  import opened Wrappers
  import opened Messages

  /** The most messages one query returns (`MESSAGE_LIMIT`). */
  const MessageLimit: nat := 100

  /**
   How many days back a query is meant to reach (`DAYS_LIMIT`). The cut-off
   date is computed from it but never placed in the options, so no member
   below reads it.
   */
  const DaysLimit: nat := 30

  /** The request's `chat`, `user` and `sort`; `None` is a missing field. */
  datatype GetMessagesOpts = GetMessagesOpts(chat: Option<int>, user: Option<int>, sort: Option<int>)

  /** The `where` record: no condition, one author, or one chat. */
  datatype Where = AnyMessage | ByUser(user: int) | ByChat(chat: int)

  /** `{ take, order: { sent }, where }` as handed to the store. */
  datatype QueryOptions = QueryOptions(take: nat, orderSent: int, where: Where)

  /** JavaScript truthiness of an optional number: present and not 0 (NaN is not modelled). */
  predicate Truthy(x: Option<int>) {
    x.Some? && x.value != 0
  }

  /**
   The options `getMessages` builds: at most `MESSAGE_LIMIT` messages,
   ordered by `sent` in the direction `sort` (descending when missing); a
   truthy `user` restricts to that author, and a truthy `chat` then
   replaces that restriction with the chat.
   */
  function GetMessagesOptions(p: GetMessagesOpts): (r: QueryOptions)
    ensures r.take == MessageLimit
    ensures p.sort == None ==> r.orderSent == -1
    ensures p.sort.Some? ==> r.orderSent == p.sort.value
    ensures Truthy(p.chat) ==> r.where == ByChat(p.chat.value)
    ensures !Truthy(p.chat) && Truthy(p.user) ==> r.where == ByUser(p.user.value)
    ensures !Truthy(p.chat) && !Truthy(p.user) ==> r.where == AnyMessage
  {
    var sort := if p.sort.Some? then p.sort.value else -1;
    var opts := QueryOptions(MessageLimit, sort, AnyMessage);
    var opts := if Truthy(p.user) then opts.(where := ByUser(p.user.value)) else opts;
    if Truthy(p.chat) then opts.(where := ByChat(p.chat.value)) else opts
  }

  /** Whether a stored message meets a `where` record. */
  predicate Selects(w: Where, m: Message) {
    match w
    case AnyMessage => true
    case ByUser(u) => m.user == u
    case ByChat(c) => m.chat == c
  }

  /**
   What a query selects: with a truthy `chat`, exactly that chat's messages
   whatever `user` says; otherwise, with a truthy `user`, exactly that
   author's; otherwise every message.
   */
  lemma QuerySelects(p: GetMessagesOpts, m: Message)
    ensures var w := GetMessagesOptions(p).where;
            && (Truthy(p.chat) ==> (Selects(w, m) <==> m.chat == p.chat.value))
            && (!Truthy(p.chat) && Truthy(p.user) ==> (Selects(w, m) <==> m.user == p.user.value))
            && (!Truthy(p.chat) && !Truthy(p.user) ==> Selects(w, m))
  {
  }

  /** A `chat` of 0 is falsy, so it filters nothing and an author filter applies instead. */
  lemma ChatZeroIsIgnored(user: int, sort: Option<int>)
    requires user != 0
    ensures GetMessagesOptions(GetMessagesOpts(Some(0), Some(user), sort)).where == ByUser(user)
  {
  }
}

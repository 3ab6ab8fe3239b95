/** `validateMessage`: turning untrusted input into a message or an error. */
module Validation {
  import opened Wrappers
  import opened JsValue
  import opened Messages

  /** The four errors `validateMessage` throws, in the order it checks for them. */
  datatype ValidationError = UserNotInteger | ChatNotInteger | BodyNotString | BodyEmpty
  {
    /** The text of the thrown error. */
    function Text(): string {
      match this
      case UserNotInteger => "`user` must be an integer"
      case ChatNotInteger => "`chat` must be an integer"
      case BodyNotString => "`body` must be a string"
      case BodyEmpty => "`body` must not be empty"
    }
  }

  /**
   Checks `user`, `chat` and `body` in that order and stops at the first
   failure; on success builds an unsaved message carrying exactly the inputs.
   */
  function ValidateMessage(body: Value, user: Value, chat: Value): (r: Result<Message, ValidationError>)
    ensures r == Failure(UserNotInteger) <==> !IsInteger(user)
    ensures r == Failure(ChatNotInteger) <==> IsInteger(user) && !IsInteger(chat)
    ensures r == Failure(BodyNotString) <==> IsInteger(user) && IsInteger(chat) && !body.Str?
    ensures r == Failure(BodyEmpty) <==> IsInteger(user) && IsInteger(chat) && body == Str([])
    ensures r.Success? ==>
              && r.value.Unsaved()
              && body == Str(r.value.body) && r.value.body != []
              && user == Int(r.value.user)
              && chat == Int(r.value.chat)
  {
    if !IsInteger(user) then Failure(UserNotInteger)
    else if !IsInteger(chat) then Failure(ChatNotInteger)
    else if !IsString(body) then Failure(BodyNotString)
    else if IsEmpty(body) then Failure(BodyEmpty)
    else Success(Message(None, body.s, AsInt(chat), AsInt(user), None))
  }

  /** Every unsaved message with a non-empty body survives validation of its own fields unchanged. */
  lemma ValidateRoundTrip(m: Message)
    requires m.Unsaved() && m.body != []
    ensures ValidateMessage(Str(m.body), Int(m.user), Int(m.chat)) == Success(m)
  {
  }

  /** The error reported is exactly the first check, in `validateMessage`'s order, that the input fails. */
  lemma ValidateFirstFailureDecides(body: Value, user: Value, chat: Value, e: ValidationError)
    ensures ValidateMessage(body, user, chat) == Failure(e)
            <==> (forall earlier: ValidationError :: Rank(earlier) < Rank(e) ==> Passes(earlier, body, user, chat))
                 && !Passes(e, body, user, chat)
  {
    assert Rank(UserNotInteger) == 0 && Rank(ChatNotInteger) == 1 && Rank(BodyNotString) == 2;
  }

  /** Validation succeeds exactly when every check passes. */
  lemma ValidateSucceedsIffAllPass(body: Value, user: Value, chat: Value)
    ensures ValidateMessage(body, user, chat).Success?
            <==> forall e: ValidationError :: Passes(e, body, user, chat)
  {
    if forall e: ValidationError :: Passes(e, body, user, chat) {
      assert Passes(UserNotInteger, body, user, chat) && Passes(ChatNotInteger, body, user, chat);
      assert Passes(BodyNotString, body, user, chat) && Passes(BodyEmpty, body, user, chat);
    }
  }

  /** The position of a check in the order `validateMessage` runs them. */
  function Rank(e: ValidationError): nat {
    match e
    case UserNotInteger => 0
    case ChatNotInteger => 1
    case BodyNotString => 2
    case BodyEmpty => 3
  }

  /** Whether the input passes the check that would otherwise raise `e`. */
  predicate Passes(e: ValidationError, body: Value, user: Value, chat: Value) {
    match e
    case UserNotInteger => IsInteger(user)
    case ChatNotInteger => IsInteger(chat)
    case BodyNotString => IsString(body)
    case BodyEmpty => !IsEmpty(body)
  }
}

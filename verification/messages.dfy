/** The chat message record that is validated, stored and relayed. */
module Messages {
  import opened Wrappers

  /** An instant assigned by the store; its representation is not modelled. */
  type Timestamp = int

  /**
   A message row. `id` and `sent` are generated by the store on insert, so
   they are absent on a message that has only been validated.
   */
  datatype Message = Message(id: Option<int>, body: string, chat: int, user: int, sent: Option<Timestamp>)
  {
    /** Not yet stored: neither the generated id nor the timestamp is set. */
    predicate Unsaved() {
      id.None? && sent.None?
    }
  }
}

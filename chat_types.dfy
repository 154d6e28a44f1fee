/** The records of a conversation and of the model roster. */
module ChatTypes {
  import opened Wrappers

  /** Who wrote a message. */
  datatype Role = User | Assistant | System

  datatype Message = Message(id: string, role: Role, content: string, timestamp: int)

  /** A conversation. `updatedAt` and `archived` are declared by the record
      type but the chat store builds chats without them, so here they may be
      absent (`None`). Timestamps are milliseconds since the epoch. */
  datatype Chat = Chat(
    id: string,
    title: string,
    model: string,
    createdAt: int,
    updatedAt: Option<int>,
    archived: Option<bool>,
    messages: seq<Message>)

  /** One entry of the backend's model roster. */
  datatype OllamaModel = OllamaModel(
    name: string,
    model: string,
    modifiedAt: string,
    size: int,
    digest: string)

  /** `chat.archived` is truthy: absent counts as not archived. */
  predicate IsArchived(c: Chat) {
    c.archived == Some(true)
  }
}

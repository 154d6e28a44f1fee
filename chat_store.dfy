/** The chat session store: the list of chats, the active chat, the model
    roster and the streaming flags, with the actions that load, create,
    select, delete and send.

    Ids and timestamps, which the source draws from `uuidv4()` and
    `Date.now()`, are parameters. The backend is an input: the reply to
    each request is a parameter, and `JSON.parse(line).message?.content`
    is the parameter `parse` as in `Ollama`. */
module ChatStore {
  import opened Wrappers
  import opened Strings
  import opened ChatTypes
  import Ollama
  import Storage

  // ---------------------------------------------------------------------
  // Operations on the list of chats
  // ---------------------------------------------------------------------

  /** `!!activeChatId`: present and not the empty string. */
  predicate Truthy(id: Option<string>) {
    id.Some? && id.value != ""
  }

  /** `chats.find((c) => c.id === id)`: the first chat with that id. */
  function FindChat(chats: seq<Chat>, id: string): (r: Option<Chat>)
    ensures r.None? <==> forall i :: 0 <= i < |chats| ==> chats[i].id != id
    ensures r.Some? ==> r.value.id == id && r.value in chats
  {
    if chats == [] then None
    else if chats[0].id == id then Some(chats[0])
    else
      var r := FindChat(chats[1..], id);
      assert forall i :: 1 <= i < |chats| ==> chats[i] == chats[1..][i - 1];
      r
  }

  /** `chats.map((c) => (c.id === id ? chat : c))`: every chat with that id
      replaced by `chat`, the others kept in place. */
  function ReplaceChat(chats: seq<Chat>, id: string, chat: Chat): (r: seq<Chat>)
    ensures |r| == |chats|
    ensures forall i {:trigger r[i]} :: 0 <= i < |chats| ==> r[i] == if chats[i].id == id then chat else chats[i]
  {
    if chats == [] then [] else
      [if chats[0].id == id then chat else chats[0]] + ReplaceChat(chats[1..], id, chat)
  }

  /** `chats.filter((c) => c.id !== id)`. */
  function RemoveChats(chats: seq<Chat>, id: string): (r: seq<Chat>)
    ensures |r| <= |chats|
    ensures forall i :: 0 <= i < |r| ==> r[i].id != id
  {
    if chats == [] then [] else
      (if chats[0].id != id then [chats[0]] else []) + RemoveChats(chats[1..], id)
  }

  /** Replacing twice keeps the last replacement. */
  lemma ReplaceTwice(chats: seq<Chat>, id: string, a: Chat, b: Chat)
    requires a.id == id
    ensures ReplaceChat(ReplaceChat(chats, id, a), id, b) == ReplaceChat(chats, id, b)
  {
  }

  /** After a replacement by a chat with the same id, looking the id up
      finds that chat, provided some chat had the id. */
  lemma {:induction false} FindReplaced(chats: seq<Chat>, id: string, chat: Chat)
    requires chat.id == id && FindChat(chats, id).Some?
    ensures FindChat(ReplaceChat(chats, id, chat), id) == Some(chat)
  {
    if chats[0].id != id {
      FindReplaced(chats[1..], id, chat);
      var r := ReplaceChat(chats, id, chat);
      assert r[1..] == ReplaceChat(chats[1..], id, chat);
    }
  }

  /** `find` returns the chat at the first index that has the id. */
  lemma {:induction false} FindFirst(chats: seq<Chat>, id: string, k: nat)
    requires k < |chats| && chats[k].id == id
    requires forall i :: 0 <= i < k ==> chats[i].id != id
    ensures FindChat(chats, id) == Some(chats[k])
  {
    if k > 0 {
      FindFirst(chats[1..], id, k - 1);
    }
  }

  /** `filter` keeps exactly the chats with another id, in their order:
      filtering a concatenation filters each part. */
  lemma {:induction false} RemoveChatsAppend(a: seq<Chat>, b: seq<Chat>, id: string)
    ensures RemoveChats(a + b, id) == RemoveChats(a, id) + RemoveChats(b, id)
  {
    if a == [] {
      assert a + b == b;
    } else {
      assert (a + b)[0] == a[0];
      assert (a + b)[1..] == a[1..] + b;
      RemoveChatsAppend(a[1..], b, id);
    }
  }

  /** The chats that remain after removing an id are exactly the chats
      with another id. */
  lemma {:induction false} RemoveChatsMembers(chats: seq<Chat>, id: string)
    ensures forall c :: c in RemoveChats(chats, id) <==> c in chats && c.id != id
  {
    if chats != [] {
      RemoveChatsMembers(chats[1..], id);
      assert chats == [chats[0]] + chats[1..];
    }
  }

  // ---------------------------------------------------------------------
  // Operations on the messages of a chat
  // ---------------------------------------------------------------------

  /** The last message exists and was written by the assistant (`lastMsg &&
      lastMsg.role === 'assistant'`). */
  predicate EndsWithAssistant(ms: seq<Message>) {
    |ms| > 0 && ms[|ms| - 1].role == Assistant
  }

  /** One streamed chunk: appended to the content of the last message when
      that is an assistant message; otherwise nothing changes. */
  function AppendToLast(ms: seq<Message>, chunk: string): (r: seq<Message>)
    ensures |r| == |ms|
    ensures forall i :: 0 <= i < |ms| - 1 ==> r[i] == ms[i]
    ensures EndsWithAssistant(ms) ==>
      r[|ms| - 1] == ms[|ms| - 1].(content := ms[|ms| - 1].content + chunk)
    ensures !EndsWithAssistant(ms) ==> r == ms
  {
    if EndsWithAssistant(ms) then
      var last := ms[|ms| - 1];
      ms[..|ms| - 1] + [last.(content := last.content + chunk)]
    else ms
  }

  /** Appending two chunks one after the other appends their
      concatenation. */
  lemma AppendTwice(ms: seq<Message>, a: string, b: string)
    ensures AppendToLast(AppendToLast(ms, a), b) == AppendToLast(ms, a + b)
  {
    if EndsWithAssistant(ms) {
      var last := ms[|ms| - 1];
      assert last.content + a + b == last.content + (a + b);
    }
  }

  /** The error annotation: the last message, when it is an assistant
      message, keeps a non-empty content and otherwise gets
      `Error: <message>`. */
  function AnnotateError(ms: seq<Message>, message: string): (r: seq<Message>)
    ensures |r| == |ms|
    ensures ms != [] ==> r[..|ms| - 1] == ms[..|ms| - 1]
    ensures EndsWithAssistant(ms) && ms[|ms| - 1].content != "" ==> r == ms
    ensures EndsWithAssistant(ms) && ms[|ms| - 1].content == "" ==>
      r[|ms| - 1] == ms[|ms| - 1].(content := "Error: " + message)
    ensures !EndsWithAssistant(ms) ==> r == ms
  {
    if EndsWithAssistant(ms) then
      var last := ms[|ms| - 1];
      var r := ms[..|ms| - 1] + [last.(content := if last.content != "" then last.content else "Error: " + message)];
      assert r[..|ms| - 1] == ms[..|ms| - 1];
      r
    else ms
  }

  /** The first message's title: the trimmed content cut to 50 characters,
      with `...` when it was longer; a chat that already has messages keeps
      its title. */
  function AutoTitle(chat: Chat, trimmed: string): (r: string)
    ensures |chat.messages| > 0 ==> r == chat.title
    ensures |chat.messages| == 0 && |trimmed| <= 50 ==> r == trimmed
    ensures |chat.messages| == 0 && |trimmed| > 50 ==> r == trimmed[..50] + "..."
  {
    if |chat.messages| == 0 then Slice(trimmed, 0, 50) + (if |trimmed| > 50 then "..." else "")
    else chat.title
  }

  /** `updatedChat`: the chat with its new title, the selected model, and
      the user message and the empty assistant placeholder appended; its
      id, creation time and other fields are those of `chat`. */
  function Prepared(chat: Chat, trimmed: string, model: string,
                    userId: string, userTime: int, assistantId: string, assistantTime: int): (r: Chat)
    ensures r.id == chat.id && r.createdAt == chat.createdAt
    ensures r.updatedAt == chat.updatedAt && r.archived == chat.archived
    ensures r.title == AutoTitle(chat, trimmed) && r.model == model
    ensures var n := |chat.messages|;
      && |r.messages| == n + 2 && r.messages[..n] == chat.messages
      && r.messages[n] == Message(userId, User, trimmed, userTime)
      && EndsWithAssistant(r.messages) && r.messages[n + 1].content == ""
  {
    chat.(title := AutoTitle(chat, trimmed), model := model,
          messages := chat.messages + [Message(userId, User, trimmed, userTime),
                                       Message(assistantId, Assistant, "", assistantTime)])
  }

  /** The chat after all chunks were appended to its last message. */
  function Streamed(chat: Chat, increments: seq<string>): Chat {
    chat.(messages := AppendToLast(chat.messages, Concat(increments)))
  }

  /** The chat after the `catch` block: annotated for an error, as it was
      for an abort or a normal end. */
  function Settled(chat: Chat, ending: Ollama.StreamEnd): Chat {
    match ending
    case Failed(m) => chat.(messages := AnnotateError(chat.messages, m))
    case _ => chat
  }

  /** The request messages: user messages, and assistant messages with some
      content, as role and content, in their order. RequestMessagesAppend
      and RequestMessagesOne pin this down. */
  function RequestMessages(ms: seq<Message>): (r: seq<Ollama.ChatMessage>)
    ensures |r| <= |ms|
    ensures forall i :: 0 <= i < |r| ==>
      r[i].role == User || (r[i].role == Assistant && r[i].content != "")
  {
    if ms == [] then []
    else
      var init, m := ms[..|ms| - 1], ms[|ms| - 1];
      RequestMessages(init)
        + (if m.role == User || (m.role == Assistant && m.content != "")
           then [Ollama.ChatMessage(m.role, m.content)] else [])
  }

  /** The request of a concatenation is the concatenation of the requests:
      the messages that are sent keep their order. */
  lemma {:induction false} RequestMessagesAppend(a: seq<Message>, b: seq<Message>)
    ensures RequestMessages(a + b) == RequestMessages(a) + RequestMessages(b)
    decreases |b|
  {
    if b == [] {
      assert a + b == a;
    } else {
      var ab := a + b;
      assert ab[..|ab| - 1] == a + b[..|b| - 1];
      assert ab[|ab| - 1] == b[|b| - 1];
      RequestMessagesAppend(a, b[..|b| - 1]);
    }
  }

  /** One message is sent, with its role and content, exactly when it is a
      user message or an assistant message with some content. */
  lemma RequestMessagesOne(m: Message)
    ensures RequestMessages([m]) ==
      if m.role == User || (m.role == Assistant && m.content != "")
      then [Ollama.ChatMessage(m.role, m.content)] else []
  {
    assert [m][..0] == [];
  }

  /** The request of a send carries the history as before plus the new
      user message: the empty placeholder is never sent. */
  lemma RequestOfPrepared(ms: seq<Message>, user: Message, assistant: Message)
    requires user.role == User && assistant.role == Assistant && assistant.content == ""
    ensures RequestMessages(ms + [user, assistant])
         == RequestMessages(ms) + [Ollama.ChatMessage(User, user.content)]
  {
    assert (ms + [user, assistant])[..|ms| + 1] == ms + [user];
    assert (ms + [user])[..|ms|] == ms;
  }

  /** Streaming into the prepared chat fills the placeholder with the
      concatenated increments and changes nothing else: the messages are
      the old ones, the user message, and the assistant message holding
      everything received. */
  lemma StreamedMessages(chat: Chat, trimmed: string, model: string, userId: string,
                         userTime: int, assistantId: string, assistantTime: int,
                         increments: seq<string>)
    ensures var p := Prepared(chat, trimmed, model, userId, userTime, assistantId, assistantTime);
      Streamed(p, increments).messages == chat.messages +
        [Message(userId, User, trimmed, userTime),
         Message(assistantId, Assistant, Concat(increments), assistantTime)]
  {
    var p := Prepared(chat, trimmed, model, userId, userTime, assistantId, assistantTime);
    var ms := p.messages;
    assert ms[..|ms| - 1] == chat.messages + [Message(userId, User, trimmed, userTime)];
    assert "" + Concat(increments) == Concat(increments);
  }

  /** On an error, the reply is annotated only when nothing was received:
      the assistant message reads `Error: <message>` exactly when no
      increment arrived (increments are never empty), and otherwise holds
      what was received. An abort leaves the received text as it is. */
  lemma SettledReply(chat: Chat, increments: seq<string>, ending: Ollama.StreamEnd)
    requires EndsWithAssistant(chat.messages) && chat.messages[|chat.messages| - 1].content == ""
    requires forall k :: 0 <= k < |increments| ==> increments[k] != ""
    ensures var ms := Settled(Streamed(chat, increments), ending).messages;
      var last := ms[|ms| - 1];
      && |ms| == |chat.messages|
      && ms[..|ms| - 1] == chat.messages[..|ms| - 1]
      && (ending.Failed? && increments == [] ==> last.content == "Error: " + ending.message)
      && (!ending.Failed? || increments != [] ==> last.content == Concat(increments))
  {
    var ms := chat.messages;
    var s := Streamed(chat, increments).messages;
    assert "" + Concat(increments) == Concat(increments);
    ConcatEmpty(increments);
    assert s[..|ms| - 1] == ms[..|ms| - 1];
  }

  /** A concatenation of non-empty strings is empty only when there are
      none. */
  lemma {:induction false} ConcatEmpty(parts: seq<string>)
    requires forall k :: 0 <= k < |parts| ==> parts[k] != ""
    ensures Concat(parts) == "" <==> parts == []
  {
    if parts != [] {
      assert |Concat(parts)| >= |parts[|parts| - 1]|;
    }
  }

  // ---------------------------------------------------------------------
  // The store
  // ---------------------------------------------------------------------

  /** The handle `stopStreaming` uses to cancel a request. */
  class AbortController {
    var aborted: bool

    constructor()
      ensures !aborted
    {
      aborted := false;
    }

    method Abort()
      modifies this
      ensures aborted
    {
      aborted := true;
    }
  }

  class ChatStoreState {
    var chats: seq<Chat>
    var activeChatId: Option<string>
    var models: seq<OllamaModel>
    var selectedModel: string
    var isConnected: bool
    var isStreaming: bool
    var abortController: AbortController?
    /** The persistent store the actions write through. */
    const db: Storage.ChatStorage

    ghost predicate Valid()
      reads this, db
    {
      db.Valid()
    }

    /** The initial state: no chats, nothing active, no models, not
        connected, not streaming. */
    constructor(db: Storage.ChatStorage)
      requires db.Valid()
      ensures Valid() && this.db == db
      ensures chats == [] && activeChatId == None && models == [] && selectedModel == ""
      ensures !isConnected && !isStreaming && abortController == null
    {
      this.db := db;
      chats := [];
      activeChatId := None;
      models := [];
      selectedModel := "";
      isConnected := false;
      isStreaming := false;
      abortController := null;
    }

    /** `loadChats`: the stored chats, newest first; when none is active,
        the first of them becomes active. */
    method LoadChats()
      requires Valid()
      modifies this, db
      ensures db.OpenedOnce()
      ensures Valid() && db.records == old(db.records)
      ensures Storage.SortedByCreatedDesc(chats) && Storage.ListsExactly(chats, db.records)
      ensures activeChatId ==
        if |chats| > 0 && !Truthy(old(activeChatId)) then Some(chats[0].id) else old(activeChatId)
      ensures models == old(models) && selectedModel == old(selectedModel)
      ensures isConnected == old(isConnected) && isStreaming == old(isStreaming)
      ensures abortController == old(abortController)
    {
      var loaded := db.GetChats();
      chats := loaded;
      if |chats| > 0 && !Truthy(activeChatId) {
        activeChatId := Some(chats[0].id);
      }
    }

    /** `loadModels`: on success the roster, its first model selected (or
        none) and connected; on failure no models and disconnected, the
        selection kept. The error never escapes. */
    method LoadModels(reply: Ollama.TagsReply)
      modifies this
      ensures Ollama.FetchModels(reply).Success? ==>
        && models == Ollama.FetchModels(reply).value
        && selectedModel == (if |models| > 0 then models[0].name else "")
        && isConnected
      ensures Ollama.FetchModels(reply).Failure? ==>
        models == [] && selectedModel == old(selectedModel) && !isConnected
      ensures chats == old(chats) && activeChatId == old(activeChatId)
      ensures isStreaming == old(isStreaming) && abortController == old(abortController)
    {
      match Ollama.FetchModels(reply) {
        case Success(roster) =>
          models := roster;
          selectedModel := if |roster| > 0 then roster[0].name else "";
          isConnected := true;
        case Failure(_) =>
          models := [];
          isConnected := false;
      }
    }

    /** `checkOllamaConnection`: probes the backend and, when it answers,
        loads the roster with a second request. */
    method CheckOllamaConnection(probe: Ollama.TagsReply, roster: Ollama.TagsReply)
      modifies this
      ensures !Ollama.CheckConnection(probe) ==>
        !isConnected && models == old(models) && selectedModel == old(selectedModel)
      ensures Ollama.CheckConnection(probe) && Ollama.FetchModels(roster).Success? ==>
        && models == Ollama.FetchModels(roster).value
        && selectedModel == (if |models| > 0 then models[0].name else "")
        && isConnected
      ensures Ollama.CheckConnection(probe) && Ollama.FetchModels(roster).Failure? ==>
        models == [] && selectedModel == old(selectedModel) && !isConnected
      ensures chats == old(chats) && activeChatId == old(activeChatId)
      ensures isStreaming == old(isStreaming) && abortController == old(abortController)
    {
      var connected := Ollama.CheckConnection(probe);
      isConnected := connected;
      if connected {
        LoadModels(roster);
      }
    }

    /** `createChat`: a new empty chat titled `New Chat` for the selected
        model goes in front of the others and becomes active; it is saved
        without `updatedAt` and `archived`. */
    method CreateChat(id: string, now: int)
      requires Valid()
      modifies this, db
      ensures db.OpenedOnce()
      ensures Valid()
      ensures var chat := Chat(id, "New Chat", old(selectedModel), now, None, None, []);
        && chats == [chat] + old(chats)
        && activeChatId == Some(id)
        && db.records == old(db.records)[id := chat]
      ensures models == old(models) && selectedModel == old(selectedModel)
      ensures isConnected == old(isConnected) && isStreaming == old(isStreaming)
      ensures abortController == old(abortController)
    {
      var chat := Chat(id, "New Chat", selectedModel, now, None, None, []);
      chats := [chat] + chats;
      activeChatId := Some(chat.id);
      db.SaveChat(chat);
    }

    /** `setActiveChat`: any id is accepted, whether a chat has it or
        not. */
    method SetActiveChat(id: string)
      modifies this
      ensures activeChatId == Some(id)
      ensures chats == old(chats) && models == old(models) && selectedModel == old(selectedModel)
      ensures isConnected == old(isConnected) && isStreaming == old(isStreaming)
      ensures abortController == old(abortController)
    {
      activeChatId := Some(id);
    }

    /** `deleteChat`: the record goes from the database, every chat with the
        id goes from the list, and when it was the active one the first
        remaining chat (or none) becomes active. */
    method DeleteChat(id: string)
      requires Valid()
      modifies this, db
      ensures db.OpenedOnce()
      ensures Valid() && db.records == old(db.records) - {id}
      ensures chats == RemoveChats(old(chats), id)
      ensures old(activeChatId) == Some(id) ==>
        activeChatId == if |chats| > 0 then Some(chats[0].id) else None
      ensures old(activeChatId) != Some(id) ==> activeChatId == old(activeChatId)
      ensures models == old(models) && selectedModel == old(selectedModel)
      ensures isConnected == old(isConnected) && isStreaming == old(isStreaming)
      ensures abortController == old(abortController)
    {
      db.DeleteChat(id);
      var remaining := RemoveChats(chats, id);
      var active := if activeChatId == Some(id) then
          (if |remaining| > 0 then Some(remaining[0].id) else None)
        else activeChatId;
      chats := remaining;
      activeChatId := active;
    }

    /** `sendMessage`: nothing happens without an active id, for blank
        content, or when the active chat is gone. Otherwise the chat gets
        its title, the selected model and the two new messages and is
        saved; the request is sent with the history; each increment is
        appended to the last message; an error other than an abort
        annotates it; and finally the chat is saved again and the streaming
        flags are cleared. The request sent is returned. */
    method SendMessage(content: string, userId: string, userTime: int,
                       assistantId: string, assistantTime: int,
                       parse: string -> Option<string>, reply: Ollama.ChatReply)
      returns (request: Option<Ollama.ChatRequest>)
      requires Valid()
      modifies this, db
      ensures Valid()
      ensures !Truthy(old(activeChatId)) || IsBlank(content)
              || FindChat(old(chats), old(activeChatId).value).None? ==>
        && request == None
        && chats == old(chats) && db.records == old(db.records)
        && db.connection == old(db.connection)
        && isStreaming == old(isStreaming) && abortController == old(abortController)
      ensures Truthy(old(activeChatId)) && !IsBlank(content)
              && FindChat(old(chats), old(activeChatId).value).Some? ==>
        var id := old(activeChatId).value;
        var p := Prepared(FindChat(old(chats), id).value, Trim(content), old(selectedModel),
                          userId, userTime, assistantId, assistantTime);
        var final := Outcome(p, Ollama.ExpectedRun(parse, reply));
        && request == Some(Ollama.ChatRequest(old(selectedModel), RequestMessages(p.messages), true))
        && chats == ReplaceChat(old(chats), id, final)
        && db.records == old(db.records)[id := final]
        && db.OpenedOnce()
        && !isStreaming && abortController == null
      ensures activeChatId == old(activeChatId) && models == old(models)
      ensures selectedModel == old(selectedModel) && isConnected == old(isConnected)
    {
      if !Truthy(activeChatId) || IsBlank(content) {
        return None;
      }
      var id := activeChatId.value;
      var found := FindChat(chats, id);
      if found.None? {
        return None;
      }
      request := Send(id, found.value, Trim(content), userId, userTime,
                      assistantId, assistantTime, parse, reply);
    }

    /** `sendMessage` past its guard, for the chat `chat` found under the
        active id `id`. */
    method Send(id: string, chat: Chat, trimmed: string, userId: string, userTime: int,
                assistantId: string, assistantTime: int,
                parse: string -> Option<string>, reply: Ollama.ChatReply)
      returns (request: Option<Ollama.ChatRequest>)
      requires Valid() && FindChat(chats, id) == Some(chat)
      modifies this, db
      ensures Valid() && db.OpenedOnce()
      ensures var p := Prepared(chat, trimmed, old(selectedModel),
                                userId, userTime, assistantId, assistantTime);
        var final := Outcome(p, Ollama.ExpectedRun(parse, reply));
        && request == Some(Ollama.ChatRequest(old(selectedModel), RequestMessages(p.messages), true))
        && chats == ReplaceChat(old(chats), id, final)
        && db.records == old(db.records)[id := final]
        && !isStreaming && abortController == null
      ensures activeChatId == old(activeChatId) && models == old(models)
      ensures selectedModel == old(selectedModel) && isConnected == old(isConnected)
    {
      ghost var base, saved := chats, db.records;
      var model := selectedModel;
      var updatedChat := Prepare(id, chat, trimmed, userId, userTime, assistantId, assistantTime);
      assert updatedChat.id == id;
      request := Some(Ollama.ChatRequest(model, RequestMessages(updatedChat.messages), true));
      var run := Ollama.StreamChat(parse, reply);
      Exchange(base, id, updatedChat, run);
      SaveTwice(saved, id, updatedChat, Outcome(updatedChat, run));
    }

    /** The part of `sendMessage` before the request: the prepared chat
        replaces the found one and is saved, the streaming flag is set, and
        a new abort controller is held. */
    method Prepare(id: string, chat: Chat, trimmed: string, userId: string, userTime: int,
                   assistantId: string, assistantTime: int)
      returns (updatedChat: Chat)
      requires Valid() && FindChat(chats, id) == Some(chat)
      modifies this, db
      ensures Valid() && db.OpenedOnce()
      ensures updatedChat == Prepared(chat, trimmed, old(selectedModel),
                                      userId, userTime, assistantId, assistantTime)
      ensures chats == ReplaceChat(old(chats), id, updatedChat)
      ensures db.records == old(db.records)[id := updatedChat]
      ensures isStreaming && abortController != null && fresh(abortController)
      ensures activeChatId == old(activeChatId) && models == old(models)
      ensures selectedModel == old(selectedModel) && isConnected == old(isConnected)
    {
      updatedChat := Prepared(chat, trimmed, selectedModel, userId, userTime, assistantId, assistantTime);
      assert updatedChat.id == id;
      chats := ReplaceChat(chats, id, updatedChat);
      isStreaming := true;
      db.SaveChat(updatedChat);
      var controller := new AbortController();
      abortController := controller;
    }

    /** The `try`/`catch`/`finally` of `sendMessage`, once the prepared chat
        is in place: the increments, the error annotation, the final save
        and the cleared flags. */
    method Exchange(ghost base: seq<Chat>, id: string, chat: Chat, run: Ollama.StreamRun)
      requires Valid() && chat.id == id && FindChat(base, id).Some?
      requires chats == ReplaceChat(base, id, chat)
      modifies this, db
      ensures Valid() && db.OpenedOnce()
      ensures chats == ReplaceChat(base, id, Outcome(chat, run))
      ensures db.records == old(db.records)[id := Outcome(chat, run)]
      ensures !isStreaming && abortController == null
      ensures activeChatId == old(activeChatId) && models == old(models)
      ensures selectedModel == old(selectedModel) && isConnected == old(isConnected)
    {
      ApplyIncrements(base, id, chat, run.increments);
      Catch(base, id, Streamed(chat, run.increments), run.ending);
      Finally(base, id, Outcome(chat, run));
    }

    /** The `catch` block: an error that is not an abort annotates the last
        message; an abort changes nothing. */
    method Catch(ghost base: seq<Chat>, id: string, chat: Chat, ending: Ollama.StreamEnd)
      requires chat.id == id && FindChat(base, id).Some?
      requires chats == ReplaceChat(base, id, chat)
      modifies this
      ensures chats == ReplaceChat(base, id, Settled(chat, ending))
      ensures activeChatId == old(activeChatId) && models == old(models)
      ensures selectedModel == old(selectedModel) && isConnected == old(isConnected)
      ensures isStreaming == old(isStreaming) && abortController == old(abortController)
    {
      match ending {
        case Failed(m) =>
          AnnotateStep(base, id, chat, m);
          chats := AnnotateChat(chats, id, m);
        case _ =>
      }
    }

    /** The `finally` block: the chat as it now stands is saved, and the
        streaming flags are cleared. */
    method Finally(ghost base: seq<Chat>, id: string, chat: Chat)
      requires Valid() && chat.id == id && FindChat(base, id).Some?
      requires chats == ReplaceChat(base, id, chat)
      modifies this, db
      ensures Valid() && db.OpenedOnce()
      ensures chats == old(chats)
      ensures db.records == old(db.records)[id := chat]
      ensures !isStreaming && abortController == null
      ensures activeChatId == old(activeChatId) && models == old(models)
      ensures selectedModel == old(selectedModel) && isConnected == old(isConnected)
    {
      FindReplaced(base, id, chat);
      var finalChat := FindChat(chats, id);
      if finalChat.Some? {
        db.SaveChat(finalChat.value);
      }
      isStreaming := false;
      abortController := null;
    }

    /** The `for await` loop: each increment goes to the last message of the
        chat with the id. */
    method ApplyIncrements(ghost base: seq<Chat>, id: string, chat: Chat, increments: seq<string>)
      requires chat.id == id && FindChat(base, id).Some?
      requires chats == ReplaceChat(base, id, chat)
      modifies this
      ensures chats == ReplaceChat(base, id, Streamed(chat, increments))
      ensures activeChatId == old(activeChatId) && models == old(models)
      ensures selectedModel == old(selectedModel) && isConnected == old(isConnected)
      ensures isStreaming == old(isStreaming) && abortController == old(abortController)
    {
      assert Streamed(chat, increments[..0]) == chat by {
        AppendEmpty(chat.messages);
      }
      var i := 0;
      while i < |increments|
        invariant 0 <= i <= |increments|
        invariant chats == ReplaceChat(base, id, Streamed(chat, increments[..i]))
        invariant activeChatId == old(activeChatId) && models == old(models)
        invariant selectedModel == old(selectedModel) && isConnected == old(isConnected)
        invariant isStreaming == old(isStreaming) && abortController == old(abortController)
      {
        StreamStep(base, id, chat, increments, i);
        chats := AppendChunk(chats, id, increments[i]);
        i := i + 1;
      }
      assert increments[..|increments|] == increments;
    }

    /** `stopStreaming`: aborts the held controller, if any. */
    method StopStreaming()
      modifies abortController
      ensures abortController != null ==> abortController.aborted
    {
      if abortController != null {
        abortController.Abort();
      }
    }
  }

  /** The chat after the exchange: the increments appended, then the
      error annotation. */
  function Outcome(chat: Chat, run: Ollama.StreamRun): Chat {
    Settled(Streamed(chat, run.increments), run.ending)
  }

  /** Of two saves under one id the second wins. */
  lemma SaveTwice(m: map<string, Chat>, id: string, a: Chat, b: Chat)
    ensures m[id := a][id := b] == m[id := b]
  {
  }

  /** Appending nothing changes nothing. */
  lemma AppendEmpty(ms: seq<Message>)
    ensures AppendToLast(ms, "") == ms
  {
    if EndsWithAssistant(ms) {
      var last := ms[|ms| - 1];
      assert last.(content := last.content + "") == last;
    }
  }

  /** The state update for one streamed chunk: every chat with the id
      becomes the first such chat with the chunk appended to its last
      message; the other chats stay, and without such a chat nothing
      changes. */
  function AppendChunk(chats: seq<Chat>, id: string, chunk: string): (r: seq<Chat>)
    ensures |r| == |chats|
    ensures forall i :: 0 <= i < |chats| && chats[i].id != id ==> r[i] == chats[i]
    ensures FindChat(chats, id).Some? ==> var c := FindChat(chats, id).value;
      forall i :: 0 <= i < |chats| && chats[i].id == id ==>
        r[i] == c.(messages := AppendToLast(c.messages, chunk))
  {
    match FindChat(chats, id)
    case None => chats
    case Some(chat) => ReplaceChat(chats, id, chat.(messages := AppendToLast(chat.messages, chunk)))
  }

  /** The state update of the `catch` block for an error: every chat with
      the id becomes the first such chat with its last message annotated;
      the other chats stay, and without such a chat nothing changes. */
  function AnnotateChat(chats: seq<Chat>, id: string, message: string): (r: seq<Chat>)
    ensures |r| == |chats|
    ensures forall i :: 0 <= i < |chats| && chats[i].id != id ==> r[i] == chats[i]
    ensures FindChat(chats, id).Some? ==> var c := FindChat(chats, id).value;
      forall i :: 0 <= i < |chats| && chats[i].id == id ==>
        r[i] == c.(messages := AnnotateError(c.messages, message))
  {
    match FindChat(chats, id)
    case None => chats
    case Some(chat) => ReplaceChat(chats, id, chat.(messages := AnnotateError(chat.messages, message)))
  }

  /** The `catch` update on the state that holds the streamed chat gives
      the state that holds the annotated chat. */
  lemma AnnotateStep(base: seq<Chat>, id: string, chat: Chat, message: string)
    requires chat.id == id && FindChat(base, id).Some?
    ensures AnnotateChat(ReplaceChat(base, id, chat), id, message)
         == ReplaceChat(base, id, Settled(chat, Ollama.Failed(message)))
  {
    FindReplaced(base, id, chat);
    ReplaceTwice(base, id, chat, Settled(chat, Ollama.Failed(message)));
  }

  /** One chunk more: updating the state that holds the chat streamed so
      far gives the state that holds it streamed one increment further. */
  lemma StreamStep(chats0: seq<Chat>, id: string, chat: Chat, increments: seq<string>, i: nat)
    requires i < |increments| && chat.id == id && FindChat(chats0, id).Some?
    ensures AppendChunk(ReplaceChat(chats0, id, Streamed(chat, increments[..i])), id, increments[i])
         == ReplaceChat(chats0, id, Streamed(chat, increments[..i + 1]))
  {
    var before := Streamed(chat, increments[..i]);
    var after := before.(messages := AppendToLast(before.messages, increments[i]));
    calc {
      AppendChunk(ReplaceChat(chats0, id, before), id, increments[i]);
      { FindReplaced(chats0, id, before); }
      ReplaceChat(ReplaceChat(chats0, id, before), id, after);
      { ReplaceTwice(chats0, id, before, after); }
      ReplaceChat(chats0, id, after);
      { StreamedOneMore(chat, increments, i); }
      ReplaceChat(chats0, id, Streamed(chat, increments[..i + 1]));
    }
  }

  /** Appending the next increment to the chat streamed so far streams it
      one increment further. */
  lemma StreamedOneMore(chat: Chat, increments: seq<string>, i: nat)
    requires i < |increments|
    ensures var before := Streamed(chat, increments[..i]);
      before.(messages := AppendToLast(before.messages, increments[i]))
        == Streamed(chat, increments[..i + 1])
  {
    assert increments[..i + 1][..i] == increments[..i];
    assert Concat(increments[..i + 1]) == Concat(increments[..i]) + increments[i];
    AppendTwice(chat.messages, Concat(increments[..i]), increments[i]);
  }
}

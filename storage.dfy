/** Chat persistence: an object store of chats keyed by their id, opened
    once and reused, with upsert, delete and a listing sorted newest
    first. */
module Storage {
  import opened ChatTypes

  const DbName: string := "olladesk"
  const DbVersion: nat := 1

  /** An opened database. */
  class Connection {
    const name: string
    const version: nat

    constructor(name: string, version: nat)
      ensures this.name == name && this.version == version
    {
      this.name := name;
      this.version := version;
    }
  }

  /** The store's key path is `id`: every record sits under its own id. */
  predicate KeyedById(m: map<string, Chat>) {
    forall k :: k in m ==> m[k].id == k
  }

  /** `s` lists the records of `m`, each exactly once and nothing else:
      a chat occurs once when it is the record under its id, never
      otherwise. */
  ghost predicate ListsExactly(s: seq<Chat>, m: map<string, Chat>) {
    forall c :: multiset(s)[c] == if c.id in m && m[c.id] == c then 1 else 0
  }

  /** Newest first: `createdAt` never increases along the list. */
  predicate SortedByCreatedDesc(s: seq<Chat>) {
    forall i, j :: 0 <= i < j < |s| ==> s[i].createdAt >= s[j].createdAt
  }

  /** `c` put into the newest-first list `s` in front of the first chat
      that is not newer than it. */
  function Insert(c: Chat, s: seq<Chat>): (r: seq<Chat>)
    ensures multiset(r) == multiset(s) + multiset{c}
    ensures forall x :: x in r ==> x in s || x == c
  {
    if s == [] then [c]
    else if s[0].createdAt <= c.createdAt then [c] + s
    else
      assert s == [s[0]] + s[1..];
      [s[0]] + Insert(c, s[1..])
  }

  /** Inserting into a newest-first list keeps it newest first. */
  lemma {:induction false} InsertSorted(c: Chat, s: seq<Chat>)
    requires SortedByCreatedDesc(s)
    ensures SortedByCreatedDesc(Insert(c, s))
  {
    if s != [] && s[0].createdAt > c.createdAt {
      InsertSorted(c, s[1..]);
      var rest := Insert(c, s[1..]);
      forall j | 0 <= j < |rest| ensures rest[j].createdAt <= s[0].createdAt {
        assert rest[j] in rest;
      }
    }
  }

  /** `chats.sort((a, b) => b.createdAt - a.createdAt)`: the same chats,
      newest first. Chats created at the same time keep their relative
      order, as the sort is stable. */
  function SortByCreatedDesc(s: seq<Chat>): (r: seq<Chat>)
    ensures SortedByCreatedDesc(r)
    ensures multiset(r) == multiset(s)
  {
    if s == [] then []
    else
      assert s == [s[0]] + s[1..];
      InsertSorted(s[0], SortByCreatedDesc(s[1..]));
      Insert(s[0], SortByCreatedDesc(s[1..]))
  }

  /** What a listing of the records promises: every stored chat is in it,
      everything in it is stored under its id, and no chat appears
      twice. */
  lemma ListingComplete(s: seq<Chat>, m: map<string, Chat>)
    requires KeyedById(m) && ListsExactly(s, m)
    ensures forall k :: k in m ==> m[k] in s
    ensures forall i :: 0 <= i < |s| ==> s[i].id in m && m[s[i].id] == s[i]
    ensures forall i, j :: 0 <= i < j < |s| ==> s[i] != s[j]
  {
    forall k | k in m ensures m[k] in s {
      assert multiset(s)[m[k]] == 1;
    }
    forall i | 0 <= i < |s| ensures s[i].id in m && m[s[i].id] == s[i] {
      assert s[i] in multiset(s);
    }
    forall i, j | 0 <= i < j < |s| ensures s[i] != s[j] {
      if s[i] == s[j] {
        TwoPositions(s, i, j);
      }
    }
  }

  /** A value at two positions occurs at least twice. */
  lemma TwoPositions<T>(s: seq<T>, i: nat, j: nat)
    requires i < j < |s| && s[i] == s[j]
    ensures multiset(s)[s[i]] >= 2
  {
    assert s == s[..j] + [s[j]] + s[j + 1..];
    assert s[i] in multiset(s[..j]);
  }

  /** Sorting a listing keeps it a listing of the same records. */
  lemma SortKeepsListing(s: seq<Chat>, m: map<string, Chat>)
    requires ListsExactly(s, m)
    ensures ListsExactly(SortByCreatedDesc(s), m)
  {
  }

  /** The chat database: the records of the `chats` object store and the
      memoised connection (`dbPromise`). */
  class ChatStorage {
    var records: map<string, Chat>
    var connection: Connection?

    ghost predicate Valid()
      reads this
    {
      KeyedById(records)
    }

    /** The module before any call: nothing opened yet, and the records
        left by earlier sessions. */
    constructor(persisted: map<string, Chat>)
      requires KeyedById(persisted)
      ensures Valid()
      ensures records == persisted && connection == null
    {
      records := persisted;
      connection := null;
    }

    /** The database was opened at most once: a connection is held now,
        it is a new `olladesk` version 1 connection when none was held
        before, and otherwise it is the one held before. */
    twostate predicate OpenedOnce()
      reads this
    {
      && connection != null
      && (old(connection) == null ==>
            fresh(connection) && connection.name == DbName && connection.version == DbVersion)
      && (old(connection) != null ==> connection == old(connection))
    }

    /** `getDB()`: opens the database on the first call and hands back
        that same connection on every later call. */
    method GetDB() returns (db: Connection)
      modifies this
      ensures old(connection) == null ==> fresh(db) && db.name == DbName && db.version == DbVersion
      ensures old(connection) != null ==> db == old(connection)
      ensures connection == db
      ensures records == old(records)
    {
      if connection == null {
        connection := new Connection(DbName, DbVersion);
      }
      db := connection;
    }

    /** `getChats()`: every stored chat exactly once, newest first. */
    method GetChats() returns (chats: seq<Chat>)
      requires Valid()
      modifies this
      ensures Valid() && records == old(records)
      ensures OpenedOnce()
      ensures SortedByCreatedDesc(chats)
      ensures ListsExactly(chats, records)
    {
      var db := GetDB();
      // `getAll`: the values of the store, in an order the model leaves open.
      var all: seq<Chat> := [];
      var keys := records.Keys;
      while keys != {}
        invariant keys <= records.Keys
        invariant forall c :: (multiset(all)[c] ==
          if c.id in records && c.id !in keys && records[c.id] == c then 1 else 0)
        decreases keys
      {
        var k :| k in keys;
        all := all + [records[k]];
        keys := keys - {k};
      }
      chats := SortByCreatedDesc(all);
    }

    /** `saveChat(chat)`: `put` upserts by id, so afterwards the chat is the
        record under its id and every other record is as it was. */
    method SaveChat(chat: Chat)
      requires Valid()
      modifies this
      ensures Valid()
      ensures records == old(records)[chat.id := chat]
      ensures OpenedOnce()
    {
      var db := GetDB();
      records := records[chat.id := chat];
    }

    /** `deleteChat(id)`: removes the record under `id` and no other. */
    method DeleteChat(id: string)
      requires Valid()
      modifies this
      ensures Valid()
      ensures records == old(records) - {id}
      ensures OpenedOnce()
    {
      var db := GetDB();
      records := records - {id};
    }
  }

  /** Saving a chat makes the next listing hold that chat, in place of any
      earlier version of it, and lose no other chat. */
  lemma SavedChatIsListed(s: seq<Chat>, m: map<string, Chat>, chat: Chat)
    requires KeyedById(m) && ListsExactly(s, m[chat.id := chat])
    ensures chat in s
    ensures forall k :: k in m && k != chat.id ==> m[k] in s
    ensures chat.id in m && m[chat.id] != chat ==> m[chat.id] !in s
  {
    assert multiset(s)[chat] == 1;
    forall k | k in m && k != chat.id ensures m[k] in s {
      assert multiset(s)[m[k]] == 1;
    }
  }

  /** Deleting an id makes the next listing hold no chat with that id. */
  lemma DeletedChatIsGone(s: seq<Chat>, m: map<string, Chat>, id: string)
    requires ListsExactly(s, m - {id})
    ensures forall i :: 0 <= i < |s| ==> s[i].id != id
  {
    forall i | 0 <= i < |s| ensures s[i].id != id {
      assert s[i] in multiset(s);
    }
  }
}

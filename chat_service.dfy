/** The chat handlers of src/service/chat.go: listing a user's chats with
    the other participant's name, loading a page of a chat's messages, and
    posting a message into an existing or a new chat. HTTP plumbing is
    reduced to the reply a handler ends with; the session's user arrives
    as the result of `getUserFromContext`. */
module ChatService {
  import opened Base
  import opened Repository
  import opened ChatRepository
  import MR = MessageRepository
  import opened DecimalText

  /** `chatData`: one row of the chat list. */
  datatype ChatData = ChatData(ID: int, UserID: int, UpdateDate: int, Name: Bytes, LastName: Bytes)

  /** `messageData`: a message as the client receives it. */
  datatype MessageData = MessageData(ID: int, LastName: Bytes, Name: Bytes, Date: int, Text: Bytes)

  /** How a handler ends. */
  datatype Reply =
    | Redirect(path: string)            // http.Redirect with 302
    | ChatsPage(chats: seq<ChatData>)   // the "chats" template
    | Json(messages: seq<MessageData>)  // a JSON body
    | Body(text: Bytes)                 // a plain 200 body
    | NoBody                            // 200 with nothing written
    | HttpError(code: int, message: string)

  const RootPath: string := "/"
  const InternalError: string := "internal error"
  const SameUser: string := "same user"
  /** The body `RecoverHandler`, installed on every route, writes with 500
      after a handler panics before it has written anything. */
  const PanicMessage: string := "внутренняя ошибка сервера"

  /** The page size `LoadChatMessagesHandler` asks the message store for. */
  const MessagePageSize: nat := 100

  /** The other side of a chat from `me`'s point of view: `User1ID` unless
      that is `me`. */
  function Counterpart(c: Chat, me: int): (o: int)
    ensures o == c.User1ID || o == c.User2ID
    ensures Involves(c, me) && c.User1ID != c.User2ID ==> o != me && Involves(c, o)
    ensures !Involves(c, me) ==> o == c.User1ID
  {
    if c.User1ID != me then c.User1ID else c.User2ID
  }

  /** The counterpart of every chat, in order: the ids `getChatsData` asks
      `GetByIDs` for. */
  function Counterparts(chats: seq<Chat>, me: int): (ids: seq<int>)
    ensures |ids| == |chats|
    ensures forall i :: 0 <= i < |chats| ==> ids[i] == Counterpart(chats[i], me)
  {
    if chats == [] then []
    else Counterparts(chats[..|chats| - 1], me) + [Counterpart(chats[|chats| - 1], me)]
  }

  /** For a chat between two distinct users, the participants are exactly
      `me` and the counterpart. */
  lemma CounterpartPartition(c: Chat, me: int)
    requires Involves(c, me) && c.User1ID != c.User2ID
    ensures {me, Counterpart(c, me)} == {c.User1ID, c.User2ID}
  {
  }

  /** `usersMap` after `for _, v := range users { usersMap[v.ID] = v }`. */
  function ById(users: seq<User>): (r: map<int, User>)
    ensures forall i :: 0 <= i < |users| ==> users[i].ID in r
  {
    if users == [] then map[]
    else ById(users[..|users| - 1])[users[|users| - 1].ID := users[|users| - 1]]
  }

  /** The index holds one entry per id among the users. */
  lemma {:induction false} ByIdKeys(users: seq<User>)
    ensures forall k :: k in ById(users) <==> exists i :: 0 <= i < |users| && users[i].ID == k
  {
    if users != [] {
      var init := users[..|users| - 1];
      ByIdKeys(init);
      forall k | k in ById(users)
        ensures exists i :: 0 <= i < |users| && users[i].ID == k
      {
        if k != users[|users| - 1].ID {
          assert k in ById(init);
          var i :| 0 <= i < |init| && init[i].ID == k;
          assert users[i] == init[i];
        }
      }
    }
  }

  /** The entry for an id is the last user carrying it. */
  lemma {:induction false} ByIdLastWins(users: seq<User>)
    ensures forall k :: k in ById(users) ==>
      exists i :: (0 <= i < |users| && users[i] == ById(users)[k] && users[i].ID == k
        && forall j :: i < j < |users| ==> users[j].ID != k)
  {
    if users != [] {
      var init := users[..|users| - 1];
      var last := users[|users| - 1];
      ByIdLastWins(init);
      forall k | k in ById(users)
        ensures exists i :: (0 <= i < |users| && users[i] == ById(users)[k] && users[i].ID == k
          && forall j :: i < j < |users| ==> users[j].ID != k)
      {
        if k == last.ID {
          assert users[|users| - 1] == ById(users)[k];
        } else {
          var i :| 0 <= i < |init| && init[i] == ById(init)[k] && init[i].ID == k
            && forall j :: i < j < |init| ==> init[j].ID != k;
          assert users[i] == init[i];
          assert forall j :: i < j < |users| ==> users[j].ID != k by {
            forall j | i < j < |users| ensures users[j].ID != k {
              if j < |init| {
                assert users[j] == init[j];
              }
            }
          }
        }
      }
    }
  }

  /** `getChatsData(user, chats)`: collects the counterpart ids (`ids`, as
      passed to `GetByIDs`, which `getByIds` stands for), indexes the users
      found by id and builds one row per chat. A counterpart the lookup did
      not return is a nil user, whose `Name` dereference panics. */
  method GetChatsData(me: User, chats: seq<Chat>, getByIds: seq<int> -> Result<seq<User>>)
    returns (ids: seq<int>, r: Result<seq<ChatData>>)
    ensures |ids| == |chats|
    ensures forall i :: 0 <= i < |chats| ==> ids[i] == Counterpart(chats[i], me.ID)
    ensures ids == Counterparts(chats, me.ID)
    ensures getByIds(ids).Err? ==> r == Err(getByIds(ids).error)
    ensures getByIds(ids).Ok? ==>
      (r.Ok? <==> forall i :: 0 <= i < |chats| ==> ids[i] in ById(getByIds(ids).value))
    ensures getByIds(ids).Ok? && r.Err? ==> r.error == Panic
    ensures r.Ok? ==> |r.value| == |chats|
    ensures r.Ok? ==> forall i :: 0 <= i < |chats| ==>
      && ids[i] in ById(getByIds(ids).value)
      && r.value[i] == ChatData(chats[i].ID, ids[i], chats[i].UpdatedAt,
                                ById(getByIds(ids).value)[ids[i]].Name,
                                ById(getByIds(ids).value)[ids[i]].LastName)
  {
    ids := [];
    var i := 0;
    while i < |chats|
      invariant 0 <= i <= |chats|
      invariant |ids| == i
      invariant forall j :: 0 <= j < i ==> ids[j] == Counterpart(chats[j], me.ID)
    {
      if chats[i].User1ID != me.ID {
        ids := ids + [chats[i].User1ID];
      } else {
        ids := ids + [chats[i].User2ID];
      }
      i := i + 1;
    }

    var found := getByIds(ids);
    if found.Err? {
      return ids, Err(found.error);
    }
    var users := found.value;
    var usersMap: map<int, User> := map[];
    i := 0;
    while i < |users|
      invariant 0 <= i <= |users|
      invariant usersMap == ById(users[..i])
    {
      assert users[..i + 1][..i] == users[..i];
      usersMap := usersMap[users[i].ID := users[i]];
      i := i + 1;
    }
    assert users[..|users|] == users;

    var data: seq<ChatData> := [];
    i := 0;
    while i < |chats|
      invariant 0 <= i <= |chats|
      invariant |data| == i
      invariant forall j :: 0 <= j < i ==> ids[j] in usersMap
      invariant forall j :: 0 <= j < i ==>
        data[j] == ChatData(chats[j].ID, ids[j], chats[j].UpdatedAt, usersMap[ids[j]].Name, usersMap[ids[j]].LastName)
    {
      var uid := if chats[i].User1ID != me.ID then chats[i].User1ID else chats[i].User2ID;
      if uid !in usersMap {
        return ids, Err(Panic);
      }
      var u := usersMap[uid];
      data := data + [ChatData(chats[i].ID, uid, chats[i].UpdatedAt, u.Name, u.LastName)];
      i := i + 1;
    }
    r := Ok(data);
  }

  /** One enriched message: the sender's names come from `user` when the
      message is theirs and from `user2` otherwise. */
  function Enriched(m: MR.Message, user: User, user2: User): (d: MessageData)
    ensures d.ID == m.ID && d.Date == m.CreatedAt && d.Text == m.Text
    ensures m.UserID == user.ID ==> d.Name == user.Name && d.LastName == user.LastName
    ensures m.UserID != user.ID ==> d.Name == user2.Name && d.LastName == user2.LastName
  {
    var sender := if m.UserID == user.ID then user else user2;
    MessageData(m.ID, sender.LastName, sender.Name, m.CreatedAt, m.Text)
  }

  /** `enrichMessages(messages, user, user2)`: same length and order. */
  method EnrichMessages(messages: seq<MR.Message>, user: User, user2: User) returns (r: seq<MessageData>)
    ensures |r| == |messages|
    ensures forall i :: 0 <= i < |messages| ==> r[i] == Enriched(messages[i], user, user2)
    ensures forall i :: 0 <= i < |messages| ==>
      r[i].ID == messages[i].ID && r[i].Date == messages[i].CreatedAt && r[i].Text == messages[i].Text
  {
    r := [];
    var i := 0;
    while i < |messages|
      invariant 0 <= i <= |messages|
      invariant |r| == i
      invariant forall j :: 0 <= j < i ==> r[j] == Enriched(messages[j], user, user2)
    {
      var msg := messages[i];
      var name, lastName;
      if msg.UserID == user.ID {
        name, lastName := user.Name, user.LastName;
      } else {
        name, lastName := user2.Name, user2.LastName;
      }
      r := r + [MessageData(msg.ID, lastName, name, msg.CreatedAt, msg.Text)];
      i := i + 1;
    }
  }

  /** The list is ordered by `UpdateDate`, most recent first. */
  ghost predicate RowsNewestFirst(rows: seq<ChatData>) {
    forall i, j :: 0 <= i < j < |rows| ==> rows[i].UpdateDate >= rows[j].UpdateDate
  }

  /** Every row shows a chat of `me`: its id, its date and the counterpart. */
  ghost predicate RowsOfChats(rows: seq<ChatData>, all: seq<Chat>, me: int) {
    forall d :: d in rows ==>
      exists c :: (c in all && Involves(c, me)
        && d.ID == c.ID && d.UpdateDate == c.UpdatedAt && d.UserID == Counterpart(c, me))
  }

  /** Rows built chat by chat from a newest-first permutation of the user's
      chats are one per chat, newest first, each naming a chat of the user
      and its counterpart. */
  lemma ListedRows(all: seq<Chat>, me: int, cs: seq<Chat>, rows: seq<ChatData>)
    requires NewestFirst(cs)
    requires multiset(cs) == multiset(Involving(all, me))
    requires |rows| == |cs|
    requires forall i :: 0 <= i < |cs| ==>
      rows[i].ID == cs[i].ID && rows[i].UpdateDate == cs[i].UpdatedAt && rows[i].UserID == Counterpart(cs[i], me)
    ensures |rows| == |Involving(all, me)|
    ensures RowsNewestFirst(rows)
    ensures RowsOfChats(rows, all, me)
  {
    assert |cs| == |multiset(cs)| == |multiset(Involving(all, me))|;
    forall d | d in rows
      ensures exists c :: (c in all && Involves(c, me)
        && d.ID == c.ID && d.UpdateDate == c.UpdatedAt && d.UserID == Counterpart(c, me))
    {
      var k :| 0 <= k < |rows| && rows[k] == d;
      assert cs[k] in multiset(Involving(all, me));
    }
  }

  /** `ListChatsHandler` (GET): the user's chats, newest first, each with the
      counterpart's name. A missing session user and a failed query or user
      lookup redirect to the root page (the code goes on after the redirect,
      so whatever it does next adds nothing to the reply); a counterpart the
      lookup did not return panics before anything is written, so the
      recovery handler answers 500. */
  method ListChatsHandler(me: Result<User>, store: ChatStore, fault: bool, getByIds: seq<int> -> Result<seq<User>>)
    returns (reply: Reply)
    ensures me.Err? || fault ==> reply == Redirect(RootPath)
    ensures reply.Redirect? || reply.ChatsPage? || reply == HttpError(500, PanicMessage)
    ensures reply.ChatsPage? ==> me.Ok? && !fault
    ensures me.Ok? && !fault ==>
      var cs := ByDate(Involving(store.chats, me.value.ID));
      var ids := Counterparts(cs, me.value.ID);
      && (cs == [] ==> reply == ChatsPage([]))
      && (cs != [] && getByIds(ids).Err? ==> reply == Redirect(RootPath))
      && (cs != [] && getByIds(ids).Ok? ==>
            && (reply.ChatsPage? <==> forall i :: 0 <= i < |ids| ==> ids[i] in ById(getByIds(ids).value))
            && (!reply.ChatsPage? ==> reply == HttpError(500, PanicMessage)))
    ensures reply.ChatsPage? ==>
      var cs := ByDate(Involving(store.chats, me.value.ID));
      var ids := Counterparts(cs, me.value.ID);
      && |reply.chats| == |cs|
      && forall i :: 0 <= i < |cs| ==>
        && getByIds(ids).Ok? && ids[i] in ById(getByIds(ids).value)
        && reply.chats[i] == ChatData(cs[i].ID, ids[i], cs[i].UpdatedAt,
                                      ById(getByIds(ids).value)[ids[i]].Name,
                                      ById(getByIds(ids).value)[ids[i]].LastName)
    ensures reply.ChatsPage? ==> |reply.chats| == |Involving(store.chats, me.value.ID)|
    ensures reply.ChatsPage? ==> RowsNewestFirst(reply.chats)
    ensures reply.ChatsPage? ==> RowsOfChats(reply.chats, store.chats, me.value.ID)
  {
    if me.Err? {
      return Redirect(RootPath);
    }
    var chats := store.GetAllByUser(me.value.ID, fault);
    if chats.Err? {
      return Redirect(RootPath);
    }
    ghost var cs := ByDate(Involving(store.chats, me.value.ID));
    assert chats.value == cs;
    if |chats.value| == 0 {
      return ChatsPage([]);
    }
    var ids, data := GetChatsData(me.value, chats.value, getByIds);
    assert ids == Counterparts(cs, me.value.ID);
    if data.Err? {
      if getByIds(ids).Ok? {
        // the nil-user panic, not a lookup error
        return HttpError(500, PanicMessage);
      }
      return Redirect(RootPath);
    }
    ListedRows(store.chats, me.value.ID, chats.value, data.value);
    reply := ChatsPage(data.value);
  }

  /** `LoadChatMessagesHandler` (GET): up to 100 messages of chat `chatId`
      after message `minId`, with sender names. The caller need not take
      part in the chat: the counterpart is computed either way. */
  method LoadChatMessagesHandler(me: Result<User>, chatIdText: Bytes, minIdText: Bytes,
                                 store: ChatStore, log: MR.MessageLog, repo: Repo,
                                 chatFault: bool, userFault: bool, messageFault: bool)
    returns (reply: Reply)
    requires log.Valid()
    ensures reply.Json? || reply == HttpError(500, InternalError)
    ensures reply.Json? <==>
      && me.Ok?
      && ParseInt(chatIdText).1.None?
      && store.GetByID(ParseInt(chatIdText).0, chatFault).Ok?
      && repo.Get(Counterpart(store.GetByID(ParseInt(chatIdText).0, chatFault).value, me.value.ID), userFault).Ok?
      && ParseInt(minIdText).1.None?
      && !messageFault
    ensures reply.Json? ==>
      var page := MR.Page(log.messages, ParseInt(chatIdText).0, ParseInt(minIdText).0, MessagePageSize);
      var chat := store.GetByID(ParseInt(chatIdText).0, chatFault).value;
      var user2 := repo.Get(Counterpart(chat, me.value.ID), userFault).value;
      && |reply.messages| == |page| <= MessagePageSize
      && forall i :: 0 <= i < |page| ==> reply.messages[i] == Enriched(page[i], me.value, user2)
  {
    if me.Err? {
      return HttpError(500, InternalError);
    }
    var user := me.value;
    var (chatId, chatErr) := ParseInt(chatIdText);
    if chatErr.Some? {
      return HttpError(500, InternalError);
    }
    var chat := store.GetByID(chatId, chatFault);
    if chat.Err? {
      return HttpError(500, InternalError);
    }
    var user2Id: int;
    if chat.value.User1ID == user.ID {
      user2Id := chat.value.User2ID;
    } else {
      user2Id := chat.value.User1ID;
    }
    var user2 := repo.Get(user2Id, userFault);
    if user2.Err? {
      return HttpError(500, InternalError);
    }
    var (minMsgId, minErr) := ParseInt(minIdText);
    if minErr.Some? {
      return HttpError(500, InternalError);
    }
    var messages := log.GetByChat(chatId, minMsgId, 100, messageFault);
    if messages.Err? {
      return HttpError(500, InternalError);
    }
    var enriched := EnrichMessages(messages.value, user, user2.value);
    reply := Json(enriched);
  }

  /** `AddMessageHandler` (POST): appends the body as a message from the
      caller to chat `chatId`. Membership of the chat is not checked, the
      chat's `updated_at` is not touched, and a failed body read (`readFailed`,
      with the bytes read so far in `body`) writes an error but does not
      return, so the message is still stored. */
  method AddMessageHandler(me: Result<User>, chatIdText: Bytes, body: Bytes, readFailed: bool,
                           log: MR.MessageLog, now: int, fault: bool)
    returns (reply: Reply)
    requires log.Valid()
    modifies log
    ensures log.Valid()
    ensures var stored := me.Ok? && ParseInt(chatIdText).1.None? && !fault;
      && (stored ==> log.messages == old(log.messages) + [MR.Message(old(log.nextId), ParseInt(chatIdText).0, me.value.ID, body, now)])
      && (!stored ==> log.messages == old(log.messages))
      && (reply == if stored && !readFailed then NoBody else HttpError(500, InternalError))
  {
    if me.Err? {
      return HttpError(500, InternalError);
    }
    var (chatId, err) := ParseInt(chatIdText);
    if err.Some? {
      return HttpError(500, InternalError);
    }
    reply := NoBody;
    if readFailed {
      reply := HttpError(500, InternalError);
    }
    var status := log.Create(chatId, me.value.ID, body, now, fault);
    if status.Failed? {
      reply := HttpError(500, InternalError);
    }
  }

  /** `AddFirstMessageHandler` (POST): refuses a chat with oneself, then
      starts a new chat with user `userId` and stores the body as its first
      message sent by the caller; the reply body is the chat id in decimal.
      A failed body read after `Start` returns with the new chat left empty. */
  method AddFirstMessageHandler(me: Result<User>, userIdText: Bytes, body: Bytes, readFailed: bool,
                                store: ChatStore, log: MR.MessageLog,
                                randomId: int, now: int, startFault: bool, createFault: bool)
    returns (reply: Reply)
    requires store.Valid() && log.Valid()
    requires 0 <= randomId < MaxInt64
    modifies store, log
    ensures store.Valid() && log.Valid()
    ensures me.Err? || ParseInt(userIdText).1.Some? ==>
      reply == HttpError(500, InternalError) && store.chats == old(store.chats) && log.messages == old(log.messages)
    ensures me.Ok? && ParseInt(userIdText) == (me.value.ID, None) ==>
      reply == HttpError(400, SameUser) && store.chats == old(store.chats) && log.messages == old(log.messages)
    ensures me.Ok? && ParseInt(userIdText).1.None? && ParseInt(userIdText).0 != me.value.ID ==>
      var other := ParseInt(userIdText).0;
      var k := Canonical(me.value.ID, other);
      && (startFault ==> store.chats == old(store.chats))
      && (!startFault ==> store.chats == old(store.chats) + [Chat(randomId, k.0, k.1, now)])
      && (!startFault && !readFailed && !createFault ==>
            log.messages == old(log.messages) + [MR.Message(old(log.nextId), randomId, me.value.ID, body, now)])
      && (startFault || readFailed || createFault ==> log.messages == old(log.messages))
      && (reply == if startFault || readFailed || createFault then HttpError(500, InternalError)
                   else Body(FormatInt(randomId)))
  {
    if me.Err? {
      return HttpError(500, InternalError);
    }
    var user := me.value;
    var (user2Id, err) := ParseInt(userIdText);
    if err.Some? {
      return HttpError(500, InternalError);
    }
    if user.ID == user2Id {
      return HttpError(400, SameUser);
    }
    var chatId := store.Start(user.ID, user2Id, randomId, now, startFault);
    if chatId.Err? {
      return HttpError(500, InternalError);
    }
    if readFailed {
      return HttpError(500, InternalError);
    }
    var status := log.Create(chatId.value, user.ID, body, now, createFault);
    if status.Failed? {
      return HttpError(500, InternalError);
    }
    reply := Body(FormatInt(chatId.value));
  }
}

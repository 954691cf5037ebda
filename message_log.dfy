/** The `messages` table of src/repository/message.go: an append-only log
    with store-assigned increasing ids, read by forward keyset pagination. */
module MessageRepository {
  import opened Base

  /** A row of `messages(id, chat_id, user_id, text, created_at)`. */
  datatype Message = Message(ID: int, ChatID: int, UserID: int, Text: Bytes, CreatedAt: int)

  /** Strictly increasing ids (so no id occurs twice). */
  ghost predicate Ascending(s: seq<Message>) {
    forall i, j :: 0 <= i < j < |s| ==> s[i].ID < s[j].ID
  }

  predicate Qualifies(m: Message, c: int, minId: int) {
    m.ChatID == c && m.ID > minId
  }

  /** The rows of `where chat_id = c and id > minId`, in table order. */
  function ChatAfter(rows: seq<Message>, c: int, minId: int): (r: seq<Message>)
    ensures forall m :: m in r <==> m in rows && Qualifies(m, c, minId)
  {
    if rows == [] then []
    else
      var last := rows[|rows| - 1];
      ChatAfter(rows[..|rows| - 1], c, minId) + (if Qualifies(last, c, minId) then [last] else [])
  }

  /** One page: `... order by id asc limit n`. On a table whose ids ascend
      in table order, table order and id order coincide. */
  function Page(rows: seq<Message>, c: int, minId: int, limit: nat): (r: seq<Message>)
    ensures |r| <= limit
    ensures forall m :: m in r ==> m in rows && Qualifies(m, c, minId)
  {
    Take(ChatAfter(rows, c, minId), limit)
  }

  lemma {:induction false} ChatAfterAppend(a: seq<Message>, b: seq<Message>, c: int, minId: int)
    ensures ChatAfter(a + b, c, minId) == ChatAfter(a, c, minId) + ChatAfter(b, c, minId)
  {
    if b == [] {
      assert a + b == a;
    } else {
      var b' := b[..|b| - 1];
      assert (a + b)[..|a + b| - 1] == a + b';
      ChatAfterAppend(a, b', c, minId);
    }
  }

  lemma {:induction false} ChatAfterAscending(rows: seq<Message>, c: int, minId: int)
    requires Ascending(rows)
    ensures Ascending(ChatAfter(rows, c, minId))
  {
    if rows != [] {
      var init := rows[..|rows| - 1];
      var last := rows[|rows| - 1];
      ChatAfterAscending(init, c, minId);
      var t := ChatAfter(init, c, minId);
      forall m | m in t ensures m.ID < last.ID {
        var k :| 0 <= k < |init| && init[k] == m;
      }
    }
  }

  /** A chat's rows above `bound` are empty when no id in the table exceeds it. */
  lemma {:induction false} ChatAfterNone(rows: seq<Message>, c: int, bound: int)
    requires forall i :: 0 <= i < |rows| ==> rows[i].ID <= bound
    ensures ChatAfter(rows, c, bound) == []
  {
    if rows != [] {
      ChatAfterNone(rows[..|rows| - 1], c, bound);
    }
  }

  /** A scan of a prefix that stopped at the table's end or at `limit`
      qualifying rows has produced the page. */
  lemma ScanIsPage(rows: seq<Message>, i: nat, c: int, minId: int, limit: nat)
    requires i <= |rows|
    requires |ChatAfter(rows[..i], c, minId)| <= limit
    requires i == |rows| || |ChatAfter(rows[..i], c, minId)| == limit
    ensures ChatAfter(rows[..i], c, minId) == Page(rows, c, minId, limit)
  {
    assert rows == rows[..i] + rows[i..];
    ChatAfterAppend(rows[..i], rows[i..], c, minId);
    if i == |rows| {
      assert rows[i..] == [];
    }
  }

  /** Restarting the scan after the k-th qualifying row yields exactly the
      qualifying rows that follow it: the step keyset pagination relies on. */
  lemma {:induction false} ChatAfterResume(rows: seq<Message>, c: int, minId: int, k: nat)
    requires Ascending(rows)
    requires 1 <= k <= |ChatAfter(rows, c, minId)|
    ensures ChatAfter(rows, c, ChatAfter(rows, c, minId)[k - 1].ID) == ChatAfter(rows, c, minId)[k..]
  {
    var init := rows[..|rows| - 1];
    var last := rows[|rows| - 1];
    var t' := ChatAfter(init, c, minId);
    var t := ChatAfter(rows, c, minId);
    var bound := t[k - 1].ID;
    assert Ascending(init);
    if k <= |t'| {
      assert t[k - 1] == t'[k - 1];
      ChatAfterResume(init, c, minId, k);
      assert t'[k - 1] in init;
      assert bound < last.ID;
      assert t'[k - 1].ID > minId;
      assert t[k..] == t'[k..] + (if Qualifies(last, c, minId) then [last] else []);
    } else {
      assert t == t' + [last];
      assert bound == last.ID;
      ChatAfterNone(init, c, bound);
    }
  }

  /** Every page of the forward scan that starts after `minId`, each next
      request carrying the last id seen, until a page comes back short. */
  function AllPages(rows: seq<Message>, c: int, minId: int, limit: nat): (r: seq<Message>)
    requires Ascending(rows)
    requires limit > 0
    ensures forall m :: m in r ==> m in rows && Qualifies(m, c, minId)
    decreases |ChatAfter(rows, c, minId)|
  {
    var p := Page(rows, c, minId, limit);
    if |p| < limit then p
    else
      ChatAfterResume(rows, c, minId, limit);
      p + AllPages(rows, c, p[|p| - 1].ID, limit)
  }

  /** The pages concatenate to everything after `minId`, in order. */
  lemma {:induction false} AllPagesComplete(rows: seq<Message>, c: int, minId: int, limit: nat)
    requires Ascending(rows)
    requires limit > 0
    ensures AllPages(rows, c, minId, limit) == ChatAfter(rows, c, minId)
    decreases |ChatAfter(rows, c, minId)|
  {
    var t := ChatAfter(rows, c, minId);
    var p := Page(rows, c, minId, limit);
    if |p| == limit {
      assert p == t[..limit];
      assert p[|p| - 1] == t[limit - 1];
      ChatAfterResume(rows, c, minId, limit);
      AllPagesComplete(rows, c, t[limit - 1].ID, limit);
      assert t == t[..limit] + t[limit..];
    } else {
      assert p == t;
    }
  }

  /** Starting at `minId = 0` on a table of positive ids, the pages enumerate
      every message of the chat exactly once, in ascending id order. */
  lemma PaginationEnumeratesChat(rows: seq<Message>, c: int, limit: nat)
    requires Ascending(rows)
    requires forall i :: 0 <= i < |rows| ==> rows[i].ID > 0
    requires limit > 0
    ensures Ascending(AllPages(rows, c, 0, limit))
    ensures forall m :: m in AllPages(rows, c, 0, limit) <==> m in rows && m.ChatID == c
  {
    AllPagesComplete(rows, c, 0, limit);
    ChatAfterAscending(rows, c, 0);
  }

  /** Every returned row belongs to the chat and lies past the cursor; the
      page is ascending and holds at most `limit` rows. */
  lemma PageSound(rows: seq<Message>, c: int, minId: int, limit: nat)
    requires Ascending(rows)
    ensures |Page(rows, c, minId, limit)| <= limit
    ensures forall m :: m in Page(rows, c, minId, limit) ==> m.ChatID == c && m.ID > minId
    ensures Ascending(Page(rows, c, minId, limit))
  {
    ChatAfterAscending(rows, c, minId);
    var p := Page(rows, c, minId, limit);
    forall m | m in p ensures m in ChatAfter(rows, c, minId) {
      var k :| 0 <= k < |p| && p[k] == m;
    }
  }

  /** No qualifying row with an id up to the page's last id is skipped. */
  lemma PageSkipsNothing(rows: seq<Message>, c: int, minId: int, limit: nat, m: Message)
    requires Ascending(rows)
    requires Page(rows, c, minId, limit) != []
    requires m in rows && Qualifies(m, c, minId)
    requires m.ID <= Page(rows, c, minId, limit)[|Page(rows, c, minId, limit)| - 1].ID
    ensures m in Page(rows, c, minId, limit)
  {
    var t := ChatAfter(rows, c, minId);
    var p := Page(rows, c, minId, limit);
    ChatAfterAscending(rows, c, minId);
    var k :| 0 <= k < |t| && t[k] == m;
    assert p[|p| - 1] == t[|p| - 1];
    assert forall j :: |p| <= j < |t| ==> t[j].ID > t[|p| - 1].ID;
    assert k < |p|;
    assert p[k] == m;
  }

  class MessageLog {
    /** The table, in insertion order. */
    var messages: seq<Message>
    /** The AUTO_INCREMENT counter: the id the next insert receives. */
    var nextId: int

    ghost predicate Valid()
      reads this
    {
      && Ascending(messages)
      && nextId >= 1
      && forall i :: 0 <= i < |messages| ==> 1 <= messages[i].ID < nextId
    }

    constructor ()
      ensures Valid() && messages == [] && nextId == 1
    {
      messages := [];
      nextId := 1;
    }

    /** `Create(chatID, userID, text)`: appends one row with the next id and
        `created_at = NOW()`. Nothing here touches the chats table. */
    method Create(c: int, u: int, text: Bytes, now: int, fault: bool) returns (r: Status)
      requires Valid()
      modifies this
      ensures Valid()
      ensures r == (if fault then Failed(Storage) else Done)
      ensures fault ==> messages == old(messages) && nextId == old(nextId)
      ensures !fault ==> messages == old(messages) + [Message(old(nextId), c, u, text, now)]
      ensures !fault ==> nextId == old(nextId) + 1
      ensures !fault ==> forall m :: m in old(messages) ==> m.ID < old(nextId)
    {
      if fault {
        return Failed(Storage);
      }
      messages := messages + [Message(nextId, c, u, text, now)];
      nextId := nextId + 1;
      r := Done;
    }

    /** `GetByChat(chatID, minID, limit)`: at most `limit` messages of the chat
        with id above `minID`, ascending by id. A negative limit is rejected by
        the database. */
    method GetByChat(c: int, minId: int, limit: int, fault: bool) returns (r: Result<seq<Message>>)
      requires Valid()
      ensures fault || limit < 0 ==> r == Err(Storage)
      ensures !fault && limit >= 0 ==> r == Ok(Page(messages, c, minId, limit))
      ensures r.Ok? ==> |r.value| <= limit && Ascending(r.value)
      ensures r.Ok? ==> forall m :: m in r.value ==> m in messages && Qualifies(m, c, minId)
    {
      if fault || limit < 0 {
        return Err(Storage);
      }
      var acc: seq<Message> := [];
      var i := 0;
      while i < |messages| && |acc| < limit
        invariant 0 <= i <= |messages|
        invariant acc == ChatAfter(messages[..i], c, minId)
        invariant |acc| <= limit
      {
        assert messages[..i + 1][..i] == messages[..i];
        var m := messages[i];
        if Qualifies(m, c, minId) {
          acc := acc + [m];
        }
        i := i + 1;
      }
      ScanIsPage(messages, i, c, minId, limit);
      PageSound(messages, c, minId, limit);
      r := Ok(acc);
      forall m | m in acc ensures m in messages && Qualifies(m, c, minId) {
      }
    }
  }
}

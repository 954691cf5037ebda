/** The `chats` table of src/repository/chat.go: one row per started
    conversation, keyed for pair lookups by the (min, max) of the two
    user ids. */
module ChatRepository {
  import opened Base

  /** A row of `chats(id, user1_id, user2_id, updated_at)`; times are
      abstract integers (larger is later). */
  datatype Chat = Chat(ID: int, User1ID: int, User2ID: int, UpdatedAt: int)

  /** The ordered key `(min, max)` every pair lookup and insert uses. */
  function Canonical(a: int, b: int): (k: (int, int))
    ensures k.0 <= k.1
    ensures (k.0 == a && k.1 == b) || (k.0 == b && k.1 == a)
  {
    if a <= b then (a, b) else (b, a)
  }

  predicate Involves(c: Chat, u: int) {
    c.User1ID == u || c.User2ID == u
  }

  /** The rows of `where user1_id = u or user2_id = u`, in table order. */
  function Involving(rows: seq<Chat>, u: int): (r: seq<Chat>)
    ensures forall c :: c in r <==> c in rows && Involves(c, u)
  {
    if rows == [] then []
    else
      var last := rows[|rows| - 1];
      Involving(rows[..|rows| - 1], u) + (if Involves(last, u) then [last] else [])
  }

  /** `order by updated_at desc`. */
  ghost predicate NewestFirst(s: seq<Chat>) {
    forall i, j :: 0 <= i < j < |s| ==> s[i].UpdatedAt >= s[j].UpdatedAt
  }

  /** Places `c` after every row at least as recent; this is how the model
      orders the query's result. */
  function InsertByDate(s: seq<Chat>, c: Chat): (r: seq<Chat>)
    ensures multiset(r) == multiset(s) + multiset{c}
  {
    if s == [] then [c]
    else if c.UpdatedAt > s[0].UpdatedAt then [c] + s
    else
      assert s == [s[0]] + s[1..];
      [s[0]] + InsertByDate(s[1..], c)
  }

  /** Inserting into a newest-first list keeps it newest first. */
  lemma {:induction false} InsertByDateNewestFirst(s: seq<Chat>, c: Chat)
    requires NewestFirst(s)
    ensures NewestFirst(InsertByDate(s, c))
  {
    if s != [] && c.UpdatedAt <= s[0].UpdatedAt {
      var rest := InsertByDate(s[1..], c);
      InsertByDateNewestFirst(s[1..], c);
      forall x | x in rest
        ensures x.UpdatedAt <= s[0].UpdatedAt
      {
        assert x in multiset(rest);
        assert x in multiset(s[1..]) || x == c;
      }
      var r := [s[0]] + rest;
      forall i, j | 0 <= i < j < |r|
        ensures r[i].UpdatedAt >= r[j].UpdatedAt
      {
        if i == 0 {
          assert r[j] in rest;
        }
      }
    }
  }

  /** The query's order on `rows`: each row, in table order, placed by
      `InsertByDate` into the rows before it. */
  function ByDate(rows: seq<Chat>): (r: seq<Chat>)
    ensures multiset(r) == multiset(rows)
  {
    if rows == [] then []
    else
      assert rows == rows[..|rows| - 1] + [rows[|rows| - 1]];
      InsertByDate(ByDate(rows[..|rows| - 1]), rows[|rows| - 1])
  }

  /** The model's order is the query's `order by updated_at desc`. */
  lemma {:induction false} ByDateNewestFirst(rows: seq<Chat>)
    ensures NewestFirst(ByDate(rows))
  {
    if rows != [] {
      ByDateNewestFirst(rows[..|rows| - 1]);
      InsertByDateNewestFirst(ByDate(rows[..|rows| - 1]), rows[|rows| - 1]);
    }
  }

  /** Adding a row at the end inserts it into the ordered rows before. */
  lemma ByDateSnoc(rows: seq<Chat>, c: Chat)
    ensures ByDate(rows + [c]) == InsertByDate(ByDate(rows), c)
  {
    assert (rows + [c])[..|rows|] == rows;
  }

  /** The filter over one more row of the table. */
  lemma InvolvingStep(rows: seq<Chat>, i: nat, u: int)
    requires i < |rows|
    ensures Involving(rows[..i + 1], u) == Involving(rows[..i], u) + (if Involves(rows[i], u) then [rows[i]] else [])
  {
    assert rows[..i + 1][..i] == rows[..i];
  }

  class ChatStore {
    /** The table, in insertion order. */
    var chats: seq<Chat>

    /** Every stored pair is in canonical order. */
    ghost predicate Valid()
      reads this
    {
      forall i :: 0 <= i < |chats| ==> chats[i].User1ID <= chats[i].User2ID
    }

    constructor ()
      ensures Valid() && chats == []
    {
      chats := [];
    }

    /** `Get(user1ID, user2ID)`: the row for the canonical pair, scanned by
        `QueryRow` (the first matching row), or `sql.ErrNoRows`. */
    function Get(a: int, b: int, fault: bool): (r: Result<Chat>)
      reads this
      ensures fault ==> r == Err(Storage)
      ensures !fault ==>
        (r.Ok? <==> exists i :: 0 <= i < |chats| && (chats[i].User1ID, chats[i].User2ID) == Canonical(a, b))
      ensures !fault && r.Err? ==> r.error == NoRows
      ensures r.Ok? ==> r.value in chats && (r.value.User1ID, r.value.User2ID) == Canonical(a, b)
    {
      if fault then Err(Storage)
      else
        var k := Canonical(a, b);
        match FirstIndex(chats, (c: Chat) => c.User1ID == k.0 && c.User2ID == k.1)
        case None => Err(NoRows)
        case Some(i) => Ok(chats[i])
    }

    /** `GetByID(id)`: the row with that id, or `sql.ErrNoRows`. */
    function GetByID(id: int, fault: bool): (r: Result<Chat>)
      reads this
      ensures fault ==> r == Err(Storage)
      ensures !fault ==> (r.Ok? <==> exists i :: 0 <= i < |chats| && chats[i].ID == id)
      ensures !fault && r.Err? ==> r.error == NoRows
      ensures r.Ok? ==> r.value in chats && r.value.ID == id
    {
      if fault then Err(Storage)
      else
        match FirstIndex(chats, (c: Chat) => c.ID == id)
        case None => Err(NoRows)
        case Some(i) => Ok(chats[i])
    }

    /** `Start(user1ID, user2ID)`: inserts a fresh row for the canonical pair
        with the id drawn by `rand.Int63n(math.MaxInt64)` (`randomId`) and
        `updated_at = NOW()` (`now`). There is no check for an existing
        chat of the pair; a failed insert (`fault`) returns an error and
        leaves the table as it was. */
    method Start(a: int, b: int, randomId: int, now: int, fault: bool) returns (r: Result<int>)
      requires Valid()
      requires 0 <= randomId < MaxInt64
      modifies this
      ensures Valid()
      ensures fault ==> r == Err(Storage) && chats == old(chats)
      ensures !fault ==> r == Ok(randomId)
      ensures !fault ==> chats == old(chats) + [Chat(randomId, Canonical(a, b).0, Canonical(a, b).1, now)]
      ensures r.Ok? ==> 0 <= r.value < MaxInt64
    {
      var k := Canonical(a, b);
      if fault {
        return Err(Storage);
      }
      chats := chats + [Chat(randomId, k.0, k.1, now)];
      r := Ok(randomId);
    }

    /** `UpdateDate(id)`: `UPDATE chats set updated_at = NOW() where id = ?`. */
    method UpdateDate(id: int, now: int, fault: bool) returns (r: Status)
      requires Valid()
      modifies this
      ensures Valid()
      ensures r == (if fault then Failed(Storage) else Done)
      ensures |chats| == |old(chats)|
      ensures forall i :: 0 <= i < |chats| ==>
        chats[i] == if !fault && old(chats)[i].ID == id then old(chats)[i].(UpdatedAt := now) else old(chats)[i]
    {
      if fault {
        return Failed(Storage);
      }
      var rows := chats;
      chats := seq(|rows|, i requires 0 <= i < |rows| => if rows[i].ID == id then rows[i].(UpdatedAt := now) else rows[i]);
      r := Done;
    }

    /** `GetAllByUser(userID)`: every chat the user takes part in, most
        recently updated first. */
    method GetAllByUser(u: int, fault: bool) returns (r: Result<seq<Chat>>)
      ensures fault ==> r == Err(Storage)
      ensures !fault ==> r.Ok?
      ensures !fault ==> r == Ok(ByDate(Involving(chats, u)))
      ensures r.Ok? ==> NewestFirst(r.value)
      ensures r.Ok? ==> multiset(r.value) == multiset(Involving(chats, u))
      ensures r.Ok? ==> forall c :: c in r.value <==> c in chats && Involves(c, u)
    {
      if fault {
        return Err(Storage);
      }
      var acc: seq<Chat> := [];
      var i := 0;
      while i < |chats|
        invariant 0 <= i <= |chats|
        invariant acc == ByDate(Involving(chats[..i], u))
      {
        InvolvingStep(chats, i, u);
        if Involves(chats[i], u) {
          ByDateSnoc(Involving(chats[..i], u), chats[i]);
          acc := InsertByDate(acc, chats[i]);
        } else {
          var before := Involving(chats[..i], u);
          assert before + [] == before;
        }
        i := i + 1;
      }
      assert chats[..|chats|] == chats;
      ByDateNewestFirst(Involving(chats, u));
      forall c
        ensures c in acc <==> c in chats && Involves(c, u)
      {
        assert c in acc <==> c in multiset(acc);
        assert c in Involving(chats, u) <==> c in multiset(Involving(chats, u));
      }
      r := Ok(acc);
    }
  }

  /** A pair lookup does not depend on the order of the two ids. */
  lemma GetSymmetric(store: ChatStore, a: int, b: int, fault: bool)
    ensures store.Get(a, b, fault) == store.Get(b, a, fault)
  {
    assert Canonical(a, b) == Canonical(b, a);
  }
}

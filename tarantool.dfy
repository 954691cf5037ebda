/** The reply decoder of src/repository/tarantool.go: the stored procedures
    `find_users` and `find_users_sql` answer a `Call17` with a dynamically
    typed MessagePack value, which is checked shape by shape and turned
    into users. */
module Tarantool {
  import opened Base
  import opened Repository

  type uint64 = x: int | 0 <= x < 0x1_0000_0000_0000_0000

  /** A decoded MessagePack value as Go sees it through `interface{}`. Map
      keys other than strings are not modelled: no lookup here uses one. */
  datatype Value =
    | Nil
    | UInt(n: uint64)
    | Int(i: int)
    | Str(s: Bytes)
    | Array(items: seq<Value>)
    | Map(entries: map<Bytes, Value>)

  /** The request `Call17(proc, []interface{}{prefix, minId, limit})`. */
  datatype Request = Request(proc: string, prefix: Bytes, minId: int, limit: int)

  /** The key `"rows"` of the SQL procedure's result map. */
  const RowsKey: Bytes := [0x72, 0x6F, 0x77, 0x73]

  /** Go's `int64(x)` for a `uint64` x: the same 64 bits read in two's complement. */
  function Int64Of(x: uint64): (r: int)
    ensures MinInt64 <= r <= MaxInt64
    ensures (r - x) % 0x1_0000_0000_0000_0000 == 0
    ensures x <= MaxInt64 <==> r == x
  {
    if x <= MaxInt64 then x else x - 0x1_0000_0000_0000_0000
  }

  /** One row `[id, name, last_name]`. A non-array or a row of another length
      is a "conversion error"; the element assertions `.(uint64)` and
      `.(string)` are unchecked, so a wrong element type panics. */
  predicate WellFormedRow(v: Value) {
    v.Array? && |v.items| == 3 && v.items[0].UInt? && v.items[1].Str? && v.items[2].Str?
  }

  function DecodeRow(v: Value): (r: Result<User>)
    ensures r.Ok? <==> WellFormedRow(v)
    ensures r.Ok? ==> r.value == EmptyUser.(ID := Int64Of(v.items[0].n), Name := v.items[1].s, LastName := v.items[2].s)
    ensures r.Err? && (!v.Array? || |v.items| != 3) ==> r.error == Conversion
    ensures r.Err? && v.Array? && |v.items| == 3 ==> r.error == Panic
  {
    if !v.Array? || |v.items| != 3 then Err(Conversion)
    else if !v.items[0].UInt? || !v.items[1].Str? || !v.items[2].Str? then Err(Panic)
    else Ok(EmptyUser.(ID := Int64Of(v.items[0].n), Name := v.items[1].s, LastName := v.items[2].s))
  }

  /** The loop over the rows: every row in order; the first bad row ends the
      decode with its error and no users. */
  function DecodeRows(rows: seq<Value>): (r: Result<seq<User>>)
    ensures r.Ok? ==> |r.value| == |rows|
  {
    if rows == [] then Ok([])
    else
      match DecodeRows(rows[..|rows| - 1])
      case Err(e) => Err(e)
      case Ok(users) =>
        match DecodeRow(rows[|rows| - 1])
        case Err(e) => Err(e)
        case Ok(u) => Ok(users + [u])
  }

  /** The decode succeeds exactly when every row decodes, and then yields one
      user per row, in row order. */
  lemma {:induction false} DecodeRowsSuccess(rows: seq<Value>)
    ensures DecodeRows(rows).Ok? <==> forall i :: 0 <= i < |rows| ==> DecodeRow(rows[i]).Ok?
    ensures DecodeRows(rows).Ok? ==>
      |DecodeRows(rows).value| == |rows| &&
      forall i :: 0 <= i < |rows| ==> DecodeRows(rows).value[i] == DecodeRow(rows[i]).value
  {
    if rows != [] {
      var init := rows[..|rows| - 1];
      DecodeRowsSuccess(init);
      assert forall i :: 0 <= i < |init| ==> init[i] == rows[i];
    }
  }

  /** A failed decode reports the error of the first row that does not decode. */
  lemma {:induction false} DecodeRowsFirstError(rows: seq<Value>)
    requires DecodeRows(rows).Err?
    ensures exists k ::
              && 0 <= k < |rows|
              && DecodeRow(rows[k]).Err?
              && DecodeRows(rows).error == DecodeRow(rows[k]).error
              && (forall j :: 0 <= j < k ==> DecodeRow(rows[j]).Ok?)
  {
    var init := rows[..|rows| - 1];
    assert forall i :: 0 <= i < |init| ==> init[i] == rows[i];
    if DecodeRows(init).Err? {
      DecodeRowsFirstError(init);
      var k :| 0 <= k < |init| && DecodeRow(init[k]).Err?
        && DecodeRows(init).error == DecodeRow(init[k]).error
        && forall j :: 0 <= j < k ==> DecodeRow(init[j]).Ok?;
      assert DecodeRow(rows[k]).Err?;
    } else {
      DecodeRowsSuccess(init);
      assert DecodeRow(rows[|rows| - 1]).Err?;
    }
  }

  lemma DecodeRowsSnoc(rows: seq<Value>, i: nat, users: seq<User>)
    requires i < |rows|
    requires DecodeRows(rows[..i]) == Ok(users)
    ensures DecodeRow(rows[i]).Ok? ==> DecodeRows(rows[..i + 1]) == Ok(users + [DecodeRow(rows[i]).value])
    ensures DecodeRow(rows[i]).Err? ==> DecodeRows(rows[..i + 1]) == Err(DecodeRow(rows[i]).error)
  {
    assert rows[..i + 1][..i] == rows[..i];
  }

  /** Once a prefix has failed, the whole sequence fails with the same error. */
  lemma {:induction false} DecodeRowsErrPrefix(rows: seq<Value>, i: nat)
    requires i <= |rows|
    requires DecodeRows(rows[..i]).Err?
    ensures DecodeRows(rows) == DecodeRows(rows[..i])
    decreases |rows| - i
  {
    if i < |rows| {
      assert rows[..i + 1][..i] == rows[..i];
      DecodeRowsErrPrefix(rows, i + 1);
    } else {
      assert rows[..i] == rows;
    }
  }

  /** What `FindByNamePrefix` does with the reply of `find_users`: the
      result is the rows array itself. */
  function Decode(reply: Result<seq<Value>>): (r: Result<seq<User>>)
    ensures reply.Err? ==> r == Err(CallFailed)
    ensures reply.Ok? && |reply.value| != 1 ==> r == Err(InvalidDataLength)
    ensures reply.Ok? && |reply.value| == 1 && !reply.value[0].Array? ==> r == Err(Conversion)
    ensures reply.Ok? && |reply.value| == 1 && reply.value[0].Array? ==> r == DecodeRows(reply.value[0].items)
  {
    if reply.Err? then Err(CallFailed)
    else if |reply.value| != 1 then Err(InvalidDataLength)
    else if !reply.value[0].Array? then Err(Conversion)
    else DecodeRows(reply.value[0].items)
  }

  /** What `FindByNamePrefixSQL` does with the reply of `find_users_sql`:
      the result is a map whose `"rows"` entry is the rows array; a missing
      entry reads as nil. */
  function DecodeSql(reply: Result<seq<Value>>): (r: Result<seq<User>>)
    ensures reply.Err? ==> r == Err(CallFailed)
    ensures reply.Ok? && |reply.value| != 1 ==> r == Err(InvalidDataLength)
    ensures reply.Ok? && |reply.value| == 1 && !reply.value[0].Map? ==> r == Err(Conversion)
    ensures reply.Ok? && |reply.value| == 1 && reply.value[0].Map? && RowsKey !in reply.value[0].entries
      ==> r == Err(Conversion)
  {
    if reply.Err? then Err(CallFailed)
    else if |reply.value| != 1 then Err(InvalidDataLength)
    else if !reply.value[0].Map? then Err(Conversion)
    else
      var rows := if RowsKey in reply.value[0].entries then reply.value[0].entries[RowsKey] else Nil;
      if !rows.Array? then Err(Conversion)
      else DecodeRows(rows.items)
  }

  /** The two procedures differ only in the wrapper: a map holding the rows
      under `"rows"` decodes exactly as the bare rows array. */
  lemma SqlWrapsPlain(m: map<Bytes, Value>)
    requires RowsKey in m
    ensures DecodeSql(Ok([Map(m)])) == Decode(Ok([m[RowsKey]]))
  {
  }

  /** The scan both entry points run over `rowsArr`. */
  method ScanRows(rows: seq<Value>) returns (r: Result<seq<User>>)
    ensures r == DecodeRows(rows)
  {
    var users: seq<User> := [];
    var i := 0;
    while i < |rows|
      invariant 0 <= i <= |rows|
      invariant DecodeRows(rows[..i]) == Ok(users)
    {
      DecodeRowsSnoc(rows, i, users);
      var v := rows[i];
      if !v.Array? {
        DecodeRowsErrPrefix(rows, i + 1);
        return Err(Conversion);
      }
      var vals := v.items;
      if |vals| != 3 {
        DecodeRowsErrPrefix(rows, i + 1);
        return Err(Conversion);
      }
      if !vals[0].UInt? || !vals[1].Str? || !vals[2].Str? {
        DecodeRowsErrPrefix(rows, i + 1);
        return Err(Panic);
      }
      var user := EmptyUser.(ID := Int64Of(vals[0].n), Name := vals[1].s, LastName := vals[2].s);
      users := users + [user];
      i := i + 1;
    }
    assert rows[..i] == rows;
    r := Ok(users);
  }

  /** `FindByNamePrefix(prefix, limit, minId)`: calls `find_users` on the
      server (`server` stands for the connection) and decodes the reply. */
  method FindByNamePrefix(server: Request -> Result<seq<Value>>, prefix: Bytes, limit: int, minId: int)
    returns (r: Result<seq<User>>)
    ensures r == Decode(server(Request("find_users", prefix, minId, limit)))
  {
    var res := server(Request("find_users", prefix, minId, limit));
    if res.Err? {
      return Err(CallFailed);
    }
    if |res.value| != 1 {
      return Err(InvalidDataLength);
    }
    if !res.value[0].Array? {
      return Err(Conversion);
    }
    r := ScanRows(res.value[0].items);
  }

  /** `FindByNamePrefixSQL(prefix, limit, minId)`: calls `find_users_sql`
      and decodes the map-wrapped reply. */
  method FindByNamePrefixSql(server: Request -> Result<seq<Value>>, prefix: Bytes, limit: int, minId: int)
    returns (r: Result<seq<User>>)
    ensures r == DecodeSql(server(Request("find_users_sql", prefix, minId, limit)))
  {
    var res := server(Request("find_users_sql", prefix, minId, limit));
    if res.Err? {
      return Err(CallFailed);
    }
    if |res.value| != 1 {
      return Err(InvalidDataLength);
    }
    if !res.value[0].Map? {
      return Err(Conversion);
    }
    var mm := res.value[0].entries;
    var rows := if RowsKey in mm then mm[RowsKey] else Nil;
    if !rows.Array? {
      return Err(Conversion);
    }
    r := ScanRows(rows.items);
  }

  /** A reply of well-formed rows decodes to one user per row carrying
      position 0 as its id and positions 1 and 2 as its names. */
  lemma DecodeWellFormed(rows: seq<Value>)
    requires forall i :: 0 <= i < |rows| ==> WellFormedRow(rows[i])
    ensures Decode(Ok([Array(rows)])).Ok?
    ensures |Decode(Ok([Array(rows)])).value| == |rows|
    ensures forall i :: 0 <= i < |rows| ==>
      var u := Decode(Ok([Array(rows)])).value[i];
      WellFormedRow(rows[i]) && u.ID == Int64Of(rows[i].items[0].n) && u.Name == rows[i].items[1].s && u.LastName == rows[i].items[2].s
  {
    DecodeRowsSuccess(rows);
  }

  /** The example reply `[[7, "Ann", "Lee"], [8, "Bob"]]`: the short second
      row makes the whole call a conversion error, dropping the first user. */
  lemma ShortRowAbortsAll()
    ensures Decode(Ok([Array([Array([UInt(7), Str([0x41, 0x6E, 0x6E]), Str([0x4C, 0x65, 0x65])]),
                              Array([UInt(8), Str([0x42, 0x6F, 0x62])])])])) == Err(Conversion)
  {
    var rows := [Array([UInt(7), Str([0x41, 0x6E, 0x6E]), Str([0x4C, 0x65, 0x65])]),
                 Array([UInt(8), Str([0x42, 0x6F, 0x62])])];
    assert rows[..1] == [rows[0]];
    assert rows[..1][..0] == [];
    assert DecodeRows(rows[..1]).Ok?;
    assert DecodeRow(rows[1]) == Err(Conversion);
  }
}

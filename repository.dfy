/** The MySQL-backed repository `repo` of src/repository/repository.go and
    src/repository/user.go: DSN normalisation, the primary/replica router
    with its hit counters, and the `users` table operations (lookups,
    registration insert, profile update, prefix search, bulk load). */
module Repository {
  import opened Base

  // ---------------------------------------------------------------------
  // DSN normalisation (repository.go)

  const Scheme: string := "mysql://"
  const ParseTimeSuffix: string := "?parseTime=true"

  predicate OccursAt(s: string, pat: string, j: int) {
    0 <= j && j + |pat| <= |s| && s[j..j + |pat|] == pat
  }

  /** Position of the first occurrence of `pat` in `s` at or after `from`. */
  function IndexFrom(s: string, pat: string, from: nat): (r: Option<nat>)
    requires from <= |s|
    ensures r.Some? ==> from <= r.value && OccursAt(s, pat, r.value)
    ensures r.Some? ==> forall j :: from <= j < r.value ==> !OccursAt(s, pat, j)
    ensures r.None? ==> forall j :: from <= j <= |s| ==> !OccursAt(s, pat, j)
    decreases |s| - from
  {
    if OccursAt(s, pat, from) then Some(from)
    else if from == |s| then None
    else IndexFrom(s, pat, from + 1)
  }

  /** `strings.Replace(s, old, new, 1)`: the first occurrence of `pat`, if
      any, is replaced by `rep`. */
  function ReplaceFirst(s: string, pat: string, rep: string): (r: string)
    ensures |r| == |s| || |r| == |s| - |pat| + |rep|
    ensures (forall j :: 0 <= j <= |s| ==> !OccursAt(s, pat, j)) ==> r == s
    ensures forall i :: OccursAt(s, pat, i) && (forall j :: 0 <= j < i ==> !OccursAt(s, pat, j)) ==>
      r == s[..i] + rep + s[i + |pat|..]
  {
    match IndexFrom(s, pat, 0)
    case None => s
    case Some(i) => s[..i] + rep + s[i + |pat|..]
  }

  /** `strings.Replace(dsn, "mysql://", "", 1) + "?parseTime=true"`. */
  function NormalizeDsn(dsn: string): (r: string)
    ensures |r| >= |ParseTimeSuffix| && r[|r| - |ParseTimeSuffix|..] == ParseTimeSuffix
    ensures |r| == |dsn| + |ParseTimeSuffix| || |r| == |dsn| - |Scheme| + |ParseTimeSuffix|
  {
    ReplaceFirst(dsn, Scheme, "") + ParseTimeSuffix
  }

  /** A DSN without the scheme only gains the suffix. */
  lemma NormalizeDsnWithoutScheme(dsn: string)
    requires forall j :: 0 <= j <= |dsn| ==> !OccursAt(dsn, Scheme, j)
    ensures NormalizeDsn(dsn) == dsn + ParseTimeSuffix
  {
  }

  /** Only the first occurrence of the scheme is removed: the text before it
      and everything after it, later occurrences included, are kept. */
  lemma NormalizeDsnRemovesFirst(dsn: string, i: nat)
    requires OccursAt(dsn, Scheme, i)
    requires forall j :: 0 <= j < i ==> !OccursAt(dsn, Scheme, j)
    ensures NormalizeDsn(dsn) == dsn[..i] + dsn[i + |Scheme|..] + ParseTimeSuffix
  {
  }

  /** The usual URI form loses its scheme prefix. */
  lemma NormalizeDsnUri(rest: string)
    ensures NormalizeDsn(Scheme + rest) == rest + ParseTimeSuffix
  {
    assert OccursAt(Scheme + rest, Scheme, 0);
    NormalizeDsnRemovesFirst(Scheme + rest, 0);
    assert (Scheme + rest)[|Scheme|..] == rest;
  }

  /** A doubled scheme keeps its second copy. */
  lemma NormalizeDsnSchemeTwice(rest: string)
    ensures NormalizeDsn(Scheme + Scheme + rest) == Scheme + rest + ParseTimeSuffix
  {
    NormalizeDsnUri(Scheme + rest);
    assert Scheme + Scheme + rest == Scheme + (Scheme + rest);
  }

  /** A connection pool opened by `sql.Open("mysql", dsn)`. */
  datatype Conn = Conn(dsn: string)

  // ---------------------------------------------------------------------
  // The users table (user.go)

  /** A row of `users(id, login, name, last_name, password_hash,
      description, photo_file, created_at)`. */
  datatype UserRow = UserRow(
    ID: int, Login: Bytes, Name: Bytes, LastName: Bytes, PasswordHash: Bytes,
    Description: Bytes, PhotoFile: Bytes, CreatedAt: int)

  /** The Go `User` struct; fields a query does not select stay at their
      zero value (`CreatedAt` is an `sql.NullTime`). */
  datatype User = User(
    ID: int, Login: Bytes, Name: Bytes, LastName: Bytes, Password: Bytes,
    PasswordHash: Bytes, Description: Bytes, PhotoFile: Bytes, CreatedAt: Option<int>)

  const EmptyUser: User := User(0, [], [], [], [], [], [], [], None)

  /** Strictly increasing ids in table order (AUTO_INCREMENT primary key). */
  ghost predicate Ascending(s: seq<UserRow>) {
    forall i, j :: 0 <= i < j < |s| ==> s[i].ID < s[j].ID
  }

  ghost predicate TableValid(rows: seq<UserRow>, nextId: int) {
    && Ascending(rows)
    && nextId >= 1
    && forall i :: 0 <= i < |rows| ==> 1 <= rows[i].ID < nextId
  }

  /** The columns `Get` and `GetAll` scan: everything but the password hash. */
  function Profile(row: UserRow): User {
    User(row.ID, row.Login, row.Name, row.LastName, [], [], row.Description, row.PhotoFile, Some(row.CreatedAt))
  }

  /** The columns the prefix search scans: id, name and last name. */
  function SearchUser(row: UserRow): User {
    EmptyUser.(ID := row.ID, Name := row.Name, LastName := row.LastName)
  }

  /** The rows satisfying `p`, in table order. */
  function Where(rows: seq<UserRow>, p: UserRow -> bool): (r: seq<UserRow>)
    ensures forall x :: x in r <==> x in rows && p(x)
  {
    if rows == [] then []
    else
      var last := rows[|rows| - 1];
      Where(rows[..|rows| - 1], p) + (if p(last) then [last] else [])
  }

  lemma {:induction false} WhereAscending(rows: seq<UserRow>, p: UserRow -> bool)
    requires Ascending(rows)
    ensures Ascending(Where(rows, p))
  {
    if rows != [] {
      var init := rows[..|rows| - 1];
      WhereAscending(init, p);
      forall x | x in Where(init, p) ensures x.ID < rows[|rows| - 1].ID {
        var k :| 0 <= k < |init| && init[k] == x;
      }
    }
  }

  lemma TakeAscending(s: seq<UserRow>, n: nat)
    requires Ascending(s)
    ensures Ascending(Take(s, n))
    ensures forall x :: x in Take(s, n) ==> x in s
  {
    forall x | x in Take(s, n) ensures x in s {
      var k :| 0 <= k < |Take(s, n)| && Take(s, n)[k] == x;
    }
  }

  /** `(A) union (B) order by id asc` for two id-ascending row lists: an
      ordered merge that keeps one copy of a row present in both. */
  function Merge(a: seq<UserRow>, b: seq<UserRow>): (r: seq<UserRow>)
    ensures forall x :: x in r ==> x in a || x in b
    decreases |a| + |b|
  {
    if a == [] then b
    else if b == [] then a
    else if a[0].ID < b[0].ID then
      assert a == [a[0]] + a[1..];
      [a[0]] + Merge(a[1..], b)
    else if b[0].ID < a[0].ID then
      assert b == [b[0]] + b[1..];
      [b[0]] + Merge(a, b[1..])
    else
      assert a == [a[0]] + a[1..];
      assert b == [b[0]] + b[1..];
      [a[0]] + Merge(a[1..], b[1..])
  }

  lemma AscendingCons(h: UserRow, rest: seq<UserRow>)
    requires Ascending(rest)
    requires forall x :: x in rest ==> h.ID < x.ID
    ensures Ascending([h] + rest)
  {
    var r := [h] + rest;
    forall i, j | 0 <= i < j < |r| ensures r[i].ID < r[j].ID {
      if i == 0 {
        assert r[j] in rest;
      } else {
        assert r[i] == rest[i - 1] && r[j] == rest[j - 1];
      }
    }
  }

  /** Every element of an ascending list other than its head lies above it. */
  lemma AboveHead(s: seq<UserRow>, h: int)
    requires Ascending(s) && s != [] && h <= s[0].ID
    ensures forall x :: x in s[1..] ==> h < x.ID
  {
    forall x | x in s[1..] ensures h < x.ID {
      var k :| 0 <= k < |s[1..]| && s[1..][k] == x;
      assert x == s[k + 1];
    }
  }

  lemma AtOrAboveHead(s: seq<UserRow>, h: int)
    requires Ascending(s) && s != [] && h < s[0].ID
    ensures forall x :: x in s ==> h < x.ID
  {
    forall x | x in s ensures h < x.ID {
      var k :| 0 <= k < |s| && s[k] == x;
    }
  }

  /** The union of two ascending lists is ascending, so no id repeats. */
  lemma {:induction false} MergeAscending(a: seq<UserRow>, b: seq<UserRow>)
    requires Ascending(a) && Ascending(b)
    ensures Ascending(Merge(a, b))
    decreases |a| + |b|
  {
    if a != [] && b != [] {
      if a[0].ID < b[0].ID {
        MergeAscending(a[1..], b);
        AboveHead(a, a[0].ID);
        AtOrAboveHead(b, a[0].ID);
        AscendingCons(a[0], Merge(a[1..], b));
      } else if b[0].ID < a[0].ID {
        MergeAscending(a, b[1..]);
        AboveHead(b, b[0].ID);
        AtOrAboveHead(a, b[0].ID);
        AscendingCons(b[0], Merge(a, b[1..]));
      } else {
        MergeAscending(a[1..], b[1..]);
        AboveHead(a, a[0].ID);
        AboveHead(b, a[0].ID);
        AscendingCons(a[0], Merge(a[1..], b[1..]));
      }
    }
  }

  /** Rows each subquery of the prefix search may return: `limit 1000`
      without an order, taken here as the first 1000 in table order. */
  const SubqueryLimit: nat := 1000

  function NameHits(rows: seq<UserRow>, prefix: Bytes, minId: int): seq<UserRow> {
    Take(Where(rows, (x: UserRow) => x.ID > minId && StartsWith(x.Name, prefix)), SubqueryLimit)
  }

  function LastNameHits(rows: seq<UserRow>, prefix: Bytes, minId: int): seq<UserRow> {
    Take(Where(rows, (x: UserRow) => x.ID > minId && StartsWith(x.LastName, prefix)), SubqueryLimit)
  }

  /** The rows of the union query of `FindByNamePrefix`. */
  function PrefixRows(rows: seq<UserRow>, prefix: Bytes, limit: nat, minId: int): (r: seq<UserRow>)
    ensures |r| <= limit
  {
    Take(Merge(NameHits(rows, prefix, minId), LastNameHits(rows, prefix, minId)), limit)
  }

  /** The prefix search is sound, ordered and bounded: every row is a stored
      row past the cursor whose name or last name starts with the prefix;
      ids strictly ascend (so each occurs once); at most `limit` rows. */
  lemma PrefixRowsSound(rows: seq<UserRow>, prefix: Bytes, limit: nat, minId: int)
    requires Ascending(rows)
    ensures |PrefixRows(rows, prefix, limit, minId)| <= limit
    ensures Ascending(PrefixRows(rows, prefix, limit, minId))
    ensures forall x :: x in PrefixRows(rows, prefix, limit, minId) ==>
      x in rows && x.ID > minId && (StartsWith(x.Name, prefix) || StartsWith(x.LastName, prefix))
  {
    var pn := (x: UserRow) => x.ID > minId && StartsWith(x.Name, prefix);
    var pl := (x: UserRow) => x.ID > minId && StartsWith(x.LastName, prefix);
    WhereAscending(rows, pn);
    WhereAscending(rows, pl);
    TakeAscending(Where(rows, pn), SubqueryLimit);
    TakeAscending(Where(rows, pl), SubqueryLimit);
    MergeAscending(NameHits(rows, prefix, minId), LastNameHits(rows, prefix, minId));
    var m := Merge(NameHits(rows, prefix, minId), LastNameHits(rows, prefix, minId));
    TakeAscending(m, limit);
  }

  /** The users the search returns, one per result row. */
  function SearchUsers(rows: seq<UserRow>): (r: seq<User>)
    ensures |r| == |rows|
    ensures forall i :: 0 <= i < |rows| ==> r[i] == SearchUser(rows[i])
  {
    if rows == [] then [] else SearchUsers(rows[..|rows| - 1]) + [SearchUser(rows[|rows| - 1])]
  }

  /** The `rows.Next()`/`Scan(&u.ID, &u.Name, &u.LastName)` loop of the
      prefix search: one user per row, in order. */
  method ScanSearchRows(rows: seq<UserRow>) returns (found: seq<User>)
    ensures found == SearchUsers(rows)
  {
    found := [];
    var i := 0;
    while i < |rows|
      invariant 0 <= i <= |rows|
      invariant found == SearchUsers(rows[..i])
    {
      assert rows[..i + 1][..i] == rows[..i];
      found := found + [SearchUser(rows[i])];
      i := i + 1;
    }
    assert rows[..|rows|] == rows;
  }

  /** What the prefix search promises about its result. */
  ghost predicate SearchResultSound(found: seq<User>, prefix: Bytes, limit: int, minId: int) {
    && |found| <= limit
    && (forall i, j :: 0 <= i < j < |found| ==> found[i].ID < found[j].ID)
    && (forall i :: 0 <= i < |found| ==>
          found[i].ID > minId && (StartsWith(found[i].Name, prefix) || StartsWith(found[i].LastName, prefix)))
  }

  lemma PrefixSearchSound(rows: seq<UserRow>, prefix: Bytes, limit: nat, minId: int)
    requires Ascending(rows)
    ensures SearchResultSound(SearchUsers(PrefixRows(rows, prefix, limit, minId)), prefix, limit, minId)
  {
    var p := PrefixRows(rows, prefix, limit, minId);
    PrefixRowsSound(rows, prefix, limit, minId);
    forall i | 0 <= i < |p| ensures p[i].ID > minId && (StartsWith(p[i].Name, prefix) || StartsWith(p[i].LastName, prefix)) {
      assert p[i] in p;
    }
  }

  /** A batch of the bulk loader: the input slice `[lo, hi)`. */
  datatype Span = Span(lo: nat, hi: nat)

  const BatchSize: nat := 500

  /** The batches `BulkCreate` issues for `n` users: `[k*500, min(k*500+500, n))`
      for k = 0 .. ceil(n/500) - 1. */
  function Spans(n: nat): (r: seq<Span>)
    ensures forall k :: 0 <= k < |r| ==> r[k].hi <= n && r[k].hi - r[k].lo <= BatchSize
  {
    seq((n + BatchSize - 1) / BatchSize, k requires 0 <= k => Span(k * BatchSize, Min(k * BatchSize + BatchSize, n)))
  }

  /** Batch k exists exactly when `k*500 < n`. */
  lemma SpansCount(n: nat, k: nat)
    ensures k < |Spans(n)| <==> k * BatchSize < n
  {
    var c := (n + BatchSize - 1) / BatchSize;
    assert c * BatchSize <= n + BatchSize - 1 < c * BatchSize + BatchSize;
    if k < c {
      assert k * BatchSize <= (c - 1) * BatchSize;
    } else {
      assert k * BatchSize >= c * BatchSize;
    }
  }

  ghost predicate InBounds(spans: seq<Span>, n: nat) {
    forall k :: 0 <= k < |spans| ==> spans[k].lo <= spans[k].hi <= n
  }

  lemma SpansInBounds(n: nat)
    ensures InBounds(Spans(n), n)
  {
    forall k | 0 <= k < |Spans(n)| ensures Spans(n)[k].lo <= Spans(n)[k].hi <= n {
      SpansCount(n, k);
    }
  }

  /** The batches tile `[0, n)` in order, each holding 1 to 500 users and
      all but the last exactly 500; there are ceil(n/500) of them. */
  lemma SpansPartition(n: nat)
    ensures |Spans(n)| == (n + 499) / 500
    ensures n == 0 <==> Spans(n) == []
    ensures n > 0 ==> Spans(n)[0].lo == 0 && Spans(n)[|Spans(n)| - 1].hi == n
    ensures forall k :: 0 <= k < |Spans(n)| - 1 ==> Spans(n)[k].hi == Spans(n)[k + 1].lo
    ensures forall k :: 0 <= k < |Spans(n)| ==> 1 <= Spans(n)[k].hi - Spans(n)[k].lo <= BatchSize
    ensures forall k :: 0 <= k < |Spans(n)| - 1 ==> Spans(n)[k].hi - Spans(n)[k].lo == BatchSize
  {
    var s := Spans(n);
    forall k | 0 <= k < |s| ensures 1 <= s[k].hi - s[k].lo <= BatchSize {
      SpansCount(n, k);
    }
    forall k | 0 <= k < |s| - 1 ensures s[k].hi == s[k + 1].lo && s[k].hi - s[k].lo == BatchSize {
      SpansCount(n, k + 1);
    }
    if n > 0 {
      SpansCount(n, |s| - 1);
      SpansCount(n, |s|);
    } else {
      SpansCount(n, 0);
    }
  }

  /** The concatenation of the batches' slices. */
  function Batched<T>(input: seq<T>, spans: seq<Span>): seq<T>
    requires InBounds(spans, |input|)
  {
    if spans == [] then []
    else
      var s := spans[|spans| - 1];
      Batched(input, spans[..|spans| - 1]) + input[s.lo..s.hi]
  }

  lemma {:induction false} BatchedPrefix<T>(input: seq<T>, k: nat)
    requires k <= |Spans(|input|)|
    ensures InBounds(Spans(|input|)[..k], |input|)
    ensures Batched(input, Spans(|input|)[..k]) == input[..Min(k * BatchSize, |input|)]
  {
    SpansInBounds(|input|);
    var s := Spans(|input|);
    if k > 0 {
      BatchedPrefix(input, k - 1);
      assert s[..k][..k - 1] == s[..k - 1];
      SpansCount(|input|, k - 1);
      assert s[k - 1] == Span((k - 1) * BatchSize, Min(k * BatchSize, |input|));
      assert input[..Min(k * BatchSize, |input|)]
          == input[..(k - 1) * BatchSize] + input[s[k - 1].lo..s[k - 1].hi];
    }
  }

  /** Every user lands in exactly one batch, and the batches keep input order. */
  lemma BatchesCoverInput<T>(input: seq<T>)
    ensures InBounds(Spans(|input|), |input|)
    ensures Batched(input, Spans(|input|)) == input
  {
    var s := Spans(|input|);
    BatchedPrefix(input, |s|);
    assert s[..|s|] == s;
    SpansCount(|input|, |s|);
  }

  /** The example of 1301 users: batches of 500, 500 and 301. */
  lemma Spans1301()
    ensures Spans(1301) == [Span(0, 500), Span(500, 1000), Span(1000, 1301)]
  {
    assert |Spans(1301)| == 3;
  }

  /** The single placeholder group of one row. */
  const RowPlaceholders: string := "(?, ?, ?, ?, ?, NOW())"
  const BulkInsertHead: string :=
    "INSERT INTO users(login, name, last_name, password_hash, description, created_at) VALUES "

  /** `strings.Join(parts, sep)`. */
  function Join(parts: seq<string>, sep: string): string {
    if parts == [] then ""
    else if |parts| == 1 then parts[0]
    else Join(parts[..|parts| - 1], sep) + sep + parts[|parts| - 1]
  }

  /** `n` copies of the row group. */
  function Groups(n: nat): seq<string> {
    seq(n, _ => RowPlaceholders)
  }

  /** The arguments of one user, in column order. */
  function RowArgs(u: User): seq<Bytes> {
    [u.Login, u.Name, u.LastName, u.PasswordHash, u.Description]
  }

  /** `valueArgs` for a batch: five arguments per user. */
  function BatchArgs(users: seq<User>): (r: seq<Bytes>)
    ensures |r| == 5 * |users|
  {
    if users == [] then []
    else BatchArgs(users[..|users| - 1]) + RowArgs(users[|users| - 1])
  }

  /** Argument `5*i + k` of the batch is column k of user i. */
  lemma {:induction false} BatchArgsLayout(users: seq<User>)
    ensures |BatchArgs(users)| == 5 * |users|
    ensures forall i :: 0 <= i < |users| ==>
      BatchArgs(users)[5 * i..5 * i + 5] == RowArgs(users[i])
  {
    if users != [] {
      var init := users[..|users| - 1];
      BatchArgsLayout(init);
      forall i | 0 <= i < |users|
        ensures BatchArgs(users)[5 * i..5 * i + 5] == RowArgs(users[i])
      {
        if i < |init| {
          assert BatchArgs(users)[5 * i..5 * i + 5] == BatchArgs(init)[5 * i..5 * i + 5];
        }
      }
    }
  }

  function CountChar(s: string, c: char): nat {
    if s == [] then 0 else CountChar(s[..|s| - 1], c) + (if s[|s| - 1] == c then 1 else 0)
  }

  lemma {:induction false} CountCharAppend(a: string, b: string, c: char)
    ensures CountChar(a + b, c) == CountChar(a, c) + CountChar(b, c)
  {
    if b == [] {
      assert a + b == a;
    } else {
      assert (a + b)[..|a + b| - 1] == a + b[..|b| - 1];
      assert (a + b)[|a + b| - 1] == b[|b| - 1];
      CountCharAppend(a, b[..|b| - 1], c);
    }
  }

  lemma {:induction false} CountCharAbsent(s: string, c: char)
    requires c !in s
    ensures CountChar(s, c) == 0
  {
    if s != [] {
      CountCharAbsent(s[..|s| - 1], c);
    }
  }

  /** The row group has five placeholders. */
  lemma RowPlaceholdersCount()
    ensures CountChar(RowPlaceholders, '?') == 5
  {
    var q := "?";
    var sep := ", ";
    var tail := ", NOW())";
    assert CountChar(q, '?') == 1 by {
      assert q[..0] == [];
    }
    CountCharAbsent("(", '?');
    CountCharAbsent(sep, '?');
    CountCharAbsent(tail, '?');
    var qs := q + sep;
    CountCharAppend(q, sep, '?');
    var s1 := "(" + qs;
    CountCharAppend("(", qs, '?');
    var s2 := s1 + qs;
    CountCharAppend(s1, qs, '?');
    var s3 := s2 + qs;
    CountCharAppend(s2, qs, '?');
    var s4 := s3 + qs;
    CountCharAppend(s3, qs, '?');
    var s5 := s4 + q;
    CountCharAppend(s4, q, '?');
    CountCharAppend(s5, tail, '?');
    assert RowPlaceholders == s5 + tail;
  }

  lemma {:induction false} PlaceholderCount(n: nat)
    ensures CountChar(Join(Groups(n), ","), '?') == 5 * n
  {
    RowPlaceholdersCount();
    if n == 0 {
      assert Groups(0) == [];
    } else if n == 1 {
      assert Groups(1) == [RowPlaceholders];
    } else {
      assert Groups(n)[..n - 1] == Groups(n - 1);
      PlaceholderCount(n - 1);
      CountCharAbsent(",", '?');
      CountCharAppend(Join(Groups(n - 1), ",") + ",", RowPlaceholders, '?');
      CountCharAppend(Join(Groups(n - 1), ","), ",", '?');
    }
  }

  /** The VALUES list has exactly one `?` per argument: five per user. */
  lemma PlaceholdersMatchArgs(users: seq<User>)
    ensures CountChar(Join(Groups(|users|), ","), '?') == |BatchArgs(users)| == 5 * |users|
  {
    BatchArgsLayout(users);
    PlaceholderCount(|users|);
  }

  /** The rows one successful multi-row insert adds: consecutive ids from
      `firstId`, `created_at = NOW()`, and an empty photo. */
  function NewRows(batch: seq<User>, firstId: int, now: int): (r: seq<UserRow>)
    ensures |r| == |batch|
  {
    if batch == [] then []
    else NewRows(batch[..|batch| - 1], firstId, now) + [NewRow(batch[|batch| - 1], firstId + |batch| - 1, now)]
  }

  /** The stored row of one bulk-loaded user. */
  function NewRow(u: User, id: int, now: int): UserRow {
    UserRow(id, u.Login, u.Name, u.LastName, u.PasswordHash, u.Description, [], now)
  }

  /** Row i of a batch carries user i under id `firstId + i`. */
  lemma {:induction false} NewRowsAt(batch: seq<User>, firstId: int, now: int)
    ensures forall i :: 0 <= i < |batch| ==> NewRows(batch, firstId, now)[i] == NewRow(batch[i], firstId + i, now)
  {
    if batch != [] {
      NewRowsAt(batch[..|batch| - 1], firstId, now);
    }
  }

  lemma {:induction false} NewRowsAppend(a: seq<User>, b: seq<User>, firstId: int, now: int)
    ensures NewRows(a + b, firstId, now) == NewRows(a, firstId, now) + NewRows(b, firstId + |a|, now)
  {
    if b == [] {
      assert a + b == a;
    } else {
      var b' := b[..|b| - 1];
      assert (a + b)[..|a + b| - 1] == a + b';
      assert (a + b)[|a + b| - 1] == b[|b| - 1];
      NewRowsAppend(a, b', firstId, now);
    }
  }

  /** The users a bulk load stores: the batches' slices in order, leaving
      out each batch the database rejects (its start is in `failing`). The
      table's counter numbers the stored users consecutively. */
  function Loaded<T>(input: seq<T>, spans: seq<Span>, failing: set<nat>): (r: seq<T>)
    requires InBounds(spans, |input|)
    ensures forall x :: x in r ==> x in input
  {
    if spans == [] then []
    else
      var s := spans[|spans| - 1];
      Loaded(input, spans[..|spans| - 1], failing) + (if s.lo in failing then [] else input[s.lo..s.hi])
  }

  lemma InBoundsSnoc(spans: seq<Span>, s: Span, n: nat)
    requires InBounds(spans, n) && s.lo <= s.hi <= n
    ensures InBounds(spans + [s], n)
  {
    var t := spans + [s];
    forall k | 0 <= k < |t| ensures t[k].lo <= t[k].hi <= n {
      if k < |spans| {
        assert t[k] == spans[k];
      }
    }
  }

  /** The bookkeeping of one loop step of the bulk loader: a stored batch
      extends both the loaded users and the table by that batch. */
  lemma LoadedStep(input: seq<User>, spans: seq<Span>, s: Span, failing: set<nat>, firstId: int, now: int,
                   base: seq<UserRow>, rows0: seq<UserRow>, next0: int, rows1: seq<UserRow>, next1: int)
    requires InBounds(spans, |input|) && s.lo <= s.hi <= |input|
    requires rows0 == base + NewRows(Loaded(input, spans, failing), firstId, now)
    requires next0 == firstId + |Loaded(input, spans, failing)|
    requires s.lo in failing ==> rows1 == rows0 && next1 == next0
    requires s.lo !in failing ==> rows1 == rows0 + NewRows(input[s.lo..s.hi], next0, now) && next1 == next0 + (s.hi - s.lo)
    ensures InBounds(spans + [s], |input|)
    ensures rows1 == base + NewRows(Loaded(input, spans + [s], failing), firstId, now)
    ensures next1 == firstId + |Loaded(input, spans + [s], failing)|
  {
    InBoundsSnoc(spans, s, |input|);
    var t := spans + [s];
    assert t[..|t| - 1] == spans;
    var before := Loaded(input, spans, failing);
    var added := if s.lo in failing then [] else input[s.lo..s.hi];
    assert Loaded(input, t, failing) == before + added;
    NewRowsAppend(before, added, firstId, now);
    if s.lo in failing {
      assert before + added == before;
    }
  }

  /** Batch k of `Spans(n)`. */
  function BatchSpan(k: nat, n: nat): Span {
    Span(k * BatchSize, Min(k * BatchSize + BatchSize, n))
  }

  lemma SpansAt(n: nat)
    ensures forall k :: 0 <= k < |Spans(n)| ==> Spans(n)[k] == BatchSpan(k, n)
  {
  }

  /** The batches issued so far are the first ones of `Spans(n)`. */
  ghost predicate IssuedSoFar(spans: seq<Span>, n: nat) {
    |spans| <= |Spans(n)| && spans == Spans(n)[..|spans|]
  }

  /** While `k*500 < n`, the next batch issued is batch k. */
  lemma IssueNext(spans: seq<Span>, n: nat)
    requires IssuedSoFar(spans, n)
    requires |spans| * BatchSize < n
    ensures IssuedSoFar(spans + [BatchSpan(|spans|, n)], n)
    ensures (|spans| + 1) * BatchSize == |spans| * BatchSize + BatchSize
  {
    SpansCount(n, |spans|);
    SpansAt(n);
    assert Spans(n)[..|spans| + 1] == Spans(n)[..|spans|] + [Spans(n)[|spans|]];
  }

  /** Once `k*500 >= n`, every batch has been issued. */
  lemma IssuedAll(spans: seq<Span>, n: nat)
    requires IssuedSoFar(spans, n)
    requires |spans| * BatchSize >= n
    ensures spans == Spans(n)
  {
    SpansCount(n, |spans|);
  }

  /** With no failing batch, every batch is stored. */
  lemma {:induction false} LoadedAll<T>(input: seq<T>, spans: seq<Span>)
    requires InBounds(spans, |input|)
    ensures Loaded(input, spans, {}) == Batched(input, spans)
  {
    if spans != [] {
      LoadedAll(input, spans[..|spans| - 1]);
    }
  }

  /** When no batch fails, every input user is stored, in input order, with
      consecutive ids. */
  lemma LoadedAllUsers(input: seq<User>, firstId: int, now: int)
    ensures InBounds(Spans(|input|), |input|)
    ensures NewRows(Loaded(input, Spans(|input|), {}), firstId, now) == NewRows(input, firstId, now)
  {
    BatchesCoverInput(input);
    LoadedAll(input, Spans(|input|));
  }

  lemma NewRowsValid(rows: seq<UserRow>, nextId: int, batch: seq<User>, now: int)
    requires TableValid(rows, nextId)
    ensures TableValid(rows + NewRows(batch, nextId, now), nextId + |batch|)
  {
    NewRowsAt(batch, nextId, now);
  }

  // ---------------------------------------------------------------------
  // The repository object

  class Repo {
    var db: Conn
    var slaveDb: Conn
    var readReplicas: seq<Conn>
    var masterCnt: int
    var slaveCnt: int
    /** The `users` table as the primary holds it. */
    var users: seq<UserRow>
    /** The table's AUTO_INCREMENT counter. */
    var nextUserId: int

    ghost predicate Valid()
      reads this
    {
      && readReplicas == [db, slaveDb]
      && IsInt32(masterCnt) && IsInt32(slaveCnt)
      && TableValid(users, nextUserId)
    }

    /** `NewMysqlRepository(dsn, slaveDsn)` over a database that already holds
        `table`: both DSNs are normalised and the read set is
        `[primary, slave]`. A DSN `sql.Open` refuses ends the process and is
        not modelled. */
    constructor NewMysqlRepository(dsn: string, slaveDsn: string, table: seq<UserRow>, nextId: int)
      requires TableValid(table, nextId)
      ensures Valid()
      ensures db == Conn(NormalizeDsn(dsn)) && slaveDb == Conn(NormalizeDsn(slaveDsn))
      ensures readReplicas == [db, slaveDb]
      ensures masterCnt == 0 && slaveCnt == 0
      ensures users == table && nextUserId == nextId
    {
      db := Conn(NormalizeDsn(dsn));
      slaveDb := Conn(NormalizeDsn(slaveDsn));
      readReplicas := [Conn(NormalizeDsn(dsn)), Conn(NormalizeDsn(slaveDsn))];
      masterCnt, slaveCnt := 0, 0;
      users, nextUserId := table, nextId;
    }

    /** `GetMasterDB`: the primary, which is also read replica 0. */
    function GetMasterDB(): (c: Conn)
      reads this
      requires Valid()
      ensures c == db && c == readReplicas[0]
    {
      db
    }

    /** `GetRoDB` with `idx` the value `rand.Intn(len(readReplicas))` drew:
        returns that replica and bumps exactly one counter. */
    method GetRoDB(idx: int) returns (c: Conn)
      requires Valid()
      requires 0 <= idx < |readReplicas|
      modifies this`masterCnt, this`slaveCnt
      ensures Valid()
      ensures c == readReplicas[idx]
      ensures idx == 0 ==> masterCnt == IncInt32(old(masterCnt)) && slaveCnt == old(slaveCnt)
      ensures idx != 0 ==> slaveCnt == IncInt32(old(slaveCnt)) && masterCnt == old(masterCnt)
      ensures old(masterCnt) < MaxInt32 && old(slaveCnt) < MaxInt32 ==>
        masterCnt + slaveCnt == old(masterCnt) + old(slaveCnt) + 1
    {
      if idx == 0 {
        masterCnt := IncInt32(masterCnt);
      } else {
        slaveCnt := IncInt32(slaveCnt);
      }
      c := readReplicas[idx];
    }

    /** `Get(id)`: the profile of the user with that id, or `sql.ErrNoRows`. */
    function Get(id: int, fault: bool): (r: Result<User>)
      reads this
      ensures fault ==> r == Err(Storage)
      ensures !fault ==> (r.Ok? <==> exists i :: 0 <= i < |users| && users[i].ID == id)
      ensures !fault && r.Err? ==> r.error == NoRows
      ensures r.Ok? ==> r.value.ID == id && r.value.PasswordHash == [] && Profile(users[FirstIndex(users, (x: UserRow) => x.ID == id).value]) == r.value
    {
      if fault then Err(Storage)
      else
        match FirstIndex(users, (x: UserRow) => x.ID == id)
        case None => Err(NoRows)
        case Some(i) => Ok(Profile(users[i]))
    }

    /** `IsLoginExist(login)`: false only when the lookup finds no row; any
        other database error is reported as "exists". */
    function IsLoginExist(login: Bytes, fault: bool): (b: bool)
      reads this
      ensures !b <==> !fault && forall i :: 0 <= i < |users| ==> users[i].Login != login
    {
      fault || FirstIndex(users, (x: UserRow) => x.Login == login).Some?
    }

    /** `FindByLoginAndPassword(login, password)`: the first user with that
        login whose stored hash `matches` the password (bcrypt's verdict),
        returned with its hash cleared. */
    function FindByLoginAndPassword(login: Bytes, password: Bytes, matches: (Bytes, Bytes) -> bool, fault: bool): (r: Result<User>)
      reads this
      ensures fault ==> r == Err(Storage)
      ensures !fault && (forall i :: 0 <= i < |users| ==> users[i].Login != login) ==> r == Err(NoRows)
      ensures r.Ok? ==> r.value.PasswordHash == [] && r.value.Password == [] && r.value.Login == login
      ensures r.Ok? ==> exists i :: 0 <= i < |users| && users[i].Login == login && users[i].ID == r.value.ID
                                    && matches(users[i].PasswordHash, password)
      ensures !fault ==> forall i ::
                (0 <= i < |users| && users[i].Login == login && (forall j :: 0 <= j < i ==> users[j].Login != login)) ==>
                  ((r.Ok? <==> matches(users[i].PasswordHash, password))
                   && (r.Ok? ==> r.value == Profile(users[i]))
                   && (r.Err? ==> r.error == HashMismatch))
    {
      if fault then Err(Storage)
      else
        match FirstIndex(users, (x: UserRow) => x.Login == login)
        case None => Err(NoRows)
        case Some(i) =>
          var row := users[i];
          var user := User(row.ID, row.Login, row.Name, row.LastName, [], row.PasswordHash,
                           row.Description, row.PhotoFile, Some(row.CreatedAt));
          if !matches(user.PasswordHash, password) then Err(HashMismatch)
          else Ok(user.(PasswordHash := []))
    }

    /** `Create(user)`: inserts login, name, last name and the bcrypt hash
        (`hashed`, None when hashing failed) with `created_at = NOW()`, and
        returns the user with `ID` set to the insert id. */
    method Create(user: User, hashed: Option<Bytes>, now: int, fault: bool) returns (r: Result<User>)
      requires Valid()
      modifies this`users, this`nextUserId
      ensures Valid()
      ensures hashed.None? ==> r == Err(HashFailure)
      ensures hashed.Some? && fault ==> r == Err(Storage)
      ensures hashed.Some? && !fault ==> r.Ok?
      ensures r.Err? ==> users == old(users) && nextUserId == old(nextUserId)
      ensures r.Ok? ==> r.value == user.(ID := old(nextUserId))
      ensures r.Ok? ==> nextUserId == old(nextUserId) + 1
      ensures r.Ok? ==>
        users == old(users) + [UserRow(old(nextUserId), user.Login, user.Name, user.LastName, hashed.value, [], [], now)]
    {
      if hashed.None? {
        return Err(HashFailure);
      }
      if fault {
        return Err(Storage);
      }
      var id := nextUserId;
      users := users + [UserRow(id, user.Login, user.Name, user.LastName, hashed.value, [], [], now)];
      nextUserId := nextUserId + 1;
      r := Ok(user.(ID := id));
    }

    /** `Update(user)`: `UPDATE users set description = ?, photo_file = ? where id = ?`. */
    method Update(user: User, fault: bool) returns (r: Status)
      requires Valid()
      modifies this`users
      ensures Valid()
      ensures r == (if fault then Failed(Storage) else Done)
      ensures |users| == |old(users)|
      ensures forall i :: 0 <= i < |users| ==>
        users[i] == if !fault && old(users)[i].ID == user.ID
                    then old(users)[i].(Description := user.Description, PhotoFile := user.PhotoFile)
                    else old(users)[i]
    {
      if fault {
        return Failed(Storage);
      }
      var rows := users;
      users := seq(|rows|, i requires 0 <= i < |rows| =>
        if rows[i].ID == user.ID then rows[i].(Description := user.Description, PhotoFile := user.PhotoFile) else rows[i]);
      r := Done;
    }

    /** `FindByNamePrefix(prefix, limit, minId)` routed through `GetRoDB`
        (replica `idx`); every replica is taken to hold the primary's rows.
        The loop is the scan that copies each result row into a `User`. */
    method FindByNamePrefix(prefix: Bytes, limit: int, minId: int, idx: int, fault: bool) returns (r: Result<seq<User>>)
      requires Valid()
      requires 0 <= idx < |readReplicas|
      modifies this`masterCnt, this`slaveCnt
      ensures Valid()
      ensures idx == 0 ==> masterCnt == IncInt32(old(masterCnt)) && slaveCnt == old(slaveCnt)
      ensures idx != 0 ==> slaveCnt == IncInt32(old(slaveCnt)) && masterCnt == old(masterCnt)
      ensures fault || limit < 0 ==> r == Err(Storage)
      ensures !fault && limit >= 0 ==> r == Ok(SearchUsers(PrefixRows(users, prefix, limit, minId)))
      ensures r.Ok? ==> SearchResultSound(r.value, prefix, limit, minId)
    {
      var conn := GetRoDB(idx);
      if fault || limit < 0 {
        return Err(Storage);
      }
      var found := ScanSearchRows(PrefixRows(users, prefix, limit, minId));
      PrefixSearchSound(users, prefix, limit, minId);
      r := Ok(found);
    }

    /** `bulkCreate(users)`: builds the multi-row statement and its argument
        list, then executes it. An empty batch would be a syntax error. */
    method BulkCreateBatch(batch: seq<User>, now: int, fault: bool) returns (stmt: string, args: seq<Bytes>, r: Status)
      requires Valid()
      modifies this`users, this`nextUserId
      ensures Valid()
      ensures stmt == BulkInsertHead + Join(Groups(|batch|), ",")
      ensures args == BatchArgs(batch)
      ensures r == (if fault || batch == [] then Failed(Storage) else Done)
      ensures r.Failed? ==> users == old(users) && nextUserId == old(nextUserId)
      ensures r.Done? ==> users == old(users) + NewRows(batch, old(nextUserId), now)
      ensures r.Done? ==> nextUserId == old(nextUserId) + |batch|
    {
      var valueStrings: seq<string> := [];
      var valueArgs: seq<Bytes> := [];
      var i := 0;
      while i < |batch|
        invariant 0 <= i <= |batch|
        invariant valueStrings == Groups(i)
        invariant valueArgs == BatchArgs(batch[..i])
      {
        assert batch[..i + 1][..i] == batch[..i];
        valueStrings := valueStrings + [RowPlaceholders];
        valueArgs := valueArgs + RowArgs(batch[i]);
        i := i + 1;
      }
      assert batch[..|batch|] == batch;
      stmt := BulkInsertHead + Join(valueStrings, ",");
      args := valueArgs;
      if fault || batch == [] {
        return stmt, args, Failed(Storage);
      }
      NewRowsValid(users, nextUserId, batch, now);
      users := users + NewRows(batch, nextUserId, now);
      nextUserId := nextUserId + |batch|;
      r := Done;
    }

    /** `BulkCreate(users)`: one insert per 500-user slice, in order; a batch
        the database rejects (its start is in `failing`) is only logged, and
        every later batch is still issued. Returns the slices attempted,
        which are what the loop logs. */
    method BulkCreate(input: seq<User>, now: int, failing: set<nat>) returns (spans: seq<Span>)
      requires Valid()
      modifies this`users, this`nextUserId
      ensures Valid()
      ensures spans == Spans(|input|)
      ensures InBounds(spans, |input|)
      ensures users == old(users) + NewRows(Loaded(input, spans, failing), old(nextUserId), now)
      ensures nextUserId == old(nextUserId) + |Loaded(input, spans, failing)|
    {
      spans := [];
      var lo := 0;
      while lo < |input|
        invariant Valid()
        invariant lo == |spans| * BatchSize
        invariant IssuedSoFar(spans, |input|)
        invariant InBounds(spans, |input|)
        invariant users == old(users) + NewRows(Loaded(input, spans, failing), old(nextUserId), now)
        invariant nextUserId == old(nextUserId) + |Loaded(input, spans, failing)|
        decreases |input| - lo
      {
        var hi := lo + BatchSize;
        if hi > |input| {
          hi := |input|;
        }
        IssueNext(spans, |input|);
        assert Span(lo, hi) == BatchSpan(|spans|, |input|);
        ghost var rows0, next0 := users, nextUserId;
        var batch := input[lo..hi];
        var _, _, status := BulkCreateBatch(batch, now, lo in failing);
        LoadedStep(input, spans, Span(lo, hi), failing, old(nextUserId), now, old(users), rows0, next0, users, nextUserId);
        spans := spans + [Span(lo, hi)];
        lo := lo + BatchSize;
      }
      IssuedAll(spans, |input|);
    }
  }
}

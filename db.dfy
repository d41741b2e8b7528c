/** The store (utils/db.js): a User table and a Task outbox, two independent
    tables with no foreign key. The SQLite engine is abstracted as two
    in-memory sequences of rows in storage order; each helper of db.js
    becomes a method of Store when it writes and a function of a table
    snapshot when it only reads. */
module Db {
  import opened Js

  /** A row of the User table. isBanned is the integer column the handlers
      write 1 and 0 to; whitelistedNick is NULL (None) until set. */
  datatype User = User(
    id: string,
    username: string,
    passwordHash: string,
    ipHash: string,
    whitelistedNick: Option<string>,
    isBanned: int,
    createdAt: nat,
    updatedAt: nat)

  /** A row of the Task outbox; kind is the `type` column. */
  datatype Task = Task(id: nat, kind: string, action: string, data: Option<string>, createdAt: nat)

  /** The `updates` object of updateUser: one entry per column it names,
      None for a column it leaves out. Some(None) writes NULL. */
  datatype Patch = Patch(isBanned: Option<int>, whitelistedNick: Option<Option<string>>)

  predicate EmptyPatch(p: Patch) {
    p.isBanned.None? && p.whitelistedNick.None?
  }

  /** The row createUser inserts: the columns it names, the others at the
      defaults of the table (no nick, not banned, both times now). */
  function NewUser(id: string, username: string, passwordHash: string, ipHash: string, now: nat): User {
    User(id, username, passwordHash, ipHash, None, 0, now, now)
  }

  /** One user row after `UPDATE User SET <fields>, updatedAt = now`. */
  function Patched(u: User, p: Patch, now: nat): (v: User)
    ensures v.id == u.id && v.username == u.username && v.passwordHash == u.passwordHash
    ensures v.ipHash == u.ipHash && v.createdAt == u.createdAt && v.updatedAt == now
    ensures p.isBanned.None? ==> v.isBanned == u.isBanned
    ensures p.isBanned.Some? ==> v.isBanned == p.isBanned.value
    ensures p.whitelistedNick.None? ==> v.whitelistedNick == u.whitelistedNick
    ensures p.whitelistedNick.Some? ==> v.whitelistedNick == p.whitelistedNick.value
  {
    u.(isBanned := if p.isBanned.Some? then p.isBanned.value else u.isBanned,
       whitelistedNick := if p.whitelistedNick.Some? then p.whitelistedNick.value else u.whitelistedNick,
       updatedAt := now)
  }

  /** The User table after updateUser(name, p): every row with that username
      patched, every other row as it was. */
  function UpdateRows(users: seq<User>, name: string, p: Patch, now: nat): (r: seq<User>)
    ensures |r| == |users|
    ensures forall i | 0 <= i < |users| ::
              r[i] == if users[i].username == name then Patched(users[i], p, now) else users[i]
  {
    if users == [] then []
    else [if users[0].username == name then Patched(users[0], p, now) else users[0]]
         + UpdateRows(users[1..], name, p, now)
  }

  // ---- lookups: SELECT * ... WHERE key = ? ... .get() ----

  function UsernameOf(u: User): string { u.username }
  function IpHashOf(u: User): string { u.ipHash }

  /** The position of the first row whose key is k, |users| when none is. */
  function FirstWith(users: seq<User>, key: User -> string, k: string): (i: nat)
    ensures i <= |users|
    ensures i < |users| ==> key(users[i]) == k
    ensures forall j | 0 <= j < i :: key(users[j]) != k
  {
    if users == [] then 0
    else if key(users[0]) == k then 0
    else 1 + FirstWith(users[1..], key, k)
  }

  /** findUserByUsername: the first row with that username. An absent
      username binds NULL, which `=` matches against no row. */
  function FindUserByUsername(users: seq<User>, name: Option<string>): (r: Option<User>)
    ensures r.Some? ==> name.Some? && r.value in users && r.value.username == name.value
    ensures r.None? ==> name.None? || forall u | u in users :: u.username != name.value
  {
    if name.None? then None
    else
      var i := FirstWith(users, UsernameOf, name.value);
      if i < |users| then Some(users[i]) else None
  }

  /** findUserByIp: the first row with that IP hash. */
  function FindUserByIp(users: seq<User>, ipHash: string): (r: Option<User>)
    ensures r.Some? ==> r.value in users && r.value.ipHash == ipHash
    ensures r.None? ==> forall u | u in users :: u.ipHash != ipHash
  {
    var i := FirstWith(users, IpHashOf, ipHash);
    if i < |users| then Some(users[i]) else None
  }

  /** A name that no earlier row has finds the row appended with it. */
  lemma FindAppended(users: seq<User>, u: User)
    requires forall v | v in users :: v.username != u.username
    ensures FindUserByUsername(users + [u], Some(u.username)) == Some(u)
  {
    var s := users + [u];
    forall j | 0 <= j < |users| ensures UsernameOf(s[j]) != u.username {
      assert s[j] == users[j] && users[j] in users;
    }
    FirstWithIs(s, UsernameOf, u.username, |users|);
  }

  /** An update leaves every row found by name in place, patched: the row
      findUserByUsername gives afterwards is the patched row it gave before. */
  lemma FindAfterUpdate(users: seq<User>, name: string, p: Patch, now: nat)
    requires FindUserByUsername(users, Some(name)).Some?
    ensures FindUserByUsername(UpdateRows(users, name, p, now), Some(name)) ==
              Some(Patched(FindUserByUsername(users, Some(name)).value, p, now))
  {
    var r := UpdateRows(users, name, p, now);
    var i := FirstWith(users, UsernameOf, name);
    assert UsernameOf(r[i]) == name;
    forall j | 0 <= j < i ensures UsernameOf(r[j]) != name {
      assert UsernameOf(users[j]) != name;
    }
    FirstWithIs(r, UsernameOf, name, i);
  }

  lemma {:induction false} FirstWithIs(users: seq<User>, key: User -> string, k: string, i: nat)
    requires i < |users| && key(users[i]) == k
    requires forall j | 0 <= j < i :: key(users[j]) != k
    ensures FirstWith(users, key, k) == i
  {
    if i > 0 {
      FirstWithIs(users[1..], key, k, i - 1);
    }
  }

  // ---- the outbox queries ----

  /** Ordered by createdAt, newest first. */
  predicate NewestFirst(ts: seq<Task>) {
    forall i, j | 0 <= i < j < |ts| :: ts[i].createdAt >= ts[j].createdAt
  }

  /** One step of the ordering: t goes in front of the first task that is
      not newer than it. */
  function InsertNewestFirst(t: Task, sorted: seq<Task>): seq<Task>
  {
    if sorted == [] || sorted[0].createdAt <= t.createdAt then [t] + sorted
    else [sorted[0]] + InsertNewestFirst(t, sorted[1..])
  }

  /** Inserting into a newest-first list keeps it newest first, adds exactly
      t, and puts at the head either t or the old head. */
  lemma {:induction false} InsertKeepsOrder(t: Task, sorted: seq<Task>)
    requires NewestFirst(sorted)
    ensures var r := InsertNewestFirst(t, sorted);
            && NewestFirst(r)
            && multiset(r) == multiset(sorted) + multiset{t}
            && |r| == |sorted| + 1
            && (r[0] == t || (sorted != [] && r[0] == sorted[0]))
  {
    if sorted == [] {
      assert InsertNewestFirst(t, sorted) == [t];
    } else if sorted[0].createdAt <= t.createdAt {
      HeadOnTop(t, sorted);
      assert multiset([t] + sorted) == multiset{t} + multiset(sorted);
    } else {
      var head, tail := sorted[0], sorted[1..];
      NewestFirstTail(sorted);
      InsertKeepsOrder(t, tail);
      var rest := InsertNewestFirst(t, tail);
      MultisetCons(sorted);
      HeadOnTop(head, rest);
      assert multiset([head] + rest) == multiset{head} + multiset(rest);
    }
  }

  lemma MultisetCons(s: seq<Task>)
    requires s != []
    ensures multiset(s) == multiset{s[0]} + multiset(s[1..])
  {
    assert s == [s[0]] + s[1..];
  }

  lemma NewestFirstTail(s: seq<Task>)
    requires NewestFirst(s) && s != []
    ensures NewestFirst(s[1..])
  {
    forall i, j | 0 <= i < j < |s| - 1 ensures s[1..][i].createdAt >= s[1..][j].createdAt {
      assert s[1..][i] == s[i + 1] && s[1..][j] == s[j + 1];
    }
  }

  /** A newest-first list stays so with an element no older than its head in
      front. */
  lemma HeadOnTop(head: Task, rest: seq<Task>)
    requires NewestFirst(rest) && rest != [] && head.createdAt >= rest[0].createdAt
    ensures NewestFirst([head] + rest)
  {
    var r := [head] + rest;
    forall i, j | 0 <= i < j < |r| ensures r[i].createdAt >= r[j].createdAt {
      if i == 0 && j > 1 {
        assert rest[0].createdAt >= rest[j - 1].createdAt;
      }
    }
  }

  /** getAllTasks: every task, ordered by createdAt descending. SQLite does
      not fix the order of rows with equal createdAt; this model puts a later
      insert before an earlier one. */
  function GetAllTasks(tasks: seq<Task>): seq<Task>
  {
    if tasks == [] then []
    else InsertNewestFirst(tasks[|tasks| - 1], GetAllTasks(tasks[..|tasks| - 1]))
  }

  /** getAllTasks returns the stored rows, each as often as it is stored,
      newest first. */
  lemma {:induction false} AllTasksSorted(tasks: seq<Task>)
    ensures var all := GetAllTasks(tasks);
            NewestFirst(all) && multiset(all) == multiset(tasks) && |all| == |tasks|
  {
    if tasks != [] {
      var init, last := tasks[..|tasks| - 1], tasks[|tasks| - 1];
      AllTasksSorted(init);
      InsertKeepsOrder(last, GetAllTasks(init));
      assert tasks == init + [last];
    }
  }

  /** getAllTasks returns exactly the stored rows: a row is in the result
      exactly when it is stored. */
  lemma AllTasksMembers(tasks: seq<Task>, t: Task)
    ensures t in GetAllTasks(tasks) <==> t in tasks
  {
    var all := GetAllTasks(tasks);
    AllTasksSorted(tasks);
    assert t in all <==> t in multiset(all);
    assert t in tasks <==> t in multiset(tasks);
  }

  /** The LIMIT of getRecentTasks: 100 when the argument is left out. */
  const DefaultLimit: int := 100

  /** getRecentTasks(limit): the first `limit` rows of getAllTasks; SQLite
      reads a negative LIMIT as no limit at all. */
  function GetRecentTasks(tasks: seq<Task>, limit: Option<int>): (r: seq<Task>)
    ensures var all := GetAllTasks(tasks);
            |r| <= |all| && r == all[..|r|]
    ensures var n := if limit.Some? then limit.value else DefaultLimit;
            if n < 0 then |r| == |tasks| else |r| == if n < |tasks| then n else |tasks|
    ensures NewestFirst(r)
  {
    AllTasksSorted(tasks);
    var all := GetAllTasks(tasks);
    var n := if limit.Some? then limit.value else DefaultLimit;
    if n < 0 || n >= |all| then all else all[..n]
  }

  /** countTasks. */
  function CountTasks(tasks: seq<Task>): nat {
    |tasks|
  }

  /** countBannedUsers: the rows whose isBanned is exactly 1. */
  function CountBannedUsers(users: seq<User>): nat
  {
    if users == [] then 0
    else (if users[0].isBanned == 1 then 1 else 0) + CountBannedUsers(users[1..])
  }

  /** The banned count is at most the number of users; it is zero exactly
      when no one is banned, and the number of users exactly when everyone
      is. */
  lemma {:induction false} BannedCountBounds(users: seq<User>)
    ensures CountBannedUsers(users) <= |users|
    ensures CountBannedUsers(users) == 0 <==> forall u | u in users :: u.isBanned != 1
    ensures CountBannedUsers(users) == |users| <==> forall u | u in users :: u.isBanned == 1
  {
    if users != [] {
      BannedCountBounds(users[1..]);
      assert forall u | u in users[1..] :: u in users;
      assert forall u | u in users :: u == users[0] || u in users[1..];
    }
  }

  /** Banning one more user that was not banned raises the count by one. */
  lemma {:induction false} BanCounts(users: seq<User>, name: string, now: nat)
    requires UniqueNames(users)
    requires exists u | u in users :: u.username == name && u.isBanned != 1
    ensures CountBannedUsers(UpdateRows(users, name, Patch(Some(1), None), now)) ==
              CountBannedUsers(users) + 1
  {
    var p := Patch(Some(1), None);
    var r := UpdateRows(users, name, p, now);
    var u :| u in users && u.username == name && u.isBanned != 1;
    var k :| 0 <= k < |users| && users[k] == u;
    assert r[1..] == UpdateRows(users[1..], name, p, now);
    assert CountBannedUsers(r) == (if r[0].isBanned == 1 then 1 else 0) + CountBannedUsers(r[1..]);
    if k == 0 {
      forall m | 0 <= m < |users| - 1 ensures users[1..][m].username != name {
        assert users[1..][m] == users[m + 1];
      }
      UnnamedUntouched(users[1..], name, p, now);
      assert r[0].isBanned == 1;
    } else {
      assert users[0].username != name;
      assert users[1..][k - 1] == u;
      UniqueNamesTail(users);
      BanCounts(users[1..], name, now);
      assert r[0] == users[0];
    }
  }

  /** No two rows share a username. */
  predicate UniqueNames(users: seq<User>) {
    forall i, j | 0 <= i < j < |users| :: users[i].username != users[j].username
  }

  lemma UniqueNamesTail(users: seq<User>)
    requires UniqueNames(users) && users != []
    ensures UniqueNames(users[1..])
  {
    forall i, j | 0 <= i < j < |users| - 1
      ensures users[1..][i].username != users[1..][j].username
    {
      assert users[1..][i] == users[i + 1] && users[1..][j] == users[j + 1];
    }
  }

  lemma UnnamedUntouched(users: seq<User>, name: string, p: Patch, now: nat)
    requires forall i | 0 <= i < |users| :: users[i].username != name
    ensures UpdateRows(users, name, p, now) == users
  {
  }

  // ---- deleteTask ----

  /** The Task table after `DELETE FROM Task WHERE id = ?`: the rows with
      that id gone, every other row kept. */
  function WithoutId(ts: seq<Task>, id: int): (r: seq<Task>)
    ensures |r| <= |ts|
    ensures forall t :: t in r <==> t in ts && t.id != id
  {
    if ts == [] then []
    else (if ts[0].id == id then [] else [ts[0]]) + WithoutId(ts[1..], id)
  }

  /** Task ids strictly ascend in storage order, so no two rows share one. */
  predicate IdsAscending(ts: seq<Task>) {
    forall i, j | 0 <= i < j < |ts| :: ts[i].id < ts[j].id
  }

  lemma {:induction false} WithoutIdAscending(ts: seq<Task>, id: int)
    requires IdsAscending(ts)
    ensures IdsAscending(WithoutId(ts, id))
  {
    if ts != [] {
      WithoutIdAscending(ts[1..], id);
      var rest := WithoutId(ts[1..], id);
      forall k | 0 <= k < |rest| ensures ts[0].id < rest[k].id {
        assert rest[k] in ts[1..];
      }
    }
  }

  /** Deleting an id that no row has changes nothing. */
  lemma {:induction false} DeleteAbsent(ts: seq<Task>, id: int)
    requires forall i | 0 <= i < |ts| :: ts[i].id != id
    ensures WithoutId(ts, id) == ts
  {
    if ts != [] {
      DeleteAbsent(ts[1..], id);
      assert ts == [ts[0]] + ts[1..];
    }
  }

  /** Deleting the same id twice leaves what deleting it once leaves. */
  lemma DeleteIdempotent(ts: seq<Task>, id: int)
    ensures WithoutId(WithoutId(ts, id), id) == WithoutId(ts, id)
  {
    var once := WithoutId(ts, id);
    forall i | 0 <= i < |once| ensures once[i].id != id {
      assert once[i] in once;
    }
    DeleteAbsent(once, id);
  }

  /** With distinct ids, deleting an id that is there removes exactly one
      row and keeps every other row. */
  lemma {:induction false} DeleteOne(ts: seq<Task>, id: int)
    requires IdsAscending(ts)
    requires exists t | t in ts :: t.id == id
    ensures |WithoutId(ts, id)| == |ts| - 1
  {
    if ts[0].id == id {
      forall i | 0 <= i < |ts[1..]| ensures ts[1..][i].id != id {
        assert ts[1..][i] == ts[i + 1];
      }
      DeleteAbsent(ts[1..], id);
    } else {
      var t :| t in ts && t.id == id;
      assert t in ts[1..];
      DeleteOne(ts[1..], id);
    }
  }

  /** The two tables. nextTaskId stands for the id the next INSERT INTO Task
      gets. */
  class Store {
    var users: seq<User>
    var tasks: seq<Task>
    var nextTaskId: nat

    /** Task ids are positive, ascend in storage order and are all below the
        next id to hand out. */
    ghost predicate Valid()
      reads this
    {
      && 1 <= nextTaskId
      && IdsAscending(tasks)
      && (forall t | t in tasks :: 1 <= t.id < nextTaskId)
    }

    /** A new database: both tables empty. */
    constructor ()
      ensures Valid() && users == [] && tasks == [] && nextTaskId == 1
    {
      users := [];
      tasks := [];
      nextTaskId := 1;
    }

    /** createUser: appends one row with the given columns; the outbox is
        untouched. */
    method CreateUser(id: string, username: string, passwordHash: string, ipHash: string, now: nat)
      modifies this
      ensures users == old(users) + [NewUser(id, username, passwordHash, ipHash, now)]
      ensures tasks == old(tasks) && nextTaskId == old(nextTaskId)
    {
      users := users + [NewUser(id, username, passwordHash, ipHash, now)];
    }

    /** updateUser(name, p): the SET list is built from p's columns, so an
        empty p is an SQL syntax error (ok false, nothing written); otherwise
        every row with that username gets p and updatedAt = now. */
    method UpdateUser(name: string, p: Patch, now: nat) returns (ok: bool)
      modifies this
      ensures ok <==> !EmptyPatch(p)
      ensures users == if ok then UpdateRows(old(users), name, p, now) else old(users)
      ensures tasks == old(tasks) && nextTaskId == old(nextTaskId)
    {
      ok := !EmptyPatch(p);
      if ok {
        users := UpdateRows(users, name, p, now);
      }
    }

    /** createTask: appends one row with a fresh id and the given columns;
        existing rows and the User table are untouched. */
    method CreateTask(kind: string, action: string, data: Option<string>, now: nat) returns (id: nat)
      requires Valid()
      modifies this
      ensures Valid()
      ensures id == old(nextTaskId) && nextTaskId == id + 1
      ensures tasks == old(tasks) + [Task(id, kind, action, data, now)]
      ensures users == old(users)
    {
      id := nextTaskId;
      tasks := tasks + [Task(id, kind, action, data, now)];
      nextTaskId := nextTaskId + 1;
    }

    /** deleteTask(id): removes the rows with that id, if any. */
    method DeleteTask(id: int)
      requires Valid()
      modifies this
      ensures Valid()
      ensures tasks == WithoutId(old(tasks), id)
      ensures users == old(users) && nextTaskId == old(nextTaskId)
    {
      WithoutIdAscending(tasks, id);
      tasks := WithoutId(tasks, id);
    }
  }
}

/** The plugin pull protocol of routes/mpapi.js: every route runs the
    authenticatePlugin hook first; GET /tasks returns every pending task
    with its payload decrypted, GET /complete deletes one task by id. Every
    answer the routes themselves give carries VERIFICATION_KEY as `verify`;
    the hook's 403 does not. */
module PluginApi {
  import opened Js
  import opened Http
  import opened Encryption
  import opened Db
  import opened Security

  const DbError: string := "DB Error"
  const InvalidId: string := "Invalid ID"

  /** The process environment the plugin routes read, ENCRYPTION_KEY as
      utils/encryption.js computed it from DB_SECRET when it was loaded, and
      the cipher. */
  datatype PluginEnv = PluginEnv(
    apiKey: Option<string>, verificationKey: Option<string>, key: string, crypto: Crypto)

  /** What the plugin receives: the hook's refusal, or the route's answer
      with the `verify` field beside it. */
  datatype PluginReply<+T> = Rejected(status: nat, error: string) | Answered(reply: Reply<T>, verify: Option<string>)

  /** A task as the poll hands it out: id, type and action as stored, data
      decrypted. */
  datatype PlainTask = PlainTask(id: nat, kind: string, action: string, data: Option<string>)

  /** tasks.map(t => ({ ..., data: decrypt(t.data) })): the first task whose
      payload does not decrypt makes the whole map throw. */
  function DecryptTasks(c: Crypto, key: string, ts: seq<Task>): (r: Result<seq<PlainTask>, CryptoError>)
    ensures r.Ok? <==> forall i | 0 <= i < |ts| :: Decrypt(c, key, ts[i].data).Ok?
    ensures r.Ok? ==> |r.value| == |ts|
    ensures r.Ok? ==>
              forall i | 0 <= i < |ts| ::
                && r.value[i].id == ts[i].id && r.value[i].kind == ts[i].kind && r.value[i].action == ts[i].action
                && Decrypt(c, key, ts[i].data) == Ok(r.value[i].data)
  {
    if ts == [] then Ok([])
    else
      var t := ts[0];
      match Decrypt(c, key, t.data)
      case Err(e) => Err(e)
      case Ok(data) =>
        match DecryptTasks(c, key, ts[1..])
        case Err(e) => Err(e)
        case Ok(rest) =>
          assert forall i | 1 <= i < |ts| :: ts[i] == ts[1..][i - 1];
          Ok([PlainTask(t.id, t.kind, t.action, data)] + rest)
  }

  /** A task of a list that decrypts as a whole is in the result, with its
      own payload decrypted. */
  lemma {:induction false} DecryptTasksHas(c: Crypto, key: string, ts: seq<Task>, t: Task)
    requires t in ts && DecryptTasks(c, key, ts).Ok?
    ensures PlainTask(t.id, t.kind, t.action, Decrypt(c, key, t.data).value) in DecryptTasks(c, key, ts).value
  {
    if ts[0] != t {
      DecryptTasksHas(c, key, ts[1..], t);
    }
  }

  /** GET /mpapi/tasks: the hook, then every task of getAllTasks in its
      order with its payload decrypted, or a 500 when one does not decrypt.
      The Task table is only read. */
  function Poll(env: PluginEnv, header: Option<string>, tasks: seq<Task>): (r: PluginReply<seq<PlainTask>>)
    ensures r.Rejected? <==> AuthenticatePlugin(header, env.apiKey) != Continue
    ensures r.Rejected? ==> r == Rejected(403, InvalidApiKey)
    ensures r.Answered? ==> r.verify == env.verificationKey
    ensures r.Answered? ==> r.reply.Success? || r.reply == Fail(500, DbError)
    ensures r.Answered? && r.reply.Success? ==>
              var all := GetAllTasks(tasks);
              && |r.reply.body| == |all|
              && forall i | 0 <= i < |all| ::
                   && r.reply.body[i].id == all[i].id && r.reply.body[i].kind == all[i].kind
                   && r.reply.body[i].action == all[i].action
                   && Decrypt(env.crypto, env.key, all[i].data) == Ok(r.reply.body[i].data)
  {
    match AuthenticatePlugin(header, env.apiKey)
    case Halt(status, error) => Rejected(status, error)
    case Continue =>
      match DecryptTasks(env.crypto, env.key, GetAllTasks(tasks))
      case Err(_) => Answered(Fail(500, DbError), env.verificationKey)
      case Ok(plain) => Answered(Success(plain), env.verificationKey)
  }

  /** Every stored task is handed out by an authenticated poll, with its
      payload decrypted, when every payload decrypts. */
  lemma PollFindsTask(env: PluginEnv, header: Option<string>, tasks: seq<Task>, t: Task)
    requires Truthy(header) && header == env.apiKey
    requires t in tasks
    requires forall u | u in tasks :: Decrypt(env.crypto, env.key, u.data).Ok?
    ensures var r := Poll(env, header, tasks);
            var plain := Decrypt(env.crypto, env.key, t.data).value;
            r.Answered? && r.reply.Success? && PlainTask(t.id, t.kind, t.action, plain) in r.reply.body
  {
    var key := env.key;
    var all := GetAllTasks(tasks);
    AllTasksMembers(tasks, t);
    forall k | 0 <= k < |all| ensures Decrypt(env.crypto, key, all[k].data).Ok? {
      AllTasksMembers(tasks, all[k]);
    }
    DecryptTasksHas(env.crypto, key, all, t);
  }

  /** A nick the whitelist routes enqueued comes back out of the poll as
      the nick: encrypting with a fresh IV and decrypting round-trip. */
  lemma PollDeliversNick(env: PluginEnv, header: Option<string>, tasks: seq<Task>, t: Task,
                         iv: seq<Byte>, nick: Option<string>)
    requires CipherRoundTrips(env.crypto) && |iv| == IvLength
    requires Truthy(header) && header == env.apiKey
    requires t in tasks
    requires Truthy(nick) ==> |Utf8(env.key)| == KeyLength
    requires Encrypt(env.crypto, env.key, iv, nick).Ok?
    requires t.data == Encrypt(env.crypto, env.key, iv, nick).value
    requires forall u | u in tasks :: Decrypt(env.crypto, env.key, u.data).Ok?
    ensures var r := Poll(env, header, tasks);
            r.Answered? && r.reply.Success? &&
            PlainTask(t.id, t.kind, t.action, nick) in r.reply.body
  {
    DecryptEncrypt(env.crypto, env.key, iv, nick);
    PollFindsTask(env, header, tasks, t);
  }

  /** GET /mpapi/complete?task=...: the hook; then parseInt of the query
      value, 400 when it is NaN; otherwise the rows with that id are deleted
      and the answer is success whether or not there was one. */
  method Complete(db: Store, env: PluginEnv, header: Option<string>, task: Option<string>)
    returns (r: PluginReply<()>)
    requires db.Valid()
    modifies db
    ensures db.Valid()
    ensures db.users == old(db.users) && db.nextTaskId == old(db.nextTaskId)
    ensures AuthenticatePlugin(header, env.apiKey) != Continue ==>
              r == Rejected(403, InvalidApiKey) && db.tasks == old(db.tasks)
    ensures AuthenticatePlugin(header, env.apiKey) == Continue ==> r.Answered? && r.verify == env.verificationKey
    ensures var id := if task.Some? then ParseInt(task.value) else None;
            AuthenticatePlugin(header, env.apiKey) == Continue ==>
              && (id.None? ==> r.reply == Fail(400, InvalidId) && db.tasks == old(db.tasks))
              && (id.Some? ==> r.reply == Success(()) && db.tasks == WithoutId(old(db.tasks), id.value))
  {
    var hook := AuthenticatePlugin(header, env.apiKey);
    if hook.Halt? {
      return Rejected(hook.status, hook.error);
    }
    var taskId := if task.Some? then ParseInt(task.value) else None;
    if taskId.None? {
      return Answered(Fail(400, InvalidId), env.verificationKey);
    }
    db.DeleteTask(taskId.value);
    r := Answered(Success(()), env.verificationKey);
  }

  /** The plugin reads back the id it was given: the decimal rendering of a
      task id parses to that id, so complete deletes that task and, ids
      being distinct, no other. */
  lemma CompleteDeletesPolled(ts: seq<Task>, t: Task)
    requires IdsAscending(ts) && t in ts
    ensures ParseInt(Decimal(t.id)) == Some(t.id as int)
    ensures t !in WithoutId(ts, t.id)
    ensures forall u | u in ts && u != t :: u in WithoutId(ts, t.id)
    ensures CountTasks(WithoutId(ts, t.id)) == CountTasks(ts) - 1
  {
    ParseIntDecimal(t.id);
    forall u | u in ts && u != t ensures u.id != t.id {
      var i :| 0 <= i < |ts| && ts[i] == u;
      var j :| 0 <= j < |ts| && ts[j] == t;
      assert i != j;
    }
    DeleteOne(ts, t.id);
  }
}
